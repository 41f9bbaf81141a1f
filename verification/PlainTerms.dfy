/** What bytes on the line, fields of the record and contents of memory have to do with each other, in numbers only:
  * offsets, multiples of 256, remainders and binary digits.  Nothing here uses how requests are encoded, decoded or
  * served. */
module PlainTerms {
  import opened Bytes
  import opened Crc
  import opened ModbusMemory
  import opened Pdu

  /** Two bytes as a number, the first one counting 256 times. */
  function Number(hi: int, lo: int): int {
    256 * hi + lo
  }

  /** The n bytes from offset o on have the shape of a request: two words; or two words, a byte count and so much
    * data; or four words, a byte count and so much data. */
  predicate PlainPdu(w: seq<byte>, o: nat, n: nat) {
    && n > 0 && o + n <= |w|
    && var fc := w[o];
       if 1 <= fc <= 6 then n == 5
       else if fc == 15 || fc == 16 then n >= 6 && n - 6 == w[o + 5]
       else fc == 23 && n >= 10 && n - 10 == w[o + 9]
  }

  /** The record holds what stands at offset o, each word high byte first. */
  predicate PlainRecord(w: seq<byte>, o: nat, p: PduRecord) {
    && o + 5 <= |w| && p.fc == w[o]
    && p.i16_1 == Number(w[o + 1], w[o + 2]) && p.i16_2 == Number(w[o + 3], w[o + 4])
    && (p.fc == 15 || p.fc == 16 ==>
          o + 6 + |p.data| <= |w| && p.i8_1 == w[o + 5] == |p.data| && p.data == w[o + 6..o + 6 + |p.data|])
    && (p.fc == 23 ==>
          && o + 10 + |p.data| <= |w|
          && p.i16_3 == Number(w[o + 5], w[o + 6]) && p.i16_4 == Number(w[o + 7], w[o + 8])
          && p.i8_1 == w[o + 9] == |p.data| && p.data == w[o + 10..o + 10 + |p.data|])
  }

  /** A request with as much data as it says. */
  predicate PlainRequest(p: PduRecord) {
    1 <= p.fc <= 6 || ((p.fc == 15 || p.fc == 16 || p.fc == 23) && |p.data| == p.i8_1)
  }

  /** How far x comes after start, around the 16-bit addresses. */
  function After(start: u16, x: u16): nat {
    (x - start) % 65536
  }

  /** The register at x after the request: function 6 writes the second word to the address in the first; function 16
    * writes pairs of data bytes from the address in the first word on, as many as the second says; function 23 does
    * so with the third and fourth word. */
  function PlainReg(p: PduRecord, old': u16, x: u16): int {
    if p.fc == 6 && x == p.i16_1 then p.i16_2
    else if p.fc == 16 && After(p.i16_1, x) < p.i16_2 && 2 * After(p.i16_1, x) + 1 < |p.data| then
      Number(p.data[2 * After(p.i16_1, x)], p.data[2 * After(p.i16_1, x) + 1])
    else if p.fc == 23 && After(p.i16_3, x) < p.i16_4 && 2 * After(p.i16_3, x) + 1 < |p.data| then
      Number(p.data[2 * After(p.i16_3, x)], p.data[2 * After(p.i16_3, x) + 1])
    else old'
  }

  /** The coil at x after the request: function 5 sets it to whether the second word is not zero; function 15 writes the
    * binary digits of the data bytes, lowest first. */
  predicate PlainCoil(p: PduRecord, old': bool, x: u16) {
    if p.fc == 5 && x == p.i16_1 then p.i16_2 != 0
    else if p.fc == 15 && After(p.i16_1, x) < p.i16_2 && After(p.i16_1, x) < 8 * |p.data| then
      Digit(p.data[After(p.i16_1, x) / 8], After(p.i16_1, x) % 8)
    else old'
  }

  /** What the request does to memory. */
  ghost predicate PlainEffect(p: PduRecord, m: Memory, m': Memory) {
    && |m.coils| == |m'.coils| == 65536 && |m.regs| == |m'.regs| == 65536
    && (forall x: u16 :: m'.regs[x] == PlainReg(p, m.regs[x], x))
    && (forall x: u16 :: m'.coils[x] == PlainCoil(p, m.coils[x], x))
  }

  /** The reply s of device a to a request that left memory as m': device and function code; for functions 1 and 2 a
    * byte count and the coils as binary digits, lowest first; for 3, 4 and 23 a byte count and the registers, high
    * byte first; for 15 and 16 the two words of the request; and the checksum. */
  ghost predicate PlainReply(a: byte, p: PduRecord, m': Memory, s: seq<byte>) {
    && |m'.coils| == 65536 && |m'.regs| == 65536
    && |s| >= 5 && s[0] == a && s[1] == p.fc && Accepted(s)
    && if p.fc == 1 || p.fc == 2 then
         && |s| == 5 + (p.i16_2 + 7) / 8 && s[2] == (p.i16_2 + 7) / 8 % 256
         && forall i :: 0 <= i < 8 * ((p.i16_2 + 7) / 8) ==>
              (Digit(s[3 + i / 8], i % 8) <==> i < p.i16_2 && m'.coils[(p.i16_1 + i) % 65536])
       else if p.fc == 3 || p.fc == 4 || p.fc == 23 then
         && |s| == 5 + 2 * p.i16_2 && s[2] == 2 * p.i16_2 % 256
         && forall i :: 0 <= i < p.i16_2 ==> Number(s[3 + 2 * i], s[4 + 2 * i]) == m'.regs[(p.i16_1 + i) % 65536]
       else
         && (p.fc == 15 || p.fc == 16) && |s| == 8
         && Number(s[2], s[3]) == p.i16_1 && Number(s[4], s[5]) == p.i16_2
  }

  // ---------------------------------------------------------------- memory and replies are as said

  lemma PlainRequestIsWellFormed(p: PduRecord)
    ensures PlainRequest(p) <==> WellFormed(Defined(p))
  {
  }

  lemma DistanceIsAfter(start: u16, x: u16)
    ensures Distance(start, x) == After(start, x)
  {
  }

  lemma RegIsPlain(m: Memory, p: PduRecord, x: u16)
    requires Total(m) && PlainRequest(p)
    ensures Apply(m, Defined(p)).regs[x] == PlainReg(p, m.regs[x], x)
  {
    DistanceIsAfter(p.i16_1, x);
    DistanceIsAfter(p.i16_3, x);
  }

  lemma CoilIsPlain(m: Memory, p: PduRecord, x: u16)
    requires Total(m) && PlainRequest(p)
    ensures Apply(m, Defined(p)).coils[x] == PlainCoil(p, m.coils[x], x)
  {
    var d := Distance(p.i16_1, x);
    DistanceIsAfter(p.i16_1, x);
    if p.fc == 15 && d < 8 * |p.data| {
      BitIsDigit(p.data[d / 8], d % 8);
    }
  }

  lemma ApplyIsPlain(m: Memory, p: PduRecord)
    requires Total(m) && PlainRequest(p)
    ensures PlainEffect(p, m, Apply(m, Defined(p)))
  {
    var m' := Apply(m, Defined(p));
    forall x: u16
      ensures m'.regs[x] == PlainReg(p, m.regs[x], x) && m'.coils[x] == PlainCoil(p, m.coils[x], x)
    {
      RegIsPlain(m, p, x);
      CoilIsPlain(m, p, x);
    }
  }

  lemma CoilReplyIsPlain(a: byte, p: PduRecord, m': Memory)
    requires Total(m') && (p.fc == 1 || p.fc == 2)
    ensures PlainReply(a, p, m', CoilReply(a, p.fc, m'.coils, p.i16_1, p.i16_2))
  {
    var s := CoilReply(a, p.fc, m'.coils, p.i16_1, p.i16_2);
    CoilReplyShape(a, p.fc, m'.coils, p.i16_1, p.i16_2);
    forall i | 0 <= i < 8 * ((p.i16_2 + 7) / 8)
      ensures Digit(s[3 + i / 8], i % 8) <==> i < p.i16_2 && m'.coils[(p.i16_1 + i) % 65536]
    {
      CoilReplyBit(a, p.fc, m'.coils, p.i16_1, p.i16_2, i);
      BitIsDigit(s[3 + i / 8], i % 8);
    }
  }

  lemma RegReplyIsPlain(a: byte, p: PduRecord, m': Memory)
    requires Total(m') && (p.fc == 3 || p.fc == 4 || p.fc == 23)
    ensures PlainReply(a, p, m', RegReply(a, p.fc, m'.regs, p.i16_1, p.i16_2))
  {
    var s := RegReply(a, p.fc, m'.regs, p.i16_1, p.i16_2);
    RegReplyShape(a, p.fc, m'.regs, p.i16_1, p.i16_2);
    forall i | 0 <= i < p.i16_2
      ensures Number(s[3 + 2 * i], s[4 + 2 * i]) == m'.regs[(p.i16_1 + i) % 65536]
    {
      RegReplyWord(a, p.fc, m'.regs, p.i16_1, p.i16_2, i);
    }
  }

  lemma WriteReplyIsPlain(a: byte, p: PduRecord, m': Memory)
    requires Total(m') && (p.fc == 15 || p.fc == 16)
    ensures PlainReply(a, p, m', WriteReply(a, p.fc, p.i16_1, p.i16_2))
  {
    SignedAccepted([a, p.fc, HiByte(p.i16_1), LoByte(p.i16_1), HiByte(p.i16_2), LoByte(p.i16_2)]);
    CombineOfHalves(p.i16_1);
    CombineOfHalves(p.i16_2);
  }

  lemma ReplyIsPlain(a: byte, p: PduRecord, m': Memory)
    requires Total(m') && PlainRequest(p)
    ensures match Reply(a, m', Defined(p))
            case None => p.fc == 5 || p.fc == 6
            case Some(s) => p.fc != 5 && p.fc != 6 && PlainReply(a, p, m', s)
  {
    if p.fc == 1 || p.fc == 2 {
      CoilReplyIsPlain(a, p, m');
    } else if p.fc == 3 || p.fc == 4 || p.fc == 23 {
      RegReplyIsPlain(a, p, m');
    } else if p.fc == 15 || p.fc == 16 {
      WriteReplyIsPlain(a, p, m');
    }
  }
}
