/** The total memory the server stands for, what a request does to it, and the reply it calls for. */
module ModbusMemory {
  import opened Bytes
  import opened Crc
  import opened Pdu

  const SPACE: nat := 0x1_0000

  /** A coil and a register at every 16-bit address. */
  datatype Memory = Memory(coils: seq<bool>, regs: seq<u16>)

  predicate Total(m: Memory) {
    |m.coils| == SPACE && |m.regs| == SPACE
  }

  /** The address after one, as a 16-bit counter steps. */
  function Next(a: u16): u16 {
    if a == 0xFFFF then 0 else a + 1
  }

  /** The address d places after start; addresses wrap around. */
  function Address(start: u16, d: nat): (a: u16)
    requires d < SPACE
    ensures a == (start + d) % SPACE
  {
    if start + d < SPACE then start + d else start + d - SPACE
  }

  /** How many places after start the address a comes. */
  function Distance(start: u16, a: u16): (d: nat)
    ensures d < SPACE && Address(start, d) == a
  {
    if a >= start then a - start else a + SPACE - start
  }

  lemma DistanceOfAddress(start: u16, d: nat)
    requires d < SPACE
    ensures Distance(start, Address(start, d)) == d
  {
  }

  lemma NextAddress(start: u16, d: nat)
    requires d + 1 < SPACE
    ensures Next(Address(start, d)) == Address(start, d + 1)
  {
  }

  // ---------------------------------------------------------------- writing

  /** Coils after a write of q coils from start on: coil number d takes bit d % 8 of data byte d / 8, as far as there is
    * data. */
  function WriteCoils(coils: seq<bool>, start: u16, q: nat, data: seq<byte>): (r: seq<bool>)
    requires |coils| == SPACE
    ensures |r| == SPACE
  {
    seq(SPACE, a requires 0 <= a < SPACE =>
      var d := Distance(start, a);
      if d < q && d < 8 * |data| then Bit(data[d / 8], d % 8) else coils[a])
  }

  /** Registers after a write of q registers from start on, high byte first, as far as there is data. */
  function WriteRegs(regs: seq<u16>, start: u16, q: nat, data: seq<byte>): (r: seq<u16>)
    requires |regs| == SPACE
    ensures |r| == SPACE
  {
    seq(SPACE, a requires 0 <= a < SPACE =>
      var d := Distance(start, a);
      if d < q && 2 * d + 1 < |data| then Combine(data[2 * d], data[2 * d + 1]) else regs[a])
  }

  /** What a request does to memory. */
  function Apply(m: Memory, r: Request): (m': Memory)
    requires Total(m)
    ensures Total(m')
  {
    match r
    case Simple(fc, address, value) =>
      if fc == 5 then m.(coils := m.coils[address := value != 0])
      else if fc == 6 then m.(regs := m.regs[address := value])
      else m
    case WriteMany(fc, start, q, _, data) =>
      if fc == 15 then m.(coils := WriteCoils(m.coils, start, q, data))
      else m.(regs := WriteRegs(m.regs, start, q, data))
    case ReadWrite(_, _, start, q, _, data) => m.(regs := WriteRegs(m.regs, start, q, data))
  }

  /** Writing one more coil is one update. */
  lemma WriteOneMoreCoil(coils: seq<bool>, start: u16, k: nat, data: seq<byte>)
    requires |coils| == SPACE && k < SPACE && k < 8 * |data|
    ensures WriteCoils(coils, start, k + 1, data) ==
            WriteCoils(coils, start, k, data)[Address(start, k) := Bit(data[k / 8], k % 8)]
  {
    DistanceOfAddress(start, k);
  }

  lemma WriteOneMoreReg(regs: seq<u16>, start: u16, k: nat, data: seq<byte>)
    requires |regs| == SPACE && k < SPACE && 2 * k + 1 < |data|
    ensures WriteRegs(regs, start, k + 1, data) ==
            WriteRegs(regs, start, k, data)[Address(start, k) := Combine(data[2 * k], data[2 * k + 1])]
  {
    DistanceOfAddress(start, k);
  }

  // ---------------------------------------------------------------- reading

  function CoilsFrom(coils: seq<bool>, start: u16, q: u16): (bits: seq<bool>)
    requires |coils| == SPACE
    ensures |bits| == q
  {
    seq(q, d requires 0 <= d < q => coils[Address(start, d)])
  }

  function RegsFrom(regs: seq<u16>, start: u16, q: u16): (words: seq<u16>)
    requires |regs| == SPACE
    ensures |words| == q
  {
    seq(q, d requires 0 <= d < q => regs[Address(start, d)])
  }

  /** Up to eight bits in one byte, the first of them lowest. */
  function OrMasks(bits: seq<bool>): bv8
    requires |bits| <= 8
    decreases |bits|
  {
    if bits == [] then 0 else
    var n := |bits| - 1;
    if bits[n] then OrBits(OrMasks(bits[..n]), Mask(n)) else OrMasks(bits[..n])
  }

  function OrBits(v: bv8, w: bv8): bv8 {
    v | w
  }

  function PackByte(bits: seq<bool>): byte
    requires |bits| <= 8
  {
    FromBits(OrMasks(bits))
  }

  /** Bits packed eight to a byte, the last byte filled up with zeros. */
  function PackBits(bits: seq<bool>): (s: seq<byte>)
    ensures |s| == (|bits| + 7) / 8
    decreases |bits|
  {
    if bits == [] then []
    else if |bits| <= 8 then [PackByte(bits)]
    else [PackByte(bits[..8])] + PackBits(bits[8..])
  }

  function WordBytes(words: seq<u16>): (s: seq<byte>)
    ensures |s| == 2 * |words|
  {
    if words == [] then [] else [HiByte(words[0]), LoByte(words[0])] + WordBytes(words[1..])
  }

  lemma BitOfOr(v: bv8, n: nat, i: nat)
    requires n < 8 && i < 8
    ensures BitSet(OrBits(v, Mask(n)), i) <==> BitSet(v, i) || i == n
  {
  }

  lemma {:induction false} BitOfOrMasks(bits: seq<bool>, i: nat)
    requires |bits| <= 8 && i < 8
    ensures BitSet(OrMasks(bits), i) <==> i < |bits| && bits[i]
    decreases |bits|
  {
    if bits != [] {
      var n := |bits| - 1;
      BitOfOrMasks(bits[..n], i);
      BitOfOr(OrMasks(bits[..n]), n, i);
    }
  }

  /** Bit i of the packed bytes is bit i of the sequence, and the padding is zero. */
  lemma {:induction false} BitOfPackBits(bits: seq<bool>, i: nat)
    requires i < 8 * |PackBits(bits)|
    ensures Bit(PackBits(bits)[i / 8], i % 8) <==> i < |bits| && bits[i]
    decreases |bits|
  {
    if |bits| <= 8 {
      FromBitsRoundTrip(OrMasks(bits));
      BitOfOrMasks(bits, i);
    } else {
      var first, rest := bits[..8], PackBits(bits[8..]);
      assert PackBits(bits) == [PackByte(first)] + rest;
      if i < 8 {
        FromBitsRoundTrip(OrMasks(first));
        BitOfOrMasks(first, i);
      } else {
        BitOfPackBits(bits[8..], i - 8);
        assert PackBits(bits)[i / 8] == rest[(i - 8) / 8] && (i - 8) % 8 == i % 8;
      }
    }
  }

  lemma {:induction false} WordBytesAt(words: seq<u16>, i: nat)
    requires i < |words|
    ensures WordBytes(words)[2 * i] == HiByte(words[i]) && WordBytes(words)[2 * i + 1] == LoByte(words[i])
  {
    if i > 0 {
      WordBytesAt(words[1..], i - 1);
      assert WordBytes(words)[2 * i] == WordBytes(words[1..])[2 * (i - 1)];
      assert WordBytes(words)[2 * i + 1] == WordBytes(words[1..])[2 * (i - 1) + 1];
    }
  }

  // ---------------------------------------------------------------- round trips

  /** Writing coils and reading the same range back returns the written bits, with zeros for padding. */
  lemma CoilRoundTrip(coils: seq<bool>, start: u16, q: u16, data: seq<byte>, i: nat)
    requires |coils| == SPACE && q <= 8 * |data|
    requires i < 8 * ((q + 7) / 8)
    ensures var back := PackBits(CoilsFrom(WriteCoils(coils, start, q, data), start, q));
            |back| == (q + 7) / 8 && (Bit(back[i / 8], i % 8) <==> i < q && Bit(data[i / 8], i % 8))
  {
    var bits := CoilsFrom(WriteCoils(coils, start, q, data), start, q);
    BitOfPackBits(bits, i);
    if i < q {
      DistanceOfAddress(start, i);
    }
  }

  /** Writing registers and reading the same range back returns the written bytes. */
  lemma RegRoundTrip(regs: seq<u16>, start: u16, q: u16, data: seq<byte>)
    requires |regs| == SPACE && 2 * q <= |data|
    ensures WordBytes(RegsFrom(WriteRegs(regs, start, q, data), start, q)) == data[..2 * q]
  {
    var words := RegsFrom(WriteRegs(regs, start, q, data), start, q);
    forall i | 0 <= i < q
      ensures WordBytes(words)[2 * i] == data[2 * i] && WordBytes(words)[2 * i + 1] == data[2 * i + 1]
    {
      DistanceOfAddress(start, i);
      WordBytesAt(words, i);
      HalvesOfCombine(data[2 * i], data[2 * i + 1]);
    }
    PairsEqual(WordBytes(words), data[..2 * q], q);
  }

  lemma PairsEqual(s: seq<byte>, t: seq<byte>, q: nat)
    requires |s| == |t| == 2 * q
    requires forall i :: 0 <= i < q ==> s[2 * i] == t[2 * i] && s[2 * i + 1] == t[2 * i + 1]
    ensures s == t
  {
    forall k | 0 <= k < 2 * q
      ensures s[k] == t[k]
    {
      assert k == 2 * (k / 2) || k == 2 * (k / 2) + 1;
    }
  }

  // ---------------------------------------------------------------- replies

  function Signed(s: seq<byte>): seq<byte> {
    s + CrcBytes(s)
  }

  /** The byte counts are 8-bit and wrap around. */
  function CoilReply(a: byte, fc: byte, coils: seq<bool>, start: u16, q: u16): seq<byte>
    requires |coils| == SPACE
  {
    Signed([a, fc, (q + 7) / 8 % 256] + PackBits(CoilsFrom(coils, start, q)))
  }

  function RegReply(a: byte, fc: byte, regs: seq<u16>, start: u16, q: u16): seq<byte>
    requires |regs| == SPACE
  {
    Signed([a, fc, 2 * q % 256] + WordBytes(RegsFrom(regs, start, q)))
  }

  function WriteReply(a: byte, fc: byte, start: u16, q: u16): seq<byte> {
    Signed([a, fc, HiByte(start), LoByte(start), HiByte(q), LoByte(q)])
  }

  /** The reply of device a to a request that left memory as m'; none is built for the requests that are mirrored. */
  function Reply(a: byte, m': Memory, r: Request): Option<seq<byte>>
    requires Total(m')
  {
    match r
    case Simple(fc, start, q) =>
      if fc == 1 || fc == 2 then Some(CoilReply(a, fc, m'.coils, start, q))
      else if fc == 3 || fc == 4 then Some(RegReply(a, fc, m'.regs, start, q))
      else None
    case WriteMany(fc, start, q, _, _) => Some(WriteReply(a, fc, start, q))
    case ReadWrite(start, q, _, _, _, _) => Some(RegReply(a, 23, m'.regs, start, q))
  }

  function FcOf(r: Request): byte {
    if r.ReadWrite? then 23 else r.fc
  }

  /** The requests the server can serve without running past its output buffer or the data it was given. */
  predicate Servable(r: Request) {
    && WellFormed(r)
    && match r
       case Simple(fc, _, q) => (fc <= 2 ==> q <= 8152) && (fc == 3 || fc == 4 ==> q <= 509)
       case WriteMany(fc, _, q, count, _) => fc == 16 ==> count % 2 == 0 || 2 * q <= count
       case ReadWrite(_, rq, _, q, count, _) => rq <= 509 && (count % 2 == 0 || 2 * q <= count)
  }

  lemma CoilReplyShape(a: byte, fc: byte, coils: seq<bool>, start: u16, q: u16)
    requires |coils| == SPACE
    ensures var s := CoilReply(a, fc, coils, start, q);
            |s| == 5 + (q + 7) / 8 && s[0] == a && s[1] == fc && s[2] == (q + 7) / 8 % 256 && Accepted(s)
  {
    SignedAccepted([a, fc, (q + 7) / 8 % 256] + PackBits(CoilsFrom(coils, start, q)));
  }

  lemma RegReplyShape(a: byte, fc: byte, regs: seq<u16>, start: u16, q: u16)
    requires |regs| == SPACE
    ensures var s := RegReply(a, fc, regs, start, q);
            |s| == 5 + 2 * q && s[0] == a && s[1] == fc && s[2] == 2 * q % 256 && Accepted(s)
  {
    SignedAccepted([a, fc, 2 * q % 256] + WordBytes(RegsFrom(regs, start, q)));
  }

  /** The loop of functions 16 and 23, with n registers written and ix data bytes read, never reads past the data. */
  predicate LoopStaysInside(ix: nat, n: nat, q: u16, count: byte)
    decreases q - n
  {
    ix < count && n < q ==> ix + 1 < count && LoopStaysInside(ix + 2, n + 1, q, count)
  }

  /** The reply fits the output buffer, and writing registers reads only the data there is. */
  predicate StaysInBounds(a: byte, m': Memory, r: Request)
    requires Total(m')
  {
    && (Reply(a, m', r).Some? ==> |Reply(a, m', r).value| <= BUF_SIZE)
    && match r
       case Simple(_, _, _) => true
       case WriteMany(fc, _, q, count, _) => fc == 16 ==> LoopStaysInside(0, 0, q, count)
       case ReadWrite(_, _, _, q, count, _) => LoopStaysInside(0, 0, q, count)
  }

  lemma {:induction false} LoopStaysInsideExactly(n: nat, q: u16, count: byte)
    ensures LoopStaysInside(2 * n, n, q, count) <==> n >= q || 2 * n >= count || count % 2 == 0 || 2 * q <= count
    decreases q - n
  {
    if 2 * n < count && n < q {
      LoopStaysInsideExactly(n + 1, q, count);
    }
  }

  /** Exactly the servable requests are served within the bounds of the output buffer and of the data. */
  lemma ServableExactly(a: byte, m': Memory, r: Request)
    requires Total(m') && WellFormed(r)
    ensures Servable(r) <==> StaysInBounds(a, m', r)
  {
    match r
    case Simple(fc, start, q) =>
      if fc <= 2 {
        CoilReplyShape(a, fc, m'.coils, start, q);
      } else if fc <= 4 {
        RegReplyShape(a, fc, m'.regs, start, q);
      }
    case WriteMany(fc, start, q, count, _) =>
      SignedAccepted([a, fc, HiByte(start), LoByte(start), HiByte(q), LoByte(q)]);
      LoopStaysInsideExactly(0, q, count);
    case ReadWrite(start, rq, _, q, count, _) =>
      RegReplyShape(a, 23, m'.regs, start, rq);
      LoopStaysInsideExactly(0, q, count);
  }

  /** Requests that are not: one coil or one register too many for the buffer, and one byte of data for one register. */
  lemma OutOfBounds(a: byte, m': Memory)
    requires Total(m')
    ensures |Reply(a, m', Simple(1, 0, 8153)).value| == BUF_SIZE + 1
    ensures |Reply(a, m', Simple(3, 0, 510)).value| == BUF_SIZE + 1
    ensures !LoopStaysInside(0, 0, 1, 1)
  {
    CoilReplyShape(a, 1, m'.coils, 0, 8153);
    RegReplyShape(a, 3, m'.regs, 0, 510);
  }

  lemma SignedAccepted(s: seq<byte>)
    ensures Accepted(Signed(s)) && |Signed(s)| == |s| + 2 && Signed(s)[..|s|] == s
  {
    var c := CrcBytes(s);
    assert c == [c[0], c[1]];
    AcceptedParts(s, c[0], c[1]);
  }

  /** Every reply built fits the output buffer, starts with the device address and the function code, and ends with the
    * checksum of what precedes it. */
  lemma ReplyWellFormed(a: byte, m': Memory, r: Request)
    requires Total(m') && Servable(r) && Reply(a, m', r).Some?
    ensures var s := Reply(a, m', r).value;
            5 <= |s| <= BUF_SIZE && s[0] == a && s[1] == FcOf(r) && Accepted(s)
  {
    match r
    case Simple(fc, start, q) =>
      if fc <= 2 {
        CoilReplyShape(a, fc, m'.coils, start, q);
      } else {
        RegReplyShape(a, fc, m'.regs, start, q);
      }
    case WriteMany(fc, start, q, _, _) =>
      SignedAccepted([a, fc, HiByte(start), LoByte(start), HiByte(q), LoByte(q)]);
    case ReadWrite(start, q, _, _, _, _) =>
      RegReplyShape(a, 23, m'.regs, start, q);
  }

  /** The reply to a write of many is the request's own address, function code, start and quantity, signed. */
  lemma WriteReplyEchoes(a: byte, m': Memory, r: Request)
    requires Total(m') && r.WriteMany? && WellFormed(r)
    ensures |Encode(r)| > 5 && Reply(a, m', r) == Some(Signed([a] + Encode(r)[..5]))
  {
    assert [a] + Encode(r)[..5] == [a, r.fc, HiByte(r.start), LoByte(r.start), HiByte(r.quantity), LoByte(r.quantity)];
  }

  /** The byte-count field of a coil reply tells the number of data bytes exactly up to 2040 coils... */
  lemma CoilCountField(a: byte, fc: byte, coils: seq<bool>, start: u16, q: u16)
    requires |coils| == SPACE
    ensures var s := CoilReply(a, fc, coils, start, q); |s| > 2 && (s[2] == |s| - 5 <==> q <= 2040)
  {
    CoilReplyShape(a, fc, coils, start, q);
  }

  /** ...and that of a register reply up to 127 registers. */
  lemma RegCountField(a: byte, fc: byte, regs: seq<u16>, start: u16, q: u16)
    requires |regs| == SPACE
    ensures var s := RegReply(a, fc, regs, start, q); |s| > 2 && (s[2] == |s| - 5 <==> q <= 127)
  {
    RegReplyShape(a, fc, regs, start, q);
  }

  /** Each register of a register reply. */
  lemma RegReplyWord(a: byte, fc: byte, regs: seq<u16>, start: u16, q: u16, i: nat)
    requires |regs| == SPACE && i < q
    ensures var s := RegReply(a, fc, regs, start, q);
            |s| == 5 + 2 * q && Combine(s[3 + 2 * i], s[4 + 2 * i]) == regs[Address(start, i)]
  {
    var words := RegsFrom(regs, start, q);
    var body := [a, fc, 2 * q % 256] + WordBytes(words);
    SignedAccepted(body);
    var s := Signed(body);
    WordBytesAt(words, i);
    assert s[3 + 2 * i] == body[3 + 2 * i] == HiByte(words[i]);
    assert s[4 + 2 * i] == body[4 + 2 * i] == LoByte(words[i]);
    CombineOfHalves(words[i]);
  }

  // The data bytes of a coil reply are the packed coils.
  lemma CoilReplyData(a: byte, fc: byte, coils: seq<bool>, start: u16, q: u16, k: nat)
    requires |coils| == SPACE && k < (q + 7) / 8
    ensures var s, bits := CoilReply(a, fc, coils, start, q), CoilsFrom(coils, start, q);
            |s| == 5 + (q + 7) / 8 && s[2] == (q + 7) / 8 % 256 && s[3 + k] == PackBits(bits)[k]
  {
    var body := [a, fc, (q + 7) / 8 % 256] + PackBits(CoilsFrom(coils, start, q));
    SignedAccepted(body);
    assert Signed(body)[3 + k] == body[3 + k];
  }

  /** Each bit of a coil reply; those after the last coil are zero. */
  lemma CoilReplyBit(a: byte, fc: byte, coils: seq<bool>, start: u16, q: u16, i: nat)
    requires |coils| == SPACE && i < 8 * ((q + 7) / 8)
    ensures var s := CoilReply(a, fc, coils, start, q);
            |s| == 5 + (q + 7) / 8 && (Bit(s[3 + i / 8], i % 8) <==> i < q && coils[Address(start, i)])
  {
    BitOfPackBits(CoilsFrom(coils, start, q), i);
    CoilReplyData(a, fc, coils, start, q, i / 8);
  }

  /** Read after write in one request: each register of the reply to function 23 holds the new value if its address is
    * in the written window and has data, and the old value otherwise, whatever the overlap and the wrap-around. */
  lemma ReadAfterWrite(a: byte, m: Memory, r: Request, i: nat)
    requires Total(m) && r.ReadWrite? && i < r.readQuantity
    ensures var s := Reply(a, Apply(m, r), r).value;
            var d := Distance(r.writeStart, Address(r.readStart, i));
            && |s| == 5 + 2 * r.readQuantity
            && Combine(s[3 + 2 * i], s[4 + 2 * i]) ==
               if d < r.writeQuantity && 2 * d + 1 < |r.data| then Combine(r.data[2 * d], r.data[2 * d + 1])
               else m.regs[Address(r.readStart, i)]
  {
    RegReplyWord(a, 23, Apply(m, r).regs, r.readStart, r.readQuantity, i);
  }

  /** A coil write followed by a read of the same range, through the whole reply: its data bytes carry the written bits
    * and zeros after them. */
  lemma CoilsReadBack(a: byte, m: Memory, write: Request, i: nat)
    requires Total(m) && write.WriteMany? && write.fc == 15 && WellFormed(write)
    requires write.quantity <= 8 * write.count && i < 8 * ((write.quantity + 7) / 8)
    ensures var s := Reply(a, Apply(m, write), Simple(1, write.start, write.quantity)).value;
            && |s| == 5 + (write.quantity + 7) / 8 && s[2] == |s| - 5
            && (Bit(s[3 + i / 8], i % 8) <==> i < write.quantity && Bit(write.data[i / 8], i % 8))
  {
    ReplyAfterCoilWrite(a, m, write);
    WrittenCoilsReply(a, m.coils, write.start, write.quantity, write.data, i);
  }

  lemma ReplyAfterCoilWrite(a: byte, m: Memory, write: Request)
    requires Total(m) && write.WriteMany? && write.fc == 15
    ensures Reply(a, Apply(m, write), Simple(1, write.start, write.quantity)) ==
            Some(CoilReply(a, 1, WriteCoils(m.coils, write.start, write.quantity, write.data),
                           write.start, write.quantity))
  {
  }

  lemma WrittenCoilsReply(a: byte, coils: seq<bool>, start: u16, q: u16, data: seq<byte>, i: nat)
    requires |coils| == SPACE && q <= 8 * |data| <= 2040 && i < 8 * ((q + 7) / 8)
    ensures var s := CoilReply(a, 1, WriteCoils(coils, start, q, data), start, q);
            && |s| == 5 + (q + 7) / 8 && s[2] == |s| - 5
            && (Bit(s[3 + i / 8], i % 8) <==> i < q && Bit(data[i / 8], i % 8))
  {
    var coils', k := WriteCoils(coils, start, q, data), i / 8;
    CoilRoundTrip(coils, start, q, data, i);
    WholeBytes(q, i);
    CoilReplyData(a, 1, coils', start, q, k);
    assert CoilReply(a, 1, coils', start, q)[3 + k] == PackBits(CoilsFrom(coils', start, q))[k];
  }

  lemma WholeBytes(q: nat, i: nat)
    requires i < 8 * ((q + 7) / 8)
    ensures i / 8 < (q + 7) / 8 && (q <= 2040 ==> (q + 7) / 8 % 256 == (q + 7) / 8)
  {
  }

  /** A register write followed by a read of the same range replies with the written bytes. */
  lemma RegsReadBack(a: byte, m: Memory, write: Request)
    requires Total(m) && write.WriteMany? && write.fc == 16 && WellFormed(write)
    requires 2 * write.quantity <= write.count
    ensures Reply(a, Apply(m, write), Simple(3, write.start, write.quantity)) ==
            Some(Signed([a, 3, 2 * write.quantity] + write.data[..2 * write.quantity]))
  {
    var q, regs := write.quantity, WriteRegs(m.regs, write.start, write.quantity, write.data);
    RegRoundTrip(m.regs, write.start, q, write.data);
    ReplyAfterRegWrite(a, m, write);
    RegReplyOf(a, 3, regs, write.start, q, write.data[..2 * q]);
  }

  lemma RegReplyOf(a: byte, fc: byte, regs: seq<u16>, start: u16, q: u16, bytes: seq<byte>)
    requires |regs| == SPACE && 2 * q < 256 && WordBytes(RegsFrom(regs, start, q)) == bytes
    ensures RegReply(a, fc, regs, start, q) == Signed([a, fc, 2 * q] + bytes)
  {
  }

  lemma ReplyAfterRegWrite(a: byte, m: Memory, write: Request)
    requires Total(m) && write.WriteMany? && write.fc == 16
    ensures Reply(a, Apply(m, write), Simple(3, write.start, write.quantity)) ==
            Some(RegReply(a, 3, WriteRegs(m.regs, write.start, write.quantity, write.data),
                          write.start, write.quantity))
  {
  }
}
