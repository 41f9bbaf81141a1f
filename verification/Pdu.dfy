/** The protocol data unit: the scanners' mutable record, the request its defined fields make up, and the layout. */
module Pdu {
  import opened Bytes

  /** `pdu_c`.  A function code defines only some of the fields; the others keep whatever they held before. */
  datatype PduRecord = PduRecord(
    transactId1: byte,
    transactId2: byte,
    fc: byte,
    i16_1: u16,
    i16_2: u16,
    i16_3: u16,
    i16_4: u16,
    i8_1: byte,
    data: seq<byte>)

  /** A call a scanner makes, with a copy of the record it passes. */
  datatype Callback = PduCallback(pdu: PduRecord) | NonsenseCallback

  /** A decoded request: exactly the fields its function code defines. */
  datatype Request =
    | Simple(fc: byte, address: u16, value: u16)
    | WriteMany(fc: byte, start: u16, quantity: u16, count: byte, data: seq<byte>)
    | ReadWrite(readStart: u16, readQuantity: u16, writeStart: u16, writeQuantity: u16, count: byte, data: seq<byte>)

  predicate HasData(fc: byte) {
    fc == 15 || fc == 16 || fc == 23
  }

  /** A request some sequence of bytes encodes. */
  predicate WellFormed(r: Request) {
    match r
    case Simple(fc, _, _) => 1 <= fc <= 6
    case WriteMany(fc, _, _, count, data) => (fc == 15 || fc == 16) && |data| == count
    case ReadWrite(_, _, _, _, count, data) => |data| == count
  }

  predicate ZeroCount(r: Request) {
    !r.Simple? && r.count == 0
  }

  /** What a callback may read of the record it is given. */
  function Defined(p: PduRecord): Request {
    if p.fc == 23 then ReadWrite(p.i16_1, p.i16_2, p.i16_3, p.i16_4, p.i8_1, p.data)
    else if HasData(p.fc) then WriteMany(p.fc, p.i16_1, p.i16_2, p.i8_1, p.data)
    else Simple(p.fc, p.i16_1, p.i16_2)
  }

  // ---------------------------------------------------------------- layout, with the function code at offset o

  /** Bytes from the function code to the byte count, or to the second word when there is no byte count. */
  function HeadLen(fc: byte): (n: nat)
    ensures 5 <= n <= 10
  {
    if fc == 23 then 10 else if HasData(fc) then 6 else 5
  }

  predicate HeadRead(p: seq<byte>, o: nat) {
    o < |p| && o + HeadLen(p[o]) <= |p|
  }

  function CountByte(p: seq<byte>, o: nat): byte
    requires HeadRead(p, o)
  {
    p[o + HeadLen(p[o]) - 1]
  }

  predicate CountIsZero(p: seq<byte>, o: nat)
    requires HeadRead(p, o)
  {
    HasData(p[o]) && CountByte(p, o) == 0
  }

  function DataLen(p: seq<byte>, o: nat): (n: nat)
    requires HeadRead(p, o)
    ensures n <= 255
  {
    if HasData(p[o]) then CountByte(p, o) else 0
  }

  function PduLen(p: seq<byte>, o: nat): nat
    requires HeadRead(p, o)
  {
    HeadLen(p[o]) + DataLen(p, o)
  }

  /** More bytes after a head change nothing in what it says. */
  lemma HeadKept(p: seq<byte>, o: nat, t: seq<byte>)
    requires HeadRead(p, o)
    ensures HeadRead(p + t, o) && PduLen(p + t, o) == PduLen(p, o) && CountIsZero(p + t, o) == CountIsZero(p, o)
  {
  }

  function WordAt(p: seq<byte>, i: nat): u16
    requires i + 1 < |p|
  {
    Combine(p[i], p[i + 1])
  }

  function Decode(p: seq<byte>, o: nat): Request
    requires HeadRead(p, o) && o + PduLen(p, o) <= |p|
  {
    var first, second := WordAt(p, o + 1), WordAt(p, o + 3);
    var data := p[o + HeadLen(p[o])..o + PduLen(p, o)];
    if p[o] == 23 then ReadWrite(first, second, WordAt(p, o + 5), WordAt(p, o + 7), p[o + 9], data)
    else if HasData(p[o]) then WriteMany(p[o], first, second, p[o + 5], data)
    else Simple(p[o], first, second)
  }

  lemma DecodeKept(p: seq<byte>, o: nat, t: seq<byte>)
    requires HeadRead(p, o) && o + PduLen(p, o) <= |p|
    ensures HeadRead(p + t, o) && o + PduLen(p + t, o) <= |p + t| && Decode(p + t, o) == Decode(p, o)
  {
    HeadKept(p, o, t);
    var i, j := o + HeadLen(p[o]), o + PduLen(p, o);
    assert (p + t)[i..j] == p[i..j];
  }

  /** The bytes before the data, each word high byte first. */
  function Head(r: Request): seq<byte> {
    match r
    case Simple(fc, address, value) =>
      [fc, HiByte(address), LoByte(address), HiByte(value), LoByte(value)]
    case WriteMany(fc, start, quantity, count, _) =>
      [fc, HiByte(start), LoByte(start), HiByte(quantity), LoByte(quantity), count]
    case ReadWrite(rs, rq, ws, wq, count, _) =>
      [23, HiByte(rs), LoByte(rs), HiByte(rq), LoByte(rq), HiByte(ws), LoByte(ws), HiByte(wq), LoByte(wq), count]
  }

  function Payload(r: Request): seq<byte> {
    if r.Simple? then [] else r.data
  }

  function Encode(r: Request): seq<byte> {
    Head(r) + Payload(r)
  }

  lemma HeadOfDecode(p: seq<byte>, o: nat)
    requires HeadRead(p, o) && ValidFc(p[o]) && o + PduLen(p, o) <= |p|
    ensures Head(Decode(p, o)) == p[o..o + HeadLen(p[o])]
  {
    HalvesOfCombine(p[o + 1], p[o + 2]);
    HalvesOfCombine(p[o + 3], p[o + 4]);
    if p[o] == 23 {
      HalvesOfCombine(p[o + 5], p[o + 6]);
      HalvesOfCombine(p[o + 7], p[o + 8]);
      assert p[o..o + 10] ==
             [p[o], p[o + 1], p[o + 2], p[o + 3], p[o + 4], p[o + 5], p[o + 6], p[o + 7], p[o + 8], p[o + 9]];
    } else if HasData(p[o]) {
      assert p[o..o + 6] == [p[o], p[o + 1], p[o + 2], p[o + 3], p[o + 4], p[o + 5]];
    } else {
      assert p[o..o + 5] == [p[o], p[o + 1], p[o + 2], p[o + 3], p[o + 4]];
    }
  }

  /** What decodes to a request is the request's encoding. */
  lemma EncodeOfDecode(p: seq<byte>, o: nat)
    requires HeadRead(p, o) && ValidFc(p[o]) && o + PduLen(p, o) <= |p|
    ensures WellFormed(Decode(p, o)) && Encode(Decode(p, o)) == p[o..o + PduLen(p, o)]
  {
    HeadOfDecode(p, o);
    var n := o + HeadLen(p[o]);
    assert Payload(Decode(p, o)) == p[n..o + PduLen(p, o)];
    assert p[o..o + PduLen(p, o)] == p[o..n] + p[n..o + PduLen(p, o)];
  }

  lemma HeadRoundTrip(p: seq<byte>, o: nat, r: Request)
    requires WellFormed(r) && o + |Head(r)| <= |p| && p[o..o + |Head(r)|] == Head(r)
    ensures HeadRead(p, o) && ValidFc(p[o]) && HeadLen(p[o]) == |Head(r)| && DataLen(p, o) == |Payload(r)|
    ensures o + PduLen(p, o) <= |p| ==>
              Decode(p, o) == if r.Simple? then r else r.(data := p[o + HeadLen(p[o])..o + PduLen(p, o)])
  {
    var s := Head(r);
    var t := p[o..o + |s|];
    match r
    case Simple(fc, address, value) =>
      assert p[o] == t[0] && p[o + 1] == t[1] && p[o + 2] == t[2] && p[o + 3] == t[3] && p[o + 4] == t[4];
    case WriteMany(fc, start, quantity, count, data) =>
      assert p[o] == t[0] && p[o + 1] == t[1] && p[o + 2] == t[2] && p[o + 3] == t[3] && p[o + 4] == t[4] &&
             p[o + 5] == t[5];
    case ReadWrite(rs, rq, ws, wq, count, data) =>
      assert p[o] == t[0] && p[o + 1] == t[1] && p[o + 2] == t[2] && p[o + 3] == t[3] && p[o + 4] == t[4] &&
             p[o + 5] == t[5] && p[o + 6] == t[6] && p[o + 7] == t[7] && p[o + 8] == t[8] && p[o + 9] == t[9];
  }

  lemma PartsAt(p: seq<byte>, o: nat, s: seq<byte>, t: seq<byte>)
    requires o + |s| + |t| <= |p| && p[o..o + |s| + |t|] == s + t
    ensures p[o..o + |s|] == s && p[o + |s|..o + |s| + |t|] == t
  {
    var w := p[o..o + |s| + |t|];
    assert p[o..o + |s|] == w[..|s|];
    assert p[o + |s|..o + |s| + |t|] == w[|s|..];
  }

  /** Wherever the encoding of a request stands, it decodes to that request. */
  lemma DecodeOfEncode(p: seq<byte>, o: nat, r: Request)
    requires WellFormed(r) && o + |Encode(r)| <= |p| && p[o..o + |Encode(r)|] == Encode(r)
    ensures HeadRead(p, o) && ValidFc(p[o]) && PduLen(p, o) == |Encode(r)| && Decode(p, o) == r
  {
    PartsAt(p, o, Head(r), Payload(r));
    HeadRoundTrip(p, o, r);
  }
}
