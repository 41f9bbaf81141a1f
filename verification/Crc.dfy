/** The table-driven CRC of crc_check.cpp, proved against the bit-serial CRC-16 of the Modbus serial line
  * (polynomial 0xA001 reflected, initial value 0xFFFF).
  *
  * `Xor` and `Wide` name bit-vector operations: the solver reasons by congruence about functions, not operators. */
module Crc {
  import opened Bytes

  // ---------------------------------------------------------------- the bit-serial definition

  function Xor(x: bv16, y: bv16): bv16 {
    x ^ y
  }

  function Wide(b: bv8): bv16 {
    b as bv16
  }

  /** One shift of the 16-bit register. */
  function ShiftStep(r: bv16): bv16 {
    if r & 1 == 1 then (r >> 1) ^ 0xA001 else r >> 1
  }

  function Shifts(r: bv16, n: nat): bv16
    decreases n
  {
    if n == 0 then r else Shifts(ShiftStep(r), n - 1)
  }

  /** One message byte: fold it into the low half of the register, then shift eight times. */
  function Absorb(r: bv16, b: bv8): bv16 {
    Shifts(Xor(r, Wide(b)), 8)
  }

  function CrcFrom(r: bv16, s: seq<byte>): bv16
    decreases |s|
  {
    if s == [] then r else CrcFrom(Absorb(r, Bits(s[0])), s[1..])
  }

  function Crc16(s: seq<byte>): bv16 {
    CrcFrom(0xFFFF, s)
  }

  /** The register made of the code's "lo" (its high half) and "hi" (its low half). */
  function Register(lo: bv8, hi: bv8): bv16 {
    ((lo as bv16) << 8) | (hi as bv16)
  }

  function LowHalf(r: bv16): bv8 {
    (r & 0xFF) as bv8
  }

  function HighHalf(r: bv16): bv8 {
    (r >> 8) as bv8
  }

  /** The two checksum bytes in the order they are sent: low half of the register first. */
  function CrcBytes(s: seq<byte>): (c: seq<byte>)
    ensures |c| == 2
  {
    [FromBits(LowHalf(Crc16(s))), FromBits(HighHalf(Crc16(s)))]
  }

  /** A frame whose last two bytes are the checksum of the bytes before them. */
  predicate Accepted(frame: seq<byte>) {
    |frame| >= 2 && frame[|frame| - 2..] == CrcBytes(frame[..|frame| - 2])
  }

  lemma AcceptedParts(body: seq<byte>, b: byte, c: byte)
    ensures Accepted(body + [b, c]) <==> [b, c] == CrcBytes(body)
  {
    var frame := body + [b, c];
    assert frame[..|body|] == body && frame[|body|..] == [b, c];
  }

  // ---------------------------------------------------------------- the register as a linear machine

  lemma StepXor(x: bv16, y: bv16)
    ensures ShiftStep(Xor(x, y)) == Xor(ShiftStep(x), ShiftStep(y))
  {
    if x & 1 == 1 {
      if y & 1 == 1 {
        BothFeedBack(x, y);
      } else {
        OneFeedsBack(x, y);
      }
    } else if y & 1 == 1 {
      OneFeedsBack(y, x);
      XorCommutes(x, y);
      XorCommutes(ShiftStep(x), ShiftStep(y));
    } else {
      NoneFeedsBack(x, y);
    }
  }

  lemma BothFeedBack(x: bv16, y: bv16)
    requires x & 1 == 1 && y & 1 == 1
    ensures ShiftStep(Xor(x, y)) == Xor(ShiftStep(x), ShiftStep(y))
  {
  }

  lemma OneFeedsBack(x: bv16, y: bv16)
    requires x & 1 == 1 && y & 1 != 1
    ensures ShiftStep(Xor(x, y)) == Xor(ShiftStep(x), ShiftStep(y))
  {
  }

  lemma NoneFeedsBack(x: bv16, y: bv16)
    requires x & 1 != 1 && y & 1 != 1
    ensures ShiftStep(Xor(x, y)) == Xor(ShiftStep(x), ShiftStep(y))
  {
  }

  lemma XorCommutes(x: bv16, y: bv16)
    ensures Xor(x, y) == Xor(y, x)
  {
  }

  lemma XorAssociates(x: bv16, y: bv16, z: bv16)
    ensures Xor(Xor(x, y), z) == Xor(x, Xor(y, z))
  {
  }

  lemma XorExchange(a: bv16, b: bv16, c: bv16, d: bv16)
    ensures Xor(Xor(a, b), Xor(c, d)) == Xor(Xor(a, c), Xor(b, d))
  {
    XorAssociates(a, b, Xor(c, d));
    XorAssociates(b, c, d);
    XorCommutes(b, c);
    XorAssociates(c, b, d);
    XorAssociates(a, c, Xor(b, d));
  }

  lemma XorCancel(x: bv16, y: bv16, z: bv16)
    ensures Xor(x, z) == Xor(y, z) ==> x == y
    ensures Xor(z, x) == Xor(z, y) ==> x == y
  {
  }

  lemma XorZero(x: bv16, y: bv16)
    ensures Xor(x, y) == 0 <==> x == y
  {
    XorSelf(x);
    if Xor(x, y) == 0 {
      XorCancel(y, x, x);
    }
  }

  lemma XorSelf(x: bv16)
    ensures Xor(x, x) == 0
  {
  }

  /** Shifting is linear over exclusive or. */
  lemma {:induction false} ShiftsXor(x: bv16, y: bv16, n: nat)
    ensures Shifts(Xor(x, y), n) == Xor(Shifts(x, n), Shifts(y, n))
    decreases n
  {
    if n > 0 {
      StepXor(x, y);
      ShiftsXor(ShiftStep(x), ShiftStep(y), n - 1);
    }
  }

  lemma StepInjective(x: bv16, y: bv16)
    requires ShiftStep(x) == ShiftStep(y)
    ensures x == y
  {
  }

  /** Shifting loses nothing. */
  lemma {:induction false} ShiftsInjective(x: bv16, y: bv16, n: nat)
    requires Shifts(x, n) == Shifts(y, n)
    ensures x == y
    decreases n
  {
    if n > 0 {
      ShiftsInjective(ShiftStep(x), ShiftStep(y), n - 1);
      StepInjective(x, y);
    }
  }

  lemma ShiftBack(b: bv8)
    ensures Shifts(Register(b, 0), 8) == Wide(b)
  {
  }

  lemma {:induction false} ShiftsToZero(x: bv16)
    ensures Shifts(x, 8) == 0 <==> x == 0
  {
    assert Shifts(0, 8) == 0;
    if Shifts(x, 8) == 0 {
      ShiftsInjective(x, 0, 8);
    }
  }

  lemma {:induction false} CrcFromConcat(r: bv16, s: seq<byte>, t: seq<byte>)
    ensures CrcFrom(r, s + t) == CrcFrom(CrcFrom(r, s), t)
    decreases |s|
  {
    if s == [] {
      assert s + t == t;
    } else {
      assert (s + t)[1..] == s[1..] + t;
      CrcFromConcat(Absorb(r, Bits(s[0])), s[1..], t);
    }
  }

  // ---------------------------------------------------------------- the lookup tables

  // The 256 entries of each table, sixteen to a row.  CRCHI holds the low halves of the register, CRCLO the high ones.
  const CRCHI: seq<seq<bv8>> := [
    [0x00, 0xC1, 0x81, 0x40, 0x01, 0xC0, 0x80, 0x41, 0x01, 0xC0, 0x80, 0x41, 0x00, 0xC1, 0x81, 0x40],
    [0x01, 0xC0, 0x80, 0x41, 0x00, 0xC1, 0x81, 0x40, 0x00, 0xC1, 0x81, 0x40, 0x01, 0xC0, 0x80, 0x41],
    [0x01, 0xC0, 0x80, 0x41, 0x00, 0xC1, 0x81, 0x40, 0x00, 0xC1, 0x81, 0x40, 0x01, 0xC0, 0x80, 0x41],
    [0x00, 0xC1, 0x81, 0x40, 0x01, 0xC0, 0x80, 0x41, 0x01, 0xC0, 0x80, 0x41, 0x00, 0xC1, 0x81, 0x40],
    [0x01, 0xC0, 0x80, 0x41, 0x00, 0xC1, 0x81, 0x40, 0x00, 0xC1, 0x81, 0x40, 0x01, 0xC0, 0x80, 0x41],
    [0x00, 0xC1, 0x81, 0x40, 0x01, 0xC0, 0x80, 0x41, 0x01, 0xC0, 0x80, 0x41, 0x00, 0xC1, 0x81, 0x40],
    [0x00, 0xC1, 0x81, 0x40, 0x01, 0xC0, 0x80, 0x41, 0x01, 0xC0, 0x80, 0x41, 0x00, 0xC1, 0x81, 0x40],
    [0x01, 0xC0, 0x80, 0x41, 0x00, 0xC1, 0x81, 0x40, 0x00, 0xC1, 0x81, 0x40, 0x01, 0xC0, 0x80, 0x41],
    [0x01, 0xC0, 0x80, 0x41, 0x00, 0xC1, 0x81, 0x40, 0x00, 0xC1, 0x81, 0x40, 0x01, 0xC0, 0x80, 0x41],
    [0x00, 0xC1, 0x81, 0x40, 0x01, 0xC0, 0x80, 0x41, 0x01, 0xC0, 0x80, 0x41, 0x00, 0xC1, 0x81, 0x40],
    [0x00, 0xC1, 0x81, 0x40, 0x01, 0xC0, 0x80, 0x41, 0x01, 0xC0, 0x80, 0x41, 0x00, 0xC1, 0x81, 0x40],
    [0x01, 0xC0, 0x80, 0x41, 0x00, 0xC1, 0x81, 0x40, 0x00, 0xC1, 0x81, 0x40, 0x01, 0xC0, 0x80, 0x41],
    [0x00, 0xC1, 0x81, 0x40, 0x01, 0xC0, 0x80, 0x41, 0x01, 0xC0, 0x80, 0x41, 0x00, 0xC1, 0x81, 0x40],
    [0x01, 0xC0, 0x80, 0x41, 0x00, 0xC1, 0x81, 0x40, 0x00, 0xC1, 0x81, 0x40, 0x01, 0xC0, 0x80, 0x41],
    [0x01, 0xC0, 0x80, 0x41, 0x00, 0xC1, 0x81, 0x40, 0x00, 0xC1, 0x81, 0x40, 0x01, 0xC0, 0x80, 0x41],
    [0x00, 0xC1, 0x81, 0x40, 0x01, 0xC0, 0x80, 0x41, 0x01, 0xC0, 0x80, 0x41, 0x00, 0xC1, 0x81, 0x40]
  ]

  const CRCLO: seq<seq<bv8>> := [
    [0x00, 0xC0, 0xC1, 0x01, 0xC3, 0x03, 0x02, 0xC2, 0xC6, 0x06, 0x07, 0xC7, 0x05, 0xC5, 0xC4, 0x04],
    [0xCC, 0x0C, 0x0D, 0xCD, 0x0F, 0xCF, 0xCE, 0x0E, 0x0A, 0xCA, 0xCB, 0x0B, 0xC9, 0x09, 0x08, 0xC8],
    [0xD8, 0x18, 0x19, 0xD9, 0x1B, 0xDB, 0xDA, 0x1A, 0x1E, 0xDE, 0xDF, 0x1F, 0xDD, 0x1D, 0x1C, 0xDC],
    [0x14, 0xD4, 0xD5, 0x15, 0xD7, 0x17, 0x16, 0xD6, 0xD2, 0x12, 0x13, 0xD3, 0x11, 0xD1, 0xD0, 0x10],
    [0xF0, 0x30, 0x31, 0xF1, 0x33, 0xF3, 0xF2, 0x32, 0x36, 0xF6, 0xF7, 0x37, 0xF5, 0x35, 0x34, 0xF4],
    [0x3C, 0xFC, 0xFD, 0x3D, 0xFF, 0x3F, 0x3E, 0xFE, 0xFA, 0x3A, 0x3B, 0xFB, 0x39, 0xF9, 0xF8, 0x38],
    [0x28, 0xE8, 0xE9, 0x29, 0xEB, 0x2B, 0x2A, 0xEA, 0xEE, 0x2E, 0x2F, 0xEF, 0x2D, 0xED, 0xEC, 0x2C],
    [0xE4, 0x24, 0x25, 0xE5, 0x27, 0xE7, 0xE6, 0x26, 0x22, 0xE2, 0xE3, 0x23, 0xE1, 0x21, 0x20, 0xE0],
    [0xA0, 0x60, 0x61, 0xA1, 0x63, 0xA3, 0xA2, 0x62, 0x66, 0xA6, 0xA7, 0x67, 0xA5, 0x65, 0x64, 0xA4],
    [0x6C, 0xAC, 0xAD, 0x6D, 0xAF, 0x6F, 0x6E, 0xAE, 0xAA, 0x6A, 0x6B, 0xAB, 0x69, 0xA9, 0xA8, 0x68],
    [0x78, 0xB8, 0xB9, 0x79, 0xBB, 0x7B, 0x7A, 0xBA, 0xBE, 0x7E, 0x7F, 0xBF, 0x7D, 0xBD, 0xBC, 0x7C],
    [0xB4, 0x74, 0x75, 0xB5, 0x77, 0xB7, 0xB6, 0x76, 0x72, 0xB2, 0xB3, 0x73, 0xB1, 0x71, 0x70, 0xB0],
    [0x50, 0x90, 0x91, 0x51, 0x93, 0x53, 0x52, 0x92, 0x96, 0x56, 0x57, 0x97, 0x55, 0x95, 0x94, 0x54],
    [0x9C, 0x5C, 0x5D, 0x9D, 0x5F, 0x9F, 0x9E, 0x5E, 0x5A, 0x9A, 0x9B, 0x5B, 0x99, 0x59, 0x58, 0x98],
    [0x88, 0x48, 0x49, 0x89, 0x4B, 0x8B, 0x8A, 0x4A, 0x4E, 0x8E, 0x8F, 0x4F, 0x8D, 0x4D, 0x4C, 0x8C],
    [0x44, 0x84, 0x85, 0x45, 0x87, 0x47, 0x46, 0x86, 0x82, 0x42, 0x43, 0x83, 0x41, 0x81, 0x80, 0x40]
  ]

  lemma TableShape()
    ensures |CRCHI| == |CRCLO| == 16
    ensures forall r :: 0 <= r < 16 ==> |CRCHI[r]| == |CRCLO[r]| == 16
  {
  }

  function CrcHiEntry(index: bv8): bv8 {
    TableShape();
    CRCHI[(index >> 4) as int][(index & 15) as int]
  }

  function CrcLoEntry(index: bv8): bv8 {
    TableShape();
    CRCLO[(index >> 4) as int][(index & 15) as int]
  }

  // The table entry in row r, column j is eight shift steps of the byte r * 16 + j.
  predicate EntryIsShifted(r: bv8, j: bv8)
    requires r < 16 && j < 16
  {
    TableShape();
    Register(CRCLO[r as int][j as int], CRCHI[r as int][j as int]) == Shifts(Wide((r << 4) | j), 8)
  }

  lemma TableRow0(j: bv8)
    requires j < 16
    ensures EntryIsShifted(0, j)
  {
  }

  lemma TableRow1(j: bv8)
    requires j < 16
    ensures EntryIsShifted(1, j)
  {
  }

  lemma TableRow2(j: bv8)
    requires j < 16
    ensures EntryIsShifted(2, j)
  {
  }

  lemma TableRow3(j: bv8)
    requires j < 16
    ensures EntryIsShifted(3, j)
  {
  }

  lemma TableRow4(j: bv8)
    requires j < 16
    ensures EntryIsShifted(4, j)
  {
  }

  lemma TableRow5(j: bv8)
    requires j < 16
    ensures EntryIsShifted(5, j)
  {
  }

  lemma TableRow6(j: bv8)
    requires j < 16
    ensures EntryIsShifted(6, j)
  {
  }

  lemma TableRow7(j: bv8)
    requires j < 16
    ensures EntryIsShifted(7, j)
  {
  }

  lemma TableRow8(j: bv8)
    requires j < 16
    ensures EntryIsShifted(8, j)
  {
  }

  lemma TableRow9(j: bv8)
    requires j < 16
    ensures EntryIsShifted(9, j)
  {
  }

  lemma TableRow10(j: bv8)
    requires j < 16
    ensures EntryIsShifted(10, j)
  {
  }

  lemma TableRow11(j: bv8)
    requires j < 16
    ensures EntryIsShifted(11, j)
  {
  }

  lemma TableRow12(j: bv8)
    requires j < 16
    ensures EntryIsShifted(12, j)
  {
  }

  lemma TableRow13(j: bv8)
    requires j < 16
    ensures EntryIsShifted(13, j)
  {
  }

  lemma TableRow14(j: bv8)
    requires j < 16
    ensures EntryIsShifted(14, j)
  {
  }

  lemma TableRow15(j: bv8)
    requires j < 16
    ensures EntryIsShifted(15, j)
  {
  }

  /** Every table entry is eight shift steps of its index. */
  lemma TableEntry(index: bv8)
    ensures Register(CrcLoEntry(index), CrcHiEntry(index)) == Shifts(Wide(index), 8)
  {
    var r, j := index >> 4, index & 15;
    assert r < 16 && j < 16 && (r << 4) | j == index;
    if r == 0 {
      TableRow0(j);
    } else if r == 1 {
      TableRow1(j);
    } else if r == 2 {
      TableRow2(j);
    } else if r == 3 {
      TableRow3(j);
    } else if r == 4 {
      TableRow4(j);
    } else if r == 5 {
      TableRow5(j);
    } else if r == 6 {
      TableRow6(j);
    } else if r == 7 {
      TableRow7(j);
    } else if r == 8 {
      TableRow8(j);
    } else if r == 9 {
      TableRow9(j);
    } else if r == 10 {
      TableRow10(j);
    } else if r == 11 {
      TableRow11(j);
    } else if r == 12 {
      TableRow12(j);
    } else if r == 13 {
      TableRow13(j);
    } else if r == 14 {
      TableRow14(j);
    } else {
      TableRow15(j);
    }
  }

  // ---------------------------------------------------------------- the loops of crc_check.cpp

  lemma RegisterXorByte(lo: bv8, hi: bv8, b: bv8)
    ensures Xor(Register(lo, hi), Wide(b)) == Xor(Register(lo, 0), Wide(hi ^ b))
  {
  }

  lemma RegisterXor(lo: bv8, hi: bv8, x: bv8)
    ensures Xor(Wide(x), Register(lo, hi)) == Register(lo, x ^ hi)
  {
  }

  /** One iteration of the table loop, with the entries it reads, is one byte of the bit-serial CRC. */
  lemma TableStep(hi: bv8, lo: bv8, b: bv8, index: bv8, entryHi: bv8, entryLo: bv8)
    requires index == hi ^ b && Register(entryLo, entryHi) == Shifts(Wide(index), 8)
    ensures Register(entryLo, lo ^ entryHi) == Absorb(Register(lo, hi), b)
  {
    RegisterXorByte(lo, hi, b);
    ShiftsXor(Register(lo, 0), Wide(index), 8);
    ShiftBack(lo);
    RegisterXor(entryLo, entryHi, lo);
  }

  /** The body of both loops. */
  method TableUpdate(hi: bv8, lo: bv8, b: bv8) returns (hi': bv8, lo': bv8)
    ensures Register(lo', hi') == Absorb(Register(lo, hi), b)
  {
    var index := hi ^ b;
    TableEntry(index);
    TableStep(hi, lo, b, index, CrcHiEntry(index), CrcLoEntry(index));
    hi' := lo ^ CrcHiEntry(index);
    lo' := CrcLoEntry(index);
  }

  lemma RegisterHalves(lo: bv8, hi: bv8)
    ensures LowHalf(Register(lo, hi)) == hi && HighHalf(Register(lo, hi)) == lo
  {
  }

  method CheckCrcRtu(buf: seq<byte>, receivedCrcHi: byte, receivedCrcLo: byte) returns (ok: bool)
    ensures ok <==> Accepted(buf + [receivedCrcHi, receivedCrcLo])
  {
    var hi: bv8, lo: bv8 := 0xFF, 0xFF;
    var i := 0;
    while i != |buf|
      invariant 0 <= i <= |buf|
      invariant CrcFrom(Register(lo, hi), buf[i..]) == Crc16(buf)
    {
      hi, lo := TableUpdate(hi, lo, Bits(buf[i]));
      i := i + 1;
    }
    RegisterHalves(lo, hi);
    AcceptedParts(buf, receivedCrcHi, receivedCrcLo);
    ok := receivedCrcHi == FromBits(hi) && receivedCrcLo == FromBits(lo);
  }

  method CalcCrcRtu(buf: Buffer) returns (crcHi: byte, crcLo: byte)
    requires buf.Valid()
    ensures [crcHi, crcLo] == CrcBytes(buf.Contents())
  {
    var hi: bv8, lo: bv8 := 0xFF, 0xFF;
    var ix := 0;
    while ix != buf.size
      invariant 0 <= ix <= buf.size
      invariant CrcFrom(Register(lo, hi), buf.Contents()[ix..]) == Crc16(buf.Contents())
    {
      hi, lo := TableUpdate(hi, lo, Bits(buf.data[ix]));
      ix := ix + 1;
    }
    RegisterHalves(lo, hi);
    crcHi, crcLo := FromBits(hi), FromBits(lo);
  }

  // ---------------------------------------------------------------- a known frame

  lemma {:induction false} CrcStep(r: bv16, s: seq<byte>, r': bv16)
    requires s != [] && Absorb(r, Bits(s[0])) == r'
    ensures CrcFrom(r, s) == CrcFrom(r', s[1..])
  {
  }

  /** Reading two registers from address 0 of device 1: the checksum is 196, 11. */
  lemma KnownChecksum()
    ensures CrcBytes([1, 3, 0, 0, 0, 2]) == [196, 11]
  {
    var msg: seq<byte> := [1, 3, 0, 0, 0, 2];
    KnownSteps();
    CrcStep(0xffff, msg[0..], 0x807e);
    CrcStep(0x807e, msg[1..], 0x2140);
    CrcStep(0x2140, msg[2..], 0xf020);
    CrcStep(0xf020, msg[3..], 0xd8f1);
    CrcStep(0xd8f1, msg[4..], 0x8419);
    CrcStep(0x8419, msg[5..], 0x0bc4);
  }

  lemma KnownSteps()
    ensures Absorb(0xffff, Bits(1)) == 0x807e
    ensures Absorb(0x807e, Bits(3)) == 0x2140
    ensures Absorb(0x2140, Bits(0)) == 0xf020
    ensures Absorb(0xf020, Bits(0)) == 0xd8f1
    ensures Absorb(0xd8f1, Bits(0)) == 0x8419
    ensures Absorb(0x8419, Bits(2)) == 0x0bc4
  {
  }
}
