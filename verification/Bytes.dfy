/** Bytes, 16-bit words and the fixed-capacity byte buffer shared by the scanners and the server.
  * A byte is a number; its bit pattern is used only where the code works on bits. */
module Bytes {
  type byte = b: int | 0 <= b < 256
  type u16 = w: int | 0 <= w < 0x1_0000

  const BUF_SIZE: nat := 1024

  /** The bytes of the longest RTU frame. */
  const MAX_FRAME: nat := 268

  datatype Option<+T> = None | Some(value: T)

  /** The bit pattern of a byte.  Named, because the solver's congruence reasoning does not look through conversions. */
  function Bits(b: byte): bv8 {
    b as bv8
  }

  function FromBits(v: bv8): byte {
    v as int
  }

  lemma BitsRoundTrip(b: byte)
    ensures FromBits(Bits(b)) == b
  {
    assert b % 256 == b;
  }

  lemma FromBitsRoundTrip(v: bv8)
    ensures Bits(FromBits(v)) == v
  {
  }

  /** The little-endian branch of `combine`: the value of a word sent high byte first. */
  function Combine(hi: byte, lo: byte): u16 {
    hi * 256 + lo
  }

  /** The two out-parameters of `get_hi_lo`. */
  function HiByte(w: u16): byte {
    w / 256
  }

  function LoByte(w: u16): byte {
    w % 256
  }

  /** The high byte comes first: words are ordered as their bytes are, the high byte deciding. */
  lemma CombineIsBigEndian(hi: byte, lo: byte, hi': byte, lo': byte)
    ensures Combine(hi, lo) < Combine(hi', lo') <==> hi < hi' || (hi == hi' && lo < lo')
    ensures Combine(hi, lo) == 256 * hi + lo
  {
  }

  /** Combining two bytes and splitting the word gives them back. */
  lemma HalvesOfCombine(hi: byte, lo: byte)
    ensures HiByte(Combine(hi, lo)) == hi && LoByte(Combine(hi, lo)) == lo
  {
  }

  /** Splitting a word and combining the halves gives the word back. */
  lemma CombineOfHalves(w: u16)
    ensures Combine(HiByte(w), LoByte(w)) == w
  {
  }

  /** The bit pattern with only bit i set. */
  function Mask(i: nat): bv8
    requires i < 8
  {
    if i == 0 then 1 else if i == 1 then 2 else if i == 2 then 4 else if i == 3 then 8
    else if i == 4 then 16 else if i == 5 then 32 else if i == 6 then 64 else 128
  }

  predicate BitSet(v: bv8, i: nat)
    requires i < 8
  {
    v & Mask(i) != 0
  }

  predicate Bit(b: byte, i: nat)
    requires i < 8
  {
    BitSet(Bits(b), i)
  }

  /** What bit i counts in a number. */
  function Weight(i: nat): (n: nat)
    requires i < 8
    ensures n > 0
  {
    if i == 0 then 1 else if i == 1 then 2 else if i == 2 then 4 else if i == 3 then 8
    else if i == 4 then 16 else if i == 5 then 32 else if i == 6 then 64 else 128
  }

  lemma WeightDoubles(i: nat)
    requires i < 8
    ensures Weight(0) == 1 && (i < 7 ==> Weight(i + 1) == 2 * Weight(i))
  {
  }

  /** Binary digit i of a number, the lowest being digit 0. */
  predicate Digit(b: byte, i: nat)
    requires i < 8
  {
    b / Weight(i) % 2 == 1
  }

  function WeightIf(v: bv8, i: nat): nat
    requires i < 8
  {
    if BitSet(v, i) then Weight(i) else 0
  }

  /** A bit pattern stands for the sum of the weights of its bits. */
  lemma FromBitsIsSum(v: bv8)
    ensures FromBits(v) == WeightIf(v, 0) + WeightIf(v, 1) + WeightIf(v, 2) + WeightIf(v, 3) +
                           WeightIf(v, 4) + WeightIf(v, 5) + WeightIf(v, 6) + WeightIf(v, 7)
  {
  }

  /** The bits of a byte are its binary digits. */
  lemma BitIsDigit(b: byte, i: nat)
    requires i < 8
    ensures Bit(b, i) <==> Digit(b, i)
  {
    FromBitsIsSum(Bits(b));
    BitsRoundTrip(b);
  }

  predicate ValidFc(fc: byte) {
    fc == 1 || fc == 2 || fc == 3 || fc == 4 || fc == 5 || fc == 6 || fc == 15 || fc == 16 || fc == 23
  }

  function Flatten<T>(ss: seq<seq<T>>): seq<T> {
    if ss == [] then [] else ss[0] + Flatten(ss[1..])
  }

  /** `buffer_c`: an array of fixed capacity and the number of bytes in use. */
  class Buffer {
    const data: array<byte>
    var size: nat

    ghost predicate Valid()
      reads this
    {
      data.Length == BUF_SIZE && size <= BUF_SIZE
    }

    ghost function Contents(): seq<byte>
      requires Valid()
      reads this, data
    {
      data[..size]
    }

    constructor ()
      ensures Valid() && Contents() == [] && fresh(data)
    {
      data := new byte[BUF_SIZE];
      size := 0;
    }

    /** The constructor from a list of bytes. */
    constructor From(bytes: seq<byte>)
      requires |bytes| <= BUF_SIZE
      ensures Valid() && Contents() == bytes && fresh(data)
    {
      var a := new byte[BUF_SIZE];
      for ix := 0 to |bytes|
        invariant a[..ix] == bytes[..ix]
      {
        a[ix] := bytes[ix];
        assert a[..ix + 1] == a[..ix] + [bytes[ix]];
      }
      assert bytes[..|bytes|] == bytes;
      data := a;
      size := |bytes|;
    }

    /** Bytes arrive from outside at the start of the array; the size is left to the reader. */
    method Receive(bytes: seq<byte>)
      requires Valid() && |bytes| <= BUF_SIZE
      modifies data
      ensures data[..|bytes|] == bytes
    {
      forall i | 0 <= i < |bytes| {
        data[i] := bytes[i];
      }
    }

    method SetActualSize(n: nat)
      requires Valid() && n <= BUF_SIZE
      modifies this`size
      ensures Valid() && size == n && Contents() == data[..n]
    {
      size := n;
    }

    /** `add` does not check the capacity, so its callers must. */
    method Add(b: byte)
      requires Valid() && size < BUF_SIZE
      modifies this`size, data
      ensures Valid() && Contents() == old(Contents()) + [b]
    {
      data[size] := b;
      size := size + 1;
    }
  }
}
