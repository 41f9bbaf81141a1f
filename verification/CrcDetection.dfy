/** What the Modbus CRC detects: the residue of an accepted frame, odd numbers of flipped bits, bursts of up to
  * sixteen bits, and the affine law. */
module CrcDetection {
  import opened Bytes
  import opened Crc

  // ---------------------------------------------------------------- residue

  lemma AbsorbToZero(r: bv16, b: bv8)
    ensures Absorb(r, b) == 0 <==> r == Wide(b)
  {
    ShiftsToZero(Xor(r, Wide(b)));
    XorZero(r, Wide(b));
  }

  lemma RegisterFromParts(r: bv16, b: bv8, c: bv8)
    ensures Xor(r, Wide(b)) == Register(c, 0) <==> b == LowHalf(r) && c == HighHalf(r)
  {
  }

  /** Exactly one pair of bytes drives a register to zero: its own two halves, low half first. */
  lemma TwoBytesToZero(r: bv16, b: bv8, c: bv8)
    ensures Absorb(Absorb(r, b), c) == 0 <==> b == LowHalf(r) && c == HighHalf(r)
  {
    AbsorbToZero(Absorb(r, b), c);
    ShiftBack(c);
    if Absorb(r, b) == Wide(c) {
      ShiftsInjective(Xor(r, Wide(b)), Register(c, 0), 8);
    }
    RegisterFromParts(r, b, c);
  }

  lemma {:induction false} CrcOfTwo(r: bv16, b: byte, c: byte)
    ensures CrcFrom(r, [b, c]) == Absorb(Absorb(r, Bits(b)), Bits(c))
  {
    assert [b, c][1..] == [c];
    assert CrcFrom(Absorb(r, Bits(b)), [c]) == Absorb(Absorb(r, Bits(b)), Bits(c));
  }

  lemma SameBits(b: byte, v: bv8)
    ensures b == FromBits(v) <==> Bits(b) == v
  {
    BitsRoundTrip(b);
    FromBitsRoundTrip(v);
  }

  lemma ResidueParts(body: seq<byte>, b: byte, c: byte)
    ensures Accepted(body + [b, c]) <==> Crc16(body + [b, c]) == 0
  {
    var r := Crc16(body);
    AcceptedParts(body, b, c);
    CrcFromConcat(0xFFFF, body, [b, c]);
    CrcOfTwo(r, b, c);
    TwoBytesToZero(r, Bits(b), Bits(c));
    SameBits(b, LowHalf(r));
    SameBits(c, HighHalf(r));
  }

  /** A frame is accepted exactly when running the CRC over all of it, checksum included, ends at zero. */
  lemma Residue(frame: seq<byte>)
    ensures Accepted(frame) <==> |frame| >= 2 && Crc16(frame) == 0
  {
    if |frame| >= 2 {
      var n := |frame| - 2;
      assert frame == frame[..n] + [frame[n], frame[n + 1]];
      ResidueParts(frame[..n], frame[n], frame[n + 1]);
    }
  }

  // ---------------------------------------------------------------- a step loses nothing

  /** A step of the CRC is injective in the register for a given byte, and in the byte for a given register. */
  lemma AbsorbInjective(r: bv16, b: bv8, r': bv16, b': bv8)
    requires Absorb(r, b) == Absorb(r', b')
    ensures r == r' <==> b == b'
  {
    ShiftsInjective(Xor(r, Wide(b)), Xor(r', Wide(b')), 8);
    XorCancel(r, r', Wide(b));
    XorCancel(Wide(b), Wide(b'), r);
    if r == r' {
      WideInjective(b, b');
    }
  }

  /** The table of the code's "lo" is a permutation of the byte values: no two entries are equal. */
  lemma CrcLoIsPermutation(i: bv8, j: bv8)
    requires CrcLoEntry(i) == CrcLoEntry(j)
    ensures i == j
  {
    var lo, h := CrcLoEntry(i), XorBits(CrcHiEntry(i), CrcHiEntry(j));
    TableEntry(i);
    TableEntry(j);
    ShiftsXor(Wide(i), Wide(j), 8);
    RegistersXor(lo, CrcHiEntry(i), CrcHiEntry(j));
    ShiftBack(h);
    ShiftsInjective(Xor(Wide(i), Wide(j)), Register(h, 0), 8);
    LowBytesXor(i, j, h);
  }

  function XorBits(b: bv8, c: bv8): bv8 {
    b ^ c
  }

  lemma RegistersXor(lo: bv8, hi: bv8, hi': bv8)
    ensures Xor(Register(lo, hi), Register(lo, hi')) == Wide(XorBits(hi, hi'))
  {
  }

  lemma LowBytesXor(i: bv8, j: bv8, h: bv8)
    ensures Xor(Wide(i), Wide(j)) == Register(h, 0) ==> i == j
  {
  }

  // ---------------------------------------------------------------- bursts of up to sixteen bits

  function BitValue(bit: bool): bv16 {
    if bit then 1 else 0
  }

  /** The CRC fed one bit at a time, in the order the bits are sent. */
  function FeedBits(r: bv16, bits: seq<bool>): bv16
    decreases |bits|
  {
    if bits == [] then r else FeedBits(ShiftStep(Xor(r, BitValue(bits[0]))), bits[1..])
  }

  /** The bits of a byte, least significant first. */
  function BitsOf(b: byte): (bits: seq<bool>)
    ensures |bits| == 8
  {
    seq(8, i requires 0 <= i < 8 => Bit(b, i))
  }

  function MessageBits(s: seq<byte>): (bits: seq<bool>)
    ensures |bits| == 8 * |s|
  {
    if s == [] then [] else BitsOf(s[0]) + MessageBits(s[1..])
  }

  function Pack(bits: seq<bool>): bv16
    requires |bits| <= 16
    decreases |bits|
  {
    if bits == [] then 0 else Xor(BitValue(bits[0]), Double(Pack(bits[1..])))
  }

  function Double(x: bv16): bv16 {
    x << 1
  }

  lemma StepOfDouble(x: bv16)
    requires x < 0x8000
    ensures ShiftStep(Double(x)) == x
  {
  }

  // Feeding bits one by one is the same as xoring them all in first and shifting as often.
  lemma {:induction false} FeedIsShifts(r: bv16, bits: seq<bool>)
    requires |bits| <= 16
    ensures FeedBits(r, bits) == Shifts(Xor(r, Pack(bits)), |bits|)
    decreases |bits|
  {
    if bits != [] {
      var b, rest := BitValue(bits[0]), bits[1..];
      FeedIsShifts(ShiftStep(Xor(r, b)), rest);
      PackBound(rest);
      StepOfDouble(Pack(rest));
      XorAssociates(r, b, Double(Pack(rest)));
      StepXor(Xor(r, b), Double(Pack(rest)));
    } else {
      XorWithZero(r);
    }
  }

  lemma XorWithZero(r: bv16)
    ensures Xor(r, 0) == r
  {
  }

  // 2 to the n, for n up to 15.
  function PowerOfTwo(n: nat): (p: bv16)
    ensures p <= 0x8000
  {
    if n == 0 then 1 else if n == 1 then 2 else if n == 2 then 4 else if n == 3 then 8
    else if n == 4 then 16 else if n == 5 then 32 else if n == 6 then 64 else if n == 7 then 128
    else if n == 8 then 256 else if n == 9 then 512 else if n == 10 then 1024 else if n == 11 then 2048
    else if n == 12 then 4096 else if n == 13 then 8192 else if n == 14 then 16384 else 0x8000
  }

  predicate Below(x: bv16, n: nat)
    requires n <= 15
  {
    x < PowerOfTwo(n)
  }

  lemma DoubleBelow(x: bv16, n: nat, bit: bool)
    requires n < 15 && Below(x, n)
    ensures Below(Xor(BitValue(bit), Double(x)), n + 1)
  {
  }

  lemma {:induction false} PackBound(bits: seq<bool>)
    requires |bits| <= 15
    ensures Below(Pack(bits), |bits|)
    decreases |bits|
  {
    if bits != [] {
      PackBound(bits[1..]);
      DoubleBelow(Pack(bits[1..]), |bits| - 1, bits[0]);
    }
  }

  lemma PackInjectiveStep(a: bool, b: bool, x: bv16, y: bv16)
    requires x < 0x8000 && y < 0x8000
    requires Xor(BitValue(a), Double(x)) == Xor(BitValue(b), Double(y))
    ensures a == b && x == y
  {
  }

  lemma {:induction false} PackInjective(s: seq<bool>, t: seq<bool>)
    requires |s| == |t| <= 16 && Pack(s) == Pack(t)
    ensures s == t
    decreases |s|
  {
    if s != [] {
      PackBound(s[1..]);
      PackBound(t[1..]);
      PackInjectiveStep(s[0], t[0], Pack(s[1..]), Pack(t[1..]));
      PackInjective(s[1..], t[1..]);
      assert s == [s[0]] + s[1..] && t == [t[0]] + t[1..];
    }
  }

  /** From one register, different bit strings of the same length up to sixteen lead to different registers. */
  lemma {:induction false} ShortFeedInjective(r: bv16, s: seq<bool>, t: seq<bool>)
    requires |s| == |t| <= 16 && FeedBits(r, s) == FeedBits(r, t)
    ensures s == t
  {
    FeedIsShifts(r, s);
    FeedIsShifts(r, t);
    ShiftsInjective(Xor(r, Pack(s)), Xor(r, Pack(t)), |s|);
    XorCancel(Pack(s), Pack(t), r);
    PackInjective(s, t);
  }

  /** From different registers, the same bits lead to different registers. */
  lemma {:induction false} FeedInjective(r: bv16, r': bv16, bits: seq<bool>)
    requires FeedBits(r, bits) == FeedBits(r', bits)
    ensures r == r'
    decreases |bits|
  {
    if bits != [] {
      var b := BitValue(bits[0]);
      FeedInjective(ShiftStep(Xor(r, b)), ShiftStep(Xor(r', b)), bits[1..]);
      StepInjective(Xor(r, b), Xor(r', b));
      XorCancel(r, r', b);
    }
  }

  lemma {:induction false} FeedBitsConcat(r: bv16, s: seq<bool>, t: seq<bool>)
    ensures FeedBits(r, s + t) == FeedBits(FeedBits(r, s), t)
    decreases |s|
  {
    if s == [] {
      assert s + t == t;
    } else {
      assert (s + t)[1..] == s[1..] + t;
      FeedBitsConcat(ShiftStep(Xor(r, BitValue(s[0]))), s[1..], t);
    }
  }

  lemma {:induction false} AbsorbIsFeed(r: bv16, b: byte)
    ensures FeedBits(r, BitsOf(b)) == Absorb(r, Bits(b))
  {
    FeedIsShifts(r, BitsOf(b));
    PackByte(b);
  }

  lemma {:induction false} PackCons(a: bool, rest: seq<bool>)
    requires |rest| <= 15
    ensures Pack([a] + rest) == Xor(BitValue(a), Double(Pack(rest)))
  {
    assert ([a] + rest)[1..] == rest;
  }

  // The bits of b from the k-th on, as a number.
  function ValueFrom(b: bv8, k: nat): bv16
    requires k <= 8
    decreases 8 - k
  {
    if k == 8 then 0 else Xor(BitValue(BitSet(b, k)), Double(ValueFrom(b, k + 1)))
  }

  lemma {:induction false} WholeValue(b: bv8)
    ensures ValueFrom(b, 0) == Wide(b)
  {
  }

  lemma {:induction false} PackFrom(b: byte, k: nat)
    requires k <= 8
    ensures Pack(BitsOf(b)[k..]) == ValueFrom(Bits(b), k)
    decreases 8 - k
  {
    if k < 8 {
      var bits := BitsOf(b);
      PackFrom(b, k + 1);
      PackCons(bits[k], bits[k + 1..]);
      assert bits[k..] == [bits[k]] + bits[k + 1..];
    }
  }

  lemma PackByte(b: byte)
    ensures Pack(BitsOf(b)) == Wide(Bits(b))
  {
    PackFrom(b, 0);
    WholeValue(Bits(b));
    assert BitsOf(b)[0..] == BitsOf(b);
  }

  /** The byte-wise CRC is the bit-serial one. */
  lemma {:induction false} CrcIsFeed(r: bv16, s: seq<byte>)
    ensures CrcFrom(r, s) == FeedBits(r, MessageBits(s))
    decreases |s|
  {
    if s != [] {
      AbsorbIsFeed(r, s[0]);
      FeedBitsConcat(r, BitsOf(s[0]), MessageBits(s[1..]));
      CrcIsFeed(Absorb(r, Bits(s[0])), s[1..]);
    }
  }

  lemma {:induction false} MessageBitsConcat(s: seq<byte>, t: seq<byte>)
    ensures MessageBits(s + t) == MessageBits(s) + MessageBits(t)
    decreases |s|
  {
    if s == [] {
      assert s + t == t;
    } else {
      assert (s + t)[1..] == s[1..] + t;
      MessageBitsConcat(s[1..], t);
    }
  }

  lemma BitsOfInjective(b: byte, c: byte)
    requires BitsOf(b) == BitsOf(c)
    ensures b == c
  {
    PackByte(b);
    PackByte(c);
    WideInjective(Bits(b), Bits(c));
    BitsRoundTrip(b);
    BitsRoundTrip(c);
  }

  lemma WideInjective(b: bv8, c: bv8)
    requires Wide(b) == Wide(c)
    ensures b == c
  {
  }

  lemma {:induction false} MessageBitsInjective(s: seq<byte>, t: seq<byte>)
    requires MessageBits(s) == MessageBits(t)
    ensures s == t
    decreases |s|
  {
    assert |s| == |t|;
    if s != [] {
      var sb, tb := MessageBits(s), MessageBits(t);
      assert BitsOf(s[0]) == sb[..8] && BitsOf(t[0]) == tb[..8];
      assert MessageBits(s[1..]) == sb[8..] && MessageBits(t[1..]) == tb[8..];
      BitsOfInjective(s[0], t[0]);
      MessageBitsInjective(s[1..], t[1..]);
      assert s == [s[0]] + s[1..] && t == [t[0]] + t[1..];
    }
  }

  lemma {:induction false} AcceptedFeedsToZero(frame: seq<byte>)
    requires Accepted(frame)
    ensures FeedBits(0xFFFF, MessageBits(frame)) == 0
  {
    Residue(frame);
    CrcIsFeed(0xFFFF, frame);
  }

  /** Burst detection: an accepted frame changed only within sixteen consecutive bits, in the order they are sent and
    * wherever they fall across byte boundaries, checksum included, is rejected. */
  lemma {:induction false} BurstRejected(s: seq<byte>, t: seq<byte>, from: nat, to: nat)
    requires Accepted(s) && |t| == |s| && t != s
    requires from <= to <= 8 * |s| && to - from <= 16
    requires MessageBits(t)[..from] == MessageBits(s)[..from] && MessageBits(t)[to..] == MessageBits(s)[to..]
    ensures !Accepted(t)
  {
    if Accepted(t) {
      var sb, tb := MessageBits(s), MessageBits(t);
      var u, v := sb[..from], sb[to..];
      var w, w' := sb[from..to], tb[from..to];
      assert sb == u + (w + v) && tb == u + (w' + v);
      AcceptedFeedsToZero(s);
      AcceptedFeedsToZero(t);
      var r := FeedBits(0xFFFF, u);
      FeedBitsConcat(0xFFFF, u, w + v);
      FeedBitsConcat(0xFFFF, u, w' + v);
      FeedBitsConcat(r, w, v);
      FeedBitsConcat(r, w', v);
      FeedInjective(FeedBits(r, w), FeedBits(r, w'), v);
      ShortFeedInjective(r, w, w');
      MessageBitsInjective(s, t);
    }
  }

  /** In particular any change confined to two adjacent bytes of an accepted frame is rejected. */
  lemma AdjacentBytesRejected(u: seq<byte>, x: byte, y: byte, x': byte, y': byte, v: seq<byte>)
    requires Accepted(u + [x, y] + v) && (x != x' || y != y')
    ensures !Accepted(u + [x', y'] + v)
  {
    var s, t := u + [x, y] + v, u + [x', y'] + v;
    MessageBitsConcat(u + [x, y], v);
    MessageBitsConcat(u, [x, y]);
    MessageBitsConcat(u + [x', y'], v);
    MessageBitsConcat(u, [x', y']);
    assert s[|u|] == x && t[|u|] == x' && s[|u| + 1] == y && t[|u| + 1] == y';
    BurstRejected(s, t, 8 * |u|, 8 * |u| + 16);
  }

  // ---------------------------------------------------------------- odd numbers of flipped bits

  function Ones(bits: seq<bool>): nat {
    if bits == [] then 0 else (if bits[0] then 1 else 0) + Ones(bits[1..])
  }

  function Differences(s: seq<bool>, t: seq<bool>): nat
    requires |s| == |t|
  {
    if s == [] then 0 else (if s[0] != t[0] then 1 else 0) + Differences(s[1..], t[1..])
  }

  function Half(x: bv16): bv16 {
    x >> 1
  }

  function Halves(x: bv16, n: nat): bv16
    decreases n
  {
    if n == 0 then x else Halves(Half(x), n - 1)
  }

  // x ^ (x >> 1) ^ ... ^ (x >> n)
  function Smear(x: bv16, n: nat): bv16
    decreases n, x
  {
    if n == 0 then x else Xor(x, Smear(Half(x), n - 1))
  }

  predicate LowBit(x: bv16) {
    x & 1 == 1
  }

  /** Whether a register holds an odd number of ones: the exclusive or of its sixteen bits. */
  predicate Odd(x: bv16) {
    LowBit(Smear(x, 15))
  }

  lemma HalfOfXor(x: bv16, y: bv16)
    ensures Half(Xor(x, y)) == Xor(Half(x), Half(y))
  {
  }

  lemma LowBitOfXor(x: bv16, y: bv16)
    ensures LowBit(Xor(x, y)) == (LowBit(x) != LowBit(y))
  {
  }

  lemma {:induction false} SmearXor(x: bv16, y: bv16, n: nat)
    ensures Smear(Xor(x, y), n) == Xor(Smear(x, n), Smear(y, n))
    decreases n
  {
    if n > 0 {
      HalfOfXor(x, y);
      SmearXor(Half(x), Half(y), n - 1);
      XorExchange(x, y, Smear(Half(x), n - 1), Smear(Half(y), n - 1));
    }
  }

  lemma {:induction false} SmearLast(x: bv16, n: nat)
    ensures Smear(x, n + 1) == Xor(Smear(x, n), Halves(x, n + 1))
    decreases n
  {
    assert Smear(x, n + 1) == Xor(x, Smear(Half(x), n));
    if n == 0 {
      assert Halves(x, 1) == Halves(Half(x), 0) == Half(x);
    } else {
      SmearLast(Half(x), n - 1);
      XorAssociates(x, Smear(Half(x), n - 1), Halves(Half(x), n));
    }
  }

  lemma {:induction false} HalvesVanish(x: bv16)
    ensures Halves(x, 16) == 0
  {
    var a := Half(Half(Half(Half(x))));
    var b := Half(Half(Half(Half(a))));
    var c := Half(Half(Half(Half(b))));
    FourHalves(x, 12);
    FourHalves(a, 8);
    FourHalves(b, 4);
    FourHalves(c, 0);
  }

  lemma {:induction false} FourHalves(x: bv16, n: nat)
    ensures Halves(x, n + 4) == Halves(Half(Half(Half(Half(x)))), n)
  {
    assert Halves(x, n + 4) == Halves(Half(x), n + 3);
    assert Halves(Half(x), n + 3) == Halves(Half(Half(x)), n + 2);
  }

  lemma OddXor(x: bv16, y: bv16)
    ensures Odd(Xor(x, y)) == (Odd(x) != Odd(y))
  {
    SmearXor(x, y, 15);
    LowBitOfXor(Smear(x, 15), Smear(y, 15));
  }

  // Halving drops exactly the lowest bit.
  lemma OddHalf(x: bv16, half: bv16)
    requires half == Half(x)
    ensures Odd(x) == (LowBit(x) != Odd(half))
  {
    SmearLast(half, 14);
    HalvesVanish(x);
    XorWithZero(Smear(half, 14));
    LowBitOfXor(x, Smear(half, 14));
  }

  lemma StepByHalf(r: bv16)
    ensures ShiftStep(r) == if LowBit(r) then Xor(Half(r), 0xA001) else Half(r)
  {
  }

  lemma ZeroIsEven()
    ensures !Odd(0)
  {
    OddXor(0, 0);
    XorWithZero(0);
  }

  lemma OneIsOdd()
    ensures Odd(1)
  {
    ZeroIsEven();
    OddHalf(1, 0);
  }

  // The feedback word has an odd number of ones.
  lemma FeedbackIsOdd()
    ensures Odd(0xA001)
  {
    OneIsOdd();
    OddHalf(0x2, 0x1);
    OddHalf(0x5, 0x2);
    OddHalf(0xA, 0x5);
    OddHalf(0x14, 0xA);
    OddHalf(0x28, 0x14);
    OddHalf(0x50, 0x28);
    OddHalf(0xA0, 0x50);
    OddHalf(0x140, 0xA0);
    OddHalf(0x280, 0x140);
    OddHalf(0x500, 0x280);
    OddHalf(0xA00, 0x500);
    OddHalf(0x1400, 0xA00);
    OddHalf(0x2800, 0x1400);
    OddHalf(0x5000, 0x2800);
    OddHalf(0xA001, 0x5000);
  }

  lemma AllOnesIsEven()
    ensures !Odd(0xFFFF)
  {
    OddHalf(0xAAAA, 0x5555);
    OddXor(0xAAAA, 0x5555);
    assert Xor(0xAAAA, 0x5555) == 0xFFFF;
  }

  // Feedback replaces one bit by three, so a shift keeps the parity.
  lemma OddStep(r: bv16)
    ensures Odd(ShiftStep(r)) == Odd(r)
  {
    StepByHalf(r);
    OddHalf(r, Half(r));
    OddXor(Half(r), 0xA001);
    FeedbackIsOdd();
  }

  lemma OddXorBit(r: bv16, bit: bool)
    ensures Odd(Xor(r, BitValue(bit))) == (Odd(r) != bit)
  {
    OddXor(r, BitValue(bit));
    OneIsOdd();
    ZeroIsEven();
  }

  predicate OddCount(bits: seq<bool>) {
    bits != [] && (bits[0] != OddCount(bits[1..]))
  }

  lemma {:induction false} OddCountIsOnes(bits: seq<bool>)
    ensures OddCount(bits) == (Ones(bits) % 2 == 1)
  {
    if bits != [] {
      OddCountIsOnes(bits[1..]);
    }
  }

  /** The register's parity follows the parity of the bits fed in. */
  lemma {:induction false} FeedParity(r: bv16, bits: seq<bool>)
    ensures Odd(FeedBits(r, bits)) == (Odd(r) != OddCount(bits))
    decreases |bits|
  {
    if bits != [] {
      var x := Xor(r, BitValue(bits[0]));
      OddXorBit(r, bits[0]);
      OddStep(x);
      FeedParity(ShiftStep(x), bits[1..]);
    }
  }

  /** An accepted frame has an even number of one bits. */
  lemma {:induction false} AcceptedIsEven(frame: seq<byte>)
    requires Accepted(frame)
    ensures Ones(MessageBits(frame)) % 2 == 0
  {
    AcceptedFeedsToZero(frame);
    FeedParity(0xFFFF, MessageBits(frame));
    OddCountIsOnes(MessageBits(frame));
    AllOnesIsEven();
    ZeroIsEven();
  }

  lemma {:induction false} OnesConcat(s: seq<bool>, t: seq<bool>)
    ensures Ones(s + t) == Ones(s) + Ones(t)
    decreases |s|
  {
    if s == [] {
      assert s + t == t;
    } else {
      assert (s + t)[1..] == s[1..] + t;
      OnesConcat(s[1..], t);
    }
  }

  /** The two checksum bytes have the parity of the message. */
  lemma {:induction false} CrcParity(s: seq<byte>)
    ensures Ones(MessageBits(CrcBytes(s))) % 2 == Ones(MessageBits(s)) % 2
  {
    var c := CrcBytes(s);
    assert c == [c[0], c[1]];
    AcceptedParts(s, c[0], c[1]);
    AcceptedIsEven(s + c);
    MessageBitsConcat(s, c);
    OnesConcat(MessageBits(s), MessageBits(c));
  }

  lemma {:induction false} DifferencesParity(s: seq<bool>, t: seq<bool>)
    requires |s| == |t|
    ensures Differences(s, t) % 2 == (Ones(s) + Ones(t)) % 2
    decreases |s|
  {
    if s != [] {
      DifferencesParity(s[1..], t[1..]);
    }
  }

  lemma {:induction false} OddDifference(s: seq<bool>, t: seq<bool>)
    requires |s| == |t| && Differences(s, t) % 2 == 1 && Ones(s) % 2 == 0
    ensures Ones(t) % 2 == 1
  {
    DifferencesParity(s, t);
  }

  /** Flipping any odd number of bits of an accepted frame makes it rejected. */
  lemma {:induction false} OddErrorRejected(s: seq<byte>, t: seq<byte>)
    requires Accepted(s) && |t| == |s|
    requires Differences(MessageBits(s), MessageBits(t)) % 2 == 1
    ensures !Accepted(t)
  {
    if Accepted(t) {
      AcceptedIsEven(s);
      AcceptedIsEven(t);
      OddDifference(MessageBits(s), MessageBits(t));
    }
  }

  // ---------------------------------------------------------------- the affine law

  function XorByte(b: byte, c: byte): byte {
    FromBits(XorBits(Bits(b), Bits(c)))
  }

  function XorSeq(s: seq<byte>, t: seq<byte>): (x: seq<byte>)
    requires |s| == |t|
    ensures |x| == |s|
  {
    seq(|s|, i requires 0 <= i < |s| => XorByte(s[i], t[i]))
  }

  lemma WideXor(b: bv8, c: bv8)
    ensures Wide(XorBits(b, c)) == Xor(Wide(b), Wide(c))
  {
  }

  lemma AbsorbXor(r: bv16, r': bv16, b: bv8, c: bv8)
    ensures Absorb(Xor(r, r'), XorBits(b, c)) == Xor(Absorb(r, b), Absorb(r', c))
  {
    WideXor(b, c);
    XorExchange(r, r', Wide(b), Wide(c));
    ShiftsXor(Xor(r, Wide(b)), Xor(r', Wide(c)), 8);
  }

  lemma {:induction false} CrcFromXor(r: bv16, r': bv16, s: seq<byte>, t: seq<byte>)
    requires |s| == |t|
    ensures CrcFrom(Xor(r, r'), XorSeq(s, t)) == Xor(CrcFrom(r, s), CrcFrom(r', t))
    decreases |s|
  {
    if s != [] {
      var b, c := Bits(s[0]), Bits(t[0]);
      AbsorbXor(r, r', b, c);
      FromBitsRoundTrip(XorBits(b, c));
      assert XorSeq(s, t)[1..] == XorSeq(s[1..], t[1..]);
      CrcFromXor(Absorb(r, b), Absorb(r', c), s[1..], t[1..]);
    }
  }

  /** The CRC is affine: for messages of one length, the CRC of a bytewise xor of three is the xor of the CRCs. */
  lemma CrcIsAffine(a: seq<byte>, b: seq<byte>, c: seq<byte>)
    requires |a| == |b| == |c|
    ensures Crc16(XorSeq(XorSeq(a, b), c)) == Xor(Xor(Crc16(a), Crc16(b)), Crc16(c))
  {
    CrcFromXor(0xFFFF, 0xFFFF, a, b);
    CrcFromXor(Xor(0xFFFF, 0xFFFF), 0xFFFF, XorSeq(a, b), c);
    assert Xor(Xor(0xFFFF, 0xFFFF), 0xFFFF) == 0xFFFF;
  }
}
