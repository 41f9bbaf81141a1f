/** The distance of the Modbus CRC: on frames as long as the protocol has them, no one, two or three flipped bits
  * escape it.
  *
  * Two flipped bits d apart escape exactly if d shifts bring the register 1 back to 1.  The generator is x + 1 times
  * x^15 + x + 1, so on registers that x + 1 divides fifteen shifts do what one exclusive or does, a `Hop`; the
  * distances of a whole frame are looked through in 144 hops. */
module CrcDistance {
  import opened Bytes
  import opened Crc
  import opened CrcDetection

  // ---------------------------------------------------------------- shifts

  lemma {:induction false} ShiftsAdd(x: bv16, m: nat, n: nat)
    ensures Shifts(x, m + n) == Shifts(Shifts(x, m), n)
    decreases m
  {
    if m > 0 {
      ShiftsAdd(ShiftStep(x), m - 1, n);
    }
  }

  lemma {:induction false} ShiftsCommute(x: bv16, n: nat)
    ensures ShiftStep(Shifts(x, n)) == Shifts(ShiftStep(x), n)
    decreases n
  {
    if n > 0 {
      ShiftsCommute(ShiftStep(x), n - 1);
    }
  }

  /** What fifteen shifts do to a register that x + 1 divides. */
  function Hop(v: bv16): bv16 {
    Xor(v, ShiftStep(v))
  }

  predicate HopIsFifteen(v: bv16) {
    Shifts(v, 15) == Hop(v)
  }

  lemma HopAgain(v: bv16)
    requires HopIsFifteen(v)
    ensures HopIsFifteen(Hop(v)) && HopIsFifteen(ShiftStep(v))
  {
    ShiftsXor(v, ShiftStep(v), 15);
    ShiftsCommute(v, 15);
    StepXor(v, ShiftStep(v));
  }

  /** The register 1, and 1 shifted once, added up: the start of the search. */
  lemma StartHops()
    ensures Xor(1, ShiftStep(1)) == 0xA000 && HopIsFifteen(0xA000) && ShiftStep(0xA000) == Milestone(0)
  {
    ShiftsAdd(0xA000, 8, 7);
  }

  // ---------------------------------------------------------------- the search

  /** The register from which r shifts lead to 0xA000. */
  function NearAt(r: nat): bv16
    requires r < 15
  {
    if r == 0 then 0xA000 else 3 << (r - 1)
  }

  /** True of every register from which fewer than fifteen shifts lead to 0xA000: two adjacent ones, the lower being
    * l. */
  predicate Near(v: bv16) {
    var l := v & (0 - v);
    v == 0xA000 || v == l | (l << 1)
  }

  lemma StepOfNear(r: nat)
    requires 0 < r < 15
    ensures ShiftStep(NearAt(r)) == NearAt(r - 1)
  {
  }

  lemma {:induction false} NearReaches(r: nat)
    requires r < 15
    ensures Shifts(NearAt(r), r) == 0xA000
    decreases r
  {
    if r > 0 {
      StepOfNear(r);
      NearReaches(r - 1);
    }
  }

  lemma {:induction false} NearIfReaches(v: bv16, r: nat)
    requires r < 15 && Shifts(v, r) == 0xA000
    ensures Near(v)
  {
    NearReaches(r);
    ShiftsInjective(v, NearAt(r), r);
  }

  /** Hop n times, unless a register near 0xA000 comes first: the result is 3 then. */
  function Walk(v: bv16, n: nat): bv16
    decreases n, v
  {
    if n == 0 then v else if Near(v) then 3 else Walk(Hop(v), n - 1)
  }

  lemma {:induction false} WalkAdd(v: bv16, m: nat, n: nat)
    ensures Walk(v, m + n) == Walk(Walk(v, m), n)
    decreases m
  {
    if m > 0 && !Near(v) {
      WalkAdd(Hop(v), m - 1, n);
    }
  }

  /** A walk that meets no register near 0xA000 passes over all the shifts it stands for. */
  lemma {:induction false} WalkAvoids(v: bv16, n: nat, q: nat, r: nat)
    requires HopIsFifteen(v) && Walk(v, n) != 3 && q < n && r < 15
    ensures Shifts(v, 15 * q + r) != 0xA000
    decreases n
  {
    if q == 0 {
      if Shifts(v, r) == 0xA000 {
        NearIfReaches(v, r);
      }
    } else {
      HopAgain(v);
      ShiftsAdd(v, 15, 15 * (q - 1) + r);
      WalkAvoids(Hop(v), n - 1, q - 1, r);
    }
  }

  /** Where a walk from 0xA000 shifted once stands after 8 * k hops. */
  function Milestone(k: nat): bv16
    requires k <= 18
  {
    match k
    case 0 => 0x5000
    case 1 => 0x5050
    case 2 => 0x6c00
    case 3 => 0x6c6c
    case 4 => 0x4100
    case 5 => 0x4141
    case 6 => 0x71c0
    case 7 => 0x21b1
    case 8 => 0x5550
    case 9 => 0x6905
    case 10 => 0x6aac
    case 11 => 0x17c6
    case 12 => 0x4551
    case 13 => 0xb9d5
    case 14 => 0x26ad
    case 15 => 0x9b4a
    case 16 => 0x6c50
    case 17 => 0x503c
    case _ => 0x416c
  }

  lemma Leg0()
    ensures Walk(0x5000, 8) == 0x5050
  {
  }

  lemma Leg1()
    ensures Walk(0x5050, 8) == 0x6c00
  {
  }

  lemma Leg2()
    ensures Walk(0x6c00, 8) == 0x6c6c
  {
  }

  lemma Leg3()
    ensures Walk(0x6c6c, 8) == 0x4100
  {
  }

  lemma Leg4()
    ensures Walk(0x4100, 8) == 0x4141
  {
  }

  lemma Leg5()
    ensures Walk(0x4141, 8) == 0x71c0
  {
  }

  lemma Leg6()
    ensures Walk(0x71c0, 8) == 0x21b1
  {
  }

  lemma Leg7()
    ensures Walk(0x21b1, 8) == 0x5550
  {
  }

  lemma Leg8()
    ensures Walk(0x5550, 8) == 0x6905
  {
  }

  lemma Leg9()
    ensures Walk(0x6905, 8) == 0x6aac
  {
  }

  lemma Leg10()
    ensures Walk(0x6aac, 8) == 0x17c6
  {
  }

  lemma Leg11()
    ensures Walk(0x17c6, 8) == 0x4551
  {
  }

  lemma Leg12()
    ensures Walk(0x4551, 8) == 0xb9d5
  {
  }

  lemma Leg13()
    ensures Walk(0xb9d5, 8) == 0x26ad
  {
  }

  lemma Leg14()
    ensures Walk(0x26ad, 8) == 0x9b4a
  {
  }

  lemma Leg15()
    ensures Walk(0x9b4a, 8) == 0x6c50
  {
  }

  lemma Leg16()
    ensures Walk(0x6c50, 8) == 0x503c
  {
  }

  lemma Leg17()
    ensures Walk(0x503c, 8) == 0x416c
  {
  }

  lemma Leg(k: nat)
    requires k < 18
    ensures Walk(Milestone(k), 8) == Milestone(k + 1)
  {
    match k {
    case 0 => Leg0();
    case 1 => Leg1();
    case 2 => Leg2();
    case 3 => Leg3();
    case 4 => Leg4();
    case 5 => Leg5();
    case 6 => Leg6();
    case 7 => Leg7();
    case 8 => Leg8();
    case 9 => Leg9();
    case 10 => Leg10();
    case 11 => Leg11();
    case 12 => Leg12();
    case 13 => Leg13();
    case 14 => Leg14();
    case 15 => Leg15();
    case 16 => Leg16();
    case 17 => Leg17();
    }
  }

  lemma {:induction false} WalkOn(k: nat)
    requires k <= 18
    ensures Walk(Milestone(k), 8 * (18 - k)) == Milestone(18)
    decreases 18 - k
  {
    if k < 18 {
      Leg(k);
      WalkAdd(Milestone(k), 8, 8 * (17 - k));
      WalkOn(k + 1);
    }
  }

  /** No number of shifts within the longest frame brings 1 back to 1. */
  lemma {:induction false} OneReturnsLate(d: nat)
    requires 0 < d < 8 * MAX_FRAME
    ensures Shifts(1, d) != 1
  {
    if Shifts(1, d) == 1 {
      var v := ShiftStep(0xA000);
      StartHops();
      HopAgain(0xA000);
      ShiftsXor(1, ShiftStep(1), d);
      ShiftsCommute(1, d);
      WalkOn(0);
      WalkAvoids(v, 144, (d - 1) / 15, (d - 1) % 15);
    }
  }

  // ---------------------------------------------------------------- flipped bits

  /** Feeding the same bits to two registers only shifts their difference. */
  lemma {:induction false} FeedDifference(r: bv16, r': bv16, bits: seq<bool>)
    ensures Xor(FeedBits(r, bits), FeedBits(r', bits)) == Shifts(Xor(r, r'), |bits|)
    decreases |bits|
  {
    if bits != [] {
      var b := BitValue(bits[0]);
      FeedDifference(ShiftStep(Xor(r, b)), ShiftStep(Xor(r', b)), bits[1..]);
      StepXor(Xor(r, b), Xor(r', b));
      XorExchange(r, b, r', b);
      XorSelf(b);
      XorWithZero(Xor(r, r'));
    }
  }

  lemma {:induction false} NoDifference(s: seq<bool>, t: seq<bool>)
    requires |s| == |t| && Differences(s, t) == 0
    ensures s == t
    decreases |s|
  {
    if s != [] {
      NoDifference(s[1..], t[1..]);
      assert s == [s[0]] + s[1..] && t == [t[0]] + t[1..];
    }
  }

  lemma StepDifference(r: bv16, r': bv16, x: bool, y: bool)
    ensures Xor(ShiftStep(Xor(r, BitValue(x))), ShiftStep(Xor(r', BitValue(y)))) ==
            ShiftStep(if x == y then Xor(r, r') else Xor(Xor(r, r'), 1))
  {
    var b, c := BitValue(x), BitValue(y);
    StepXor(Xor(r, b), Xor(r', c));
    XorExchange(r, b, r', c);
    BitDifference(x, y);
    XorWithZero(Xor(r, r'));
  }

  lemma BitDifference(x: bool, y: bool)
    ensures Xor(BitValue(x), BitValue(y)) == if x == y then 0 else 1
  {
  }

  /** Two registers fed bits that differ in one place end up apart by what they were, shifted, and by that one bit,
    * shifted k times. */
  lemma {:induction false} OneFlip(r: bv16, r': bv16, s: seq<bool>, t: seq<bool>) returns (k: nat)
    requires |s| == |t| && Differences(s, t) == 1
    ensures 0 < k <= |s|
    ensures Xor(FeedBits(r, s), FeedBits(r', t)) == Xor(Shifts(Xor(r, r'), |s|), Shifts(1, k))
    decreases |s|
  {
    var u, v := ShiftStep(Xor(r, BitValue(s[0]))), ShiftStep(Xor(r', BitValue(t[0])));
    StepDifference(r, r', s[0], t[0]);
    if s[0] == t[0] {
      k := OneFlip(u, v, s[1..], t[1..]);
    } else {
      k := |s|;
      NoDifference(s[1..], t[1..]);
      FeedDifference(u, v, s[1..]);
      StepXor(Xor(r, r'), 1);
      ShiftsXor(ShiftStep(Xor(r, r')), ShiftStep(1), |s| - 1);
    }
  }

  /** One register fed bits that differ in two places. */
  lemma {:induction false} TwoFlips(r: bv16, s: seq<bool>, t: seq<bool>) returns (k: nat, l: nat)
    requires |s| == |t| && Differences(s, t) == 2
    ensures 0 < k < l <= |s|
    ensures Xor(FeedBits(r, s), FeedBits(r, t)) == Xor(Shifts(1, l), Shifts(1, k))
    decreases |s|
  {
    var u, v := ShiftStep(Xor(r, BitValue(s[0]))), ShiftStep(Xor(r, BitValue(t[0])));
    if s[0] == t[0] {
      k, l := TwoFlips(u, s[1..], t[1..]);
    } else {
      StepDifference(r, r, s[0], t[0]);
      XorSelf(r);
      XorCommutes(0, 1);
      XorWithZero(1);
      k := OneFlip(u, v, s[1..], t[1..]);
      l := |s|;
    }
  }

  /** Two flipped bits anywhere in an accepted frame, checksum included, are detected. */
  lemma {:induction false} TwoBitsRejected(s: seq<byte>, t: seq<byte>)
    requires Accepted(s) && |t| == |s| <= MAX_FRAME && Differences(MessageBits(s), MessageBits(t)) == 2
    ensures !Accepted(t)
  {
    if Accepted(t) {
      AcceptedFeedsToZero(s);
      AcceptedFeedsToZero(t);
      var k, l := TwoFlips(0xFFFF, MessageBits(s), MessageBits(t));
      XorSelf(0);
      XorZero(Shifts(1, l), Shifts(1, k));
      ShiftsAdd(1, l - k, k);
      ShiftsInjective(Shifts(1, l - k), 1, k);
      OneReturnsLate(l - k);
    }
  }

  /** The distance is at least four: no change of one, two or three bits turns an accepted frame into another. */
  lemma {:induction false} FewBitsRejected(s: seq<byte>, t: seq<byte>)
    requires Accepted(s) && |t| == |s| <= MAX_FRAME && 0 < Differences(MessageBits(s), MessageBits(t)) <= 3
    ensures !Accepted(t)
  {
    if Differences(MessageBits(s), MessageBits(t)) == 2 {
      TwoBitsRejected(s, t);
    } else {
      OddErrorRejected(s, t);
    }
  }
}
