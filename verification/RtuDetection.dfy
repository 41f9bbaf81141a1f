/** What the checksum does for the scanners: a frame damaged on the line is reported as nonsense, and calls back
  * nothing. */
module RtuDetection {
  import opened Bytes
  import opened Crc
  import opened CrcDetection
  import opened CrcDistance
  import opened Framing
  import opened Pdu
  import opened Rtu

  /** Damage that leaves a frame its length: the address is right, and function code and byte count, damaged or not,
    * announce as many bytes as before. */
  predicate SameShape(w: seq<byte>, t: seq<byte>) {
    && |t| == |w| > 1 && t[0] == w[0] && ValidFc(t[1])
    && HeadRead(w, 1) && HeadRead(t, 1) && PduLen(t, 1) == PduLen(w, 1) && CountIsZero(t, 1) == CountIsZero(w, 1)
  }

  /** Whatever stands in it, such a frame is whole at its last byte, and then it is nonsense exactly if the checksum
    * does not fit. */
  lemma DamagedFrame(d: Dialect, a: byte, r: Request, t: seq<byte>)
    requires WellFormed(r) && (d.Coroutine? || !ZeroCount(r)) && SameShape(Frame(a, r), t)
    ensures Word(FrameRule(d, a), t)
    ensures if Accepted(t) then FrameRule(d, a)(t).event.Some? && FrameRule(d, a)(t).event.value.PduEvent?
            else FrameRule(d, a)(t) == End(Some(Nonsense), d.Coroutine?)
  {
    FrameShape(a, r);
    DamagedWord(d, a, t);
  }

  lemma DamagedWord(d: Dialect, a: byte, t: seq<byte>)
    requires |t| > 1 && t[0] == a && ValidFc(t[1]) && HeadRead(t, 1) && |t| == FrameLen(d, t) == PduLen(t, 1) + 3
    ensures Word(FrameRule(d, a), t)
    ensures if Accepted(t) then FrameRule(d, a)(t).event.Some? && FrameRule(d, a)(t).event.value.PduEvent?
            else FrameRule(d, a)(t) == End(Some(Nonsense), d.Coroutine?)
  {
    forall k | 0 < k < |t|
      ensures FrameRule(d, a)(t[..k]).More?
    {
      JudgePrefix(d, a, t, k);
    }
  }

  /** The damage is such as the checksum detects: confined to sixteen consecutive bits, or to at most three bits, or
    * to an odd number of bits. */
  ghost predicate Detectable(s: seq<byte>, t: seq<byte>)
    requires |s| == |t|
  {
    var sb, tb := MessageBits(s), MessageBits(t);
    && t != s
    && ((exists from: nat, to: nat ::
           from <= to <= |sb| && to - from <= 16 && sb[..from] == tb[..from] && sb[to..] == tb[to..])
        || Differences(sb, tb) <= 3 || Differences(sb, tb) % 2 == 1)
  }

  lemma {:induction false} SameBitsSameBytes(s: seq<byte>, t: seq<byte>)
    requires |s| == |t| && Differences(MessageBits(s), MessageBits(t)) == 0
    ensures s == t
  {
    NoDifference(MessageBits(s), MessageBits(t));
    MessageBitsInjective(s, t);
  }

  lemma {:induction false} DetectableRejected(s: seq<byte>, t: seq<byte>)
    requires Accepted(s) && |t| == |s| <= MAX_FRAME && Detectable(s, t)
    ensures !Accepted(t)
  {
    var sb, tb := MessageBits(s), MessageBits(t);
    if from: nat, to: nat :| from <= to <= |sb| && to - from <= 16 && sb[..from] == tb[..from] && sb[to..] == tb[to..] {
      BurstRejected(s, t, from, to);
    } else if Differences(sb, tb) <= 3 {
      if Differences(sb, tb) == 0 {
        SameBitsSameBytes(s, t);
      }
      FewBitsRejected(s, t);
    } else {
      OddErrorRejected(s, t);
    }
  }

  /** A frame so damaged between the bytes that give its length calls back no request: scanning it reports nonsense,
    * once. */
  lemma {:induction false} DamageIsNonsense(d: Dialect, a: byte, r: Request, t: seq<byte>)
    requires WellFormed(r) && (d.Coroutine? || !ZeroCount(r))
    requires SameShape(Frame(a, r), t) && Detectable(Frame(a, r), t)
    ensures ScanChunk(FrameRule(d, a), [], t) == Outcome([], [Nonsense], d.Coroutine?)
  {
    var g := FrameRule(d, a);
    AcceptedParts([a] + Encode(r), CrcBytes([a] + Encode(r))[0], CrcBytes([a] + Encode(r))[1]);
    assert Accepted(Frame(a, r));
    DetectableRejected(Frame(a, r), t);
    DamagedFrame(d, a, r, t);
    assert t[..0] == [] && t[0..] == t && t[0..] + [] == t;
    if d.Coroutine? {
      DropsAtWord(g, t, 0, []);
    } else {
      ScanWord(g, t, 0, []);
    }
  }
}
