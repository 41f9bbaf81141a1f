/** Where the two RTU scanners do one job: they agree on every stream in which no byte count of zero is read. */
module RtuEquivalence {
  import opened Bytes
  import opened Crc
  import opened Framing
  import opened Pdu
  import opened Rtu

  /** The frame so far has just got a byte count, and it is zero. */
  predicate ZeroCountAt(q: seq<byte>) {
    HeadRead(q, 1) && |q| == 1 + HeadLen(q[1]) && CountIsZero(q, 1)
  }

  /** Whether the coroutine, fed these bytes one at a time, reads a byte count of zero. */
  predicate ReadsZeroCount(a: byte, p: seq<byte>, bytes: seq<byte>)
    decreases |bytes|
  {
    bytes != [] &&
    (ZeroCountAt(p + [bytes[0]]) ||
     ReadsZeroCount(a, ScanChunk(FrameRule(Coroutine, a), p, [bytes[0]]).rest, bytes[1..]))
  }

  /** How many invalid function codes the coroutine reads. */
  function BadFcCount(a: byte, p: seq<byte>, bytes: seq<byte>): nat
    decreases |bytes|
  {
    if bytes == [] then 0 else
    (if |p| == 1 && !ValidFc(bytes[0]) then 1 else 0) +
    BadFcCount(a, ScanChunk(FrameRule(Coroutine, a), p, [bytes[0]]).rest, bytes[1..])
  }

  function NonsenseCount(events: seq<Event>): nat {
    if events == [] then 0 else (if events[0].Nonsense? then 1 else 0) + NonsenseCount(events[1..])
  }

  lemma {:induction false} NonsenseCountConcat(s: seq<Event>, t: seq<Event>)
    ensures NonsenseCount(s + t) == NonsenseCount(s) + NonsenseCount(t)
    decreases |s|
  {
    if s == [] {
      assert s + t == t;
    } else {
      assert (s + t)[1..] == s[1..] + t;
      NonsenseCountConcat(s[1..], t);
    }
  }

  /** An unfinished frame for address a whose byte count, if read, is not zero. */
  predicate Common(a: byte, p: seq<byte>) {
    && (|p| > 0 ==> p[0] == a)
    && (|p| > 1 ==> ValidFc(p[1]))
    && (HeadRead(p, 1) ==> !CountIsZero(p, 1))
  }

  lemma {:induction false} CommonStep(a: byte, p: seq<byte>, b: byte)
    requires Common(a, p) && !ZeroCountAt(p + [b])
    ensures Common(a, ScanChunk(FrameRule(Coroutine, a), p, [b]).rest)
    ensures HeadRead(p + [b], 1) ==> !CountIsZero(p + [b], 1)
  {
    ScanOne(FrameRule(Coroutine, a), p, b);
    var q := p + [b];
    if HeadRead(p, 1) {
      assert q[1] == p[1];
    }
  }

  predicate BadFc(a: byte, q: seq<byte>) {
    |q| > 1 && q[0] == a && !ValidFc(q[1])
  }

  lemma JudgesAgree(a: byte, q: seq<byte>)
    requires HeadRead(q, 1) ==> !CountIsZero(q, 1)
    ensures var c, f := Judge(Coroutine, a, q), Judge(StateClasses, a, q);
            if BadFc(a, q) then c == End(Some(Nonsense), true) && f == End(None, false)
            else (c.More? && f.More?) || (c.End? && f.End? && c.event == f.event)
  {
    if HeadRead(q, 1) {
      assert FrameLen(Coroutine, q) == FrameLen(StateClasses, q);
    }
  }

  /** One byte: the same state afterwards, the same request, and a nonsense of the coroutine's alone only for an invalid
    * function code. */
  lemma {:induction false} StepAgrees(a: byte, p: seq<byte>, b: byte)
    requires Common(a, p) && !ZeroCountAt(p + [b])
    ensures var c, f := ScanChunk(FrameRule(Coroutine, a), p, [b]), ScanChunk(FrameRule(StateClasses, a), p, [b]);
            && c.rest == f.rest && Pdus(c.events) == Pdus(f.events)
            && NonsenseCount(c.events) == NonsenseCount(f.events) + if |p| == 1 && !ValidFc(b) then 1 else 0
  {
    var q := p + [b];
    ScanOne(FrameRule(Coroutine, a), p, b);
    ScanOne(FrameRule(StateClasses, a), p, b);
    CommonStep(a, p, b);
    JudgesAgree(a, q);
    assert BadFc(a, q) <==> |p| == 1 && !ValidFc(b);
    if BadFc(a, q) {
      assert Reported<Event>(Some(Nonsense)) == [Nonsense] && Reported<Event>(None) == [];
    }
  }

  /** Equivalence, one byte per chunk: on any stream in which no byte count of zero is read, the two scanners call back
    * the same requests and stand in the middle of the same frame, and the coroutine's nonsense calls are those of the
    * state classes plus the invalid function codes. */
  lemma {:induction false} ScannersAgree(a: byte, p: seq<byte>, bytes: seq<byte>)
    requires Common(a, p) && !ReadsZeroCount(a, p, bytes)
    ensures var c, f := Feed(FrameRule(Coroutine, a), p, bytes), Feed(FrameRule(StateClasses, a), p, bytes);
            && c.rest == f.rest && Pdus(c.events) == Pdus(f.events)
            && NonsenseCount(c.events) == NonsenseCount(f.events) + BadFcCount(a, p, bytes)
            && Common(a, c.rest)
    decreases |bytes|
  {
    if bytes != [] {
      var g, h := FrameRule(Coroutine, a), FrameRule(StateClasses, a);
      var c, f := ScanChunk(g, p, [bytes[0]]), ScanChunk(h, p, [bytes[0]]);
      StepAgrees(a, p, bytes[0]);
      CommonStep(a, p, bytes[0]);
      ScannersAgree(a, c.rest, bytes[1..]);
      var c', f' := Feed(g, c.rest, bytes[1..]), Feed(h, c.rest, bytes[1..]);
      FeedStep(g, p, bytes);
      FeedStep(h, p, bytes);
      PdusConcat(c.events, c'.events);
      PdusConcat(f.events, f'.events);
      NonsenseCountConcat(c.events, c'.events);
      NonsenseCountConcat(f.events, f'.events);
    }
  }

  // ---------------------------------------------------------------- chunks of any size

  /** The coroutine drops the rest of a chunk exactly when it reports nonsense; the state classes never drop. */
  lemma {:induction false} ScanDrops(a: byte, p: seq<byte>, chunk: seq<byte>)
    ensures var o := ScanChunk(FrameRule(Coroutine, a), p, chunk); o.dropped <==> Nonsense in o.events
    decreases |chunk|
  {
    if chunk != [] {
      var q := p + [chunk[0]];
      match Judge(Coroutine, a, q)
      case More => ScanDrops(a, q, chunk[1..]);
      case End(_, _) => ScanDrops(a, [], chunk[1..]);
    }
  }

  lemma {:induction false} RunDrops(a: byte, p: seq<byte>, chunks: seq<seq<byte>>)
    ensures var o := Run(FrameRule(Coroutine, a), p, chunks); o.dropped <==> Nonsense in o.events
    decreases |chunks|
  {
    if chunks != [] {
      ScanDrops(a, p, chunks[0]);
      RunDrops(a, ScanChunk(FrameRule(Coroutine, a), p, chunks[0]).rest, chunks[1..]);
    }
  }

  lemma {:induction false} StateClassesNeverDrop(a: byte, p: seq<byte>, chunk: seq<byte>)
    ensures !ScanChunk(FrameRule(StateClasses, a), p, chunk).dropped
    decreases |chunk|
  {
    if chunk != [] {
      var q := p + [chunk[0]];
      match Judge(StateClasses, a, q)
      case More => StateClassesNeverDrop(a, q, chunk[1..]);
      case End(_, _) => StateClassesNeverDrop(a, [], chunk[1..]);
    }
  }

  /** The chunk law of the state classes: chunk boundaries never matter. */
  lemma {:induction false} StateClassesIgnoreChunking(a: byte, p: seq<byte>, chunks: seq<seq<byte>>)
    ensures Run(FrameRule(StateClasses, a), p, chunks) == Feed(FrameRule(StateClasses, a), p, Flatten(chunks))
  {
    var g, bytes := FrameRule(StateClasses, a), Flatten(chunks);
    StateClassesNeverDrop(a, p, bytes);
    AnyChunking(g, p, chunks);
    ScanIsFeed(g, p, bytes);
  }

  /** Equivalence on arbitrary chunks, whatever the coroutine drops of them: fed the bytes the coroutine keeps, in
    * which no byte count of zero is read, the state classes call back the same requests and stand in the same frame. */
  lemma {:induction false} ScannersAgreeOnKept(a: byte, p: seq<byte>, chunks: seq<seq<byte>>)
    requires var kept := Kept(FrameRule(Coroutine, a), p, chunks); Common(a, p) && !ReadsZeroCount(a, p, kept)
    ensures var kept := Kept(FrameRule(Coroutine, a), p, chunks);
            var c, f := Run(FrameRule(Coroutine, a), p, chunks), Run(FrameRule(StateClasses, a), p, [kept]);
            && Pdus(c.events) == Pdus(f.events) && c.rest == f.rest
            && NonsenseCount(c.events) == NonsenseCount(f.events) + BadFcCount(a, p, kept)
  {
    var kept := Kept(FrameRule(Coroutine, a), p, chunks);
    RunIsFeedOfKept(FrameRule(Coroutine, a), p, chunks);
    StateClassesIgnoreChunking(a, p, [kept]);
    assert Flatten([kept]) == kept;
    ScannersAgree(a, p, kept);
  }

  /** In particular, whenever the coroutine raises no nonsense, and no byte count of zero is read, the two scanners call
    * back the same requests. */
  lemma {:induction false} ScannersAgreeOnChunks(a: byte, chunks: seq<seq<byte>>)
    requires Nonsense !in Run(FrameRule(Coroutine, a), [], chunks).events
    requires !ReadsZeroCount(a, [], Flatten(chunks))
    ensures var c, f := Run(FrameRule(Coroutine, a), [], chunks), Run(FrameRule(StateClasses, a), [], chunks);
            Pdus(c.events) == Pdus(f.events) && c.rest == f.rest
  {
    var kept := Kept(FrameRule(Coroutine, a), [], chunks);
    RunDrops(a, [], chunks);
    KeptIsAll(FrameRule(Coroutine, a), [], chunks);
    StateClassesIgnoreChunking(a, [], chunks);
    StateClassesIgnoreChunking(a, [], [kept]);
    assert Flatten([kept]) == kept;
    ScannersAgreeOnKept(a, [], chunks);
  }

  // ---------------------------------------------------------------- exactly where they agree

  /** Fed these bytes one at a time, both scanners have called back the same requests. */
  predicate SameRequests(a: byte, bytes: seq<byte>) {
    Pdus(Feed(FrameRule(Coroutine, a), [], bytes).events) == Pdus(Feed(FrameRule(StateClasses, a), [], bytes).events)
  }

  lemma {:induction false} FeedTwo(d: Dialect, a: byte, p: seq<byte>, x: byte, y: byte)
    ensures var g := FrameRule(d, a); var o := ScanChunk(g, p, [x]);
            Feed(g, p, [x, y]) == Then(o, ScanChunk(g, o.rest, [y]))
  {
    var g := FrameRule(d, a);
    var o := ScanChunk(g, p, [x]);
    FeedStep(g, p, [x, y]);
    FeedStep(g, o.rest, [y]);
    assert [x, y][1..] == [y] && [y][1..] == [];
  }

  // After a zero byte count neither scanner ends the frame on that byte or the next.
  lemma ZeroCountPends(d: Dialect, a: byte, p: seq<byte>, b: byte, x: byte)
    requires Common(a, p) && ZeroCountAt(p + [b])
    ensures Judge(d, a, p + [b]).More? && Judge(d, a, p + [b] + [x]).More?
    ensures (p + [b])[0] == a && ValidFc((p + [b])[1])
  {
    var q := p + [b];
    assert q[0] == p[0] && q[1] == p[1];
    assert q[..|q|] == q;
    var q' := q + [x];
    assert HeadRead(q', 1) && CountByte(q', 1) == CountByte(q, 1);
  }

  lemma {:induction false} ReadsZeroCountConcat(a: byte, p: seq<byte>, s: seq<byte>, t: seq<byte>)
    ensures ReadsZeroCount(a, p, s + t) <==>
            ReadsZeroCount(a, p, s) || ReadsZeroCount(a, Feed(FrameRule(Coroutine, a), p, s).rest, t)
    decreases |s|
  {
    if s == [] {
      assert s + t == t;
    } else {
      assert (s + t)[1..] == s[1..] + t;
      ReadsZeroCountConcat(a, ScanChunk(FrameRule(Coroutine, a), p, [s[0]]).rest, s[1..], t);
    }
  }

  /** Two bytes beyond a stretch without a zero byte count, whatever they are, are not enough to tell the scanners
    * apart. */
  lemma {:induction false} TwoMoreBytesAgree(a: byte, u: seq<byte>, x: byte, y: byte)
    requires !ReadsZeroCount(a, [], u)
    ensures SameRequests(a, u + [x, y])
  {
    var g, h := FrameRule(Coroutine, a), FrameRule(StateClasses, a);
    ScannersAgree(a, [], u);
    var p := Feed(g, [], u).rest;
    FeedConcat(g, [], u, [x, y]);
    FeedConcat(h, [], u, [x, y]);
    FeedTwo(Coroutine, a, p, x, y);
    FeedTwo(StateClasses, a, p, x, y);
    ScanOne(g, p, x);
    ScanOne(h, p, x);
    PdusConcat(Feed(g, [], u).events, Feed(g, p, [x, y]).events);
    PdusConcat(Feed(h, [], u).events, Feed(h, p, [x, y]).events);
    if ZeroCountAt(p + [x]) {
      ZeroCountPends(Coroutine, a, p, x, y);
      ZeroCountPends(StateClasses, a, p, x, y);
      ScanOne(g, p + [x], y);
      ScanOne(h, p + [x], y);
    } else {
      StepAgrees(a, p, x);
      CommonStep(a, p, x);
      var q := ScanChunk(g, p, [x]).rest;
      ScanOne(g, q, y);
      ScanOne(h, q, y);
      PdusConcat(ScanChunk(g, p, [x]).events, ScanChunk(g, q, [y]).events);
      PdusConcat(ScanChunk(h, p, [x]).events, ScanChunk(h, q, [y]).events);
      if ZeroCountAt(q + [y]) {
        ZeroCountPends(Coroutine, a, q, y, 0);
        ZeroCountPends(StateClasses, a, q, y, 0);
      } else {
        StepAgrees(a, q, y);
      }
    }
  }

  lemma CompletesZeroCount(a: byte, p: seq<byte>, b: byte)
    requires Common(a, p) && ZeroCountAt(p + [b])
    ensures var q := p + [b]; var c := CrcBytes(q);
            && Judge(Coroutine, a, q + c) == End(Some(PduEvent(Decode(q + c, 1))), false)
            && Judge(StateClasses, a, q + c).More?
  {
    var q := p + [b];
    var w := q + CrcBytes(q);
    ZeroCountPends(Coroutine, a, p, b, 0);
    assert w[0] == q[0] && w[1] == q[1] && HeadRead(w, 1) && CountByte(w, 1) == CountByte(q, 1);
    assert w[..|q|] == q && w[|w| - 2..] == CrcBytes(q);
  }

  /** The checksum right after a byte count of zero makes the coroutine call back a request that the state classes,
    * still waiting, have not. */
  lemma {:induction false} ZeroCountTellsApart(a: byte, u: seq<byte>, b: byte)
    requires !ReadsZeroCount(a, [], u)
    requires ZeroCountAt(Feed(FrameRule(Coroutine, a), [], u).rest + [b])
    ensures exists x, y :: !SameRequests(a, u + [b] + [x, y])
  {
    var g, h := FrameRule(Coroutine, a), FrameRule(StateClasses, a);
    ScannersAgree(a, [], u);
    var q := Feed(g, [], u).rest + [b];
    var c := CrcBytes(q);
    CoroutineCompletes(a, u, b, c[0], c[1]);
    StateClassesWait(a, u, b, c[0], c[1]);
    assert !SameRequests(a, u + [b] + [c[0], c[1]]);
  }

  lemma {:induction false} CoroutineCompletes(a: byte, u: seq<byte>, b: byte, x: byte, y: byte)
    requires var p := Feed(FrameRule(Coroutine, a), [], u).rest;
             Common(a, p) && ZeroCountAt(p + [b]) && CrcBytes(p + [b]) == [x, y]
    ensures var g := FrameRule(Coroutine, a);
            |Pdus(Feed(g, [], u + [b] + [x, y]).events)| == |Pdus(Feed(g, [], u).events)| + 1
  {
    var o := Feed(FrameRule(Coroutine, a), [], u);
    var q := o.rest + [b];
    assert q + [x] + [y] == q + CrcBytes(q);
    ZeroCountPends(Coroutine, a, o.rest, b, x);
    FeedUpTo(Coroutine, a, u, b, x, y);
    CompletesZeroCount(a, o.rest, b);
    var e := [PduEvent(Decode(q + CrcBytes(q), 1))];
    PdusConcat(o.events, e);
    assert |Pdus(e)| == 1;
  }

  lemma {:induction false} StateClassesWait(a: byte, u: seq<byte>, b: byte, x: byte, y: byte)
    requires var p := Feed(FrameRule(StateClasses, a), [], u).rest;
             Common(a, p) && ZeroCountAt(p + [b]) && CrcBytes(p + [b]) == [x, y]
    ensures var h := FrameRule(StateClasses, a);
            Feed(h, [], u + [b] + [x, y]).events == Feed(h, [], u).events
  {
    var o := Feed(FrameRule(StateClasses, a), [], u);
    var q := o.rest + [b];
    assert q + [x] + [y] == q + CrcBytes(q);
    ZeroCountPends(StateClasses, a, o.rest, b, x);
    FeedUpTo(StateClasses, a, u, b, x, y);
    CompletesZeroCount(a, o.rest, b);
  }

  // Feeding u and then three bytes of which the first two leave a frame unfinished.
  lemma {:induction false} FeedUpTo(d: Dialect, a: byte, u: seq<byte>, b: byte, x: byte, y: byte)
    requires var q := Feed(FrameRule(d, a), [], u).rest + [b]; Judge(d, a, q).More? && Judge(d, a, q + [x]).More?
    ensures var g := FrameRule(d, a); var o := Feed(g, [], u); var w := o.rest + [b] + [x] + [y];
            Feed(g, [], u + [b] + [x, y]).events ==
            o.events + if Judge(d, a, w).More? then [] else Reported(Judge(d, a, w).event)
  {
    var g := FrameRule(d, a);
    var o := Feed(g, [], u);
    var q := o.rest + [b];
    assert u + [b] + [x, y] == u + ([b] + [x, y]);
    FeedConcat(g, [], u, [b] + [x, y]);
    ScanOne(g, o.rest, b);
    assert ([b] + [x, y])[1..] == [x, y];
    FeedTwo(d, a, q, x, y);
    ScanOne(g, q, x);
    ScanOne(g, q + [x], y);
  }

  lemma {:induction false} FirstZeroCount(a: byte, p: seq<byte>, s: seq<byte>) returns (k: nat)
    requires ReadsZeroCount(a, p, s)
    ensures k < |s| && !ReadsZeroCount(a, p, s[..k])
    ensures ZeroCountAt(Feed(FrameRule(Coroutine, a), p, s[..k]).rest + [s[k]])
    decreases |s|
  {
    if ZeroCountAt(p + [s[0]]) {
      k := 0;
    } else {
      var o := ScanChunk(FrameRule(Coroutine, a), p, [s[0]]);
      var j := FirstZeroCount(a, o.rest, s[1..]);
      k := j + 1;
      assert s[..k][0] == s[0] && s[..k][1..] == s[1..][..j];
    }
  }

  /** The exact condition: a stream contains no byte count of zero if and only if no two bytes put after any beginning
    * of it tell the two scanners apart. */
  lemma {:induction false} AgreementIsExact(a: byte, s: seq<byte>)
    ensures !ReadsZeroCount(a, [], s) <==>
            forall k, x: byte, y: byte :: 0 <= k <= |s| ==> SameRequests(a, s[..k] + [x, y])
  {
    if ReadsZeroCount(a, [], s) {
      var k := FirstZeroCount(a, [], s);
      ZeroCountTellsApart(a, s[..k], s[k]);
      assert s[..k] + [s[k]] == s[..k + 1];
      assert exists x, y :: !SameRequests(a, s[..k + 1] + [x, y]);
    } else {
      forall k, x: byte, y: byte | 0 <= k <= |s|
        ensures SameRequests(a, s[..k] + [x, y])
      {
        assert s == s[..k] + s[k..];
        ReadsZeroCountConcat(a, [], s[..k], s[k..]);
        TwoMoreBytesAgree(a, s[..k], x, y);
      }
    }
  }
}
