/** Resumable scanning of a byte stream, for any framing rule.
  *
  * A scanner remembers the bytes of the frame it is in the middle of.  A rule says of those bytes whether the frame
  * needs more of them or ends there, and an ending may report an event and may make the scanner drop the rest of the
  * chunk it is reading.  The three scanners of the repository are three rules. */
module Framing {
  import opened Bytes

  datatype Verdict<+E> = More | End(event: Option<E>, drop: bool)

  type Rule<E> = seq<byte> -> Verdict<E>

  /** What scanning leaves behind: the unfinished frame, the events reported, and whether bytes were dropped. */
  datatype Outcome<+E> = Outcome(rest: seq<byte>, events: seq<E>, dropped: bool)

  function Reported<E>(event: Option<E>): seq<E> {
    match event
    case None => []
    case Some(e) => [e]
  }

  /** Scanning one chunk, having already read the bytes p of a frame. */
  function ScanChunk<E>(g: Rule<E>, p: seq<byte>, chunk: seq<byte>): Outcome<E>
    decreases |chunk|
  {
    if chunk == [] then Outcome(p, [], false) else
    var q := p + [chunk[0]];
    match g(q)
    case More => ScanChunk(g, q, chunk[1..])
    case End(event, drop) =>
      if drop then Outcome([], Reported(event), true) else
      var o := ScanChunk(g, [], chunk[1..]);
      o.(events := Reported(event) + o.events)
  }

  /** Scanning one chunk after another. */
  function Run<E>(g: Rule<E>, p: seq<byte>, chunks: seq<seq<byte>>): Outcome<E>
    decreases |chunks|
  {
    if chunks == [] then Outcome(p, [], false) else
    Then(ScanChunk(g, p, chunks[0]), Run(g, ScanChunk(g, p, chunks[0]).rest, chunks[1..]))
  }

  function Then<E>(o: Outcome<E>, o': Outcome<E>): Outcome<E> {
    Outcome(o'.rest, o.events + o'.events, o.dropped || o'.dropped)
  }

  /** Each byte a chunk of its own. */
  function Singles(bytes: seq<byte>): seq<seq<byte>> {
    if bytes == [] then [] else [[bytes[0]]] + Singles(bytes[1..])
  }

  /** The run in which every chunk is a single byte, so that dropping the rest of a chunk drops nothing. */
  function Feed<E>(g: Rule<E>, p: seq<byte>, bytes: seq<byte>): Outcome<E> {
    Run(g, p, Singles(bytes))
  }

  // ---------------------------------------------------------------- chunk laws

  /** Splitting a chunk in two changes nothing unless the first part already made the scanner drop the rest. */
  lemma {:induction false} ScanSplit<E>(g: Rule<E>, p: seq<byte>, a: seq<byte>, b: seq<byte>)
    ensures ScanChunk(g, p, a + b) ==
            if ScanChunk(g, p, a).dropped then ScanChunk(g, p, a)
            else Then(ScanChunk(g, p, a), ScanChunk(g, ScanChunk(g, p, a).rest, b))
    decreases |a|
  {
    if a == [] {
      assert a + b == b;
    } else {
      assert (a + b)[1..] == a[1..] + b;
      var q := p + [a[0]];
      match g(q)
      case More => ScanSplit(g, q, a[1..], b);
      case End(event, drop) =>
        if !drop {
          ScanSplit(g, [], a[1..], b);
          var e, s := Reported(event), ScanChunk(g, [], a[1..]);
          assert e + (s.events + ScanChunk(g, s.rest, b).events) == (e + s.events) + ScanChunk(g, s.rest, b).events;
        }
    }
  }

  /** However a stream is cut into chunks, the run drops nothing exactly when scanning the whole at once drops nothing,
    * and then the two agree. */
  lemma {:induction false} AnyChunking<E>(g: Rule<E>, p: seq<byte>, chunks: seq<seq<byte>>)
    ensures Run(g, p, chunks).dropped == ScanChunk(g, p, Flatten(chunks)).dropped
    ensures !Run(g, p, chunks).dropped ==> Run(g, p, chunks) == ScanChunk(g, p, Flatten(chunks))
    decreases |chunks|
  {
    if chunks != [] {
      ScanSplit(g, p, chunks[0], Flatten(chunks[1..]));
      AnyChunking(g, ScanChunk(g, p, chunks[0]).rest, chunks[1..]);
    }
  }

  /** So a run is known from a scan of the whole that drops nothing. */
  lemma {:induction false} RunAs<E>(g: Rule<E>, p: seq<byte>, chunks: seq<seq<byte>>, bytes: seq<byte>, o: Outcome<E>)
    requires Flatten(chunks) == bytes && ScanChunk(g, p, bytes) == o && !o.dropped
    ensures Run(g, p, chunks) == o
  {
    AnyChunking(g, p, chunks);
  }

  lemma {:induction false} FlattenSingles(bytes: seq<byte>)
    ensures Flatten(Singles(bytes)) == bytes
  {
    if bytes != [] {
      FlattenSingles(bytes[1..]);
      assert Singles(bytes)[1..] == Singles(bytes[1..]);
    }
  }

  lemma {:induction false} SinglesConcat(s: seq<byte>, t: seq<byte>)
    ensures Singles(s + t) == Singles(s) + Singles(t)
    decreases |s|
  {
    if s == [] {
      assert s + t == t;
    } else {
      assert (s + t)[1..] == s[1..] + t;
      SinglesConcat(s[1..], t);
    }
  }

  /** Running over some chunks and then others. */
  lemma {:induction false} RunConcat<E>(g: Rule<E>, p: seq<byte>, chunks: seq<seq<byte>>, more: seq<seq<byte>>)
    ensures Run(g, p, chunks + more) == Then(Run(g, p, chunks), Run(g, Run(g, p, chunks).rest, more))
    decreases |chunks|
  {
    if chunks == [] {
      assert chunks + more == more;
    } else {
      assert (chunks + more)[1..] == chunks[1..] + more;
      var o := ScanChunk(g, p, chunks[0]);
      RunConcat(g, o.rest, chunks[1..], more);
      var u, v := Run(g, o.rest, chunks[1..]), Run(g, Run(g, p, chunks).rest, more);
      assert o.events + (u.events + v.events) == (o.events + u.events) + v.events;
    }
  }

  /** Feeding starts with the first byte. */
  lemma {:induction false} FeedStep<E>(g: Rule<E>, p: seq<byte>, bytes: seq<byte>)
    requires bytes != []
    ensures var o := ScanChunk(g, p, [bytes[0]]); Feed(g, p, bytes) == Then(o, Feed(g, o.rest, bytes[1..]))
  {
    assert Singles(bytes)[1..] == Singles(bytes[1..]);
  }

  lemma {:induction false} FeedConcat<E>(g: Rule<E>, p: seq<byte>, s: seq<byte>, t: seq<byte>)
    ensures Feed(g, p, s + t) == Then(Feed(g, p, s), Feed(g, Feed(g, p, s).rest, t))
  {
    SinglesConcat(s, t);
    RunConcat(g, p, Singles(s), Singles(t));
  }

  lemma {:induction false} ScanOne<E>(g: Rule<E>, p: seq<byte>, b: byte)
    ensures ScanChunk(g, p, [b]) ==
            match g(p + [b])
            case More => Outcome(p + [b], [], false)
            case End(event, drop) => Outcome([], Reported(event), drop)
  {
    assert [b][1..] == [];
  }

  /** A scan that drops nothing reports what it would report byte by byte. */
  lemma {:induction false} ScanIsFeed<E>(g: Rule<E>, p: seq<byte>, bytes: seq<byte>)
    requires !ScanChunk(g, p, bytes).dropped
    ensures Feed(g, p, bytes) == ScanChunk(g, p, bytes)
  {
    FlattenSingles(bytes);
    AnyChunking(g, p, Singles(bytes));
  }

  // ---------------------------------------------------------------- what dropping leaves of a stream

  /** The bytes of a chunk up to and including the one that makes the scanner drop the others. */
  function KeptOf<E>(g: Rule<E>, p: seq<byte>, chunk: seq<byte>): seq<byte>
    decreases |chunk|
  {
    if chunk == [] then [] else
    var q := p + [chunk[0]];
    match g(q)
    case More => [chunk[0]] + KeptOf(g, q, chunk[1..])
    case End(_, drop) => [chunk[0]] + if drop then [] else KeptOf(g, [], chunk[1..])
  }

  /** The bytes of a run that the scanner looks at. */
  function Kept<E>(g: Rule<E>, p: seq<byte>, chunks: seq<seq<byte>>): seq<byte>
    decreases |chunks|
  {
    if chunks == [] then [] else
    KeptOf(g, p, chunks[0]) + Kept(g, ScanChunk(g, p, chunks[0]).rest, chunks[1..])
  }

  lemma {:induction false} ScanIsFeedOfKept<E>(g: Rule<E>, p: seq<byte>, chunk: seq<byte>)
    ensures ScanChunk(g, p, chunk) == Feed(g, p, KeptOf(g, p, chunk))
    decreases |chunk|
  {
    if chunk != [] {
      var q, kept := p + [chunk[0]], KeptOf(g, p, chunk);
      FeedStep(g, p, kept);
      ScanOne(g, p, chunk[0]);
      match g(q)
      case More =>
        assert kept[1..] == KeptOf(g, q, chunk[1..]);
        ScanIsFeedOfKept(g, q, chunk[1..]);
      case End(_, drop) =>
        if drop {
          assert kept[1..] == [];
        } else {
          assert kept[1..] == KeptOf(g, [], chunk[1..]);
          ScanIsFeedOfKept(g, [], chunk[1..]);
        }
    }
  }

  /** Any run, whatever it drops, is the byte-by-byte run over the bytes it keeps. */
  lemma {:induction false} RunIsFeedOfKept<E>(g: Rule<E>, p: seq<byte>, chunks: seq<seq<byte>>)
    ensures Run(g, p, chunks) == Feed(g, p, Kept(g, p, chunks))
    decreases |chunks|
  {
    if chunks != [] {
      var o := ScanChunk(g, p, chunks[0]);
      ScanIsFeedOfKept(g, p, chunks[0]);
      RunIsFeedOfKept(g, o.rest, chunks[1..]);
      FeedConcat(g, p, KeptOf(g, p, chunks[0]), Kept(g, o.rest, chunks[1..]));
    }
  }

  /** A run that drops nothing keeps everything. */
  lemma {:induction false} KeptIsAll<E>(g: Rule<E>, p: seq<byte>, chunks: seq<seq<byte>>)
    requires !Run(g, p, chunks).dropped
    ensures Kept(g, p, chunks) == Flatten(chunks)
    decreases |chunks|
  {
    if chunks != [] {
      KeptOfAll(g, p, chunks[0]);
      KeptIsAll(g, ScanChunk(g, p, chunks[0]).rest, chunks[1..]);
    }
  }

  lemma {:induction false} KeptOfAll<E>(g: Rule<E>, p: seq<byte>, chunk: seq<byte>)
    requires !ScanChunk(g, p, chunk).dropped
    ensures KeptOf(g, p, chunk) == chunk
    decreases |chunk|
  {
    if chunk != [] {
      var q := p + [chunk[0]];
      match g(q)
      case More => KeptOfAll(g, q, chunk[1..]);
      case End(_, drop) =>
        assert !drop;
        KeptOfAll(g, [], chunk[1..]);
    }
  }

  lemma {:induction false} DropForgets<E>(g: Rule<E>, p: seq<byte>, chunk: seq<byte>)
    ensures ScanChunk(g, p, chunk).dropped ==> ScanChunk(g, p, chunk).rest == []
    decreases |chunk|
  {
    if chunk != [] {
      var q := p + [chunk[0]];
      match g(q)
      case More => DropForgets(g, q, chunk[1..]);
      case End(_, _) => DropForgets(g, [], chunk[1..]);
    }
  }

  /** After a chunk whose end was dropped, everything later is scanned as by a fresh scanner. */
  lemma {:induction false} AfterDropFresh<E>(g: Rule<E>, p: seq<byte>, chunk: seq<byte>, chunks: seq<seq<byte>>)
    requires ScanChunk(g, p, chunk).dropped
    ensures Run(g, p, [chunk] + chunks).events == ScanChunk(g, p, chunk).events + Run(g, [], chunks).events
    ensures Run(g, p, [chunk] + chunks).rest == Run(g, [], chunks).rest
  {
    DropForgets(g, p, chunk);
    assert ([chunk] + chunks)[1..] == chunks;
  }

  // ---------------------------------------------------------------- resumable scanners

  /** From position i of chunk c, with the frame p begun and some events reported, to position j, with the frame p'
    * begun and more events reported, a scanner did what scanning the bytes between does.  A suspended scanner has no
    * more use for the chunk: it has read all of it or drops the rest. */
  ghost predicate Advances<E>(g: Rule<E>, c: seq<byte>, p: seq<byte>, events: seq<E>, i: nat,
                              p': seq<byte>, events': seq<E>, j: nat, suspended: bool)
  {
    && i <= j <= |c| && (!suspended ==> j < |c|)
    && (var o, o' := ScanChunk(g, p, c[i..]), ScanChunk(g, p', if suspended then [] else c[j..]);
        o.rest == o'.rest && events + o.events == events' + o'.events)
  }

  lemma MoreAdvances<E>(g: Rule<E>, c: seq<byte>, p: seq<byte>, events: seq<E>, i: nat, suspended: bool)
    requires i < |c| && suspended == (i + 1 == |c|) && g(p + [c[i]]).More?
    ensures Advances(g, c, p, events, i, p + [c[i]], events, i + 1, suspended)
  {
    assert c[i..][0] == c[i] && c[i..][1..] == c[i + 1..];
  }

  lemma EndAdvances<E>(g: Rule<E>, c: seq<byte>, p: seq<byte>, events: seq<E>, i: nat, j: nat, suspended: bool)
    requires i < |c| && i <= j <= |c| && g(p + [c[i]]).End?
    requires if g(p + [c[i]]).drop then suspended else j == i + 1 && suspended == (j == |c|)
    ensures Advances(g, c, p, events, i, [], events + Reported(g(p + [c[i]]).event), j, suspended)
  {
    assert c[i..][0] == c[i] && c[i..][1..] == c[i + 1..];
  }

  /** One advance after another that did not suspend. */
  lemma AdvancesThen<E>(g: Rule<E>, c: seq<byte>, p: seq<byte>, events: seq<E>, i: nat, p': seq<byte>, events': seq<E>,
                        j: nat, p'': seq<byte>, events'': seq<E>, k: nat, suspended: bool)
    requires Advances(g, c, p, events, i, p', events', j, false)
    requires Advances(g, c, p', events', j, p'', events'', k, suspended)
    ensures Advances(g, c, p, events, i, p'', events'', k, suspended)
  {
    var o, o' := ScanChunk(g, p, c[i..]), ScanChunk(g, p', c[j..]);
    var o'' := ScanChunk(g, p'', if suspended then [] else c[k..]);
    assert events + o.events == events' + o'.events == events'' + o''.events;
  }

  /** Scanning from a byte on that drops nothing. */
  lemma {:induction false} ScanStep<E>(g: Rule<E>, p: seq<byte>, c: seq<byte>, i: nat)
    requires i < |c| && (g(p + [c[i]]).End? ==> !g(p + [c[i]]).drop)
    ensures var q := p + [c[i]];
            ScanChunk(g, p, c[i..]) ==
            if g(q).More? then ScanChunk(g, q, c[i + 1..])
            else Then(Outcome([], Reported(g(q).event), false), ScanChunk(g, [], c[i + 1..]))
  {
    assert c[i..][0] == c[i] && c[i..][1..] == c[i + 1..];
  }

  /** Bytes that leave a frame unfinished only make it longer. */
  lemma {:induction false} ScanMore<E>(g: Rule<E>, w: seq<byte>, k: nat, tail: seq<byte>)
    requires k <= |w| && forall m :: k < m <= |w| ==> g(w[..m]).More?
    ensures ScanChunk(g, w[..k], w[k..] + tail) == ScanChunk(g, w, tail)
    decreases |w| - k
  {
    var chunk := w[k..] + tail;
    if k < |w| {
      assert w[..k] + [chunk[0]] == w[..k + 1];
      assert chunk[1..] == w[k + 1..] + tail;
      ScanMore(g, w, k + 1, tail);
    } else {
      assert w[..k] == w && chunk == tail;
    }
  }

  lemma AdvancesStart<E>(g: Rule<E>, c: seq<byte>, p: seq<byte>, events: seq<E>)
    requires c != []
    ensures Advances(g, c, p, events, 0, p, events, 0, false)
  {
  }

  /** A scanner suspended since the start of a chunk has scanned it. */
  lemma {:induction false} AdvancesWhole<E>(g: Rule<E>, c: seq<byte>, p: seq<byte>, events: seq<E>,
                                            p': seq<byte>, events': seq<E>, k: nat)
    requires Advances(g, c, p, events, 0, p', events', k, true)
    ensures var o := ScanChunk(g, p, c); p' == o.rest && events' == events + o.events
  {
    assert c[0..] == c;
  }

  // ---------------------------------------------------------------- words: completeness

  /** A word of the rule: a byte string at whose last byte, and no earlier, the rule ends. */
  ghost predicate Word<E>(g: Rule<E>, w: seq<byte>) {
    |w| > 0 && g(w).End? && forall k :: 0 < k < |w| ==> g(w[..k]).More?
  }

  lemma {:induction false} ScanWord<E>(g: Rule<E>, w: seq<byte>, k: nat, tail: seq<byte>)
    requires Word(g, w) && !g(w).drop && k < |w|
    ensures ScanChunk(g, w[..k], w[k..] + tail) ==
            Then(Outcome([], Reported(g(w).event), false), ScanChunk(g, [], tail))
    decreases |w| - k
  {
    var chunk := w[k..] + tail;
    assert w[..k] + [chunk[0]] == w[..k + 1];
    assert chunk[1..] == w[k + 1..] + tail;
    if k + 1 < |w| {
      ScanWord(g, w, k + 1, tail);
    } else {
      assert w[..k + 1] == w;
      assert chunk[1..] == tail;
    }
  }

  /** A word that makes the scanner drop the rest of the chunk. */
  lemma {:induction false} DropsAtWord<E>(g: Rule<E>, w: seq<byte>, k: nat, tail: seq<byte>)
    requires Word(g, w) && g(w).drop && k < |w|
    ensures ScanChunk(g, w[..k], w[k..] + tail) == Outcome([], Reported(g(w).event), true)
    decreases |w| - k
  {
    var chunk := w[k..] + tail;
    assert w[..k] + [chunk[0]] == w[..k + 1];
    assert chunk[1..] == w[k + 1..] + tail;
    if k + 1 < |w| {
      DropsAtWord(g, w, k + 1, tail);
    } else {
      assert w[..k + 1] == w;
    }
  }

  function EventsOf<E>(g: Rule<E>, words: seq<seq<byte>>): seq<E> {
    if words == [] then [] else
    (if g(words[0]).End? then Reported(g(words[0]).event) else []) + EventsOf(g, words[1..])
  }

  lemma {:induction false} ScanWords<E>(g: Rule<E>, words: seq<seq<byte>>)
    requires forall w :: w in words ==> Word(g, w) && !g(w).drop
    ensures ScanChunk(g, [], Flatten(words)) == Outcome([], EventsOf(g, words), false)
    decreases |words|
  {
    if words != [] {
      var w := words[0];
      ScanWords(g, words[1..]);
      ScanWord(g, w, 0, Flatten(words[1..]));
      assert w[..0] == [] && w[0..] == w;
    }
  }

  /** Completeness: a stream of words, cut into chunks in any way, reports exactly the events of the words in order
    * and leaves nothing over. */
  lemma {:induction false} Delivery<E>(g: Rule<E>, words: seq<seq<byte>>, chunks: seq<seq<byte>>)
    requires forall w :: w in words ==> Word(g, w) && !g(w).drop
    requires Flatten(chunks) == Flatten(words)
    ensures Run(g, [], chunks) == Outcome([], EventsOf(g, words), false)
  {
    ScanWords(g, words);
    AnyChunking(g, [], chunks);
  }

  // ---------------------------------------------------------------- spans: soundness

  /** The stretch of the stream, from its first byte to just after its last, in which an event was found. */
  datatype Span = Span(from: nat, to: nat)

  /** The bytes of a frame not yet ended. */
  ghost predicate Live<E>(g: Rule<E>, p: seq<byte>) {
    forall k :: 0 < k <= |p| ==> g(p[..k]).More?
  }

  lemma LiveExtends<E>(g: Rule<E>, p: seq<byte>, b: byte)
    requires Live(g, p)
    ensures g(p + [b]).More? ==> Live(g, p + [b])
    ensures g(p + [b]).End? ==> Word(g, p + [b])
  {
    var q := p + [b];
    assert forall k :: 0 < k <= |p| ==> q[..k] == p[..k];
    assert q[..|q|] == q;
  }

  /** A live byte string is only remembered. */
  lemma {:induction false} ScanLive<E>(g: Rule<E>, w: seq<byte>, k: nat)
    requires Live(g, w) && k <= |w|
    ensures ScanChunk(g, w[..k], w[k..]) == Outcome(w, [], false)
    decreases |w| - k
  {
    if k < |w| {
      assert w[..k] + [w[k..][0]] == w[..k + 1] && w[k..][1..] == w[k + 1..];
      ScanLive(g, w, k + 1);
    } else {
      assert w[..k] == w && w[k..] == [];
    }
  }

  /** If n bytes are never live, then from any live bytes on a word is complete after n bytes at the latest. */
  lemma {:induction false} WordWithin<E>(g: Rule<E>, p: seq<byte>, s: seq<byte>, n: nat)
    requires Live(g, p) && |p| + |s| >= n
    requires forall q :: Live(g, q) ==> |q| < n
    ensures exists k :: 0 < k <= |s| && |p| + k <= n && Word(g, p + s[..k])
    decreases |s|
  {
    var q := p + [s[0]];
    LiveExtends(g, p, s[0]);
    assert q == p + s[..1];
    if g(q).More? {
      WordWithin(g, q, s[1..], n);
      var k :| 0 < k <= |s[1..]| && |q| + k <= n && Word(g, q + s[1..][..k]);
      assert q + s[1..][..k] == p + s[..k + 1];
    }
  }

  function EndSpan<E>(event: Option<E>, from: nat, to: nat): seq<Span> {
    if event.Some? then [Span(from, to)] else []
  }

  function ScanSpans<E>(g: Rule<E>, p: seq<byte>, chunk: seq<byte>, at: nat): seq<Span>
    requires |p| <= at
    decreases |chunk|
  {
    if chunk == [] then [] else
    var q := p + [chunk[0]];
    match g(q)
    case More => ScanSpans(g, q, chunk[1..], at + 1)
    case End(event, drop) =>
      EndSpan(event, at - |p|, at + 1) + (if drop then [] else ScanSpans(g, [], chunk[1..], at + 1))
  }

  function RunSpans<E>(g: Rule<E>, p: seq<byte>, chunks: seq<seq<byte>>, at: nat): seq<Span>
    requires |p| <= at
    decreases |chunks|
  {
    if chunks == [] then [] else
    RestBound(g, p, chunks[0], at);
    ScanSpans(g, p, chunks[0], at) + RunSpans(g, ScanChunk(g, p, chunks[0]).rest, chunks[1..], at + |chunks[0]|)
  }

  lemma {:induction false} RestBound<E>(g: Rule<E>, p: seq<byte>, chunk: seq<byte>, at: nat)
    requires |p| <= at
    ensures |ScanChunk(g, p, chunk).rest| <= at + |chunk|
    decreases |chunk|
  {
    if chunk != [] {
      var q := p + [chunk[0]];
      match g(q)
      case More => RestBound(g, q, chunk[1..], at + 1);
      case End(_, drop) =>
        if !drop {
          RestBound(g, [], chunk[1..], at + 1);
        }
    }
  }

  /** The event found in a span is what the rule says of the word that stands there. */
  ghost predicate FoundAt<E>(g: Rule<E>, stream: seq<byte>, span: Span, event: E) {
    && span.from < span.to <= |stream|
    && Word(g, stream[span.from..span.to])
    && g(stream[span.from..span.to]).event == Some(event)
  }

  /** The spans lie between lo and hi, one after another without overlap, and account for the events one by one. */
  ghost predicate Accounts<E>(g: Rule<E>, stream: seq<byte>, lo: nat, hi: nat, spans: seq<Span>, events: seq<E>) {
    && lo <= hi && |spans| == |events|
    && (forall i :: 0 <= i < |spans| ==> lo <= spans[i].from && spans[i].to <= hi)
    && (forall i, j :: 0 <= i < j < |spans| ==> spans[i].to <= spans[j].from)
    && (forall i :: 0 <= i < |spans| ==> FoundAt(g, stream, spans[i], events[i]))
  }

  lemma AccountsConcat<E>(g: Rule<E>, stream: seq<byte>, lo: nat, mid: nat, hi: nat,
                          a: seq<Span>, b: seq<Span>, ea: seq<E>, eb: seq<E>)
    requires Accounts(g, stream, lo, mid, a, ea) && Accounts(g, stream, mid, hi, b, eb)
    ensures Accounts(g, stream, lo, hi, a + b, ea + eb)
  {
  }

  function Sum(lens: seq<nat>): nat {
    if lens == [] then 0 else lens[0] + Sum(lens[1..])
  }

  /** Disjoint spans with given lengths need room for the sum of them. */
  lemma {:induction false} SpansFit<E>(g: Rule<E>, stream: seq<byte>, lo: nat, hi: nat, spans: seq<Span>,
                                       events: seq<E>, lens: seq<nat>)
    requires Accounts(g, stream, lo, hi, spans, events) && |lens| == |spans|
    requires forall i :: 0 <= i < |spans| ==> spans[i].to - spans[i].from >= lens[i]
    ensures Sum(lens) <= hi - lo
    decreases |spans|
  {
    if spans != [] {
      assert FoundAt(g, stream, spans[0], events[0]);
      assert forall i :: 0 <= i < |spans[1..]| ==> FoundAt(g, stream, spans[1..][i], events[1..][i]) by {
        assert forall i :: 0 < i < |spans| ==> FoundAt(g, stream, spans[i], events[i]);
      }
      assert spans[0].to <= hi;
      SpansFit(g, stream, spans[0].to, hi, spans[1..], events[1..], lens[1..]);
    }
  }

  /** The unfinished frame p is the last bytes of the stream before position at, and nothing in it has ended. */
  ghost predicate Pending<E>(g: Rule<E>, stream: seq<byte>, p: seq<byte>, at: nat) {
    |p| <= at <= |stream| && p == stream[at - |p|..at] && Live(g, p)
  }

  lemma PendingMore<E>(g: Rule<E>, stream: seq<byte>, p: seq<byte>, at: nat)
    requires Pending(g, stream, p, at) && at < |stream|
    ensures var q := p + [stream[at]];
            && q == stream[at - |p|..at + 1]
            && (g(q).More? ==> Pending(g, stream, q, at + 1)) && (g(q).End? ==> Word(g, q))
  {
    LiveExtends(g, p, stream[at]);
  }

  // The span and event of a frame that ends with the byte at position at.
  lemma EndAccounts<E>(g: Rule<E>, stream: seq<byte>, p: seq<byte>, at: nat)
    requires Pending(g, stream, p, at) && at < |stream| && g(p + [stream[at]]).End?
    ensures var event := g(p + [stream[at]]).event;
            Accounts(g, stream, at - |p|, at + 1, EndSpan(event, at - |p|, at + 1), Reported(event))
  {
    PendingMore(g, stream, p, at);
  }

  /** Scanning the chunk at that position leaves a pending frame and events accounted for. */
  ghost predicate ScanAccounted<E>(g: Rule<E>, stream: seq<byte>, p: seq<byte>, chunk: seq<byte>, at: nat)
    requires |p| <= at
  {
    var o, end := ScanChunk(g, p, chunk), at + |chunk|;
    && Pending(g, stream, o.rest, end)
    && Accounts(g, stream, at - |p|, end - |o.rest|, ScanSpans(g, p, chunk, at), o.events)
  }

  // A frame that ends, its byte not making the scanner drop the others, comes before what they report.
  lemma EndThenScan<E>(g: Rule<E>, stream: seq<byte>, p: seq<byte>, chunk: seq<byte>, at: nat)
    requires Pending(g, stream, p, at) && |chunk| > 0 && at < |stream| && stream[at] == chunk[0]
    requires g(p + [chunk[0]]).End? && !g(p + [chunk[0]]).drop
    requires ScanAccounted(g, stream, [], chunk[1..], at + 1)
    ensures ScanAccounted(g, stream, p, chunk, at)
  {
    var event := g(p + [chunk[0]]).event;
    var o := ScanChunk(g, [], chunk[1..]);
    var a, b := EndSpan(event, at - |p|, at + 1), ScanSpans(g, [], chunk[1..], at + 1);
    assert ScanChunk(g, p, chunk) == Outcome(o.rest, Reported(event) + o.events, o.dropped);
    assert ScanSpans(g, p, chunk, at) == a + b;
    EndAccounts(g, stream, p, at);
    AccountsConcat(g, stream, at - |p|, at + 1, at + |chunk| - |o.rest|, a, b, Reported(event), o.events);
  }

  lemma EndAndDrop<E>(g: Rule<E>, stream: seq<byte>, p: seq<byte>, chunk: seq<byte>, at: nat)
    requires Pending(g, stream, p, at) && |chunk| > 0 && at + |chunk| <= |stream| && stream[at] == chunk[0]
    requires g(p + [chunk[0]]).End? && g(p + [chunk[0]]).drop
    ensures ScanAccounted(g, stream, p, chunk, at)
  {
    EndAccounts(g, stream, p, at);
  }

  lemma MoreThenScan<E>(g: Rule<E>, stream: seq<byte>, p: seq<byte>, chunk: seq<byte>, at: nat)
    requires |p| <= at && |chunk| > 0 && g(p + [chunk[0]]).More?
    requires ScanAccounted(g, stream, p + [chunk[0]], chunk[1..], at + 1)
    ensures ScanAccounted(g, stream, p, chunk, at)
  {
    assert at + 1 - |p + [chunk[0]]| == at - |p| && at + 1 + |chunk[1..]| == at + |chunk|;
  }

  // What is left to scan after a byte.
  lemma ScanTail<E>(g: Rule<E>, stream: seq<byte>, p: seq<byte>, chunk: seq<byte>, at: nat)
    requires Pending(g, stream, p, at) && |chunk| > 0
    requires at + |chunk| <= |stream| && chunk == stream[at..at + |chunk|]
    ensures chunk[0] == stream[at] && chunk[1..] == stream[at + 1..at + 1 + |chunk[1..]|]
    ensures g(p + [chunk[0]]).More? ==> Pending(g, stream, p + [chunk[0]], at + 1)
    ensures Pending(g, stream, [], at + 1)
  {
    PendingMore(g, stream, p, at);
  }

  lemma {:induction false} ScanSound<E>(g: Rule<E>, stream: seq<byte>, p: seq<byte>, chunk: seq<byte>, at: nat)
    requires Pending(g, stream, p, at)
    requires at + |chunk| <= |stream| && chunk == stream[at..at + |chunk|]
    ensures ScanAccounted(g, stream, p, chunk, at)
    decreases |chunk|
  {
    if chunk == [] {
      NothingScanned(g, stream, p, at);
    } else {
      ScanTail(g, stream, p, chunk, at);
      match g(p + [chunk[0]])
      case More =>
        ScanSound(g, stream, p + [chunk[0]], chunk[1..], at + 1);
        MoreThenScan(g, stream, p, chunk, at);
      case End(event, drop) =>
        if drop {
          EndAndDrop(g, stream, p, chunk, at);
        } else {
          ScanSound(g, stream, [], chunk[1..], at + 1);
          EndThenScan(g, stream, p, chunk, at);
        }
    }
  }

  lemma NothingScanned<E>(g: Rule<E>, stream: seq<byte>, p: seq<byte>, at: nat)
    requires Pending(g, stream, p, at)
    ensures ScanAccounted(g, stream, p, [], at)
  {
  }

  /** Soundness: in any run over any chunks, whatever was dropped, the events are those of words that stand in the
    * stream in that order without overlapping, and the bytes carried over are the last bytes read. */
  lemma {:induction false} RunSound<E>(g: Rule<E>, stream: seq<byte>, p: seq<byte>, chunks: seq<seq<byte>>, at: nat)
    requires Pending(g, stream, p, at)
    requires Flatten(chunks) == stream[at..]
    ensures var o := Run(g, p, chunks);
            && Pending(g, stream, o.rest, |stream|)
            && Accounts(g, stream, at - |p|, |stream| - |o.rest|, RunSpans(g, p, chunks, at), o.events)
    decreases |chunks|
  {
    if chunks != [] {
      var c, more := chunks[0], Flatten(chunks[1..]);
      var o := ScanChunk(g, p, c);
      var o' := Run(g, o.rest, chunks[1..]);
      var end := at + |c|;
      assert stream[at..] == c + more;
      assert c == stream[at..end] && more == stream[end..];
      ScanSound(g, stream, p, c, at);
      RunSound(g, stream, o.rest, chunks[1..], end);
      var a, b := ScanSpans(g, p, c, at), RunSpans(g, o.rest, chunks[1..], end);
      assert RunSpans(g, p, chunks, at) == a + b;
      AccountsConcat(g, stream, at - |p|, end - |o.rest|, |stream| - |o'.rest|, a, b, o.events, o'.events);
    }
  }
}
