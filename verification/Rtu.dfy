/** The framing rules of the two RTU scanners and the frames they accept. */
module Rtu {
  import opened Bytes
  import opened Crc
  import opened Framing
  import opened Pdu

  /** The two callbacks, the record of the first one reduced to the fields its function code defines. */
  datatype Event = PduEvent(request: Request) | Nonsense

  /** What a callback tells the user. */
  function View(c: Callback): Event {
    match c
    case PduCallback(pdu) => PduEvent(Defined(pdu))
    case NonsenseCallback => Nonsense
  }

  function Views(calls: seq<Callback>): seq<Event> {
    seq(|calls|, i requires 0 <= i < |calls| => View(calls[i]))
  }

  /** slave_rtu_scanner.cpp and slave_rtu_old.cpp. */
  datatype Dialect = Coroutine | StateClasses

  /** The frame of a request: address, function code and fields, checksum. */
  function Frame(a: byte, r: Request): seq<byte> {
    [a] + Encode(r) + CrcBytes([a] + Encode(r))
  }

  /** The state classes read one data byte even when the byte count is zero, and leave it out of the checksum. */
  function Swallowed(d: Dialect, p: seq<byte>): nat
    requires HeadRead(p, 1)
  {
    if d.StateClasses? && CountIsZero(p, 1) then 1 else 0
  }

  function FrameLen(d: Dialect, p: seq<byte>): nat
    requires HeadRead(p, 1)
  {
    1 + PduLen(p, 1) + Swallowed(d, p) + 2
  }

  /** What a scanner for address a makes of the bytes p of the frame it is in. */
  function Judge(d: Dialect, a: byte, p: seq<byte>): Verdict<Event> {
    if |p| == 0 then More
    else if p[0] != a then End(None, false)
    else if |p| == 1 then More
    else if !ValidFc(p[1]) then (if d.Coroutine? then End(Some(Nonsense), true) else End(None, false))
    else if !HeadRead(p, 1) || |p| < FrameLen(d, p) then More
    else if CrcBytes(p[..1 + PduLen(p, 1)]) == p[|p| - 2..] then End(Some(PduEvent(Decode(p, 1))), false)
    else End(Some(Nonsense), d.Coroutine?)
  }

  function FrameRule(d: Dialect, a: byte): Rule<Event> {
    p => Judge(d, a, p)
  }

  // ---------------------------------------------------------------- frames are words

  lemma JudgePrefix(d: Dialect, a: byte, w: seq<byte>, k: nat)
    requires |w| > 1 && w[0] == a && ValidFc(w[1]) && HeadRead(w, 1)
    requires 0 < k < FrameLen(d, w) && k <= |w|
    ensures Judge(d, a, w[..k]).More?
  {
    var p := w[..k];
    if k > 1 && HeadRead(p, 1) {
      assert FrameLen(d, p) == FrameLen(d, w);
    }
  }

  lemma JudgeWord(d: Dialect, a: byte, w: seq<byte>)
    requires |w| > 1 && w[0] == a && ValidFc(w[1]) && HeadRead(w, 1) && |w| == FrameLen(d, w)
    ensures Judge(d, a, w) ==
            if CrcBytes(w[..1 + PduLen(w, 1)]) == w[|w| - 2..] then End(Some(PduEvent(Decode(w, 1))), false)
            else End(Some(Nonsense), d.Coroutine?)
  {
  }

  lemma WholeParts(body: seq<byte>, swallowed: seq<byte>, x: byte, y: byte)
    ensures var w := body + (swallowed + [x, y]);
            w == body + swallowed + [x] + [y] && w[..|body|] == body && w[|w| - 2..] == [x, y]
  {
  }

  // The verdict on a whole frame, by its body and the two checksum bytes.
  lemma JudgeWhole(d: Dialect, a: byte, body: seq<byte>, swallowed: seq<byte>, x: byte, y: byte)
    requires |body| > 1 && body[0] == a && ValidFc(body[1]) && HeadRead(body, 1) && |body| == 1 + PduLen(body, 1)
    requires |swallowed| == Swallowed(d, body)
    ensures Judge(d, a, body + swallowed + [x] + [y]) ==
            if Accepted(body + [x, y]) then End(Some(PduEvent(Decode(body, 1))), false)
            else End(Some(Nonsense), d.Coroutine?)
  {
    var t := swallowed + [x, y];
    HeadKept(body, 1, t);
    DecodeKept(body, 1, t);
    WholeParts(body, swallowed, x, y);
    JudgeWord(d, a, body + t);
    AcceptedParts(body, x, y);
  }

  lemma FrameShape(a: byte, r: Request)
    requires WellFormed(r)
    ensures var w := Frame(a, r);
            && |w| == |Encode(r)| + 3 && w[0] == a
            && HeadRead(w, 1) && ValidFc(w[1]) && PduLen(w, 1) == |Encode(r)| && Decode(w, 1) == r
            && w[..1 + PduLen(w, 1)] == [a] + Encode(r) && w[|w| - 2..] == CrcBytes([a] + Encode(r))
            && (CountIsZero(w, 1) <==> ZeroCount(r))
  {
    var w := Frame(a, r);
    assert w[1..1 + |Encode(r)|] == Encode(r);
    DecodeOfEncode(w, 1, r);
  }

  /** The frame of every request is a word of the coroutine's rule, and of the state classes' rule unless its byte
    * count is zero; its event is the request. */
  lemma FrameIsWord(d: Dialect, a: byte, r: Request)
    requires WellFormed(r) && (d.Coroutine? || !ZeroCount(r))
    ensures Word(FrameRule(d, a), Frame(a, r))
    ensures FrameRule(d, a)(Frame(a, r)) == End(Some(PduEvent(r)), false)
  {
    var w := Frame(a, r);
    FrameShape(a, r);
    forall k | 0 < k < |w|
      ensures FrameRule(d, a)(w[..k]).More?
    {
      JudgePrefix(d, a, w, k);
    }
  }

  lemma NoiseIsWord(d: Dialect, a: byte, b: byte)
    requires b != a
    ensures Word(FrameRule(d, a), [b]) && FrameRule(d, a)([b]) == End(None, false)
  {
  }

  // ---------------------------------------------------------------- completeness

  /** What a line carries: frames, and between them bytes other than the address. */
  datatype Item = Noise(b: byte) | Sent(request: Request)

  predicate Sendable(a: byte, item: Item) {
    match item
    case Noise(b) => b != a
    case Sent(r) => WellFormed(r)
  }

  function ItemBytes(a: byte, item: Item): seq<byte> {
    match item
    case Noise(b) => [b]
    case Sent(r) => Frame(a, r)
  }

  function Line(a: byte, items: seq<Item>): seq<seq<byte>> {
    if items == [] then [] else [ItemBytes(a, items[0])] + Line(a, items[1..])
  }

  function Requests(items: seq<Item>): seq<Request> {
    if items == [] then [] else (if items[0].Sent? then [items[0].request] else []) + Requests(items[1..])
  }

  function PduOf(e: Event): seq<Request> {
    if e.PduEvent? then [e.request] else []
  }

  /** The requests called back, in order. */
  function Pdus(events: seq<Event>): seq<Request> {
    if events == [] then [] else PduOf(events[0]) + Pdus(events[1..])
  }

  lemma {:induction false} PdusConcat(s: seq<Event>, t: seq<Event>)
    ensures Pdus(s + t) == Pdus(s) + Pdus(t)
    decreases |s|
  {
    if s == [] {
      assert s + t == t;
    } else {
      assert (s + t)[1..] == s[1..] + t;
      PdusConcat(s[1..], t);
      assert PduOf(s[0]) + (Pdus(s[1..]) + Pdus(t)) == (PduOf(s[0]) + Pdus(s[1..])) + Pdus(t);
    }
  }

  predicate Framed(d: Dialect, a: byte, item: Item) {
    Sendable(a, item) && (d.StateClasses? && item.Sent? ==> !ZeroCount(item.request))
  }

  lemma ItemIsWord(d: Dialect, a: byte, item: Item)
    requires Framed(d, a, item)
    ensures Word(FrameRule(d, a), ItemBytes(a, item))
    ensures FrameRule(d, a)(ItemBytes(a, item)) ==
            End(if item.Sent? then Some(PduEvent(item.request)) else None, false)
  {
    match item
    case Noise(b) => NoiseIsWord(d, a, b);
    case Sent(r) => FrameIsWord(d, a, r);
  }

  lemma {:induction false} LineEvents(d: Dialect, a: byte, items: seq<Item>)
    requires forall i :: 0 <= i < |items| ==> Framed(d, a, items[i])
    ensures forall w :: w in Line(a, items) ==> Word(FrameRule(d, a), w) && !FrameRule(d, a)(w).drop
    ensures var events := EventsOf(FrameRule(d, a), Line(a, items));
            Nonsense !in events && Pdus(events) == Requests(items)
  {
    if items != [] {
      LineEvents(d, a, items[1..]);
      ItemIsWord(d, a, items[0]);
      var g, w, words := FrameRule(d, a), ItemBytes(a, items[0]), Line(a, items[1..]);
      assert Line(a, items)[0] == w && Line(a, items)[1..] == words;
      PdusConcat(Reported(g(w).event), EventsOf(g, words));
    }
  }

  /** Completeness under any chunking: frames with noise between them, cut anywhere into chunks, are called back
    * exactly, in order, with no nonsense and nothing left over.  The state classes need every byte count to be
    * positive. */
  lemma {:induction false} AllRequestsDelivered(d: Dialect, a: byte, items: seq<Item>, chunks: seq<seq<byte>>)
    requires forall i :: 0 <= i < |items| ==> Framed(d, a, items[i])
    requires Flatten(chunks) == Flatten(Line(a, items))
    ensures var o := Run(FrameRule(d, a), [], chunks);
            Nonsense !in o.events && Pdus(o.events) == Requests(items) && o.rest == [] && !o.dropped
  {
    LineEvents(d, a, items);
    Delivery(FrameRule(d, a), Line(a, items), chunks);
  }

  // ---------------------------------------------------------------- soundness

  // A word ends at the bad function code or at the end of the frame its header announces, never later.
  lemma WordLength(d: Dialect, a: byte, w: seq<byte>)
    requires Word(FrameRule(d, a), w) && w[0] == a
    ensures 2 <= |w| <= MAX_FRAME
    ensures if !ValidFc(w[1]) then |w| == 2 else HeadRead(w, 1) && |w| == FrameLen(d, w)
  {
    assert w[..|w|] == w;
    if |w| > 2 {
      var p := w[..|w| - 1];
      assert FrameRule(d, a)(p).More?;
      assert p[0] == a && p[1] == w[1];
      assert FrameRule(d, a)(w[..2]).More?;
      if HeadRead(p, 1) {
        assert FrameLen(d, p) == FrameLen(d, w);
      }
    }
  }

  /** A word that calls back a request is that request's frame; the state classes' words for a zero byte count hold one
    * more byte before the checksum. */
  lemma PduWordIsFrame(d: Dialect, a: byte, w: seq<byte>, r: Request)
    requires Word(FrameRule(d, a), w) && FrameRule(d, a)(w).event == Some(PduEvent(r))
    ensures WellFormed(r)
    ensures if d.Coroutine? || !ZeroCount(r) then w == Frame(a, r)
            else |w| == |Frame(a, r)| + 1 && w[..|w| - 3] + w[|w| - 2..] == Frame(a, r)
  {
    PduVerdict(d, a, w, r);
    WordLength(d, a, w);
    var n := 1 + PduLen(w, 1);
    FrameFromParts(a, w, r, n);
    FrameInWord(a, w, r, n);
  }

  lemma FrameInWord(a: byte, w: seq<byte>, r: Request, n: nat)
    requires n + 2 <= |w| <= n + 3 && w[..n] + w[|w| - 2..] == Frame(a, r)
    ensures if |w| == n + 2 then w == Frame(a, r)
            else |w| == |Frame(a, r)| + 1 && w[..|w| - 3] + w[|w| - 2..] == Frame(a, r)
  {
    assert |w| == n + 2 ==> w == w[..n] + w[n..];
  }

  lemma PduVerdict(d: Dialect, a: byte, w: seq<byte>, r: Request)
    requires Judge(d, a, w).End? && Judge(d, a, w).event == Some(PduEvent(r))
    ensures |w| > 1 && w[0] == a && ValidFc(w[1]) && HeadRead(w, 1) && |w| >= FrameLen(d, w)
    ensures r == Decode(w, 1) && CrcBytes(w[..1 + PduLen(w, 1)]) == w[|w| - 2..]
  {
  }

  lemma FrameFromParts(a: byte, w: seq<byte>, r: Request, n: nat)
    requires |w| > 1 && HeadRead(w, 1) && ValidFc(w[1]) && w[0] == a
    requires n == 1 + PduLen(w, 1) && n + 2 <= |w| && r == Decode(w, 1) && CrcBytes(w[..n]) == w[|w| - 2..]
    ensures WellFormed(r) && w[..n] == [a] + Encode(r) && w[..n] + w[|w| - 2..] == Frame(a, r)
    ensures ZeroCount(r) <==> CountIsZero(w, 1)
  {
    EncodeOfDecode(w, 1);
    assert w[..n] == [a] + w[1..n];
  }

  /** A word reported as nonsense is an invalid function code after the address, or a whole frame whose checksum is
    * wrong; the state classes report only the latter. */
  lemma NonsenseWord(d: Dialect, a: byte, w: seq<byte>)
    requires Word(FrameRule(d, a), w) && FrameRule(d, a)(w).event == Some(Nonsense)
    ensures w[0] == a && |w| >= 2
    ensures if !ValidFc(w[1]) then d.Coroutine? && |w| == 2
            else HeadRead(w, 1) && |w| == FrameLen(d, w) && CrcBytes(w[..1 + PduLen(w, 1)]) != w[|w| - 2..]
  {
    WordLength(d, a, w);
  }

  /** The bytes w are what the event says they are: a frame, in which the state classes have one byte more after a
    * byte count of zero; or an invalid function code after the address, or a whole frame with a wrong checksum. */
  predicate StandsAs(d: Dialect, a: byte, w: seq<byte>, event: Event) {
    match event
    case PduEvent(r) =>
      && WellFormed(r)
      && if d.Coroutine? || !ZeroCount(r) then w == Frame(a, r)
         else |w| == |Frame(a, r)| + 1 && w[..|w| - 3] + w[|w| - 2..] == Frame(a, r)
    case Nonsense =>
      && |w| >= 2 && w[0] == a
      && if !ValidFc(w[1]) then d.Coroutine? && |w| == 2
         else HeadRead(w, 1) && |w| == FrameLen(d, w) && CrcBytes(w[..1 + PduLen(w, 1)]) != w[|w| - 2..]
  }

  lemma WordStandsAs(d: Dialect, a: byte, w: seq<byte>, event: Event)
    requires Word(FrameRule(d, a), w) && FrameRule(d, a)(w).event == Some(event)
    ensures StandsAs(d, a, w, event)
  {
    match event
    case PduEvent(r) => PduWordIsFrame(d, a, w, r);
    case Nonsense => NonsenseWord(d, a, w);
  }

  /** The events stand in the stream one after another without overlap, each being what it says it is. */
  ghost predicate StandIn(d: Dialect, a: byte, stream: seq<byte>, spans: seq<Span>, events: seq<Event>) {
    && Accounts(FrameRule(d, a), stream, 0, |stream|, spans, events)
    && forall i :: 0 <= i < |events| ==> StandsAs(d, a, stream[spans[i].from..spans[i].to], events[i])
  }

  /** Soundness of both scanners under any chunking and any input, dropped bytes included: the events stand in the input
    * in order; each request called back is encoded, checksum and all, exactly where it stands, so none of its fields
    * comes from another frame; and each nonsense call is a frame really at fault. */
  lemma {:induction false} EventsStandInInput(d: Dialect, a: byte, chunks: seq<seq<byte>>)
    ensures var g := FrameRule(d, a);
            StandIn(d, a, Flatten(chunks), RunSpans(g, [], chunks, 0), Run(g, [], chunks).events)
  {
    var g, stream := FrameRule(d, a), Flatten(chunks);
    RunSound(g, stream, [], chunks, 0);
    var events, spans := Run(g, [], chunks).events, RunSpans(g, [], chunks, 0);
    forall i | 0 <= i < |events|
      ensures StandsAs(d, a, stream[spans[i].from..spans[i].to], events[i])
    {
      assert FoundAt(g, stream, spans[i], events[i]);
      WordStandsAs(d, a, stream[spans[i].from..spans[i].to], events[i]);
    }
  }

  /** From an accepted address byte on, at most 268 bytes decide the frame, whatever they are. */
  lemma FrameResolves(d: Dialect, a: byte, p: seq<byte>, s: seq<byte>)
    requires p != [] && Live(FrameRule(d, a), p) && |p| + |s| >= MAX_FRAME
    ensures exists k :: 0 < k <= |s| && |p| + k <= MAX_FRAME && Word(FrameRule(d, a), p + s[..k])
  {
    forall q | Live(FrameRule(d, a), q)
      ensures |q| < MAX_FRAME
    {
      LiveBound(d, a, q);
    }
    WordWithin(FrameRule(d, a), p, s, MAX_FRAME);
  }

  lemma LiveBound(d: Dialect, a: byte, p: seq<byte>)
    requires Live(FrameRule(d, a), p)
    ensures |p| < MAX_FRAME
  {
    if |p| > 1 {
      assert p[..|p|] == p;
      var g := FrameRule(d, a);
      assert g(p[..1]).More? && g(p[..2]).More? && g(p[..|p|]).More?;
    }
  }

  // ---------------------------------------------------------------- what the state classes miss

  /** Alone on the line, the frame of a request reaches the state classes' callback exactly when its byte count is not
    * zero; the coroutine calls back every frame. */
  lemma StateClassesDeliver(a: byte, r: Request)
    requires WellFormed(r)
    ensures ScanChunk(FrameRule(Coroutine, a), [], Frame(a, r)).events == [PduEvent(r)]
    ensures ScanChunk(FrameRule(StateClasses, a), [], Frame(a, r)).events == [PduEvent(r)] <==> !ZeroCount(r)
  {
    FrameIsWord(Coroutine, a, r);
    WordScanned(Coroutine, a, r);
    if ZeroCount(r) {
      ZeroCountIsLive(a, r);
      ScanLive(FrameRule(StateClasses, a), Frame(a, r), 0);
      assert Frame(a, r)[..0] == [] && Frame(a, r)[0..] == Frame(a, r);
    } else {
      FrameIsWord(StateClasses, a, r);
      WordScanned(StateClasses, a, r);
    }
  }

  lemma WordScanned(d: Dialect, a: byte, r: Request)
    requires Word(FrameRule(d, a), Frame(a, r)) && FrameRule(d, a)(Frame(a, r)) == End(Some(PduEvent(r)), false)
    ensures ScanChunk(FrameRule(d, a), [], Frame(a, r)).events == [PduEvent(r)]
  {
    var w := Frame(a, r);
    ScanWord(FrameRule(d, a), w, 0, []);
    assert w[..0] == [] && w[0..] + [] == w;
  }

  lemma ZeroCountIsLive(a: byte, r: Request)
    requires WellFormed(r) && ZeroCount(r)
    ensures Live(FrameRule(StateClasses, a), Frame(a, r))
  {
    var w := Frame(a, r);
    FrameShape(a, r);
    forall k | 0 < k <= |w|
      ensures FrameRule(StateClasses, a)(w[..k]).More?
    {
      JudgePrefix(StateClasses, a, w, k);
    }
  }

  // ---------------------------------------------------------------- exactly which lines the state classes deliver

  /** Frames without noise between them. */
  function FramesOnly(rs: seq<Request>): (items: seq<Item>)
    ensures |items| == |rs|
  {
    seq(|rs|, i requires 0 <= i < |rs| => Sent(rs[i]))
  }

  function CalledBack(rs: seq<Request>): (events: seq<Event>)
    ensures |events| == |rs|
  {
    seq(|rs|, i requires 0 <= i < |rs| => PduEvent(rs[i]))
  }

  lemma {:induction false} EventsOfPdus(events: seq<Event>)
    requires Nonsense !in events
    ensures events == CalledBack(Pdus(events))
    decreases |events|
  {
    if events != [] {
      EventsOfPdus(events[1..]);
      assert events[0].PduEvent?;
      assert Pdus(events) == [events[0].request] + Pdus(events[1..]);
      assert events == [events[0]] + events[1..];
    }
  }

  lemma {:induction false} RequestsOnly(rs: seq<Request>)
    ensures Requests(FramesOnly(rs)) == rs
    decreases |rs|
  {
    if rs != [] {
      assert FramesOnly(rs)[1..] == FramesOnly(rs[1..]);
      RequestsOnly(rs[1..]);
    }
  }

  /** The bytes each request needs in order to be called back by the state classes. */
  function Needs(a: byte, rs: seq<Request>): (lens: seq<nat>)
    ensures |lens| == |rs|
  {
    seq(|rs|, i requires 0 <= i < |rs| => |Frame(a, rs[i])| + if ZeroCount(rs[i]) then 1 else 0)
  }

  lemma {:induction false} NeedsStep(a: byte, rs: seq<Request>)
    requires rs != []
    ensures Sum(Needs(a, rs)) ==
            |Frame(a, rs[0])| + (if ZeroCount(rs[0]) then 1 else 0) + Sum(Needs(a, rs[1..]))
    ensures |Flatten(Line(a, FramesOnly(rs)))| == |Frame(a, rs[0])| + |Flatten(Line(a, FramesOnly(rs[1..])))|
  {
    assert Needs(a, rs)[1..] == Needs(a, rs[1..]);
    assert FramesOnly(rs)[1..] == FramesOnly(rs[1..]);
    assert Line(a, FramesOnly(rs))[1..] == Line(a, FramesOnly(rs[1..]));
  }

  lemma {:induction false} NeedsMore(a: byte, rs: seq<Request>)
    ensures Sum(Needs(a, rs)) >= |Flatten(Line(a, FramesOnly(rs)))|
    ensures (exists i :: 0 <= i < |rs| && ZeroCount(rs[i])) ==> Sum(Needs(a, rs)) > |Flatten(Line(a, FramesOnly(rs)))|
    decreases |rs|
  {
    if rs != [] {
      NeedsStep(a, rs);
      NeedsMore(a, rs[1..]);
      if i :| 0 <= i < |rs| && ZeroCount(rs[i]) {
        assert i > 0 ==> rs[1..][i - 1] == rs[i];
      }
    }
  }

  /** Of frames with nothing between them, however cut, the coroutine calls back all, and the state classes do exactly
    * if no byte count is zero: after a zero count they take one byte more, and there are too few. */
  lemma {:induction false} DeliveredExactly(d: Dialect, a: byte, rs: seq<Request>, chunks: seq<seq<byte>>)
    requires forall i :: 0 <= i < |rs| ==> WellFormed(rs[i])
    requires Flatten(chunks) == Flatten(Line(a, FramesOnly(rs)))
    ensures Run(FrameRule(d, a), [], chunks).events == CalledBack(rs) <==>
            d.Coroutine? || forall i :: 0 <= i < |rs| ==> !ZeroCount(rs[i])
  {
    var events := Run(FrameRule(d, a), [], chunks).events;
    if d.Coroutine? || forall i :: 0 <= i < |rs| ==> !ZeroCount(rs[i]) {
      AllRequestsDelivered(d, a, FramesOnly(rs), chunks);
      RequestsOnly(rs);
      EventsOfPdus(events);
    } else if events == CalledBack(rs) {
      NeedsRoom(a, rs, chunks);
      NeedsMore(a, rs);
    }
  }

  lemma {:induction false} NeedsRoom(a: byte, rs: seq<Request>, chunks: seq<seq<byte>>)
    requires Run(FrameRule(StateClasses, a), [], chunks).events == CalledBack(rs)
    ensures Sum(Needs(a, rs)) <= |Flatten(chunks)|
  {
    var g, stream := FrameRule(StateClasses, a), Flatten(chunks);
    var spans := RunSpans(g, [], chunks, 0);
    EventsStandInInput(StateClasses, a, chunks);
    forall i | 0 <= i < |rs|
      ensures spans[i].to - spans[i].from >= Needs(a, rs)[i]
    {
      assert FoundAt(g, stream, spans[i], CalledBack(rs)[i]);
      StandsInNeeded(a, stream[spans[i].from..spans[i].to], rs[i]);
    }
    SpansFit(g, stream, 0, |stream|, spans, CalledBack(rs), Needs(a, rs));
  }

  lemma StandsInNeeded(a: byte, w: seq<byte>, r: Request)
    requires StandsAs(StateClasses, a, w, PduEvent(r))
    ensures |w| == |Frame(a, r)| + if ZeroCount(r) then 1 else 0
  {
  }
}
