/** The framing rule of slave_tcp_scanner.cpp: six header bytes, the unit id and the protocol data unit, no checksum. */
module Tcp {
  import opened Bytes
  import opened Framing
  import opened Pdu

  datatype Event = PduEvent(id1: byte, id2: byte, request: Request) | Nonsense

  function View(c: Callback): Event {
    match c
    case PduCallback(pdu) => PduEvent(pdu.transactId1, pdu.transactId2, Defined(pdu))
    case NonsenseCallback => Nonsense
  }

  function Views(calls: seq<Callback>): seq<Event> {
    seq(|calls|, i requires 0 <= i < |calls| => View(calls[i]))
  }

  /** After a byte count of zero the scanner still waits for, and passes over, one more byte. */
  function FrameLen(p: seq<byte>): nat
    requires HeadRead(p, 7)
  {
    7 + PduLen(p, 7) + if CountIsZero(p, 7) then 1 else 0
  }

  function Judge(a: byte, p: seq<byte>): Verdict<Event> {
    if |p| < 7 then More
    else if p[6] != a then End(None, true)
    else if |p| == 7 then More
    else if !ValidFc(p[7]) then End(Some(Nonsense), true)
    else if !HeadRead(p, 7) || |p| < FrameLen(p) then More
    else End(Some(PduEvent(p[0], p[1], Decode(p, 7))), false)
  }

  function FrameRule(a: byte): Rule<Event> {
    p => Judge(a, p)
  }

  /** A request with its six header bytes: transaction id, protocol id and length.  Only the first two are used. */
  datatype Adu = Adu(header: seq<byte>, request: Request)

  predicate WellFormedAdu(u: Adu) {
    |u.header| == 6 && WellFormed(u.request)
  }

  function Frame(a: byte, u: Adu): seq<byte> {
    u.header + [a] + Encode(u.request)
  }

  /** Frames take 12 bytes, 13 and the data, or 17 and the data. */
  lemma FrameLength(a: byte, u: Adu)
    requires WellFormedAdu(u)
    ensures |Frame(a, u)| ==
            match u.request
            case Simple(_, _, _) => 12
            case WriteMany(_, _, _, count, _) => 13 + count
            case ReadWrite(_, _, _, _, count, _) => 17 + count
  {
  }

  function EventOf(u: Adu): Event
    requires WellFormedAdu(u)
  {
    PduEvent(u.header[0], u.header[1], u.request)
  }

  lemma FrameShape(a: byte, u: Adu)
    requires WellFormedAdu(u)
    ensures var w := Frame(a, u);
            && w[0] == u.header[0] && w[1] == u.header[1] && w[6] == a
            && HeadRead(w, 7) && ValidFc(w[7]) && 7 + PduLen(w, 7) == |w| && Decode(w, 7) == u.request
            && (CountIsZero(w, 7) <==> ZeroCount(u.request))
  {
    var w := Frame(a, u);
    assert w[7..7 + |Encode(u.request)|] == Encode(u.request);
    DecodeOfEncode(w, 7, u.request);
  }

  lemma JudgePrefix(a: byte, w: seq<byte>, k: nat)
    requires |w| > 7 && w[6] == a && ValidFc(w[7]) && HeadRead(w, 7)
    requires k < FrameLen(w) && k <= |w|
    ensures Judge(a, w[..k]).More?
  {
    var p := w[..k];
    if k > 7 && HeadRead(p, 7) {
      assert FrameLen(p) == FrameLen(w);
    }
  }

  lemma FrameIsWord(a: byte, u: Adu)
    requires WellFormedAdu(u) && !ZeroCount(u.request)
    ensures Word(FrameRule(a), Frame(a, u)) && FrameRule(a)(Frame(a, u)) == End(Some(EventOf(u)), false)
  {
    var w := Frame(a, u);
    FrameShape(a, u);
    forall k | 0 < k < |w|
      ensures FrameRule(a)(w[..k]).More?
    {
      JudgePrefix(a, w, k);
    }
  }

  function Frames(a: byte, us: seq<Adu>): seq<seq<byte>> {
    if us == [] then [] else [Frame(a, us[0])] + Frames(a, us[1..])
  }

  function Events(us: seq<Adu>): seq<Event>
    requires forall i :: 0 <= i < |us| ==> WellFormedAdu(us[i])
  {
    if us == [] then [] else [EventOf(us[0])] + Events(us[1..])
  }

  lemma {:induction false} FramesEvents(a: byte, us: seq<Adu>)
    requires forall i :: 0 <= i < |us| ==> WellFormedAdu(us[i]) && !ZeroCount(us[i].request)
    ensures forall w :: w in Frames(a, us) ==> Word(FrameRule(a), w) && !FrameRule(a)(w).drop
    ensures EventsOf(FrameRule(a), Frames(a, us)) == Events(us)
    decreases |us|
  {
    if us != [] {
      FrameIsWord(a, us[0]);
      FramesEvents(a, us[1..]);
      assert Frames(a, us)[0] == Frame(a, us[0]) && Frames(a, us)[1..] == Frames(a, us[1..]);
    }
  }

  /** Completeness under any chunking: frames for the configured unit id, their byte counts positive, are all called
    * back with their transaction ids, in order, and nothing is left over. */
  lemma {:induction false} AllFramesDelivered(a: byte, us: seq<Adu>, chunks: seq<seq<byte>>)
    requires forall i :: 0 <= i < |us| ==> WellFormedAdu(us[i]) && !ZeroCount(us[i].request)
    requires Flatten(chunks) == Flatten(Frames(a, us))
    ensures Run(FrameRule(a), [], chunks) == Outcome([], Events(us), false)
  {
    FramesEvents(a, us);
    Delivery(FrameRule(a), Frames(a, us), chunks);
  }

  /** Exactly the frames with a zero byte count are not delivered by their own bytes... */
  lemma DeliveredAlone(a: byte, u: Adu)
    requires WellFormedAdu(u)
    ensures ScanChunk(FrameRule(a), [], Frame(a, u)).events == [EventOf(u)] <==> !ZeroCount(u.request)
  {
    var g, w := FrameRule(a), Frame(a, u);
    assert w[..0] == [] && w[0..] == w && w[0..] + [] == w;
    if ZeroCount(u.request) {
      ZeroCountIsLive(a, u);
      ScanLive(g, w, 0);
    } else {
      FrameIsWord(a, u);
      ScanWord(g, w, 0, []);
    }
  }

  lemma ZeroCountIsLive(a: byte, u: Adu)
    requires WellFormedAdu(u) && ZeroCount(u.request)
    ensures Live(FrameRule(a), Frame(a, u))
  {
    var w := Frame(a, u);
    FrameShape(a, u);
    forall k | 0 < k <= |w|
      ensures FrameRule(a)(w[..k]).More?
    {
      JudgePrefix(a, w, k);
    }
  }

  /** ...they are delivered by the next byte, whatever it is, and that byte is lost to the frame after it. */
  lemma {:induction false} ZeroCountTakesNextByte(a: byte, u: Adu, b: byte, tail: seq<byte>)
    requires WellFormedAdu(u) && ZeroCount(u.request)
    ensures ScanChunk(FrameRule(a), [], Frame(a, u) + [b] + tail) ==
            Then(Outcome([], [EventOf(u)], false), ScanChunk(FrameRule(a), [], tail))
  {
    var g, f := FrameRule(a), Frame(a, u);
    var w := f + [b];
    FrameShape(a, u);
    ZeroCountIsLive(a, u);
    LiveExtends(g, f, b);
    assert w[7..7 + |Encode(u.request)|] == Encode(u.request);
    DecodeOfEncode(w, 7, u.request);
    assert Judge(a, w) == End(Some(EventOf(u)), false);
    ScanWord(g, w, 0, tail);
    assert w[..0] == [] && w[0..] == w;
  }

  /** A wrong unit id silences the rest of its chunk... */
  lemma {:induction false} WrongUnitSilences(a: byte, header: seq<byte>, unit: byte, tail: seq<byte>)
    requires |header| == 6 && unit != a
    ensures ScanChunk(FrameRule(a), [], header + [unit] + tail) == Outcome([], [], true)
  {
    var g, w := FrameRule(a), header + [unit];
    assert forall k :: 0 < k < 7 ==> g(w[..k]).More?;
    DropsAtWord(g, w, 0, tail);
    assert w[..0] == [] && w[0..] == w;
  }

  /** ...and so does an invalid function code, reported as nonsense. */
  lemma {:induction false} BadFunctionCodeSilences(a: byte, header: seq<byte>, fc: byte, tail: seq<byte>)
    requires |header| == 6 && !ValidFc(fc)
    ensures ScanChunk(FrameRule(a), [], header + [a, fc] + tail) == Outcome([], [Nonsense], true)
  {
    var g, w := FrameRule(a), header + [a, fc];
    assert forall k :: 0 < k < 8 ==> g(w[..k]).More?;
    DropsAtWord(g, w, 0, tail);
    assert w[..0] == [] && w[0..] == w;
  }

  /** After either, the chunk that follows is scanned afresh: a frame there is called back. */
  lemma NextChunkHeard(a: byte, header: seq<byte>, unit: byte, fc: byte, tail: seq<byte>, u: Adu)
    requires |header| == 6 && (unit != a || !ValidFc(fc)) && WellFormedAdu(u) && !ZeroCount(u.request)
    ensures Run(FrameRule(a), [], [header + [unit, fc] + tail, Frame(a, u)]).events ==
            (if unit != a then [] else [Nonsense]) + [EventOf(u)]
  {
    var g, c := FrameRule(a), header + [unit, fc] + tail;
    if unit != a {
      WrongUnitSilences(a, header, unit, [fc] + tail);
      assert c == header + [unit] + ([fc] + tail);
    } else {
      BadFunctionCodeSilences(a, header, fc, tail);
    }
    HeardAfterDrop(a, c, if unit != a then [] else [Nonsense], u);
  }

  lemma {:induction false} HeardAfterDrop(a: byte, chunk: seq<byte>, events: seq<Event>, u: Adu)
    requires ScanChunk(FrameRule(a), [], chunk) == Outcome([], events, true)
    requires WellFormedAdu(u) && !ZeroCount(u.request)
    ensures Run(FrameRule(a), [], [chunk, Frame(a, u)]).events == events + [EventOf(u)]
  {
    var g, w := FrameRule(a), Frame(a, u);
    AfterDropFresh(g, [], chunk, [w]);
    assert [chunk] + [w] == [chunk, w];
    DeliveredAlone(a, u);
    assert Run(g, [], [w]).events == ScanChunk(g, [], w).events by {
      assert Run(g, ScanChunk(g, [], w).rest, [w][1..]).events == [];
    }
  }

  // ---------------------------------------------------------------- soundness

  /** The bytes w are what the event says they are. */
  predicate StandsAs(a: byte, w: seq<byte>, event: Event) {
    |w| > 7 && w[6] == a &&
    match event
    case PduEvent(id1, id2, r) =>
      && w[0] == id1 && w[1] == id2 && WellFormed(r)
      && (if ZeroCount(r) then w[7..|w| - 1] == Encode(r) else w[7..] == Encode(r))
    case Nonsense => |w| == 8 && !ValidFc(w[7])
  }

  lemma WordStandsAs(a: byte, w: seq<byte>, event: Event)
    requires Word(FrameRule(a), w) && FrameRule(a)(w).event == Some(event)
    ensures StandsAs(a, w, event)
  {
    assert w[..|w|] == w;
    assert |w| > 8 ==> FrameRule(a)(w[..8]).More?;
    var p := w[..|w| - 1];
    if ValidFc(w[7]) {
      if |p| > 7 {
        assert FrameRule(a)(p).More?;
        if HeadRead(p, 7) {
          assert FrameLen(p) == FrameLen(w);
        }
      }
      assert |w| == FrameLen(w);
      EncodeOfDecode(w, 7);
    }
  }

  /** Soundness under any chunking and any input: events stand in the input in order and without overlap, each
    * called-back request with its transaction id and its encoding exactly where it stands. */
  lemma {:induction false} EventsStandInInput(a: byte, chunks: seq<seq<byte>>)
    ensures var g, stream := FrameRule(a), Flatten(chunks);
            var events, spans := Run(g, [], chunks).events, RunSpans(g, [], chunks, 0);
            && Accounts(g, stream, 0, |stream|, spans, events)
            && forall i :: 0 <= i < |events| ==> StandsAs(a, stream[spans[i].from..spans[i].to], events[i])
  {
    var g, stream := FrameRule(a), Flatten(chunks);
    RunSound(g, stream, [], chunks, 0);
    var events, spans := Run(g, [], chunks).events, RunSpans(g, [], chunks, 0);
    forall i | 0 <= i < |events|
      ensures StandsAs(a, stream[spans[i].from..spans[i].to], events[i])
    {
      assert FoundAt(g, stream, spans[i], events[i]);
      WordStandsAs(a, stream[spans[i].from..spans[i].to], events[i]);
    }
  }

  // ---------------------------------------------------------------- exactly which streams are delivered

  /** The bytes each request of a stream needs in order to be called back. */
  function Needs(a: byte, us: seq<Adu>): (lens: seq<nat>)
    ensures |lens| == |us|
  {
    seq(|us|, i requires 0 <= i < |us| => |Frame(a, us[i])| + if ZeroCount(us[i].request) then 1 else 0)
  }

  lemma {:induction false} NeedsStep(a: byte, us: seq<Adu>)
    requires us != []
    ensures Sum(Needs(a, us)) ==
            |Frame(a, us[0])| + (if ZeroCount(us[0].request) then 1 else 0) + Sum(Needs(a, us[1..]))
    ensures |Flatten(Frames(a, us))| == |Frame(a, us[0])| + |Flatten(Frames(a, us[1..]))|
  {
    assert Needs(a, us)[1..] == Needs(a, us[1..]);
    assert Frames(a, us)[1..] == Frames(a, us[1..]);
  }

  lemma {:induction false} NeedsMore(a: byte, us: seq<Adu>)
    ensures Sum(Needs(a, us)) >= |Flatten(Frames(a, us))|
    ensures (exists i :: 0 <= i < |us| && ZeroCount(us[i].request)) ==> Sum(Needs(a, us)) > |Flatten(Frames(a, us))|
    decreases |us|
  {
    if us != [] {
      NeedsStep(a, us);
      NeedsMore(a, us[1..]);
      if i :| 0 <= i < |us| && ZeroCount(us[i].request) {
        assert i > 0 ==> us[1..][i - 1] == us[i];
      }
    }
  }

  lemma {:induction false} EventsAt(us: seq<Adu>, i: nat)
    requires i < |us| && forall j :: 0 <= j < |us| ==> WellFormedAdu(us[j])
    ensures |Events(us)| == |us| && Events(us)[i] == EventOf(us[i])
    decreases |us|
  {
    if i > 0 {
      EventsAt(us[1..], i - 1);
    } else if |us| > 1 {
      EventsAt(us[1..], 0);
    }
  }

  /** Exactly the streams of frames without a zero byte count are called back, however they are cut: after a zero count
    * one byte of the stream is lost, so that there are too few for the events to stand in. */
  lemma {:induction false} DeliveredExactly(a: byte, us: seq<Adu>, chunks: seq<seq<byte>>)
    requires forall i :: 0 <= i < |us| ==> WellFormedAdu(us[i])
    requires Flatten(chunks) == Flatten(Frames(a, us))
    ensures Run(FrameRule(a), [], chunks).events == Events(us) <==>
            forall i :: 0 <= i < |us| ==> !ZeroCount(us[i].request)
  {
    if forall i :: 0 <= i < |us| ==> !ZeroCount(us[i].request) {
      AllFramesDelivered(a, us, chunks);
    } else if Run(FrameRule(a), [], chunks).events == Events(us) {
      NeedsRoom(a, us, chunks);
      NeedsMore(a, us);
    }
  }

  lemma {:induction false} NeedsRoom(a: byte, us: seq<Adu>, chunks: seq<seq<byte>>)
    requires us != [] && forall i :: 0 <= i < |us| ==> WellFormedAdu(us[i])
    requires Run(FrameRule(a), [], chunks).events == Events(us)
    ensures Sum(Needs(a, us)) <= |Flatten(chunks)|
  {
    var g, stream, spans := FrameRule(a), Flatten(chunks), RunSpans(FrameRule(a), [], chunks, 0);
    EventsStandInInput(a, chunks);
    EventsAt(us, 0);
    forall i | 0 <= i < |us|
      ensures spans[i].to - spans[i].from >= Needs(a, us)[i]
    {
      EventsAt(us, i);
      assert FoundAt(g, stream, spans[i], Events(us)[i]);
      StandsInNeeded(a, stream[spans[i].from..spans[i].to], us[i]);
    }
    SpansFit(g, stream, 0, |stream|, spans, Events(us), Needs(a, us));
  }

  lemma StandsInNeeded(a: byte, w: seq<byte>, u: Adu)
    requires WellFormedAdu(u) && StandsAs(a, w, EventOf(u))
    ensures |w| == |Frame(a, u)| + if ZeroCount(u.request) then 1 else 0
  {
  }
}
