/** The bytes on the line in plain terms: which byte strings are frames, which function codes are accepted, and what
  * stands where in a frame that is called back. */
module WireFormat {
  import opened Bytes
  import opened Crc
  import opened Framing
  import opened Pdu
  import opened PlainTerms
  import opened Rtu
  import Tcp

  // ---------------------------------------------------------------- function codes

  /** The function codes the scanners accept. */
  const ACCEPTED_CODES: set<int> := {1, 2, 3, 4, 5, 6, 15, 16, 23}

  /** After the address, both RTU scanners go on exactly for these. */
  lemma RtuFunctionCodes(d: Dialect, a: byte, fc: byte)
    ensures Judge(d, a, [a, fc]).More? <==> fc in {1, 2, 3, 4, 5, 6, 15, 16, 23}
  {
  }

  /** So does the TCP scanner after the header and the unit id. */
  lemma TcpFunctionCodes(a: byte, header: seq<byte>, fc: byte)
    requires |header| == 6
    ensures Tcp.Judge(a, header + [a, fc]).More? <==> fc in {1, 2, 3, 4, 5, 6, 15, 16, 23}
  {
    var p := header + [a, fc];
    assert p[6] == a && p[7] == fc;
  }

  // ---------------------------------------------------------------- encoded requests

  /** Where a request stands encoded, there is its shape, and any record of it holds the fields at their offsets. */
  lemma EncodingIsPlain(w: seq<byte>, o: nat, p: PduRecord)
    requires WellFormed(Defined(p)) && o + |Encode(Defined(p))| <= |w|
    requires w[o..o + |Encode(Defined(p))|] == Encode(Defined(p))
    ensures PlainPdu(w, o, |Encode(Defined(p))|) && PlainRecord(w, o, p)
  {
    DecodeOfEncode(w, o, Defined(p));
  }

  lemma PlainIsRead(w: seq<byte>, o: nat, n: nat)
    requires PlainPdu(w, o, n)
    ensures HeadRead(w, o) && ValidFc(w[o]) && PduLen(w, o) == n
  {
  }

  lemma ReadIsPlain(w: seq<byte>, o: nat)
    requires HeadRead(w, o) && ValidFc(w[o]) && o + PduLen(w, o) <= |w|
    ensures PlainPdu(w, o, PduLen(w, o))
  {
  }

  /** And a record that holds what stands at the offsets of such a shape is of the request encoded there. */
  lemma PlainIsEncoding(w: seq<byte>, o: nat, n: nat, p: PduRecord)
    requires PlainPdu(w, o, n) && PlainRecord(w, o, p)
    ensures WellFormed(Defined(p)) && w[o..o + n] == Encode(Defined(p))
  {
    PlainIsRead(w, o, n);
    EncodeOfDecode(w, o);
    assert Decode(w, o) == Defined(p);
  }

  // ---------------------------------------------------------------- RTU frames

  /** The shape of a frame for the address: the address, a request and two bytes more. */
  predicate RtuShape(a: byte, w: seq<byte>) {
    |w| >= 3 && w[0] == a && PlainPdu(w, 1, |w| - 3)
  }

  lemma ShapeLength(a: byte, w: seq<byte>)
    requires RtuShape(a, w)
    ensures 8 <= |w| <= 268
  {
  }

  /** The frames of requests are exactly the byte strings of that shape with the right checksum. */
  lemma FramesExactly(a: byte, w: seq<byte>)
    ensures (exists r :: WellFormed(r) && w == Frame(a, r)) <==> RtuShape(a, w) && Accepted(w)
  {
    if r :| WellFormed(r) && w == Frame(a, r) {
      FrameIsPlain(a, r);
    }
    if RtuShape(a, w) && Accepted(w) {
      ShapeIsFrame(a, w);
    }
  }

  lemma FrameIsPlain(a: byte, r: Request)
    requires WellFormed(r)
    ensures RtuShape(a, Frame(a, r)) && Accepted(Frame(a, r))
  {
    var body := [a] + Encode(r);
    FrameShape(a, r);
    ReadIsPlain(Frame(a, r), 1);
    AcceptedParts(body, CrcBytes(body)[0], CrcBytes(body)[1]);
    assert Frame(a, r) == body + [CrcBytes(body)[0], CrcBytes(body)[1]];
  }

  lemma ShapeIsFrame(a: byte, w: seq<byte>)
    requires RtuShape(a, w) && Accepted(w)
    ensures HeadRead(w, 1) && 1 + PduLen(w, 1) == |w| - 2
    ensures WellFormed(Decode(w, 1)) && w == Frame(a, Decode(w, 1))
  {
    var n := |w| - 2;
    PlainIsRead(w, 1, |w| - 3);
    FrameFromParts(a, w, Decode(w, 1), n);
    SplitAt(w, n);
  }

  lemma ShapeIsFrameOf(a: byte, w: seq<byte>, p: PduRecord)
    requires RtuShape(a, w) && Accepted(w) && PlainRecord(w, 1, p)
    ensures WellFormed(Defined(p)) && w == Frame(a, Defined(p))
  {
    ShapeIsFrame(a, w);
    PlainIsEncoding(w, 1, |w| - 3, p);
    EncodingUnique(a, w, Defined(p));
  }

  lemma EncodingUnique(a: byte, w: seq<byte>, r: Request)
    requires RtuShape(a, w) && Accepted(w) && WellFormed(r) && w[1..|w| - 2] == Encode(r)
    ensures w == Frame(a, r)
  {
    var n := |w| - 2;
    assert w[..n] == [a] + w[1..n];
    SplitAt(w, n);
  }

  lemma SplitAt(w: seq<byte>, n: nat)
    requires n <= |w|
    ensures w == w[..n] + w[n..]
  {
  }

  /** A byte string of that shape and with the right checksum is called back, however it is cut into chunks, with what
    * stands at the offsets; by the state classes if it has no byte count of zero. */
  lemma {:induction false} FrameCalledBack(d: Dialect, a: byte, w: seq<byte>, p: PduRecord, chunks: seq<seq<byte>>)
    requires RtuShape(a, w) && Accepted(w) && PlainRecord(w, 1, p) && Flatten(chunks) == w
    requires d.Coroutine? || p.fc <= 6 || p.i8_1 > 0
    ensures w == Frame(a, Defined(p)) && Run(FrameRule(d, a), [], chunks) == Outcome([], [PduEvent(Defined(p))], false)
  {
    ShapeIsFrameOf(a, w, p);
    FrameIsWord(d, a, Defined(p));
    assert w[..0] == [] && w[0..] + [] == w;
    ScanWord(FrameRule(d, a), w, 0, []);
    RunAs(FrameRule(d, a), [], chunks, w, Outcome([], [PduEvent(Defined(p))], false));
  }

  /** In particular eight bytes with the right checksum, the address and a function code from 1 to 6 first, are called
    * back by both scanners, however cut: their words are the numbers that two bytes each make, the first counting 256
    * times. */
  lemma {:induction false} SimpleFrameCalledBack(d: Dialect, a: byte, w: seq<byte>, chunks: seq<seq<byte>>)
    requires |w| == 8 && w[0] == a && 1 <= w[1] <= 6 && Accepted(w) && Flatten(chunks) == w
    ensures var first, second := Combine(w[2], w[3]), Combine(w[4], w[5]);
            && first == Number(w[2], w[3]) && second == Number(w[4], w[5])
            && Run(FrameRule(d, a), [], chunks) == Outcome([], [PduEvent(Simple(w[1], first, second))], false)
  {
    var p := PduRecord(0, 0, w[1], Combine(w[2], w[3]), Combine(w[4], w[5]), 0, 0, 0, []);
    FrameCalledBack(d, a, w, p, chunks);
  }

  /** Reading two registers from address 0 of device 1, as it stands on the line, is such a frame. */
  lemma KnownFrame(w: seq<byte>)
    requires w == [1, 3, 0, 0, 0, 2, 196, 11]
    ensures |w| == 8 && Accepted(w)
  {
    KnownChecksum();
    AcceptedParts([1, 3, 0, 0, 0, 2], 196, 11);
    assert w == [1, 3, 0, 0, 0, 2] + [196, 11];
  }

  /** The bytes w without the one before the checksum. */
  function WithoutOne(w: seq<byte>): seq<byte>
    requires |w| >= 3
  {
    w[..|w| - 3] + w[|w| - 2..]
  }

  predicate HasZeroCount(w: seq<byte>) {
    |w| > 1 && if w[1] == 23 then |w| > 10 && w[10] == 0 else (w[1] == 15 || w[1] == 16) && |w| > 6 && w[6] == 0
  }

  /** The frame in the bytes w: all of them, but for the one the state classes take after a byte count of zero. */
  function FrameIn(d: Dialect, w: seq<byte>): seq<byte> {
    if d.StateClasses? && HasZeroCount(w) && |w| >= 3 then WithoutOne(w) else w
  }

  /** What a call says of the bytes where it stands: the record's fields are at their offsets in a frame with the right
    * checksum; or the function code is none, or the checksum of the frame is wrong. */
  predicate CallFits(d: Dialect, a: byte, w: seq<byte>, c: Callback) {
    var v := FrameIn(d, w);
    match c
    case PduCallback(p) => RtuShape(a, v) && Accepted(v) && PlainRecord(v, 1, p)
    case NonsenseCallback =>
      && |w| > 1 && w[0] == a
      && if w[1] !in ACCEPTED_CODES then d.Coroutine? && |w| == 2 else RtuShape(a, v) && !Accepted(v)
  }

  lemma PduCallFits(d: Dialect, a: byte, w: seq<byte>, p: PduRecord)
    requires StandsAs(d, a, w, PduEvent(Defined(p)))
    ensures CallFits(d, a, w, PduCallback(p))
  {
    FrameIsPlain(a, Defined(p));
    FrameHoldsRecord(a, p);
    FrameIsIn(d, a, w, Defined(p));
  }

  lemma FrameHoldsRecord(a: byte, p: PduRecord)
    requires WellFormed(Defined(p))
    ensures PlainRecord(Frame(a, Defined(p)), 1, p)
  {
    var r := Defined(p);
    assert Frame(a, r)[1..1 + |Encode(r)|] == Encode(r);
    EncodingIsPlain(Frame(a, r), 1, p);
  }

  lemma FrameIsIn(d: Dialect, a: byte, w: seq<byte>, r: Request)
    requires StandsAs(d, a, w, PduEvent(r))
    ensures FrameIn(d, w) == Frame(a, r)
  {
    FrameShape(a, r);
    if d.StateClasses? && ZeroCount(r) {
      assert forall i :: 0 <= i < |w| - 3 ==> w[i] == WithoutOne(w)[i];
    }
  }

  lemma NonsenseCallFits(d: Dialect, a: byte, w: seq<byte>)
    requires StandsAs(d, a, w, Nonsense)
    ensures CallFits(d, a, w, NonsenseCallback)
  {
    if ValidFc(w[1]) {
      ReadIsPlain(w, 1);
      FrameInParts(d, w, 1 + PduLen(w, 1));
    }
  }

  lemma FrameInParts(d: Dialect, w: seq<byte>, n: nat)
    requires HeadRead(w, 1) && ValidFc(w[1]) && |w| == FrameLen(d, w) && n == 1 + PduLen(w, 1)
    ensures var v := FrameIn(d, w); |v| == n + 2 && v[..n] == w[..n] && v[n..] == w[|w| - 2..]
  {
  }

  lemma CallStandsAs(d: Dialect, a: byte, w: seq<byte>, c: Callback)
    requires StandsAs(d, a, w, View(c))
    ensures CallFits(d, a, w, c)
  {
    match c
    case PduCallback(p) => PduCallFits(d, a, w, p);
    case NonsenseCallback => NonsenseCallFits(d, a, w);
  }

  /** The spans lie one after another in a stream of n bytes. */
  predicate InOrder(spans: seq<Span>, n: nat) {
    && (forall i :: 0 <= i < |spans| ==> spans[i].from < spans[i].to <= n)
    && (forall i, j :: 0 <= i < j < |spans| ==> spans[i].to <= spans[j].from)
  }

  lemma AccountsInOrder<E>(g: Rule<E>, stream: seq<byte>, spans: seq<Span>, events: seq<E>)
    requires Accounts(g, stream, 0, |stream|, spans, events)
    ensures InOrder(spans, |stream|) && |spans| == |events|
  {
    forall i | 0 <= i < |spans|
      ensures spans[i].from < spans[i].to <= |stream|
    {
      assert FoundAt(g, stream, spans[i], events[i]);
    }
  }

  /** The calls stand in the stream in order, each fitting its bytes. */
  ghost predicate CallsStand(d: Dialect, a: byte, stream: seq<byte>, spans: seq<Span>, calls: seq<Callback>) {
    && InOrder(spans, |stream|) && |spans| == |calls|
    && forall i :: 0 <= i < |calls| ==> CallFits(d, a, stream[spans[i].from..spans[i].to], calls[i])
  }

  /** Soundness in plain terms: all that is called back in a run, whatever comes in, stands in it field by field. */
  lemma {:induction false} CallsStandInInput(d: Dialect, a: byte, chunks: seq<seq<byte>>, calls: seq<Callback>)
    requires Views(calls) == Run(FrameRule(d, a), [], chunks).events
    ensures CallsStand(d, a, Flatten(chunks), RunSpans(FrameRule(d, a), [], chunks, 0), calls)
  {
    var stream, spans := Flatten(chunks), RunSpans(FrameRule(d, a), [], chunks, 0);
    EventsStandInInput(d, a, chunks);
    AccountsInOrder(FrameRule(d, a), stream, spans, Views(calls));
    forall i | 0 <= i < |calls|
      ensures CallFits(d, a, stream[spans[i].from..spans[i].to], calls[i])
    {
      assert Views(calls)[i] == View(calls[i]);
      CallStandsAs(d, a, stream[spans[i].from..spans[i].to], calls[i]);
    }
  }

  // ---------------------------------------------------------------- TCP frames

  /** The shape of a TCP frame: six bytes, the unit id and a request. */
  predicate TcpShape(a: byte, w: seq<byte>) {
    |w| >= 7 && w[6] == a && PlainPdu(w, 7, |w| - 7)
  }

  /** The TCP frames of requests are exactly the byte strings of that shape. */
  lemma TcpFramesExactly(a: byte, w: seq<byte>)
    ensures (exists u :: Tcp.WellFormedAdu(u) && w == Tcp.Frame(a, u)) <==> TcpShape(a, w)
  {
    if u :| Tcp.WellFormedAdu(u) && w == Tcp.Frame(a, u) {
      Tcp.FrameShape(a, u);
      ReadIsPlain(w, 7);
    }
    if TcpShape(a, w) {
      TcpShapeIsFrame(a, w);
    }
  }

  lemma TcpShapeIsFrame(a: byte, w: seq<byte>)
    requires TcpShape(a, w)
    ensures HeadRead(w, 7) && 7 + PduLen(w, 7) == |w|
    ensures var u := Tcp.Adu(w[..6], Decode(w, 7)); Tcp.WellFormedAdu(u) && w == Tcp.Frame(a, u)
  {
    PlainIsRead(w, 7, |w| - 7);
    EncodeOfDecode(w, 7);
    assert w == w[..6] + [a] + w[7..];
  }

  /** Transaction 1: reading two registers from address 6 of unit 1, as it stands on the line. */
  lemma KnownTcpFrame()
    ensures Run(Tcp.FrameRule(1), [], [[0, 1, 0, 0, 0, 6, 1, 3, 0, 6, 0, 2]]) ==
            Outcome([], [Tcp.PduEvent(0, 1, Simple(3, 6, 2))], false)
  {
    var w: seq<byte>, u := [0, 1, 0, 0, 0, 6, 1, 3, 0, 6, 0, 2], Tcp.Adu([0, 1, 0, 0, 0, 6], Simple(3, 6, 2));
    assert Tcp.Frame(1, u) == w;
    assert Tcp.Frames(1, [u]) == [w] + Tcp.Frames(1, [u][1..]);
    assert Tcp.Events([u]) == [Tcp.EventOf(u)] + Tcp.Events([u][1..]);
    Tcp.AllFramesDelivered(1, [u], [w]);
  }

  /** What a TCP call says of the bytes where it stands: the transaction id is their first two, the record's fields
    * are at their offsets, and a byte count of zero is followed by one byte more; or the function code is none. */
  predicate TcpCallFits(a: byte, w: seq<byte>, c: Callback) {
    match c
    case PduCallback(p) =>
      var extra := if p.fc > 6 && p.i8_1 == 0 then 1 else 0;
      && |w| > 7 && w[6] == a && p.transactId1 == w[0] && p.transactId2 == w[1]
      && PlainPdu(w, 7, |w| - 7 - extra) && PlainRecord(w, 7, p)
    case NonsenseCallback => |w| == 8 && w[6] == a && w[7] !in ACCEPTED_CODES
  }

  lemma TcpCallStandsAs(a: byte, w: seq<byte>, c: Callback)
    requires Tcp.StandsAs(a, w, Tcp.View(c))
    ensures TcpCallFits(a, w, c)
  {
    if c.PduCallback? {
      var r := Defined(c.pdu);
      assert w[7..7 + |Encode(r)|] == Encode(r);
      EncodingIsPlain(w, 7, c.pdu);
    }
  }

  ghost predicate TcpCallsStand(a: byte, stream: seq<byte>, spans: seq<Span>, calls: seq<Callback>) {
    && InOrder(spans, |stream|) && |spans| == |calls|
    && forall i :: 0 <= i < |calls| ==> TcpCallFits(a, stream[spans[i].from..spans[i].to], calls[i])
  }

  /** Soundness of the TCP scanner in plain terms. */
  lemma {:induction false} TcpCallsStandInInput(a: byte, chunks: seq<seq<byte>>, calls: seq<Callback>)
    requires Tcp.Views(calls) == Run(Tcp.FrameRule(a), [], chunks).events
    ensures TcpCallsStand(a, Flatten(chunks), RunSpans(Tcp.FrameRule(a), [], chunks, 0), calls)
  {
    var stream, spans := Flatten(chunks), RunSpans(Tcp.FrameRule(a), [], chunks, 0);
    Tcp.EventsStandInInput(a, chunks);
    AccountsInOrder(Tcp.FrameRule(a), stream, spans, Tcp.Views(calls));
    forall i | 0 <= i < |calls|
      ensures TcpCallFits(a, stream[spans[i].from..spans[i].to], calls[i])
    {
      assert Tcp.Views(calls)[i] == Tcp.View(calls[i]);
      TcpCallStandsAs(a, stream[spans[i].from..spans[i].to], calls[i]);
    }
  }
}
