/** The scanner objects over whole runs, as mb_scanner_test.cpp drives them: a buffer for every chunk, scanned in
  * turn. */
module ScannerRuns {
  import opened Bytes
  import opened Framing
  import opened Pdu
  import opened Rtu
  import RtuEquivalence
  import SlaveRtuOld
  import SlaveRtuScanner
  import SlaveTcpScanner
  import Tcp
  import opened WireFormat

  predicate Chunks(chunks: seq<seq<byte>>) {
    forall i :: 0 <= i < |chunks| ==> 0 < |chunks[i]| <= BUF_SIZE
  }

  /** Having gone from frame p and the events reported then to frame p' and the events' reported since, a scanner has
    * done of a run what the chunks before the k-th ask for. */
  ghost predicate RanTo<E>(g: Rule<E>, p: seq<byte>, events: seq<E>, chunks: seq<seq<byte>>, k: nat,
                           p': seq<byte>, events': seq<E>)
    requires k <= |chunks|
  {
    var o, o' := Run(g, p, chunks), Run(g, p', chunks[k..]);
    o.rest == o'.rest && events + o.events == events' + o'.events
  }

  lemma {:induction false} RanOn<E>(g: Rule<E>, p: seq<byte>, events: seq<E>, chunks: seq<seq<byte>>, k: nat,
                                    p': seq<byte>, events': seq<E>)
    requires k < |chunks| && RanTo(g, p, events, chunks, k, p', events')
    ensures var o := ScanChunk(g, p', chunks[k]);
            RanTo(g, p, events, chunks, k + 1, o.rest, events' + o.events)
  {
    assert chunks[k..][0] == chunks[k] && chunks[k..][1..] == chunks[k + 1..];
    var o := ScanChunk(g, p', chunks[k]);
    var later := Run(g, o.rest, chunks[k + 1..]).events;
    assert events' + (o.events + later) == (events' + o.events) + later;
  }

  lemma RanFrom<E>(g: Rule<E>, p: seq<byte>, events: seq<E>, chunks: seq<seq<byte>>)
    ensures RanTo(g, p, events, chunks, 0, p, events)
  {
    assert chunks[0..] == chunks;
  }

  lemma {:induction false} RanAll<E>(g: Rule<E>, p: seq<byte>, events: seq<E>, chunks: seq<seq<byte>>,
                                     p': seq<byte>, events': seq<E>)
    requires RanTo(g, p, events, chunks, |chunks|, p', events')
    ensures var o := Run(g, p, chunks); p' == o.rest && events' == events + o.events
  {
    assert chunks[|chunks|..] == [];
  }

  method RunCoroutine(scanner: SlaveRtuScanner.Scanner, chunks: seq<seq<byte>>)
    requires scanner.Valid() && Chunks(chunks)
    modifies scanner
    ensures scanner.Valid()
    ensures var o := Run(FrameRule(Coroutine, scanner.address), old(scanner.Prefix()), chunks);
            scanner.Prefix() == o.rest && Views(scanner.calls) == old(Views(scanner.calls)) + o.events
  {
    ghost var g, p, events := FrameRule(Coroutine, scanner.address), scanner.Prefix(), Views(scanner.calls);
    RanFrom(g, p, events, chunks);
    for k := 0 to |chunks|
      invariant scanner.Valid() && RanTo(g, p, events, chunks, k, scanner.Prefix(), Views(scanner.calls))
    {
      RanOn(g, p, events, chunks, k, scanner.Prefix(), Views(scanner.calls));
      var input := new Buffer.From(chunks[k]);
      scanner.Scan(input);
    }
    RanAll(g, p, events, chunks, scanner.Prefix(), Views(scanner.calls));
  }

  /** One more chunk for the state classes. */
  method ScanNext(scanner: SlaveRtuOld.Scanner, ghost g: Rule<Event>, ghost p: seq<byte>, ghost events: seq<Event>,
                  chunks: seq<seq<byte>>, k: nat)
    requires scanner.Valid() && g == FrameRule(StateClasses, scanner.address) && k < |chunks| && |chunks[k]| <= BUF_SIZE
    requires RanTo(g, p, events, chunks, k, scanner.Prefix(), Views(scanner.calls))
    modifies scanner
    ensures scanner.Valid() && RanTo(g, p, events, chunks, k + 1, scanner.Prefix(), Views(scanner.calls))
  {
    RanOn(g, p, events, chunks, k, scanner.Prefix(), Views(scanner.calls));
    var input := new Buffer.From(chunks[k]);
    scanner.Scan(input);
  }

  method RunStateClasses(scanner: SlaveRtuOld.Scanner, chunks: seq<seq<byte>>)
    requires scanner.Valid() && Chunks(chunks)
    modifies scanner
    ensures scanner.Valid()
    ensures var o := Run(FrameRule(StateClasses, scanner.address), old(scanner.Prefix()), chunks);
            scanner.Prefix() == o.rest && Views(scanner.calls) == old(Views(scanner.calls)) + o.events
  {
    ghost var g, p, events := FrameRule(StateClasses, scanner.address), scanner.Prefix(), Views(scanner.calls);
    RanFrom(g, p, events, chunks);
    for k := 0 to |chunks|
      invariant scanner.Valid() && RanTo(g, p, events, chunks, k, scanner.Prefix(), Views(scanner.calls))
    {
      ScanNext(scanner, g, p, events, chunks, k);
    }
    RanAll(g, p, events, chunks, scanner.Prefix(), Views(scanner.calls));
  }

  method RunTcp(scanner: SlaveTcpScanner.Scanner, chunks: seq<seq<byte>>)
    requires scanner.Valid() && Chunks(chunks)
    modifies scanner
    ensures scanner.Valid()
    ensures var o := Run(Tcp.FrameRule(scanner.address), old(scanner.frame), chunks);
            scanner.frame == o.rest && Tcp.Views(scanner.calls) == old(Tcp.Views(scanner.calls)) + o.events
  {
    ghost var g, p, events := Tcp.FrameRule(scanner.address), scanner.frame, Tcp.Views(scanner.calls);
    RanFrom(g, p, events, chunks);
    for k := 0 to |chunks|
      invariant scanner.Valid() && RanTo(g, p, events, chunks, k, scanner.frame, Tcp.Views(scanner.calls))
    {
      RanOn(g, p, events, chunks, k, scanner.frame, Tcp.Views(scanner.calls));
      var input := new Buffer.From(chunks[k]);
      scanner.Scan(input);
    }
    RanAll(g, p, events, chunks, scanner.frame, Tcp.Views(scanner.calls));
  }

  // ---------------------------------------------------------------- the theorems, of the objects

  /** Two fresh RTU scanners on the same chunks: what each calls back stands in the input, field by field; and if no
    * byte count of zero is read and the coroutine reports no nonsense, they call back the same requests. */
  method RunBoth(address: byte, uninitialized: PduRecord, chunks: seq<seq<byte>>)
    returns (co: SlaveRtuScanner.Scanner, sc: SlaveRtuOld.Scanner)
    requires Chunks(chunks)
    ensures fresh(co) && fresh(sc) && co.Valid() && sc.Valid()
    ensures var stream, g, h := Flatten(chunks), FrameRule(Coroutine, address), FrameRule(StateClasses, address);
            && CallsStand(Coroutine, address, stream, RunSpans(g, [], chunks, 0), co.calls)
            && CallsStand(StateClasses, address, stream, RunSpans(h, [], chunks, 0), sc.calls)
    ensures Nonsense !in Views(co.calls) && !RtuEquivalence.ReadsZeroCount(address, [], Flatten(chunks)) ==>
              Pdus(Views(co.calls)) == Pdus(Views(sc.calls)) && co.Prefix() == sc.Prefix()
  {
    co := new SlaveRtuScanner.Scanner(address, uninitialized);
    sc := new SlaveRtuOld.Scanner(address, uninitialized);
    RunCoroutine(co, chunks);
    RunStateClasses(sc, chunks);
    ghost var c, f := Run(FrameRule(Coroutine, address), [], chunks), Run(FrameRule(StateClasses, address), [], chunks);
    assert Views(co.calls) == c.events && Views(sc.calls) == f.events;
    CallsStandInInput(Coroutine, address, chunks, co.calls);
    CallsStandInInput(StateClasses, address, chunks, sc.calls);
    AgreeUnlessTold(address, chunks);
  }

  lemma {:induction false} AgreeUnlessTold(a: byte, chunks: seq<seq<byte>>)
    ensures var c, f := Run(FrameRule(Coroutine, a), [], chunks), Run(FrameRule(StateClasses, a), [], chunks);
            Nonsense !in c.events && !RtuEquivalence.ReadsZeroCount(a, [], Flatten(chunks)) ==>
              Pdus(c.events) == Pdus(f.events) && c.rest == f.rest
  {
    if Nonsense !in Run(FrameRule(Coroutine, a), [], chunks).events &&
       !RtuEquivalence.ReadsZeroCount(a, [], Flatten(chunks)) {
      RtuEquivalence.ScannersAgreeOnChunks(a, chunks);
    }
  }

  /** Two fresh RTU scanners on a line of frames and noise, cut anywhere: both call back exactly the requests sent. */
  method DeliverLine(address: byte, uninitialized: PduRecord, ghost items: seq<Item>, chunks: seq<seq<byte>>)
    returns (co: SlaveRtuScanner.Scanner, sc: SlaveRtuOld.Scanner)
    requires Chunks(chunks) && Flatten(chunks) == Flatten(Line(address, items))
    requires forall i :: 0 <= i < |items| ==> Framed(StateClasses, address, items[i])
    ensures fresh(co) && fresh(sc) && co.Valid() && sc.Valid()
    ensures Pdus(Views(co.calls)) == Pdus(Views(sc.calls)) == Requests(items)
    ensures Nonsense !in Views(co.calls) && Nonsense !in Views(sc.calls) && co.Prefix() == sc.Prefix() == []
  {
    co := new SlaveRtuScanner.Scanner(address, uninitialized);
    sc := new SlaveRtuOld.Scanner(address, uninitialized);
    RunCoroutine(co, chunks);
    RunStateClasses(sc, chunks);
    AllRequestsDelivered(Coroutine, address, items, chunks);
    AllRequestsDelivered(StateClasses, address, items, chunks);
    assert Views(co.calls) == Run(FrameRule(Coroutine, address), [], chunks).events;
    assert Views(sc.calls) == Run(FrameRule(StateClasses, address), [], chunks).events;
  }

  /** A fresh TCP scanner: what it calls back stands in the input, transaction id and fields. */
  method RunFreshTcp(address: byte, uninitialized: PduRecord, chunks: seq<seq<byte>>)
    returns (scanner: SlaveTcpScanner.Scanner)
    requires Chunks(chunks)
    ensures fresh(scanner) && scanner.Valid()
    ensures TcpCallsStand(address, Flatten(chunks), RunSpans(Tcp.FrameRule(address), [], chunks, 0), scanner.calls)
  {
    scanner := new SlaveTcpScanner.Scanner(address, uninitialized);
    RunTcp(scanner, chunks);
    assert Tcp.Views(scanner.calls) == Run(Tcp.FrameRule(address), [], chunks).events;
    TcpCallsStandInInput(address, chunks, scanner.calls);
  }

  /** A fresh TCP scanner on frames for its unit id, cut anywhere, calls back exactly their requests. */
  method DeliverFrames(address: byte, uninitialized: PduRecord, ghost us: seq<Tcp.Adu>, chunks: seq<seq<byte>>)
    returns (scanner: SlaveTcpScanner.Scanner)
    requires Chunks(chunks) && Flatten(chunks) == Flatten(Tcp.Frames(address, us))
    requires forall i :: 0 <= i < |us| ==> Tcp.WellFormedAdu(us[i]) && !ZeroCount(us[i].request)
    ensures fresh(scanner) && scanner.Valid()
    ensures Tcp.Views(scanner.calls) == Tcp.Events(us) && scanner.frame == []
  {
    scanner := new SlaveTcpScanner.Scanner(address, uninitialized);
    RunTcp(scanner, chunks);
    Tcp.AllFramesDelivered(address, us, chunks);
    assert Tcp.Views(scanner.calls) == Run(Tcp.FrameRule(address), [], chunks).events;
  }
}
