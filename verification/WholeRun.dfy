/** From the bytes that arrive, however they are cut into chunks, to the memory left behind and everything sent back.
  *
  * The server begins its next read only after an answer has been written, so a chunk that completes no request uses a
  * read up without replacing it, and when none is left the server reads no more. */
module WholeRun {
  import opened Bytes
  import opened Crc
  import opened Framing
  import opened ModbusMemory
  import opened Pdu
  import opened PlainTerms
  import opened Rtu
  import opened RtuServer
  import opened WireFormat

  /** Reading one chunk after another, while a read is pending. */
  function HandleAll(a: byte, s: Server, chunks: seq<seq<byte>>): (s': Server)
    requires Total(s.memory)
    ensures Total(s'.memory)
    decreases |chunks|
  {
    if chunks == [] || s.pendingReads == 0 then s else HandleAll(a, Handle(a, s, chunks[0]), chunks[1..])
  }

  /** How many of the chunks are read. */
  function ReadCount(a: byte, s: Server, chunks: seq<seq<byte>>): (n: nat)
    requires Total(s.memory)
    ensures n <= |chunks|
    decreases |chunks|
  {
    if chunks == [] || s.pendingReads == 0 then 0 else 1 + ReadCount(a, Handle(a, s, chunks[0]), chunks[1..])
  }

  /** The requests a run completes. */
  function Completed(a: byte, p: seq<byte>, chunks: seq<seq<byte>>): seq<Request> {
    Pdus(Run(FrameRule(Coroutine, a), p, chunks).events)
  }

  /** For each of them, the chunk that completes it. */
  function Completers(a: byte, p: seq<byte>, chunks: seq<seq<byte>>): seq<seq<byte>>
    decreases |chunks|
  {
    if chunks == [] then [] else
    seq(|Arriving(a, p, chunks[0])|, _ => chunks[0]) +
    Completers(a, ScanChunk(FrameRule(Coroutine, a), p, chunks[0]).rest, chunks[1..])
  }

  lemma {:induction false} CompletedStep(a: byte, p: seq<byte>, chunks: seq<seq<byte>>)
    requires chunks != []
    ensures var rest := ScanChunk(FrameRule(Coroutine, a), p, chunks[0]).rest;
            Completed(a, p, chunks) == Arriving(a, p, chunks[0]) + Completed(a, rest, chunks[1..])
  {
    var o := ScanChunk(FrameRule(Coroutine, a), p, chunks[0]);
    PdusConcat(o.events, Run(FrameRule(Coroutine, a), o.rest, chunks[1..]).events);
  }

  /** The chunk that completes request k is the one with which the number of completed requests passes k. */
  lemma {:induction false} CompleterAt(a: byte, p: seq<byte>, chunks: seq<seq<byte>>, k: nat) returns (j: nat)
    requires k < |Completed(a, p, chunks)|
    ensures |Completers(a, p, chunks)| == |Completed(a, p, chunks)|
    ensures j < |chunks| && Completers(a, p, chunks)[k] == chunks[j]
    ensures |Completed(a, p, chunks[..j])| <= k < |Completed(a, p, chunks[..j + 1])|
    decreases |chunks|
  {
    var rest, n := ScanChunk(FrameRule(Coroutine, a), p, chunks[0]).rest, |Arriving(a, p, chunks[0])|;
    CompletedStep(a, p, chunks);
    CompletersCount(a, rest, chunks[1..]);
    if k < n {
      j := 0;
      FirstCompleter(a, p, chunks, k);
    } else {
      var i := CompleterAt(a, rest, chunks[1..], k - n);
      j := i + 1;
      CompletedBeginning(a, p, chunks, i);
      CompletedBeginning(a, p, chunks, j);
      LaterCompleter(a, p, chunks, k);
    }
  }

  lemma {:induction false} FirstCompleter(a: byte, p: seq<byte>, chunks: seq<seq<byte>>, k: nat)
    requires chunks != [] && k < |Arriving(a, p, chunks[0])|
    ensures k < |Completers(a, p, chunks)| && Completers(a, p, chunks)[k] == chunks[0]
    ensures |Completed(a, p, chunks[..0])| == 0 && k < |Completed(a, p, chunks[..1])|
  {
    CompletedStep(a, p, chunks[..1]);
  }

  lemma {:induction false} LaterCompleter(a: byte, p: seq<byte>, chunks: seq<seq<byte>>, k: nat)
    requires chunks != [] && |Arriving(a, p, chunks[0])| <= k < |Completers(a, p, chunks)|
    ensures var later := Completers(a, ScanChunk(FrameRule(Coroutine, a), p, chunks[0]).rest, chunks[1..]);
            var i := k - |Arriving(a, p, chunks[0])|;
            i < |later| && Completers(a, p, chunks)[k] == later[i]
  {
  }

  lemma {:induction false} CompletedBeginning(a: byte, p: seq<byte>, chunks: seq<seq<byte>>, i: nat)
    requires i < |chunks|
    ensures var rest := ScanChunk(FrameRule(Coroutine, a), p, chunks[0]).rest;
            |Completed(a, p, chunks[..i + 1])| == |Arriving(a, p, chunks[0])| + |Completed(a, rest, chunks[1..][..i])|
  {
    CompletedStep(a, p, chunks[..i + 1]);
    assert chunks[..i + 1][1..] == chunks[1..][..i];
  }

  lemma {:induction false} CompletersCount(a: byte, p: seq<byte>, chunks: seq<seq<byte>>)
    ensures |Completers(a, p, chunks)| == |Completed(a, p, chunks)|
    decreases |chunks|
  {
    if chunks != [] {
      CompletedStep(a, p, chunks);
      CompletersCount(a, ScanChunk(FrameRule(Coroutine, a), p, chunks[0]).rest, chunks[1..]);
    }
  }

  lemma {:induction false} HandleAllStep(a: byte, s: Server, c: seq<byte>, chunks: seq<seq<byte>>)
    requires Total(s.memory) && s.pendingReads > 0
    ensures HandleAll(a, s, [c] + chunks) == HandleAll(a, Handle(a, s, c), chunks)
  {
    assert ([c] + chunks)[1..] == chunks;
  }

  /** Reading some chunks and then others. */
  lemma {:induction false} HandleAllConcat(a: byte, s: Server, chunks: seq<seq<byte>>, more: seq<seq<byte>>)
    requires Total(s.memory)
    ensures HandleAll(a, s, chunks + more) == HandleAll(a, HandleAll(a, s, chunks), more)
    decreases |chunks|
  {
    if chunks == [] {
      assert chunks + more == more;
    } else if s.pendingReads > 0 {
      assert (chunks + more)[1..] == chunks[1..] + more;
      HandleAllConcat(a, Handle(a, s, chunks[0]), chunks[1..], more);
    }
  }

  // ---------------------------------------------------------------- memory

  /** Memory after some requests, one after another. */
  function MemoryAfter(m: Memory, rs: seq<Request>): (m': Memory)
    requires Total(m)
    ensures Total(m')
    decreases |rs|
  {
    if rs == [] then m else MemoryAfter(Apply(m, rs[0]), rs[1..])
  }

  lemma {:induction false} MemoryAfterConcat(m: Memory, s: seq<Request>, t: seq<Request>)
    requires Total(m)
    ensures MemoryAfter(m, s + t) == MemoryAfter(MemoryAfter(m, s), t)
    decreases |s|
  {
    if s == [] {
      assert s + t == t;
    } else {
      assert (s + t)[1..] == s[1..] + t;
      MemoryAfterConcat(Apply(m, s[0]), s[1..], t);
    }
  }

  // ---------------------------------------------------------------- every request is answered

  /** The answers to requests that came with the given chunks, each from memory as the requests up to it left it. */
  function Answers(a: byte, m: Memory, rs: seq<Request>, cs: seq<seq<byte>>): seq<Sent>
    requires Total(m) && |cs| == |rs|
    decreases |rs|
  {
    if rs == [] then [] else
    [Answer(a, Apply(m, rs[0]), rs[0], cs[0])] + Answers(a, Apply(m, rs[0]), rs[1..], cs[1..])
  }

  lemma {:induction false} AnswersConcat(a: byte, m: Memory, rs: seq<Request>, cs: seq<seq<byte>>,
                                         rs': seq<Request>, cs': seq<seq<byte>>)
    requires Total(m) && |cs| == |rs| && |cs'| == |rs'|
    ensures Answers(a, m, rs + rs', cs + cs') == Answers(a, m, rs, cs) + Answers(a, MemoryAfter(m, rs), rs', cs')
    decreases |rs|
  {
    if rs == [] {
      assert rs + rs' == rs' && cs + cs' == cs';
    } else {
      assert (rs + rs')[1..] == rs[1..] + rs' && (cs + cs')[1..] == cs[1..] + cs';
      AnswersConcat(a, Apply(m, rs[0]), rs[1..], cs[1..], rs', cs');
    }
  }

  lemma {:induction false} AnswersAt(a: byte, m: Memory, rs: seq<Request>, cs: seq<seq<byte>>, k: nat)
    requires Total(m) && |cs| == |rs| && k < |rs|
    ensures |Answers(a, m, rs, cs)| == |rs|
    ensures Answers(a, m, rs, cs)[k] == Answer(a, MemoryAfter(m, rs[..k + 1]), rs[k], cs[k])
    decreases |rs|
  {
    assert rs[..k + 1][1..] == rs[1..][..k];
    if k > 0 {
      AnswersAt(a, Apply(m, rs[0]), rs[1..], cs[1..], k - 1);
    } else if |rs| > 1 {
      AnswersAt(a, Apply(m, rs[0]), rs[1..], cs[1..], 0);
    }
  }

  /** From s to s' the requests rs, which came with the chunks cs, were served, and nothing else was done to memory or
    * sent. */
  predicate Served(a: byte, s: Server, rs: seq<Request>, cs: seq<seq<byte>>, s': Server)
    requires Total(s.memory)
  {
    && |cs| == |rs| && s'.memory == MemoryAfter(s.memory, rs)
    && s'.sent == s.sent + Answers(a, s.memory, rs, cs)
  }

  lemma ServedConcat(a: byte, s: Server, rs: seq<Request>, cs: seq<seq<byte>>, s': Server,
                     rs': seq<Request>, cs': seq<seq<byte>>, s'': Server)
    requires Total(s.memory) && Served(a, s, rs, cs, s') && Served(a, s', rs', cs', s'')
    ensures Served(a, s, rs + rs', cs + cs', s'')
  {
    MemoryAfterConcat(s.memory, rs, rs');
    AnswersConcat(a, s.memory, rs, cs, rs', cs');
  }

  lemma ServeOne(a: byte, s: Server, chunk: seq<byte>, r: Request)
    requires Total(s.memory)
    ensures Served(a, s, [r], [chunk], Serve(a, s, chunk, r))
  {
    assert [r][1..] == [] && [chunk][1..] == [];
  }

  lemma {:induction false} ServeAllServed(a: byte, s: Server, chunk: seq<byte>, rs: seq<Request>)
    requires Total(s.memory)
    ensures var s' := ServeAll(a, s, chunk, rs);
            Served(a, s, rs, seq(|rs|, _ => chunk), s') && s'.pendingReads == s.pendingReads + |rs|
    decreases |rs|
  {
    if rs != [] {
      var s', cs := Serve(a, s, chunk, rs[0]), seq(|rs| - 1, _ => chunk);
      ServeOne(a, s, chunk, rs[0]);
      ServeAllServed(a, s', chunk, rs[1..]);
      ServedConcat(a, s, [rs[0]], [chunk], s', rs[1..], cs, ServeAll(a, s', chunk, rs[1..]));
      assert [rs[0]] + rs[1..] == rs && [chunk] + cs == seq(|rs|, _ => chunk);
    }
  }

  lemma {:induction false} ScannedAs(a: byte, s: Server, chunk: seq<byte>, o: Outcome<Event>)
    requires Total(s.memory) && ScanChunk(FrameRule(Coroutine, a), s.rest, chunk) == o
    ensures Scanned(a, s, chunk) == ServeAll(a, s.(rest := o.rest), chunk, Pdus(o.events))
  {
  }

  lemma {:induction false} HandleServed(a: byte, s: Server, chunk: seq<byte>)
    requires Total(s.memory) && s.pendingReads > 0
    ensures var rs, s' := Arriving(a, s.rest, chunk), Handle(a, s, chunk);
            && Served(a, s, rs, seq(|rs|, _ => chunk), s')
            && s'.rest == ScanChunk(FrameRule(Coroutine, a), s.rest, chunk).rest
            && s'.pendingReads + 1 == s.pendingReads + |rs|
  {
    var o, s' := ScanChunk(FrameRule(Coroutine, a), s.rest, chunk), s.(pendingReads := s.pendingReads - 1);
    ScannedAs(a, s', chunk, o);
    ServeAllServed(a, s'.(rest := o.rest), chunk, Pdus(o.events));
  }

  /** From s to s' the chunks were read, the requests they complete were served, and a read was begun for each. */
  ghost predicate ReadThrough(a: byte, s: Server, chunks: seq<seq<byte>>, s': Server)
    requires Total(s.memory)
  {
    && s'.rest == Run(FrameRule(Coroutine, a), s.rest, chunks).rest
    && Served(a, s, Completed(a, s.rest, chunks), Completers(a, s.rest, chunks), s')
    && s'.pendingReads + |chunks| == s.pendingReads + |Completed(a, s.rest, chunks)|
  }

  lemma ReadOneMore(a: byte, s: Server, c: seq<byte>, chunks: seq<seq<byte>>, s': Server)
    requires Total(s.memory) && s.pendingReads > 0 && ReadThrough(a, Handle(a, s, c), chunks, s')
    ensures ReadThrough(a, s, [c] + chunks, s')
  {
    var read, t := [c] + chunks, Handle(a, s, c);
    assert read[0] == c && read[1..] == chunks;
    HandleServed(a, s, c);
    CompletedStep(a, s.rest, read);
    var rs := Arriving(a, s.rest, c);
    ServedConcat(a, s, rs, seq(|rs|, _ => c), t, Completed(a, t.rest, chunks), Completers(a, t.rest, chunks), s');
  }

  /** Whatever bytes arrive in whatever chunks, the server does exactly what the requests among those it reads ask for,
    * and its pending reads are those it had, less the chunks read, and one for each request served. */
  lemma {:induction false} ServesWhatItReads(a: byte, s: Server, chunks: seq<seq<byte>>)
    requires Total(s.memory)
    ensures var n, s' := ReadCount(a, s, chunks), HandleAll(a, s, chunks);
            ReadThrough(a, s, chunks[..n], s') && (n < |chunks| ==> s'.pendingReads == 0)
    decreases |chunks|
  {
    if chunks != [] && s.pendingReads > 0 {
      var s' := Handle(a, s, chunks[0]);
      var n := ReadCount(a, s', chunks[1..]);
      ServesWhatItReads(a, s', chunks[1..]);
      ReadOneMore(a, s, chunks[0], chunks[1..][..n], HandleAll(a, s', chunks[1..]));
      assert chunks[..n + 1] == [chunks[0]] + chunks[1..][..n];
    } else {
      assert chunks[..0] == [];
    }
  }

  /** Exactly when a chunk is read: when the chunks before it, and any fewer of them, complete so many requests that
    * with the reads pending at the start there are more than those chunks used up. */
  lemma {:induction false} ChunkIsRead(a: byte, s: Server, chunks: seq<seq<byte>>, i: nat)
    requires Total(s.memory) && i < |chunks|
    ensures i < ReadCount(a, s, chunks) <==>
            forall j :: 0 <= j <= i ==> j < s.pendingReads + |Completed(a, s.rest, chunks[..j])|
    decreases |chunks|
  {
    assert |Completed(a, s.rest, chunks[..0])| == 0;
    if s.pendingReads > 0 {
      var c, s' := chunks[0], Handle(a, s, chunks[0]);
      HandleServed(a, s, c);
      forall j | 0 < j <= i
        ensures |Completed(a, s.rest, chunks[..j])| ==
                |Arriving(a, s.rest, c)| + |Completed(a, s'.rest, chunks[1..][..j - 1])|
      {
        assert chunks[..j][1..] == chunks[1..][..j - 1];
        CompletedStep(a, s.rest, chunks[..j]);
      }
      if i > 0 {
        ChunkIsRead(a, s', chunks[1..], i - 1);
        if i < ReadCount(a, s, chunks) {
          forall j | 0 <= j <= i
            ensures j < s.pendingReads + |Completed(a, s.rest, chunks[..j])|
          {
            assert j > 0 ==> j - 1 < s'.pendingReads + |Completed(a, s'.rest, chunks[1..][..j - 1])|;
          }
        } else {
          var j :| 0 <= j <= i - 1 && j >= s'.pendingReads + |Completed(a, s'.rest, chunks[1..][..j])|;
          assert j + 1 >= s.pendingReads + |Completed(a, s.rest, chunks[..j + 1])|;
        }
      }
    }
  }

  /** The whole chain: of well-formed frames with noise between them, cut into chunks anywhere, the server serves
    * those that the chunks it reads complete: the first ones, in order, each answered from the memory it left.  If it
    * reads all chunks it serves all; and it does that exactly if no beginning of them uses the reads up. */
  lemma {:induction false} LineServed(a: byte, s: Server, items: seq<Item>, chunks: seq<seq<byte>>)
    requires Total(s.memory) && s.rest == []
    requires forall i :: 0 <= i < |items| ==> Framed(Coroutine, a, items[i])
    requires Flatten(chunks) == Flatten(Line(a, items))
    ensures var n, s' := ReadCount(a, s, chunks), HandleAll(a, s, chunks);
            var rs := Completed(a, [], chunks[..n]);
            && rs <= Requests(items) && Served(a, s, rs, Completers(a, [], chunks[..n]), s')
            && (n == |chunks| ==> rs == Requests(items) && s'.rest == [])
    ensures ReadCount(a, s, chunks) == |chunks| <==>
            forall j :: 0 <= j < |chunks| ==> j < s.pendingReads + |Completed(a, [], chunks[..j])|
  {
    var n := ReadCount(a, s, chunks);
    AllRequestsDelivered(Coroutine, a, items, chunks);
    ServesWhatItReads(a, s, chunks);
    BeginningCompletes(a, [], chunks, n);
    if n == |chunks| {
      assert chunks[..n] == chunks;
    }
    if chunks != [] {
      ChunkIsRead(a, s, chunks, |chunks| - 1);
    }
  }

  // What a beginning of the chunks completes comes first.
  lemma BeginningCompletes(a: byte, p: seq<byte>, chunks: seq<seq<byte>>, n: nat)
    requires n <= |chunks|
    ensures Completed(a, p, chunks[..n]) <= Completed(a, p, chunks)
  {
    var g := FrameRule(Coroutine, a);
    assert chunks == chunks[..n] + chunks[n..];
    RunConcat(g, p, chunks[..n], chunks[n..]);
    var o := Run(g, p, chunks[..n]);
    PdusConcat(o.events, Run(g, o.rest, chunks[n..]).events);
  }

  /** Of what is sent while requests rs are served, the k-th is the reply that memory calls for just after the k-th
    * request, which fits the output buffer, begins with the address and function code and passes the checksum test; or
    * else, for functions 5 and 6, it is the chunk that completed the request, whatever else came with that chunk. */
  lemma EachAnswered(a: byte, s: Server, rs: seq<Request>, cs: seq<seq<byte>>, s': Server, k: nat)
    requires Total(s.memory) && Served(a, s, rs, cs, s') && AllServable(rs) && k < |rs|
    ensures |s'.sent| == |s.sent| + |rs|
    ensures var m', out := MemoryAfter(s.memory, rs[..k + 1]), s'.sent[|s.sent| + k];
            match Reply(a, m', rs[k])
            case None => (rs[k].fc == 5 || rs[k].fc == 6) && out == Mirrored(cs[k])
            case Some(bytes) =>
              && out == Replied(bytes) && 5 <= |bytes| <= BUF_SIZE
              && bytes[0] == a && bytes[1] == FcOf(rs[k]) && Accepted(bytes)
  {
    AnswersAt(a, s.memory, rs, cs, k);
    assert s'.sent[|s.sent| + k] == Answers(a, s.memory, rs, cs)[k];
    var m' := MemoryAfter(s.memory, rs[..k + 1]);
    if Reply(a, m', rs[k]).Some? {
      ReplyWellFormed(a, m', rs[k]);
    }
  }

  // ---------------------------------------------------------------- the server object

  /** If all requests of a run are servable, so are those each chunk of it completes, and those after it. */
  lemma {:induction false} ServableThroughout(a: byte, p: seq<byte>, before: seq<seq<byte>>, chunk: seq<byte>,
                                              after: seq<seq<byte>>)
    requires AllServable(Completed(a, p, before + [chunk] + after))
    ensures var rest := Run(FrameRule(Coroutine, a), p, before).rest;
            && AllServable(Arriving(a, rest, chunk))
            && AllServable(Completed(a, ScanChunk(FrameRule(Coroutine, a), rest, chunk).rest, after))
    decreases |before|
  {
    var chunks := before + [chunk] + after;
    var rest := ScanChunk(FrameRule(Coroutine, a), p, chunks[0]).rest;
    var first, later := Arriving(a, p, chunks[0]), Completed(a, rest, chunks[1..]);
    CompletedStep(a, p, chunks);
    AllServableParts(first, later);
    if before != [] {
      assert chunks[1..] == before[1..] + [chunk] + after;
      ServableThroughout(a, rest, before[1..], chunk, after);
    } else {
      assert chunks[1..] == after;
    }
  }

  lemma AllServableParts(s: seq<Request>, t: seq<Request>)
    requires AllServable(s + t)
    ensures AllServable(s) && AllServable(t)
  {
    assert forall i :: 0 <= i < |s| ==> (s + t)[i] == s[i];
    assert forall i :: 0 <= i < |t| ==> (s + t)[|s| + i] == t[i];
  }

  /** From state t on, the chunks from the k-th on are servable and lead where the whole run leads. */
  ghost predicate ServingTo(a: byte, s: Server, chunks: seq<seq<byte>>, k: nat, t: Server)
    requires Total(s.memory) && Total(t.memory) && k <= |chunks|
  {
    && AllServable(Completed(a, t.rest, chunks[k..]))
    && HandleAll(a, t, chunks[k..]) == HandleAll(a, s, chunks)
  }

  lemma ServingFrom(a: byte, s: Server, chunks: seq<seq<byte>>)
    requires Total(s.memory) && AllServable(Completed(a, s.rest, chunks))
    ensures ServingTo(a, s, chunks, 0, s)
  {
    assert chunks[0..] == chunks;
  }

  lemma ServingOn(a: byte, s: Server, chunks: seq<seq<byte>>, k: nat, t: Server)
    requires Total(s.memory) && Total(t.memory) && k < |chunks| && t.pendingReads > 0
    requires ServingTo(a, s, chunks, k, t)
    ensures AllServable(Arriving(a, t.rest, chunks[k])) && ServingTo(a, s, chunks, k + 1, Handle(a, t, chunks[k]))
  {
    assert chunks[k..] == [] + [chunks[k]] + chunks[k + 1..];
    assert chunks[k..][0] == chunks[k] && chunks[k..][1..] == chunks[k + 1..];
    ServableThroughout(a, t.rest, [], chunks[k], chunks[k + 1..]);
    HandleServed(a, t, chunks[k]);
  }

  lemma {:induction false} ServingEnds(a: byte, s: Server, chunks: seq<seq<byte>>, k: nat, t: Server)
    requires Total(s.memory) && Total(t.memory) && k <= |chunks| && ServingTo(a, s, chunks, k, t)
    requires k == |chunks| || t.pendingReads == 0
    ensures t == HandleAll(a, s, chunks)
  {
  }

  /** One read: the bytes arrive and the handler is called. */
  method ReadChunk(h: DataHandler, chunk: seq<byte>)
    requires h.Valid() && h.pendingReads > 0 && 0 < |chunk| <= BUF_SIZE
    requires AllServable(Arriving(h.devAddress, h.scanner.Prefix(), chunk))
    modifies h, h.scanner, h.input, h.input.data, h.output, h.output.data
    ensures h.Valid() && h.Abstract() == Handle(h.devAddress, old(h.Abstract()), chunk)
  {
    h.input.Receive(chunk);
    h.HandleRead(false, |chunk|);
  }

  /** One more read of a run. */
  method ReadNext(h: DataHandler, ghost s: Server, chunks: seq<seq<byte>>, k: nat)
    requires h.Valid() && h.pendingReads > 0 && k < |chunks| && 0 < |chunks[k]| <= BUF_SIZE
    requires Total(s.memory) && ServingTo(h.devAddress, s, chunks, k, h.Abstract())
    modifies h, h.scanner, h.input, h.input.data, h.output, h.output.data
    ensures h.Valid() && ServingTo(h.devAddress, s, chunks, k + 1, h.Abstract())
  {
    ServingOn(h.devAddress, s, chunks, k, h.Abstract());
    ReadChunk(h, chunks[k]);
  }

  /** Read chunks from the k-th on while there are any and a read is pending. */
  method ReadOn(h: DataHandler, ghost s: Server, chunks: seq<seq<byte>>, k: nat) returns (n: nat)
    requires h.Valid() && forall i :: 0 <= i < |chunks| ==> 0 < |chunks[i]| <= BUF_SIZE
    requires Total(s.memory) && k <= |chunks| && ServingTo(h.devAddress, s, chunks, k, h.Abstract())
    modifies h, h.scanner, h.input, h.input.data, h.output, h.output.data
    ensures h.Valid() && n <= |chunks| && (n == |chunks| || h.pendingReads == 0)
    ensures ServingTo(h.devAddress, s, chunks, n, h.Abstract())
    decreases |chunks| - k
  {
    n := k;
    if k < |chunks| && h.pendingReads > 0 {
      ReadNext(h, s, chunks, k);
      n := ReadOn(h, s, chunks, k + 1);
    }
  }

  /** Running the server over chunks as they arrive, as long as it has a read pending. */
  method RunServer(h: DataHandler, chunks: seq<seq<byte>>)
    requires h.Valid() && forall i :: 0 <= i < |chunks| ==> 0 < |chunks[i]| <= BUF_SIZE
    requires AllServable(Completed(h.devAddress, h.scanner.Prefix(), chunks))
    modifies h, h.scanner, h.input, h.input.data, h.output, h.output.data
    ensures h.Valid() && h.Abstract() == HandleAll(h.devAddress, old(h.Abstract()), chunks)
  {
    ghost var s := h.Abstract();
    ServingFrom(h.devAddress, s, chunks);
    var k := ReadOn(h, s, chunks, 0);
    ServingEnds(h.devAddress, s, chunks, k, h.Abstract());
  }

  /** A new server for the given address, started and fed a line of frames and noise, cut anywhere.  It serves, from
    * blank memory and in order, the requests that the chunks it reads complete.  It reads all chunks, and so leaves
    * memory as all requests make it and has answered each, exactly if the chunks before each one complete as many
    * requests. */
  method ServeLine(address: byte, uninitialized: PduRecord, ghost items: seq<Item>, chunks: seq<seq<byte>>)
    returns (h: DataHandler)
    requires forall i :: 0 <= i < |chunks| ==> 0 < |chunks[i]| <= BUF_SIZE
    requires forall i :: 0 <= i < |items| ==> Framed(Coroutine, address, items[i])
    requires Flatten(chunks) == Flatten(Line(address, items)) && AllServable(Requests(items))
    ensures fresh(h) && h.Valid() && h.devAddress == address
    ensures var n := ReadCount(address, Server([], Blank(), [], 1), chunks);
            var rs, cs := Completed(address, [], chunks[..n]), Completers(address, [], chunks[..n]);
            && rs <= Requests(items) && |cs| == |rs|
            && h.Mem() == MemoryAfter(Blank(), rs) && h.sent == Answers(address, Blank(), rs, cs)
            && (n == |chunks| <==> forall j :: 0 <= j < |chunks| ==> j <= |Completed(address, [], chunks[..j])|)
            && (n == |chunks| ==> rs == Requests(items))
            && (forall x: u16 :: (forall k :: 0 <= k < |rs| ==> RegWritten(rs[k], x).None?) ==> h.Mem().regs[x] == 0)
            && (forall x: u16 :: (forall k :: 0 <= k < |rs| ==> CoilWritten(rs[k], x).None?) ==> !h.Mem().coils[x])
  {
    h := new DataHandler(address, uninitialized);
    var ok := h.Start(true);
    ghost var s := h.Abstract();
    LineServed(address, s, items, chunks);
    AllRequestsDelivered(Coroutine, address, items, chunks);
    RunServer(h, chunks);
    FromStart(address, s, h.Abstract(), chunks);
    UntouchedIsZero(Completed(address, [], chunks[..ReadCount(address, s, chunks)]));
  }

  /** What no request writes stays zero and off. */
  lemma {:induction false} UntouchedIsZero(rs: seq<Request>)
    ensures forall x: u16 :: (forall k :: 0 <= k < |rs| ==> RegWritten(rs[k], x).None?) ==>
              MemoryAfter(Blank(), rs).regs[x] == 0
    ensures forall x: u16 :: (forall k :: 0 <= k < |rs| ==> CoilWritten(rs[k], x).None?) ==>
              !MemoryAfter(Blank(), rs).coils[x]
  {
    forall x: u16
      ensures (forall k :: 0 <= k < |rs| ==> RegWritten(rs[k], x).None?) ==> MemoryAfter(Blank(), rs).regs[x] == 0
      ensures (forall k :: 0 <= k < |rs| ==> CoilWritten(rs[k], x).None?) ==> !MemoryAfter(Blank(), rs).coils[x]
    {
      LastWriteWins(Blank(), rs, x);
      assert forall k :: 0 <= k < |rs| ==> RegWrites(rs, x)[k] == RegWritten(rs[k], x);
      assert forall k :: 0 <= k < |rs| ==> CoilWrites(rs, x)[k] == CoilWritten(rs[k], x);
    }
  }

  // A server that starts with nothing sent and one read pending has sent the answers only.
  lemma {:induction false} FromStart(a: byte, s: Server, s': Server, chunks: seq<seq<byte>>)
    requires s == Server([], Blank(), [], 1) && s' == HandleAll(a, s, chunks)
    ensures var read := chunks[..ReadCount(a, s, chunks)];
            var rs, cs := Completed(a, [], read), Completers(a, [], read);
            |cs| == |rs| && s'.memory == MemoryAfter(Blank(), rs) && s'.sent == Answers(a, Blank(), rs, cs)
  {
    ServesWhatItReads(a, s, chunks);
    var read := chunks[..ReadCount(a, s, chunks)];
    assert [] + Answers(a, Blank(), Completed(a, [], read), Completers(a, [], read)) ==
           Answers(a, Blank(), Completed(a, [], read), Completers(a, [], read));
  }

  // ---------------------------------------------------------------- what memory remembers

  /** What a write of q registers from start on puts at x. */
  function RegInWindow(start: u16, q: nat, data: seq<byte>, x: u16): Option<u16> {
    var d := Distance(start, x);
    if d < q && 2 * d + 1 < |data| then Some(Combine(data[2 * d], data[2 * d + 1])) else None
  }

  function RegWritten(r: Request, x: u16): Option<u16> {
    match r
    case Simple(fc, address, value) => if fc == 6 && address == x then Some(value) else None
    case WriteMany(fc, start, q, _, data) => if fc == 15 then None else RegInWindow(start, q, data, x)
    case ReadWrite(_, _, start, q, _, data) => RegInWindow(start, q, data, x)
  }

  function CoilWritten(r: Request, x: u16): Option<bool> {
    match r
    case Simple(fc, address, value) => if fc == 5 && address == x then Some(value != 0) else None
    case WriteMany(fc, start, q, _, data) =>
      var d := Distance(start, x);
      if fc == 15 && d < q && d < 8 * |data| then Some(Bit(data[d / 8], d % 8)) else None
    case ReadWrite(_, _, _, _, _, _) => None
  }

  /** The value v is what the last of the writes left, or the initial value if there was none. */
  ghost predicate IsLast<T>(writes: seq<Option<T>>, initial: T, v: T) {
    || (v == initial && forall j :: 0 <= j < |writes| ==> writes[j].None?)
    || (exists k :: 0 <= k < |writes| && writes[k] == Some(v) && forall j :: k < j < |writes| ==> writes[j].None?)
  }

  lemma LastOfMore<T>(w: Option<T>, writes: seq<Option<T>>, initial: T, v: T)
    requires IsLast(writes, if w.Some? then w.value else initial, v)
    ensures IsLast([w] + writes, initial, v)
  {
    var all := [w] + writes;
    assert forall j :: 0 <= j < |writes| ==> all[j + 1] == writes[j];
    if k :| 0 <= k < |writes| && writes[k] == Some(v) && forall j :: k < j < |writes| ==> writes[j].None? {
      assert all[k + 1] == Some(v);
      assert forall j :: k + 1 < j < |all| ==> all[j] == writes[j - 1];
    } else {
      assert forall j :: 0 < j < |all| ==> all[j] == writes[j - 1];
      if w.Some? {
        assert all[0] == Some(v);
      }
    }
  }

  function RegWrites(rs: seq<Request>, x: u16): seq<Option<u16>> {
    seq(|rs|, k requires 0 <= k < |rs| => RegWritten(rs[k], x))
  }

  function CoilWrites(rs: seq<Request>, x: u16): seq<Option<bool>> {
    seq(|rs|, k requires 0 <= k < |rs| => CoilWritten(rs[k], x))
  }

  /** After any requests, every register and every coil holds what was last written to it. */
  lemma {:induction false} LastWriteWins(m: Memory, rs: seq<Request>, x: u16)
    requires Total(m)
    ensures IsLast(RegWrites(rs, x), m.regs[x], MemoryAfter(m, rs).regs[x])
    ensures IsLast(CoilWrites(rs, x), m.coils[x], MemoryAfter(m, rs).coils[x])
    decreases |rs|
  {
    if rs != [] {
      var m' := Apply(m, rs[0]);
      LastWriteWins(m', rs[1..], x);
      LastOfMore(RegWritten(rs[0], x), RegWrites(rs[1..], x), m.regs[x], MemoryAfter(m, rs).regs[x]);
      LastOfMore(CoilWritten(rs[0], x), CoilWrites(rs[1..], x), m.coils[x], MemoryAfter(m, rs).coils[x]);
      assert RegWrites(rs, x) == [RegWritten(rs[0], x)] + RegWrites(rs[1..], x);
      assert CoilWrites(rs, x) == [CoilWritten(rs[0], x)] + CoilWrites(rs[1..], x);
    }
  }

  /** In the reply to a request for registers - functions 3, 4 and 23 - every word is what was last written to its
    * address by the requests served so far, the one replied to included, or what was there at the start. */
  lemma {:induction false} RegsReadAreLastWritten(a: byte, m: Memory, rs: seq<Request>, k: nat, i: nat)
    requires Total(m) && k < |rs| && (rs[k].ReadWrite? || (rs[k].Simple? && (rs[k].fc == 3 || rs[k].fc == 4)))
    requires i < if rs[k].ReadWrite? then rs[k].readQuantity else rs[k].value
    ensures var reply := Reply(a, MemoryAfter(m, rs[..k + 1]), rs[k]);
            var x := Address(if rs[k].ReadWrite? then rs[k].readStart else rs[k].address, i);
            && reply.Some? && |reply.value| > 4 + 2 * i
            && IsLast(RegWrites(rs[..k + 1], x), m.regs[x], Combine(reply.value[3 + 2 * i], reply.value[4 + 2 * i]))
  {
    var r, regs := rs[k], MemoryAfter(m, rs[..k + 1]).regs;
    var start, q := if r.ReadWrite? then r.readStart else r.address, if r.ReadWrite? then r.readQuantity else r.value;
    LastWriteWins(m, rs[..k + 1], Address(start, i));
    RegReplyWord(a, FcOf(r), regs, start, q, i);
  }

  /** So is every bit in the reply to a request for coils, and the bits after the last coil are zero. */
  lemma {:induction false} CoilsReadAreLastWritten(a: byte, m: Memory, rs: seq<Request>, k: nat, i: nat)
    requires Total(m) && k < |rs| && rs[k].Simple? && (rs[k].fc == 1 || rs[k].fc == 2)
    requires i < 8 * ((rs[k].value + 7) / 8)
    ensures var reply := Reply(a, MemoryAfter(m, rs[..k + 1]), rs[k]);
            && reply.Some? && |reply.value| > 3 + i / 8
            && var bit := Bit(reply.value[3 + i / 8], i % 8);
               if i < rs[k].value then
                 var x := Address(rs[k].address, i);
                 IsLast(CoilWrites(rs[..k + 1], x), m.coils[x], bit)
               else !bit
  {
    var r, coils := rs[k], MemoryAfter(m, rs[..k + 1]).coils;
    if i < r.value {
      LastWriteWins(m, rs[..k + 1], Address(r.address, i));
    }
    CoilReplyBit(a, r.fc, coils, r.address, r.value, i);
  }

  /** From blank memory on, every word replied for an address that no request up to then has written is zero. */
  lemma {:induction false} UnwrittenRegReadsZero(a: byte, rs: seq<Request>, k: nat, i: nat)
    requires k < |rs| && (rs[k].ReadWrite? || (rs[k].Simple? && (rs[k].fc == 3 || rs[k].fc == 4)))
    requires i < if rs[k].ReadWrite? then rs[k].readQuantity else rs[k].value
    requires var x := Address(if rs[k].ReadWrite? then rs[k].readStart else rs[k].address, i);
             forall j :: 0 <= j <= k ==> RegWritten(rs[j], x).None?
    ensures var reply := Reply(a, MemoryAfter(Blank(), rs[..k + 1]), rs[k]);
            reply.Some? && |reply.value| > 4 + 2 * i && reply.value[3 + 2 * i] == reply.value[4 + 2 * i] == 0
  {
    var r, m' := rs[k], MemoryAfter(Blank(), rs[..k + 1]);
    var start, q := if r.ReadWrite? then r.readStart else r.address, if r.ReadWrite? then r.readQuantity else r.value;
    UntouchedIsZero(rs[..k + 1]);
    RegReplyWord(a, FcOf(r), m'.regs, start, q, i);
    assert m'.regs[Address(start, i)] == 0;
  }

  /** And every bit replied for such an address is off. */
  lemma {:induction false} UnwrittenCoilReadsOff(a: byte, rs: seq<Request>, k: nat, i: nat)
    requires k < |rs| && rs[k].Simple? && (rs[k].fc == 1 || rs[k].fc == 2) && i < rs[k].value
    requires forall j :: 0 <= j <= k ==> CoilWritten(rs[j], Address(rs[k].address, i)).None?
    ensures var reply := Reply(a, MemoryAfter(Blank(), rs[..k + 1]), rs[k]);
            reply.Some? && |reply.value| > 3 + i / 8 && !Digit(reply.value[3 + i / 8], i % 8)
  {
    var r, m' := rs[k], MemoryAfter(Blank(), rs[..k + 1]);
    UntouchedIsZero(rs[..k + 1]);
    CoilReplyBit(a, r.fc, m'.coils, r.address, r.value, i);
    assert !m'.coils[Address(r.address, i)];
    BitIsDigit(CoilReply(a, r.fc, m'.coils, r.address, r.value)[3 + i / 8], i % 8);
  }

  // ---------------------------------------------------------------- a frame alone on the line

  /** The bytes w are, from first to last, a frame that calls back r. */
  ghost predicate Carries(a: byte, w: seq<byte>, r: Request) {
    Word(FrameRule(Coroutine, a), w) && FrameRule(Coroutine, a)(w) == End(Some(PduEvent(r)), false)
  }

  lemma TailScan(a: byte, w: seq<byte>, r: Request, k: nat)
    requires Carries(a, w, r) && k < |w|
    ensures ScanChunk(FrameRule(Coroutine, a), w[..k], w[k..]) == Outcome([], [PduEvent(r)], false)
  {
    ScanWord(FrameRule(Coroutine, a), w, k, []);
    assert w[k..] + [] == w[k..];
  }

  lemma HeadScan(a: byte, w: seq<byte>, r: Request, k: nat, n: nat)
    requires Carries(a, w, r) && k <= n < |w|
    ensures ScanChunk(FrameRule(Coroutine, a), w[..k], w[k..n]) == Outcome(w[..n], [], false)
  {
    var p := w[..n];
    assert forall i :: 0 < i <= n ==> p[..i] == w[..i];
    assert p[..k] == w[..k] && p[k..] == w[k..n];
    ScanLive(FrameRule(Coroutine, a), p, k);
  }

  lemma {:induction false} FlattenBeginning(chunks: seq<seq<byte>>, m: nat)
    requires m <= |chunks| && forall i :: 0 <= i < |chunks| ==> chunks[i] != []
    ensures var s, n := Flatten(chunks), |Flatten(chunks[..m])|;
            n <= |s| && Flatten(chunks[..m]) == s[..n] && (n == |s| <==> m == |chunks|)
    decreases |chunks|
  {
    if m > 0 {
      FlattenBeginning(chunks[1..], m - 1);
      assert chunks[..m][1..] == chunks[1..][..m - 1];
    } else {
      assert chunks != [] ==> |Flatten(chunks)| >= |chunks[0]|;
    }
  }

  /** Scanning some of the chunks a frame is cut into, k bytes of it having been read. */
  lemma {:induction false} LoneRun(a: byte, w: seq<byte>, r: Request, k: nat, chunks: seq<seq<byte>>, m: nat)
    requires Carries(a, w, r) && k < |w| && m <= |chunks|
    requires Flatten(chunks) == w[k..] && forall i :: 0 <= i < |chunks| ==> chunks[i] != []
    ensures Run(FrameRule(Coroutine, a), w[..k], chunks[..m]) ==
            if m == |chunks| then Outcome([], [PduEvent(r)], false)
            else Outcome(w[..k] + Flatten(chunks[..m]), [], false)
  {
    var g, n := FrameRule(Coroutine, a), k + |Flatten(chunks[..m])|;
    FlattenBeginning(chunks, m);
    Beginnings(w, k, n);
    if m == |chunks| {
      TailScan(a, w, r, k);
      RunAs(g, w[..k], chunks[..m], w[k..n], Outcome([], [PduEvent(r)], false));
    } else {
      HeadScan(a, w, r, k, n);
      RunAs(g, w[..k], chunks[..m], w[k..n], Outcome(w[..n], [], false));
    }
  }

  lemma Beginnings(w: seq<byte>, k: nat, n: nat)
    requires k <= n <= |w|
    ensures w[k..][..n - k] == w[k..n] && w[..n] == w[..k] + w[k..n] && w[k..|w|] == w[k..]
  {
  }

  lemma {:induction false} LoneCompleted(a: byte, w: seq<byte>, r: Request, k: nat, chunks: seq<seq<byte>>, m: nat)
    requires Carries(a, w, r) && k < |w| && m <= |chunks|
    requires Flatten(chunks) == w[k..] && forall i :: 0 <= i < |chunks| ==> chunks[i] != []
    ensures Completed(a, w[..k], chunks[..m]) == if m == |chunks| then [r] else []
  {
    LoneRun(a, w, r, k, chunks, m);
    assert Pdus([PduEvent(r)]) == [r] by {
      assert [PduEvent(r)][1..] == [];
    }
  }

  lemma {:induction false} LoneCompleter(a: byte, w: seq<byte>, r: Request, k: nat, chunks: seq<seq<byte>>)
    requires Carries(a, w, r) && k < |w|
    requires Flatten(chunks) == w[k..] && forall i :: 0 <= i < |chunks| ==> chunks[i] != []
    ensures |chunks| > 0 && Completers(a, w[..k], chunks) == [chunks[|chunks| - 1]]
  {
    assert chunks[..|chunks|] == chunks;
    LoneCompleted(a, w, r, k, chunks, |chunks|);
    var j := CompleterAt(a, w[..k], chunks, 0);
    LoneCompleted(a, w, r, k, chunks, j + 1);
  }

  // With a read for every chunk the frame is served with the last, and only then.
  lemma {:induction false} LoneRead(a: byte, s: Server, w: seq<byte>, r: Request, k: nat, chunks: seq<seq<byte>>)
    requires Total(s.memory) && Carries(a, w, r) && k < |w| && s.rest == w[..k]
    requires Flatten(chunks) == w[k..] && forall i :: 0 <= i < |chunks| ==> chunks[i] != []
    ensures |chunks| > 0
    ensures ReadCount(a, s, chunks) == if |chunks| <= s.pendingReads then |chunks| else s.pendingReads
  {
    var n := ReadCount(a, s, chunks);
    ServesWhatItReads(a, s, chunks);
    LoneCompleter(a, w, r, k, chunks);
    LoneCompleted(a, w, r, k, chunks, n);
    if n == |chunks| {
      ChunkIsRead(a, s, chunks, n - 1);
      LoneCompleted(a, w, r, k, chunks, n - 1);
      assert n - 1 < s.pendingReads + |Completed(a, s.rest, chunks[..n - 1])|;
    }
  }

  /** A frame alone on the line, of which k bytes have been read, is served with its last chunk if there is a pending
    * read for every chunk; otherwise the reads run out, and no more than the chunks read is remembered. */
  lemma {:induction false} LoneRequest(a: byte, s: Server, r: Request, k: nat, chunks: seq<seq<byte>>)
    requires Total(s.memory) && WellFormed(r) && k < |Frame(a, r)| && s.rest == Frame(a, r)[..k]
    requires Flatten(chunks) == Frame(a, r)[k..] && forall i :: 0 <= i < |chunks| ==> chunks[i] != []
    ensures |chunks| > 0
    ensures HandleAll(a, s, chunks) ==
            if |chunks| <= s.pendingReads
            then Serve(a, s.(rest := [], pendingReads := s.pendingReads - |chunks|), chunks[|chunks| - 1], r)
            else s.(rest := s.rest + Flatten(chunks[..s.pendingReads]), pendingReads := 0)
  {
    var w, n := Frame(a, r), ReadCount(a, s, chunks);
    FrameIsWord(Coroutine, a, r);
    LoneRead(a, s, w, r, k, chunks);
    ServesWhatItReads(a, s, chunks);
    LoneRun(a, w, r, k, chunks, n);
    LoneCompleted(a, w, r, k, chunks, n);
    if n == |chunks| {
      assert chunks[..n] == chunks;
      LoneCompleter(a, w, r, k, chunks);
      ServedOne(a, s, r, chunks[n - 1], HandleAll(a, s, chunks));
    }
  }

  lemma ServedOne(a: byte, s: Server, r: Request, chunk: seq<byte>, s': Server)
    requires Total(s.memory) && Served(a, s, [r], [chunk], s')
    ensures s'.memory == Apply(s.memory, r)
    ensures s'.sent == s.sent + [Answer(a, Apply(s.memory, r), r, chunk)]
  {
    assert [r][1..] == [] && [chunk][1..] == [];
    AnswersAt(a, s.memory, [r], [chunk], 0);
    assert [r][..1] == [r];
    assert Answers(a, s.memory, [r], [chunk]) == [Answer(a, MemoryAfter(s.memory, [r]), r, chunk)];
  }

  // A whole frame from the start.
  lemma {:induction false} WholeFrame(a: byte, s: Server, r: Request, chunks: seq<seq<byte>>)
    requires Total(s.memory) && WellFormed(r) && s.rest == []
    requires Flatten(chunks) == Frame(a, r) && forall i :: 0 <= i < |chunks| ==> chunks[i] != []
    ensures |chunks| > 0
    ensures HandleAll(a, s, chunks) ==
            if |chunks| <= s.pendingReads
            then Serve(a, s.(pendingReads := s.pendingReads - |chunks|), chunks[|chunks| - 1], r)
            else s.(rest := Flatten(chunks[..s.pendingReads]), pendingReads := 0)
  {
    var w := Frame(a, r);
    assert w[..0] == [] && w[0..] == w;
    LoneRequest(a, s, r, 0, chunks);
    if s.pendingReads < |chunks| {
      assert [] + Flatten(chunks[..s.pendingReads]) == Flatten(chunks[..s.pendingReads]);
    }
  }

  /** A server that has one read pending, as it has when it starts, serves a frame alone on the line exactly if the
    * frame comes as one chunk.  If not, it reads the first chunk and then, having no read left, nothing ever again. */
  lemma {:induction false} CutFrameStalls(a: byte, s: Server, r: Request, chunks: seq<seq<byte>>, later: seq<seq<byte>>)
    requires Total(s.memory) && WellFormed(r) && s.rest == [] && s.pendingReads == 1
    requires Flatten(chunks) == Frame(a, r) && forall i :: 0 <= i < |chunks| ==> chunks[i] != []
    ensures HandleAll(a, s, chunks).sent != s.sent <==> |chunks| == 1
    ensures |chunks| == 1 ==> HandleAll(a, s, chunks) == Serve(a, s.(pendingReads := 0), Frame(a, r), r)
    ensures |chunks| > 1 ==> HandleAll(a, s, chunks + later) == s.(rest := chunks[0], pendingReads := 0)
  {
    WholeFrame(a, s, r, chunks);
    LastIsShorter(chunks);
    if |chunks| > 1 {
      assert chunks[..1] == [chunks[0]] && Flatten([chunks[0]]) == chunks[0];
      HandleAllConcat(a, s, chunks, later);
    }
  }

  /** The protocol has functions 5 and 6 answered with the request.  A server with a read pending sends a frame alone
    * on the line back whole exactly if it came as one chunk.  With several chunks it sends the last of them if it has
    * a read for each, and if not it does nothing. */
  lemma {:induction false} EchoNeedsOneChunk(a: byte, s: Server, r: Request, chunks: seq<seq<byte>>)
    requires Total(s.memory) && s.rest == [] && r.Simple? && (r.fc == 5 || r.fc == 6) && s.pendingReads > 0
    requires Flatten(chunks) == Frame(a, r) && forall i :: 0 <= i < |chunks| ==> chunks[i] != []
    ensures |chunks| > 0
    ensures var s' := HandleAll(a, s, chunks);
            && (s'.sent == s.sent + [Mirrored(Frame(a, r))] <==> |chunks| == 1)
            && s'.memory == (if |chunks| <= s.pendingReads then Apply(s.memory, r) else s.memory)
            && s'.sent == s.sent + if |chunks| <= s.pendingReads then [Mirrored(chunks[|chunks| - 1])] else []
  {
    WholeFrame(a, s, r, chunks);
    var last := chunks[|chunks| - 1];
    EchoServed(a, s.(pendingReads := if |chunks| <= s.pendingReads then s.pendingReads - |chunks| else 0), last, r);
    LastIsShorter(chunks);
    OneMoreSent(s.sent, Mirrored(last), Mirrored(Frame(a, r)));
  }

  lemma EchoServed(a: byte, s: Server, chunk: seq<byte>, r: Request)
    requires Total(s.memory) && r.Simple? && (r.fc == 5 || r.fc == 6)
    ensures var s' := Serve(a, s, chunk, r);
            s'.memory == Apply(s.memory, r) && s'.sent == s.sent + [Mirrored(chunk)]
  {
  }

  lemma OneMoreSent(sent: seq<Sent>, x: Sent, y: Sent)
    ensures sent + [x] == sent + [y] <==> x == y
  {
    assert (sent + [x])[|sent|] == x && (sent + [y])[|sent|] == y;
  }

  lemma {:induction false} LastIsShorter(chunks: seq<seq<byte>>)
    requires |chunks| > 0 && forall i :: 0 <= i < |chunks| ==> chunks[i] != []
    ensures |chunks| == 1 ==> chunks[0] == Flatten(chunks)
    ensures |chunks| > 1 ==> |chunks[|chunks| - 1]| < |Flatten(chunks)|
    ensures |chunks[|chunks| - 1]| <= |Flatten(chunks)|
    decreases |chunks|
  {
    if |chunks| > 1 {
      LastIsShorter(chunks[1..]);
    }
  }

  // ---------------------------------------------------------------- one frame a chunk

  function Frames(a: byte, rs: seq<Request>): (chunks: seq<seq<byte>>)
    ensures |chunks| == |rs|
  {
    if rs == [] then [] else [Frame(a, rs[0])] + Frames(a, rs[1..])
  }

  /** If every chunk is one frame the server goes on reading, and answers every request, functions 5 and 6 with the very
    * frame. */
  lemma {:induction false} OneFrameAChunk(a: byte, s: Server, rs: seq<Request>)
    requires Total(s.memory) && s.rest == [] && s.pendingReads > 0
    requires forall i :: 0 <= i < |rs| ==> WellFormed(rs[i])
    ensures var s' := HandleAll(a, s, Frames(a, rs));
            Served(a, s, rs, Frames(a, rs), s') && s'.rest == [] && s'.pendingReads == s.pendingReads
    decreases |rs|
  {
    if rs != [] {
      var w, more := Frame(a, rs[0]), Frames(a, rs[1..]);
      var s' := Handle(a, s, w);
      FrameServed(a, s, rs[0]);
      OneFrameAChunk(a, s', rs[1..]);
      HandleAllStep(a, s, w, more);
      ServedConcat(a, s, [rs[0]], [w], s', rs[1..], more, HandleAll(a, s', more));
      assert [rs[0]] + rs[1..] == rs && Frames(a, rs) == [w] + more;
    }
  }

  lemma {:induction false} ServeAllOne(a: byte, s: Server, chunk: seq<byte>, r: Request)
    requires Total(s.memory)
    ensures Pdus([PduEvent(r)]) == [r] && ServeAll(a, s, chunk, [r]) == Serve(a, s, chunk, r)
  {
    assert [PduEvent(r)][1..] == [] && [r][1..] == [];
  }

  lemma FrameHandled(a: byte, s: Server, r: Request)
    requires Total(s.memory) && s.rest == [] && s.pendingReads > 0 && WellFormed(r)
    ensures Handle(a, s, Frame(a, r)) == Serve(a, s.(pendingReads := s.pendingReads - 1), Frame(a, r), r)
  {
    var w, s' := Frame(a, r), s.(pendingReads := s.pendingReads - 1);
    FrameIsWord(Coroutine, a, r);
    assert w[..0] == [] && w[0..] == w;
    TailScan(a, w, r, 0);
    ScannedAs(a, s', w, Outcome([], [PduEvent(r)], false));
    ServeAllOne(a, s', w, r);
  }

  lemma FrameServed(a: byte, s: Server, r: Request)
    requires Total(s.memory) && s.rest == [] && s.pendingReads > 0 && WellFormed(r)
    ensures var s' := Handle(a, s, Frame(a, r));
            Served(a, s, [r], [Frame(a, r)], s') && s'.rest == [] && s'.pendingReads == s.pendingReads
  {
    FrameHandled(a, s, r);
    ServeOne(a, s.(pendingReads := s.pendingReads - 1), Frame(a, r), r);
  }

  // ---------------------------------------------------------------- from bytes to bytes

  /** The whole chain for one frame, in plain terms: bytes that have the shape of a frame and the right checksum,
    * arriving as one chunk, are served as the record of what stands at their offsets says. */
  lemma FrameObeyed(a: byte, s: Server, w: seq<byte>, p: PduRecord)
    requires Total(s.memory) && s.rest == [] && s.pendingReads > 0
    requires RtuShape(a, w) && Accepted(w) && PlainRecord(w, 1, p)
    ensures PlainServed(a, p, w, s.(pendingReads := s.pendingReads - 1), Handle(a, s, w))
  {
    ShapeIsFrameOf(a, w, p);
    FrameHandled(a, s, Defined(p));
    PlainRequestIsWellFormed(p);
    ServeIsPlain(a, s.(pendingReads := s.pendingReads - 1), w, p);
  }

  /** A frame of function 6 writes the number in its bytes 4 and 5 to the register that its bytes 2 and 3 number, writes
    * nothing else, and is sent back. */
  lemma RegisterFrameObeyed(a: byte, s: Server, w: seq<byte>)
    requires Total(s.memory) && s.rest == [] && s.pendingReads > 0
    requires |w| == 8 && w[0] == a && w[1] == 6 && Accepted(w)
    ensures var s' := Handle(a, s, w);
            && s'.memory.coils == s.memory.coils
            && s'.memory.regs == s.memory.regs[Combine(w[2], w[3]) := Combine(w[4], w[5])]
            && Combine(w[2], w[3]) == Number(w[2], w[3]) && Combine(w[4], w[5]) == Number(w[4], w[5])
            && s'.sent == s.sent + [Mirrored(w)]
  {
    var p := PduRecord(0, 0, 6, Combine(w[2], w[3]), Combine(w[4], w[5]), 0, 0, 0, []);
    FrameObeyed(a, s, w, p);
    RegisterWritten(p, s.memory, Handle(a, s, w).memory);
    LastOne(Handle(a, s, w).sent, |s.sent|);
  }

  lemma RegisterWritten(p: PduRecord, m: Memory, m': Memory)
    requires PlainEffect(p, m, m') && p.fc == 6
    ensures m'.coils == m.coils && m'.regs == m.regs[p.i16_1 := p.i16_2]
  {
    assert forall x: u16 :: m'.coils[x] == PlainCoil(p, m.coils[x], x);
    assert forall x: u16 :: m'.regs[x] == PlainReg(p, m.regs[x], x);
  }

  lemma LastOne(sent: seq<Sent>, n: nat)
    requires |sent| == n + 1
    ensures sent == sent[..n] + [sent[n]]
  {
  }

  /** A new server, started and fed one frame, answers it from blank memory. */
  method AnswerFrame(address: byte, uninitialized: PduRecord, w: seq<byte>, ghost p: PduRecord) returns (h: DataHandler)
    requires RtuShape(address, w) && Accepted(w) && PlainRecord(w, 1, p) && Servable(Defined(p))
    ensures fresh(h) && h.Valid()
    ensures PlainServed(address, p, w, Server([], Blank(), [], 0), h.Abstract())
  {
    h := new DataHandler(address, uninitialized);
    var ok := h.Start(true);
    assert h.Abstract() == Server([], Blank(), [], 1);
    FirstFrameObeyed(address, w, p);
    ReadChunk(h, w);
  }

  lemma FirstFrameObeyed(a: byte, w: seq<byte>, p: PduRecord)
    requires RtuShape(a, w) && Accepted(w) && PlainRecord(w, 1, p)
    ensures |w| <= MAX_FRAME && Arriving(a, [], w) == [Defined(p)]
    ensures PlainServed(a, p, w, Server([], Blank(), [], 0), Handle(a, Server([], Blank(), [], 1), w))
  {
    FrameArrives(a, w, p);
    FrameObeyed(a, Server([], Blank(), [], 1), w, p);
  }

  lemma FrameArrives(a: byte, w: seq<byte>, p: PduRecord)
    requires RtuShape(a, w) && Accepted(w) && PlainRecord(w, 1, p)
    ensures |w| <= MAX_FRAME && Arriving(a, [], w) == [Defined(p)]
  {
    var r := Defined(p);
    ShapeLength(a, w);
    ShapeIsFrameOf(a, w, p);
    FrameIsWord(Coroutine, a, r);
    assert w[..0] == [] && w[0..] == w;
    TailScan(a, w, r, 0);
    assert Arriving(a, [], w) == Pdus([PduEvent(r)]);
    assert Pdus([PduEvent(r)]) == [r] + Pdus([PduEvent(r)][1..]);
  }
}
