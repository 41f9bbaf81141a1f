/** The coroutine TCP scanner of slave_tcp_scanner.cpp.  The coroutine's stack is the object's fields and a resume
  * point. */
module SlaveTcpScanner {
  import opened Bytes
  import opened Framing
  import opened Pdu
  import opened Tcp

  /** Where `scan_co` continues: the statement after each `sink`. */
  datatype ResumePoint =
    | PreTransact | Transact2 | Protocol1 | Protocol2 | Length1 | Length2 | UnitId | FunctionCode
    | Word1Hi | Word1Lo | Word2Hi | Word2Lo | Word3Hi | Word3Lo | Word4Hi | Word4Lo
    | ByteCount | BeforeData | NextData | AfterPdu

  class Scanner {
    const address: byte
    var pdu: PduRecord
    var calls: seq<Callback>

    // the input position and the locals of scan_co
    var mIx: nat
    var at: ResumePoint
    var ix: nat
    var length1: byte
    var length: u16
    var fc: byte
    var hi1: byte
    var lo1: byte
    var hi2: byte
    var lo2: byte
    var hi3: byte
    var lo3: byte
    var hi4: byte
    var lo4: byte

    // The bytes of the frame being read, which the code does not keep.
    ghost var frame: seq<byte>

    /** The locals and the record hold what has been read of the frame, field by field. */
    ghost predicate Held()
      reads this
    {
      var b := frame;
      && (|b| > 0 ==> b[0] == pdu.transactId1) && (|b| > 1 ==> b[1] == pdu.transactId2)
      && (|b| > 6 ==> b[6] == address) && (|b| > 7 ==> b[7] == fc && ValidFc(fc))
      && (|b| > 8 ==> b[8] == hi1) && (|b| > 9 ==> b[9] == lo1)
      && (|b| > 10 ==> b[10] == hi2) && (|b| > 11 ==> b[11] == lo2)
      && (|b| > 7 && fc == 23 ==>
            && (|b| > 12 ==> b[12] == hi3) && (|b| > 13 ==> b[13] == lo3) && (|b| > 14 ==> b[14] == hi4)
            && (|b| > 15 ==> pdu.i16_3 == Combine(b[12], b[13]) && pdu.i16_4 == Combine(b[14], b[15])))
      && (|b| > 7 && HasData(fc) && HeadRead(b, 7) ==>
            && pdu.i8_1 == CountByte(b, 7)
            && pdu.data == b[7 + HeadLen(fc)..if |b| < 7 + PduLen(b, 7) then |b| else 7 + PduLen(b, 7)])
    }

    /** How much of the frame has been read at each resume point. */
    ghost predicate Positioned()
      reads this
    {
      match at
      case PreTransact => frame == []
      case Transact2 => |frame| == 1
      case Protocol1 => |frame| == 2
      case Protocol2 => |frame| == 3
      case Length1 => |frame| == 4
      case Length2 => |frame| == 5
      case UnitId => |frame| == 6
      case FunctionCode => |frame| == 7
      case Word1Hi => |frame| == 8
      case Word1Lo => |frame| == 9
      case Word2Hi => |frame| == 10
      case Word2Lo => |frame| == 11
      case Word3Hi => |frame| == 12 && fc == 23
      case Word3Lo => |frame| == 13 && fc == 23
      case Word4Hi => |frame| == 14 && fc == 23
      case Word4Lo => |frame| == 15 && fc == 23
      case ByteCount => HasData(fc) && |frame| == 6 + HeadLen(fc)
      case BeforeData => HasData(fc) && |frame| == 7 + HeadLen(fc)
      case NextData => HasData(fc) && 0 < ix < pdu.i8_1 && |frame| == 7 + HeadLen(fc) + ix
      case AfterPdu => frame == []
    }

    ghost predicate Valid()
      reads this
    {
      Positioned() && Held()
    }

    ghost function G(): Rule<Event> {
      FrameRule(address)
    }

    /** Every frame a valid scanner is in the middle of needs more bytes. */
    lemma ValidIsLive()
      requires Valid()
      ensures Judge(address, frame).More?
    {
    }

    /** Since position i of the chunk the scanner has done what the framing rule says. */
    ghost predicate Advanced(p: seq<byte>, events: seq<Event>, i: nat, input: Buffer, suspended: bool)
      reads this, input, input.data
    {
      && Valid() && input.Valid()
      && Advances(G(), input.Contents(), p, events, i, frame, Views(calls), mIx, suspended)
    }

    // One byte that leaves the frame unfinished.
    lemma OneMoreByte(p: seq<byte>, events: seq<Event>, i: nat, input: Buffer, suspended: bool)
      requires Valid() && input.Valid() && i < input.size && mIx == i + 1 && suspended == (mIx == input.size)
      requires frame == p + [input.data[i]] && Views(calls) == events
      ensures Advanced(p, events, i, input, suspended)
    {
      ValidIsLive();
      MoreAdvances(G(), input.Contents(), p, events, i, suspended);
    }

    // One byte that ends the frame.
    lemma FrameEnds(p: seq<byte>, events: seq<Event>, i: nat, input: Buffer, suspended: bool, event: Option<Event>)
      requires Valid() && input.Valid() && i < input.size && i <= mIx <= input.size
      requires frame == [] && Views(calls) == events + Reported(event)
      requires var v := Judge(address, p + [input.data[i]]);
               && v.End? && v.event == event
               && (if v.drop then suspended else mIx == i + 1 && suspended == (mIx == input.size))
      ensures Advanced(p, events, i, input, suspended)
    {
      EndAdvances(G(), input.Contents(), p, events, i, mIx, suspended);
    }

    constructor (address: byte, uninitialized: PduRecord)
      ensures Valid() && frame == [] && calls == [] && this.address == address
    {
      this.address := address;
      pdu := uninitialized;
      calls := [];
      at := PreTransact;
      frame := [];
      mIx, ix, length1, length := 0, 0, 0, 0;
      fc, hi1, lo1, hi2, lo2, hi3, lo3, hi4, lo4 := 0, 0, 0, 0, 0, 0, 0, 0, 0;
    }

    /** `check_buf_end`: true when the coroutine suspends to wait for the next chunk. */
    method CheckBufEnd(input: Buffer) returns (suspended: bool)
      requires mIx < input.size
      modifies this`mIx
      ensures mIx == old(mIx) + 1 && suspended == (mIx == input.size)
    {
      mIx := mIx + 1;
      suspended := mIx == input.size;
    }

    method HeaderState(input: Buffer) returns (suspended: bool)
      requires Valid() && input.Valid() && mIx < input.size
      requires at in {PreTransact, AfterPdu, Transact2, Protocol1, Protocol2, Length1, Length2}
      modifies this
      ensures Advanced(old(frame), old(Views(calls)), old(mIx), input, suspended)
      ensures suspended || mIx > old(mIx)
    {
      var b := input.data[mIx];
      frame := frame + [b];
      match at {
        case PreTransact => pdu := pdu.(transactId1 := b); at := Transact2;
        case AfterPdu => pdu := pdu.(transactId1 := b); at := Transact2;
        case Transact2 => pdu := pdu.(transactId2 := b); at := Protocol1;
        case Protocol1 => at := Protocol2;
        case Protocol2 => at := Length1;
        case Length1 => length1 := b; at := Length2;
        case Length2 => length := Combine(length1, b); at := UnitId;
      }
      suspended := CheckBufEnd(input);
      OneMoreByte(old(frame), old(Views(calls)), old(mIx), input, suspended);
    }

    method UnitIdState(input: Buffer) returns (suspended: bool)
      requires Valid() && input.Valid() && mIx < input.size && at == UnitId
      modifies this
      ensures Advanced(old(frame), old(Views(calls)), old(mIx), input, suspended)
      ensures suspended || mIx > old(mIx)
    {
      if input.data[mIx] != address {
        frame := [];
        at := PreTransact;
        suspended := true;
        FrameEnds(old(frame), old(Views(calls)), old(mIx), input, suspended, None);
      } else {
        frame := frame + [input.data[mIx]];
        at := FunctionCode;
        suspended := CheckBufEnd(input);
        OneMoreByte(old(frame), old(Views(calls)), old(mIx), input, suspended);
      }
    }

    method FunctionState(input: Buffer) returns (suspended: bool)
      requires Valid() && input.Valid() && mIx < input.size && at == FunctionCode
      modifies this
      ensures Advanced(old(frame), old(Views(calls)), old(mIx), input, suspended)
      ensures suspended || mIx > old(mIx)
    {
      if ValidFc(input.data[mIx]) {
        fc := input.data[mIx];
        frame := frame + [fc];
        at := Word1Hi;
        suspended := CheckBufEnd(input);
        OneMoreByte(old(frame), old(Views(calls)), old(mIx), input, suspended);
      } else {
        calls := calls + [NonsenseCallback];
        frame := [];
        at := PreTransact;
        suspended := true;
        FrameEnds(old(frame), old(Views(calls)), old(mIx), input, suspended, Some(Event.Nonsense));
      }
    }

    /** A byte of the first two words, but for their last. */
    method TakeFirstWords(b: byte)
      requires Valid() && at in {Word1Hi, Word1Lo, Word2Hi}
      modifies this`hi1, this`lo1, this`hi2, this`at, this`frame
      ensures Valid() && frame == old(frame) + [b]
    {
      frame := frame + [b];
      match at {
        case Word1Hi => hi1 := b; at := Word1Lo;
        case Word1Lo => lo1 := b; at := Word2Hi;
        case Word2Hi => hi2 := b; at := Word2Lo;
      }
    }

    method FirstWordsState(input: Buffer) returns (suspended: bool)
      requires Valid() && input.Valid() && mIx < input.size
      requires at in {Word1Hi, Word1Lo, Word2Hi}
      modifies this
      ensures Advanced(old(frame), old(Views(calls)), old(mIx), input, suspended)
      ensures suspended || mIx > old(mIx)
    {
      TakeFirstWords(input.data[mIx]);
      suspended := CheckBufEnd(input);
      OneMoreByte(old(frame), old(Views(calls)), old(mIx), input, suspended);
    }

    /** A byte of the other two words, but for their last. */
    method TakeSecondWords(b: byte)
      requires Valid() && at in {Word3Hi, Word3Lo, Word4Hi}
      modifies this`hi3, this`lo3, this`hi4, this`at, this`frame
      ensures Valid() && frame == old(frame) + [b]
    {
      frame := frame + [b];
      match at {
        case Word3Hi => hi3 := b; at := Word3Lo;
        case Word3Lo => lo3 := b; at := Word4Hi;
        case Word4Hi => hi4 := b; at := Word4Lo;
      }
    }

    method SecondWordsState(input: Buffer) returns (suspended: bool)
      requires Valid() && input.Valid() && mIx < input.size && at in {Word3Hi, Word3Lo, Word4Hi}
      modifies this
      ensures Advanced(old(frame), old(Views(calls)), old(mIx), input, suspended)
      ensures suspended || mIx > old(mIx)
    {
      TakeSecondWords(input.data[mIx]);
      suspended := CheckBufEnd(input);
      OneMoreByte(old(frame), old(Views(calls)), old(mIx), input, suspended);
    }

    /** The last byte of the other two words. */
    method TakeWord4Lo(b: byte)
      requires Valid() && at == Word4Lo
      modifies this`lo4, this`pdu, this`at, this`frame
      ensures Valid() && frame == old(frame) + [b]
    {
      lo4 := b;
      frame := frame + [b];
      pdu := pdu.(i16_3 := Combine(hi3, lo3), i16_4 := Combine(hi4, lo4));
      at := ByteCount;
    }

    method Word4LoState(input: Buffer) returns (suspended: bool)
      requires Valid() && input.Valid() && mIx < input.size && at == Word4Lo
      modifies this
      ensures Advanced(old(frame), old(Views(calls)), old(mIx), input, suspended)
      ensures suspended || mIx > old(mIx)
    {
      TakeWord4Lo(input.data[mIx]);
      suspended := CheckBufEnd(input);
      OneMoreByte(old(frame), old(Views(calls)), old(mIx), input, suspended);
    }

    /** The last byte of the first two words. */
    method TakeWord2Lo(b: byte)
      requires Valid() && at == Word2Lo
      modifies this`lo2, this`at, this`frame
      ensures Held() && frame == old(frame) + [b] && HasData(fc) == HasData(frame[7]) && fc == old(fc)
      ensures if HasData(fc) then Valid() else HeadRead(frame, 7) && |frame| == FrameLen(frame)
    {
      lo2 := b;
      frame := frame + [b];
      if fc == 23 {
        at := Word3Hi;
      } else if fc == 15 || fc == 16 {
        at := ByteCount;
      }
    }

    method Word2LoState(input: Buffer) returns (suspended: bool)
      requires Valid() && input.Valid() && mIx < input.size && at == Word2Lo
      modifies this
      ensures Advanced(old(frame), old(Views(calls)), old(mIx), input, suspended)
      ensures suspended || mIx > old(mIx)
    {
      TakeWord2Lo(input.data[mIx]);
      if HasData(fc) {
        suspended := CheckBufEnd(input);
        OneMoreByte(old(frame), old(Views(calls)), old(mIx), input, suspended);
      } else {
        suspended := WholePdu(input, old(frame));
      }
    }

    method TakeByteCount(b: byte)
      requires Valid() && at == ByteCount
      modifies this`pdu, this`at, this`frame
      ensures Valid() && frame == old(frame) + [b]
    {
      pdu := pdu.(data := [], i8_1 := b);
      frame := frame + [b];
      at := BeforeData;
    }

    method ByteCountState(input: Buffer) returns (suspended: bool)
      requires Valid() && input.Valid() && mIx < input.size && at == ByteCount
      modifies this
      ensures Advanced(old(frame), old(Views(calls)), old(mIx), input, suspended)
      ensures suspended || mIx > old(mIx)
    {
      TakeByteCount(input.data[mIx]);
      suspended := CheckBufEnd(input);
      OneMoreByte(old(frame), old(Views(calls)), old(mIx), input, suspended);
    }

    method BeforeDataState(input: Buffer) returns (suspended: bool)
      requires Valid() && input.Valid() && mIx < input.size && at == BeforeData
      modifies this
      ensures Advanced(old(frame), old(Views(calls)), old(mIx), input, suspended)
      ensures suspended || mIx > old(mIx)
    {
      ix := 0;
      suspended := DataState(input);
    }

    /** `whole_pdu`: the frame p and the byte at the current position make up a whole one. */
    method WholePdu(input: Buffer, ghost p: seq<byte>) returns (suspended: bool)
      requires input.Valid() && mIx < input.size && frame == p + [input.data[mIx]]
      requires Whole()
      modifies this
      ensures Advanced(p, old(Views(calls)), old(mIx), input, suspended) && mIx == old(mIx) + 1
    {
      pdu := pdu.(i16_1 := Combine(hi1, lo1), i16_2 := Combine(hi2, lo2), fc := fc);
      calls := calls + [PduCallback(pdu)];
      ghost var event := PduEvent(pdu.transactId1, pdu.transactId2, Defined(pdu));
      assert Judge(address, frame) == End(Some(event), false);
      assert Views(calls) == old(Views(calls)) + [event];
      frame := [];
      at := AfterPdu;
      suspended := CheckBufEnd(input);
      FrameEnds(p, old(Views(calls)), old(mIx), input, suspended, Some(event));
    }

    /** Before the test of the data loop with data still to read. */
    ghost predicate InData()
      reads this
    {
      && Held() && |frame| > 7 && HasData(fc) && HeadRead(frame, 7)
      && ix < pdu.i8_1 && |frame| == 7 + HeadLen(fc) + ix && (at == BeforeData || at == NextData)
    }

    /** The whole frame has been taken. */
    ghost predicate Whole()
      reads this
    {
      Held() && HeadRead(frame, 7) && |frame| == FrameLen(frame)
    }

    /** One round of the data loop; done when it was the last. */
    method DataByte(input: Buffer) returns (done: bool, suspended: bool)
      requires InData() && input.Valid() && mIx < input.size
      modifies this`mIx, this`at, this`ix, this`pdu, this`frame
      ensures frame == old(frame) + [input.data[old(mIx)]]
      ensures HeadRead(frame, 7) && FrameLen(frame) == old(FrameLen(frame))
      ensures if done then !suspended && mIx == old(mIx) && Whole()
              else
                && mIx == old(mIx) + 1 && suspended == (mIx == input.size)
                && (if suspended then Valid() else InData()) && |frame| < FrameLen(frame)
    {
      var b := input.data[mIx];
      PushData(b);
      ix := ix + 1;
      done := ix == pdu.i8_1;
      suspended := false;
      if !done {
        suspended := MoreData(input);
      }
    }

    /** Move on to the next data byte. */
    method MoreData(input: Buffer) returns (suspended: bool)
      requires InData() && ix > 0 && input.Valid() && mIx < input.size
      modifies this`mIx, this`at
      ensures mIx == old(mIx) + 1 && suspended == (mIx == input.size)
      ensures if suspended then Valid() else InData()
    {
      suspended := CheckBufEnd(input);
      if suspended {
        at := NextData;
      }
    }

    method PushData(b: byte)
      requires InData()
      modifies this`pdu, this`frame
      ensures frame == old(frame) + [b] && pdu.i8_1 == old(pdu.i8_1) && Held()
      ensures HeadRead(frame, 7) && PduLen(frame, 7) == HeadLen(fc) + pdu.i8_1
      ensures CountIsZero(frame, 7) == (pdu.i8_1 == 0)
    {
      pdu := pdu.(data := pdu.data + [b]);
      frame := frame + [b];
      HeadKept(old(frame), 7, [b]);
      assert frame[7] == fc && CountByte(frame, 7) == CountByte(old(frame), 7);
      assert frame[7 + HeadLen(fc)..] == old(frame)[7 + HeadLen(fc)..] + [b];
    }

    /** Data bytes, fewer than the byte count, leave the frame unfinished. */
    lemma {:induction false} DataIsMore(p: seq<byte>, c: seq<byte>, i: nat, j: nat)
      requires i <= j <= |c| && |p| > 7 && p[6] == address && ValidFc(p[7])
      requires HeadRead(p, 7) && |p| + j - i < FrameLen(p)
      ensures ScanChunk(G(), p, c[i..]) == ScanChunk(G(), p + c[i..j], c[j..])
    {
      HeadKept(p, 7, c[i..j]);
      DataPends(p + c[i..j], |p|, c[j..]);
      Regrouped(p, c, i, j);
    }

    lemma {:induction false} DataPends(w: seq<byte>, n: nat, tail: seq<byte>)
      requires n <= |w| && |w| > 7 && w[6] == address && ValidFc(w[7])
      requires HeadRead(w, 7) && |w| < FrameLen(w)
      ensures ScanChunk(G(), w[..n], w[n..] + tail) == ScanChunk(G(), w, tail)
    {
      forall k | n < k <= |w|
        ensures G()(w[..k]).More?
      {
        JudgePrefix(address, w, k);
      }
      ScanMore(G(), w, n, tail);
    }

    lemma OneByteLonger(p: seq<byte>, c: seq<byte>, i: nat, j: nat)
      requires i <= j < |c|
      ensures p + c[i..j] + [c[j]] == p + c[i..j + 1]
    {
    }

    lemma Regrouped(p: seq<byte>, c: seq<byte>, i: nat, j: nat)
      requires i <= j <= |c|
      ensures var w := p + c[i..j]; w[..|p|] == p && w[|p|..] + c[j..] == c[i..]
    {
    }

    /** The data loop, entered with ix data bytes read, and what follows it. */
    method DataState(input: Buffer) returns (suspended: bool)
      requires Held() && |frame| > 7 && HasData(fc) && HeadRead(frame, 7) && (at == BeforeData || at == NextData)
      requires |frame| == 7 + HeadLen(fc) + ix && (ix < pdu.i8_1 || ix == pdu.i8_1 == 0)
      requires input.Valid() && mIx < input.size
      modifies this
      ensures Advanced(old(frame), old(Views(calls)), old(mIx), input, suspended)
      ensures suspended || mIx > old(mIx)
    {
      if pdu.i8_1 == 0 {
        // the loop does not run, and the byte waited for is passed over
        suspended := NoData(input);
      } else {
        suspended := SomeData(input);
      }
    }

    method NoData(input: Buffer) returns (suspended: bool)
      requires Held() && |frame| > 7 && HasData(fc) && HeadRead(frame, 7)
      requires |frame| == 7 + HeadLen(fc) && pdu.i8_1 == 0 && input.Valid() && mIx < input.size
      modifies this
      ensures Advanced(old(frame), old(Views(calls)), old(mIx), input, suspended) && mIx > old(mIx)
    {
      ghost var p := frame;
      frame := frame + [input.data[mIx]];
      assert Held();
      suspended := WholePdu(input, p);
    }

    method SomeData(input: Buffer) returns (suspended: bool)
      requires InData() && input.Valid() && mIx < input.size
      modifies this
      ensures Advanced(old(frame), old(Views(calls)), old(mIx), input, suspended)
      ensures suspended || mIx > old(mIx)
    {
      ghost var c, i := input.Contents(), mIx;
      suspended := DataLoop(input);
      if suspended {
        DataIsMore(old(frame), c, i, mIx);
        assert c[mIx..] == [];
      } else {
        OneByteLonger(old(frame), c, i, mIx);
        DataIsMore(old(frame), c, i, mIx);
        suspended := WholePdu(input, old(frame) + c[i..mIx]);
      }
    }

    /** The data loop.  Unless it suspends it ends standing at the last data byte, which it has taken. */
    method DataLoop(input: Buffer) returns (suspended: bool)
      requires InData() && input.Valid() && mIx < input.size
      modifies this`mIx, this`at, this`ix, this`pdu, this`frame
      ensures old(mIx) <= mIx <= input.size && suspended == (mIx == input.size)
      ensures frame == old(frame) + input.Contents()[old(mIx)..if suspended then mIx else mIx + 1]
      ensures HeadRead(frame, 7) && FrameLen(frame) == old(FrameLen(frame))
      ensures if suspended then Valid() && |frame| < FrameLen(frame) else Whole()
    {
      ghost var c := input.Contents();
      var done := false;
      suspended := false;
      while !done && !suspended
        invariant old(mIx) <= mIx <= input.size && suspended == (mIx == input.size) && !(done && suspended)
        invariant frame == old(frame) + c[old(mIx)..if done then mIx + 1 else mIx]
        invariant HeadRead(frame, 7) && FrameLen(frame) == old(FrameLen(frame))
        invariant if done then Whole() else |frame| < FrameLen(frame) && if suspended then Valid() else InData()
        decreases !done, input.size - mIx
      {
        OneByteLonger(old(frame), c, old(mIx), mIx);
        done, suspended := DataByte(input);
      }
    }

    method Resume(input: Buffer) returns (suspended: bool)
      requires Valid() && input.Valid() && mIx < input.size
      modifies this
      ensures Advanced(old(frame), old(Views(calls)), old(mIx), input, suspended)
      ensures suspended || mIx > old(mIx)
    {
      match at {
        case UnitId => suspended := UnitIdState(input);
        case FunctionCode => suspended := FunctionState(input);
        case Word1Hi => suspended := FirstWordsState(input);
        case Word1Lo => suspended := FirstWordsState(input);
        case Word2Hi => suspended := FirstWordsState(input);
        case Word2Lo => suspended := Word2LoState(input);
        case Word3Hi => suspended := SecondWordsState(input);
        case Word3Lo => suspended := SecondWordsState(input);
        case Word4Hi => suspended := SecondWordsState(input);
        case Word4Lo => suspended := Word4LoState(input);
        case ByteCount => suspended := ByteCountState(input);
        case BeforeData => suspended := BeforeDataState(input);
        case NextData => suspended := DataState(input);
        case _ => suspended := HeaderState(input);
      }
    }

    method ResumeFrom(ghost p: seq<byte>, ghost events: seq<Event>, input: Buffer) returns (suspended: bool)
      requires Advanced(p, events, 0, input, false)
      modifies this
      ensures Advanced(p, events, 0, input, suspended) && (suspended || mIx > old(mIx))
    {
      ghost var c, p', events', i := input.Contents(), frame, Views(calls), mIx;
      suspended := Resume(input);
      AdvancesThen(G(), c, p, events, 0, p', events', i, frame, Views(calls), mIx, suspended);
    }

    /** `scan`: one chunk, not empty.  The calls made and the frame left unfinished are those of the framing rule. */
    method Scan(input: Buffer)
      requires Valid() && input.Valid() && input.size > 0
      modifies this
      ensures Valid()
      ensures var o := ScanChunk(FrameRule(address), old(frame), input.Contents());
              frame == o.rest && Views(calls) == old(Views(calls)) + o.events
    {
      ghost var c, p, events := input.Contents(), frame, Views(calls);
      mIx := 0;
      AdvancesStart(G(), c, p, events);
      var suspended := false;
      while !suspended
        invariant input.Valid() && input.Contents() == c && Advanced(p, events, 0, input, suspended)
        decreases !suspended, input.size - mIx
      {
        suspended := ResumeFrom(p, events, input);
      }
      AdvancesWhole(G(), c, p, events, frame, Views(calls), mIx);
    }
  }
}
