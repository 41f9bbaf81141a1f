/** The coroutine RTU scanner of slave_rtu_scanner.cpp.  The coroutine's stack is the object's fields and a resume
  * point. */
module SlaveRtuScanner {
  import opened Bytes
  import opened Crc
  import opened Framing
  import opened Pdu
  import opened Rtu

  /** Where `scan_co` continues: the statement after each `sink`. */
  datatype ResumePoint =
    | PreAddress | FunctionCode
    | Word1Hi | Word1Lo | Word2Hi | Word2Lo | SwitchOnFc
    | Word3Lo | Word4Hi | Word4Lo | ByteCount
    | BeforeData | NextData
    | CrcLow | AfterPdu

  class Scanner {
    const address: byte
    var pdu: PduRecord
    var calls: seq<Callback>

    // the input position and the locals of scan_co
    var mIx: nat
    var at: ResumePoint
    var ix: nat
    var fc: byte
    var hi1: byte
    var lo1: byte
    var hi2: byte
    var lo2: byte
    var hi3: byte
    var lo3: byte
    var hi4: byte
    var lo4: byte
    var crcBuf: seq<byte>
    var crcHi: byte

    /** The bytes of the frame being read. */
    ghost function Prefix(): seq<byte>
      reads this
    {
      match at
      case PreAddress => []
      case AfterPdu => []
      case CrcLow => crcBuf + [crcHi]
      case _ => crcBuf
    }

    /** The locals and the record hold what has been read of the frame, field by field. */
    ghost predicate Held()
      reads this
    {
      var b := crcBuf;
      && (|b| > 0 ==> b[0] == address)
      && (|b| > 1 ==> b[1] == fc && ValidFc(fc))
      && (|b| > 2 ==> b[2] == hi1) && (|b| > 3 ==> b[3] == lo1)
      && (|b| > 4 ==> b[4] == hi2) && (|b| > 5 ==> b[5] == lo2)
      && (fc == 23 ==>
            && (|b| > 6 ==> b[6] == hi3) && (|b| > 7 ==> b[7] == lo3) && (|b| > 8 ==> b[8] == hi4)
            && (|b| > 9 ==> pdu.i16_3 == Combine(b[6], b[7]) && pdu.i16_4 == Combine(b[8], b[9])))
      && (|b| > 1 && HasData(fc) && HeadRead(b, 1) ==>
            pdu.i8_1 == CountByte(b, 1) && pdu.data == b[1 + HeadLen(fc)..])
    }

    /** How much of the frame has been read at each resume point. */
    ghost predicate Positioned()
      reads this
    {
      match at
      case PreAddress => crcBuf == []
      case FunctionCode => |crcBuf| == 1
      case Word1Hi => |crcBuf| == 2
      case Word1Lo => |crcBuf| == 3
      case Word2Hi => |crcBuf| == 4
      case Word2Lo => |crcBuf| == 5
      case SwitchOnFc => |crcBuf| == 6
      case Word3Lo => |crcBuf| == 7 && fc == 23
      case Word4Hi => |crcBuf| == 8 && fc == 23
      case Word4Lo => |crcBuf| == 9 && fc == 23
      case ByteCount => |crcBuf| == 10 && fc == 23
      case BeforeData => HasData(fc) && |crcBuf| == 1 + HeadLen(fc)
      case NextData => HasData(fc) && ix < pdu.i8_1 && |crcBuf| == 1 + HeadLen(fc) + ix + 1
      case CrcLow => HeadRead(crcBuf, 1) && |crcBuf| == 1 + PduLen(crcBuf, 1)
      case AfterPdu => true
    }

    ghost predicate Valid()
      reads this
    {
      Positioned() && (at != AfterPdu ==> Held())
    }

    ghost function G(): Rule<Event> {
      FrameRule(Coroutine, address)
    }

    /** Every frame a valid scanner is in the middle of needs more bytes; the buffer never exceeds 266 bytes. */
    lemma ValidIsLive()
      requires Valid()
      ensures Judge(Coroutine, address, Prefix()).More? && (at != AfterPdu ==> |crcBuf| <= 266)
    {
      if at == CrcLow {
        var q := crcBuf + [crcHi];
        assert q[0] == crcBuf[0] && q[1] == crcBuf[1] && HeadRead(q, 1) && CountIsZero(q, 1) == CountIsZero(crcBuf, 1);
        assert PduLen(q, 1) == PduLen(crcBuf, 1);
      }
    }

    /** Since position i of the chunk the scanner has done what the framing rule says. */
    ghost predicate Advanced(p: seq<byte>, events: seq<Event>, i: nat, input: Buffer, suspended: bool)
      reads this, input, input.data
    {
      && Valid() && input.Valid()
      && Advances(G(), input.Contents(), p, events, i, Prefix(), Views(calls), mIx, suspended)
    }

    // One byte that leaves the frame unfinished.
    lemma OneMoreByte(p: seq<byte>, events: seq<Event>, i: nat, input: Buffer, suspended: bool)
      requires Valid() && input.Valid() && i < input.size && mIx == i + 1 && suspended == (mIx == input.size)
      requires Prefix() == p + [input.data[i]] && Views(calls) == events
      ensures Advanced(p, events, i, input, suspended)
    {
      ValidIsLive();
      MoreAdvances(G(), input.Contents(), p, events, i, suspended);
    }

    // One byte that ends the frame.
    lemma FrameEnds(p: seq<byte>, events: seq<Event>, i: nat, input: Buffer, suspended: bool, event: Option<Event>)
      requires Valid() && input.Valid() && i < input.size && i <= mIx <= input.size
      requires Prefix() == [] && Views(calls) == events + Reported(event)
      requires var v := Judge(Coroutine, address, p + [input.data[i]]);
               && v.End? && v.event == event
               && (if v.drop then suspended else mIx == i + 1 && suspended == (mIx == input.size))
      ensures Advanced(p, events, i, input, suspended)
    {
      EndAdvances(G(), input.Contents(), p, events, i, mIx, suspended);
    }

    // Between frames a byte other than the address changes nothing.
    lemma NoiseSkipped(c: seq<byte>, i: nat)
      requires i < |c| && c[i] != address
      ensures ScanChunk(G(), [], c[i..]) == ScanChunk(G(), [], c[i + 1..])
    {
      assert c[i..][0] == c[i] && c[i..][1..] == c[i + 1..];
      assert [] + [c[i]] == [c[i]];
      assert G()([c[i]]) == End(None, false);
    }

    lemma AdvancedFrom(events: seq<Event>, i: nat, j: nat, input: Buffer, suspended: bool)
      requires input.Valid() && i <= j <= input.size
      requires ScanChunk(G(), [], input.Contents()[i..]) == ScanChunk(G(), [], input.Contents()[j..])
      requires Advanced([], events, j, input, suspended)
      ensures Advanced([], events, i, input, suspended)
    {
    }

    constructor (address: byte, uninitialized: PduRecord)
      ensures Valid() && Prefix() == [] && calls == [] && this.address == address
    {
      this.address := address;
      pdu := uninitialized;
      calls := [];
      at := PreAddress;
      crcBuf := [];
      mIx, ix := 0, 0;
      fc, hi1, lo1, hi2, lo2, hi3, lo3, hi4, lo4, crcHi := 0, 0, 0, 0, 0, 0, 0, 0, 0, 0;
    }

    /** `check_buf_end`: true when the coroutine suspends to wait for the next chunk. */
    method CheckBufEnd(input: Buffer) returns (suspended: bool)
      requires mIx < input.size
      modifies this`mIx
      ensures mIx == old(mIx) + 1 && suspended == (mIx == input.size)
    {
      mIx := mIx + 1;
      suspended := mIx == input.size;
    }

    /** Report nonsense, go back to the initial state and wait for the next chunk, dropping the rest of this one. */
    method Nonsense()
      modifies this`calls, this`crcBuf, this`at
      ensures calls == old(calls) + [NonsenseCallback] && crcBuf == [] && at == PreAddress
    {
      calls := calls + [NonsenseCallback];
      crcBuf := [];
      at := PreAddress;
    }

    /** The loop at `address_state`: pass over bytes other than the address. */
    method SkipNoise(input: Buffer)
      requires input.Valid() && mIx <= input.size
      modifies this`mIx
      ensures old(mIx) <= mIx <= input.size && (mIx < input.size ==> input.data[mIx] == address)
      ensures ScanChunk(G(), [], input.Contents()[old(mIx)..]) == ScanChunk(G(), [], input.Contents()[mIx..])
    {
      ghost var c := input.Contents();
      while mIx != input.size && address != input.data[mIx]
        invariant old(mIx) <= mIx <= input.size
        invariant ScanChunk(G(), [], c[old(mIx)..]) == ScanChunk(G(), [], c[mIx..])
        decreases input.size - mIx
      {
        NoiseSkipped(c, mIx);
        mIx := mIx + 1;
      }
    }

    method AddressState(input: Buffer) returns (suspended: bool)
      requires Valid() && input.Valid() && mIx < input.size && (at == PreAddress || at == AfterPdu)
      modifies this
      ensures Advanced(old(Prefix()), old(Views(calls)), old(mIx), input, suspended)
      ensures suspended || mIx > old(mIx)
    {
      if at == AfterPdu {
        crcBuf := [];
      }
      SkipNoise(input);
      ghost var j := mIx;
      if mIx == input.size {
        at := PreAddress;
        suspended := true;
        assert input.Contents()[mIx..] == [];
      } else {
        crcBuf := crcBuf + [input.data[mIx]];
        at := FunctionCode;
        suspended := CheckBufEnd(input);
        assert Prefix() == [] + [input.data[j]];
        OneMoreByte([], old(Views(calls)), j, input, suspended);
      }
      AdvancedFrom(old(Views(calls)), old(mIx), j, input, suspended);
    }

    method FunctionState(input: Buffer) returns (suspended: bool)
      requires Valid() && input.Valid() && mIx < input.size && at == FunctionCode
      modifies this
      ensures Advanced(old(Prefix()), old(Views(calls)), old(mIx), input, suspended)
      ensures suspended || mIx > old(mIx)
    {
      var b := input.data[mIx];
      if ValidFc(b) {
        crcBuf := crcBuf + [b];
        fc := b;
        at := Word1Hi;
        suspended := CheckBufEnd(input);
        OneMoreByte(old(Prefix()), old(Views(calls)), old(mIx), input, suspended);
      } else {
        Nonsense();
        suspended := true;
        FrameEnds(old(Prefix()), old(Views(calls)), old(mIx), input, suspended, Some(Event.Nonsense));
      }
    }

    method FirstWordsState(input: Buffer) returns (suspended: bool)
      requires Valid() && input.Valid() && mIx < input.size
      requires at in {Word1Hi, Word1Lo, Word2Hi, Word2Lo}
      modifies this
      ensures Advanced(old(Prefix()), old(Views(calls)), old(mIx), input, suspended)
      ensures suspended || mIx > old(mIx)
    {
      var b := input.data[mIx];
      crcBuf := crcBuf + [b];
      match at {
        case Word1Hi => hi1 := b; at := Word1Lo;
        case Word1Lo => lo1 := b; at := Word2Hi;
        case Word2Hi => hi2 := b; at := Word2Lo;
        case Word2Lo => lo2 := b; at := SwitchOnFc;
      }
      suspended := CheckBufEnd(input);
      OneMoreByte(old(Prefix()), old(Views(calls)), old(mIx), input, suspended);
    }

    /** A byte of the other two words, but for their first. */
    method TakeSecondWords(b: byte)
      requires Valid() && at in {Word3Lo, Word4Hi, Word4Lo}
      modifies this`lo3, this`hi4, this`lo4, this`pdu, this`at, this`crcBuf
      ensures Valid() && Prefix() == old(Prefix()) + [b]
    {
      crcBuf := crcBuf + [b];
      match at {
        case Word3Lo => lo3 := b; at := Word4Hi;
        case Word4Hi => hi4 := b; at := Word4Lo;
        case Word4Lo =>
          lo4 := b;
          pdu := pdu.(i16_3 := Combine(hi3, lo3), i16_4 := Combine(hi4, lo4));
          at := ByteCount;
      }
    }

    method SecondWordsState(input: Buffer) returns (suspended: bool)
      requires Valid() && input.Valid() && mIx < input.size
      requires at in {Word3Lo, Word4Hi, Word4Lo}
      modifies this
      ensures Advanced(old(Prefix()), old(Views(calls)), old(mIx), input, suspended)
      ensures suspended || mIx > old(mIx)
    {
      TakeSecondWords(input.data[mIx]);
      suspended := CheckBufEnd(input);
      OneMoreByte(old(Prefix()), old(Views(calls)), old(mIx), input, suspended);
    }

    method SwitchState(input: Buffer) returns (suspended: bool)
      requires Valid() && input.Valid() && mIx < input.size && at == SwitchOnFc
      modifies this
      ensures Advanced(old(Prefix()), old(Views(calls)), old(mIx), input, suspended)
      ensures suspended || mIx > old(mIx)
    {
      if fc == 23 {
        crcBuf := crcBuf + [input.data[mIx]];
        hi3 := input.data[mIx];
        at := Word3Lo;
        suspended := CheckBufEnd(input);
        OneMoreByte(old(Prefix()), old(Views(calls)), old(mIx), input, suspended);
      } else if fc == 15 || fc == 16 {
        suspended := ByteCountState(input);
      } else {
        suspended := CrcHighState(input);
      }
    }

    method TakeByteCount(b: byte)
      requires Valid() && (at == ByteCount || (at == SwitchOnFc && (fc == 15 || fc == 16)))
      modifies this`pdu, this`at, this`crcBuf
      ensures Valid() && Prefix() == old(Prefix()) + [b]
    {
      pdu := pdu.(data := []);
      crcBuf := crcBuf + [b];
      pdu := pdu.(i8_1 := b);
      at := BeforeData;
    }

    method ByteCountState(input: Buffer) returns (suspended: bool)
      requires Valid() && input.Valid() && mIx < input.size
      requires at == ByteCount || (at == SwitchOnFc && (fc == 15 || fc == 16))
      modifies this
      ensures Advanced(old(Prefix()), old(Views(calls)), old(mIx), input, suspended)
      ensures suspended || mIx > old(mIx)
    {
      TakeByteCount(input.data[mIx]);
      suspended := CheckBufEnd(input);
      OneMoreByte(old(Prefix()), old(Views(calls)), old(mIx), input, suspended);
    }

    method CrcHighState(input: Buffer) returns (suspended: bool)
      requires Held() && input.Valid() && mIx < input.size
      requires HeadRead(crcBuf, 1) && |crcBuf| == 1 + PduLen(crcBuf, 1) && Prefix() == crcBuf
      modifies this
      ensures Advanced(old(Prefix()), old(Views(calls)), old(mIx), input, suspended)
      ensures suspended || mIx > old(mIx)
    {
      crcHi := input.data[mIx];
      at := CrcLow;
      suspended := CheckBufEnd(input);
      OneMoreByte(old(Prefix()), old(Views(calls)), old(mIx), input, suspended);
    }

    method BeforeDataState(input: Buffer) returns (suspended: bool)
      requires Valid() && input.Valid() && mIx < input.size && at == BeforeData
      modifies this
      ensures Advanced(old(Prefix()), old(Views(calls)), old(mIx), input, suspended)
      ensures suspended || mIx > old(mIx)
    {
      ix := 0;
      suspended := DataState(input);
    }

    method NextDataState(input: Buffer) returns (suspended: bool)
      requires Valid() && input.Valid() && mIx < input.size && at == NextData
      modifies this
      ensures Advanced(old(Prefix()), old(Views(calls)), old(mIx), input, suspended)
      ensures suspended || mIx > old(mIx)
    {
      ix := ix + 1;
      suspended := DataState(input);
    }

    /** Standing before the test of the data loop, with ix data bytes read. */
    ghost predicate InData()
      reads this
    {
      && Held() && Prefix() == crcBuf && at != CrcLow && at != AfterPdu
      && |crcBuf| > 1 && HasData(fc) && HeadRead(crcBuf, 1)
      && ix <= pdu.i8_1 && |crcBuf| == 1 + HeadLen(fc) + ix
    }

    method PushData(b: byte)
      requires InData() && ix < pdu.i8_1
      modifies this`crcBuf, this`pdu
      ensures Held() && crcBuf == old(crcBuf) + [b] && HeadRead(crcBuf, 1) && pdu.i8_1 == old(pdu.i8_1)
    {
      crcBuf := crcBuf + [b];
      pdu := pdu.(data := pdu.data + [b]);
      assert crcBuf[1 + HeadLen(fc)..] == old(crcBuf)[1 + HeadLen(fc)..] + [b];
    }

    /** One round of the data loop. */
    method DataByte(input: Buffer) returns (suspended: bool)
      requires InData() && ix < pdu.i8_1 && input.Valid() && mIx < input.size
      modifies this`mIx, this`at, this`ix, this`crcBuf, this`pdu
      ensures mIx == old(mIx) + 1 && suspended == (mIx == input.size) && crcBuf == old(crcBuf) + [input.data[old(mIx)]]
      ensures pdu.i8_1 == old(pdu.i8_1)
      ensures if suspended then Valid() && at == NextData else InData() && ix == old(ix) + 1
    {
      PushData(input.data[mIx]);
      suspended := CheckBufEnd(input);
      if suspended {
        at := NextData;
      } else {
        ix := ix + 1;
      }
    }

    /** The data loop, entered with ix data bytes read. */
    method DataLoop(input: Buffer) returns (suspended: bool)
      requires InData() && input.Valid() && mIx < input.size
      modifies this`mIx, this`at, this`ix, this`crcBuf, this`pdu
      ensures old(mIx) <= mIx <= input.size && suspended == (mIx == input.size)
      ensures if suspended then Valid() && at == NextData else InData() && ix == pdu.i8_1
      ensures crcBuf == old(crcBuf) + input.Contents()[old(mIx)..mIx] && pdu.i8_1 == old(pdu.i8_1)
    {
      ghost var c := input.Contents();
      suspended := false;
      while ix < pdu.i8_1 && !suspended
        invariant old(mIx) <= mIx <= input.size && suspended == (mIx == input.size)
        invariant if suspended then Valid() && at == NextData else InData()
        invariant crcBuf == old(crcBuf) + c[old(mIx)..mIx] && pdu.i8_1 == old(pdu.i8_1)
        decreases input.size - mIx
      {
        OneByteLonger(old(crcBuf), c, old(mIx), mIx);
        suspended := DataByte(input);
      }
    }

    lemma OneByteLonger(p: seq<byte>, c: seq<byte>, i: nat, j: nat)
      requires i <= j < |c|
      ensures p + c[i..j] + [c[j]] == p + c[i..j + 1]
    {
    }

    lemma Regrouped(p: seq<byte>, c: seq<byte>, i: nat, j: nat)
      requires i <= j <= |c|
      ensures var w := p + c[i..j]; w[..|p|] == p && w[|p|..] + c[j..] == c[i..]
    {
    }

    method DataState(input: Buffer) returns (suspended: bool)
      requires InData() && input.Valid() && mIx < input.size
      modifies this
      ensures Advanced(old(crcBuf), old(Views(calls)), old(mIx), input, suspended)
      ensures suspended || mIx > old(mIx)
    {
      suspended := DataLoop(input);
      DataIsMore(old(crcBuf), input.Contents(), old(mIx), mIx);
      if suspended {
        assert input.Contents()[mIx..] == [];
      } else {
        suspended := CrcHighState(input);
      }
    }

    /** Data bytes, no more than the byte count, leave the frame unfinished. */
    lemma {:induction false} DataIsMore(p: seq<byte>, c: seq<byte>, i: nat, j: nat)
      requires i <= j <= |c| && |p| > 1 && p[0] == address && ValidFc(p[1])
      requires HeadRead(p, 1) && |p| + j - i <= 1 + PduLen(p, 1)
      ensures ScanChunk(G(), p, c[i..]) == ScanChunk(G(), p + c[i..j], c[j..])
    {
      HeadKept(p, 1, c[i..j]);
      DataPends(p + c[i..j], |p|, c[j..]);
      Regrouped(p, c, i, j);
    }

    lemma {:induction false} DataPends(w: seq<byte>, n: nat, tail: seq<byte>)
      requires 0 < n <= |w| && |w| > 1 && w[0] == address && ValidFc(w[1])
      requires HeadRead(w, 1) && |w| <= 1 + PduLen(w, 1)
      ensures ScanChunk(G(), w[..n], w[n..] + tail) == ScanChunk(G(), w, tail)
    {
      forall k | n < k <= |w|
        ensures G()(w[..k]).More?
      {
        JudgePrefix(Coroutine, address, w, k);
      }
      ScanMore(G(), w, n, tail);
    }

    method CrcLowState(input: Buffer) returns (suspended: bool)
      requires Valid() && input.Valid() && mIx < input.size && at == CrcLow
      modifies this
      ensures Advanced(old(Prefix()), old(Views(calls)), old(mIx), input, suspended)
      ensures suspended || mIx > old(mIx)
    {
      var crcLow := input.data[mIx];
      ChecksumDecides(crcLow);
      var ok := CheckCrcRtu(crcBuf, crcHi, crcLow);
      if ok {
        CallBack();
        suspended := CheckBufEnd(input);
        FrameEnds(old(Prefix()), old(Views(calls)), old(mIx), input, suspended, Some(PduEvent(Defined(pdu))));
      } else {
        Nonsense();
        suspended := true;
        FrameEnds(old(Prefix()), old(Views(calls)), old(mIx), input, suspended, Some(Event.Nonsense));
      }
    }

    /** Complete the record and call back with it. */
    method CallBack()
      modifies this`pdu, this`calls, this`at
      ensures pdu == old(pdu).(i16_1 := Combine(hi1, lo1), i16_2 := Combine(hi2, lo2), fc := fc)
      ensures at == AfterPdu && Views(calls) == old(Views(calls)) + [PduEvent(Defined(pdu))]
    {
      pdu := pdu.(i16_1 := Combine(hi1, lo1), i16_2 := Combine(hi2, lo2), fc := fc);
      calls := calls + [PduCallback(pdu)];
      at := AfterPdu;
    }

    // The last byte of a frame ends it, with the request the locals and the record hold if the checksum is right.
    lemma ChecksumDecides(crcLow: byte)
      requires Valid() && at == CrcLow
      ensures var filled := pdu.(i16_1 := Combine(hi1, lo1), i16_2 := Combine(hi2, lo2), fc := fc);
              Judge(Coroutine, address, Prefix() + [crcLow]) ==
              if Accepted(crcBuf + [crcHi, crcLow]) then End(Some(PduEvent(Defined(filled))), false)
              else End(Some(Event.Nonsense), true)
    {
      JudgeWhole(Coroutine, address, crcBuf, [], crcHi, crcLow);
      assert crcBuf + [] == crcBuf;
      assert Defined(pdu.(i16_1 := Combine(hi1, lo1), i16_2 := Combine(hi2, lo2), fc := fc)) == Decode(crcBuf, 1);
    }

    method Resume(input: Buffer) returns (suspended: bool)
      requires Valid() && input.Valid() && mIx < input.size
      modifies this
      ensures Advanced(old(Prefix()), old(Views(calls)), old(mIx), input, suspended)
      ensures suspended || mIx > old(mIx)
    {
      match at {
        case PreAddress => suspended := AddressState(input);
        case AfterPdu => suspended := AddressState(input);
        case FunctionCode => suspended := FunctionState(input);
        case SwitchOnFc => suspended := SwitchState(input);
        case ByteCount => suspended := ByteCountState(input);
        case BeforeData => suspended := BeforeDataState(input);
        case NextData => suspended := NextDataState(input);
        case CrcLow => suspended := CrcLowState(input);
        case Word3Lo => suspended := SecondWordsState(input);
        case Word4Hi => suspended := SecondWordsState(input);
        case Word4Lo => suspended := SecondWordsState(input);
        case _ => suspended := FirstWordsState(input);
      }
    }

    method ResumeFrom(ghost p: seq<byte>, ghost events: seq<Event>, input: Buffer) returns (suspended: bool)
      requires Advanced(p, events, 0, input, false)
      modifies this
      ensures Advanced(p, events, 0, input, suspended) && (suspended || mIx > old(mIx))
    {
      ghost var c, p', events', i := input.Contents(), Prefix(), Views(calls), mIx;
      suspended := Resume(input);
      AdvancesThen(G(), c, p, events, 0, p', events', i, Prefix(), Views(calls), mIx, suspended);
    }

    /** `scan`: one chunk, not empty.  The calls made and the frame left unfinished are those of the framing rule. */
    method Scan(input: Buffer)
      requires Valid() && input.Valid() && input.size > 0
      modifies this
      ensures Valid()
      ensures var o := ScanChunk(FrameRule(Coroutine, address), old(Prefix()), input.Contents());
              Prefix() == o.rest && Views(calls) == old(Views(calls)) + o.events
    {
      ghost var c, p, events := input.Contents(), Prefix(), Views(calls);
      mIx := 0;
      AdvancesStart(G(), c, p, events);
      var suspended := false;
      while !suspended
        invariant input.Valid() && input.Contents() == c && Advanced(p, events, 0, input, suspended)
        decreases !suspended, input.size - mIx
      {
        suspended := ResumeFrom(p, events, input);
      }
      AdvancesWhole(G(), c, p, events, Prefix(), Views(calls), mIx);
    }
  }
}
