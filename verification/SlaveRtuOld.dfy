/** The RTU scanner made of state classes, slave_rtu_old.cpp: one `on_char` per state, one byte at a time.  The state
  * objects only tell which `on_char` is next and, for the data state, how many data bytes have been read. */
module SlaveRtuOld {
  import opened Bytes
  import opened Crc
  import opened Framing
  import opened Pdu
  import opened Rtu

  datatype State =
    | Init | FunctionCode
    | Word1Hi | Word1Lo | Word2Hi | Word2Lo | Word3Hi | Word3Lo | Word4Hi | Word4Lo
    | ByteCount | Data
    | SubDiag1 | SubDiag2 | DiagData1 | DiagData2
    | Checksum1 | Checksum2

  class Scanner {
    const address: byte
    var pdu: PduRecord
    var calls: seq<Callback>

    var current: State
    var index: nat
    var fc: byte
    var hi1: byte
    var lo1: byte
    var hi2: byte
    var lo2: byte
    var hi3: byte
    var lo3: byte
    var hi4: byte
    var lo4: byte
    var i8_1: byte
    var crc1: byte
    var crc2: byte
    var crcBuffer: seq<byte>

    // The byte read after a byte count of zero, which the code stores nowhere.
    ghost var swallowed: byte

    /** The frame's bytes up to the checksum. */
    ghost function Body(): seq<byte>
      reads this
    {
      if HeadRead(crcBuffer, 1) && CountIsZero(crcBuffer, 1) then crcBuffer + [swallowed] else crcBuffer
    }

    /** The bytes of the frame being read. */
    ghost function Prefix(): seq<byte>
      reads this
    {
      match current
      case Init => []
      case Checksum1 => Body()
      case Checksum2 => Body() + [crc1]
      case _ => crcBuffer
    }

    /** The fields hold what has been read of the frame. */
    ghost predicate Held()
      reads this
    {
      var b := crcBuffer;
      && (|b| > 0 ==> b[0] == address)
      && (|b| > 1 ==> b[1] == fc && ValidFc(fc))
      && (|b| > 2 ==> b[2] == hi1) && (|b| > 3 ==> b[3] == lo1)
      && (|b| > 4 ==> b[4] == hi2) && (|b| > 5 ==> b[5] == lo2)
      && (fc == 23 ==>
            && (|b| > 6 ==> b[6] == hi3) && (|b| > 7 ==> b[7] == lo3)
            && (|b| > 8 ==> b[8] == hi4) && (|b| > 9 ==> b[9] == lo4))
      && (|b| > 1 && HasData(fc) && HeadRead(b, 1) ==> i8_1 == CountByte(b, 1) && pdu.data == b[1 + HeadLen(fc)..])
    }

    /** The length of the checksum buffer and the data index in each state; the diagnostic states are never entered. */
    ghost predicate Positioned()
      reads this
    {
      && (current != Data ==> index == 0)
      && match current
         case Init => crcBuffer == []
         case FunctionCode => |crcBuffer| == 1
         case Word1Hi => |crcBuffer| == 2
         case Word1Lo => |crcBuffer| == 3
         case Word2Hi => |crcBuffer| == 4
         case Word2Lo => |crcBuffer| == 5
         case Word3Hi => |crcBuffer| == 6 && fc == 23
         case Word3Lo => |crcBuffer| == 7 && fc == 23
         case Word4Hi => |crcBuffer| == 8 && fc == 23
         case Word4Lo => |crcBuffer| == 9 && fc == 23
         case ByteCount => HasData(fc) && |crcBuffer| == HeadLen(fc)
         case Data =>
           && HasData(fc) && HeadRead(crcBuffer, 1) && |crcBuffer| == 1 + HeadLen(fc) + index
           && index == |pdu.data| && (index < i8_1 || index == i8_1 == 0)
         case Checksum1 => HeadRead(crcBuffer, 1) && |crcBuffer| == 1 + PduLen(crcBuffer, 1)
         case Checksum2 => HeadRead(crcBuffer, 1) && |crcBuffer| == 1 + PduLen(crcBuffer, 1)
         case _ => false
    }

    ghost predicate Valid()
      reads this
    {
      Positioned() && Held()
    }

    ghost function G(): Rule<Event> {
      FrameRule(StateClasses, address)
    }

    lemma ValidIsLive()
      requires Valid()
      ensures Judge(StateClasses, address, Prefix()).More? && |crcBuffer| <= 266
    {
      var q := Prefix();
      if current == Checksum1 || current == Checksum2 {
        assert q[0] == crcBuffer[0] && q[1] == crcBuffer[1] && HeadRead(q, 1);
        assert CountByte(q, 1) == CountByte(crcBuffer, 1);
      }
    }

    /** The byte c, read with the frame p begun and the events reported until then, had the effect the rule gives it. */
    ghost predicate Took(p: seq<byte>, events: seq<Event>, c: byte)
      reads this
    {
      && Valid()
      && match Judge(StateClasses, address, p + [c])
         case More => Prefix() == p + [c] && Views(calls) == events
         case End(event, _) => Prefix() == [] && Views(calls) == events + Reported(event)
    }

    lemma TookMore(p: seq<byte>, events: seq<Event>, c: byte)
      requires Valid() && Prefix() == p + [c] && Views(calls) == events
      ensures Took(p, events, c)
    {
      ValidIsLive();
    }

    lemma TookEnd(p: seq<byte>, events: seq<Event>, c: byte, event: Event, drop: bool)
      requires Valid() && Prefix() == [] && Judge(StateClasses, address, p + [c]) == End(Some(event), drop)
      requires Views(calls) == events + [event]
      ensures Took(p, events, c)
    {
    }

    constructor (address: byte, uninitialized: PduRecord)
      ensures Valid() && Prefix() == [] && calls == [] && this.address == address
    {
      this.address := address;
      pdu := uninitialized;
      calls := [];
      current := Init;
      crcBuffer := [];
      index := 0;
      fc, hi1, lo1, hi2, lo2, hi3, lo3, hi4, lo4 := 0, 0, 0, 0, 0, 0, 0, 0, 0;
      i8_1, crc1, crc2 := 0, 0, 0;
    }

    method PutInBuffer(c: byte)
      modifies this`crcBuffer
      ensures crcBuffer == old(crcBuffer) + [c]
    {
      crcBuffer := crcBuffer + [c];
    }

    method SwitchState(s: State)
      modifies this`current, this`crcBuffer
      ensures current == s && crcBuffer == if s == Init then [] else old(crcBuffer)
    {
      if s == Init {
        crcBuffer := [];
      }
      current := s;
    }

    method InitOnChar(c: byte)
      requires Valid() && current == Init
      modifies this
      ensures Took(old(Prefix()), old(Views(calls)), c)
    {
      assert [] + [c] == [c];
      if c != address {
        return;
      }
      PutInBuffer(c);
      SwitchState(FunctionCode);
    }

    method FunctionCodeOnChar(c: byte)
      requires Valid() && current == FunctionCode
      modifies this
      ensures Took(old(Prefix()), old(Views(calls)), c)
    {
      if ValidFc(c) {
        fc := c;
        if c == 8 {
          assert false;
        } else {
          SwitchState(Word1Hi);
        }
        PutInBuffer(c);
        TookMore(old(Prefix()), old(Views(calls)), c);
      } else {
        SwitchState(Init);
      }
    }

    method Word1HiOnChar(c: byte)
      requires Valid() && current == Word1Hi
      modifies this
      ensures Took(old(Prefix()), old(Views(calls)), c)
    {
      hi1 := c;
      PutInBuffer(c);
      SwitchState(Word1Lo);
      TookMore(old(Prefix()), old(Views(calls)), c);
    }

    method Word1LoOnChar(c: byte)
      requires Valid() && current == Word1Lo
      modifies this
      ensures Took(old(Prefix()), old(Views(calls)), c)
    {
      lo1 := c;
      PutInBuffer(c);
      SwitchState(Word2Hi);
      TookMore(old(Prefix()), old(Views(calls)), c);
    }

    method Word2HiOnChar(c: byte)
      requires Valid() && current == Word2Hi
      modifies this
      ensures Took(old(Prefix()), old(Views(calls)), c)
    {
      hi2 := c;
      PutInBuffer(c);
      SwitchState(Word2Lo);
      TookMore(old(Prefix()), old(Views(calls)), c);
    }

    method TakeWord2Lo(c: byte)
      requires Valid() && current == Word2Lo
      modifies this`lo2, this`crcBuffer, this`current
      ensures Valid() && Prefix() == old(Prefix()) + [c]
    {
      lo2 := c;
      PutInBuffer(c);
      if fc == 15 || fc == 16 {
        SwitchState(ByteCount);
      } else if fc == 23 {
        SwitchState(Word3Hi);
      } else {
        SwitchState(Checksum1);
      }
    }

    method Word2LoOnChar(c: byte)
      requires Valid() && current == Word2Lo
      modifies this
      ensures Took(old(Prefix()), old(Views(calls)), c)
    {
      TakeWord2Lo(c);
      TookMore(old(Prefix()), old(Views(calls)), c);
    }

    method Word3HiOnChar(c: byte)
      requires Valid() && current == Word3Hi
      modifies this
      ensures Took(old(Prefix()), old(Views(calls)), c)
    {
      hi3 := c;
      PutInBuffer(c);
      SwitchState(Word3Lo);
      TookMore(old(Prefix()), old(Views(calls)), c);
    }

    method Word3LoOnChar(c: byte)
      requires Valid() && current == Word3Lo
      modifies this
      ensures Took(old(Prefix()), old(Views(calls)), c)
    {
      lo3 := c;
      PutInBuffer(c);
      SwitchState(Word4Hi);
      TookMore(old(Prefix()), old(Views(calls)), c);
    }

    method Word4HiOnChar(c: byte)
      requires Valid() && current == Word4Hi
      modifies this
      ensures Took(old(Prefix()), old(Views(calls)), c)
    {
      hi4 := c;
      PutInBuffer(c);
      SwitchState(Word4Lo);
      TookMore(old(Prefix()), old(Views(calls)), c);
    }

    method Word4LoOnChar(c: byte)
      requires Valid() && current == Word4Lo
      modifies this
      ensures Took(old(Prefix()), old(Views(calls)), c)
    {
      lo4 := c;
      PutInBuffer(c);
      SwitchState(ByteCount);
      TookMore(old(Prefix()), old(Views(calls)), c);
    }

    method TakeByteCount(c: byte)
      requires Valid() && current == ByteCount
      modifies this`i8_1, this`pdu, this`crcBuffer, this`current
      ensures Valid() && Prefix() == old(Prefix()) + [c]
    {
      i8_1 := c;
      PutInBuffer(c);
      ClearValue();
      SwitchState(Data);
    }

    method ByteCountOnChar(c: byte)
      requires Valid() && current == ByteCount
      modifies this
      ensures Took(old(Prefix()), old(Views(calls)), c)
    {
      TakeByteCount(c);
      TookMore(old(Prefix()), old(Views(calls)), c);
    }

    method ClearValue()
      modifies this`pdu
      ensures pdu == old(pdu).(data := [])
    {
      pdu := pdu.(data := []);
    }

    method PutValueChar(c: byte)
      requires Held() && |crcBuffer| > 1 && HasData(fc) && HeadRead(crcBuffer, 1)
      modifies this`pdu, this`crcBuffer
      ensures pdu == old(pdu).(data := old(pdu.data) + [c]) && crcBuffer == old(crcBuffer) + [c]
      ensures Held() && HeadRead(crcBuffer, 1)
    {
      pdu := pdu.(data := pdu.data + [c]);
      PutInBuffer(c);
      assert crcBuffer[1 + HeadLen(fc)..] == old(crcBuffer)[1 + HeadLen(fc)..] + [c];
    }

    method DataOnChar(c: byte)
      requires Valid() && current == Data
      modifies this
      ensures Took(old(Prefix()), old(Views(calls)), c)
    {
      if index < i8_1 {
        PutValueChar(c);
        index := index + 1;
      } else {
        swallowed := c;
      }
      LeaveDataWhenComplete(old(Prefix()), c);
    }

    /** The second half of the data state's `on_char`. */
    method LeaveDataWhenComplete(ghost p: seq<byte>, c: byte)
      requires Held() && current == Data && HasData(fc) && HeadRead(crcBuffer, 1)
      requires |crcBuffer| == 1 + HeadLen(fc) + index && index <= i8_1
      requires if i8_1 == 0 then crcBuffer == p && swallowed == c else crcBuffer == p + [c]
      modifies this`index, this`current, this`crcBuffer
      ensures Took(p, old(Views(calls)), c)
    {
      if index == i8_1 {
        index := 0;
        SwitchState(Checksum1);
      }
      TookMore(p, old(Views(calls)), c);
    }

    method TakeChecksum1(c: byte)
      requires Valid() && current == Checksum1
      modifies this`crc1, this`crcBuffer, this`current
      ensures Valid() && Prefix() == old(Prefix()) + [c]
    {
      crc1 := c;
      SwitchState(Checksum2);
    }

    method Checksum1OnChar(c: byte)
      requires Valid() && current == Checksum1
      modifies this
      ensures Took(old(Prefix()), old(Views(calls)), c)
    {
      TakeChecksum1(c);
      TookMore(old(Prefix()), old(Views(calls)), c);
    }

    method Checksum2OnChar(c: byte)
      requires Valid() && current == Checksum2
      modifies this
      ensures Took(old(Prefix()), old(Views(calls)), c)
    {
      ChecksumDecides(c);
      crc2 := c;
      ghost var event := Called(c);
      ProcessPdu();
      TookEnd(old(Prefix()), old(Views(calls)), c, event, false);
    }

    /** The record as `process_pdu` fills it in. */
    ghost function Filled(): PduRecord
      reads this
    {
      pdu.(fc := fc, i16_1 := Combine(hi1, lo1), i16_2 := Combine(hi2, lo2), i8_1 := i8_1,
           i16_3 := Combine(hi3, lo3), i16_4 := Combine(hi4, lo4))
    }

    /** What is called back when the last byte is c. */
    ghost function Called(c: byte): Event
      reads this
    {
      if Accepted(crcBuffer + [crc1, c]) then PduEvent(Defined(Filled())) else Event.Nonsense
    }

    lemma ChecksumDecides(c: byte)
      requires Valid() && current == Checksum2
      ensures Judge(StateClasses, address, Prefix() + [c]) == End(Some(Called(c)), false)
    {
      JudgeWhole(StateClasses, address, crcBuffer, Body()[|crcBuffer|..], crc1, c);
      assert crcBuffer + Body()[|crcBuffer|..] == Body();
      assert Defined(Filled()) == Decode(crcBuffer, 1);
    }

    method ProcessPdu()
      modifies this`pdu, this`calls, this`current, this`crcBuffer
      ensures current == Init && crcBuffer == []
      ensures Views(calls) == old(Views(calls)) + [old(Called(crc2))]
    {
      var ok := CheckCrcRtu(crcBuffer, crc1, crc2);
      if !ok {
        calls := calls + [NonsenseCallback];
      } else {
        pdu := pdu.(fc := fc, i16_1 := Combine(hi1, lo1), i16_2 := Combine(hi2, lo2), i8_1 := i8_1);
        pdu := pdu.(i16_3 := Combine(hi3, lo3), i16_4 := Combine(hi4, lo4));
        calls := calls + [PduCallback(pdu)];
      }
      SwitchState(Init);
    }

    method OnChar(c: byte)
      requires Valid()
      modifies this
      ensures Took(old(Prefix()), old(Views(calls)), c)
    {
      match current {
        case Init => InitOnChar(c);
        case FunctionCode => FunctionCodeOnChar(c);
        case Word1Hi => Word1HiOnChar(c);
        case Word1Lo => Word1LoOnChar(c);
        case Word2Hi => Word2HiOnChar(c);
        case Word2Lo => Word2LoOnChar(c);
        case Word3Hi => Word3HiOnChar(c);
        case Word3Lo => Word3LoOnChar(c);
        case Word4Hi => Word4HiOnChar(c);
        case Word4Lo => Word4LoOnChar(c);
        case ByteCount => ByteCountOnChar(c);
        case Data => DataOnChar(c);
        case Checksum1 => Checksum1OnChar(c);
        case Checksum2 => Checksum2OnChar(c);
        case _ => assert false;
      }
    }

    lemma {:induction false} TookIsScan(p: seq<byte>, events: seq<Event>, c: seq<byte>, i: nat)
      requires i < |c| && Took(p, events, c[i])
      ensures var o, o' := ScanChunk(G(), p, c[i..]), ScanChunk(G(), Prefix(), c[i + 1..]);
              o.rest == o'.rest && events + o.events == Views(calls) + o'.events
    {
      ScanStep(G(), p, c, i);
    }

    /** `scan`: the calls made and the frame left unfinished are those of the framing rule; a null buffer is ignored. */
    method Scan(input: Buffer?)
      requires Valid() && (input != null ==> input.Valid())
      modifies this
      ensures Valid()
      ensures input == null ==> Prefix() == old(Prefix()) && calls == old(calls)
      ensures input != null ==>
                var o := ScanChunk(FrameRule(StateClasses, address), old(Prefix()), input.Contents());
                Prefix() == o.rest && Views(calls) == old(Views(calls)) + o.events
    {
      if input == null {
        return;
      }
      var ix := 0;
      ghost var c, o := input.Contents(), ScanChunk(G(), Prefix(), input.Contents());
      assert c[0..] == c;
      while ix < input.size
        invariant 0 <= ix <= input.size && Valid()
        invariant var o' := ScanChunk(G(), Prefix(), c[ix..]);
                  o.rest == o'.rest && old(Views(calls)) + o.events == Views(calls) + o'.events
      {
        ghost var p, events := Prefix(), Views(calls);
        OnChar(input.data[ix]);
        TookIsScan(p, events, c, ix);
        ix := ix + 1;
      }
    }
  }
}
