/** The RTU server of rtu_server_data_handler.cpp: registers and coils in lazily filled maps, replies built in an output
  * buffer.  The serial port is left out: what `send_pdu` and `mirror_pdu` would write is appended to a log. */
module RtuServer {
  import opened Bytes
  import opened Crc
  import opened Framing
  import opened ModbusMemory
  import opened Pdu
  import opened PlainTerms
  import opened Rtu
  import SlaveRtuScanner

  // ---------------------------------------------------------------- the abstract server

  /** What is written to the port: a reply, or the input buffer sent back. */
  datatype Sent = Replied(bytes: seq<byte>) | Mirrored(bytes: seq<byte>)

  /** The unfinished frame, the memory, everything sent so far, and the number of reads begun and not yet completed. */
  datatype Server = Server(rest: seq<byte>, memory: Memory, sent: seq<Sent>, pendingReads: nat)

  /** What is sent for a request that came with the given chunk and left memory as m'. */
  function Answer(a: byte, m': Memory, r: Request, chunk: seq<byte>): Sent
    requires Total(m')
  {
    match Reply(a, m', r)
    case Some(bytes) => Replied(bytes)
    case None => Mirrored(chunk)
  }

  /** Serving a request that came with the given chunk.  Once the answer is written the next read begins. */
  function Serve(a: byte, s: Server, chunk: seq<byte>, r: Request): (s': Server)
    requires Total(s.memory)
    ensures Total(s'.memory) && s'.rest == s.rest
  {
    var m' := Apply(s.memory, r);
    Server(s.rest, m', s.sent + [Answer(a, m', r, chunk)], s.pendingReads + 1)
  }

  /** From s to s' the request in the record p, which came with the given chunk, was served, in plain terms: memory
    * changed as the record's fields say, one thing was sent, the chunk for functions 5 and 6 and else a reply that
    * holds what the fields ask for, and one read was begun. */
  ghost predicate PlainServed(a: byte, p: PduRecord, chunk: seq<byte>, s: Server, s': Server) {
    && s'.rest == s.rest && s'.pendingReads == s.pendingReads + 1
    && PlainEffect(p, s.memory, s'.memory)
    && |s'.sent| == |s.sent| + 1 && s'.sent[..|s.sent|] == s.sent
    && var out := s'.sent[|s.sent|];
       if p.fc == 5 || p.fc == 6 then out == Mirrored(chunk)
       else out.Replied? && PlainReply(a, p, s'.memory, out.bytes)
  }

  lemma ServeIsPlain(a: byte, s: Server, chunk: seq<byte>, p: PduRecord)
    requires Total(s.memory) && PlainRequest(p)
    ensures PlainServed(a, p, chunk, s, Serve(a, s, chunk, Defined(p)))
  {
    ApplyIsPlain(s.memory, p);
    ReplyIsPlain(a, p, Apply(s.memory, Defined(p)));
  }

  function ServeAll(a: byte, s: Server, chunk: seq<byte>, rs: seq<Request>): (s': Server)
    requires Total(s.memory)
    ensures Total(s'.memory) && s'.rest == s.rest
    decreases |rs|
  {
    if rs == [] then s else ServeAll(a, Serve(a, s, chunk, rs[0]), chunk, rs[1..])
  }

  /** The requests a chunk completes. */
  function Arriving(a: byte, rest: seq<byte>, chunk: seq<byte>): seq<Request> {
    Pdus(ScanChunk(FrameRule(Coroutine, a), rest, chunk).events)
  }

  predicate AllServable(rs: seq<Request>) {
    forall i :: 0 <= i < |rs| ==> Servable(rs[i])
  }

  /** Scanning one chunk and serving the requests it completes. */
  function Scanned(a: byte, s: Server, chunk: seq<byte>): (s': Server)
    requires Total(s.memory)
    ensures Total(s'.memory)
  {
    var rest' := ScanChunk(FrameRule(Coroutine, a), s.rest, chunk).rest;
    ServeAll(a, s.(rest := rest'), chunk, Arriving(a, s.rest, chunk))
  }

  /** Completing a read with one chunk. */
  function Handle(a: byte, s: Server, chunk: seq<byte>): (s': Server)
    requires Total(s.memory) && s.pendingReads > 0
    ensures Total(s'.memory)
  {
    Scanned(a, s.(pendingReads := s.pendingReads - 1), chunk)
  }

  // ---------------------------------------------------------------- the maps as total memory

  function AllCoils(coils: map<u16, bool>): (r: seq<bool>)
    ensures |r| == SPACE
  {
    seq(SPACE, a requires 0 <= a < SPACE => a in coils && coils[a])
  }

  function AllRegs(regs: map<u16, u16>): (r: seq<u16>)
    ensures |r| == SPACE
  {
    seq(SPACE, a requires 0 <= a < SPACE => if a in regs then regs[a] else 0)
  }

  /** Memory with nothing written yet. */
  function Blank(): (m: Memory)
    ensures Total(m) && forall x: u16 :: m.regs[x] == 0 && !m.coils[x]
  {
    Memory(seq(SPACE, _ => false), seq(SPACE, _ => 0))
  }

  class DataHandler {
    const devAddress: byte
    const scanner: SlaveRtuScanner.Scanner
    const input: Buffer
    const output: Buffer
    var coils: map<u16, bool>
    var regs: map<u16, u16>
    var sent: seq<Sent>
    var pendingReads: nat

    ghost predicate Valid()
      reads this, scanner, input, output
    {
      && scanner.Valid() && scanner.address == devAddress
      && input.Valid() && output.Valid() && input != output && input.data != output.data
    }

    ghost function Mem(): Memory
      reads this
    {
      Memory(AllCoils(coils), AllRegs(regs))
    }

    /** Memory is what the maps hold, and off or zero where they hold nothing. */
    lemma MemoryIsMaps()
      ensures forall x: u16 :: Mem().regs[x] == if x in regs then regs[x] else 0
      ensures forall x: u16 :: Mem().coils[x] <==> x in coils && coils[x]
    {
    }

    ghost function Abstract(): Server
      reads this, scanner
    {
      Server(scanner.Prefix(), Mem(), sent, pendingReads)
    }

    constructor (devAddress: byte, uninitialized: PduRecord)
      ensures this.devAddress == devAddress && coils == map[] && regs == map[] && sent == [] && pendingReads == 0
      ensures forall x: u16 :: Mem().regs[x] == 0 && !Mem().coils[x]
      ensures Valid() && Abstract() == Server([], Blank(), [], 0)
      ensures fresh(scanner) && fresh(input) && fresh(input.data) && fresh(output) && fresh(output.data)
    {
      this.devAddress := devAddress;
      scanner := new SlaveRtuScanner.Scanner(devAddress, uninitialized);
      input := new Buffer();
      output := new Buffer();
      coils, regs, sent, pendingReads := map[], map[], [], 0;
    }

    /** `start_read`: begin a read. */
    method StartRead()
      modifies this`pendingReads
      ensures pendingReads == old(pendingReads) + 1
    {
      pendingReads := pendingReads + 1;
    }

    /** `start`: begin the first read, if the port can be opened. */
    method Start(portOpen: bool) returns (ok: bool)
      modifies this`pendingReads
      ensures ok == portOpen && pendingReads == old(pendingReads) + if portOpen then 1 else 0
    {
      if !portOpen {
        return false;
      }
      StartRead();
      ok := true;
    }

    /** `handle_writing`: an answer has been written, well or not. */
    method HandleWriting()
      modifies this`pendingReads
      ensures pendingReads == old(pendingReads) + 1
    {
      StartRead();
    }

    // ------------------------------------------------------------- memory access

    method GetCoil(index: u16) returns (on: bool)
      modifies this`coils
      ensures on == (index in old(coils) && old(coils)[index])
      ensures on == AllCoils(coils)[index] && AllCoils(coils) == AllCoils(old(coils))
    {
      if index !in coils {
        coils := coils[index := false];
        return false;
      }
      return coils[index];
    }

    method SetCoil(index: u16, val: u16)
      modifies this`coils
      ensures coils == old(coils)[index := val != 0]
      ensures AllCoils(coils) == AllCoils(old(coils))[index := val != 0]
    {
      coils := coils[index := if val == 0 then false else true];
    }

    method SetReg(index: u16, val: u16)
      modifies this`regs
      ensures regs == old(regs)[index := val]
      ensures AllRegs(regs) == AllRegs(old(regs))[index := val]
    {
      regs := regs[index := val];
    }

    method GetReg(index: u16) returns (val: u16)
      modifies this`regs
      ensures val == if index in old(regs) then old(regs)[index] else 0
      ensures val == AllRegs(regs)[index] && AllRegs(regs) == AllRegs(old(regs))
    {
      if index !in regs {
        regs := regs[index := 0];
        return 0;
      }
      return regs[index];
    }

    // ------------------------------------------------------------- output

    method ReplyHeader(fc: byte)
      requires output.Valid()
      modifies output`size, output.data
      ensures output.Valid() && output.Contents() == [devAddress, fc]
    {
      output.SetActualSize(0);
      output.Add(devAddress);
      output.Add(fc);
    }

    method AddCrc()
      requires output.Valid() && output.size <= BUF_SIZE - 2
      modifies output`size, output.data
      ensures output.Valid() && output.Contents() == Signed(old(output.Contents()))
    {
      var crcHi, crcLo := CalcCrcRtu(output);
      output.Add(crcHi);
      output.Add(crcLo);
    }

    method AddWord(w: u16)
      requires output.Valid() && output.size <= BUF_SIZE - 2
      modifies output`size, output.data
      ensures output.Valid() && output.Contents() == old(output.Contents()) + [HiByte(w), LoByte(w)]
    {
      output.Add(HiByte(w));
      output.Add(LoByte(w));
    }

    method SendPdu()
      requires output.Valid()
      modifies this`sent, this`pendingReads
      ensures sent == old(sent) + [Replied(output.Contents())]
      ensures pendingReads == old(pendingReads) + 1
    {
      sent := sent + [Replied(output.data[..output.size])];
      HandleWriting();
    }

    method MirrorPdu()
      requires input.Valid()
      modifies this`sent, this`pendingReads
      ensures sent == old(sent) + [Mirrored(input.Contents())]
      ensures pendingReads == old(pendingReads) + 1
    {
      sent := sent + [Mirrored(input.data[..input.size])];
      HandleWriting();
    }

    // ------------------------------------------------------------- reading

    /** The loop of `reply_f3`. */
    method AddRegs(start: u16, quantity: u16)
      requires output.Valid() && output.size + 2 * quantity <= BUF_SIZE
      modifies this`regs, output`size, output.data
      ensures output.Valid() && AllRegs(regs) == AllRegs(old(regs))
      ensures output.Contents() == old(output.Contents()) + WordBytes(RegsFrom(AllRegs(regs), start, quantity))
    {
      var ix := start;
      var quant: u16 := 0;
      ghost var head, words := output.Contents(), RegsFrom(AllRegs(regs), start, quantity);
      assert words[..0] == [];
      while quant < quantity
        invariant output.Valid() && 0 <= quant <= quantity && ix == Address(start, quant)
        invariant AllRegs(regs) == AllRegs(old(regs))
        invariant output.Contents() == head + WordBytes(words[..quant])
      {
        var reg := GetReg(ix);
        AddWord(reg);
        WordBytesAppend(words[..quant], reg);
        assert words[..quant] + [reg] == words[..quant + 1];
        NextAddress(start, quant);
        ix := Next(ix);
        quant := quant + 1;
      }
      assert words[..quantity] == words;
    }

    method ReplyF3(fc: byte, start: u16, quantity: u16)
      requires output.Valid() && quantity <= 509
      modifies this`regs, this`sent, this`pendingReads, output`size, output.data
      ensures output.Valid() && AllRegs(regs) == AllRegs(old(regs))
      ensures sent == old(sent) + [Replied(RegReply(devAddress, fc, AllRegs(regs), start, quantity))]
      ensures pendingReads == old(pendingReads) + 1
    {
      ReplyHeader(fc);
      output.Add(quantity * 2 % 256);
      assert output.Contents() == [devAddress, fc, 2 * quantity % 256];
      AddRegs(start, quantity);
      AddCrc();
      SendPdu();
    }

    /** The loop of `reply_f1` and the last byte after it, for the coils' values bits. */
    method AddCoils(start: u16, quantity: u16, ghost bits: seq<bool>)
      requires output.Valid() && output.size + (quantity + 7) / 8 <= BUF_SIZE && |bits| == quantity
      requires forall d :: 0 <= d < quantity ==> bits[d] == AllCoils(coils)[Address(start, d)]
      modifies this`coils, output`size, output.data
      ensures output.Valid() && AllCoils(coils) == AllCoils(old(coils))
      ensures output.Contents() == old(output.Contents()) + PackBits(bits)
    {
      // the whole bytes put out so far, the coils in them, and those gathered in the current byte
      ghost var head, bytes, out, part := output.Contents(), 0, [], [];
      var packed: bv8 := 0;
      var bitIx := 0;
      var ix := start;
      var quant: u16 := 0;
      while quant < quantity
        invariant output.Valid() && ix == Address(start, quant) && AllCoils(coils) == AllCoils(old(coils))
        invariant 0 <= bitIx < 8 && quant <= quantity && out + part == bits[..quant]
        invariant |part| == bitIx && |out| == 8 * bytes && packed == OrMasks(part)
        invariant output.Contents() == head + PackBits(out)
      {
        packed := NextBit(part, ix, packed, bitIx);
        OneBitMore(out, part, bits, quant);
        part := part + [bits[quant]];
        NextAddress(start, quant);
        ix := Next(ix);
        quant := quant + 1;
        bitIx := bitIx + 1;
        if bitIx == 8 {
          AddPacked(head, out, bytes, part, packed);
          bytes, out, part := bytes + 1, out + part, [];
          packed := 0;
          bitIx := 0;
        }
      }
      assert bits[..quantity] == bits && out + part == bits;
      if bitIx > 0 {
        AddPacked(head, out, bytes, part, packed);
      } else {
        assert out == bits;
      }
    }

    /** Set the next bit of the byte being packed, if the coil is on. */
    method NextBit(ghost was: seq<bool>, ix: u16, packed: bv8, bitIx: nat) returns (packed': bv8)
      requires |was| == bitIx < 8 && packed == OrMasks(was)
      modifies this`coils
      ensures AllCoils(coils) == AllCoils(old(coils)) && packed' == OrMasks(was + [AllCoils(coils)[ix]])
    {
      var on := GetCoil(ix);
      assert (was + [on])[..bitIx] == was;
      packed' := packed;
      if on {
        var auxByte: bv8 := 1 << bitIx;
        ShiftedOne(bitIx);
        packed' := OrBits(packed, auxByte);
      }
    }

    /** Put out the byte that holds the bits gathered last. */
    method AddPacked(ghost head: seq<byte>, ghost out: seq<bool>, ghost bytes: nat, ghost part: seq<bool>, packed: bv8)
      requires 0 < |part| <= 8 && |out| == 8 * bytes && packed == OrMasks(part)
      requires output.Valid() && output.Contents() == head + PackBits(out)
      requires |head| + bytes < BUF_SIZE
      modifies output`size, output.data
      ensures output.Valid() && output.Contents() == head + PackBits(out + part)
    {
      PackBitsAppend(out, part, bytes);
      output.Add(FromBits(packed));
    }

    method ReplyF1(fc: byte, start: u16, quantity: u16)
      requires output.Valid() && quantity <= 8152
      modifies this`coils, this`sent, this`pendingReads, output`size, output.data
      ensures output.Valid() && AllCoils(coils) == AllCoils(old(coils))
      ensures sent == old(sent) + [Replied(CoilReply(devAddress, fc, AllCoils(coils), start, quantity))]
      ensures pendingReads == old(pendingReads) + 1
    {
      ReplyHeader(fc);
      var byteCount: byte := quantity / 8 % 256;
      if quantity % 8 > 0 {
        byteCount := (byteCount + 1) % 256;
      }
      output.Add(byteCount);
      RoundedUp(quantity);
      assert output.Contents() == [devAddress, fc, (quantity + 7) / 8 % 256];
      AddCoils(start, quantity, CoilsFrom(AllCoils(coils), start, quantity));
      AddCrc();
      SendPdu();
    }

    // ------------------------------------------------------------- writing

    method ReplyF5(address: u16, value: u16)
      requires input.Valid()
      modifies this`coils, this`sent, this`pendingReads
      ensures AllCoils(coils) == AllCoils(old(coils))[address := value != 0]
      ensures sent == old(sent) + [Mirrored(input.Contents())]
      ensures pendingReads == old(pendingReads) + 1
    {
      SetCoil(address, value);
      MirrorPdu();
    }

    method ReplyF6(address: u16, value: u16)
      requires input.Valid()
      modifies this`regs, this`sent, this`pendingReads
      ensures AllRegs(regs) == AllRegs(old(regs))[address := value]
      ensures sent == old(sent) + [Mirrored(input.Contents())]
      ensures pendingReads == old(pendingReads) + 1
    {
      SetReg(address, value);
      MirrorPdu();
    }

    /** Set coil number n of a write by the masked data byte. */
    method SetCoilByBit(ghost before: seq<bool>, ghost start: u16, ghost n: u16, ghost data: seq<byte>,
                        address: u16, auxByte: bv8)
      requires |before| == SPACE && n < 8 * |data| && address == Address(start, n)
      requires auxByte != 0 <==> Bit(data[n / 8], n % 8)
      requires AllCoils(coils) == WriteCoils(before, start, n, data)
      modifies this`coils
      ensures AllCoils(coils) == WriteCoils(before, start, n + 1, data)
    {
      WriteOneMoreCoil(before, start, n, data);
      if auxByte != 0 {
        SetCoil(address, 1);
      } else {
        SetCoil(address, 0);
      }
    }

    /** The inner loop of `reply_f15`: the coils of one data byte. */
    method SetCoilsOfByte(ghost before: seq<bool>, start: u16, quantity: u16, data: seq<byte>, byteIx: nat, count: u16)
      returns (count': u16)
      requires byteIx < |data| <= 255 && count == 8 * byteIx && count < quantity && |before| == SPACE
      requires AllCoils(coils) == WriteCoils(before, start, count, data)
      modifies this`coils
      ensures AllCoils(coils) == WriteCoils(before, start, count', data)
      ensures count' == if 8 * byteIx + 8 <= quantity then 8 * byteIx + 8 else quantity
    {
      var byteVal := Bits(data[byteIx]);
      var bitMask: bv8 := 1;
      var bitCnt := 0;
      var address := Address(start, count);
      count' := count;
      while bitCnt < 8 && count' < quantity
        invariant 0 <= bitCnt <= 8 && count' == 8 * byteIx + bitCnt && count' <= quantity
        invariant bitCnt < 8 ==> bitMask == Mask(bitCnt)
        invariant address == Address(start, count')
        invariant AllCoils(coils) == WriteCoils(before, start, count', data)
      {
        MaskedBit(data, byteIx, bitCnt, bitMask);
        SetCoilByBit(before, start, count', data, address, byteVal & bitMask);
        NextAddress(start, count');
        NextMask(bitCnt);
        address := Next(address);
        count' := count' + 1;
        bitMask := bitMask << 1;
        bitCnt := bitCnt + 1;
      }
    }

    /** The outer loop of `reply_f15`. */
    method SetCoils(start: u16, quantity: u16, byteCount: byte, data: seq<byte>)
      requires |data| == byteCount
      modifies this`coils
      ensures AllCoils(coils) == WriteCoils(AllCoils(old(coils)), start, quantity, data)
    {
      var byteIx := 0;
      var count: u16 := 0;
      ghost var before := AllCoils(coils);
      assert WriteCoils(before, start, 0, data) == before;
      while byteIx < byteCount && count < quantity
        invariant 0 <= byteIx <= byteCount && count <= quantity
        invariant count == if 8 * byteIx <= quantity then 8 * byteIx else quantity
        invariant AllCoils(coils) == WriteCoils(before, start, count, data)
      {
        count := SetCoilsOfByte(before, start, quantity, data, byteIx, count);
        byteIx := byteIx + 1;
      }
      assert WriteCoils(before, start, count, data) == WriteCoils(before, start, quantity, data);
    }

    method ReplyF15(fc: byte, start: u16, quantity: u16, byteCount: byte, data: seq<byte>)
      requires output.Valid() && |data| == byteCount
      modifies this`coils, this`sent, this`pendingReads, output`size, output.data
      ensures output.Valid() && AllCoils(coils) == WriteCoils(AllCoils(old(coils)), start, quantity, data)
      ensures sent == old(sent) + [Replied(WriteReply(devAddress, fc, start, quantity))]
      ensures pendingReads == old(pendingReads) + 1
    {
      ReplyHeader(fc);
      SetCoils(start, quantity, byteCount, data);
      AddWord(start);
      AddWord(quantity);
      assert output.Contents() == [devAddress, fc, HiByte(start), LoByte(start), HiByte(quantity), LoByte(quantity)];
      AddCrc();
      SendPdu();
    }

    /** The loop that `reply_f16` and `reply_f23` share. */
    method SetRegs(start: u16, quantity: u16, byteCount: byte, data: seq<byte>)
      requires |data| == byteCount && (byteCount % 2 == 0 || 2 * quantity <= byteCount)
      modifies this`regs
      ensures AllRegs(regs) == WriteRegs(AllRegs(old(regs)), start, quantity, data)
    {
      var address := start;
      var count: u16 := 0;
      var byteIx := 0;
      ghost var before := AllRegs(regs);
      assert WriteRegs(before, start, 0, data) == before;
      while byteIx < byteCount && count < quantity
        invariant byteIx == 2 * count && byteIx <= byteCount && count <= quantity
        invariant address == Address(start, count)
        invariant AllRegs(regs) == WriteRegs(before, start, count, data)
      {
        var hi := data[byteIx];
        byteIx := byteIx + 1;
        var lo := data[byteIx];
        byteIx := byteIx + 1;
        WriteOneMoreReg(before, start, count, data);
        SetReg(address, Combine(hi, lo));
        NextAddress(start, count);
        address := Next(address);
        count := count + 1;
      }
      assert WriteRegs(before, start, count, data) == WriteRegs(before, start, quantity, data);
    }

    method ReplyF16(fc: byte, start: u16, quantity: u16, byteCount: byte, data: seq<byte>)
      requires output.Valid() && |data| == byteCount && (byteCount % 2 == 0 || 2 * quantity <= byteCount)
      modifies this`regs, this`sent, this`pendingReads, output`size, output.data
      ensures output.Valid() && AllRegs(regs) == WriteRegs(AllRegs(old(regs)), start, quantity, data)
      ensures sent == old(sent) + [Replied(WriteReply(devAddress, fc, start, quantity))]
      ensures pendingReads == old(pendingReads) + 1
    {
      ReplyHeader(fc);
      SetRegs(start, quantity, byteCount, data);
      AddWord(start);
      AddWord(quantity);
      assert output.Contents() == [devAddress, fc, HiByte(start), LoByte(start), HiByte(quantity), LoByte(quantity)];
      AddCrc();
      SendPdu();
    }

    method ReplyF23(fc: byte, readStart: u16, readQuantity: u16, writeStart: u16, writeQuantity: u16,
                    byteCount: byte, data: seq<byte>)
      requires output.Valid() && readQuantity <= 509
      requires |data| == byteCount && (byteCount % 2 == 0 || 2 * writeQuantity <= byteCount)
      modifies this`regs, this`sent, this`pendingReads, output`size, output.data
      ensures output.Valid() && AllRegs(regs) == WriteRegs(AllRegs(old(regs)), writeStart, writeQuantity, data)
      ensures sent == old(sent) + [Replied(RegReply(devAddress, fc, AllRegs(regs), readStart, readQuantity))]
      ensures pendingReads == old(pendingReads) + 1
    {
      SetRegs(writeStart, writeQuantity, byteCount, data);
      ReplyF3(fc, readStart, readQuantity);
    }

    // ------------------------------------------------------------- dispatch

    /** `on_pdu`: by the record's own fields, memory changes as they say and what they call for is sent. */
    method OnPdu(pdu: PduRecord)
      requires Valid() && Servable(Defined(pdu))
      modifies this`coils, this`regs, this`sent, this`pendingReads, output`size, output.data
      ensures Valid()
      ensures Abstract() == Serve(devAddress, old(Abstract()), input.Contents(), Defined(pdu))
      ensures PlainServed(devAddress, pdu, input.Contents(), old(Abstract()), Abstract())
    {
      ServeIsPlain(devAddress, Abstract(), input.Contents(), pdu);
      if HasData(pdu.fc) {
        OnPduWithData(pdu);
      } else if pdu.fc <= 4 {
        OnRead(pdu);
      } else {
        OnWriteOfOne(pdu);
      }
    }

    /** The cases of `on_pdu` for reads. */
    method OnRead(pdu: PduRecord)
      requires Valid() && Servable(Defined(pdu)) && pdu.fc <= 4
      modifies this`coils, this`regs, this`sent, this`pendingReads, output`size, output.data
      ensures Valid()
      ensures Abstract() == Serve(devAddress, old(Abstract()), input.Contents(), Defined(pdu))
    {
      ServeRead(devAddress, Abstract(), input.Contents(), pdu.fc, pdu.i16_1, pdu.i16_2);
      match pdu.fc {
        case 1 => ReplyF1(1, pdu.i16_1, pdu.i16_2);
        case 2 => ReplyF1(2, pdu.i16_1, pdu.i16_2);
        case 3 => ReplyF3(3, pdu.i16_1, pdu.i16_2);
        case _ => ReplyF3(4, pdu.i16_1, pdu.i16_2);
      }
    }

    /** The cases of `on_pdu` for one coil and one register. */
    method OnWriteOfOne(pdu: PduRecord)
      requires Valid() && Servable(Defined(pdu)) && pdu.fc > 4 && !HasData(pdu.fc)
      modifies this`coils, this`regs, this`sent, this`pendingReads, output`size, output.data
      ensures Valid()
      ensures Abstract() == Serve(devAddress, old(Abstract()), input.Contents(), Defined(pdu))
    {
      match pdu.fc {
        case 5 => ReplyF5(pdu.i16_1, pdu.i16_2);
        case _ => ReplyF6(pdu.i16_1, pdu.i16_2);
      }
    }

    /** The cases of `on_pdu` for requests with data. */
    method OnPduWithData(pdu: PduRecord)
      requires Valid() && Servable(Defined(pdu)) && HasData(pdu.fc)
      modifies this`coils, this`regs, this`sent, this`pendingReads, output`size, output.data
      ensures Valid()
      ensures Abstract() == Serve(devAddress, old(Abstract()), input.Contents(), Defined(pdu))
    {
      match pdu.fc {
        case 15 => ReplyF15(15, pdu.i16_1, pdu.i16_2, pdu.i8_1, pdu.data);
        case 16 => ReplyF16(16, pdu.i16_1, pdu.i16_2, pdu.i8_1, pdu.data);
        case _ => ReplyF23(23, pdu.i16_1, pdu.i16_2, pdu.i16_3, pdu.i16_4, pdu.i8_1, pdu.data);
      }
    }

    /** The user's side of one call. */
    method ServeCall(call: Callback)
      requires Valid() && (call.PduCallback? ==> Servable(Defined(call.pdu)))
      modifies this`coils, this`regs, this`sent, this`pendingReads, output`size, output.data
      ensures Valid()
      ensures Abstract() == if call.PduCallback?
                            then Serve(devAddress, old(Abstract()), input.Contents(), Defined(call.pdu))
                            else old(Abstract())
    {
      match call {
        case PduCallback(pdu) => OnPdu(pdu);
        case NonsenseCallback =>
      }
    }

    /** Serve the requests among the scanner's calls from the given one on. */
    method ServeCalls(first: nat)
      requires Valid() && first <= |scanner.calls|
      requires AllServable(Pdus(Views(scanner.calls)[first..]))
      modifies this`coils, this`regs, this`sent, this`pendingReads, output`size, output.data
      ensures Valid()
      ensures Abstract() ==
              ServeAll(devAddress, old(Abstract()), input.Contents(), Pdus(Views(scanner.calls)[first..]))
      decreases |scanner.calls| - first
    {
      ghost var views := Views(scanner.calls)[first..];
      if first < |scanner.calls| {
        assert views[0] == View(scanner.calls[first]) && views[1..] == Views(scanner.calls)[first + 1..];
        ServeNext(devAddress, Abstract(), input.Contents(), views);
        ServeCall(scanner.calls[first]);
        ServeCalls(first + 1);
      }
    }

    /** `handle_read`: a read has been completed; length bytes are in the input buffer, or reading failed. */
    method HandleRead(error: bool, length: nat)
      requires Valid() && length <= BUF_SIZE && pendingReads > 0
      requires AllServable(Arriving(devAddress, scanner.Prefix(), input.data[..length]))
      modifies this`coils, this`regs, this`sent, this`pendingReads, scanner, input`size, output`size, output.data
      ensures Valid()
      ensures error || length == 0 ==> Abstract() == old(Abstract()).(pendingReads := old(pendingReads) - 1)
      ensures !error && length > 0 ==>
                Abstract() == Handle(devAddress, old(Abstract()), old(input.data[..length]))
    {
      pendingReads := pendingReads - 1;
      if !error && length > 0 {
        ScanAndServe(length);
      }
    }

    /** Scan what has been read and serve the requests it completes. */
    method ScanAndServe(length: nat)
      requires Valid() && 0 < length <= BUF_SIZE
      requires AllServable(Arriving(devAddress, scanner.Prefix(), input.data[..length]))
      modifies this`coils, this`regs, this`sent, this`pendingReads, scanner, input`size, output`size, output.data
      ensures Valid()
      ensures Abstract() == Scanned(devAddress, old(Abstract()), old(input.data[..length]))
    {
      input.SetActualSize(length);
      var n := |scanner.calls|;
      scanner.Scan(input);
      assert Views(scanner.calls)[n..] ==
             ScanChunk(FrameRule(Coroutine, devAddress), old(scanner.Prefix()), input.Contents()).events;
      ServeCalls(n);
    }
  }

  // Serving a read leaves memory alone.
  lemma ServeRead(a: byte, s: Server, chunk: seq<byte>, fc: byte, start: u16, q: u16)
    requires Total(s.memory) && 1 <= fc <= 4
    ensures var reply := if fc <= 2 then CoilReply(a, fc, s.memory.coils, start, q)
                         else RegReply(a, fc, s.memory.regs, start, q);
            Serve(a, s, chunk, Simple(fc, start, q)) ==
            Server(s.rest, s.memory, s.sent + [Replied(reply)], s.pendingReads + 1)
  {
  }

  // The first of some events, and serving the requests of the others after it.
  lemma ServeNext(a: byte, s: Server, chunk: seq<byte>, events: seq<Event>)
    requires Total(s.memory) && events != []
    requires AllServable(Pdus(events))
    ensures AllServable(Pdus(events[1..])) && (events[0].PduEvent? ==> Servable(events[0].request))
    ensures ServeAll(a, s, chunk, Pdus(events)) ==
            ServeAll(a, if events[0].PduEvent? then Serve(a, s, chunk, events[0].request) else s, chunk,
                     Pdus(events[1..]))
  {
    var rest := Pdus(events[1..]);
    assert Pdus(events) == PduOf(events[0]) + rest;
    if events[0].PduEvent? {
      assert Pdus(events)[0] == events[0].request && Pdus(events)[1..] == rest;
    } else {
      assert Pdus(events) == rest;
    }
  }

  lemma OneBitMore(out: seq<bool>, part: seq<bool>, bits: seq<bool>, n: nat)
    requires n < |bits| && out + part == bits[..n]
    ensures out + (part + [bits[n]]) == bits[..n + 1]
  {
  }

  lemma RoundedUp(q: u16)
    ensures (q + 7) / 8 % 256 == if q % 8 > 0 then (q / 8 % 256 + 1) % 256 else q / 8 % 256
  {
    assert (q + 7) / 8 == if q % 8 > 0 then q / 8 + 1 else q / 8;
  }

  lemma MaskedBit(data: seq<byte>, byteIx: nat, i: nat, mask: bv8)
    requires byteIx < |data| && i < 8 && mask == Mask(i)
    ensures var n := 8 * byteIx + i; Bit(data[n / 8], n % 8) <==> Bits(data[byteIx]) & mask != 0
  {
    assert (8 * byteIx + i) / 8 == byteIx && (8 * byteIx + i) % 8 == i;
  }

  lemma NextMask(i: nat)
    requires i < 8
    ensures i < 7 ==> Mask(i) << 1 == Mask(i + 1)
  {
  }

  lemma {:induction false} WordBytesAppend(words: seq<u16>, w: u16)
    ensures WordBytes(words + [w]) == WordBytes(words) + [HiByte(w), LoByte(w)]
    decreases |words|
  {
    if words != [] {
      assert (words + [w])[1..] == words[1..] + [w];
      WordBytesAppend(words[1..], w);
    }
  }

  lemma ShiftedOne(i: nat)
    requires i < 8
    ensures (1 as bv8) << i == Mask(i)
  {
  }

  /** Packing n whole bytes and then at most one more. */
  lemma {:induction false} PackBitsAppend(bits: seq<bool>, last: seq<bool>, n: nat)
    requires |bits| == 8 * n && 0 < |last| <= 8
    ensures PackBits(bits + last) == PackBits(bits) + [PackByte(last)] && |PackBits(bits)| == n
    decreases n
  {
    if n == 0 {
      assert bits + last == last;
    } else {
      assert (bits + last)[..8] == bits[..8] && (bits + last)[8..] == bits[8..] + last;
      PackBitsAppend(bits[8..], last, n - 1);
      if n == 1 {
        assert bits[..8] == bits && bits[8..] == [];
      }
    }
  }
}
