# Modbus scanner: model and proofs

The repository turns a stream of bytes, arriving in chunks of any size, into Modbus requests, and answers them from a
sample RTU server.  This project models its two RTU scanners (a coroutine and a set of state classes), its TCP scanner,
the table-driven CRC, and the server's registers, coils and replies, and proves what they do on every input.

Lemmas about recursive functions carry `{:induction false}`: each proof is complete as written.

How the parts fit together:

* `Framing` is the theory of a resumable scanner.  A *rule* says of the bytes of a begun frame whether more are needed
  or the frame ends there, with an event and perhaps with the rest of the chunk dropped.  Chunk laws, completeness under
  any chunking and soundness are proved once, for every rule.
* `Pdu`, `Rtu` and `Tcp` give the wire format and the rules of the three scanners.  Frames are defined by an encoder that
  does not mention scanning; that they are words of the rule is a theorem, and so is the converse.
* `SlaveRtuScanner`, `SlaveRtuOld` and `SlaveTcpScanner` are the classes themselves, field by field and state by state.
  Their `Scan` methods are proved to do what the rule says, so every theorem about a rule is one about the class.
  Calls to the user are appended to a log, with a copy of the record passed; comparing logs compares only the fields
  that the function code defines, because the record keeps stale values in the others.
* `PlainTerms` and `WireFormat` tie all this to numbers: which byte strings are frames, which byte is which field, what a
  request does to each coil and register and what the reply holds, stated with offsets, multiples of 256, remainders and
  binary digits only, without the encoder, the decoder or the framing rules.
* `RtuEquivalence` says where the two RTU scanners do one job, and where exactly they do not.
* `ScannerRuns` runs the scanner objects over any number of chunks and states the theorems of the objects.
* `Crc` proves the tables and loops equal to the bit-serial CRC of MODBUS over Serial Line V1.02, section 6.2.2;
  `CrcDetection` and `CrcDistance` prove which errors it catches, and `RtuDetection` what that does for the scanners.
* `ModbusMemory` is the memory a server stands for, total over the 16-bit addresses, and the replies it calls for.
  `RtuServer` is the server class over lazily filled maps, proved against it; `WholeRun` is about whole runs, from the
  chunks that arrive to everything sent, and runs the server object over them.

Things the code does that a reader might not expect, each kept in the model and stated exactly:

* With a byte count of zero the state classes take one more byte (which they leave out of the checksum), and the TCP
  scanner waits for one more byte and passes over it; the coroutine RTU scanner does neither.  `Rtu.StateClassesDeliver`,
  `RtuEquivalence.AgreementIsExact`, `Tcp.DeliveredAlone` and `Tcp.ZeroCountTakesNextByte` say exactly when this shows.
  MODBUS Application Protocol V1.1b3 asks for a quantity of at least one (sections 6.11, 6.12, 6.17), so no such request
  is legal there.
* The server begins a read when it starts and after each answer it has written, and at no other time
  (rtu_server/rtu_server_data_handler.cpp:44, 441).  A chunk that completes no request uses a read up for good.  So a
  server that has just started serves a frame only if it comes in one chunk, and otherwise never reads again:
  `WholeRun.CutFrameStalls`.  `WholeRun.ChunkIsRead` gives the exact condition for every chunk of every run.
* The answer to functions 5 and 6 is the whole chunk that completed the request, not the request.  It is the request
  exactly when the frame came as one chunk: `WholeRun.EchoNeedsOneChunk`.
* The byte-count field of a reply has eight bits: `ModbusMemory.CoilCountField` and `ModbusMemory.RegCountField` give
  the exact quantities up to which it is right.
* More than 8152 coils or 509 registers overrun the output buffer, and an odd byte count below twice the quantity makes
  functions 16 and 23 read past their data: `ModbusMemory.ServableExactly`, with examples in `ModbusMemory.OutOfBounds`.
* Function 5 sets the coil for every value other than zero; the protocol allows only 0xFF00 and 0x0000.

## Model

| member | source | states |
|---|---|---|
| Bytes.CombineIsBigEndian | scanner.cpp:13-27 | the word is 256 times the first byte plus the second, so words are ordered as their first bytes are, then as their second |
| Bytes.FromBitsIsSum | rtu_server/rtu_server_data_handler.cpp:228-241 | a bit pattern stands for the sum of the weights 1, 2, 4 to 128 of its bits |
| Bytes.BitIsDigit | rtu_server/rtu_server_data_handler.cpp:331-345 | the bits of a byte are its binary digits, bit 0 the lowest |
| Bytes.HalvesOfCombine | scanner.cpp:13-47 | splitting the word combined from two bytes gives the two bytes back |
| Bytes.CombineOfHalves | scanner.cpp:13-47 | combining the two halves of a word gives the word back |
| Bytes.Buffer.From | defs.h:33-40 | the contents are the bytes of the list |
| Bytes.Buffer.SetActualSize | defs.h:47-50 | the contents become the first n bytes of the array |
| Bytes.Buffer.Add | defs.h:52-55 | the contents grow by the byte at the end; the caller must see to the capacity |
| Crc.TableEntry | crc_check.cpp:15-57 | each of the 256 entries of the two tables is eight shift steps of its index with polynomial 0xA001 |
| Crc.TableUpdate | crc_check.cpp:70-74 | one round of the table loop is one byte of the bit-serial CRC |
| Crc.CheckCrcRtu | crc_check.cpp:59-88 | true exactly when the two received bytes are the bit-serial CRC of the buffer, low half of the register first |
| Crc.CalcCrcRtu | crc_check.cpp:91-106 | the two bytes are the bit-serial CRC of the buffer's contents |
| Crc.KnownChecksum | speed_test.cpp:124-124 | the checksum of the bytes 1, 3, 0, 0, 0, 2 is 196, 11 |
| CrcDetection.CrcIsFeed | crc_check.cpp:68-75 | the CRC by bytes is the CRC fed bit by bit in the order sent |
| CrcDetection.Residue | crc_check.cpp:68-79 | a frame is accepted if and only if running the CRC over all of it, checksum included, ends at zero |
| CrcDetection.AbsorbInjective | crc_check.cpp:70-74 | one step of the loop is injective in the state for a fixed byte and in the byte for a fixed state |
| CrcDetection.CrcLoIsPermutation | crc_check.cpp:37-57 | no two entries of the second table are equal |
| CrcDetection.BurstRejected | crc_check.cpp:59-88 | any change within sixteen consecutive bits of an accepted frame, across byte boundaries too, is rejected |
| CrcDetection.AdjacentBytesRejected | crc_check.cpp:59-88 | any change confined to two adjacent bytes of an accepted frame, checksum included, is rejected |
| CrcDetection.AcceptedIsEven | crc_check.cpp:59-88 | an accepted frame has an even number of one bits |
| CrcDetection.CrcParity | crc_check.cpp:91-106 | the two checksum bytes have the parity of all the message bits |
| CrcDetection.OddErrorRejected | crc_check.cpp:59-88 | flipping any odd number of bits of an accepted frame makes it rejected |
| CrcDetection.CrcIsAffine | crc_check.cpp:68-75 | the CRC of the bytewise exclusive or of three messages of one length is that of their CRCs |
| CrcDistance.OneReturnsLate | crc_check.cpp:15-57 | no number of shifts within the bits of a 268-byte frame brings the register 1 back to 1 |
| CrcDistance.TwoBitsRejected | crc_check.cpp:59-88 | flipping any two bits of an accepted frame of at most 268 bytes makes it rejected |
| CrcDistance.FewBitsRejected | crc_check.cpp:59-88 | no change of one, two or three bits turns an accepted frame of at most 268 bytes into an accepted one |
| RtuDetection.DamagedFrame | slave_rtu_scanner.cpp:189-212 | a frame damaged in any way that leaves the address, a valid function code and the length announced ends where it should, and is nonsense exactly if the checksum does not fit |
| RtuDetection.DamageIsNonsense | slave_rtu_scanner.cpp:205-212 | such damage, if a burst within sixteen bits, at most three bits or an odd number of bits, is reported as nonsense once, by either scanner |
| Framing.ScanSplit | slave_rtu_scanner.cpp:42-42 | scanning a chunk in two parts equals scanning it whole unless the first part made the scanner drop the rest |
| Framing.AnyChunking | slave_rtu_scanner.cpp:29-42 | a run drops nothing exactly if scanning everything at once drops nothing, and then state and events are the same however the stream is cut |
| Framing.AfterDropFresh | slave_rtu_scanner.cpp:61-67 | after a chunk whose end was dropped every later chunk has the events a fresh scanner would report |
| Framing.RunIsFeedOfKept | slave_rtu_scanner.cpp:61-98 | any run, whatever it drops, has the state and events of feeding one by one the bytes it keeps |
| Framing.Delivery | slave_rtu_scanner.cpp:29-42 | a stream of complete frames cut into chunks in any way reports exactly their events, in order, and leaves nothing over |
| Framing.RunSound | slave_rtu_scanner.cpp:66-84 | in any run the events belong to disjoint stretches of the input in order, each a complete frame of the rule, and what is carried over is the end of the input |
| Pdu.EncodeOfDecode | defs.h:61-124 | whatever bytes decode to a request, the request is well-formed and encodes to those bytes |
| Pdu.DecodeOfEncode | defs.h:61-124 | wherever the encoding of a request stands, it decodes to the request |
| WireFormat.RtuFunctionCodes | scanner.cpp:49-58 | after the address both RTU scanners go on if and only if the byte is 1, 2, 3, 4, 5, 6, 15, 16 or 23 |
| WireFormat.TcpFunctionCodes | slave_tcp_scanner.cpp:105-117 | after header and unit id the TCP scanner goes on if and only if the byte is one of those |
| WireFormat.EncodingIsPlain | defs.h:61-124 | where a request stands encoded, every record of it has each field its function code defines equal to the bytes at that field's offset |
| WireFormat.FramesExactly | slave_rtu_scanner.cpp:83-204 | the frames are exactly the byte strings with the address, 5, 6+n or 10+n bytes of request as function code and byte count say, and the right checksum |
| WireFormat.FrameCalledBack | slave_rtu_scanner.cpp:83-204 | any such byte string, cut anywhere, is called back with what stands at the offsets; by the state classes unless its byte count is zero |
| WireFormat.SimpleFrameCalledBack | slave_rtu_scanner.cpp:83-204 | any eight bytes with address, function code 1 to 6 and right checksum, cut anywhere, are called back by both scanners with the numbers their bytes make |
| WireFormat.KnownFrame | speed_test.cpp:124-124 | the frame 1, 3, 0, 0, 0, 2, 196, 11 has the right checksum |
| WireFormat.CallsStandInInput | slave_rtu_scanner.cpp:83-214 | each record called back in any run has its fields equal to the bytes at their offsets in the stretch where it stands, in order and disjoint, and each nonsense call is really at fault |
| WireFormat.TcpFramesExactly | slave_tcp_scanner.cpp:66-195 | the TCP frames are exactly six bytes, the unit id and a request of that shape |
| WireFormat.TcpCallsStandInInput | slave_tcp_scanner.cpp:66-195 | the same for TCP: the first two bytes of the stretch are the two halves of the transaction id, in order |
| WireFormat.KnownTcpFrame | mb_scanner_test.cpp:199-214 | the twelve bytes of the repository's test are called back as transaction 0, 1, function 3, address 6, quantity 2 |
| Rtu.FrameIsWord | slave_rtu_scanner.cpp:79-204 | every well-formed frame ends at its last byte and no earlier, with its request as the event; for the state classes if its byte count is not zero |
| Rtu.AllRequestsDelivered | slave_rtu_scanner.cpp:66-214 | frames with noise bytes between them, cut into chunks anywhere, are called back exactly, in order, with no nonsense and nothing left over |
| Rtu.PduWordIsFrame | slave_rtu_scanner.cpp:83-204 | bytes that call back a request are that request's frame, but for the one byte the state classes take after a zero count |
| Rtu.NonsenseWord | slave_rtu_scanner.cpp:91-98 | nonsense is a bad function code after the address, or a whole frame with a wrong checksum; the state classes report only the latter |
| Rtu.EventsStandInInput | slave_rtu_scanner.cpp:83-214 | for either scanner and any input in any chunks, each request called back stands encoded with its checksum in the input, stretches disjoint and in order, and each nonsense is really at fault |
| Rtu.FrameResolves | slave_rtu_scanner.cpp:83-214 | from an accepted address byte on, at most 268 bytes decide the frame, whatever they are, for either scanner |
| Rtu.StateClassesDeliver | slave_rtu_old.cpp:343-357 | alone on the line every frame is called back by the coroutine, and by the state classes if and only if its byte count is not zero |
| Rtu.DeliveredExactly | slave_rtu_old.cpp:343-357 | of frames with nothing between them, in any chunks, the coroutine calls back exactly all, and the state classes do if and only if no byte count is zero |
| RtuEquivalence.ScannersAgree | slave_rtu_old.cpp:204-418 | byte by byte, if no zero byte count is read, both scanners call back the same requests and hold the same unfinished frame, and the coroutine's nonsense count is the other's plus the invalid function codes |
| RtuEquivalence.RunDrops | slave_rtu_scanner.cpp:91-98 | the coroutine drops bytes in a run exactly when it raises nonsense in it |
| RtuEquivalence.StateClassesIgnoreChunking | slave_rtu_old.cpp:62-74 | the state classes' events and state never depend on chunk boundaries |
| RtuEquivalence.ScannersAgreeOnKept | slave_rtu_scanner.cpp:61-98 | on any chunks, whatever the coroutine drops, the state classes fed the bytes it keeps, without a zero byte count, call back the same requests and hold the same frame, nonsense differing by the invalid function codes |
| RtuEquivalence.ScannersAgreeOnChunks | slave_rtu_old.cpp:62-74 | on any chunks, if the coroutine raises no nonsense and no zero byte count is read, both call back the same requests |
| RtuEquivalence.ZeroCountTellsApart | slave_rtu_old.cpp:343-357 | the first zero byte count can be followed by two bytes after which the two scanners have called back different requests |
| RtuEquivalence.AgreementIsExact | slave_rtu_old.cpp:343-357 | a stream has no zero byte count if and only if no two bytes after any beginning of it tell the scanners apart |
| SlaveRtuScanner.Scanner.constructor | slave_rtu_scanner.cpp:44-60 | a fresh scanner is between frames and has made no calls |
| SlaveRtuScanner.Scanner.ValidIsLive | slave_rtu_scanner.cpp:55-59 | at every resume point the frame begun needs more bytes and the CRC buffer holds at most 266 |
| SlaveRtuScanner.Scanner.CheckBufEnd | slave_rtu_scanner.cpp:42-42 | steps to the next byte and suspends exactly at the end of the chunk |
| SlaveRtuScanner.Scanner.SkipNoise | slave_rtu_scanner.cpp:68-73 | stops at the next address byte or the end of the chunk, having passed over bytes that scan to nothing |
| SlaveRtuScanner.Scanner.DataLoop | slave_rtu_scanner.cpp:178-184 | the bytes of the chunk are taken into record and CRC buffer, one by one and nothing else, until the count is reached or the chunk ends |
| SlaveRtuScanner.Scanner.ChecksumDecides | slave_rtu_scanner.cpp:193-212 | the last byte ends the frame: with the request now in the record if the checksum is right, else as nonsense |
| SlaveRtuScanner.Scanner.Scan | slave_rtu_scanner.cpp:29-215 | one non-empty chunk: the calls made and the frame left unfinished are exactly those of the coroutine's rule |
| SlaveRtuOld.Scanner.constructor | slave_rtu_old.cpp:16-60 | a fresh scanner is in the init state and has made no calls |
| SlaveRtuOld.Scanner.ValidIsLive | slave_rtu_old.cpp:82-199 | in every state the frame begun needs more bytes and the CRC buffer holds at most 266 |
| SlaveRtuOld.Scanner.DataOnChar | slave_rtu_old.cpp:343-357 | one byte in the data state has the effect of the rule, the byte after a zero count included |
| SlaveRtuOld.Scanner.ProcessPdu | slave_rtu_old.cpp:388-418 | one call is made, the filled-in record if the checksum of the buffer is right and nonsense if not, and the scanner is back in the init state |
| SlaveRtuOld.Scanner.OnChar | slave_rtu_old.cpp:204-357 | one byte in any state has exactly the effect of the rule and keeps the invariant on state, buffer length, index and fields; the diagnostic states are never current |
| SlaveRtuOld.Scanner.Scan | slave_rtu_old.cpp:62-74 | one chunk, empty or not: the calls and the unfinished frame are those of the state classes' rule; a null buffer changes nothing |
| ScannerRuns.RunCoroutine | mb_scanner_test.cpp:169-197 | the coroutine object over any number of chunks makes the calls and holds the frame of the rule's run |
| ScannerRuns.RunStateClasses | mb_scanner_test.cpp:169-197 | the state-class object over any number of chunks makes the calls and holds the frame of the rule's run |
| ScannerRuns.RunTcp | mb_scanner_test.cpp:199-219 | the TCP object over any number of chunks makes the calls and holds the frame of the rule's run |
| ScannerRuns.RunFreshTcp | mb_scanner_test.cpp:199-219 | all that a fresh TCP object calls back on any chunks stands in the input, transaction id and fields at their offsets |
| ScannerRuns.RunBoth | speed_test.cpp:122-208 | of two fresh RTU objects on the same chunks: every record they call back stands in the input field by field, and they agree if no zero byte count is read and no nonsense raised |
| ScannerRuns.DeliverLine | mb_scanner_test.cpp:125-197 | on frames and noise cut anywhere both fresh RTU objects call back exactly the requests, raise no nonsense and are between frames again |
| ScannerRuns.DeliverFrames | mb_scanner_test.cpp:199-219 | on TCP frames cut anywhere a fresh object calls back exactly their requests with their transaction ids |
| Tcp.FrameLength | slave_tcp_scanner.cpp:66-195 | frames take 12 bytes, 13 and the data, or 17 and the data |
| Tcp.AllFramesDelivered | slave_tcp_scanner.cpp:64-195 | frames with positive byte counts, in any chunks, are all called back with their transaction ids, in order, and nothing is left over |
| Tcp.DeliveredAlone | slave_tcp_scanner.cpp:167-194 | a frame is called back by its own bytes if and only if its byte count is not zero |
| Tcp.DeliveredExactly | slave_tcp_scanner.cpp:64-195 | a stream of frames, in any chunks, is called back exactly if and only if no byte count is zero |
| Tcp.ZeroCountTakesNextByte | slave_tcp_scanner.cpp:167-194 | a frame with a zero byte count is called back by the next byte, whatever it is, and that byte is lost |
| Tcp.WrongUnitSilences | slave_tcp_scanner.cpp:87-98 | after a wrong unit id the rest of the chunk is ignored without a call |
| Tcp.BadFunctionCodeSilences | slave_tcp_scanner.cpp:105-117 | after an invalid function code there is one nonsense call and the rest of the chunk is ignored |
| Tcp.NextChunkHeard | slave_tcp_scanner.cpp:64-98 | the chunk after one with a wrong unit id or an invalid function code is scanned afresh |
| Tcp.EventsStandInInput | slave_tcp_scanner.cpp:66-195 | for any input in any chunks, each request stands encoded with its transaction id in the input, stretches disjoint and in order |
| SlaveTcpScanner.Scanner.WholePdu | slave_tcp_scanner.cpp:189-195 | the record called back is the frame's request, and the scanner moves one byte past the position it stands at |
| SlaveTcpScanner.Scanner.Scan | slave_tcp_scanner.cpp:27-196 | one non-empty chunk: the calls made and the frame left unfinished are exactly those of the TCP rule |
| PlainTerms.ApplyIsPlain | rtu_server/rtu_server_data_handler.cpp:296-428 | by the record's own fields every coil and register has, after the request, the number or binary digit written to it, or its old value |
| PlainTerms.ReplyIsPlain | rtu_server/rtu_server_data_handler.cpp:208-428 | the reply has the device, the function code, the byte count, the coils as binary digits or the registers high byte first, or the two words of the request, and the right checksum |
| ModbusMemory.WriteOneMoreCoil | rtu_server/rtu_server_data_handler.cpp:326-353 | writing one coil more is one update, at the wrapped address, with the next bit of the data |
| ModbusMemory.BitOfPackBits | rtu_server/rtu_server_data_handler.cpp:221-248 | bit i%8 of packed byte i/8 is coil i, and padding bits are zero |
| ModbusMemory.CoilRoundTrip | rtu_server/rtu_server_data_handler.cpp:312-353 | coils written and read back over the same range are the written bits with zero padding, for any start and wrap-around |
| ModbusMemory.RegRoundTrip | rtu_server/rtu_server_data_handler.cpp:364-387 | registers written and read back over the same range are the written bytes |
| ModbusMemory.ServableExactly | rtu_server/rtu_server_data_handler.cpp:208-428 | a request is servable if and only if its reply fits the 1024-byte buffer and the loop over its data never reads past them |
| ModbusMemory.OutOfBounds | rtu_server/rtu_server_data_handler.cpp:208-428 | reading 8153 coils or 510 registers makes 1025 bytes of reply; one byte of data for one register is read past |
| ModbusMemory.ReplyWellFormed | rtu_server/rtu_server_data_handler.cpp:163-168 | every reply built fits 1024 bytes, starts with the device address and function code and passes the checksum test |
| ModbusMemory.CoilCountField | rtu_server/rtu_server_data_handler.cpp:215-221 | the byte-count field of a coil reply equals the number of data bytes if and only if at most 2040 coils are read |
| ModbusMemory.RegCountField | rtu_server/rtu_server_data_handler.cpp:269-275 | the byte-count field of a register reply equals the number of data bytes if and only if at most 127 registers are read |
| ModbusMemory.WriteReplyEchoes | rtu_server/rtu_server_data_handler.cpp:354-396 | the reply to functions 15 and 16 repeats the first six bytes of the request's frame |
| ModbusMemory.RegReplyWord | rtu_server/rtu_server_data_handler.cpp:265-287 | word i of a register reply is the register i places on, wrapped |
| ModbusMemory.CoilReplyBit | rtu_server/rtu_server_data_handler.cpp:208-256 | bit i of a coil reply is the coil i places on, wrapped, and zero beyond the last coil |
| ModbusMemory.ReadAfterWrite | rtu_server/rtu_server_data_handler.cpp:398-428 | in function 23 each register read has the new value inside the written window and the old one outside, for any overlap and wrap-around |
| ModbusMemory.CoilsReadBack | rtu_server/rtu_server_data_handler.cpp:208-256 | the reply of function 1 after function 15 over the same range carries the written bits, zero padding and the right byte count |
| ModbusMemory.RegsReadBack | rtu_server/rtu_server_data_handler.cpp:265-287 | the reply of function 3 after function 16 over the same range carries the written bytes |
| RtuServer.DataHandler.constructor | rtu_server/rtu_server_data_handler.cpp:9-27 | a new server has the given address, empty maps, every register zero and every coil off, nothing sent and no read begun |
| RtuServer.DataHandler.MemoryIsMaps | rtu_server/rtu_server_data_handler.cpp:170-206 | memory holds what the maps hold, and zero or off at every other address |
| RtuServer.DataHandler.Start | rtu_server/rtu_server_data_handler.cpp:35-46 | begins one read if the port opens and none otherwise |
| RtuServer.DataHandler.HandleWriting | rtu_server/rtu_server_data_handler.cpp:439-442 | begins the next read |
| RtuServer.DataHandler.GetCoil | rtu_server/rtu_server_data_handler.cpp:170-179 | what the map holds, or off if it holds nothing; filling the map in changes nothing in memory |
| RtuServer.DataHandler.GetReg | rtu_server/rtu_server_data_handler.cpp:197-206 | what the map holds, or zero if it holds nothing; filling the map in changes nothing in memory |
| RtuServer.DataHandler.SetCoil | rtu_server/rtu_server_data_handler.cpp:181-187 | one entry of the map changes, to whether the value is not zero |
| RtuServer.DataHandler.SetReg | rtu_server/rtu_server_data_handler.cpp:189-195 | one entry of the map changes, to the value |
| RtuServer.DataHandler.AddCrc | rtu_server/rtu_server_data_handler.cpp:431-437 | the output grows by its own checksum |
| RtuServer.DataHandler.ReplyF1 | rtu_server/rtu_server_data_handler.cpp:208-263 | sends the coil reply of the total memory and leaves memory alone; a read begins |
| RtuServer.DataHandler.ReplyF3 | rtu_server/rtu_server_data_handler.cpp:265-294 | sends the register reply of the total memory and leaves memory alone; a read begins |
| RtuServer.DataHandler.ReplyF5 | rtu_server/rtu_server_data_handler.cpp:296-302 | sets one coil and sends the input buffer back |
| RtuServer.DataHandler.ReplyF6 | rtu_server/rtu_server_data_handler.cpp:304-310 | sets one register and sends the input buffer back |
| RtuServer.DataHandler.ReplyF15 | rtu_server/rtu_server_data_handler.cpp:312-362 | the nested loops write exactly the coils that quantity, byte count and data give, wrapped, and the reply is sent |
| RtuServer.DataHandler.ReplyF16 | rtu_server/rtu_server_data_handler.cpp:364-396 | the loop writes exactly the registers that quantity, byte count and data give, wrapped, and the reply is sent |
| RtuServer.DataHandler.ReplyF23 | rtu_server/rtu_server_data_handler.cpp:398-428 | writes, then replies with the registers read from the memory so written |
| RtuServer.DataHandler.OnPdu | rtu_server/rtu_server_data_handler.cpp:468-564 | for every function code, stated on the record's own fields: each coil and register, the bytes sent and the read begun; and so the server does as the abstract one |
| RtuServer.DataHandler.HandleRead | rtu_server/rtu_server_data_handler.cpp:136-161 | a completed read is used up; its chunk is scanned and the requests served as by the abstract server, each beginning a read; on an error or no bytes nothing else happens |
| WholeRun.ServesWhatItReads | rtu_server/rtu_server_data_handler.cpp:126-161 | whatever arrives in whatever chunks, memory is the fold of the requests in the chunks read, one answer is sent for each, and the pending reads are those at the start less the chunks read plus the requests served; chunks stay unread only when no read is pending |
| WholeRun.ChunkIsRead | rtu_server/rtu_server_data_handler.cpp:439-442 | a chunk is read if and only if the chunks before it, and every fewer of them, complete enough requests to leave a read pending |
| WholeRun.CompleterAt | rtu_server/rtu_server_data_handler.cpp:136-161 | the chunk with which request k is answered is the one with which the number of completed requests passes k |
| WholeRun.LineServed | rtu_server/rtu_server_data_handler.cpp:126-161 | of frames and noise cut anywhere the first requests, those the chunks read complete, are served in order; all of them if all chunks are read, and exactly when that is |
| WholeRun.EachAnswered | rtu_server/rtu_server_data_handler.cpp:431-465 | the k-th thing sent is the reply memory calls for just after the k-th request, fitting the buffer and passing the checksum test, or for functions 5 and 6 the chunk that completed the request |
| WholeRun.ServableThroughout | rtu_server/rtu_server_data_handler.cpp:136-161 | if all requests of a run are servable, so are those each chunk of it completes and those after it |
| WholeRun.RunServer | rtu_server/rtu_server_data_handler.cpp:126-161 | the server object over any number of chunks ends in the state of the abstract run, reading only while a read is pending |
| WholeRun.ServeLine | rtu_server/rtu_server_data_handler.cpp:9-46 | a server constructed, started and fed frames and noise cut anywhere serves from blank memory the requests the chunks it reads complete, and all of them, each answered, if it reads all chunks, which it does exactly if the chunks before each complete as many requests; what no request writes stays zero and off |
| WholeRun.LastWriteWins | rtu_server/rtu_server_data_handler.cpp:181-195 | after any requests every coil and register holds what was last written to its address, or its initial value |
| WholeRun.RegsReadAreLastWritten | rtu_server/rtu_server_data_handler.cpp:265-287 | in any run, every word of the reply to functions 3, 4 and 23 is what was last written to its address |
| WholeRun.CoilsReadAreLastWritten | rtu_server/rtu_server_data_handler.cpp:208-256 | in any run, every bit of the reply to functions 1 and 2 is what was last written to its address, and padding is zero |
| WholeRun.LoneRequest | rtu_server/rtu_server_data_handler.cpp:126-161 | a frame alone on the line is served with its last chunk if there is a pending read for every chunk, and otherwise not at all |
| WholeRun.CutFrameStalls | rtu_server/rtu_server_data_handler.cpp:35-46 | with one read pending, as at the start, a frame alone on the line is answered if and only if it comes as one chunk; otherwise nothing that follows is ever read |
| WholeRun.EchoNeedsOneChunk | rtu_server/rtu_server_data_handler.cpp:296-310 | functions 5 and 6 are answered with the request frame if and only if it arrived as one chunk; as several, with the last chunk if there are reads for all, and otherwise the request is not served |
| WholeRun.OneFrameAChunk | rtu_server/rtu_server_data_handler.cpp:457-465 | with one frame in every chunk the server never stops reading, and answers every request, functions 5 and 6 with the very frame |
| WholeRun.UntouchedIsZero | rtu_server/rtu_server_data_handler.cpp:170-206 | from blank memory on, a register or coil that no request has written is zero or off |
| WholeRun.UnwrittenRegReadsZero | rtu_server/rtu_server_data_handler.cpp:197-206 | in any run from the start, a word replied for an address not written up to then is two zero bytes |
| WholeRun.UnwrittenCoilReadsOff | rtu_server/rtu_server_data_handler.cpp:170-179 | in any run from the start, a bit replied for an address not written up to then is off |
| WholeRun.FrameObeyed | rtu_server/rtu_server_data_handler.cpp:468-564 | bytes in the shape of a frame and with the right checksum, arriving as one chunk, are served as what stands at their offsets says, memory and reply in plain numbers |
| WholeRun.RegisterFrameObeyed | rtu_server/rtu_server_data_handler.cpp:304-310 | a frame of function 6 writes 256*w[4]+w[5] to register 256*w[2]+w[3], writes nothing else and is sent back |
| WholeRun.AnswerFrame | rtu_server/rtu_server_data_handler.cpp:9-46 | a server constructed, started and fed one such frame answers it from blank memory |

## Left out

- Sockets, the serial port, timers and accept loops: a reply is the output buffer at the moment `send_pdu` is called, and every write begun completes before the next chunk is handled. That a second reply overwrites the buffer while the first is still being written, or that two pending reads fill the one input buffer at once, is not modelled.
- Coroutine switching: a resume point that survives between calls of `scan` stands for it. At a loop or branch the code between two suspensions is split into methods.
- Callbacks: a log of calls with copies of the record. The server's `on_pdu` runs from inside `scan`; the model serves the calls after the chunk is scanned, which comes to the same because neither touches the other's state.
- Empty chunks given to the coroutine scanners: `scan` would read past the buffer; the server never passes one (rtu_server/rtu_server_data_handler.cpp:142). The state classes take them.
- RtuServer.DataHandler.ReplyF1: requires at most 8152 coils. Beyond that the code writes past the output buffer, whose `add` checks nothing, and C++ gives it no meaning; `ModbusMemory.ServableExactly` proves the bound exact.
- RtuServer.DataHandler.ReplyF3: requires at most 509 registers, for the same reason and with the same proof.
- RtuServer.DataHandler.ReplyF16: requires an even byte count or one of at least twice the quantity. Otherwise the code reads past the data, which C++ gives no meaning; `ModbusMemory.ServableExactly` proves the condition exact.
- RtuServer.DataHandler.ReplyF23: requires both, for both reasons.
- RtuServer.DataHandler.OnPdu: requires what the functions it dispatches to require, by `ModbusMemory.Servable`.
- Exception replies and a check of the TCP length field: the code has neither; the length is read and not used.
- The bodies of the diagnostic states: `SlaveRtuOld.Scanner.OnChar` proves those states are never entered.
- The big-endian branches of `combine` and `get_hi_lo`.
- `create_scanner`, `delete_scanner`, the void-pointer interface, the error callback (never called), hex formatting, verbose output, the TCP server's printing and the speed test.
- The two 256-entry tables are written as sixteen rows of sixteen.
- `m_index` is an unbounded number here; its invariant (at most the byte count) keeps it below 256. The constructors set the locals and fields that the code leaves uninitialised to zero, except the record, which is arbitrary.
