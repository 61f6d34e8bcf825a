# TD-H3 firmware flasher: a verified model of `Flash.Begin`

This project models the core of the TD-H3 radio firmware flasher, the method
`Flash.Begin` in `TDH3Flash/Flash.cs`. That method:

- reads a raw firmware image and zero-pads it to a whole number of 32-byte blocks;
- refuses an image whose padded length is outside 40000..65536;
- opens the serial port;
- waits for the radio's beacon byte 0xA5 and answers it with a fixed 36-byte
  initialisation packet;
- treats the radio falling silent (a read timeout after the beacon) as the
  start signal;
- streams the image as 36-byte block packets. Each packet is
  `[opcode, index high, index low, checksum, 32 payload bytes]`: the opcode is
  0xA1, or 0xA2 for the last block, and the checksum is the payload sum
  truncated to a byte. Every packet must be acknowledged with 0xA3. The first
  failure ends the session, and no block is ever resent.

The model is imperative where the source is. `Flash.Begin`, `Image.PadImage`,
`Packet.BuildPacket`, `Handshake.Execute` and `Transfer.Execute` are methods
over arrays and a `Serial.Port` object:

- The port's pending read results are a field that `ReadByte` consumes.
- Every buffer handed to `Write` is appended to the field `trace`.
- Every call, read or write, is appended to the field `log` in call order, so
  the order of reads and writes is recorded too.

Each method is proved equal to a specification function: `Image.Pad`,
`Packet.BlockPacket`, `Handshake.Run`, `Transfer.Run` and `Flash.Run`. The
lemmas about those functions state what the protocol promises.

The order of calls has its own specification functions:

- `Handshake.Log` lists the handshake's reads, with the init packet written
  straight after the read that returned the first beacon;
- `Transfer.Exchanges` alternates each block packet's write with the read of
  its ack;
- `Flash.Log` is the whole session's calls.

`Flash.Begin` is proved to make exactly the calls of `Flash.Log`. The writes
among those calls are proved to be exactly the buffers of `Flash.Run`.

The radio and the serial driver are described by a `Serial.Link` value:

- the scripted results of successive reads: a byte, the end-of-stream value
  -1, a timeout, or another exception;
- whether opening the port fails;
- which write calls throw.

A session's observable result is a `Session.Trace`: the outcome, the read
results left unconsumed, and every buffer written.

`Packet.Decode` is how a receiver reads a block packet back. It is not in the
source; it is the partner that the encoder's round-trip lemmas are stated
against.

The source never closes or disposes of the serial port. The model does the
same: it has no close operation, and the port stays open when a session ends.

## Model

| member | source | states |
|---|---|---|
| Image.PaddedLength | TDH3Flash/Flash.cs:41 | the padded length is a multiple of 32, at least n and less than n + 32 |
| Image.PaddedLengthLeast | TDH3Flash/Flash.cs:41 | no multiple of 32 that is at least n is smaller than the padded length, so it is 32·⌈n/32⌉ |
| Image.Pad | TDH3Flash/Flash.cs:41-43 | the firmware buffer has the padded length, begins with the raw image and is zero after it |
| Image.PadImage | TDH3Flash/Flash.cs:41-43 | allocating the zeroed buffer and copying the raw bytes in place yields exactly `Pad` of the input |
| Image.AcceptedImageBlocks | TDH3Flash/Flash.cs:44 | an accepted padded image has between 1250 and 2048 blocks, so every block index fits in the two index bytes |
| Image.SizeOk | TDH3Flash/Flash.cs:44 | the size gate: a padded length is accepted exactly when it lies in 40000..65536 |
| Bytes.ChecksumStep | TDH3Flash/Flash.cs:97 | one step of the wrapping `pkt[3] += pkt[j]` accumulator turns the checksum of a prefix into the checksum of the prefix one byte longer |
| Bytes.ChecksumOfZeros | TDH3Flash/Flash.cs:97 | an all-zero payload, such as a block of padding, has sum 0 and checksum 0 |
| Bytes.Checksum | TDH3Flash/Flash.cs:97 | the checksum byte is the payload's arithmetic sum truncated to a byte, with no two's complement taken |
| Packet.Encode | TDH3Flash/Flash.cs:95-101 | every block packet is 36 bytes long and carries the payload unchanged in bytes 4..35 |
| Packet.Opcode | TDH3Flash/Flash.cs:98-99 | the opcode is 0xA1 or 0xA2, and 0xA2 exactly for the final block |
| Packet.DecodeEncode | TDH3Flash/Flash.cs:95-101 | a receiver decodes the packet of any 32-byte block with an index below 65536 back to the same kind, index and payload |
| Packet.EncodeDecode | TDH3Flash/Flash.cs:95-101 | every packet a receiver accepts is the encoding of the frame it decodes to, so the encoding is onto the well-formed packets |
| Packet.InitIsNotBlock | TDH3Flash/Flash.cs:74-78 | the init packet is 36 bytes, starts with 0xA0, ends in 0x55 filler from byte 6 on, and is not mistaken for a block packet |
| Packet.BlockFrame | TDH3Flash/Flash.cs:91-96 | block blk carries a 32-byte payload and the index blk |
| Packet.BlockPacket | TDH3Flash/Flash.cs:95-101 | the wire bytes of block blk: the encoding of its frame, with opcode, big-endian index, checksum and payload |
| Packet.Packets | TDH3Flash/Flash.cs:91-101 | the packets of blocks from up to to, in block order, one per block |
| Packet.ImagePackets | TDH3Flash/Flash.cs:91-101 | the packets the block loop builds for a padded image, one per block, in block order |
| Packet.PacketsAt | TDH3Flash/Flash.cs:91-101 | element k of the packet list is the packet of block from + k |
| Packet.BlockPacketLayout | TDH3Flash/Flash.cs:91-101 | bytes 4..35 of block blk's packet are firmware[32·blk..32·blk+32); byte 3 is their sum mod 256; the opcode is 0xA2 exactly for the last block and 0xA1 for every other; bytes 1-2 read big-endian give blk |
| Packet.ImagePacketDecodes | TDH3Flash/Flash.cs:91-101 | packet j of an image decodes to block j, flagged final exactly when it is the last block |
| Packet.CopyPayload | TDH3Flash/Flash.cs:96 | the copy puts the block's 32 bytes into packet bytes 4..35 and leaves the header bytes alone |
| Packet.AddChecksum | TDH3Flash/Flash.cs:97 | the wrapping accumulator loop leaves the checksum of bytes 4..35 in byte 3 and changes nothing else |
| Packet.BuildPacket | TDH3Flash/Flash.cs:95-101 | filling the 36-byte array in place (payload copy, wrapping checksum loop, opcode bump, index bytes) yields exactly the packet of block blk |
| Serial.Port.constructor | TDH3Flash/Flash.cs:48-51 | a new port is closed, has nothing written and all read results pending |
| Serial.Port.Open | TDH3Flash/Flash.cs:52-54 | opening succeeds unless the link says it fails, and the port is then open |
| Serial.Port.ReadByte | TDH3Flash/Flash.cs:60 | a read returns the next scripted result, consumes it and appends it to the call log |
| Serial.Port.Write | TDH3Flash/Flash.cs:79 | a write records its buffer, appends it to the call log and reports whether this call throws |
| Serial.Reads | TDH3Flash/Flash.cs:60 | the log of successive reads has one entry per read, entry i being read i with its result |
| Handshake.Ignored | TDH3Flash/Flash.cs:61-84 | the read results the loop passes over: before the beacon a timeout or any byte other than 0xA5, after it a repeated 0xA5 |
| Handshake.Run | TDH3Flash/Flash.cs:56-90 | the handshake loop over the read results and `found`; whatever happens it writes nothing or just the init packet, and nothing once `found` is set |
| Handshake.QuietOnceFound | TDH3Flash/Flash.cs:68-81 | once the beacon has been seen, the handshake writes nothing more and cannot fail on a write |
| Handshake.HandshakeOutcomes | TDH3Flash/Flash.cs:56-90 | the handshake ends only in ready, a read error, a failed init write, a stray byte, or exhausted input |
| Handshake.InitSentOnce | TDH3Flash/Flash.cs:68-80 | the init packet is written exactly once if a beacon arrives before the handshake stops, however many beacons follow, and never otherwise |
| Handshake.ReadyAfterInit | TDH3Flash/Flash.cs:61-79 | the handshake succeeds only after the init packet was written once without throwing |
| Handshake.SkipIgnored | TDH3Flash/Flash.cs:57-89 | before the beacon, timeouts and other bytes are ignored; after it, further beacons are ignored |
| Handshake.BeaconThenSilence | TDH3Flash/Flash.cs:61-79 | noise, a beacon, repeated beacons and then a timeout end the handshake successfully, with exactly the init packet written and the later reads untouched; if that write throws, the handshake aborts |
| Handshake.BeaconThenStrayByte | TDH3Flash/Flash.cs:82-88 | after the beacon, a byte other than 0xA5 aborts the handshake, with only the init packet written |
| Handshake.ReadErrorAborts | TDH3Flash/Flash.cs:60-67 | a -1 or a non-timeout exception aborts the handshake in either state, with nothing further written |
| Handshake.ReadsFromFront | TDH3Flash/Flash.cs:57-60 | the handshake consumes the read results from the front, at least one per run on a non-empty script, and never puts one back |
| Handshake.Log | TDH3Flash/Flash.cs:57-80 | the handshake's calls for the results it consumed: each read in turn, with the init packet written straight after the read of the first beacon |
| Handshake.LogWithoutBeacon | TDH3Flash/Flash.cs:57-67 | until a beacon is read, the handshake only reads, in order |
| Handshake.LogAfterBeacon | TDH3Flash/Flash.cs:68-80 | the init packet is written once, directly after the read of the first beacon, and every later call is a read |
| Handshake.LogWrites | TDH3Flash/Flash.cs:68-80 | the only write among the handshake's calls is the init packet, present exactly when a beacon was read |
| Handshake.SentIffHeardBeacon | TDH3Flash/Flash.cs:68-80 | the handshake writes the init packet exactly when what it consumed holds a beacon, so its writes agree with its call log |
| Handshake.Await | TDH3Flash/Flash.cs:58-89 | one pass reads one result, writes the init packet after it when it is the first beacon, and either goes on or ends the handshake as `Handshake.Run` does |
| Handshake.Execute | TDH3Flash/Flash.cs:56-90 | the `while(true)` loop over `found` yields the outcome, remaining reads and writes of `Handshake.Run`, and its calls are `Handshake.Log` of the results it consumed |
| Transfer.Run | TDH3Flash/Flash.cs:91-110 | the block loop over the read results and the failing writes: each block is written, then its ack read, and the first failure ends the run |
| Transfer.AckFailure | TDH3Flash/Flash.cs:103-108 | a failed ack is never blamed on the write; it is a timeout exactly for a timeout and a read error exactly for another exception, and a wrong ack otherwise |
| Transfer.SentInOrder | TDH3Flash/Flash.cs:91-110 | the transfer writes the packets of consecutive blocks in increasing order; a failure is always the last block written |
| Transfer.CompletedIff | TDH3Flash/Flash.cs:91-110 | the transfer completes exactly when every block's write succeeded and was acked with 0xA3; then every packet was written once, in order, consuming one read per block |
| Transfer.StopsAtFirstBadAck | TDH3Flash/Flash.cs:105 | after j acked blocks, a wrong ack (another byte or -1) fails block j with nothing after its packet written |
| Transfer.StopsAtFirstFault | TDH3Flash/Flash.cs:91-108 | a run that fails a block fails the first one whose write threw or whose ack was not 0xA3; every earlier block was written and acked, and the fault is a send failure exactly when the write threw, and otherwise the ack failure of the read it got |
| Transfer.FirstFaultStops | TDH3Flash/Flash.cs:102-108 | with the first j blocks written and acked, a throwing write or a read other than 0xA3 for block blk + j fails the run at that block with the fault it names (a send failure for the write, otherwise the ack failure of the read), and nothing after that block's packet is written |
| Transfer.Exchanges | TDH3Flash/Flash.cs:102-105 | the transfer's calls: each packet write followed by the read of its ack, with possibly a last write that got no ack read; one call per write and per read |
| Transfer.ExchangesOrder | TDH3Flash/Flash.cs:102-103 | in the transfer's calls, call 2i writes the packet of block i and call 2i + 1 reads its ack |
| Transfer.ExchangesWrites | TDH3Flash/Flash.cs:102 | the writes among the transfer's calls are exactly the packets written, in order |
| Transfer.ReadsPerBlock | TDH3Flash/Flash.cs:102-108 | the transfer consumes reads from the front, one per block written except a last block whose write threw or whose ack never came |
| Transfer.Advance | TDH3Flash/Flash.cs:91-108 | after an acked block, the run continues with the next block and the next read |
| Transfer.WriteBlock | TDH3Flash/Flash.cs:95-102 | builds the packet of block blk and writes it; the trace and the log gain exactly that packet |
| Transfer.ReadAck | TDH3Flash/Flash.cs:103-108 | reads one ack: 0xA3 goes on, anything else ends the run with the fault `AckFailure` names; the log gains that read |
| Transfer.SendBlock | TDH3Flash/Flash.cs:95-108 | one pass writes block blk's packet and then reads its ack; it goes on exactly when the write did not throw and the ack was 0xA3, and otherwise ends the run with the right failure |
| Transfer.Execute | TDH3Flash/Flash.cs:91-110 | the `for` loop over `i` and `blk` yields the outcome, remaining reads and writes of `Transfer.Run` over the image's packets, and its calls alternate packet writes and ack reads as `Transfer.Exchanges` says |
| Flash.Run | TDH3Flash/Flash.cs:37-111 | the whole session: pad, refuse a wrong size, open the port, handshake, then transfer if the radio fell silent after the beacon |
| Flash.Converse | TDH3Flash/Flash.cs:56-110 | the session once the port is open: the handshake, then, if the radio fell silent after the beacon, the transfer over the reads the handshake left |
| Flash.Calls | TDH3Flash/Flash.cs:56-110 | the calls of an open session: the handshake's log, then, after silence, the transfer's writes and ack reads |
| Flash.Log | TDH3Flash/Flash.cs:37-111 | every call a session makes on the port: none when the size is refused or the port fails to open, otherwise the calls of the open session |
| Flash.SizeGate | TDH3Flash/Flash.cs:41-44 | an image is refused exactly when its padded length is outside 40000..65536, and then nothing is read or written |
| Flash.NeverReady | TDH3Flash/Flash.cs:37-111 | a session never ends in the handshake's internal ready state |
| Flash.CompletedIff | TDH3Flash/Flash.cs:44-110 | a session completes exactly when the size is accepted, the port opened, the handshake succeeded, and every block was written and acked; the wire then holds the init packet and every block's packet in order |
| Flash.BlockFaultReported | TDH3Flash/Flash.cs:56-108 | a session that fails a block got through the handshake with the init packet written, had every earlier block written and acked, and reports a send failure exactly when that block's write threw, and otherwise the ack failure of the read it got |
| Flash.FirstFaultEndsSession | TDH3Flash/Flash.cs:91-108 | after a successful handshake, the first block whose write throws or whose ack is not 0xA3 ends the session with that block and fault, and the wire holds exactly the init packet and the packets of blocks 0 up to that block |
| Flash.SentIsPrefix | TDH3Flash/Flash.cs:74-102 | whatever the radio does, the session writes a prefix of the init packet followed by the image's block packets |
| Flash.PrefixWireOk | TDH3Flash/Flash.cs:91-101 | every such prefix decodes, block by block, to the padded image with the final flag on the last block only |
| Flash.WireDecodes | TDH3Flash/Flash.cs:37-111 | everything a session writes decodes to the init packet followed by the image's blocks 0, 1, 2, ... |
| Flash.CallsWrites | TDH3Flash/Flash.cs:56-110 | once the port is open, the writes among the session's calls are exactly the buffers it writes |
| Flash.LogWrites | TDH3Flash/Flash.cs:37-111 | for any image and link, the writes among the session's calls are exactly its wire |
| Flash.Talk | TDH3Flash/Flash.cs:56-110 | the handshake followed, when it ended in silence, by the transfer yields the outcome, writes and unconsumed reads of `Flash.Converse`, and makes the calls of `Flash.Calls` in order |
| Flash.Begin | TDH3Flash/Flash.cs:37-111 | padding, the size gate, opening the port, the handshake and the transfer together yield the outcome, the writes and the unconsumed reads of `Flash.Run`, and the calls of `Flash.Log` in order |

## Left out

- `Go`, `Usage` and `Out` (TDH3Flash/Flash.cs:13-35, 113-122): command-line dispatch, port listing and console messages have no protocol effect. This includes the progress message every 0x800 bytes.
- `File.ReadAllBytes` (line 40): the raw image is an input array, so the "cannot read file" exit is not modelled.
- SerialPort construction and configuration (115200 8N1, 500 ms read timeout, lines 48-51): the port is abstract. Only whether opening fails is modelled. A timeout is a scripted read result, not elapsed time.
- `Math.Ceiling(bin.Length / 32.0)` is computed as an exact integer ceiling. The double is exact for every length an array can have.
- The handshake waits without bound. The model runs over a finite read script and ends with `ScriptExhausted` when the script runs out. This outcome does not exist in the source.
- The transfer also ends with `ScriptExhausted` when the script runs out while a block waits for its ack. The source's ack read would then time out after 500 ms and report "Timeout error"; a script that goes on with a `TimedOut` result models that case.
- Serial.Port.Write records the buffer even for a call that throws, so the trace shows what the program tried to write. Which write calls throw is given in advance, as part of the link.
- Closing or disposing of the serial port: the source does neither.
- Intel-HEX patching and the `.patched` output are not part of `TDH3Flash/Flash.cs`, so they are not part of this model.
