/** One flash session, `Flash.Begin`: pad the image, refuse it if its size is
    wrong, open the port, run the handshake, then transfer the blocks. */
module Flash {
  import opened Bytes
  import opened Image
  import opened Packet
  import opened Serial
  import opened Session
  import Handshake
  import Transfer

  /** The whole session as a function of the raw image and the device's
      behaviour. */
  function Run(bin: seq<byte>, link: Link): Trace
  {
    var fw := Pad(bin);
    if !SizeOk(|fw|) then Trace(SizeRejected(|fw|), link.script, [])
    else if link.openFails then Trace(PortOpenFailed, link.script, [])
    else Converse(fw, link.script, link.writeFaults)
  }

  /** The session once the port is open: the handshake, then, if the radio
      fell silent after the beacon, the transfer of the image's blocks. */
  function Converse(fw: seq<byte>, script: seq<ReadEvent>, faults: set<nat>): Trace
  {
    var h := Handshake.Run(script, false, 0 in faults);
    if h.outcome != Ready then h
    else Prepend(h.sent, Transfer.Run(ImagePackets(fw), 0, h.rest, faults, |h.sent|))
  }

  /** Every call a session makes on the port, in order. */
  function Log(bin: seq<byte>, link: Link): seq<Event>
  {
    var fw := Pad(bin);
    if !SizeOk(|fw|) || link.openFails then [] else Calls(fw, link.script, link.writeFaults)
  }

  /** The calls of `Converse`: the handshake's reads with the init packet
      written after the first beacon, then, once the radio fell silent, each
      block packet followed by the read of its ack. */
  function Calls(fw: seq<byte>, script: seq<ReadEvent>, faults: set<nat>): seq<Event>
  {
    var h := Handshake.Run(script, false, 0 in faults);
    Handshake.ReadsFromFront(script, false, 0 in faults);
    var heard := script[..|script| - |h.rest|];
    if h.outcome != Ready then Handshake.Log(heard)
    else
      var pkts := ImagePackets(fw);
      var t := Transfer.Run(pkts, 0, h.rest, faults, |h.sent|);
      Transfer.ReadsPerBlock(pkts, 0, h.rest, faults, |h.sent|);
      Handshake.Log(heard) + Transfer.Exchanges(t.sent, h.rest[..|h.rest| - |t.rest|])
  }

  /** `Calls` split at the end of the handshake: `heard` is what the handshake
      read and `acks` what the transfer read. */
  lemma CallsParts(fw: seq<byte>, script: seq<ReadEvent>, faults: set<nat>, heard: seq<ReadEvent>, acks: seq<ReadEvent>)
    requires var h := Handshake.Run(script, false, 0 in faults);
      && script == heard + h.rest
      && (h.outcome == Ready ==> h.rest == acks + Transfer.Run(ImagePackets(fw), 0, h.rest, faults, |h.sent|).rest)
    ensures var h := Handshake.Run(script, false, 0 in faults);
      && (h.outcome != Ready ==> Calls(fw, script, faults) == Handshake.Log(heard))
      && (h.outcome == Ready ==>
            var t := Transfer.Run(ImagePackets(fw), 0, h.rest, faults, |h.sent|);
            |acks| <= |t.sent| <= |acks| + 1 &&
            Calls(fw, script, faults) == Handshake.Log(heard) + Transfer.Exchanges(t.sent, acks))
  {
    var h := Handshake.Run(script, false, 0 in faults);
    assert heard == script[..|script| - |h.rest|];
    if h.outcome == Ready {
      var t := Transfer.Run(ImagePackets(fw), 0, h.rest, faults, |h.sent|);
      Transfer.ReadsPerBlock(ImagePackets(fw), 0, h.rest, faults, |h.sent|);
      assert acks == h.rest[..|h.rest| - |t.rest|];
    }
  }

  /** What the handshake read, and that the writes among its calls are the
      handshake's own. */
  lemma HeardWrites(script: seq<ReadEvent>, faults: set<nat>) returns (heard: seq<ReadEvent>)
    ensures var h := Handshake.Run(script, false, 0 in faults);
      && script == heard + h.rest
      && Writes(Handshake.Log(heard)) == h.sent
  {
    var h := Handshake.Run(script, false, 0 in faults);
    Handshake.ReadsFromFront(script, false, 0 in faults);
    heard := script[..|script| - |h.rest|];
    assert script == heard + h.rest;
    Handshake.SentIffHeardBeacon(heard, h.rest, false, 0 in faults);
    Handshake.LogWrites(heard);
  }

  /** The writes among the calls of an open session are exactly the buffers
      it writes. */
  lemma CallsWrites(fw: seq<byte>, script: seq<ReadEvent>, faults: set<nat>)
    ensures Writes(Calls(fw, script, faults)) == Converse(fw, script, faults).sent
  {
    var h := Handshake.Run(script, false, 0 in faults);
    var heard := HeardWrites(script, faults);
    if h.outcome != Ready {
      CallsParts(fw, script, faults, heard, []);
    } else {
      var pkts := ImagePackets(fw);
      var t := Transfer.Run(pkts, 0, h.rest, faults, |h.sent|);
      Transfer.ReadsPerBlock(pkts, 0, h.rest, faults, |h.sent|);
      var acks := h.rest[..|h.rest| - |t.rest|];
      assert h.rest == acks + t.rest;
      CallsParts(fw, script, faults, heard, acks);
      WritesAppend(Handshake.Log(heard), Transfer.Exchanges(t.sent, acks));
      Transfer.ExchangesWrites(t.sent, acks);
    }
  }

  /** Hence the writes among a session's calls are exactly its wire. */
  lemma LogWrites(bin: seq<byte>, link: Link)
    ensures Writes(Log(bin, link)) == Run(bin, link).sent
  {
    if SizeOk(|Pad(bin)|) && !link.openFails {
      CallsWrites(Pad(bin), link.script, link.writeFaults);
    }
  }

  /** An image whose padded length is outside 40000..65536 is refused, and then
      nothing is read from or written to the port. */
  lemma SizeGate(bin: seq<byte>, link: Link)
    ensures Run(bin, link).outcome.SizeRejected? <==> !SizeOk(PaddedLength(|bin|))
    ensures Run(bin, link).outcome.SizeRejected? ==>
      Run(bin, link).sent == [] && Run(bin, link).rest == link.script
  {
    NeverReady(bin, link);
    if SizeOk(|Pad(bin)|) && !link.openFails {
      var h := Handshake.Run(link.script, false, 0 in link.writeFaults);
      Handshake.HandshakeOutcomes(link.script, false, 0 in link.writeFaults);
      if h.outcome == Ready {
        Transfer.SentInOrder(ImagePackets(Pad(bin)), 0, h.rest, link.writeFaults, |h.sent|);
      }
    }
  }

  /** `Ready` is internal to the handshake: a session always ends with a
      terminal outcome. */
  lemma NeverReady(bin: seq<byte>, link: Link)
    ensures Run(bin, link).outcome != Ready
  {
    var fw := Pad(bin);
    if SizeOk(|fw|) && !link.openFails {
      var h := Handshake.Run(link.script, false, 0 in link.writeFaults);
      if h.outcome == Ready {
        Transfer.SentInOrder(ImagePackets(fw), 0, h.rest, link.writeFaults, |h.sent|);
      }
    }
  }

  /** A session completes exactly when the image has an accepted size, the
      port opened, the handshake ended in silence after the beacon, and every
      block was written and acked with 0xA3. The wire then carries the init
      packet followed by every block's packet, in order. */
  lemma CompletedIff(bin: seq<byte>, link: Link)
    ensures var fw := Pad(bin);
      var h := Handshake.Run(link.script, false, 0 in link.writeFaults);
      && (Run(bin, link).outcome == Completed <==>
            && SizeOk(|fw|) && !link.openFails && h.outcome == Ready
            && Transfer.AckedFirst(h.rest, NumBlocks(fw)) && Transfer.WritesSucceed(link.writeFaults, 1, NumBlocks(fw)))
      && (Run(bin, link).outcome == Completed ==>
            Run(bin, link).sent == [InitPacket] + ImagePackets(fw))
  {
    var fw := Pad(bin);
    var h := Handshake.Run(link.script, false, 0 in link.writeFaults);
    Handshake.HandshakeOutcomes(link.script, false, 0 in link.writeFaults);
    if SizeOk(|fw|) && !link.openFails && h.outcome == Ready {
      Handshake.ReadyAfterInit(link.script, 0 in link.writeFaults);
      Transfer.CompletedIff(ImagePackets(fw), 0, h.rest, link.writeFaults, 1);
    }
  }

  /** A session that fails a block got through the handshake, had every
      earlier block written and acked, and reports what went wrong with that
      block: its write threw, or the read of its ack returned something other
      than 0xA3. */
  lemma BlockFaultReported(bin: seq<byte>, link: Link)
    ensures var t := Run(bin, link);
      var h := Handshake.Run(link.script, false, 0 in link.writeFaults);
      t.outcome.BlockFail? ==>
        var b, f := t.outcome.blk, t.outcome.fault;
        && h.outcome == Ready && h.sent == [InitPacket]
        && Transfer.AckedFirst(h.rest, b) && Transfer.WritesSucceed(link.writeFaults, 1, b)
        && (f == SendFailed <==> 1 + b in link.writeFaults)
        && (f != SendFailed ==> b < |h.rest| && h.rest[b] != Got(Transfer.Ack) && f == Transfer.AckFailure(h.rest[b]))
  {
    var fw := Pad(bin);
    if SizeOk(|fw|) && !link.openFails {
      var h := Handshake.Run(link.script, false, 0 in link.writeFaults);
      Handshake.HandshakeOutcomes(link.script, false, 0 in link.writeFaults);
      if h.outcome == Ready {
        Handshake.ReadyAfterInit(link.script, 0 in link.writeFaults);
        Transfer.StopsAtFirstFault(ImagePackets(fw), 0, h.rest, link.writeFaults, 1);
      }
    }
  }

  /** Conversely, once the handshake succeeded, the first block whose write
      throws or whose ack is not 0xA3 ends the session with the fault it
      names, and the wire then holds the init packet and the packets of
      blocks 0 up to that block. */
  lemma FirstFaultEndsSession(bin: seq<byte>, link: Link, j: nat)
    requires SizeOk(|Pad(bin)|) && !link.openFails && j < NumBlocks(Pad(bin))
    requires var h := Handshake.Run(link.script, false, 0 in link.writeFaults);
      && h.outcome == Ready
      && Transfer.AckedFirst(h.rest, j) && Transfer.WritesSucceed(link.writeFaults, 1, j)
      && (1 + j in link.writeFaults || (j < |h.rest| && h.rest[j] != Got(Transfer.Ack)))
    ensures var h := Handshake.Run(link.script, false, 0 in link.writeFaults);
      && Run(bin, link).outcome
         == BlockFail(j, if 1 + j in link.writeFaults then SendFailed else Transfer.AckFailure(h.rest[j]))
      && Run(bin, link).sent == [InitPacket] + ImagePackets(Pad(bin))[..j + 1]
  {
    var h := Handshake.Run(link.script, false, 0 in link.writeFaults);
    Handshake.ReadyAfterInit(link.script, 0 in link.writeFaults);
    Transfer.FirstFaultStops(ImagePackets(Pad(bin)), 0, h.rest, link.writeFaults, 1, j);
  }

  /** What a receiver sees on the wire: the init packet, then the packets of
      the image's blocks 0, 1, 2, ... in order, each decoding to its block,
      with the final-block flag on the last block only. */
  predicate WireOk(fw: seq<byte>, sent: seq<seq<byte>>)
  {
    && |sent| <= 1 + NumBlocks(fw)
    && (sent != [] ==> sent[0] == InitPacket)
    && forall k :: 1 <= k < |sent| ==>
         && BlockSize * (k - 1) + BlockSize <= |fw|
         && Decode(sent[k]) == Some(BlockFrame(fw, k - 1))
         && (BlockFrame(fw, k - 1).kind == FinalBlock <==> k == NumBlocks(fw))
  }

  /** Every prefix of the init packet followed by an accepted image's block
      packets is what a receiver expects to see. */
  lemma {:induction false} PrefixWireOk(fw: seq<byte>, sent: seq<seq<byte>>)
    requires SizeOk(|fw|) && |fw| % BlockSize == 0
    requires sent <= [InitPacket] + ImagePackets(fw)
    ensures WireOk(fw, sent)
  {
    AcceptedImageBlocks(|fw|);
    forall k | 1 <= k < |sent|
      ensures BlockSize * (k - 1) + BlockSize <= |fw|
      ensures Decode(sent[k]) == Some(BlockFrame(fw, k - 1))
      ensures BlockFrame(fw, k - 1).kind == FinalBlock <==> k == NumBlocks(fw)
    {
      ImagePacketDecodes(fw, k - 1);
    }
  }

  /** Whatever the device does, a session writes a prefix of the intended
      wire: the init packet followed by the packets of the image's blocks in
      order. */
  lemma SentIsPrefix(bin: seq<byte>, link: Link)
    ensures Run(bin, link).sent <= [InitPacket] + ImagePackets(Pad(bin))
  {
    var fw := Pad(bin);
    if SizeOk(|fw|) && !link.openFails {
      var h := Handshake.Run(link.script, false, 0 in link.writeFaults);
      Handshake.InitSentOnce(link.script, 0 in link.writeFaults);
      if h.outcome == Ready {
        Handshake.ReadyAfterInit(link.script, 0 in link.writeFaults);
        var pkts := ImagePackets(fw);
        var t := Transfer.Run(pkts, 0, h.rest, link.writeFaults, |h.sent|);
        Transfer.SentInOrder(pkts, 0, h.rest, link.writeFaults, |h.sent|);
        assert Run(bin, link).sent == [InitPacket] + pkts[..|t.sent|];
      }
    }
  }

  /** Hence everything a session writes decodes, block by block, to the
      padded image. */
  lemma WireDecodes(bin: seq<byte>, link: Link)
    ensures WireOk(Pad(bin), Run(bin, link).sent)
  {
    SentIsPrefix(bin, link);
    SizeGate(bin, link);
    if SizeOk(|Pad(bin)|) {
      PrefixWireOk(Pad(bin), Run(bin, link).sent);
    }
  }

  /** The part of `Flash.Begin` after the port opened: the handshake, then
      the transfer if the handshake ended in silence after the beacon. */
  method Talk(firmware: array<byte>, port: Port) returns (o: Outcome)
    requires port.isOpen && port.trace == [] && port.log == [] && firmware.Length % BlockSize == 0
    modifies port`pending, port`trace, port`log
    ensures var t := Converse(firmware[..], old(port.pending), port.writeFaults);
      o == t.outcome && port.trace == t.sent && port.pending == t.rest
    ensures port.log == Calls(firmware[..], old(port.pending), port.writeFaults)
  {
    ghost var script := port.pending;
    ghost var h := Handshake.Run(script, false, 0 in port.writeFaults);
    ghost var heard, acks := [], [];
    o, heard := Handshake.Execute(port);
    assert port.trace == h.sent && port.pending == h.rest && port.log == Handshake.Log(heard);
    if o == Ready {
      Handshake.ReadyAfterInit(script, 0 in port.writeFaults);
      ghost var t := Transfer.Run(ImagePackets(firmware[..]), 0, h.rest, port.writeFaults, |h.sent|);
      o, acks := Transfer.Execute(firmware, port);
      assert o == t.outcome && port.trace == h.sent + t.sent && port.pending == t.rest;
    }
    CallsParts(firmware[..], script, port.writeFaults, heard, acks);
  }

  /** `Flash.Begin` after the file has been read: pad, check the size, open
      the port, handshake, transfer. Returns how the session ended, every
      buffer written to the port, the read results left unconsumed, and every
      call made on the port in order. */
  method Begin(bin: array<byte>, link: Link)
    returns (o: Outcome, wire: seq<seq<byte>>, rest: seq<ReadEvent>, ghost history: seq<Event>)
    ensures var t := Run(bin[..], link);
      o == t.outcome && wire == t.sent && rest == t.rest
    ensures history == Log(bin[..], link)
  {
    var firmware := PadImage(bin);
    var len := firmware.Length;
    if len < MinImage || len > MaxImage {
      return SizeRejected(len), [], link.script, [];
    }
    var port := new Port(link);
    var isOpen := port.Open();
    if !isOpen {
      return PortOpenFailed, port.trace, port.pending, port.log;
    }
    o := Talk(firmware, port);
    wire, rest, history := port.trace, port.pending, port.log;
  }
}
