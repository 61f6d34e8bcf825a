/** Block transfer: the padded image is sent as consecutive 36-byte packets in
    block order, each answered by one acknowledgement byte 0xA3. The first
    failed write, wrong ack, timeout or read error ends the session; no block
    is ever resent. */
module Transfer {
  import opened Bytes
  import opened Image
  import opened Packet
  import opened Serial
  import opened Session

  const Ack: byte := 0xA3

  /** The transfer loop from block `blk` on, for the packets `pkts` of the
      image's blocks, as a function of the read results, the write calls that
      throw and the number `w` of writes made before. */
  function Run(pkts: seq<seq<byte>>, blk: nat, ev: seq<ReadEvent>, faults: set<nat>, w: nat): (t: Trace)
    requires blk <= |pkts|
    decreases |pkts| - blk
  {
    if blk == |pkts| then Trace(Completed, ev, [])
    else if w in faults then Trace(BlockFail(blk, SendFailed), ev, [pkts[blk]])
    else if ev == [] then Trace(ScriptExhausted, [], [pkts[blk]])
    else if ev[0] == Got(Ack) then Prepend([pkts[blk]], Run(pkts, blk + 1, ev[1..], faults, w + 1))
    else Trace(BlockFail(blk, AckFailure(ev[0])), ev[1..], [pkts[blk]])
  }

  /** A run that ends with its last packet written but no ack read: the
      write threw, or the read script ran out. */
  predicate Unanswered(o: Outcome)
  {
    o.ScriptExhausted? || (o.BlockFail? && o.fault == SendFailed)
  }

  /** The calls of a transfer that wrote `ws` and read the acks `rs`: each
      packet write followed by the read of its ack, with possibly a last
      write that got no ack read. */
  function Exchanges(ws: seq<seq<byte>>, rs: seq<ReadEvent>): (log: seq<Event>)
    requires |rs| <= |ws| <= |rs| + 1
    ensures |log| == |ws| + |rs|
    decreases |ws|
  {
    if ws == [] then []
    else if |rs| == |ws| then
      Exchanges(ws[..|ws| - 1], rs[..|rs| - 1]) + [Wrote(ws[|ws| - 1]), Read(rs[|rs| - 1])]
    else
      Exchanges(ws[..|ws| - 1], rs) + [Wrote(ws[|ws| - 1])]
  }

  /** Writes and reads alternate, starting with a write: call 2i writes
      packet i, and call 2i + 1 reads the ack of packet i. */
  lemma {:induction false} ExchangesOrder(ws: seq<seq<byte>>, rs: seq<ReadEvent>)
    requires |rs| <= |ws| <= |rs| + 1
    ensures forall i :: 0 <= i < |ws| ==> Exchanges(ws, rs)[2 * i] == Wrote(ws[i])
    ensures forall i :: 0 <= i < |rs| ==> Exchanges(ws, rs)[2 * i + 1] == Read(rs[i])
    decreases |ws|
  {
    if ws != [] {
      if |rs| == |ws| {
        ExchangesOrder(ws[..|ws| - 1], rs[..|rs| - 1]);
      } else {
        ExchangesOrder(ws[..|ws| - 1], rs);
      }
    }
  }

  /** The writes of the transfer's calls are exactly the packets written. */
  lemma {:induction false} ExchangesWrites(ws: seq<seq<byte>>, rs: seq<ReadEvent>)
    requires |rs| <= |ws| <= |rs| + 1
    ensures Writes(Exchanges(ws, rs)) == ws
    decreases |ws|
  {
    if ws != [] {
      var last := ws[|ws| - 1];
      assert ws == ws[..|ws| - 1] + [last];
      if |rs| == |ws| {
        ExchangesWrites(ws[..|ws| - 1], rs[..|rs| - 1]);
        WritesAppend(Exchanges(ws[..|ws| - 1], rs[..|rs| - 1]), [Wrote(last), Read(rs[|rs| - 1])]);
        assert Writes([Wrote(last), Read(rs[|rs| - 1])]) == [last] by {
          assert [Wrote(last), Read(rs[|rs| - 1])][..1] == [Wrote(last)];
          assert Writes([Wrote(last)]) == Writes([]) + [last];
        }
      } else {
        ExchangesWrites(ws[..|ws| - 1], rs);
        WritesAppend(Exchanges(ws[..|ws| - 1], rs), [Wrote(last)]);
        assert Writes([Wrote(last)]) == Writes([]) + [last];
      }
    }
  }

  /** One more block: its packet write, then the read of its ack if there was one. */
  lemma ExchangesStep(ws: seq<seq<byte>>, rs: seq<ReadEvent>, w: seq<byte>, r: seq<ReadEvent>)
    requires |rs| == |ws| && |r| <= 1
    ensures Exchanges(ws + [w], rs + r) == Exchanges(ws, rs) + [Wrote(w)] + (if r == [] then [] else [Read(r[0])])
  {
    assert (ws + [w])[..|ws|] == ws;
    if r != [] {
      assert (rs + r)[..|rs|] == rs;
    } else {
      assert rs + r == rs;
    }
  }

  /** How a read other than the ack byte fails a block: any other byte, and
      the end-of-stream -1, is a wrong ack. */
  function AckFailure(e: ReadEvent): (f: BlockFault)
    ensures f != SendFailed
    ensures f == AckTimedOut <==> e == TimedOut
    ensures f == AckReadFailed <==> e == Fault
  {
    match e
    case Got(_) => BadAck
    case EndOfStream => BadAck
    case TimedOut => AckTimedOut
    case Fault => AckReadFailed
  }

  /** The first n read results are all acks. */
  predicate AckedFirst(ev: seq<ReadEvent>, n: nat)
  {
    n <= |ev| && forall k :: 0 <= k < n ==> ev[k] == Got(Ack)
  }

  /** Write calls w, ..., w + n - 1 all succeed. */
  predicate WritesSucceed(faults: set<nat>, w: nat, n: nat)
  {
    forall m :: w <= m < w + n ==> m !in faults
  }

  /** What was written is the packets of consecutive blocks, starting at
      `blk`, in increasing order; a session ends only by completing, by the
      failure of the last block written, or when the read script runs out
      while that block awaits its ack. */
  lemma {:induction false} SentInOrder(pkts: seq<seq<byte>>, blk: nat, ev: seq<ReadEvent>, faults: set<nat>, w: nat)
    requires blk <= |pkts|
    ensures var t := Run(pkts, blk, ev, faults, w);
      && blk + |t.sent| <= |pkts|
      && t.sent == pkts[blk..blk + |t.sent|]
      && (t.outcome.Completed? || t.outcome.BlockFail? || t.outcome.ScriptExhausted?)
      && (t.outcome.BlockFail? ==> |t.sent| > 0 && t.outcome.blk == blk + |t.sent| - 1)
      && (t.outcome.ScriptExhausted? ==> |t.sent| > 0)
    decreases |pkts| - blk
  {
    if blk < |pkts| && w !in faults && ev != [] && ev[0] == Got(Ack) {
      SentInOrder(pkts, blk + 1, ev[1..], faults, w + 1);
      var t' := Run(pkts, blk + 1, ev[1..], faults, w + 1);
      SliceCons(pkts, blk, blk + 1 + |t'.sent|);
    }
  }

  /** A non-empty slice is its first element followed by the rest. */
  lemma SliceCons<T>(s: seq<T>, a: nat, b: nat)
    requires a < b <= |s|
    ensures s[a..b] == [s[a]] + s[a + 1..b]
  {
    assert s[a..b][1..] == s[a + 1..b];
  }

  /** The transfer completes exactly when every remaining block's write
      succeeded and was acked with 0xA3; then every block was sent once, in
      order, and one read per block was consumed. */
  lemma {:induction false} CompletedIff(pkts: seq<seq<byte>>, blk: nat, ev: seq<ReadEvent>, faults: set<nat>, w: nat)
    requires blk <= |pkts|
    ensures var t := Run(pkts, blk, ev, faults, w);
      var n := |pkts| - blk;
      && (t.outcome == Completed <==> AckedFirst(ev, n) && WritesSucceed(faults, w, n))
      && (t.outcome == Completed ==> t.sent == pkts[blk..] && t.rest == ev[n..])
    decreases |pkts| - blk
  {
    var n := |pkts| - blk;
    if blk < |pkts| {
      CompletedIff(pkts, blk + 1, if ev == [] then [] else ev[1..], faults, w + 1);
      if AckedFirst(ev, n) {
        assert ev[0] == Got(Ack);
        assert ev[1..][n - 1..] == ev[n..];
      }
      if ev != [] && AckedFirst(ev[1..], n - 1) && ev[0] == Got(Ack) {
        assert AckedFirst(ev, n);
      }
      if WritesSucceed(faults, w, n) {
        assert w !in faults;
      }
      if w !in faults && WritesSucceed(faults, w + 1, n - 1) {
        assert WritesSucceed(faults, w, n);
      }
      assert [pkts[blk]] + pkts[blk + 1..] == pkts[blk..];
    }
  }

  /** The transfer reads from the front of the script: one ack per block
      written, except for a last block whose write threw or whose ack never
      came because the script ran out. */
  lemma {:induction false} ReadsPerBlock(pkts: seq<seq<byte>>, blk: nat, ev: seq<ReadEvent>, faults: set<nat>, w: nat)
    requires blk <= |pkts|
    ensures var t := Run(pkts, blk, ev, faults, w);
      && |t.rest| <= |ev| && t.rest == ev[|ev| - |t.rest|..]
      && |ev| - |t.rest| + (if Unanswered(t.outcome) then 1 else 0) == |t.sent|
    decreases |pkts| - blk
  {
    if blk < |pkts| && w !in faults && ev != [] && ev[0] == Got(Ack) {
      ReadsPerBlock(pkts, blk + 1, ev[1..], faults, w + 1);
    }
  }

  /** A run that ends in a block failure fails the first block whose write
      threw or whose ack was not 0xA3: every block before it was written and
      acked, and the fault names what went wrong with that block. */
  lemma {:induction false} StopsAtFirstFault(pkts: seq<seq<byte>>, blk: nat, ev: seq<ReadEvent>, faults: set<nat>, w: nat)
    requires blk <= |pkts|
    ensures var t := Run(pkts, blk, ev, faults, w);
      t.outcome.BlockFail? ==>
        && blk <= t.outcome.blk
        && var j := t.outcome.blk - blk;
        && AckedFirst(ev, j) && WritesSucceed(faults, w, j)
        && (t.outcome.fault == SendFailed <==> w + j in faults)
        && (t.outcome.fault != SendFailed ==> j < |ev| && ev[j] != Got(Ack) && t.outcome.fault == AckFailure(ev[j]))
    decreases |pkts| - blk
  {
    if blk < |pkts| && w !in faults && ev != [] && ev[0] == Got(Ack) {
      StopsAtFirstFault(pkts, blk + 1, ev[1..], faults, w + 1);
      var t := Run(pkts, blk + 1, ev[1..], faults, w + 1);
      if t.outcome.BlockFail? {
        var j := t.outcome.blk - blk;
        assert AckedFirst(ev[1..], j - 1);
        assert AckedFirst(ev, j);
        assert WritesSucceed(faults, w, j);
      }
    }
  }

  /** With the first j blocks written and acked, a throwing write or a read
      other than 0xA3 for block blk + j fails the run at that block with the
      fault it names, and nothing after that block's packet is written. */
  lemma {:induction false} FirstFaultStops(pkts: seq<seq<byte>>, blk: nat, ev: seq<ReadEvent>, faults: set<nat>, w: nat, j: nat)
    requires blk + j < |pkts| && AckedFirst(ev, j) && WritesSucceed(faults, w, j)
    requires w + j in faults || (j < |ev| && ev[j] != Got(Ack))
    ensures Run(pkts, blk, ev, faults, w).outcome
         == BlockFail(blk + j, if w + j in faults then SendFailed else AckFailure(ev[j]))
    ensures Run(pkts, blk, ev, faults, w).sent == pkts[blk..blk + j + 1]
    decreases j
  {
    if j > 0 {
      assert AckedFirst(ev[1..], j - 1);
      assert WritesSucceed(faults, w + 1, j - 1);
      FirstFaultStops(pkts, blk + 1, ev[1..], faults, w + 1, j - 1);
      SliceCons(pkts, blk, blk + j + 1);
    }
  }

  /** With the first j blocks acked and all writes succeeding, a wrong ack to
      block blk + j (another byte or the end-of-stream -1) fails the session at
      that block, and nothing after that block's packet is written. */
  lemma {:induction false} StopsAtFirstBadAck(pkts: seq<seq<byte>>, blk: nat, ev: seq<ReadEvent>, faults: set<nat>, w: nat, j: nat)
    requires blk + j < |pkts|
    requires AckedFirst(ev, j) && j < |ev| && ev[j] != Got(Ack) && (ev[j].Got? || ev[j] == EndOfStream)
    requires WritesSucceed(faults, w, j + 1)
    ensures Run(pkts, blk, ev, faults, w) == Trace(BlockFail(blk + j, BadAck), ev[j + 1..], pkts[blk..blk + j + 1])
    decreases j
  {
    if j > 0 {
      assert AckedFirst(ev[1..], j - 1);
      assert WritesSucceed(faults, w + 1, j);
      assert ev[1..][j - 1 + 1..] == ev[j + 1..];
      StopsAtFirstBadAck(pkts, blk + 1, ev[1..], faults, w + 1, j - 1);
      assert [pkts[blk]] + pkts[blk + 1..blk + j + 1] == pkts[blk..blk + j + 1];
    }
  }

  /** The block written as write call `w` went through and was acked. */
  predicate Acked(ev: seq<ReadEvent>, faults: set<nat>, w: nat)
  {
    w !in faults && ev != [] && ev[0] == Got(Ack)
  }

  /** After an acked block, the rest of the run continues with the next one. */
  lemma Advance(pkts: seq<seq<byte>>, blk: nat, ev: seq<ReadEvent>, faults: set<nat>, w: nat,
                done: seq<seq<byte>>, whole: Trace)
    requires blk < |pkts| && Acked(ev, faults, w)
    requires whole == Prepend(done, Run(pkts, blk, ev, faults, w))
    ensures whole == Prepend(done + [pkts[blk]], Run(pkts, blk + 1, ev[1..], faults, w + 1))
  {
    PrependTwice(done, [pkts[blk]], Run(pkts, blk + 1, ev[1..], faults, w + 1));
  }

  /** Reads the ack of block `blk`: `None` when it is 0xA3, otherwise the
      failure that ends the run. `read` is the result consumed, if any. */
  method ReadAck(port: Port, blk: nat) returns (stop: Option<Outcome>, ghost read: seq<ReadEvent>)
    requires port.isOpen
    modifies port`pending, port`log
    ensures old(port.pending) == read + port.pending && (read == [] <==> old(port.pending) == [])
    ensures |read| <= 1
    ensures port.log == old(port.log) + (if read == [] then [] else [Read(read[0])])
    ensures stop == if old(port.pending) == [] then Some(ScriptExhausted)
                    else if old(port.pending)[0] == Got(Ack) then None
                    else Some(BlockFail(blk, AckFailure(old(port.pending)[0])))
  {
    if port.pending == [] {
      return Some(ScriptExhausted), [];
    }
    var ack := port.ReadByte();
    read := [ack];
    match ack {
      case Got(b) =>
        if b != Ack {
          return Some(BlockFail(blk, BadAck)), read;
        }
      case EndOfStream =>
        return Some(BlockFail(blk, BadAck)), read;
      case TimedOut =>
        return Some(BlockFail(blk, AckTimedOut)), read;
      case Fault =>
        return Some(BlockFail(blk, AckReadFailed)), read;
    }
    return None, read;
  }

  /** Builds the packet of block `blk` at offset `i` and writes it; `ok` is
      false when the write throws. */
  method WriteBlock(firmware: array<byte>, i: nat, blk: nat, port: Port, ghost pkts: seq<seq<byte>>)
    returns (ok: bool)
    requires port.isOpen
    requires pkts == ImagePackets(firmware[..])
    requires i == BlockSize * blk && blk < |pkts|
    modifies port`trace, port`log
    ensures port.trace == old(port.trace) + [pkts[blk]]
    ensures port.log == old(port.log) + [Wrote(pkts[blk])]
    ensures ok == (|old(port.trace)| !in port.writeFaults)
  {
    PacketsAt(firmware[..], 0, NumBlocks(firmware[..]), blk);
    var pkt := BuildPacket(firmware, i, blk);
    assert pkt[..] == pkts[blk];
    ok := port.Write(pkt);
  }

  /** One pass of the block loop: build the packet of block `blk` at offset
      `i`, write it, and read its ack. `None` means the block was acked and
      the loop goes on with the next block; otherwise the run ends here with
      the returned outcome. `whole` is the run as seen from the start of the
      loop, with `done` written before this block; `consumed` is the acks
      read before it and `log0` the calls made before the loop. */
  method SendBlock(firmware: array<byte>, i: nat, blk: nat, port: Port,
                   ghost pkts: seq<seq<byte>>, ghost before: seq<seq<byte>>, ghost done: seq<seq<byte>>,
                   ghost whole: Trace, ghost ev0: seq<ReadEvent>, ghost consumed: seq<ReadEvent>,
                   ghost log0: seq<Event>)
    returns (stop: Option<Outcome>, ghost read: seq<ReadEvent>)
    requires port.isOpen
    requires pkts == ImagePackets(firmware[..])
    requires i == BlockSize * blk && blk < |pkts|
    requires whole == Prepend(done, Run(pkts, blk, port.pending, port.writeFaults, |port.trace|))
    requires port.trace == before + done && ev0 == consumed + port.pending
    requires |consumed| == |done| && port.log == log0 + Exchanges(done, consumed)
    modifies port`pending, port`trace, port`log
    ensures port.trace == before + (done + [pkts[blk]])
    ensures old(port.pending) == read + port.pending && |read| <= 1
    ensures ev0 == (consumed + read) + port.pending
    ensures port.log == log0 + Exchanges(done + [pkts[blk]], consumed + read)
    ensures stop.None? <==> Acked(old(port.pending), port.writeFaults, |old(port.trace)|)
    ensures stop.None? ==> |read| == 1
    ensures stop.None? ==>
      whole == Prepend(done + [pkts[blk]], Run(pkts, blk + 1, port.pending, port.writeFaults, |port.trace|))
    ensures stop.Some? ==> (read == [] <==> Unanswered(stop.value))
    ensures stop.Some? ==> whole == Trace(stop.value, port.pending, done + [pkts[blk]])
  {
    ghost var ev, w := port.pending, |port.trace|;
    var ok := WriteBlock(firmware, i, blk, port, pkts);
    AppendAfter(before, done, [pkts[blk]]);
    AppendAfter(log0, Exchanges(done, consumed), [Wrote(pkts[blk])]);
    if !ok {
      ExchangesStep(done, consumed, pkts[blk], []);
      assert ev0 == (consumed + []) + port.pending;
      return Some(BlockFail(blk, SendFailed)), [];
    }
    stop, read := ReadAck(port, blk);
    ExchangesStep(done, consumed, pkts[blk], read);
    AppendAfter(log0, Exchanges(done, consumed) + [Wrote(pkts[blk])], if read == [] then [] else [Read(read[0])]);
    AppendAfter(consumed, read, port.pending);
    if stop.None? {
      Advance(pkts, blk, ev, port.writeFaults, w, done, whole);
    }
  }

  /** The block loop of `Begin`: for each 32-byte offset `i` with block number
      `blk`, send the block and stop at the first failure. `consumed` is the
      acks read: one per block written, except for a last block that got no
      ack read. */
  method Execute(firmware: array<byte>, port: Port) returns (o: Outcome, ghost consumed: seq<ReadEvent>)
    requires port.isOpen && firmware.Length % BlockSize == 0
    modifies port`pending, port`trace, port`log
    ensures var t := Run(ImagePackets(firmware[..]), 0, old(port.pending), port.writeFaults, |old(port.trace)|);
      && o == t.outcome && port.pending == t.rest && port.trace == old(port.trace) + t.sent
      && old(port.pending) == consumed + port.pending
      && |t.sent| == |consumed| + (if Unanswered(o) then 1 else 0)
      && port.log == old(port.log) + Exchanges(t.sent, consumed)
  {
    ghost var before, log0, ev0 := port.trace, port.log, port.pending;
    ghost var fw := firmware[..];
    ghost var pkts := ImagePackets(fw);
    ghost var whole := Run(pkts, 0, port.pending, port.writeFaults, |before|);
    ghost var done: seq<seq<byte>> := [];
    consumed := [];
    PrependNothing(whole);
    var len := firmware.Length;
    var i, blk := 0, 0;
    while i < len
      invariant i == BlockSize * blk && blk <= |pkts| && len == BlockSize * |pkts|
      invariant port.isOpen && firmware[..] == fw
      invariant port.trace == before + done
      invariant whole == Prepend(done, Run(pkts, blk, port.pending, port.writeFaults, |port.trace|))
      invariant ev0 == consumed + port.pending
      invariant |consumed| == |done| && port.log == log0 + Exchanges(done, consumed)
      decreases len - i
    {
      var stop;
      ghost var read;
      stop, read := SendBlock(firmware, i, blk, port, pkts, before, done, whole, ev0, consumed, log0);
      done, consumed := done + [pkts[blk]], consumed + read;
      if stop.Some? {
        return stop.value, consumed;
      }
      i, blk := i + BlockSize, blk + 1;
    }
    assert whole == Trace(Completed, port.pending, done);
    return Completed, consumed;
  }
}
