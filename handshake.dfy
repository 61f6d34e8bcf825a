/** The handshake: wait for the radio's beacon byte 0xA5, answer the first
    one with the initialisation packet, and treat the radio falling silent
    (a read timeout) as the signal that block transfer may begin. The only
    state is the flag `found`. */
module Handshake {
  import opened Bytes
  import opened Serial
  import opened Session
  import opened Packet

  const Beacon: byte := 0xA5

  /** Read results the handshake passes over: before the beacon, timeouts and
      line noise; after it, repeated beacons. */
  predicate Ignored(e: ReadEvent, found: bool)
  {
    if found then e == Got(Beacon) else e == TimedOut || (e.Got? && e.b != Beacon)
  }

  /** The handshake loop as a function of the read results, the `found` flag
      and whether the init packet write throws. */
  function Run(ev: seq<ReadEvent>, found: bool, initFails: bool): (t: Trace)
    ensures t.sent == [] || t.sent == [InitPacket]
    ensures found ==> t.sent == []
    decreases |ev|
  {
    if ev == [] then Trace(ScriptExhausted, [], [])
    else
      var tail := ev[1..];
      match ev[0]
      case TimedOut =>
        if found then Trace(Ready, tail, []) else Run(tail, false, initFails)
      case EndOfStream => Trace(HandshakeReadError, tail, [])
      case Fault => Trace(HandshakeReadError, tail, [])
      case Got(b) =>
        if b == Beacon then
          if found then Run(tail, true, initFails)
          else if initFails then Trace(HandshakeSendError, tail, [InitPacket])
          else Prepend([InitPacket], Run(tail, true, initFails))
        else if found then Trace(HandshakeUnexpected(b), tail, [])
        else Run(tail, false, initFails)
  }

  /** Position k holds the first beacon: everything before it was ignored. */
  predicate FirstBeaconAt(ev: seq<ReadEvent>, k: nat)
  {
    k < |ev| && ev[k] == Got(Beacon) && forall j :: 0 <= j < k ==> Ignored(ev[j], false)
  }

  ghost predicate BeaconSeen(ev: seq<ReadEvent>)
  {
    exists k: nat :: FirstBeaconAt(ev, k)
  }

  /** Once the beacon has been seen, nothing more is written. */
  lemma {:induction false} QuietOnceFound(ev: seq<ReadEvent>, initFails: bool)
    ensures Run(ev, true, initFails).sent == []
    ensures Run(ev, true, initFails).outcome != HandshakeSendError
    decreases |ev|
  {
    if ev != [] && ev[0] == Got(Beacon) {
      QuietOnceFound(ev[1..], initFails);
    }
  }

  /** The handshake ends only in one of its own outcomes: ready, a read error,
      a failed init write, a stray byte, or an exhausted read script. */
  lemma {:induction false} HandshakeOutcomes(ev: seq<ReadEvent>, found: bool, initFails: bool)
    ensures var o := Run(ev, found, initFails).outcome;
      o.Ready? || o.HandshakeReadError? || o.HandshakeSendError? || o.HandshakeUnexpected? || o.ScriptExhausted?
    decreases |ev|
  {
    if ev != [] {
      HandshakeOutcomes(ev[1..], if ev[0] == Got(Beacon) then true else found, initFails);
    }
  }

  /** A first beacon later in the script is a first beacon of the script
      with one ignored event in front, and conversely. */
  lemma BeaconSeenShift(ev: seq<ReadEvent>)
    requires ev != [] && Ignored(ev[0], false)
    ensures BeaconSeen(ev) <==> BeaconSeen(ev[1..])
  {
    if BeaconSeen(ev) {
      var k: nat :| FirstBeaconAt(ev, k);
      assert FirstBeaconAt(ev[1..], k - 1);
    }
    if BeaconSeen(ev[1..]) {
      var k: nat :| FirstBeaconAt(ev[1..], k);
      assert FirstBeaconAt(ev, k + 1);
    }
  }

  /** The init packet is written exactly once if a beacon arrives before the
      handshake stops, and never otherwise, however many beacons follow. */
  lemma {:induction false} InitSentOnce(ev: seq<ReadEvent>, initFails: bool)
    ensures Run(ev, false, initFails).sent == if BeaconSeen(ev) then [InitPacket] else []
    decreases |ev|
  {
    if ev == [] {
    } else if Ignored(ev[0], false) {
      InitSentOnce(ev[1..], initFails);
      BeaconSeenShift(ev);
    } else if ev[0] == Got(Beacon) {
      assert FirstBeaconAt(ev, 0);
      QuietOnceFound(ev[1..], initFails);
    } else {
      assert !FirstBeaconAt(ev, 0);
      forall k: nat ensures !FirstBeaconAt(ev, k) {
        if 0 < k < |ev| {
          assert !Ignored(ev[0], false);
        }
      }
    }
  }

  /** The handshake only succeeds after it answered a beacon with the init
      packet, which therefore did not throw. */
  lemma {:induction false} ReadyAfterInit(ev: seq<ReadEvent>, initFails: bool)
    requires Run(ev, false, initFails).outcome == Ready
    ensures !initFails && Run(ev, false, initFails).sent == [InitPacket]
    decreases |ev|
  {
    if ev[0] == Got(Beacon) {
      QuietOnceFound(ev[1..], initFails);
    } else {
      ReadyAfterInit(ev[1..], initFails);
    }
  }

  /** Events the current state ignores are skipped without effect. */
  lemma {:induction false} SkipIgnored(pre: seq<ReadEvent>, rest: seq<ReadEvent>, found: bool, initFails: bool)
    requires forall k :: 0 <= k < |pre| ==> Ignored(pre[k], found)
    ensures Run(pre + rest, found, initFails) == Run(rest, found, initFails)
    decreases |pre|
  {
    if pre != [] {
      assert (pre + rest)[0] == pre[0] && (pre + rest)[1..] == pre[1..] + rest;
      SkipIgnored(pre[1..], rest, found, initFails);
    } else {
      assert pre + rest == rest;
    }
  }

  /** Noise, a beacon, more beacons, then silence: one init packet and the
      handshake is over, with the read after the silence still unread. */
  lemma BeaconThenSilence(noise: seq<ReadEvent>, repeats: seq<ReadEvent>, rest: seq<ReadEvent>, initFails: bool)
    requires forall k :: 0 <= k < |noise| ==> Ignored(noise[k], false)
    requires forall k :: 0 <= k < |repeats| ==> repeats[k] == Got(Beacon)
    ensures Run(noise + [Got(Beacon)] + repeats + [TimedOut] + rest, false, initFails)
         == if initFails then Trace(HandshakeSendError, repeats + [TimedOut] + rest, [InitPacket])
            else Trace(Ready, rest, [InitPacket])
  {
    var after := repeats + [TimedOut] + rest;
    assert noise + [Got(Beacon)] + repeats + [TimedOut] + rest == noise + ([Got(Beacon)] + after);
    SkipIgnored(noise, [Got(Beacon)] + after, false, initFails);
    assert ([Got(Beacon)] + after)[1..] == after;
    assert repeats + [TimedOut] + rest == repeats + ([TimedOut] + rest);
    SkipIgnored(repeats, [TimedOut] + rest, true, initFails);
    assert ([TimedOut] + rest)[1..] == rest;
  }

  /** After the beacon, any other byte means the radio is out of step: the
      handshake aborts, having written the init packet once. */
  lemma BeaconThenStrayByte(noise: seq<ReadEvent>, repeats: seq<ReadEvent>, b: byte, rest: seq<ReadEvent>)
    requires forall k :: 0 <= k < |noise| ==> Ignored(noise[k], false)
    requires forall k :: 0 <= k < |repeats| ==> repeats[k] == Got(Beacon)
    requires b != Beacon
    ensures Run(noise + [Got(Beacon)] + repeats + [Got(b)] + rest, false, false)
         == Trace(HandshakeUnexpected(b), rest, [InitPacket])
  {
    var after := repeats + [Got(b)] + rest;
    assert noise + [Got(Beacon)] + repeats + [Got(b)] + rest == noise + ([Got(Beacon)] + after);
    SkipIgnored(noise, [Got(Beacon)] + after, false, false);
    assert ([Got(Beacon)] + after)[1..] == after;
    assert repeats + [Got(b)] + rest == repeats + ([Got(b)] + rest);
    SkipIgnored(repeats, [Got(b)] + rest, true, false);
    assert ([Got(b)] + rest)[1..] == rest;
  }

  /** A read that returns -1 or throws something other than a timeout aborts
      the handshake in either state, with nothing further written. */
  lemma ReadErrorAborts(pre: seq<ReadEvent>, e: ReadEvent, rest: seq<ReadEvent>, found: bool, initFails: bool)
    requires forall k :: 0 <= k < |pre| ==> Ignored(pre[k], found)
    requires e == EndOfStream || e == Fault
    ensures Run(pre + [e] + rest, found, initFails) == Trace(HandshakeReadError, rest, [])
  {
    assert pre + [e] + rest == pre + ([e] + rest);
    SkipIgnored(pre, [e] + rest, found, initFails);
    assert ([e] + rest)[1..] == rest;
  }

  /** The handshake consumes read results from the front of the script and
      never puts one back. */
  lemma {:induction false} ReadsFromFront(ev: seq<ReadEvent>, found: bool, initFails: bool)
    ensures var t := Run(ev, found, initFails);
      && |t.rest| <= |ev| && t.rest == ev[|ev| - |t.rest|..]
      && (ev != [] ==> |t.rest| < |ev|)
    decreases |ev|
  {
    if ev != [] {
      ReadsFromFront(ev[1..], found || ev[0] == Got(Beacon), initFails);
    }
  }

  /** The calls the handshake makes while it consumes the read results `c`:
      each read in turn, with the init packet written straight after the read
      that returned the first beacon. The write is logged whether or not it
      throws. */
  function Log(c: seq<ReadEvent>): seq<Event>
    decreases |c|
  {
    if c == [] then []
    else
      var pre, e := c[..|c| - 1], c[|c| - 1];
      Log(pre) + [Read(e)] + if e == Got(Beacon) && Got(Beacon) !in pre then [Wrote(InitPacket)] else []
  }

  /** Reading one more result extends the log by that read, and by the init
      packet when it is the first beacon. */
  lemma LogSnoc(c: seq<ReadEvent>, e: ReadEvent)
    ensures Log(c + [e]) == Log(c) + [Read(e)] + if e == Got(Beacon) && Got(Beacon) !in c then [Wrote(InitPacket)] else []
  {
    assert (c + [e])[..|c|] == c;
  }

  /** The log of the handshake so far, after earlier calls `log0`, grows by
      one read, and by the init packet when that read is the first beacon. */
  lemma LogExtend(log0: seq<Event>, c: seq<ReadEvent>, e: ReadEvent, found: bool)
    requires found <==> Got(Beacon) in c
    ensures log0 + Log(c) + [Read(e)] + (if e == Got(Beacon) && !found then [Wrote(InitPacket)] else [])
         == log0 + Log(c + [e])
  {
    LogSnoc(c, e);
    AppendAfter(log0, Log(c), [Read(e)]);
    AppendAfter(log0, Log(c) + [Read(e)], if e == Got(Beacon) && !found then [Wrote(InitPacket)] else []);
  }

  /** Before any beacon, the log is just the reads, in order. */
  lemma {:induction false} LogWithoutBeacon(c: seq<ReadEvent>)
    requires Got(Beacon) !in c
    ensures Log(c) == Reads(c)
    decreases |c|
  {
    if c != [] {
      var pre, e := c[..|c| - 1], c[|c| - 1];
      assert c == pre + [e];
      LogWithoutBeacon(pre);
      LogSnoc(pre, e);
      ReadsSnoc(pre, e);
    }
  }

  /** Reads `a` without a beacon, then the beacon, then `b`: the log is the
      reads in order, with the init packet written once, directly after the
      read of that first beacon. */
  lemma {:induction false} LogAfterBeacon(a: seq<ReadEvent>, b: seq<ReadEvent>)
    requires Got(Beacon) !in a
    ensures Log(a + [Got(Beacon)] + b) == Reads(a) + [Read(Got(Beacon)), Wrote(InitPacket)] + Reads(b)
    decreases |b|
  {
    if b == [] {
      assert a + [Got(Beacon)] + b == a + [Got(Beacon)];
      LogSnoc(a, Got(Beacon));
      LogWithoutBeacon(a);
    } else {
      var pre, e := b[..|b| - 1], b[|b| - 1];
      assert b == pre + [e];
      assert a + [Got(Beacon)] + b == (a + [Got(Beacon)] + pre) + [e];
      assert Got(Beacon) in a + [Got(Beacon)] + pre;
      LogSnoc(a + [Got(Beacon)] + pre, e);
      LogAfterBeacon(a, pre);
      ReadsSnoc(pre, e);
    }
  }

  /** The only write in the log is the init packet, present exactly when a
      beacon was read. */
  lemma {:induction false} LogWrites(c: seq<ReadEvent>)
    ensures Writes(Log(c)) == if Got(Beacon) in c then [InitPacket] else []
    decreases |c|
  {
    if c != [] {
      var pre, e := c[..|c| - 1], c[|c| - 1];
      assert c == pre + [e];
      LogWrites(pre);
      var x := if e == Got(Beacon) && Got(Beacon) !in pre then [Wrote(InitPacket)] else [];
      WritesAppend(Log(pre) + [Read(e)], x);
      WritesAppend(Log(pre), [Read(e)]);
    }
  }

  /** When the handshake consumed exactly `heard` before stopping, it wrote the
      init packet exactly when `heard` holds a beacon it had not yet seen. */
  lemma {:induction false} SentIffHeardBeacon(heard: seq<ReadEvent>, rest: seq<ReadEvent>, found: bool, initFails: bool)
    requires Run(heard + rest, found, initFails).rest == rest
    ensures Run(heard + rest, found, initFails).sent == if !found && Got(Beacon) in heard then [InitPacket] else []
    decreases |heard|
  {
    var ev := heard + rest;
    ReadsFromFront(ev, found, initFails);
    if heard != [] {
      var x, more := heard[0], heard[1..];
      assert ev[0] == x && ev[1..] == more + rest;
      assert heard == [x] + more;
      var found' := found || x == Got(Beacon);
      if Ignored(x, found) || (x == Got(Beacon) && !found && !initFails) {
        SentIffHeardBeacon(more, rest, found', initFails);
        if x == Got(Beacon) && !found {
          QuietOnceFound(more + rest, initFails);
        }
      } else {
        assert more == [];
      }
    }
  }

  /** One pass of the handshake loop: read one result and react to it. `heard`
      is the new value of `found`; the init packet is written when the result
      is the first beacon. `None` means the loop goes on; otherwise the
      handshake ends with the returned outcome, `Ready` being the `break` on
      silence after the beacon. `whole` is the handshake as seen from its
      start, `consumed` the results read before this pass and `log0` the
      calls made before the handshake. */
  method Await(port: Port, found: bool, ghost initFails: bool,
               ghost consumed: seq<ReadEvent>, ghost log0: seq<Event>, ghost whole: Trace)
    returns (stop: Option<Outcome>, heard: bool)
    requires port.isOpen && port.pending != []
    requires !found ==> initFails == (|port.trace| in port.writeFaults)
    requires found <==> Got(Beacon) in consumed
    requires port.log == log0 + Log(consumed)
    requires whole == Prepend(if found then [InitPacket] else [], Run(port.pending, found, initFails))
    modifies port`pending, port`trace, port`log
    ensures var e := old(port.pending)[0];
      && port.pending == old(port.pending)[1..]
      && heard == (found || e == Got(Beacon))
      && (heard <==> Got(Beacon) in consumed + [e])
      && port.trace == old(port.trace) + (if heard && !found then [InitPacket] else [])
      && port.log == old(port.log) + [Read(e)] + (if heard && !found then [Wrote(InitPacket)] else [])
      && port.log == log0 + Log(consumed + [e])
    ensures stop.None? ==> whole == Prepend(if heard then [InitPacket] else [], Run(port.pending, heard, initFails))
    ensures stop.Some? ==> whole == Trace(stop.value, port.pending, if heard then [InitPacket] else [])
  {
    var e := port.ReadByte();
    LogExtend(log0, consumed, e, found);
    heard := found;
    match e {
      case TimedOut =>
        if found {
          return Some(Ready), heard;
        }
      case EndOfStream =>
        return Some(HandshakeReadError), heard;
      case Fault =>
        return Some(HandshakeReadError), heard;
      case Got(b) =>
        if b == Beacon {
          if !found {
            heard := true;
            var init := new byte[PacketSize](k => if 0 <= k < |InitPacket| then InitPacket[k] else 0);
            assert init[..] == InitPacket;
            var ok := port.Write(init);
            if !ok {
              return Some(HandshakeSendError), heard;
            }
            PrependTwice([], [InitPacket], Run(port.pending, true, initFails));
          }
        } else if found {
          return Some(HandshakeUnexpected(b)), heard;
        }
    }
    return None, heard;
  }

  /** The handshake loop of `Begin`: read one byte at a time, send the init
      packet on the first beacon, stop on silence after it. `consumed` is the
      read results the handshake took from the port. */
  method Execute(port: Port) returns (o: Outcome, ghost consumed: seq<ReadEvent>)
    requires port.isOpen
    modifies port`pending, port`trace, port`log
    ensures var t := Run(old(port.pending), false, |old(port.trace)| in port.writeFaults);
      o == t.outcome && port.pending == t.rest && port.trace == old(port.trace) + t.sent
    ensures old(port.pending) == consumed + port.pending
    ensures port.log == old(port.log) + Log(consumed)
  {
    ghost var ev0, before, log0 := port.pending, port.trace, port.log;
    ghost var initFails := |before| in port.writeFaults;
    ghost var whole := Run(ev0, false, initFails);
    consumed := [];
    var found := false;
    PrependNothing(whole);
    while true
      invariant port.isOpen
      invariant port.trace == before + if found then [InitPacket] else []
      invariant whole == Prepend(if found then [InitPacket] else [], Run(port.pending, found, initFails))
      invariant ev0 == consumed + port.pending
      invariant found <==> Got(Beacon) in consumed
      invariant port.log == log0 + Log(consumed)
      decreases |port.pending|
    {
      if port.pending == [] {
        return ScriptExhausted, consumed;
      }
      ghost var e, pending := port.pending[0], port.pending;
      var stop;
      stop, found := Await(port, found, initFails, consumed, log0, whole);
      assert pending == [e] + port.pending;
      AppendAfter(consumed, [e], port.pending);
      consumed := consumed + [e];
      if stop.Some? {
        return stop.value, consumed;
      }
    }
  }
}
