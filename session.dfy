/** How a flash session ends, and the observable record of a run: the outcome,
    the read results left unconsumed, and the buffers written. */
module Session {
  import opened Bytes
  import opened Serial

  /** Why a block failed; the transfer never resends a block. */
  datatype BlockFault =
    | SendFailed     // the packet write threw
    | BadAck         // the ack was not 0xA3 (including the end-of-stream -1)
    | AckTimedOut    // no ack within the read timeout
    | AckReadFailed  // the ack read threw something other than a timeout

  datatype Outcome =
    | SizeRejected(len: nat)           // padded image outside 40000..65536
    | PortOpenFailed
    | HandshakeReadError               // -1 or a non-timeout exception while waiting
    | HandshakeSendError               // the init packet write threw
    | HandshakeUnexpected(b: byte)     // a non-beacon byte after the beacon
    | Ready                            // handshake over: the radio went quiet
    | BlockFail(blk: nat, fault: BlockFault)
    | ScriptExhausted                  // the read script ran out (no further device behaviour)
    | Completed

  /** The observable result of running (part of) a session. */
  datatype Trace = Trace(outcome: Outcome, rest: seq<ReadEvent>, sent: seq<seq<byte>>)

  /** The same run preceded by earlier writes. */
  function Prepend(before: seq<seq<byte>>, t: Trace): Trace
  {
    Trace(t.outcome, t.rest, before + t.sent)
  }

  lemma PrependNothing(t: Trace)
    ensures Prepend([], t) == t
  {
    assert [] + t.sent == t.sent;
  }

  lemma PrependTwice(a: seq<seq<byte>>, b: seq<seq<byte>>, t: Trace)
    ensures Prepend(a, Prepend(b, t)) == Prepend(a + b, t)
  {
    assert a + (b + t.sent) == (a + b) + t.sent;
  }
}
