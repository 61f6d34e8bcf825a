/** The serial port as the flasher sees it. The device side is abstracted as
    a script: the results successive `ReadByte` calls will return, and which
    `Write` calls will throw. */
module Serial {
  import opened Bytes

  /** One call of `ReadByte`: a byte, the end-of-stream value -1, a
      `TimeoutException` after the 500 ms read timeout, or any other
      exception. */
  datatype ReadEvent = Got(b: byte) | EndOfStream | TimedOut | Fault

  /** What the device and the driver will do during one session: the read
      results in order, whether opening the port fails, and the (0-based)
      numbers of the write calls that throw. */
  datatype Link = Link(script: seq<ReadEvent>, openFails: bool, writeFaults: set<nat>)

  /** One call on the port: a read and the result it returned, or a write
      and the buffer it was given. */
  datatype Event = Read(result: ReadEvent) | Wrote(buf: seq<byte>)

  /** The log of successive reads returning `es`. */
  function Reads(es: seq<ReadEvent>): (log: seq<Event>)
    ensures |log| == |es|
    ensures forall i :: 0 <= i < |es| ==> log[i] == Read(es[i])
  {
    if es == [] then [] else Reads(es[..|es| - 1]) + [Read(es[|es| - 1])]
  }

  /** One more read extends the log of reads by that read. */
  lemma ReadsSnoc(es: seq<ReadEvent>, e: ReadEvent)
    ensures Reads(es + [e]) == Reads(es) + [Read(e)]
  {
    assert (es + [e])[..|es|] == es;
  }

  /** The buffers written, in order, in a log of calls. */
  function Writes(log: seq<Event>): seq<seq<byte>>
  {
    if log == [] then []
    else Writes(log[..|log| - 1]) + if log[|log| - 1].Wrote? then [log[|log| - 1].buf] else []
  }

  /** The writes of two stretches of calls are the writes of each, in order. */
  lemma {:induction false} WritesAppend(a: seq<Event>, b: seq<Event>)
    ensures Writes(a + b) == Writes(a) + Writes(b)
    decreases |b|
  {
    if b == [] {
      assert a + b == a;
    } else {
      var pre, x := b[..|b| - 1], b[|b| - 1];
      assert a + b == (a + pre) + [x];
      assert (a + pre + [x])[..|a + pre|] == a + pre;
      assert (pre + [x])[..|pre|] == pre;
      assert b == pre + [x];
      WritesAppend(a, pre);
    }
  }

  /** Appending after a prefix is appending to the part after it. */
  lemma AppendAfter<T>(prefix: seq<T>, log: seq<T>, more: seq<T>)
    ensures prefix + log + more == prefix + (log + more)
  {
  }

  class Port {
    const openFails: bool
    const writeFaults: set<nat>
    var isOpen: bool
    /** Read results not yet delivered. */
    var pending: seq<ReadEvent>
    /** Every buffer handed to `Write`, in call order, including a call that
        threw. */
    var trace: seq<seq<byte>>
    /** Every read and write, interleaved in call order. */
    var log: seq<Event>

    /** A port configured for 115200 8N1 with a 500 ms read timeout; not yet
        open, nothing written. */
    constructor (link: Link)
      ensures openFails == link.openFails && writeFaults == link.writeFaults
      ensures !isOpen && pending == link.script && trace == [] && log == []
    {
      openFails := link.openFails;
      writeFaults := link.writeFaults;
      isOpen := false;
      pending := link.script;
      trace := [];
      log := [];
    }

    method Open() returns (ok: bool)
      modifies this`isOpen
      ensures ok == !openFails && isOpen == ok
    {
      ok := !openFails;
      isOpen := ok;
    }

    /** Delivers the next scripted read result. */
    method ReadByte() returns (e: ReadEvent)
      requires isOpen && pending != []
      modifies this`pending, this`log
      ensures e == old(pending)[0] && pending == old(pending)[1..]
      ensures log == old(log) + [Read(e)]
    {
      e := pending[0];
      pending := pending[1..];
      log := log + [Read(e)];
    }

    /** Writes a whole buffer; `ok` is false when this call throws. */
    method Write(buf: array<byte>) returns (ok: bool)
      requires isOpen
      modifies this`trace, this`log
      ensures trace == old(trace) + [buf[..]]
      ensures log == old(log) + [Wrote(buf[..])]
      ensures ok == (|old(trace)| !in writeFaults)
    {
      ok := |trace| !in writeFaults;
      trace := trace + [buf[..]];
      log := log + [Wrote(buf[..])];
    }
  }
}
