/** The socket as the wire layer sees it (the read and write contract of src/socket.c), and how a message gets through
    it: `trilogy_flush_writes` of src/client.c and `flush_full` of src/blocking.c. */
module Sockets {
  import opened Bytes
  import opened Links

  // ---------------------------------------------------------------- flushing

  /** The outcome of one call of `trilogy_sock_write`: some of the bytes, none for now, or an error. */
  datatype WriteEvent = Took(n: nat) | Stuck | Refused(rc: Failure)

  /** What is still to be written, what has been written to the wire, and what the coming writes will do. */
  datatype Outbox = Outbox(pending: bytes, sent: bytes, events: seq<WriteEvent>)

  datatype Flushed = Flushed(outbox: Outbox, rc: Rc)

  /** How many of `len` bytes a write takes. */
  function Accepted(n: nat, len: nat): (k: nat)
    ensures k <= len
  {
    if n < len then n else len
  }

  /** `trilogy_flush_writes`: one write of everything that is left. */
  function Flush(o: Outbox): Flushed {
    if o.events == [] then Flushed(o, Again)
    else
      var left := o.(events := o.events[1..]);
      match o.events[0]
      case Took(n) =>
        var k := Accepted(n, |o.pending|);
        Flushed(left.(pending := o.pending[k..], sent := o.sent + o.pending[..k]),
                if k < |o.pending| then Again else Ok)
      case Stuck => Flushed(left, Again)
      case Refused(rc) => Flushed(left, rc)
  }

  /** `flush_full`: wait until the socket is writable, and flush. */
  function FlushFull(o: Outbox): Flushed
    decreases |o.events|
  {
    if o.events == [] then Flushed(o, Timeout)
    else
      var f := Flush(o);
      if f.rc != Again then f else FlushFull(f.outbox)
  }

  /** The first flush of a message, and the rest of it. */
  function SendFull(o: Outbox): Flushed {
    var f := Flush(o);
    if f.rc == Again then FlushFull(f.outbox) else f
  }

  lemma {:induction false} FlushConserves(o: Outbox)
    ensures var f := Flush(o);
            && f.outbox.sent + f.outbox.pending == o.sent + o.pending && o.sent <= f.outbox.sent
            && (f.rc == Ok ==> f.outbox.pending == [])
  {
    if o.events != [] && o.events[0].Took? {
      var k := Accepted(o.events[0].n, |o.pending|);
      assert o.pending == o.pending[..k] + o.pending[k..];
    }
  }

  /** Whatever the socket does, the bytes on the wire and those still to be written are the same sequence as before:
      nothing is lost, repeated or reordered, and success means that everything is on the wire. */
  lemma {:induction false} FlushFullConserves(o: Outbox)
    ensures var f := FlushFull(o);
            && f.outbox.sent + f.outbox.pending == o.sent + o.pending && o.sent <= f.outbox.sent
            && (f.rc == Ok ==> f.outbox.pending == [])
    decreases |o.events|
  {
    if o.events != [] {
      FlushConserves(o);
      if Flush(o).rc == Again {
        FlushFullConserves(Flush(o).outbox);
      }
    }
  }

  lemma {:induction false} SendFullConserves(o: Outbox)
    ensures var f := SendFull(o);
            && f.outbox.sent + f.outbox.pending == o.sent + o.pending && o.sent <= f.outbox.sent
            && (f.rc == Ok ==> f.outbox.pending == [] && f.outbox.sent == o.sent + o.pending)
  {
    FlushConserves(o);
    if Flush(o).rc == Again {
      FlushFullConserves(Flush(o).outbox);
    }
    assert forall s: bytes :: s + [] == s;
  }

  /** How many bytes the writes in front of the first error take. */
  function Capacity(events: seq<WriteEvent>): nat {
    if events == [] then 0
    else match events[0]
         case Took(n) => n + Capacity(events[1..])
         case Stuck => Capacity(events[1..])
         case Refused(_) => 0
  }

  /** The error of the first write that fails; when none does, the socket is not ready again. */
  function FailureOf(events: seq<WriteEvent>): Rc {
    if events == [] then Timeout else if events[0].Refused? then events[0].rc else FailureOf(events[1..])
  }

  lemma {:induction false} FlushFullCompletes(o: Outbox)
    requires o.pending != []
    ensures FlushFull(o).rc == if Capacity(o.events) >= |o.pending| then Ok else FailureOf(o.events)
    decreases |o.events|
  {
    if o.events != [] && Flush(o).rc == Again {
      FlushFullCompletes(Flush(o).outbox);
    }
  }

  /** A message gets through if and only if the writes take that many bytes before one fails; otherwise the failure is
      reported. */
  lemma {:induction false} SendCompletesIff(o: Outbox)
    requires o.pending != []
    ensures SendFull(o).rc == if Capacity(o.events) >= |o.pending| then Ok else FailureOf(o.events)
  {
    if Flush(o).rc == Again {
      FlushFullCompletes(Flush(o).outbox);
    }
  }

  lemma {:induction false} FailureIsNoSuccess(events: seq<WriteEvent>)
    ensures FailureOf(events) !in {Ok, Again}
  {
    if events != [] {
      FailureIsNoSuccess(events[1..]);
    }
  }

  // ---------------------------------------------------------------- the socket

  class Socket {
    /** What the operating system is going to do: the outcomes of the coming reads and writes. */
    var arrivals: seq<ReadEvent>
    var departures: seq<WriteEvent>
    /** What has been written. */
    var sent: bytes

    constructor (arrivals: seq<ReadEvent>, departures: seq<WriteEvent>)
      ensures this.arrivals == arrivals && this.departures == departures && sent == []
    {
      this.arrivals, this.departures, sent := arrivals, departures, [];
    }

    /** `trilogy_sock_read`: the number of bytes read into `buf`, 0 when the peer has closed. */
    method Read(buf: array<byte>) returns (rc: Rc, nread: nat)
      requires buf.Length == RECV_BUFF_SIZE
      modifies this`arrivals, buf
      ensures old(arrivals) == [] ==> arrivals == [] && rc == Again
      ensures old(arrivals) != [] ==>
                && arrivals == old(arrivals[1..])
                && match old(arrivals[0])
                   case Arrived(d) => rc == Ok && nread == |d| && buf[..nread] == d
                   case Blocked => rc == Again
                   case Hangup => rc == Ok && nread == 0
                   case Broken(e) => rc == e
    {
      nread := 0;
      if arrivals == [] {
        return Again, 0;
      }
      var event := arrivals[0];
      arrivals := arrivals[1..];
      match event
      case Arrived(d) =>
        forall k | 0 <= k < |d| {
          buf[k] := d[k];
        }
        return Ok, |d|;
      case Blocked =>
        return Again, 0;
      case Hangup =>
        return Ok, 0;
      case Broken(e) =>
        return e, 0;
    }

    /** `trilogy_sock_write`: how many of the bytes were written. */
    method Write(data: bytes) returns (rc: Rc, n: nat)
      modifies this`departures, this`sent
      ensures var f := Flush(Outbox(data, old(sent), old(departures)));
              && sent == f.outbox.sent && departures == f.outbox.events
              && (rc == Ok ==> n <= |data| && f.outbox.pending == data[n..] && f.rc == if n < |data| then Again else Ok)
              && (rc != Ok ==> f.outbox.pending == data && f.rc == rc)
    {
      n := 0;
      if departures == [] {
        return Again, 0;
      }
      var event := departures[0];
      departures := departures[1..];
      match event
      case Took(most) =>
        n := Accepted(most, |data|);
        sent := sent + data[..n];
        return Ok, n;
      case Stuck =>
        return Again, 0;
      case Refused(e) =>
        return e, 0;
    }

    /** `trilogy_sock_wait_read` and `trilogy_sock_wait_write`. A wait for something that never happens times out. */
    method WaitRead() returns (rc: Rc)
      ensures rc == if arrivals == [] then Timeout else Ok
    {
      rc := if arrivals == [] then Timeout else Ok;
    }

    method WaitWrite() returns (rc: Rc)
      ensures rc == if departures == [] then Timeout else Ok
    {
      rc := if departures == [] then Timeout else Ok;
    }
  }
}
