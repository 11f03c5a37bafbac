/** Packets off a socket: `read_packet` of src/client.c, and the retry loops around it in src/blocking.c. */
module Links {
  import opened Bytes
  import opened Framing
  import opened PacketParsers

  // ---------------------------------------------------------------- what the socket will do

  const RECV_BUFF_SIZE: nat := 32768

  /** What one read brings: at least one byte, and no more than the receive buffer holds. */
  type Chunk = d: bytes | 0 < |d| <= RECV_BUFF_SIZE witness [0]

  /** The error codes of the socket layer, but for TRILOGY_AGAIN. */
  type Failure = rc: Rc | rc in {SysErr, ClosedConnection, OpensslErr, Timeout} witness SysErr

  /** The outcome of one call of `trilogy_sock_read`. */
  datatype ReadEvent = Arrived(data: Chunk) | Blocked | Hangup | Broken(rc: Failure)

  // ---------------------------------------------------------------- reading a packet, one read at a time

  /** The receiving side of a connection: the parser with the packet buffer, the received bytes it has not seen yet,
      and what the coming reads will bring. When there is nothing to come, a read would block. */
  datatype Link = Link(machine: Machine, unread: bytes, events: seq<ReadEvent>)

  datatype Received = Received(link: Link, rc: Rc)

  /** Hands the received bytes to the parser. */
  function Parse(l: Link): (r: Received)
    requires l.machine.Healthy()
    ensures r.link.machine.Healthy() && r.link.events == l.events
  {
    var run := Run(l.machine, l.unread);
    Received(Link(run.machine, run.rest, l.events),
             match run.verdict
             case More => Again
             case Packet => Ok
             case BadSequence => InvalidSequenceId)
  }

  /** `read_packet`: at most one read, and only when every received byte has been parsed. */
  function ReadPacket(l: Link): (r: Received)
    requires l.machine.Healthy()
    ensures r.link.machine.Healthy() && |r.link.events| <= |l.events|
  {
    if l.unread != [] then Parse(l)
    else if l.events == [] then Received(l, Again)
    else
      var left := l.(events := l.events[1..]);
      match l.events[0]
      case Arrived(d) => Parse(left.(unread := d))
      case Blocked => Received(left, Again)
      case Hangup => Received(left, ClosedConnection)
      case Broken(rc) => Received(left, rc)
  }

  /** The retry loop: wait until the socket is readable, and try again. Waiting for a socket that brings nothing more
      times out. */
  function ReadFull(l: Link): (r: Received)
    requires l.machine.Healthy()
    ensures r.link.machine.Healthy() && r.rc != Again
    decreases |l.events|, |l.unread|
  {
    ReadPacketAgain(l);
    var r := ReadPacket(l);
    if r.rc != Again then r
    else if r.link.events == [] then Received(r.link, Timeout)
    else ReadFull(r.link)
  }

  /** When a read has to be repeated, the parser has seen everything that was received, and something was. */
  lemma {:induction false} ReadPacketAgain(l: Link)
    requires l.machine.Healthy()
    ensures var r := ReadPacket(l);
            r.rc == Again ==>
              && r.link.unread == []
              && (|r.link.events| < |l.events| || (r.link.events == l.events && (l.unread != [] || l.events == [])))
  {
    RunStops(l.machine, l.unread);
    if l.events != [] && l.events[0].Arrived? {
      RunStops(l.machine, l.events[0].data);
    }
  }

  // ---------------------------------------------------------------- the same, at one stroke

  /** The bytes that arrive before the connection ends. */
  function Arriving(events: seq<ReadEvent>): bytes {
    if events == [] then []
    else match events[0]
         case Arrived(d) => d + Arriving(events[1..])
         case Blocked => Arriving(events[1..])
         case Hangup => []
         case Broken(_) => []
  }

  /** How the connection ends: closed, with an error, or by keeping silent. */
  function EndingOf(events: seq<ReadEvent>): Failure {
    if events == [] then Timeout
    else match events[0]
         case Arrived(_) => EndingOf(events[1..])
         case Blocked => EndingOf(events[1..])
         case Hangup => ClosedConnection
         case Broken(rc) => rc
  }

  /** What the socket would still do after that. */
  function Beyond(events: seq<ReadEvent>): (r: seq<ReadEvent>) {
    if events == [] then []
    else match events[0]
         case Arrived(_) => Beyond(events[1..])
         case Blocked => Beyond(events[1..])
         case Hangup => events[1..]
         case Broken(_) => events[1..]
  }

  predicate Harmless(e: ReadEvent) {
    e.Arrived? || e.Blocked?
  }

  /** The data that arrives, event by event. */
  function Data(events: seq<ReadEvent>): bytes {
    if events == [] then [] else (if events[0].Arrived? then events[0].data else []) + Data(events[1..])
  }

  /** The stream ends at the first event that neither brings bytes nor only blocks: closed, or with its error; without
      such an event it falls silent. Everything in front of it arrives. */
  lemma {:induction false} StreamByPosition(events: seq<ReadEvent>, k: nat)
    requires k <= |events| && forall j | 0 <= j < k :: Harmless(events[j])
    requires k < |events| ==> !Harmless(events[k])
    ensures Arriving(events) == Data(events[..k])
    ensures k == |events| ==> EndingOf(events) == Timeout && Beyond(events) == []
    ensures k < |events| ==>
              EndingOf(events) == (if events[k].Hangup? then ClosedConnection else events[k].rc) &&
              Beyond(events) == events[k + 1..]
    decreases k
  {
    if k > 0 {
      StreamByPosition(events[1..], k - 1);
      assert events[..k][1..] == events[1..][..k - 1];
    }
  }

  /** The receiving side without its cutting into reads: one stream of bytes, and how it ends. */
  datatype Wire = Wire(machine: Machine, incoming: bytes, ending: Failure, beyond: seq<ReadEvent>)

  function WireOf(l: Link): (w: Wire)
    ensures w.machine == l.machine
  {
    Wire(l.machine, l.unread + Arriving(l.events), EndingOf(l.events), Beyond(l.events))
  }

  datatype Taken = Taken(wire: Wire, rc: Rc)

  /** One packet, by one run of the parser over the whole stream. */
  function TakePacket(w: Wire): (t: Taken)
    requires w.machine.Healthy()
    ensures t.wire.machine.Healthy()
  {
    var run := Run(w.machine, w.incoming);
    match run.verdict
    case Packet => Taken(w.(machine := run.machine, incoming := run.rest), Ok)
    case BadSequence => Taken(w.(machine := run.machine, incoming := run.rest), InvalidSequenceId)
    case More => Taken(WireOf(Link(run.machine, [], w.beyond)), w.ending)
  }

  // ---------------------------------------------------------------- chunk invariance

  lemma {:induction false} ParseIsTake(l: Link)
    requires l.machine.Healthy()
    ensures var r := Parse(l);
            TakePacket(WireOf(l)) == if r.rc == Again then TakePacket(WireOf(r.link)) else Taken(WireOf(r.link), r.rc)
    ensures Parse(l).rc == Again ==> Parse(l).link.unread == []
  {
    var run, more := Run(l.machine, l.unread), Arriving(l.events);
    RunStops(l.machine, l.unread);
    RunConcat(l.machine, l.unread, more);
    if run.verdict == More {
      assert [] + more == more;
    }
  }

  /** One `read_packet`: a packet or an error is what the stream holds next; TRILOGY_AGAIN leaves the stream's answer as
      it was. */
  lemma {:induction false} ReadIsTake(l: Link)
    requires l.machine.Healthy()
    ensures var r := ReadPacket(l);
            TakePacket(WireOf(l)) == if r.rc == Again then TakePacket(WireOf(r.link)) else Taken(WireOf(r.link), r.rc)
  {
    assert [] + Arriving(l.events) == Arriving(l.events);
    if l.unread != [] {
      ParseIsTake(l);
    } else if l.events != [] {
      var left := l.(events := l.events[1..]);
      assert [] + Arriving(left.events) == Arriving(left.events);
      match l.events[0]
      case Arrived(d) => ParseIsTake(left.(unread := d));
      case Blocked =>
      case Hangup =>
      case Broken(_) =>
    }
  }

  lemma {:induction false} SilenceTimesOut(l: Link)
    requires l.machine.Healthy() && l.unread == [] && l.events == []
    ensures TakePacket(WireOf(l)) == Taken(WireOf(l), Timeout)
  {
  }

  /** However the stream is cut into reads, and however often they block, the retry loop delivers what one run over the
      whole stream does, and leaves the rest of the stream. */
  lemma {:induction false} ChunkInvariance(l: Link)
    requires l.machine.Healthy()
    ensures Taken(WireOf(ReadFull(l).link), ReadFull(l).rc) == TakePacket(WireOf(l))
    decreases |l.events|, |l.unread|
  {
    var r := ReadPacket(l);
    ReadIsTake(l);
    ReadPacketAgain(l);
    if r.rc == Again {
      if r.link.events == [] {
        SilenceTimesOut(r.link);
      } else {
        ChunkInvariance(r.link);
      }
    }
  }

  /** A wrong sequence number is not consumed: reading again reports it again, and changes nothing. */
  lemma {:induction false} BadSequenceStays(l: Link)
    requires l.machine.Healthy() && ReadPacket(l).rc == InvalidSequenceId
    ensures ReadPacket(ReadPacket(l).link) == ReadPacket(l)
  {
    RunStops(l.machine, l.unread);
    if l.events != [] && l.events[0].Arrived? {
      RunStops(l.machine, l.events[0].data);
    }
  }

  /** A framed packet at the front of the stream is the next packet. */
  lemma {:induction false} TakeFramed(w: Wire, p: bytes, more: bytes)
    requires w.machine.Idle() && w.incoming == Frame(p, w.machine.sq) + more
    ensures var t := TakePacket(w);
            && t.rc == Ok && t.wire == w.(machine := t.wire.machine, incoming := more)
            && t.wire.machine.Idle() && t.wire.machine.packet == p
            && t.wire.machine.sq == SeqPlus(w.machine.sq, Fragments(|p|))
            && (p != [] ==> t.wire.machine.kind == p[0])
  {
    UnframeFrame(p, w.machine.sq, more, []);
    assert [] + p == p;
    RunIsUnframe(w.machine, w.incoming);
  }

  // ---------------------------------------------------------------- a whole stream

  /** Packets, the receiving side behind them, and the code that ended the reading. */
  datatype Delivery<+S> = Delivery(packets: seq<bytes>, end: S, rc: Rc)

  lemma {:induction false} TakingShortens(w: Wire)
    requires w.machine.Healthy() && TakePacket(w).rc == Ok
    ensures |TakePacket(w).wire.incoming| < |w.incoming| && TakePacket(w).wire.machine.Idle()
  {
    RunStops(w.machine, w.incoming);
  }

  /** Every packet the retry loop delivers. */
  function ReadAll(l: Link): Delivery<Link>
    requires l.machine.Healthy()
    decreases |WireOf(l).incoming|
  {
    var r := ReadFull(l);
    if r.rc != Ok then Delivery([], r.link, r.rc)
    else
      ChunkInvariance(l);
      TakingShortens(WireOf(l));
      var tail := ReadAll(r.link);
      tail.(packets := [r.link.machine.packet] + tail.packets)
  }

  /** Every packet of a stream. */
  function TakeAll(w: Wire): Delivery<Wire>
    requires w.machine.Healthy()
    decreases |w.incoming|
  {
    var t := TakePacket(w);
    if t.rc != Ok then Delivery([], t.wire, t.rc)
    else
      TakingShortens(w);
      var tail := TakeAll(t.wire);
      tail.(packets := [t.wire.machine.packet] + tail.packets)
  }

  /** The packets, the point where a sequence number is wrong, and the final state of the parser do not depend on the
      cutting into reads. */
  lemma {:induction false} DeliveryIsChunkInvariant(l: Link)
    requires l.machine.Healthy()
    ensures var d := ReadAll(l);
            d.end.machine.Healthy() && TakeAll(WireOf(l)) == Delivery(d.packets, WireOf(d.end), d.rc)
    decreases |WireOf(l).incoming|
  {
    ChunkInvariance(l);
    if ReadFull(l).rc == Ok {
      TakingShortens(WireOf(l));
      DeliveryIsChunkInvariant(ReadFull(l).link);
    }
  }

  /** Every message of a stream, by slicing: the payloads, and whether the stream then breaks the numbering or ends. */
  datatype Messages = Messages(payloads: seq<bytes>, broken: bool)

  function UnframeAll(s: bytes, sq: byte): Messages
    decreases |s|
  {
    match Unframe(s, sq, [])
    case Short => Messages([], false)
    case Mismatch => Messages([], true)
    case Message(p, rest, next) =>
      UnframeConsumes(s, sq, []);
      var tail := UnframeAll(rest, next);
      tail.(payloads := [p] + tail.payloads)
  }

  lemma {:induction false} UnframeConsumes(s: bytes, sq: byte, acc: bytes)
    ensures Unframe(s, sq, acc).Message? ==> |Unframe(s, sq, acc).rest| < |s|
    decreases |s|
  {
    if |s| >= 4 && s[3] == sq && HeaderLength(s) == MAX_PACKET_LEN && |s| >= 4 + MAX_PACKET_LEN {
      UnframeConsumes(s[4 + MAX_PACKET_LEN..], Next(sq), acc + s[4..4 + MAX_PACKET_LEN]);
    }
  }

  /** Between two packets, the packets of a stream are its messages. */
  lemma {:induction false} PacketsAreMessages(w: Wire)
    requires w.machine.Idle()
    ensures var d, m := TakeAll(w), UnframeAll(w.incoming, w.machine.sq);
            d.packets == m.payloads && d.rc == if m.broken then InvalidSequenceId else w.ending
    decreases |w.incoming|
  {
    RunIsUnframe(w.machine, w.incoming);
    if TakePacket(w).rc == Ok {
      TakingShortens(w);
      PacketsAreMessages(TakePacket(w).wire);
    }
  }

  /** The messages of framed payloads are those payloads, and then whatever follows. */
  lemma {:induction false} MessagesOfFrames(ps: seq<bytes>, sq: byte, rest: bytes)
    ensures var m, tail := UnframeAll(FrameAll(ps, sq) + rest, sq), UnframeAll(rest, SeqAfter(ps, sq));
            m.payloads == ps + tail.payloads && m.broken == tail.broken
    decreases |ps|
  {
    if ps == [] {
      assert FrameAll(ps, sq) + rest == rest;
    } else {
      var p, next := ps[0], SeqPlus(sq, Fragments(|ps[0]|));
      var more := FrameAll(ps[1..], next);
      Associate(Frame(p, sq), more, rest);
      UnframeFrame(p, sq, more + rest, []);
      MessagesOfFrames(ps[1..], next, rest);
      FirstPayload(p, ps, UnframeAll(rest, SeqAfter(ps, sq)).payloads);
    }
  }

  lemma {:induction false} FirstPayload(p: bytes, ps: seq<bytes>, tail: seq<bytes>)
    requires ps != [] && p == [] + ps[0]
    ensures [p] + (ps[1..] + tail) == ps + tail
  {
    assert p == ps[0] && ps == [ps[0]] + ps[1..];
  }

  /** Framed payloads, cut into reads anyhow, are delivered one by one and in order, ahead of what follows. */
  lemma {:induction false} FramedPacketsAreDelivered(l: Link, ps: seq<bytes>, rest: bytes)
    requires l.machine.Idle() && WireOf(l).incoming == FrameAll(ps, l.machine.sq) + rest
    ensures ReadAll(l).packets == ps + UnframeAll(rest, SeqAfter(ps, l.machine.sq)).payloads
  {
    DeliveryIsChunkInvariant(l);
    PacketsAreMessages(WireOf(l));
    MessagesOfFrames(ps, l.machine.sq, rest);
  }
}
