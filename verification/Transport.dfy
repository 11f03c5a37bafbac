/** Builder, socket and parser together: what one side writes is what the other side reads. */
module Transports {
  import opened Bytes
  import opened Framing
  import opened PacketParsers
  import opened Links
  import opened Sockets
  import opened OkPackets
  import opened Sessions
  import opened Replies
  import opened ResultSets
  import opened Clients

  /** What a send has put on the wire. */
  function Written(o: Outbox): (w: bytes)
  {
    SendFullConserves(o);
    SendFull(o).outbox.sent[|o.sent|..]
  }

  lemma {:induction false} WrittenIsPrefix(o: Outbox)
    ensures Written(o) + SendFull(o).outbox.pending == o.pending
    ensures SendFull(o).rc == Ok ==> Written(o) == o.pending
  {
    SendFullConserves(o);
    var f := SendFull(o);
    var sent, pending := f.outbox.sent, f.outbox.pending;
    assert sent == o.sent + sent[|o.sent|..];
    DropPrefix(o.sent, Written(o), pending, o.pending);
    assert Written(o) + [] == Written(o);
  }

  lemma {:induction false} DropPrefix(a: bytes, b: bytes, c: bytes, d: bytes)
    requires a + b + c == a + d
    ensures b + c == d
  {
    assert b + c == (a + b + c)[|a|..];
    assert d == (a + d)[|a|..];
  }

  // ---------------------------------------------------------------- end to end

  /** A message that has been written to the end arrives as exactly one packet: any payload of any length, any partial
      writes and any TRILOGY_AGAIN on the sending side, any cutting into reads on the receiving side. The receiver has
      consumed the frame and not one byte of what follows, and expects the number after the last fragment. */
  lemma {:induction false} MessageArrives(p: bytes, o: Outbox, l: Link, rest: bytes)
    requires o.pending == Frame(p, l.machine.sq) && SendFull(o).rc == Ok
    requires l.machine.Idle() && WireOf(l).incoming == Written(o) + rest
    ensures var r := ReadFull(l);
            && r.rc == Ok && r.link.machine.packet == p && r.link.machine.Idle()
            && r.link.machine.sq == SeqPlus(l.machine.sq, Fragments(|p|))
            && WireOf(r.link).incoming == rest
  {
    WrittenIsPrefix(o);
    ChunkInvariance(l);
    TakeFramed(WireOf(l), p, rest);
  }

  /** Before the last byte has been written, no packet is delivered. */
  lemma {:induction false} NothingArrivesEarly(p: bytes, o: Outbox, l: Link)
    requires o.pending == Frame(p, l.machine.sq) && SendFull(o).outbox.pending != []
    requires l.machine.Idle() && WireOf(l).incoming == Written(o)
    ensures ReadFull(l).rc == WireOf(l).ending
  {
    WrittenIsPrefix(o);
    var f, k := Frame(p, l.machine.sq), |Written(o)|;
    assert Written(o) == f[..k];
    UnframePrefix(p, l.machine.sq, k, []);
    ChunkInvariance(l);
    RunIsUnframe(l.machine, WireOf(l).incoming);
  }

  lemma {:induction false} UnfinishedLeavesBytes(o: Outbox)
    requires o.pending != [] && SendFull(o).rc != Ok
    ensures SendFull(o).outbox.pending != []
  {
    if Flush(o).rc == Again {
      UnflushedLeavesBytes(Flush(o).outbox);
    }
  }

  lemma {:induction false} UnflushedLeavesBytes(o: Outbox)
    requires o.pending != [] && FlushFull(o).rc != Ok
    ensures FlushFull(o).outbox.pending != []
    decreases |o.events|
  {
    if o.events != [] && Flush(o).rc == Again {
      UnflushedLeavesBytes(Flush(o).outbox);
    }
  }

  /** A message is delivered if and only if the writes take all of it before one fails. */
  lemma {:induction false} DeliveredIff(p: bytes, o: Outbox, l: Link)
    requires o.pending == Frame(p, l.machine.sq) && l.machine.Idle() && WireOf(l).incoming == Written(o)
    ensures ReadFull(l).rc == Ok <==> Capacity(o.events) >= |Frame(p, l.machine.sq)|
    ensures ReadFull(l).rc == Ok ==> ReadFull(l).link.machine.packet == p
  {
    SendCompletesIff(o);
    FailureIsNoSuccess(o.events);
    if SendFull(o).rc == Ok {
      assert Written(o) + [] == Written(o);
      MessageArrives(p, o, l, []);
    } else {
      UnfinishedLeavesBytes(o);
      NothingArrivesEarly(p, o, l);
    }
  }

  // ---------------------------------------------------------------- sequence numbers of replies

  /** A command of `n` bytes whose sender leaves the parser expecting number 1: that is the number of the reply if and
      only if the count of full fragments is a multiple of 256, as it is below 0xffffff bytes. */
  lemma {:induction false} ExpectsOneIff(n: nat)
    ensures Next(0) == SeqPlus(0, Fragments(n)) <==> n / MAX_PACKET_LEN % 256 == 0
    ensures n < MAX_PACKET_LEN ==> Next(0) == SeqPlus(0, Fragments(n))
  {
    SeqPlusIsModular(0, Fragments(n));
    FragmentsInClosedForm(n, 0);
  }

  /** A header with another number than expected. */
  lemma {:induction false} WrongNumberIsRefused(w: Wire, p: bytes, sq: byte, more: bytes)
    requires w.machine.Idle() && w.incoming == Frame(p, sq) + more && sq != w.machine.sq
    ensures TakePacket(w).rc == InvalidSequenceId
  {
    var s := w.incoming;
    if |p| < MAX_PACKET_LEN {
      HeaderStarts(|p|, sq, p + more);
      assert s == Header(|p|, sq) + (p + more);
    } else {
      var tail := p[..MAX_PACKET_LEN] + Frame(p[MAX_PACKET_LEN..], Next(sq)) + more;
      HeaderStarts(MAX_PACKET_LEN, sq, tail);
      FramePeel(p, sq);
      assert s == Header(MAX_PACKET_LEN, sq) + tail;
    }
    RunIsUnframe(w.machine, s);
  }

  /** After `CommandSend` of a command of `n` bytes, a reply numbered as the protocol demands is accepted exactly when
      the parser happens to expect its number, and refused with TRILOGY_INVALID_SEQUENCE_ID otherwise. */
  lemma {:induction false} CommandReplyAcceptedIff(w: Wire, n: nat, reply: bytes, more: bytes)
    requires w.machine.Idle() && w.machine.sq == Next(0)
    requires w.incoming == Frame(reply, SeqPlus(0, Fragments(n))) + more
    ensures TakePacket(w).rc == if n / MAX_PACKET_LEN % 256 == 0 then Ok else InvalidSequenceId
  {
    ExpectsOneIff(n);
    if n / MAX_PACKET_LEN % 256 == 0 {
      TakeFramed(w, reply, more);
    } else {
      WrongNumberIsRefused(w, reply, SeqPlus(0, Fragments(n)), more);
    }
  }

  /** After `QuerySend` of a query of any length, an OK packet numbered on from the last fragment of the query is
      accepted and recorded. */
  lemma {:induction false} QueryIsConfirmed(query: bytes, p: Peer, o: OkPacket, list: seq<Change>, brief: bool,
                                            rest: bytes)
    requires p.link.machine.Idle() && Sendable(o, p.state.caps, list, brief)
    requires WireOf(p.link).incoming ==
             Frame(EncodeOk(o, 0x00, p.state.caps, brief), SeqPlus(0, Fragments(1 + |query|))) + rest
    ensures var s := AskFull(AwaitQuery,
                             Peer(Asked(p.link, QueryFrame(query), SeqPlus(0, Fragments(1 + |query|))), p.state));
            s.rc == Ok && s.peer.state == Recorded(p.state, o) && WireOf(s.peer.link).incoming == rest
  {
    OkIsReceived(AwaitQuery, Peer(Asked(p.link, QueryFrame(query), SeqPlus(0, Fragments(1 + |query|))), p.state), o,
                 list, brief, rest);
  }

  /** An ERR packet is accepted and recorded as well. */
  lemma {:induction false} QueryIsRejected(query: bytes, p: Peer, code: nat, marker: byte, sqlState: bytes,
                                           message: bytes, rest: bytes)
    requires p.link.machine.Idle() && code < 0x1_0000 && |sqlState| == 5
    requires WireOf(p.link).incoming ==
             Frame(ErrBytes(p.state.caps, 0xff, code, marker, sqlState, message), SeqPlus(0, Fragments(1 + |query|))) +
             rest
    ensures var s := AskFull(AwaitQuery,
                             Peer(Asked(p.link, QueryFrame(query), SeqPlus(0, Fragments(1 + |query|))), p.state));
            && s.rc == Err && s.peer.state == p.state.(errorCode := code, errorMessage := message)
            && WireOf(s.peer.link).incoming == rest
  {
    ErrIsReceived(AwaitQuery, Peer(Asked(p.link, QueryFrame(query), SeqPlus(0, Fragments(1 + |query|))), p.state), code,
                  marker, sqlState, message, rest);
  }

  /** After `QuerySend` of a query of any length, the reply is accepted: here a whole result set, numbered on from the
      last fragment of the query, and read completely if and only if its end packet is shorter than 9 bytes. */
  lemma {:induction false} QueryIsAnswered(query: bytes, p: Peer, columns: seq<bytes>, e: bytes, rows: seq<bytes>,
                                           t: bytes, rest: bytes)
    requires p.link.machine.Idle() && 0 < |columns| <= SIZE_MAX
    requires AreColumns(columns) && AreRows(rows, |columns|) && IsEnd(p.state.caps, t)
    requires !Bit(p.state.caps, CAP_DEPRECATE_EOF) ==> IsEof(p.state.caps, e)
    requires WireOf(p.link).incoming ==
             FrameAll(Response(p.state.caps, columns, e, rows, t), SeqPlus(0, Fragments(1 + |query|))) + rest
    ensures var asked := Asked(p.link, QueryFrame(query), SeqPlus(0, Fragments(1 + |query|)));
            var r := ReadResultSet(Peer(asked, p.state));
            && r.definitions == DefinitionsOf(columns)
            && (Complete(r.records, RecordsOf(rows, |columns|), r.last.rc, WireOf(r.last.peer.link), rest) <==> |t| < 9)
            && (|t| < 9 ==> r.last.peer.state == Behind(p.state, |columns|, e, t))
  {
    var asked := Asked(p.link, QueryFrame(query), SeqPlus(0, Fragments(1 + |query|)));
    ResultSetIsRead(Peer(asked, p.state), columns, e, rows, t, rest);
  }
}
