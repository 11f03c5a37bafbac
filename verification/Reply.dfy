/** What the operations of src/client.c answer to the packets a server sends, from the bytes of the stream to the fields
    of the connection; and the same for the retry loops of src/blocking.c. */
module Replies {
  import opened Bytes
  import opened Framing
  import opened Links
  import opened TextRows
  import opened OkPackets
  import opened Sessions

  /** The next packet of the stream is `packet`, and `more` follows it. */
  predicate NextIs(p: Line, packet: bytes, more: bytes) {
    p.wire.machine.Idle() && p.wire.incoming == Frame(packet, p.wire.machine.sq) + more
  }

  /** An operation has taken one packet of `n` bytes off the stream, and leaves `more` and the state `st`. */
  predicate Took(p: Line, n: nat, s: LineTurn, more: bytes, st: State) {
    && s.line.state == st && s.line.wire.incoming == more && s.line.wire.machine.Idle()
    && s.line.wire.machine.sq == SeqPlus(p.wire.machine.sq, Fragments(n))
    && s.line.wire.ending == p.wire.ending && s.line.wire.beyond == p.wire.beyond
  }

  // ---------------------------------------------------------------- one-packet replies

  /** An OK packet, in answer to a query or to any other command: its fields are recorded. */
  lemma {:induction false} OkIsAnswered(q: Request, p: Line, o: OkPacket, list: seq<Change>, brief: bool, more: bytes)
    requires q in {AwaitQuery, AwaitStatus} && Sendable(o, p.state.caps, list, brief)
    requires NextIs(p, EncodeOk(o, 0x00, p.state.caps, brief), more)
    ensures var s := TakeReply(q, p);
            && s.rc == Ok && s.out == Nothing
            && Took(p, |EncodeOk(o, 0x00, p.state.caps, brief)|, s, more, Recorded(p.state, o))
  {
    var packet := EncodeOk(o, 0x00, p.state.caps, brief);
    assert packet[0] == 0x00;
    TakeFramed(p.wire, packet, more);
    OkIsRecorded(p.state, o, 0x00, list, brief);
  }

  /** An ERR packet, in answer to a query, to any other command, or among the rows: TRILOGY_ERR, and its code and
      message are recorded. */
  lemma {:induction false} ErrIsAnswered(q: Request, p: Line, code: nat, marker: byte, sqlState: bytes, message: bytes,
                                         more: bytes)
    requires q in {AwaitQuery, AwaitStatus, AwaitRow} && code < 0x1_0000 && |sqlState| == 5
    requires NextIs(p, ErrBytes(p.state.caps, 0xff, code, marker, sqlState, message), more)
    ensures var s := TakeReply(q, p);
            && s.rc == Err && s.out == Nothing
            && Took(p, |ErrBytes(p.state.caps, 0xff, code, marker, sqlState, message)|, s, more,
                    p.state.(errorCode := code, errorMessage := message))
  {
    var packet := ErrBytes(p.state.caps, 0xff, code, marker, sqlState, message);
    assert packet[0] == 0xff;
    TakeFramed(p.wire, packet, more);
    ErrIsRecorded(p.state, 0xff, code, marker, sqlState, message);
  }

  /** Anything else, in answer to a command that is no query, is refused and recorded nowhere. */
  lemma {:induction false} OthersAreUnexpected(p: Line, packet: bytes, more: bytes)
    requires packet != [] && packet[0] !in {0x00, 0xff} && NextIs(p, packet, more)
    ensures var s := TakeReply(AwaitStatus, p);
            s.rc == UnexpectedPacket && s.out == Nothing && Took(p, |packet|, s, more, p.state)
  {
    TakeFramed(p.wire, packet, more);
  }

  /** Among the rows, any packet that starts like no ERR packet, and like no EOF packet or has 9 bytes, is read as a
      row: the caller gets what the row parser makes of it, well-formed or not, and nothing is recorded. */
  lemma {:induction false} RowIsAnswered(p: Line, packet: bytes, more: bytes)
    requires packet != [] && packet[0] != 0xff && (packet[0] == 0xfe ==> |packet| >= 9) && NextIs(p, packet, more)
    ensures var s, row := TakeReply(AwaitRow, p), ParseRow(packet, 0, p.state.columnCount);
            s.rc == row.rc && s.out == Cells(row.cells) && Took(p, |packet|, s, more, p.state)
  {
    TakeFramed(p.wire, packet, more);
  }

  /** An old EOF packet: its warnings and its status are recorded. */
  lemma {:induction false} EofIsAnswered(p: Line, kind: byte, warnings: nat, status: nat, more: bytes)
    requires warnings < 0x1_0000 && status < 0x1_0000 && !Bit(p.state.caps, CAP_DEPRECATE_EOF)
    requires NextIs(p, EofBytes(p.state.caps, kind, warnings, status), more)
    ensures var s := TakeReply(AwaitEof, p);
            && s.rc == Ok && s.out == Nothing
            && Took(p, |EofBytes(p.state.caps, kind, warnings, status)|, s, more,
                    if Bit(p.state.caps, CAP_PROTOCOL_41)
                    then p.state.(warningCount := warnings, serverStatus := status) else p.state)
  {
    TakeFramed(p.wire, EofBytes(p.state.caps, kind, warnings, status), more);
    EofIsRecorded(p.state, kind, warnings, status);
  }

  // ---------------------------------------------------------------- the same through the retry loops

  /** However late its bytes arrive, an OK packet is recorded, and the stream goes on behind it. */
  lemma {:induction false} OkIsReceived(q: Request, p: Peer, o: OkPacket, list: seq<Change>, brief: bool, more: bytes)
    requires p.link.machine.Healthy() && q in {AwaitQuery, AwaitStatus} && Sendable(o, p.state.caps, list, brief)
    requires NextIs(Whole(p), EncodeOk(o, 0x00, p.state.caps, brief), more)
    ensures var s := AskFull(q, p);
            && s.rc == Ok && s.peer.state == Recorded(p.state, o) && WireOf(s.peer.link).incoming == more
            && s.peer.link.machine.Idle()
            && s.peer.link.machine.sq == SeqPlus(p.link.machine.sq,
                                                 Fragments(|EncodeOk(o, 0x00, p.state.caps, brief)|))
  {
    OkIsAnswered(q, Whole(p), o, list, brief, more);
    AskFullIsTake(q, p);
  }

  /** However late its bytes arrive, an ERR packet is recorded, and the stream goes on behind it. */
  lemma {:induction false} ErrIsReceived(q: Request, p: Peer, code: nat, marker: byte, sqlState: bytes,
                                         message: bytes, more: bytes)
    requires p.link.machine.Healthy() && q in {AwaitQuery, AwaitStatus} && code < 0x1_0000 && |sqlState| == 5
    requires NextIs(Whole(p), ErrBytes(p.state.caps, 0xff, code, marker, sqlState, message), more)
    ensures var s := AskFull(q, p);
            && s.rc == Err && s.peer.state == p.state.(errorCode := code, errorMessage := message)
            && WireOf(s.peer.link).incoming == more && s.peer.link.machine.Idle()
  {
    ErrIsAnswered(q, Whole(p), code, marker, sqlState, message, more);
    AskFullIsTake(q, p);
  }

  /** However late its bytes arrive, any other packet is refused as the answer to a command that is no query. */
  lemma {:induction false} OthersAreRefused(p: Peer, packet: bytes, more: bytes)
    requires p.link.machine.Healthy() && packet != [] && packet[0] !in {0x00, 0xff} && NextIs(Whole(p), packet, more)
    ensures var s := AskFull(AwaitStatus, p);
            s.rc == UnexpectedPacket && s.peer.state == p.state && WireOf(s.peer.link).incoming == more
  {
    OthersAreUnexpected(Whole(p), packet, more);
    AskFullIsTake(AwaitStatus, p);
  }
}
