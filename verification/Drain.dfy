/** `trilogy_drain_results` of src/client.c, and when it agrees with reading the rows. */
module Drains {
  import opened Bytes
  import opened Framing
  import opened PacketParsers
  import opened Links
  import opened OkPackets
  import opened Sessions
  import opened ResultSets

  // ---------------------------------------------------------------- draining, resumable

  /** The EOF packet behind the columns, which is expected whatever the capabilities say. */
  function DropColumnEof(p: Peer): (s: Turn)
    requires p.link.machine.Healthy()
    ensures s.peer.link.machine.Healthy()
  {
    if p.state.started then Turn(p, Ok, Nothing) else Start(Ask(AwaitEof, p))
  }

  lemma {:induction false} ReadPacketShortens(l: Link)
    requires l.machine.Healthy() && ReadPacket(l).rc == Ok
    ensures |WireOf(ReadPacket(l).link).incoming| < |WireOf(l).incoming|
  {
    ReadIsTake(l);
    TakingShortens(WireOf(l));
  }

  /** Packets are dropped up to one that looks like a terminator. */
  function DropRows(p: Peer): (s: Turn)
    requires p.link.machine.Healthy()
    ensures s.peer.link.machine.Healthy()
    decreases |WireOf(p.link).incoming|
  {
    var r := ReadPacket(p.link);
    if r.rc != Ok then Turn(Peer(r.link, p.state), r.rc, Nothing)
    else if LooksLikeEof(r.link.machine.kind, r.link.machine.packet) then Turn(Peer(r.link, p.state), Ok, Nothing)
    else
      ReadPacketShortens(p.link);
      DropRows(Peer(r.link, p.state))
  }

  /** `trilogy_drain_results`. */
  function Drain(p: Peer): (s: Turn)
    requires p.link.machine.Healthy()
    ensures s.peer.link.machine.Healthy()
  {
    var s := DropColumnEof(p);
    if s.rc != Ok then s else DropRows(s.peer)
  }

  // ---------------------------------------------------------------- draining a whole stream

  function SkipRows(p: Line): (s: LineTurn)
    requires p.wire.machine.Healthy()
    decreases |p.wire.incoming|
  {
    var t := TakePacket(p.wire);
    if t.rc != Ok then LineTurn(Line(t.wire, p.state), t.rc, Nothing)
    else if LooksLikeEof(t.wire.machine.kind, t.wire.machine.packet) then LineTurn(Line(t.wire, p.state), Ok, Nothing)
    else
      TakingShortens(p.wire);
      SkipRows(Line(t.wire, p.state))
  }

  function SkipResults(p: Line): LineTurn
    requires p.wire.machine.Healthy()
  {
    var s := if p.state.started then LineTurn(p, Ok, Nothing) else StartLine(TakeReply(AwaitEof, p));
    if s.rc != Ok then s else SkipRows(s.line)
  }

  lemma {:induction false} DropRowsIsSkip(p: Peer)
    requires p.link.machine.Healthy()
    ensures var s := DropRows(p);
            SkipRows(Whole(p)) == if s.rc == Again then SkipRows(Whole(s.peer)) else WholeTurn(s)
    ensures DropRows(p).rc == Again ==> DropRows(p).peer.state == p.state && DropRows(p).out == Nothing
    decreases |WireOf(p.link).incoming|
  {
    var r := ReadPacket(p.link);
    ReadIsTake(p.link);
    if r.rc == Ok && !LooksLikeEof(r.link.machine.kind, r.link.machine.packet) {
      ReadPacketShortens(p.link);
      DropRowsIsSkip(Peer(r.link, p.state));
    }
  }

  lemma {:induction false} DrainIsSkip(p: Peer)
    requires p.link.machine.Healthy()
    ensures var s := Drain(p);
            SkipResults(Whole(p)) == if s.rc == Again then SkipResults(Whole(s.peer)) else WholeTurn(s)
    ensures Drain(p).rc == Again ==> Drain(p).out == Nothing
  {
    var s := DropColumnEof(p);
    AskIsTake(AwaitEof, p);
    if s.rc == Ok {
      DropRowsIsSkip(s.peer);
    }
  }

  lemma {:induction false} DropRowsAgain(p: Peer)
    requires p.link.machine.Healthy() && DropRows(p).rc == Again
    ensures Waits(p.link, DropRows(p).peer.link)
    decreases |WireOf(p.link).incoming|
  {
    ReadPacketAgain(p.link);
    var r := ReadPacket(p.link);
    if r.rc == Ok {
      ReadPacketShortens(p.link);
      DropRowsAgain(Peer(r.link, p.state));
    }
  }

  /** From `l`, a call went on to `next` and has to wait there. */
  predicate Waits(l: Link, next: Link) {
    && next.unread == []
    && (|next.events| < |l.events| || (next.events == l.events && (l.unread != [] || l.events == [])))
  }

  lemma {:induction false} DrainAgain(p: Peer)
    requires p.link.machine.Healthy() && Drain(p).rc == Again
    ensures Waits(p.link, Drain(p).peer.link)
  {
    var s := DropColumnEof(p);
    AskIsTake(AwaitEof, p);
    ReadPacketAgain(p.link);
    if s.rc == Ok {
      DropRowsIsSkip(s.peer);
      DropRowsAgain(s.peer);
    }
  }

  /** Draining, with a wait for every TRILOGY_AGAIN. */
  function DrainFull(p: Peer): (s: Turn)
    requires p.link.machine.Healthy()
    decreases |p.link.events|, |p.link.unread|
  {
    var s := Drain(p);
    if s.rc != Again then s
    else
      DrainAgain(p);
      if s.peer.link.events == [] then s.(rc := Timeout) else DrainFull(s.peer)
  }

  lemma {:induction false} SkipAfterSilence(s: Turn)
    requires s.peer.link.machine.Healthy() && s.peer.link.unread == [] && s.peer.link.events == [] && s.out == Nothing
    ensures SkipResults(Whole(s.peer)) == WholeTurn(s.(rc := Timeout))
  {
    SilenceTimesOut(s.peer.link);
  }

  /** Draining is resumable too: TRILOGY_AGAIN loses and repeats nothing. */
  lemma {:induction false} DrainFullIsSkip(p: Peer)
    requires p.link.machine.Healthy()
    ensures SkipResults(Whole(p)) == WholeTurn(DrainFull(p))
    decreases |p.link.events|, |p.link.unread|
  {
    var s := Drain(p);
    DrainIsSkip(p);
    if s.rc == Again {
      DrainAgain(p);
      if s.peer.link.events == [] {
        SkipAfterSilence(s);
      } else {
        DrainFullIsSkip(s.peer);
      }
    }
  }

  // ---------------------------------------------------------------- draining and reading

  /** Reading has come to the end of the result set. */
  predicate Ends(p: Line)
    requires p.wire.machine.Healthy()
  {
    TakeRows(p).last.rc == Eof
  }

  /** Draining succeeds, and leaves the stream where reading to the end does, and the connection as the EOF packet
      behind the columns does, if one is still to come: the rows have begun, and what the end packet says is not
      recorded. */
  predicate DrainsLikeReading(p: Line)
    requires p.wire.machine.Healthy()
  {
    && SkipResults(p).rc == Ok && SkipResults(p).line.wire == TakeRows(p).last.line.wire
    && SkipResults(p).line.state == TakeColumnEof(p).line.state && SkipResults(p).line.state.started
  }

  /** One row: reading and skipping take the same packet. */
  lemma {:induction false} RowIsSkipped(p: Line)
    requires p.wire.machine.Healthy() && p.state.started
    ensures var s, t := TakeRow(p), TakePacket(p.wire);
            && (s.rc == Ok ==> t.rc == Ok && s.line == Line(t.wire, p.state)
                                && !LooksLikeEof(t.wire.machine.kind, t.wire.machine.packet))
            && (s.rc == Eof ==> t.rc == Ok && s.line.wire == t.wire
                                && LooksLikeEof(t.wire.machine.kind, t.wire.machine.packet))
  {
    HandleCodes(AwaitRow, p.state, TakePacket(p.wire).wire.machine);
  }

  lemma {:induction false} RowsAreSkipped(p: Line)
    requires p.wire.machine.Healthy() && p.state.started && Ends(p)
    ensures SkipRows(p).rc == Ok && SkipRows(p).line.wire == TakeRows(p).last.line.wire
    ensures SkipRows(p).line.state == p.state
    decreases |p.wire.incoming|
  {
    RowIsSkipped(p);
    if TakeRow(p).rc == Ok {
      TakeRowShortens(p);
      RowsAreSkipped(TakeRow(p).line);
    }
  }

  /** With the rows started, or with DEPRECATE_EOF off, draining a result set that reading gets to the end of leaves the
      stream where reading does. */
  lemma {:induction false} DrainAgrees(p: Line)
    requires p.wire.machine.Healthy() && Ends(p)
    requires p.state.started || !Bit(p.state.caps, CAP_DEPRECATE_EOF)
    ensures DrainsLikeReading(p)
  {
    if TakeColumnEof(p).rc == Ok {
      RowsAfterSkip(p);
      RowsAreSkipped(TakeColumnEof(p).line);
    } else {
      HandleCodes(AwaitEof, p.state, TakePacket(p.wire).wire.machine);
    }
  }

  /** With DEPRECATE_EOF on and no row read yet, draining takes the terminator of an empty result set for the EOF packet
      behind the columns, and waits for another one. */
  lemma {:induction false} DrainOverruns(p: Line, t: bytes)
    requires p.wire.machine.Idle() && !p.state.started && Bit(p.state.caps, CAP_DEPRECATE_EOF)
    requires IsTerminator(p.state.caps, t) && p.wire.incoming == Frame(t, p.wire.machine.sq) + []
    ensures Ends(p) && SkipResults(p).rc != Ok
  {
    TakeFramed(p.wire, t, []);
    TakeFramedTerminator(TakeColumnEof(p).line, t, []);
  }

  /** Among the rows, an ERR packet stops reading, but draining steps over it and waits for a terminator that a server
      does not send. */
  lemma {:induction false} DrainStepsOverErr(p: Line, e: bytes, more: bytes)
    requires p.state.started && p.wire.machine.Idle() && e != [] && e[0] == 0xff
    requires p.wire.incoming == Frame(e, p.wire.machine.sq) + more
    ensures var w := TakePacket(p.wire).wire;
            && w.incoming == more && SkipRows(p) == SkipRows(Line(w, p.state))
            && TakeRow(p).rc !in {Ok, Eof} && TakeRow(p).line == Line(w, HandleErr(p.state, e).state)
  {
    TakeFramed(p.wire, e, more);
    StatusCodes(p.state, e);
    ErrNeverOk(p.state, e);
  }

  lemma {:induction false} ErrNeverOk(st: State, p: bytes)
    ensures HandleErr(st, p).rc != Ok
  {
  }

  /** Draining agrees with reading on every stream that holds a result set, if and only if rows have been read or
      DEPRECATE_EOF is off. */
  lemma {:induction false} DrainAgreesIff(st: State)
    ensures (st.started || !Bit(st.caps, CAP_DEPRECATE_EOF)) <==>
            forall w: Wire | w.machine.Healthy() && Ends(Line(w, st)) :: DrainsLikeReading(Line(w, st))
  {
    if st.started || !Bit(st.caps, CAP_DEPRECATE_EOF) {
      forall w: Wire | w.machine.Healthy() && Ends(Line(w, st))
        ensures DrainsLikeReading(Line(w, st))
      {
        DrainAgrees(Line(w, st));
      }
    } else {
      ZeroEofTerminates(st.caps);
      var t := ZeroEof(st.caps);
      var w := Wire(Machine(Len0, 0, false, 0, [], 0), Frame(t, 0) + [], Timeout, []);
      DrainOverruns(Line(w, st), t);
      assert !DrainsLikeReading(Line(w, st));
    }
  }

  /** The same for the resumable calls, under any TRILOGY_AGAIN: draining ends at the byte where reading ends. */
  lemma {:induction false} DrainedLikeRead(p: Peer)
    requires p.link.machine.Healthy() && ReadRows(p).last.rc == Eof
    requires p.state.started || !Bit(p.state.caps, CAP_DEPRECATE_EOF)
    ensures DrainFull(p).rc == Ok && WireOf(DrainFull(p).peer.link) == WireOf(ReadRows(p).last.peer.link)
    ensures DrainFull(p).peer.state == TakeColumnEof(Whole(p)).line.state && DrainFull(p).peer.state.started
  {
    ReadRowsIsTake(p);
    DrainAgrees(Whole(p));
    DrainFullIsSkip(p);
  }

  // ---------------------------------------------------------------- the stored GTID

  /** What the buffer for the last GTID has room for. */
  predicate GtidFits(st: State) {
    |st.lastGtid| < MAX_LAST_GTID_LEN
  }

  /** A connection after a run of calls, each of which may have returned anything: replies awaited, rows read, results
      drained. */
  datatype Call = Await(q: Request) | NextRow | Discard

  function Perform(calls: seq<Call>, p: Peer): (r: Peer)
    requires p.link.machine.Healthy()
    ensures r.link.machine.Healthy()
    decreases |calls|
  {
    if calls == [] then p
    else
      var next := match calls[0]
                  case Await(q) => Ask(q, p).peer
                  case NextRow => ReadRow(p).peer
                  case Discard => Drain(p).peer;
      Perform(calls[1..], next)
  }

  lemma {:induction false} HandleKeepsGtid(q: Request, st: State, m: Machine)
    requires GtidFits(st)
    ensures GtidFits(Handle(q, st, m).state)
  {
  }

  lemma {:induction false} AskKeepsGtid(q: Request, p: Peer)
    requires p.link.machine.Healthy() && GtidFits(p.state)
    ensures GtidFits(Ask(q, p).peer.state)
  {
    HandleKeepsGtid(q, p.state, ReadPacket(p.link).link.machine);
  }

  lemma {:induction false} DropRowsKeepsState(p: Peer)
    requires p.link.machine.Healthy()
    ensures DropRows(p).peer.state == p.state
    decreases |WireOf(p.link).incoming|
  {
    var r := ReadPacket(p.link);
    if r.rc == Ok && !LooksLikeEof(r.link.machine.kind, r.link.machine.packet) {
      ReadPacketShortens(p.link);
      DropRowsKeepsState(Peer(r.link, p.state));
    }
  }

  /** Over every run the stored GTID stays below 57 bytes, whatever the server sends. */
  lemma {:induction false} GtidStaysShort(calls: seq<Call>, p: Peer)
    requires p.link.machine.Healthy() && GtidFits(p.state)
    ensures GtidFits(Perform(calls, p).state)
    decreases |calls|
  {
    if calls != [] {
      match calls[0]
      case Await(q) =>
        AskKeepsGtid(q, p);
        GtidStaysShort(calls[1..], Ask(q, p).peer);
      case NextRow =>
        RowKeepsGtid(p);
        GtidStaysShort(calls[1..], ReadRow(p).peer);
      case Discard =>
        DrainKeepsGtid(p);
        GtidStaysShort(calls[1..], Drain(p).peer);
    }
  }

  lemma {:induction false} RowKeepsGtid(p: Peer)
    requires p.link.machine.Healthy() && GtidFits(p.state)
    ensures GtidFits(ReadRow(p).peer.state)
  {
    AskKeepsGtid(AwaitEof, p);
    var s := SkipColumnEof(p);
    if s.rc == Ok {
      AskKeepsGtid(AwaitRow, s.peer);
    }
  }

  lemma {:induction false} DrainKeepsGtid(p: Peer)
    requires p.link.machine.Healthy() && GtidFits(p.state)
    ensures GtidFits(Drain(p).peer.state)
  {
    AskKeepsGtid(AwaitEof, p);
    var s := DropColumnEof(p);
    if s.rc == Ok {
      DropRowsKeepsState(s.peer);
    }
  }

  /** The parser accepts a GTID of 57 bytes, for which the connection has no room: such a GTID, and only such a one
      among those accepted, leaves the stored one as it was. */
  lemma {:induction false} LongestGtidIsDropped(st: State, s: bytes)
    requires ParseOk(s, st.caps).Accepted?
    ensures var gtid := ParseOk(s, st.caps).packet.lastGtid;
            HandleOk(st, s).state.lastGtid ==
            if gtid == [] || |gtid| == MAX_LAST_GTID_LEN then st.lastGtid else gtid
  {
    AcceptedGtidIsShort(s, st.caps);
  }
}
