/** Whole result sets: what a caller gets who asks for the column count, the columns and then rows until
    TRILOGY_EOF, and what `trilogy_drain_results` skips (src/client.c, src/blocking.c). */
module ResultSets {
  import opened Bytes
  import opened Framing
  import opened Links
  import opened Builders
  import opened Readers
  import opened TextRows
  import opened Layouts
  import opened OkPackets
  import opened Sessions
  import opened Replies
  import opened Bitmaps

  // ---------------------------------------------------------------- reading all of it

  type Record = seq<Option<bytes>>

  /** The data the slices of a row point at. */
  function DataAt(packet: bytes, c: Cell): Option<bytes> {
    match c
    case None => None
    case Some(x) => if x.at + x.len <= |packet| then Some(packet[x.at..x.at + x.len]) else None
  }

  function RecordOf(packet: bytes, cells: seq<Cell>): (r: Record)
    ensures |r| == |cells|
  {
    seq(|cells|, k requires 0 <= k < |cells| => DataAt(packet, cells[k]))
  }

  function CellsIn(out: Output): seq<Cell> {
    if out.Cells? then out.cells else []
  }

  function ItemsIn(out: Output): seq<Item> {
    if out.Definition? then out.items else []
  }

  /** The rows in front of the first answer that is not TRILOGY_OK, and that answer. */
  datatype Rows = Rows(records: seq<Record>, last: Turn)

  datatype LineRows = LineRows(records: seq<Record>, last: LineTurn)

  lemma {:induction false} TakeRowShortens(p: Line)
    requires p.wire.machine.Healthy() && TakeRow(p).rc == Ok
    ensures |TakeRow(p).line.wire.incoming| < |p.wire.incoming| && TakeRow(p).line.wire.machine.Idle()
    ensures TakeRow(p).line.state.started
  {
    var s := TakeColumnEof(p);
    if TakePacket(p.wire).rc == Ok {
      TakingShortens(p.wire);
    }
    TakingShortens(s.line.wire);
  }

  function TakeRows(p: Line): (r: LineRows)
    requires p.wire.machine.Healthy()
    decreases |p.wire.incoming|
  {
    var s := TakeRow(p);
    if s.rc != Ok then LineRows([], s)
    else
      TakeRowShortens(p);
      var tail := TakeRows(s.line);
      tail.(records := [RecordOf(s.line.wire.machine.packet, CellsIn(s.out))] + tail.records)
  }

  /** `trilogy_read_full_row`, until it does not return TRILOGY_OK. */
  function ReadRows(p: Peer): (r: Rows)
    requires p.link.machine.Healthy()
    decreases |WireOf(p.link).incoming|
  {
    var s := ReadFullRow(p);
    if s.rc != Ok then Rows([], s)
    else
      ReadFullRowIsTake(p);
      TakeRowShortens(Whole(p));
      var tail := ReadRows(s.peer);
      tail.(records := [RecordOf(s.peer.link.machine.packet, CellsIn(s.out))] + tail.records)
  }

  lemma {:induction false} ReadRowsIsTake(p: Peer)
    requires p.link.machine.Healthy()
    ensures TakeRows(Whole(p)) == LineRows(ReadRows(p).records, WholeTurn(ReadRows(p).last))
    decreases |WireOf(p.link).incoming|
  {
    ReadFullRowIsTake(p);
    if ReadFullRow(p).rc == Ok {
      TakeRowShortens(Whole(p));
      ReadRowsIsTake(ReadFullRow(p).peer);
    }
  }

  /** Column definitions. */
  datatype ColumnList = ColumnList(definitions: seq<seq<Item>>, last: Turn)

  datatype LineColumns = LineColumns(definitions: seq<seq<Item>>, last: LineTurn)

  function TakeColumns(p: Line, n: nat): (r: LineColumns)
    requires p.wire.machine.Healthy()
    ensures r.last.line.wire.machine.Healthy()
    decreases n
  {
    if n == 0 then LineColumns([], LineTurn(p, Ok, Nothing))
    else
      var s := TakeReply(AwaitColumn, p);
      if s.rc != Ok then LineColumns([], s)
      else
        var tail := TakeColumns(s.line, n - 1);
        tail.(definitions := [ItemsIn(s.out)] + tail.definitions)
  }

  /** `trilogy_read_full_column`. */
  function ReadFullColumn(p: Peer): (s: Turn)
    requires p.link.machine.Healthy()
    ensures s.peer.link.machine.Healthy()
  {
    AskFull(AwaitColumn, p)
  }

  /** The same, `n` times unless it fails. */
  function ReadColumns(p: Peer, n: nat): (r: ColumnList)
    requires p.link.machine.Healthy()
    ensures r.last.peer.link.machine.Healthy()
    decreases n
  {
    if n == 0 then ColumnList([], Turn(p, Ok, Nothing))
    else
      var s := ReadFullColumn(p);
      if s.rc != Ok then ColumnList([], s)
      else
        var tail := ReadColumns(s.peer, n - 1);
        tail.(definitions := [ItemsIn(s.out)] + tail.definitions)
  }

  lemma {:induction false} ColumnsStep(p: Line, n: nat)
    requires p.wire.machine.Healthy() && n > 0 && TakeReply(AwaitColumn, p).rc == Ok
    ensures var s := TakeReply(AwaitColumn, p);
            TakeColumns(p, n).last == TakeColumns(s.line, n - 1).last &&
            TakeColumns(p, n).definitions == [ItemsIn(s.out)] + TakeColumns(s.line, n - 1).definitions
  {
  }

  /** Reading columns is taking them. */
  predicate SameColumns(p: Peer, n: nat)
    requires p.link.machine.Healthy()
  {
    var c, d := TakeColumns(Whole(p), n), ReadColumns(p, n);
    c == LineColumns(d.definitions, WholeTurn(d.last))
  }

  lemma {:induction false} SameColumnsStop(p: Peer, n: nat)
    requires p.link.machine.Healthy() && (n == 0 || ReadFullColumn(p).rc != Ok)
    ensures SameColumns(p, n)
  {
    AskFullIsTake(AwaitColumn, p);
  }

  lemma {:induction false} SameColumnsStep(p: Peer, n: nat, q: Peer)
    requires p.link.machine.Healthy() && n > 0 && ReadFullColumn(p).rc == Ok && q == ReadFullColumn(p).peer
    requires SameColumns(q, n - 1)
    ensures SameColumns(p, n)
  {
    AskFullIsTake(AwaitColumn, p);
  }

  lemma {:induction false} ReadColumnsIsTake(p: Peer, n: nat)
    requires p.link.machine.Healthy()
    ensures SameColumns(p, n)
    decreases n
  {
    if n > 0 && ReadFullColumn(p).rc == Ok {
      var q := ReadFullColumn(p).peer;
      ReadColumnsIsTake(q, n - 1);
      SameColumnsStep(p, n, q);
    } else {
      SameColumnsStop(p, n);
    }
  }

  /** A result set: its columns, its rows, and the answer that ended it. */
  datatype ResultSet = ResultSet(definitions: seq<seq<Item>>, records: seq<Record>, last: Turn)

  datatype LineResultSet = LineResultSet(definitions: seq<seq<Item>>, records: seq<Record>, last: LineTurn)

  function TakeResultSet(p: Line): LineResultSet
    requires p.wire.machine.Healthy()
  {
    var q := TakeReply(AwaitQuery, p);
    if q.rc != HaveResults then LineResultSet([], [], q)
    else
      var c := TakeColumns(q.line, q.line.state.columnCount);
      if c.last.rc != Ok then LineResultSet(c.definitions, [], c.last)
      else var r := TakeRows(c.last.line); LineResultSet(c.definitions, r.records, r.last)
  }

  /** The blocking calls, one after the other. */
  function ReadResultSet(p: Peer): ResultSet
    requires p.link.machine.Healthy()
  {
    var q := AskFull(AwaitQuery, p);
    if q.rc != HaveResults then ResultSet([], [], q)
    else
      var c := ReadColumns(q.peer, q.peer.state.columnCount);
      if c.last.rc != Ok then ResultSet(c.definitions, [], c.last)
      else var r := ReadRows(c.last.peer); ResultSet(c.definitions, r.records, r.last)
  }

  /** Any result set, well-formed or not: wherever TRILOGY_AGAIN interrupts the calls, they return what a reader of the
      whole stream returns, and leave the stream where that reader leaves it. */
  lemma {:induction false} ResultSetsResume(p: Peer)
    requires p.link.machine.Healthy()
    ensures var r := ReadResultSet(p);
            TakeResultSet(Whole(p)) == LineResultSet(r.definitions, r.records, WholeTurn(r.last))
  {
    AskFullIsTake(AwaitQuery, p);
    var q := AskFull(AwaitQuery, p);
    if q.rc == HaveResults {
      ReadColumnsIsTake(q.peer, q.peer.state.columnCount);
      ReadRowsIsTake(ReadColumns(q.peer, q.peer.state.columnCount).last.peer);
    }
  }

  // ---------------------------------------------------------------- well-formed result sets

  lemma {:induction false} FrameAllConcat(xs: seq<bytes>, ys: seq<bytes>, sq: byte)
    ensures FrameAll(xs + ys, sq) == FrameAll(xs, sq) + FrameAll(ys, SeqAfter(xs, sq))
    ensures SeqAfter(xs + ys, sq) == SeqAfter(ys, SeqAfter(xs, sq))
    decreases |xs|
  {
    if xs == [] {
      assert xs + ys == ys;
    } else {
      var next := SeqPlus(sq, Fragments(|xs[0]|));
      assert (xs + ys)[1..] == xs[1..] + ys;
      FrameAllConcat(xs[1..], ys, next);
      Associate(Frame(xs[0], sq), FrameAll(xs[1..], next), FrameAll(ys, SeqAfter(xs, sq)));
    }
  }

  /** The packet at the end of a list, under given capabilities. */
  predicate IsEof(caps: nat, p: bytes) {
    if Bit(caps, CAP_DEPRECATE_EOF) then ParseOk(p, caps).Accepted? else ParseAll(p, EofFields(caps)).rc == Ok
  }

  /** The packet behind the last row, as a server sends it. */
  predicate IsEnd(caps: nat, p: bytes) {
    p != [] && p[0] == PACKET_EOF && IsEof(caps, p)
  }

  /** A terminator: such a packet that the client recognises. */
  predicate IsTerminator(caps: nat, p: bytes) {
    IsEnd(caps, p) && |p| < 9
  }

  predicate AreRows(rows: seq<bytes>, n: nat) {
    rows == [] || (ParseRow(rows[0], 0, n).rc == Ok && AreRows(rows[1..], n))
  }

  predicate IsColumn(p: bytes) {
    ParseAll(p, COLUMN_FIELDS).rc == Ok
  }

  predicate AreColumns(columns: seq<bytes>) {
    columns == [] || (IsColumn(columns[0]) && AreColumns(columns[1..]))
  }

  function RecordsOf(rows: seq<bytes>, n: nat): seq<Record> {
    if rows == [] then [] else [RecordOf(rows[0], ParseRow(rows[0], 0, n).cells)] + RecordsOf(rows[1..], n)
  }

  function DefinitionsOf(columns: seq<bytes>): seq<seq<Item>> {
    if columns == [] then [] else [ParseAll(columns[0], COLUMN_FIELDS).items] + DefinitionsOf(columns[1..])
  }

  /** One row, once the rows have started. */
  lemma {:induction false} TakeFramedRow(p: Line, row: bytes, more: bytes)
    requires p.state.started && p.state.columnCount > 0 && p.wire.machine.Idle()
    requires p.wire.incoming == Frame(row, p.wire.machine.sq) + more && ParseRow(row, 0, p.state.columnCount).rc == Ok
    ensures var s, t := TakeRow(p), TakePacket(p.wire);
            s == LineTurn(Line(t.wire, p.state), Ok, Cells(ParseRow(row, 0, p.state.columnCount).cells))
  {
    TakeFramed(p.wire, row, more);
    RowsAreNoTerminators(row, p.state.columnCount);
  }

  lemma {:induction false} TakeFramedTerminator(p: Line, t: bytes, more: bytes)
    requires p.state.started && p.wire.machine.Idle() && IsTerminator(p.state.caps, t)
    requires p.wire.incoming == Frame(t, p.wire.machine.sq) + more
    ensures TakeRow(p) == LineTurn(Line(TakePacket(p.wire).wire, HandleEof(p.state, t).state), Eof, Nothing)
  {
    TakeFramed(p.wire, t, more);
    EofHasNoOutput(p.state, t);
  }

  lemma {:induction false} EofHasNoOutput(st: State, t: bytes)
    ensures HandleEof(st, t).out == Nothing
  {
  }

  /** The packet behind the last row is recognised if and only if it is shorter than 9 bytes; a longer one is read as a
      row. */
  lemma {:induction false} TerminatorSeenIff(p: Line, t: bytes, more: bytes)
    requires p.state.started && p.wire.machine.Idle() && IsEnd(p.state.caps, t)
    requires p.wire.incoming == Frame(t, p.wire.machine.sq) + more
    ensures TakeRow(p).rc == Eof <==> |t| < 9
    ensures |t| >= 9 ==> TakeRow(p).rc == ParseRow(t, 0, p.state.columnCount).rc
  {
    TakeFramed(p.wire, t, more);
    RowCodes(t, 0, p.state.columnCount);
  }

  /** The rows at the front of the stream are delivered, all of them and in order, ahead of what reading on from behind
      them brings. */
  lemma {:induction false} RowsComeFirst(p: Line, rows: seq<bytes>, more: bytes) returns (q: Line)
    requires p.state.started && p.state.columnCount > 0 && p.wire.machine.Idle()
    requires AreRows(rows, p.state.columnCount) && p.wire.incoming == FrameAll(rows, p.wire.machine.sq) + more
    ensures q.state == p.state && q.wire.machine.Idle() && q.wire.incoming == more
    ensures q.wire.machine.sq == SeqAfter(rows, p.wire.machine.sq)
    ensures TakeRows(p).records == RecordsOf(rows, p.state.columnCount) + TakeRows(q).records
    ensures TakeRows(p).last == TakeRows(q).last
    decreases |rows|
  {
    if rows == [] {
      assert [] + more == more;
      q := p;
    } else {
      var sq, n := p.wire.machine.sq, p.state.columnCount;
      var tail := FrameAll(rows[1..], SeqPlus(sq, Fragments(|rows[0]|)));
      Associate(Frame(rows[0], sq), tail, more);
      TakeFramedRow(p, rows[0], tail + more);
      TakeFramed(p.wire, rows[0], tail + more);
      var next := TakeRow(p).line;
      q := RowsComeFirst(next, rows[1..], more);
      TakeRowShortens(p);
      AppendLater(RecordOf(rows[0], ParseRow(rows[0], 0, n).cells), RecordsOf(rows[1..], n), TakeRows(q).records);
    }
  }

  lemma {:induction false} AppendLater(x: Record, xs: seq<Record>, ys: seq<Record>)
    ensures [x] + (xs + ys) == [x] + xs + ys
  {
  }

  /** Rows and a terminator: exactly those rows are delivered, in order, and then TRILOGY_EOF at the first byte behind
      the terminator, whose contents are recorded. */
  lemma {:induction false} RowsAreDelivered(p: Line, rows: seq<bytes>, t: bytes, rest: bytes)
    requires p.state.started && p.state.columnCount > 0 && p.wire.machine.Idle()
    requires AreRows(rows, p.state.columnCount) && IsTerminator(p.state.caps, t)
    requires p.wire.incoming == FrameAll(rows, p.wire.machine.sq) + (Frame(t, SeqAfter(rows, p.wire.machine.sq)) + rest)
    ensures var r := TakeRows(p);
            && r.records == RecordsOf(rows, p.state.columnCount) && r.last.rc == Eof
            && r.last.line.wire.incoming == rest && r.last.line.state == HandleEof(p.state, t).state
            && r.last.line.wire.machine.sq == SeqPlus(SeqAfter(rows, p.wire.machine.sq), Fragments(|t|))
  {
    var q := RowsComeFirst(p, rows, Frame(t, SeqAfter(rows, p.wire.machine.sq)) + rest);
    TakeFramedTerminator(q, t, rest);
    TakeFramed(q.wire, t, rest);
    assert RecordsOf(rows, p.state.columnCount) + [] == RecordsOf(rows, p.state.columnCount);
  }

  /** Rows and an ERR packet: those rows are delivered, and then TRILOGY_ERR, with code and message recorded. */
  lemma {:induction false} RowsThenError(p: Line, rows: seq<bytes>, code: nat, marker: byte, sqlState: bytes,
                                         message: bytes, rest: bytes)
    requires p.state.started && p.state.columnCount > 0 && p.wire.machine.Idle()
    requires AreRows(rows, p.state.columnCount) && code < 0x1_0000 && |sqlState| == 5
    requires var e := ErrBytes(p.state.caps, 0xff, code, marker, sqlState, message);
             p.wire.incoming == FrameAll(rows, p.wire.machine.sq) + (Frame(e, SeqAfter(rows, p.wire.machine.sq)) + rest)
    ensures var r := TakeRows(p);
            && r.records == RecordsOf(rows, p.state.columnCount) && r.last.rc == Err
            && r.last.line.wire.incoming == rest
            && r.last.line.state == p.state.(errorCode := code, errorMessage := message)
  {
    var e := ErrBytes(p.state.caps, 0xff, code, marker, sqlState, message);
    var q := RowsComeFirst(p, rows, Frame(e, SeqAfter(rows, p.wire.machine.sq)) + rest);
    ErrIsAnswered(AwaitRow, q, code, marker, sqlState, message, rest);
    assert RecordsOf(rows, p.state.columnCount) + [] == RecordsOf(rows, p.state.columnCount);
  }

  /** Behind an end packet that is not recognised, reading does not end with these rows and TRILOGY_EOF. */
  lemma {:induction false} RowsOverrun(p: Line, rows: seq<bytes>, t: bytes, rest: bytes)
    requires p.state.started && p.state.columnCount > 0 && p.wire.machine.Idle()
    requires AreRows(rows, p.state.columnCount) && IsEnd(p.state.caps, t) && |t| >= 9
    requires p.wire.incoming == FrameAll(rows, p.wire.machine.sq) + (Frame(t, SeqAfter(rows, p.wire.machine.sq)) + rest)
    ensures TakeRows(p).records == RecordsOf(rows, p.state.columnCount) ==> TakeRows(p).last.rc != Eof
  {
    var q := RowsComeFirst(p, rows, Frame(t, SeqAfter(rows, p.wire.machine.sq)) + rest);
    TerminatorSeenIff(q, t, rest);
    if TakeRow(q).rc == Ok {
      assert |TakeRows(p).records| > |RecordsOf(rows, p.state.columnCount)|;
    }
  }

  lemma {:induction false} TakeFramedColumn(p: Line, column: bytes, more: bytes)
    requires p.wire.machine.Idle() && p.wire.incoming == Frame(column, p.wire.machine.sq) + more
    requires IsColumn(column)
    ensures TakeReply(AwaitColumn, p) ==
            LineTurn(Line(TakePacket(p.wire).wire, p.state), Ok, Definition(ParseAll(column, COLUMN_FIELDS).items))
  {
    TakeFramed(p.wire, column, more);
  }

  /** Column packets are delivered in order. */
  lemma {:induction false} ColumnsAreDelivered(p: Line, columns: seq<bytes>, n: nat, rest: bytes)
    requires p.wire.machine.Idle() && n == |columns| && AreColumns(columns)
    requires p.wire.incoming == FrameAll(columns, p.wire.machine.sq) + rest
    ensures var c := TakeColumns(p, n);
            && c.definitions == DefinitionsOf(columns) && c.last.rc == Ok && c.last.line.state == p.state
            && c.last.line.wire.machine.Idle() && c.last.line.wire.incoming == rest
            && c.last.line.wire.machine.sq == SeqAfter(columns, p.wire.machine.sq)
    decreases n
  {
    var sq := p.wire.machine.sq;
    if n == 0 {
      assert [] + rest == rest;
    } else {
      var more := FrameAll(columns[1..], SeqPlus(sq, Fragments(|columns[0]|)));
      Associate(Frame(columns[0], sq), more, rest);
      TakeFramed(p.wire, columns[0], more + rest);
      TakeFramedColumn(p, columns[0], more + rest);
      ColumnsStep(p, n);
      ColumnsAreDelivered(Line(TakePacket(p.wire).wire, p.state), columns[1..], n - 1, rest);
    }
  }

  lemma {:induction false} RowAfterSkip(p: Line)
    requires p.wire.machine.Healthy() && TakeColumnEof(p).rc == Ok
    ensures TakeColumnEof(p).line.state.started && TakeRow(TakeColumnEof(p).line) == TakeRow(p)
  {
    var s := TakeColumnEof(p);
    assert TakeColumnEof(s.line) == LineTurn(s.line, Ok, Nothing);
  }

  /** The rows behind the skipped EOF packet. */
  lemma {:induction false} RowsAfterSkip(p: Line)
    requires p.wire.machine.Healthy() && TakeColumnEof(p).rc == Ok
    ensures TakeColumnEof(p).line.state.started && TakeRows(TakeColumnEof(p).line) == TakeRows(p)
  {
    RowAfterSkip(p);
    SameRows(p, TakeColumnEof(p).line);
  }

  lemma {:induction false} SameRows(p: Line, q: Line)
    requires p.wire.machine.Healthy() && q.wire.machine.Healthy() && TakeRow(p) == TakeRow(q)
    ensures TakeRows(p) == TakeRows(q)
  {
  }

  /** What stands between the columns and the rows. */
  function ColumnEnd(caps: nat, e: bytes): seq<bytes> {
    if Bit(caps, CAP_DEPRECATE_EOF) then [] else [e]
  }

  /** The connection once the rows have begun: an EOF packet behind the columns has been recorded. */
  function Begun(st: State, e: bytes): State {
    (if Bit(st.caps, CAP_DEPRECATE_EOF) then st else HandleEof(st, e).state).(started := true)
  }

  /** The EOF packet behind the columns is skipped if and only if it is there, and what it says is recorded. */
  lemma {:induction false} ColumnEofIsSkipped(p: Line, e: bytes, more: bytes)
    requires !p.state.started && p.wire.machine.Idle()
    requires !Bit(p.state.caps, CAP_DEPRECATE_EOF) ==> IsEof(p.state.caps, e)
    requires p.wire.incoming == FrameAll(ColumnEnd(p.state.caps, e), p.wire.machine.sq) + more
    ensures var s := TakeColumnEof(p);
            && s.rc == Ok && s.line.state.started && s.line.wire.machine.Idle() && s.line.wire.incoming == more
            && s.line.state == Begun(p.state, e)
            && s.line.wire.machine.sq == SeqAfter(ColumnEnd(p.state.caps, e), p.wire.machine.sq)
  {
    if Bit(p.state.caps, CAP_DEPRECATE_EOF) {
      assert [] + more == more;
    } else {
      assert FrameAll([e], p.wire.machine.sq) == Frame(e, p.wire.machine.sq) + [];
      assert Frame(e, p.wire.machine.sq) + [] == Frame(e, p.wire.machine.sq);
      TakeFramed(p.wire, e, more);
    }
  }

  /** A result set as a server sends it: the column count, the columns, an EOF packet `e` exactly when DEPRECATE_EOF is
      off, rows, and an end packet `t`. */
  function Response(caps: nat, columns: seq<bytes>, e: bytes, rows: seq<bytes>, t: bytes): seq<bytes> {
    [Lenenc(|columns|)] + columns + ColumnEnd(caps, e) + rows + [t]
  }

  lemma {:induction false} CountIsAnswered(p: Line, n: nat, more: bytes)
    requires 0 < n <= SIZE_MAX && p.wire.machine.Idle()
    requires p.wire.incoming == Frame(Lenenc(n), p.wire.machine.sq) + more
    ensures TakeReply(AwaitQuery, p) ==
            LineTurn(Line(TakePacket(p.wire).wire, p.state.(columnCount := n, started := false)), HaveResults,
                     Columns(n))
  {
    TakeFramed(p.wire, Lenenc(n), more);
    AtWhole(Lenenc(n));
    LenencRoundTrip(Lenenc(n), 0, n);
    FieldStep(Lenenc(n), 0, [Varint]);
  }

  /** The frames of a response, one group after the other. */
  lemma {:induction false} ResponseFrames(caps: nat, columns: seq<bytes>, e: bytes, rows: seq<bytes>, t: bytes,
                                          sq: byte)
    ensures var c, end := Lenenc(|columns|), ColumnEnd(caps, e);
            var sq1 := SeqPlus(sq, Fragments(|c|));
            var sq2 := SeqAfter(columns, sq1);
            var sq3 := SeqAfter(end, sq2);
            && FrameAll(Response(caps, columns, e, rows, t), sq) ==
               Frame(c, sq) + FrameAll(columns, sq1) + FrameAll(end, sq2) +
               (FrameAll(rows, sq3) + Frame(t, SeqAfter(rows, sq3)))
            && SeqAfter(Response(caps, columns, e, rows, t), sq) == SeqPlus(SeqAfter(rows, sq3), Fragments(|t|))
  {
    var c, end := Lenenc(|columns|), ColumnEnd(caps, e);
    var sq1 := SeqPlus(sq, Fragments(|c|));
    var sq2 := SeqAfter(columns, sq1);
    var sq3 := SeqAfter(end, sq2);
    OneFrame(c, sq);
    OneFrame(t, SeqAfter(rows, sq3));
    FrameAllConcat([c], columns, sq);
    FrameAllConcat([c] + columns, end, sq);
    FrameAllConcat([c] + columns + end, rows, sq);
    FrameAllConcat([c] + columns + end + rows, [t], sq);
    Associate(Frame(c, sq) + FrameAll(columns, sq1) + FrameAll(end, sq2), FrameAll(rows, sq3),
              Frame(t, SeqAfter(rows, sq3)));
  }

  lemma {:induction false} OneFrame(p: bytes, sq: byte)
    ensures FrameAll([p], sq) == Frame(p, sq) && SeqAfter([p], sq) == SeqPlus(sq, Fragments(|p|))
  {
    assert [p][1..] == [];
    assert Frame(p, sq) + [] == Frame(p, sq);
  }

  lemma {:induction false} ResponseBytes(a: bytes, b: bytes, c: bytes, d: bytes, e: bytes, rest: bytes)
    ensures a + b + c + (d + e) + rest == a + (b + (c + (d + (e + rest))))
  {
    Associate(d, e, rest);
    Associate(a + b + c, d + e, rest);
    Associate(a + b, c, d + e + rest);
    Associate(a, b, c + (d + e + rest));
  }

  /** These rows and nothing else, TRILOGY_EOF, and the stream at `rest`. */
  predicate Complete(records: seq<Record>, expected: seq<Record>, rc: Rc, w: Wire, rest: bytes) {
    records == expected && rc == Eof && w.incoming == rest
  }

  /** The connection behind a result set of `n` columns: its EOF packet and its end packet have been recorded. */
  function Behind(st: State, n: nat, e: bytes, t: bytes): State {
    HandleEof(Begun(st.(columnCount := n, started := false), e), t).state
  }

  /** Every result set of at least one column, as a server sends it. The columns are delivered, and the EOF packet
      behind them is skipped exactly if it is there. The rows are delivered, all of them, in order and nothing else, and
      the reading ends with TRILOGY_EOF at the first byte behind the end packet, if and only if that packet is shorter
      than 9 bytes; what it says is then recorded, and the next packet is numbered on from it. */
  lemma {:induction false} ResultSetIsDelivered(p: Line, columns: seq<bytes>, e: bytes, rows: seq<bytes>, t: bytes,
                                                rest: bytes)
    requires p.wire.machine.Idle() && 0 < |columns| <= SIZE_MAX
    requires AreColumns(columns) && AreRows(rows, |columns|) && IsEnd(p.state.caps, t)
    requires !Bit(p.state.caps, CAP_DEPRECATE_EOF) ==> IsEof(p.state.caps, e)
    requires p.wire.incoming == FrameAll(Response(p.state.caps, columns, e, rows, t), p.wire.machine.sq) + rest
    ensures var r := TakeResultSet(p);
            && r.definitions == DefinitionsOf(columns)
            && (Complete(r.records, RecordsOf(rows, |columns|), r.last.rc, r.last.line.wire, rest) <==> |t| < 9)
            && (|t| < 9 ==>
                  && r.last.line.state == Behind(p.state, |columns|, e, t)
                  && r.last.line.wire.machine.sq ==
                     SeqAfter(Response(p.state.caps, columns, e, rows, t), p.wire.machine.sq))
  {
    var sq, c, end := p.wire.machine.sq, Lenenc(|columns|), ColumnEnd(p.state.caps, e);
    var sq1 := SeqPlus(sq, Fragments(|c|));
    var sq2 := SeqAfter(columns, sq1);
    var sq3 := SeqAfter(end, sq2);
    var last := FrameAll(rows, sq3) + (Frame(t, SeqAfter(rows, sq3)) + rest);
    ResponseFrames(p.state.caps, columns, e, rows, t, sq);
    ResponseBytes(Frame(c, sq), FrameAll(columns, sq1), FrameAll(end, sq2), FrameAll(rows, sq3),
                  Frame(t, SeqAfter(rows, sq3)), rest);
    TakeFramed(p.wire, c, FrameAll(columns, sq1) + (FrameAll(end, sq2) + last));
    CountIsAnswered(p, |columns|, FrameAll(columns, sq1) + (FrameAll(end, sq2) + last));
    var q := TakeReply(AwaitQuery, p).line;
    ColumnsAreDelivered(q, columns, |columns|, FrameAll(end, sq2) + last);
    var d := TakeColumns(q, |columns|).last.line;
    ColumnEofIsSkipped(d, e, last);
    RowsAfterSkip(d);
    if |t| < 9 {
      RowsAreDelivered(TakeColumnEof(d).line, rows, t, rest);
    } else {
      RowsOverrun(TakeColumnEof(d).line, rows, t, rest);
    }
  }

  /** The same for the blocking calls, under any cutting into reads and any TRILOGY_AGAIN. */
  lemma {:induction false} ResultSetIsRead(p: Peer, columns: seq<bytes>, e: bytes, rows: seq<bytes>, t: bytes,
                                           rest: bytes)
    requires p.link.machine.Idle() && 0 < |columns| <= SIZE_MAX
    requires AreColumns(columns) && AreRows(rows, |columns|) && IsEnd(p.state.caps, t)
    requires !Bit(p.state.caps, CAP_DEPRECATE_EOF) ==> IsEof(p.state.caps, e)
    requires WireOf(p.link).incoming == FrameAll(Response(p.state.caps, columns, e, rows, t), p.link.machine.sq) + rest
    ensures var r := ReadResultSet(p);
            && r.definitions == DefinitionsOf(columns)
            && (Complete(r.records, RecordsOf(rows, |columns|), r.last.rc, WireOf(r.last.peer.link), rest) <==> |t| < 9)
            && (|t| < 9 ==> r.last.peer.state == Behind(p.state, |columns|, e, t))
  {
    ResultSetsResume(p);
    ResultSetIsDelivered(Whole(p), columns, e, rows, t, rest);
  }

  // ---------------------------------------------------------------- end packets and their length

  const ZERO_OK := OkPacket(0, 0, 0, 0, 0, [], [], [], [])

  /** An OK packet of zeros with nothing behind its head, and the first byte of an EOF packet. */
  function ZeroEof(caps: nat): bytes {
    EncodeOk(ZERO_OK, PACKET_EOF, caps, true)
  }

  lemma {:induction false} ZeroEofTerminates(caps: nat)
    requires Bit(caps, CAP_DEPRECATE_EOF)
    ensures IsTerminator(caps, ZeroEof(caps))
  {
    assert Sendable(ZERO_OK, caps, [], true);
    OkRoundTrip(ZERO_OK, PACKET_EOF, caps, [], true);
    HeadOfZeros(ZERO_OK, caps);
  }

  /** Nine bytes of session information, or of a message. */
  function ChattyOk(caps: nat): OkPacket {
    var nine: bytes := [0, 0, 0, 0, 0, 0, 0, 0, 0];
    if Bit(caps, CAP_SESSION_TRACK) then ZERO_OK.(sessionStatus := nine) else ZERO_OK.(info := nine)
  }

  /** An end packet with them, which a server may send when DEPRECATE_EOF is on. */
  lemma {:induction false} ChattyEof(caps: nat) returns (t: bytes)
    requires Bit(caps, CAP_DEPRECATE_EOF)
    ensures IsEnd(caps, t) && |t| >= 9
  {
    var o := ChattyOk(caps);
    ShrZero(STATUS_SESSION_STATE_CHANGED);
    assert Sendable(o, caps, [], false);
    OkRoundTrip(o, PACKET_EOF, caps, [], false);
    HeadOfZeros(o, caps);
    t := EncodeOk(o, PACKET_EOF, caps, false);
  }

  lemma {:induction false} HeadOfZeros(o: OkPacket, caps: nat)
    requires o.affectedRows == o.lastInsertId == 0
    ensures var head := HeadBytes(o, PACKET_EOF, caps);
            head != [] && head[0] == PACKET_EOF && |head| <= 7
  {
    LenencUnrolled(0);
  }

  lemma {:induction false} OldEofIsShort(caps: nat, p: bytes)
    requires ParseAll(p, EofFields(caps)).rc == Ok
    ensures |p| <= 5
  {
    var fields := EofFields(caps);
    FieldStep(p, 0, fields);
    if Bit(caps, CAP_PROTOCOL_41) {
      assert fields[1..] == [Fixed(2), Fixed(2)] && fields[1..][1..] == [Fixed(2)] && fields[1..][1..][1..] == [];
      FieldStep(p, 1, fields[1..]);
      FieldStep(p, 3, fields[1..][1..]);
    } else {
      assert fields[1..] == [];
    }
  }

  /** Every end packet a server can send is short enough to be recognised, if and only if DEPRECATE_EOF is off. */
  lemma {:induction false} EndsAreSeenIff(caps: nat)
    ensures (forall t: bytes | IsEnd(caps, t) :: IsTerminator(caps, t)) <==> !Bit(caps, CAP_DEPRECATE_EOF)
  {
    if Bit(caps, CAP_DEPRECATE_EOF) {
      var t := ChattyEof(caps);
      assert IsEnd(caps, t) && !IsTerminator(caps, t);
    } else {
      forall t: bytes | IsEnd(caps, t)
        ensures IsTerminator(caps, t)
      {
        OldEofIsShort(caps, t);
      }
    }
  }

  // ---------------------------------------------------------------- values in, values out

  function EncodeRows(records: seq<Record>): seq<bytes> {
    if records == [] then [] else [EncodeRow(records[0])] + EncodeRows(records[1..])
  }

  predicate AreRecords(records: seq<Record>, n: nat) {
    forall k | 0 <= k < |records| ::
      |records[k]| == n && forall j | 0 <= j < n :: Encodable(records[k][j])
  }

  lemma {:induction false} RecordComesBack(row: Record)
    requires forall j | 0 <= j < |row| :: Encodable(row[j])
    ensures var r := ParseRow(EncodeRow(row), 0, |row|);
            r.rc == Ok && RecordOf(EncodeRow(row), r.cells) == row
  {
    RowRoundTrip(row);
    var p, cells := EncodeRow(row), ParseRow(EncodeRow(row), 0, |row|).cells;
    forall k | 0 <= k < |cells|
      ensures RecordOf(p, cells)[k] == row[k]
    {
      assert Locates(p, cells[k], row[k]);
    }
  }

  /** Rows of values, encoded as a server does, are delivered as those values. */
  lemma {:induction false} RecordsComeBack(records: seq<Record>, n: nat)
    requires AreRecords(records, n)
    ensures AreRows(EncodeRows(records), n) && RecordsOf(EncodeRows(records), n) == records
    decreases |records|
  {
    if records != [] {
      RecordComesBack(records[0]);
      RecordsComeBack(records[1..], n);
      assert EncodeRows(records)[1..] == EncodeRows(records[1..]);
      assert records == [records[0]] + records[1..];
    }
  }

  function EncodeColumns(columns: seq<ColumnDefinition>): seq<bytes> {
    if columns == [] then [] else [ColumnBytes(columns[0])] + EncodeColumns(columns[1..])
  }

  /** The items handed out for every column are its fields. */
  predicate Describe(definitions: seq<seq<Item>>, columns: seq<ColumnDefinition>) {
    |definitions| == |columns| &&
    (columns == [] || (HoldAll(ColumnBytes(columns[0]), definitions[0], ColumnValues(columns[0])) &&
                       Describe(definitions[1..], columns[1..])))
  }

  predicate AllInRange(columns: seq<ColumnDefinition>) {
    columns == [] || (columns[0].InRange() && AllInRange(columns[1..]))
  }

  /** Column definitions, encoded as a server does, are delivered as those definitions. */
  lemma {:induction false} ColumnsComeBack(columns: seq<ColumnDefinition>)
    requires AllInRange(columns)
    ensures AreColumns(EncodeColumns(columns)) && |EncodeColumns(columns)| == |columns|
    ensures Describe(DefinitionsOf(EncodeColumns(columns)), columns)
    decreases |columns|
  {
    if columns != [] {
      var packets := EncodeColumns(columns);
      ColumnFits(columns[0]);
      ColumnIsEncoded(columns[0]);
      ReadWhole(COLUMN_FIELDS, ColumnValues(columns[0]));
      ColumnsComeBack(columns[1..]);
      assert packets[1..] == EncodeColumns(columns[1..]);
      assert DefinitionsOf(packets)[1..] == DefinitionsOf(packets[1..]);
    }
  }

  /** The packet behind the rows: an OK packet with another first byte when DEPRECATE_EOF is on, otherwise an old EOF
      packet. */
  function EndBytes(caps: nat, o: OkPacket, brief: bool): bytes {
    if Bit(caps, CAP_DEPRECATE_EOF) then EncodeOk(o, 0xfe, caps, brief)
    else EofBytes(caps, 0xfe, o.warningCount, o.statusFlags)
  }

  /** The connection behind a result set of `n` columns that ends with `o`. */
  function Ended(st: State, n: nat, o: OkPacket): State {
    var begun := st.(columnCount := n, started := true);
    if Bit(st.caps, CAP_DEPRECATE_EOF) then Recorded(begun, o)
    else if Bit(st.caps, CAP_PROTOCOL_41) then begun.(warningCount := o.warningCount, serverStatus := o.statusFlags)
    else begun
  }

  /** Such a packet ends the rows, and is recorded. */
  lemma {:induction false} EndIsRecorded(st: State, n: nat, warnings: nat, status: nat, o: OkPacket,
                                         list: seq<Change>, brief: bool)
    requires warnings < 0x1_0000 && status < 0x1_0000 && Sendable(o, st.caps, list, brief)
    ensures IsEnd(st.caps, EndBytes(st.caps, o, brief))
    ensures var e, t := EofBytes(st.caps, 0xfe, warnings, status), EndBytes(st.caps, o, brief);
            && (!Bit(st.caps, CAP_DEPRECATE_EOF) ==> IsEof(st.caps, e))
            && Behind(st, n, e, t) == Ended(st, n, o)
  {
    var counted := st.(columnCount := n, started := false);
    var begun := Begun(counted, EofBytes(st.caps, 0xfe, warnings, status));
    if Bit(st.caps, CAP_DEPRECATE_EOF) {
      OkRoundTrip(o, 0xfe, st.caps, list, brief);
      OkIsRecorded(begun, o, 0xfe, list, brief);
    } else {
      EofIsRecorded(counted, 0xfe, warnings, status);
      EofIsRecorded(begun, 0xfe, o.warningCount, o.statusFlags);
    }
  }

  /** Values in, values out: every table of columns and values a server sends as a result set is what the blocking calls
      return, and the connection then holds what its end packet says, if and only if that packet is shorter than 9
      bytes. */
  lemma {:induction false} RecordsAreRead(p: Peer, columns: seq<ColumnDefinition>, warnings: nat, status: nat,
                                          records: seq<Record>, o: OkPacket, list: seq<Change>, brief: bool,
                                          rest: bytes)
    requires p.link.machine.Idle() && 0 < |columns| <= SIZE_MAX && AllInRange(columns)
    requires AreRecords(records, |columns|) && warnings < 0x1_0000 && status < 0x1_0000
    requires Sendable(o, p.state.caps, list, brief)
    requires var e, t := EofBytes(p.state.caps, 0xfe, warnings, status), EndBytes(p.state.caps, o, brief);
             WireOf(p.link).incoming ==
             FrameAll(Response(p.state.caps, EncodeColumns(columns), e, EncodeRows(records), t), p.link.machine.sq) +
             rest
    ensures var r, t := ReadResultSet(p), EndBytes(p.state.caps, o, brief);
            && Describe(r.definitions, columns)
            && (Complete(r.records, records, r.last.rc, WireOf(r.last.peer.link), rest) <==> |t| < 9)
            && (|t| < 9 ==> r.last.peer.state == Ended(p.state, |columns|, o))
  {
    ColumnsComeBack(columns);
    RecordsComeBack(records, |columns|);
    EndIsRecorded(p.state, |columns|, warnings, status, o, list, brief);
    ResultSetIsRead(p, EncodeColumns(columns), EofBytes(p.state.caps, 0xfe, warnings, status), EncodeRows(records),
                    EndBytes(p.state.caps, o, brief), rest);
  }
}
