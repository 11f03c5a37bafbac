/** What the client makes of the packets it receives: the reply handlers and the result-set operations of src/client.c,
    and their retry loops in src/blocking.c. */
module Sessions {
  import opened Bytes
  import opened PacketParsers
  import opened Links
  import opened Builders
  import opened Readers
  import opened TextRows
  import opened Layouts
  import opened OkPackets

  // ---------------------------------------------------------------- replies

  /** The fields of a connection that replies change. */
  datatype State = State(
    caps: nat, serverStatus: nat, warningCount: nat, affectedRows: nat, lastInsertId: nat, lastGtid: bytes,
    errorCode: nat, errorMessage: bytes, columnCount: nat, started: bool)

  datatype Output = Nothing | Columns(count: nat) | Definition(items: seq<Item>) | Cells(cells: seq<Cell>)

  datatype Reply = Reply(state: State, rc: Rc, out: Output)

  /** A GTID is stored when there is one and it fits; the buffer has room for one byte less than the parser accepts. */
  function Stored(ok: OkPacket, lastGtid: bytes): bytes {
    if 0 < |ok.lastGtid| < MAX_LAST_GTID_LEN then ok.lastGtid else lastGtid
  }

  function HandleOk(st: State, p: bytes): Reply {
    match ParseOk(p, st.caps)
    case Rejected(rc) => Reply(st, rc, Nothing)
    case Accepted(ok) =>
      var st' := if !Bit(st.caps, CAP_PROTOCOL_41) then st
                 else st.(warningCount := ok.warningCount, serverStatus := ok.statusFlags);
      Reply(st'.(affectedRows := ok.affectedRows, lastInsertId := ok.lastInsertId, lastGtid := Stored(ok, st.lastGtid)),
            Ok, Nothing)
  }

  function ErrFields(caps: nat): seq<Field> {
    [Fixed(1), Fixed(2)] + (if Bit(caps, CAP_PROTOCOL_41) then [Fixed(1), Block(5)] else []) + [Remainder]
  }

  function HandleErr(st: State, p: bytes): Reply {
    var r := ParseAll(p, ErrFields(st.caps));
    if r.rc != Ok then Reply(st, r.rc, Nothing)
    else
      Reply(st.(errorCode := NumberAt(r.items, 1), errorMessage := MessageAt(p, r.items, |r.items| - 1)), Err, Nothing)
  }

  function MessageAt(p: bytes, items: seq<Item>, k: nat): bytes {
    if k < |items| && items[k].Data? && items[k].slice.at + items[k].slice.len <= |p| then DataOf(p, items[k].slice)
    else []
  }

  function EofFields(caps: nat): seq<Field> {
    [Fixed(1)] + (if Bit(caps, CAP_PROTOCOL_41) then [Fixed(2), Fixed(2)] else [])
  }

  /** The packet that ends a list: an OK packet with another first byte when DEPRECATE_EOF is on. */
  function HandleEof(st: State, p: bytes): Reply {
    if Bit(st.caps, CAP_DEPRECATE_EOF) then HandleOk(st, p)
    else
      var r := ParseAll(p, EofFields(st.caps));
      if r.rc != Ok then Reply(st, r.rc, Nothing)
      else
        Reply(if Bit(st.caps, CAP_PROTOCOL_41)
              then st.(warningCount := NumberAt(r.items, 1), serverStatus := NumberAt(r.items, 2)) else st, Ok, Nothing)
  }

  function HandleCount(st: State, p: bytes): Reply {
    var r := ParseAll(p, [Varint]);
    if r.rc != Ok then Reply(st, r.rc, Nothing)
    else Reply(st.(columnCount := NumberAt(r.items, 0), started := false), HaveResults, Columns(NumberAt(r.items, 0)))
  }

  /** A column definition: six names, the length of what follows, character set, length, type, flags, decimals and a
      filler. */
  const COLUMN_FIELDS: seq<Field> :=
    [Varbytes, Varbytes, Varbytes, Varbytes, Varbytes, Varbytes, Varint, Fixed(2), Fixed(4), Fixed(1), Fixed(2),
     Fixed(1), Fixed(2)]

  function HandleColumn(st: State, p: bytes): Reply {
    var r := ParseAll(p, COLUMN_FIELDS);
    Reply(st, r.rc, if r.rc == Ok then Definition(r.items) else Nothing)
  }

  /** What ends a list of rows, by the tests of `trilogy_read_row`: `kind` is the first byte of the packet buffer. */
  predicate LooksLikeEof(kind: byte, p: bytes) {
    kind == PACKET_EOF && |p| < 9
  }

  function HandleRow(st: State, kind: byte, p: bytes): Reply {
    if LooksLikeEof(kind, p) then
      var r := HandleEof(st, p);
      if r.rc != Ok then r else r.(rc := Eof)
    else if kind == PACKET_ERR then HandleErr(st, p)
    else
      var row := ParseRow(p, 0, st.columnCount);
      Reply(st, row.rc, Cells(row.cells))
  }

  /** What the caller is waiting for. */
  datatype Request = AwaitStatus | AwaitQuery | AwaitColumn | AwaitEof | AwaitRow

  function Handle(q: Request, st: State, m: Machine): Reply {
    match q
    case AwaitStatus =>
      if m.kind == PACKET_OK then HandleOk(st, m.packet)
      else if m.kind == PACKET_ERR then HandleErr(st, m.packet)
      else Reply(st, UnexpectedPacket, Nothing)
    case AwaitQuery =>
      if m.kind == PACKET_OK then HandleOk(st, m.packet)
      else if m.kind == PACKET_ERR then HandleErr(st, m.packet)
      else HandleCount(st, m.packet)
    case AwaitColumn => HandleColumn(st, m.packet)
    case AwaitEof => HandleEof(st, m.packet)
    case AwaitRow => HandleRow(st, m.kind, m.packet)
  }

  // ---------------------------------------------------------------- what a connection records

  /** What a connection holds once an OK packet has been recorded. Status and warnings are part of the 4.1 protocol
      only; a GTID is stored from 1 to 56 bytes. */
  function Recorded(st: State, o: OkPacket): State {
    var p41 := Bit(st.caps, CAP_PROTOCOL_41);
    st.(affectedRows := o.affectedRows, lastInsertId := o.lastInsertId,
        serverStatus := if p41 then o.statusFlags else st.serverStatus,
        warningCount := if p41 then o.warningCount else st.warningCount,
        lastGtid := if 1 <= |o.lastGtid| <= 56 then o.lastGtid else st.lastGtid)
  }

  /** Counters, status and GTID of every OK packet a server can send end up in the connection, and nothing else
      changes. */
  lemma {:induction false} OkIsRecorded(st: State, o: OkPacket, kind: byte, list: seq<Change>, brief: bool)
    requires Sendable(o, st.caps, list, brief)
    ensures HandleOk(st, EncodeOk(o, kind, st.caps, brief)) == Reply(Recorded(st, o), Ok, Nothing)
  {
    OkRoundTrip(o, kind, st.caps, list, brief);
  }

  /** A packet that is nothing but these fields. */
  lemma {:induction false} ReadWhole(fields: seq<Field>, values: seq<Value>)
    requires FitAll(fields, values)
    ensures var p := EncodeFirst(fields, values, |fields|);
            && ParseAll(p, fields).rc == Ok && HoldAll(p, ParseAll(p, fields).items, values)
  {
    var p := Encode(fields, values);
    EncodeInOrder(fields, values);
    AtWhole(p);
    FieldsRoundTrip(p, 0, fields, values);
  }

  /** An ERR packet: its type, an error code, under the 4.1 protocol a marker and five bytes of SQL state, and the
      message. */
  function ErrBytes(caps: nat, kind: byte, code: nat, marker: byte, sqlState: bytes, message: bytes): bytes {
    [kind] + LE(code, 2) + (if Bit(caps, CAP_PROTOCOL_41) then [marker] + sqlState else []) + message
  }

  function ErrValues(caps: nat, kind: byte, code: nat, marker: byte, sqlState: bytes, message: bytes): seq<Value> {
    [Int(kind), Int(code)] + (if Bit(caps, CAP_PROTOCOL_41) then [Int(marker), Value.Bytes(sqlState)] else []) +
    [Value.Bytes(message)]
  }

  lemma {:induction false} ErrFits(caps: nat, kind: byte, code: nat, marker: byte, sqlState: bytes, message: bytes)
    requires code < 0x1_0000 && |sqlState| == 5
    ensures FitAll(ErrFields(caps), ErrValues(caps, kind, code, marker, sqlState, message))
  {
    PowersOf256();
  }

  lemma {:induction false} ErrIsEncoded(caps: nat, kind: byte, code: nat, marker: byte, sqlState: bytes,
                                        message: bytes)
    requires FitAll(ErrFields(caps), ErrValues(caps, kind, code, marker, sqlState, message))
    ensures EncodeFirst(ErrFields(caps), ErrValues(caps, kind, code, marker, sqlState, message), |ErrFields(caps)|) ==
            ErrBytes(caps, kind, code, marker, sqlState, message)
  {
    var fields, values := ErrFields(caps), ErrValues(caps, kind, code, marker, sqlState, message);
    assert EncodeFirst(fields, values, 1) == LE(kind, 1) == [kind];
    assert EncodeFirst(fields, values, 2) == [kind] + LE(code, 2);
    if Bit(caps, CAP_PROTOCOL_41) {
      assert EncodeFirst(fields, values, 3) == [kind] + LE(code, 2) + LE(marker, 1);
      assert LE(marker, 1) == [marker];
      assert EncodeFirst(fields, values, 4) == EncodeFirst(fields, values, 3) + sqlState;
    }
  }

  /** The code and the message of every ERR packet end up in the connection, and nothing else changes. */
  lemma {:induction false} ErrIsRecorded(st: State, kind: byte, code: nat, marker: byte, sqlState: bytes,
                                         message: bytes)
    requires code < 0x1_0000 && |sqlState| == 5
    ensures HandleErr(st, ErrBytes(st.caps, kind, code, marker, sqlState, message)) ==
            Reply(st.(errorCode := code, errorMessage := message), Err, Nothing)
  {
    var fields, values := ErrFields(st.caps), ErrValues(st.caps, kind, code, marker, sqlState, message);
    ErrFits(st.caps, kind, code, marker, sqlState, message);
    ErrIsEncoded(st.caps, kind, code, marker, sqlState, message);
    ReadWhole(fields, values);
    var p := ErrBytes(st.caps, kind, code, marker, sqlState, message);
    var items := ParseAll(p, fields).items;
    assert Holds(p, items[1], values[1]) && Holds(p, items[|items| - 1], values[|items| - 1]);
  }

  /** An old EOF packet: its type, and under the 4.1 protocol warnings and status. */
  function EofBytes(caps: nat, kind: byte, warnings: nat, status: nat): bytes {
    [kind] + if Bit(caps, CAP_PROTOCOL_41) then LE(warnings, 2) + LE(status, 2) else []
  }

  function EofValues(caps: nat, kind: byte, warnings: nat, status: nat): seq<Value> {
    [Int(kind)] + (if Bit(caps, CAP_PROTOCOL_41) then [Int(warnings), Int(status)] else [])
  }

  lemma {:induction false} EofIsEncoded(caps: nat, kind: byte, warnings: nat, status: nat)
    requires warnings < 0x1_0000 && status < 0x1_0000
    ensures FitAll(EofFields(caps), EofValues(caps, kind, warnings, status))
    ensures EncodeFirst(EofFields(caps), EofValues(caps, kind, warnings, status), |EofFields(caps)|) ==
            EofBytes(caps, kind, warnings, status)
  {
    PowersOf256();
    var fields, values := EofFields(caps), EofValues(caps, kind, warnings, status);
    assert EncodeFirst(fields, values, 1) == LE(kind, 1) == [kind];
    if Bit(caps, CAP_PROTOCOL_41) {
      assert EncodeFirst(fields, values, 2) == [kind] + LE(warnings, 2);
      assert EncodeFirst(fields, values, 3) == EncodeFirst(fields, values, 2) + LE(status, 2);
    }
  }

  /** Warnings and status of every old EOF packet end up in the connection, in that order, and nothing else changes. */
  lemma {:induction false} EofIsRecorded(st: State, kind: byte, warnings: nat, status: nat)
    requires warnings < 0x1_0000 && status < 0x1_0000 && !Bit(st.caps, CAP_DEPRECATE_EOF)
    ensures HandleEof(st, EofBytes(st.caps, kind, warnings, status)) ==
            Reply(if Bit(st.caps, CAP_PROTOCOL_41) then st.(warningCount := warnings, serverStatus := status) else st,
                  Ok, Nothing)
  {
    var fields, values := EofFields(st.caps), EofValues(st.caps, kind, warnings, status);
    EofIsEncoded(st.caps, kind, warnings, status);
    ReadWhole(fields, values);
    var p := EofBytes(st.caps, kind, warnings, status);
    var items := ParseAll(p, fields).items;
    if Bit(st.caps, CAP_PROTOCOL_41) {
      assert Holds(p, items[1], values[1]) && Holds(p, items[2], values[2]);
    }
  }

  /** A column definition as a server has it; `fixedLength` and `filler` are skipped by the client. */
  datatype ColumnDefinition = ColumnDefinition(
    catalog: bytes, schema: bytes, table: bytes, originalTable: bytes, name: bytes, originalName: bytes,
    fixedLength: nat, charset: nat, len: nat, kind: byte, flags: nat, decimals: byte, filler: nat)
  {
    predicate InRange() {
      && |catalog| <= SIZE_MAX && |schema| <= SIZE_MAX && |table| <= SIZE_MAX
      && |originalTable| <= SIZE_MAX && |name| <= SIZE_MAX && |originalName| <= SIZE_MAX
      && fixedLength <= SIZE_MAX && charset < 0x1_0000 && len < 0x1_0000_0000 && flags < 0x1_0000
      && filler < 0x1_0000
    }
  }

  /** A column packet. */
  function ColumnBytes(c: ColumnDefinition): bytes {
    LenencBuffer(c.catalog) + LenencBuffer(c.schema) + LenencBuffer(c.table) + LenencBuffer(c.originalTable) +
    LenencBuffer(c.name) + LenencBuffer(c.originalName) + Lenenc(c.fixedLength) + LE(c.charset, 2) + LE(c.len, 4) +
    [c.kind] + LE(c.flags, 2) + [c.decimals] + LE(c.filler, 2)
  }

  /** The fields of a column, in the order of the packet. */
  function ColumnValues(c: ColumnDefinition): seq<Value> {
    [Value.Bytes(c.catalog), Value.Bytes(c.schema), Value.Bytes(c.table), Value.Bytes(c.originalTable),
     Value.Bytes(c.name), Value.Bytes(c.originalName), Int(c.fixedLength), Int(c.charset), Int(c.len), Int(c.kind),
     Int(c.flags), Int(c.decimals), Int(c.filler)]
  }

  lemma {:induction false} ColumnFits(c: ColumnDefinition)
    requires c.InRange()
    ensures FitAll(COLUMN_FIELDS, ColumnValues(c))
  {
    PowersOf256();
  }

  lemma {:induction false} NamesAreEncoded(c: ColumnDefinition)
    requires FitAll(COLUMN_FIELDS, ColumnValues(c))
    ensures EncodeFirst(COLUMN_FIELDS, ColumnValues(c), 6) ==
            LenencBuffer(c.catalog) + LenencBuffer(c.schema) + LenencBuffer(c.table) + LenencBuffer(c.originalTable) +
            LenencBuffer(c.name) + LenencBuffer(c.originalName)
  {
    var values := ColumnValues(c);
    assert EncodeFirst(COLUMN_FIELDS, values, 1) == LenencBuffer(c.catalog);
    assert EncodeFirst(COLUMN_FIELDS, values, 2) == EncodeFirst(COLUMN_FIELDS, values, 1) + LenencBuffer(c.schema);
    assert EncodeFirst(COLUMN_FIELDS, values, 3) == EncodeFirst(COLUMN_FIELDS, values, 2) + LenencBuffer(c.table);
    assert EncodeFirst(COLUMN_FIELDS, values, 4) ==
           EncodeFirst(COLUMN_FIELDS, values, 3) + LenencBuffer(c.originalTable);
    assert EncodeFirst(COLUMN_FIELDS, values, 5) == EncodeFirst(COLUMN_FIELDS, values, 4) + LenencBuffer(c.name);
    assert EncodeFirst(COLUMN_FIELDS, values, 6) ==
           EncodeFirst(COLUMN_FIELDS, values, 5) + LenencBuffer(c.originalName);
  }

  lemma {:induction false} NumbersAreEncoded(c: ColumnDefinition)
    requires FitAll(COLUMN_FIELDS, ColumnValues(c))
    ensures EncodeFirst(COLUMN_FIELDS, ColumnValues(c), 10) ==
            EncodeFirst(COLUMN_FIELDS, ColumnValues(c), 6) +
            Lenenc(c.fixedLength) + LE(c.charset, 2) + LE(c.len, 4) + [c.kind]
  {
    var values := ColumnValues(c);
    assert LE(c.kind, 1) == [c.kind];
    assert EncodeFirst(COLUMN_FIELDS, values, 7) == EncodeFirst(COLUMN_FIELDS, values, 6) + Lenenc(c.fixedLength);
    assert EncodeFirst(COLUMN_FIELDS, values, 8) == EncodeFirst(COLUMN_FIELDS, values, 7) + LE(c.charset, 2);
    assert EncodeFirst(COLUMN_FIELDS, values, 9) == EncodeFirst(COLUMN_FIELDS, values, 8) + LE(c.len, 4);
    assert EncodeFirst(COLUMN_FIELDS, values, 10) == EncodeFirst(COLUMN_FIELDS, values, 9) + [c.kind];
  }

  lemma {:induction false} RestIsEncoded(c: ColumnDefinition)
    requires FitAll(COLUMN_FIELDS, ColumnValues(c))
    ensures EncodeFirst(COLUMN_FIELDS, ColumnValues(c), 13) ==
            EncodeFirst(COLUMN_FIELDS, ColumnValues(c), 10) + LE(c.flags, 2) + [c.decimals] + LE(c.filler, 2)
  {
    var values := ColumnValues(c);
    assert LE(c.decimals, 1) == [c.decimals];
    assert EncodeFirst(COLUMN_FIELDS, values, 11) == EncodeFirst(COLUMN_FIELDS, values, 10) + LE(c.flags, 2);
    assert EncodeFirst(COLUMN_FIELDS, values, 12) == EncodeFirst(COLUMN_FIELDS, values, 11) + [c.decimals];
    assert EncodeFirst(COLUMN_FIELDS, values, 13) == EncodeFirst(COLUMN_FIELDS, values, 12) + LE(c.filler, 2);
  }

  lemma {:induction false} ColumnIsEncoded(c: ColumnDefinition)
    requires FitAll(COLUMN_FIELDS, ColumnValues(c))
    ensures EncodeFirst(COLUMN_FIELDS, ColumnValues(c), |COLUMN_FIELDS|) == ColumnBytes(c)
  {
    NamesAreEncoded(c);
    NumbersAreEncoded(c);
    RestIsEncoded(c);
  }

  /** Every column definition is handed out, field by field, and changes nothing in the connection. */
  lemma {:induction false} ColumnIsRead(st: State, c: ColumnDefinition)
    requires c.InRange()
    ensures var p := ColumnBytes(c);
            var r := HandleColumn(st, p);
            && r.state == st && r.rc == Ok && r.out == Definition(ParseAll(p, COLUMN_FIELDS).items)
            && HoldAll(p, ParseAll(p, COLUMN_FIELDS).items, ColumnValues(c))
  {
    ColumnFits(c);
    ColumnIsEncoded(c);
    ReadWhole(COLUMN_FIELDS, ColumnValues(c));
  }

  /** A packet that cannot be parsed changes nothing in the connection. */
  lemma {:induction false} FailuresChangeNothing(q: Request, st: State, m: Machine)
    ensures Handle(q, st, m).rc !in {Ok, Err, Eof, HaveResults} ==> Handle(q, st, m).state == st
  {
  }

  // ---------------------------------------------------------------- no parser returns TRILOGY_AGAIN or TRILOGY_EOF

  lemma {:induction false} FieldsCodes(s: bytes, p: nat, fields: seq<Field>)
    requires p <= |s|
    ensures ParseFields(s, p, fields).rc !in {Again, Eof}
    decreases |fields|
  {
    if fields != [] && TakeField(s, p, fields[0]).Good? {
      FieldsCodes(s, TakeField(s, p, fields[0]).pos, fields[1..]);
    }
  }

  lemma {:induction false} RowCodes(s: bytes, p: nat, n: nat)
    requires p <= |s|
    ensures ParseRow(s, p, n).rc !in {Again, Eof}
    decreases n
  {
    if n > 0 && TakeCell(s, p).Good? {
      RowCodes(s, TakeCell(s, p).pos, n - 1);
    }
  }

  lemma {:induction false} ChangesCodes(s: bytes, p: nat)
    requires p <= |s|
    ensures DecodeChanges(s, p).rc !in {Again, Eof}
    decreases |s| - p
  {
    if p < |s| && TakeLenencBuffer(s, p + 1).Good? {
      ChangesCodes(s, TakeLenencBuffer(s, p + 1).pos);
    }
  }

  lemma {:induction false} GtidsCodes(list: seq<Change>, gtid: bytes)
    ensures FoldGtid(list, gtid).rc !in {Again, Eof}
    decreases |list|
  {
    if list != [] && StepGtid(list[0], gtid).rc == Ok {
      GtidsCodes(list[1..], StepGtid(list[0], gtid).gtid);
    }
  }

  lemma {:induction false} StateChangesCodes(s: bytes, p: nat, ok: OkPacket)
    requires p <= |s|
    ensures ParseStateChanges(s, p, ok) !in {Rejected(Again), Rejected(Eof)}
  {
    if TakeLenencBuffer(s, p).Good? {
      var changes := DataOf(s, TakeLenencBuffer(s, p).value);
      ChangesCodes(changes, 0);
      GtidsCodes(DecodeChanges(changes, 0).list, []);
    }
  }

  lemma {:induction false} OkCodes(s: bytes, caps: nat)
    ensures ParseOk(s, caps) !in {Rejected(Again), Rejected(Eof)}
  {
    FieldsCodes(s, 0, OkHead(caps));
    var head := ParseFields(s, 0, OkHead(caps));
    if head.rc == Ok && Bit(caps, CAP_SESSION_TRACK) && TakeLenencBuffer(s, head.pos).Good? {
      var d, q := TakeLenencBuffer(s, head.pos).value, TakeLenencBuffer(s, head.pos).pos;
      StateChangesCodes(s, q, HeadOf(head.items, caps).(sessionStatus := DataOf(s, d)));
    }
  }

  lemma {:induction false} StatusCodes(st: State, p: bytes)
    ensures HandleOk(st, p).rc !in {Again, Eof} && HandleErr(st, p).rc !in {Again, Eof}
    ensures HandleEof(st, p).rc !in {Again, Eof}
  {
    OkCodes(p, st.caps);
    FieldsCodes(p, 0, ErrFields(st.caps));
    FieldsCodes(p, 0, EofFields(st.caps));
  }

  lemma {:induction false} CountCodes(st: State, p: bytes)
    ensures HandleCount(st, p).rc !in {Again, Eof} && HandleColumn(st, p).rc !in {Again, Eof}
  {
    FieldsCodes(p, 0, [Varint]);
    FieldsCodes(p, 0, COLUMN_FIELDS);
  }

  lemma {:induction false} HandleCodes(q: Request, st: State, m: Machine)
    ensures Handle(q, st, m).rc != Again
    ensures Handle(q, st, m).rc == Eof ==> q == AwaitRow && LooksLikeEof(m.kind, m.packet)
  {
    StatusCodes(st, m.packet);
    CountCodes(st, m.packet);
    RowCodes(m.packet, 0, st.columnCount);
  }

  // ---------------------------------------------------------------- operations, resumable

  /** A connection, seen from its receiving side. */
  datatype Peer = Peer(link: Link, state: State)

  datatype Turn = Turn(peer: Peer, rc: Rc, out: Output)

  /** One packet, and the reply to it: `trilogy_query_recv`, `trilogy_read_column`, the generic receivers, and the two
      halves of `trilogy_read_row`. */
  function Ask(q: Request, p: Peer): (s: Turn)
    requires p.link.machine.Healthy()
    ensures s.peer.link.machine.Healthy()
  {
    var r := ReadPacket(p.link);
    if r.rc != Ok then Turn(Peer(r.link, p.state), r.rc, Nothing)
    else
      var h := Handle(q, p.state, r.link.machine);
      Turn(Peer(r.link, h.state), h.rc, h.out)
  }

  /** The EOF packet behind the columns is skipped once per result set, and only if there is one. */
  function SkipColumnEof(p: Peer): (s: Turn)
    requires p.link.machine.Healthy()
    ensures s.peer.link.machine.Healthy()
  {
    if p.state.started then Turn(p, Ok, Nothing)
    else if Bit(p.state.caps, CAP_DEPRECATE_EOF) then Turn(p.(state := p.state.(started := true)), Ok, Nothing)
    else Start(Ask(AwaitEof, p))
  }

  function Start(s: Turn): Turn {
    if s.rc != Ok then s else s.(peer := s.peer.(state := s.peer.state.(started := true)))
  }

  /** `trilogy_read_row`. */
  function ReadRow(p: Peer): (s: Turn)
    requires p.link.machine.Healthy()
    ensures s.peer.link.machine.Healthy()
  {
    var s := SkipColumnEof(p);
    if s.rc != Ok then s else Ask(AwaitRow, s.peer)
  }

  // ---------------------------------------------------------------- the same over a whole stream

  /** The same connection, through its wire. */
  datatype Line = Line(wire: Wire, state: State)

  datatype LineTurn = LineTurn(line: Line, rc: Rc, out: Output)

  function TakeReply(q: Request, p: Line): (s: LineTurn)
    requires p.wire.machine.Healthy()
    ensures s.line.wire.machine.Healthy()
  {
    var t := TakePacket(p.wire);
    if t.rc != Ok then LineTurn(Line(t.wire, p.state), t.rc, Nothing)
    else
      var h := Handle(q, p.state, t.wire.machine);
      LineTurn(Line(t.wire, h.state), h.rc, h.out)
  }

  function StartLine(s: LineTurn): LineTurn {
    if s.rc != Ok then s else s.(line := s.line.(state := s.line.state.(started := true)))
  }

  function TakeColumnEof(p: Line): (s: LineTurn)
    requires p.wire.machine.Healthy()
    ensures s.line.wire.machine.Healthy()
  {
    if p.state.started then LineTurn(p, Ok, Nothing)
    else if Bit(p.state.caps, CAP_DEPRECATE_EOF) then LineTurn(p.(state := p.state.(started := true)), Ok, Nothing)
    else StartLine(TakeReply(AwaitEof, p))
  }

  function TakeRow(p: Line): (s: LineTurn)
    requires p.wire.machine.Healthy()
    ensures s.line.wire.machine.Healthy()
  {
    var s := TakeColumnEof(p);
    if s.rc != Ok then s else TakeReply(AwaitRow, s.line)
  }

  // ---------------------------------------------------------------- TRILOGY_AGAIN loses and repeats nothing

  function Whole(p: Peer): (w: Line)
    ensures w.wire.machine == p.link.machine
  {
    Line(WireOf(p.link), p.state)
  }

  function WholeTurn(s: Turn): LineTurn {
    LineTurn(Whole(s.peer), s.rc, s.out)
  }

  lemma {:induction false} AskIsTake(q: Request, p: Peer)
    requires p.link.machine.Healthy()
    ensures var s := Ask(q, p);
            TakeReply(q, Whole(p)) == if s.rc == Again then TakeReply(q, Whole(s.peer)) else WholeTurn(s)
    ensures Ask(q, p).rc == Again ==>
              && Ask(q, p) == Turn(Peer(ReadPacket(p.link).link, p.state), Again, Nothing)
              && ReadPacket(p.link).rc == Again
  {
    ReadIsTake(p.link);
    HandleCodes(q, p.state, ReadPacket(p.link).link.machine);
  }

  /** One `trilogy_read_row`, whichever of its two packets is late. */
  lemma {:induction false} ReadRowIsTake(p: Peer)
    requires p.link.machine.Healthy()
    ensures var s := ReadRow(p);
            TakeRow(Whole(p)) == if s.rc == Again then TakeRow(Whole(s.peer)) else WholeTurn(s)
  {
    var s := SkipColumnEof(p);
    AskIsTake(AwaitEof, p);
    if s.rc == Ok {
      AskIsTake(AwaitRow, s.peer);
    }
  }

  // ---------------------------------------------------------------- the retry loops

  /** Wait until the socket is readable, and ask again: the loops of src/blocking.c for one-packet replies. */
  function AskFull(q: Request, p: Peer): (s: Turn)
    requires p.link.machine.Healthy()
    ensures s.peer.link.machine.Healthy()
    decreases |p.link.events|, |p.link.unread|
  {
    var s := Ask(q, p);
    AskIsTake(q, p);
    ReadPacketAgain(p.link);
    if s.rc != Again then s
    else if s.peer.link.events == [] then s.(rc := Timeout)
    else AskFull(q, s.peer)
  }

  /** How the loop goes on from one answer. */
  function RetryAsk(q: Request, s: Turn): Turn
    requires s.peer.link.machine.Healthy()
  {
    if s.rc != Again then s else if s.peer.link.events == [] then s.(rc := Timeout) else AskFull(q, s.peer)
  }

  lemma {:induction false} AskFullIsTake(q: Request, p: Peer)
    requires p.link.machine.Healthy()
    ensures WholeTurn(AskFull(q, p)) == TakeReply(q, Whole(p))
    decreases |p.link.events|, |p.link.unread|
  {
    var s := Ask(q, p);
    AskIsTake(q, p);
    ReadPacketAgain(p.link);
    if s.rc == Again {
      if s.peer.link.events == [] {
        SilenceTimesOut(s.peer.link);
      } else {
        AskFullIsTake(q, s.peer);
      }
    }
  }

  /** What is left when a row has to be waited for. */
  lemma {:induction false} ReadRowAgain(p: Peer)
    requires p.link.machine.Healthy() && ReadRow(p).rc == Again
    ensures var s := ReadRow(p);
            s.out == Nothing && (s.peer.state.started || !Bit(s.peer.state.caps, CAP_DEPRECATE_EOF))
    ensures var l := ReadRow(p).peer.link;
            && l.unread == []
            && (|l.events| < |p.link.events| || (l.events == p.link.events && (p.link.unread != [] || l.events == [])))
  {
    var s := SkipColumnEof(p);
    AskIsTake(AwaitEof, p);
    ReadPacketAgain(p.link);
    if s.rc == Ok {
      AskIsTake(AwaitRow, s.peer);
      ReadPacketAgain(s.peer.link);
    }
  }

  /** `trilogy_read_full_row`. */
  function ReadFullRow(p: Peer): (s: Turn)
    requires p.link.machine.Healthy()
    ensures s.peer.link.machine.Healthy()
    decreases |p.link.events|, |p.link.unread|
  {
    var s := ReadRow(p);
    if s.rc != Again then s
    else
      ReadRowAgain(p);
      if s.peer.link.events == [] then s.(rc := Timeout) else ReadFullRow(s.peer)
  }

  /** How the loop goes on from one answer. */
  function RetryRow(s: Turn): Turn
    requires s.peer.link.machine.Healthy()
  {
    if s.rc != Again then s else if s.peer.link.events == [] then s.(rc := Timeout) else ReadFullRow(s.peer)
  }

  /** However late the bytes arrive, a row is read as if the whole stream were there: the EOF packet behind the columns
      is skipped once, and nothing is lost or repeated. */
  lemma {:induction false} ReadFullRowIsTake(p: Peer)
    requires p.link.machine.Healthy()
    ensures WholeTurn(ReadFullRow(p)) == TakeRow(Whole(p))
    decreases |p.link.events|, |p.link.unread|
  {
    var s := ReadRow(p);
    ReadRowIsTake(p);
    if s.rc == Again {
      ReadRowAgain(p);
      if s.peer.link.events == [] {
        RowAfterSilence(s);
      } else {
        ReadFullRowIsTake(s.peer);
      }
    }
  }

  lemma {:induction false} RowAfterSilence(s: Turn)
    requires s.peer.link.machine.Healthy() && s.peer.link.unread == [] && s.peer.link.events == [] && s.out == Nothing
    requires s.peer.state.started || !Bit(s.peer.state.caps, CAP_DEPRECATE_EOF)
    ensures TakeRow(Whole(s.peer)) == WholeTurn(s.(rc := Timeout))
  {
    SilenceTimesOut(s.peer.link);
  }
}
