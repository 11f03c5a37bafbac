/** Binary protocol rows: `trilogy_parse_stmt_row_packet` of src/protocol.c. */
module StmtRows {
  import opened Bytes
  import opened Readers
  import opened Layouts
  import opened BinaryValues
  import opened Bitmaps

  // ---------------------------------------------------------------- specification

  datatype BinaryValue<+S> = BinaryValue(isNull: bool, isUnsigned: bool, kind: byte, datum: Datum<S>)

  /** What the parser uses of a column definition. */
  datatype Column = Column(kind: byte, isUnsigned: bool)

  /** The length of the null bitmap of `n` columns: its first two bits are reserved. */
  function BitmapLength(n: nat): nat {
    (n + 7 + 2) / 8
  }

  /** Column `i` is marked NULL in the bitmap that starts at `bitmap`. */
  predicate NullBit(s: bytes, bitmap: nat, i: nat)
    requires bitmap + (i + 2) / 8 < |s|
  {
    Bit(s[bitmap + (i + 2) / 8], (i + 2) % 8)
  }

  /** The value stored for a column over the value the caller's array held: a NULL keeps the old member and sign flag,
      and the sign flag is set but never reset. */
  function Stored(prior: BinaryValue<Slice>, column: Column, datum: Option<Datum<Slice>>): BinaryValue<Slice> {
    match datum
    case None => prior.(isNull := true, kind := TYPE_NULL)
    case Some(d) => BinaryValue(false, prior.isUnsigned || column.isUnsigned, column.kind, d)
  }

  /** The code the parser returns, and the values it has stored: when one cannot be read, what it has stored of that one
      is the last. */
  datatype BinaryRow = BinaryRow(rc: Rc, values: seq<BinaryValue<Slice>>)

  /** The NULL marks of `n` columns. */
  function Nulls(s: bytes, bitmap: nat, n: nat): (nulls: seq<bool>)
    requires bitmap + BitmapLength(n) <= |s|
    ensures |nulls| == n && forall i | 0 <= i < n :: nulls[i] == NullBit(s, bitmap, i)
  {
    seq(n, i requires 0 <= i < n => NullBit(s, bitmap, i))
  }

  /** Columns `i` and on, with the cursor at `p`. */
  function ParseValues(s: bytes, nulls: seq<bool>, columns: seq<Column>, prior: seq<BinaryValue<Slice>>, i: nat, p: nat)
    : (row: BinaryRow)
    requires i <= |columns| == |prior| == |nulls| && p <= |s|
    ensures row.rc == Ok ==> |row.values| == |columns| - i
    decreases |columns| - i
  {
    if i == |columns| then BinaryRow(if p < |s| then ExtraDataInPacket else Ok, [])
    else if nulls[i] then
      var tail := ParseValues(s, nulls, columns, prior, i + 1, p);
      BinaryRow(tail.rc, [Stored(prior[i], columns[i], None)] + tail.values)
    else
      match TakeDatum(s, p, columns[i].kind)
      case Bad(rc, _) =>
        BinaryRow(rc, [Stored(prior[i], columns[i], Some(Partial(s, p, columns[i].kind, prior[i].datum)))])
      case Good(d, q) =>
        var tail := ParseValues(s, nulls, columns, prior, i + 1, q);
        BinaryRow(tail.rc, [Stored(prior[i], columns[i], Some(d))] + tail.values)
  }

  /** A header byte, the bitmap, the values. */
  function ParseStmtRow(s: bytes, columns: seq<Column>, prior: seq<BinaryValue<Slice>>): BinaryRow
    requires |columns| == |prior|
  {
    var n := BitmapLength(|columns|);
    if 1 + n > |s| then BinaryRow(TruncatedPacket, [])
    else ParseValues(s, Nulls(s, 1, |columns|), columns, prior, 0, 1 + n)
  }

  /** Every access to the bitmap is inside it, and the guard in front of it never fires. */
  lemma {:induction false} BitmapAccessInBounds(n: nat, i: nat)
    requires i < n
    ensures (i + 2) / 8 < BitmapLength(n)
    ensures i <= BitmapLength(n) * 8 - 1
  {
  }

  // ---------------------------------------------------------------- round trip

  /** A row as a server sends it: the values the execute builder would write, in column order, NULLs left out. */
  function EncodeValues(columns: seq<Column>, cells: seq<Option<Datum<bytes>>>, i: nat): bytes
    requires i <= |columns| == |cells| && RowFits(columns, cells)
    decreases |columns| - i
  {
    if i == |columns| then []
    else EncodeCell(columns[i], cells[i]) + EncodeValues(columns, cells, i + 1)
  }

  function EncodeCell(column: Column, cell: Option<Datum<bytes>>): bytes
    requires CellFits(column, cell)
  {
    if cell.None? then [] else EncodeDatum(column.kind, cell.value)
  }

  /** A non-NULL cell has a value its column's type can carry. */
  predicate CellFits(column: Column, cell: Option<Datum<bytes>>) {
    cell.Some? ==> ArmOf(column.kind) !in {Nothing, Unknown} && FitsArm(ArmOf(column.kind), cell.value)
  }

  predicate RowFits(columns: seq<Column>, cells: seq<Option<Datum<bytes>>>) {
    |columns| == |cells| && forall k | 0 <= k < |columns| :: CellFits(columns[k], cells[k])
  }

  /** The two reserved bits, and one bit per column. */
  function NullFlags(cells: seq<Option<Datum<bytes>>>): (flags: seq<bool>)
    ensures |flags| == 2 + |cells|
    ensures forall k | 0 <= k < |cells| :: flags[k + 2] == cells[k].None?
  {
    [false, false] + seq(|cells|, k requires 0 <= k < |cells| => cells[k].None?)
  }

  function EncodeStmtRow(header: byte, columns: seq<Column>, cells: seq<Option<Datum<bytes>>>): bytes
    requires RowFits(columns, cells)
  {
    [header] + Bitmap(NullFlags(cells)) + EncodeValues(columns, cells, 0)
  }

  /** `v` is what must come back of a cell, over `prior`. */
  predicate ReadBack(s: bytes, v: BinaryValue<Slice>, prior: BinaryValue<Slice>, column: Column,
                     cell: Option<Datum<bytes>>) {
    match cell
    case None => v == prior.(isNull := true, kind := 0x06)
    case Some(d) =>
      && !v.isNull && v.kind == column.kind && v.isUnsigned == (prior.isUnsigned || column.isUnsigned)
      && Resolve(s, v.datum) == Returned(d)
  }

  predicate ReadBackFrom(s: bytes, values: seq<BinaryValue<Slice>>, prior: seq<BinaryValue<Slice>>,
                         columns: seq<Column>, cells: seq<Option<Datum<bytes>>>, i: nat)
    requires i <= |columns| == |cells| == |prior|
  {
    |values| == |columns| - i && forall k | i <= k < |columns| ::
      ReadBack(s, values[k - i], prior[k], columns[k], cells[k])
  }

  lemma {:induction false} ReadBackCons(s: bytes, v: BinaryValue<Slice>, values: seq<BinaryValue<Slice>>,
                                        prior: seq<BinaryValue<Slice>>,
                     columns: seq<Column>, cells: seq<Option<Datum<bytes>>>, i: nat)
    requires i < |columns| == |cells| == |prior|
    requires ReadBack(s, v, prior[i], columns[i], cells[i])
    requires ReadBackFrom(s, values, prior, columns, cells, i + 1)
    ensures ReadBackFrom(s, [v] + values, prior, columns, cells, i)
  {
    forall k | i <= k < |columns|
      ensures ReadBack(s, ([v] + values)[k - i], prior[k], columns[k], cells[k])
    {
      if k > i {
        assert ([v] + values)[k - i] == values[k - (i + 1)];
      }
    }
  }

  /** A row to be read: its columns and cells, their NULL marks, and what the caller's array holds. */
  datatype Table = Table(nulls: seq<bool>, columns: seq<Column>, prior: seq<BinaryValue<Slice>>,
                         cells: seq<Option<Datum<bytes>>>)
  {
    predicate Valid() {
      && |columns| == |prior| == |nulls| && RowFits(columns, cells)
      && forall k | 0 <= k < |cells| :: nulls[k] == cells[k].None?
    }

    /** What is read from column `i` on, with the cursor at `p`. */
    function Read(s: bytes, i: nat, p: nat): BinaryRow
      requires Valid() && i <= |columns| && p <= |s|
    {
      ParseValues(s, nulls, columns, prior, i, p)
    }

    /** The bytes of the columns from `i` on. */
    function Rest(i: nat): bytes
      requires Valid() && i <= |columns|
    {
      EncodeValues(columns, cells, i)
    }

    /** The bytes of column `i`. */
    function Cell(i: nat): bytes
      requires Valid() && i < |columns|
    {
      EncodeCell(columns[i], cells[i])
    }
  }

  /** Column `i`, at `p`, comes back, and the next one is at `q`. */
  predicate Steps(s: bytes, t: Table, i: nat, p: nat, q: nat)
    requires t.Valid() && i < |t.columns| && p <= |s| && q <= |s|
  {
    var tail, row := t.Read(s, i + 1, q), t.Read(s, i, p);
    && row.rc == tail.rc && row.values != [] && row.values == [row.values[0]] + tail.values
    && ReadBack(s, row.values[0], t.prior[i], t.columns[i], t.cells[i])
  }

  lemma {:induction false} NullStep(s: bytes, t: Table, i: nat, p: nat)
    requires t.Valid() && i < |t.columns| && p <= |s| && t.cells[i].None?
    ensures Steps(s, t, i, p, p)
  {
  }

  lemma {:induction false} DatumStep(s: bytes, t: Table, i: nat, p: nat, q: nat)
    requires t.Valid() && i < |t.columns| && p <= |s| && q <= |s| && t.cells[i].Some?
    requires var g := TakeDatum(s, p, t.columns[i].kind);
             g.Good? && g.pos == q && Resolve(s, g.value) == Returned(t.cells[i].value)
    ensures Steps(s, t, i, p, q)
  {
  }

  /** One column of an encoded row. */
  lemma {:induction false} ValueStep(s: bytes, t: Table, i: nat, p: nat)
    requires t.Valid() && i < |t.columns| && At(s, p, t.Cell(i))
    ensures Steps(s, t, i, p, p + |t.Cell(i)|)
  {
    match t.cells[i]
    case None =>
      NullStep(s, t, i, p);
    case Some(d) =>
      DatumRoundTrip(s, p, t.columns[i].kind, d);
      DatumStep(s, t, i, p, p + |t.Cell(i)|);
  }

  lemma {:induction false} RestStep(t: Table, i: nat)
    requires t.Valid() && i < |t.columns|
    ensures t.Rest(i) == t.Cell(i) + t.Rest(i + 1)
  {
  }

  /** The values of the columns from `i` on are read to the end of the packet, and all come back. */
  predicate RestIsRead(s: bytes, t: Table, i: nat, p: nat)
    requires t.Valid() && i <= |t.columns| && p <= |s|
  {
    t.Read(s, i, p).rc == Ok && ReadBackFrom(s, t.Read(s, i, p).values, t.prior, t.columns, t.cells, i)
  }

  /** The packet ends with the columns from `i` on. */
  predicate EndsWith(s: bytes, t: Table, i: nat, p: nat)
    requires t.Valid() && i <= |t.columns|
  {
    At(s, p, t.Rest(i)) && p + |t.Rest(i)| == |s|
  }

  lemma {:induction false} ValuesRoundTrip(s: bytes, t: Table, i: nat, p: nat)
    requires t.Valid() && i <= |t.columns| && EndsWith(s, t, i, p)
    ensures RestIsRead(s, t, i, p)
    decreases |t.columns| - i
  {
    if i == |t.columns| {
      NothingIsLeft(s, t);
    } else {
      var q := ValueStands(s, t, i, p);
      ValuesRoundTrip(s, t, i + 1, q);
      RestIsReadFrom(s, t, i, p, q);
    }
  }

  lemma {:induction false} NothingIsLeft(s: bytes, t: Table)
    requires t.Valid()
    ensures RestIsRead(s, t, |t.columns|, |s|)
  {
  }

  lemma {:induction false} ValueStands(s: bytes, t: Table, i: nat, p: nat) returns (q: nat)
    requires t.Valid() && i < |t.columns| && EndsWith(s, t, i, p)
    ensures p <= |s| && q <= |s| && EndsWith(s, t, i + 1, q) && Steps(s, t, i, p, q)
  {
    RestStep(t, i);
    q := p + |t.Cell(i)|;
    AtSplit(s, p, t.Cell(i), t.Rest(i + 1));
    ValueStep(s, t, i, p);
  }

  lemma {:induction false} RestIsReadFrom(s: bytes, t: Table, i: nat, p: nat, q: nat)
    requires t.Valid() && i < |t.columns| && p <= |s| && q <= |s|
    requires Steps(s, t, i, p, q) && RestIsRead(s, t, i + 1, q)
    ensures RestIsRead(s, t, i, p)
  {
    ReadBackCons(s, t.Read(s, i, p).values[0], t.Read(s, i + 1, q).values, t.prior, t.columns, t.cells, i);
  }

  lemma {:induction false} BitmapIsRead(s: bytes, cells: seq<Option<Datum<bytes>>>, k: nat)
    requires At(s, 1, Bitmap(NullFlags(cells))) && k < |cells|
    ensures NullBit(s, 1, k) == cells[k].None?
  {
    var bits := Bitmap(NullFlags(cells));
    BitmapBit(NullFlags(cells), k + 2);
    assert s[1..1 + |bits|][(k + 2) / 8] == s[1 + (k + 2) / 8];
  }

  /** The row behind a null bitmap, as the parser sees it. */
  function TableAt(s: bytes, columns: seq<Column>, prior: seq<BinaryValue<Slice>>, cells: seq<Option<Datum<bytes>>>)
    : Table
    requires 1 + BitmapLength(|columns|) <= |s|
  {
    Table(Nulls(s, 1, |columns|), columns, prior, cells)
  }

  lemma {:induction false} NullsAreRead(s: bytes, columns: seq<Column>, prior: seq<BinaryValue<Slice>>,
                                        cells: seq<Option<Datum<bytes>>>)
    requires RowFits(columns, cells) && |prior| == |columns| && At(s, 1, Bitmap(NullFlags(cells)))
    ensures 1 + BitmapLength(|columns|) <= |s| && TableAt(s, columns, prior, cells).Valid()
  {
    forall k | 0 <= k < |cells|
      ensures Nulls(s, 1, |cells|)[k] == cells[k].None?
    {
      BitmapIsRead(s, cells, k);
    }
  }

  /** Parsing undoes encoding for every row of every number of columns: NULLs, types, sign flags and values come back,
      exactly but for midnights. */
  lemma {:induction false} StmtRowRoundTrip(header: byte, columns: seq<Column>, cells: seq<Option<Datum<bytes>>>,
                         prior: seq<BinaryValue<Slice>>)
    requires RowFits(columns, cells) && |prior| == |columns|
    ensures var s := EncodeStmtRow(header, columns, cells);
            var row := ParseStmtRow(s, columns, prior);
            row.rc == Ok && ReadBackFrom(s, row.values, prior, columns, cells, 0)
  {
    var s, n := EncodeStmtRow(header, columns, cells), BitmapLength(|columns|);
    RowSplits(header, columns, cells);
    NullsAreRead(s, columns, prior, cells);
    ValuesRoundTrip(s, TableAt(s, columns, prior, cells), 0, 1 + n);
  }

  /** An encoded row by position: behind the header, one bit per column from the third on, and then the values. */
  lemma {:induction false} RowByPosition(header: byte, columns: seq<Column>, cells: seq<Option<Datum<bytes>>>)
    requires RowFits(columns, cells)
    ensures var s, n := EncodeStmtRow(header, columns, cells), |columns|;
            && 1 + (n + 9) / 8 <= |s| && s[0] == header && !Bit(s[1], 0) && !Bit(s[1], 1)
            && (forall k | 0 <= k < n :: Bit(s[1 + (k + 2) / 8], (k + 2) % 8) <==> cells[k].None?)
            && s[1 + (n + 9) / 8..] == EncodeValues(columns, cells, 0)
  {
    var s, n := EncodeStmtRow(header, columns, cells), |columns|;
    var flags := NullFlags(cells);
    RowSplits(header, columns, cells);
    assert s[0] == header;
    forall i: nat | i < 2 + n
      ensures Bit(s[1 + i / 8], i % 8) <==> flags[i]
    {
      FlagIsAt(s, flags, Bitmap(flags), i);
    }
    assert 0 / 8 == 1 / 8 == 0 && !flags[0] && !flags[1];
  }

  lemma {:induction false} FlagIsAt(s: bytes, flags: seq<bool>, bits: bytes, i: nat)
    requires bits == Bitmap(flags) && At(s, 1, bits) && i < |flags|
    ensures Bit(s[1 + i / 8], i % 8) <==> flags[i]
  {
    BitmapBit(flags, i);
    assert s[1..1 + |bits|][i / 8] == s[1 + i / 8];
  }

  /** What is stored of a row that ends too early: the values in front of the one it ends in, and of that one the type
      and the sign flag of its column, and what can be read of it. */
  ghost predicate ReadUpTo(s: bytes, values: seq<BinaryValue<Slice>>, t: Table, i: nat)
    requires t.Valid() && i <= |t.columns|
  {
    && 0 < |values| <= |t.columns| - i
    && (forall k | i <= k < i + |values| - 1 :: ReadBack(s, values[k - i], t.prior[k], t.columns[k], t.cells[k]))
    && LastOf(s, values[|values| - 1], t, i + |values| - 1)
  }

  ghost predicate LastOf(s: bytes, v: BinaryValue<Slice>, t: Table, k: nat)
    requires t.Valid() && k < |t.columns|
  {
    && t.cells[k].Some? && !v.isNull && v.kind == t.columns[k].kind
    && v.isUnsigned == (t.prior[k].isUnsigned || t.columns[k].isUnsigned)
    && exists p :: Cut(s, p, t.Cell(k)) && v.datum == Partial(s, p, v.kind, t.prior[k].datum)
  }

  lemma {:induction false} ReadUpToCons(s: bytes, v: BinaryValue<Slice>, values: seq<BinaryValue<Slice>>, t: Table,
                                        i: nat)
    requires t.Valid() && i < |t.columns|
    requires ReadBack(s, v, t.prior[i], t.columns[i], t.cells[i]) && ReadUpTo(s, values, t, i + 1)
    ensures ReadUpTo(s, [v] + values, t, i)
  {
    var all := [v] + values;
    assert all[|all| - 1] == values[|values| - 1];
    forall k | i <= k < i + |all| - 1
      ensures ReadBack(s, all[k - i], t.prior[k], t.columns[k], t.cells[k])
    {
      if k > i {
        assert all[k - i] == values[k - (i + 1)];
      }
    }
  }

  /** The values of the columns from `i` on cannot be read to their end. */
  ghost predicate CutIsRead(s: bytes, t: Table, i: nat, p: nat)
    requires t.Valid() && i <= |t.columns| && p <= |s|
  {
    t.Read(s, i, p).rc == TruncatedPacket && ReadUpTo(s, t.Read(s, i, p).values, t, i)
  }

  lemma {:induction false} CutValues(s: bytes, t: Table, i: nat, p: nat)
    requires t.Valid() && i <= |t.columns| && Cut(s, p, t.Rest(i))
    ensures CutIsRead(s, t, i, p)
    decreases |t.columns| - i
  {
    var here, q := CutFront(s, t, i, p);
    if here {
      CutHere(s, t, i, p);
    } else {
      CutValues(s, t, i + 1, q);
      CutThere(s, t, i, p, q);
    }
  }

  /** The row ends in the value of column `i`, or behind it. */
  lemma {:induction false} CutFront(s: bytes, t: Table, i: nat, p: nat) returns (here: bool, q: nat)
    requires t.Valid() && i <= |t.columns| && Cut(s, p, t.Rest(i))
    ensures i < |t.columns|
    ensures here ==> t.cells[i].Some? && Cut(s, p, t.Cell(i))
    ensures !here ==> q <= |s| && Cut(s, q, t.Rest(i + 1)) && Steps(s, t, i, p, q)
  {
    RestStep(t, i);
    q := p + |t.Cell(i)|;
    here := |s| < q;
    CutSplit(s, p, t.Cell(i), t.Rest(i + 1));
    if !here {
      ValueStep(s, t, i, p);
    }
  }

  lemma {:induction false} CutHere(s: bytes, t: Table, i: nat, p: nat)
    requires t.Valid() && i < |t.columns| && t.cells[i].Some? && Cut(s, p, t.Cell(i))
    ensures CutIsRead(s, t, i, p)
  {
    DatumCut(s, p, t.columns[i].kind, t.cells[i].value);
  }

  lemma {:induction false} CutThere(s: bytes, t: Table, i: nat, p: nat, q: nat)
    requires t.Valid() && i < |t.columns| && p <= |s| && q <= |s|
    requires Steps(s, t, i, p, q) && CutIsRead(s, t, i + 1, q)
    ensures CutIsRead(s, t, i, p)
  {
    ReadUpToCons(s, t.Read(s, i, p).values[0], t.Read(s, i + 1, q).values, t, i);
  }

  /** A row that ends too early, wherever it ends, is refused as truncated; the values in front of that place have been
      stored. */
  lemma {:induction false} CutRowIsRefused(s: bytes, header: byte, columns: seq<Column>,
                                           cells: seq<Option<Datum<bytes>>>, prior: seq<BinaryValue<Slice>>)
    requires RowFits(columns, cells) && |prior| == |columns| && Cut(s, 0, EncodeStmtRow(header, columns, cells))
    ensures var row, n := ParseStmtRow(s, columns, prior), 1 + (|columns| + 9) / 8;
            && row.rc == TruncatedPacket
            && if |s| < n then row.values == []
               else TableAt(s, columns, prior, cells).Valid() &&
                    ReadUpTo(s, row.values, TableAt(s, columns, prior, cells), 0)
  {
    var bits, n := Bitmap(NullFlags(cells)), 1 + BitmapLength(|columns|);
    CutSplit(s, 0, [header] + bits, EncodeValues(columns, cells, 0));
    if |s| >= n {
      AtSplit(s, 0, [header], bits);
      NullsAreRead(s, columns, prior, cells);
      CutValues(s, TableAt(s, columns, prior, cells), 0, n);
    }
  }

  /** A cell that is written and read back unchanged: NULL, or a value that is no midnight, or a midnight of zero days
      and positive sign. */
  predicate Survives(cell: Option<Datum<bytes>>) {
    cell.None? || !Midnight(cell.value) || (cell.value.days == 0 && !cell.value.negative)
  }

  /** The values of a row come back exactly if and only if every cell survives. */
  lemma {:induction false} StmtRowComesBackIff(header: byte, columns: seq<Column>, cells: seq<Option<Datum<bytes>>>,
                                               prior: seq<BinaryValue<Slice>>)
    requires RowFits(columns, cells) && |prior| == |columns|
    ensures var s := EncodeStmtRow(header, columns, cells);
            var values := ParseStmtRow(s, columns, prior).values;
            && |values| == |cells|
            && ((forall k | 0 <= k < |cells| && cells[k].Some? :: Resolve(s, values[k].datum) == cells[k].value) <==>
                forall k | 0 <= k < |cells| :: Survives(cells[k]))
  {
    StmtRowRoundTrip(header, columns, cells, prior);
    var s := EncodeStmtRow(header, columns, cells);
    var values := ParseStmtRow(s, columns, prior).values;
    forall k | 0 <= k < |cells| && cells[k].Some?
      ensures Resolve(s, values[k].datum) == cells[k].value <==> Survives(cells[k])
    {
      assert ReadBack(s, values[k - 0], prior[k], columns[k], cells[k]);
      ReturnedIff(cells[k].value);
    }
  }

  lemma {:induction false} RowSplits(header: byte, columns: seq<Column>, cells: seq<Option<Datum<bytes>>>)
    requires RowFits(columns, cells)
    ensures var s, n := EncodeStmtRow(header, columns, cells), BitmapLength(|columns|);
            var values := EncodeValues(columns, cells, 0);
            At(s, 1, Bitmap(NullFlags(cells))) && At(s, 1 + n, values) && 1 + n + |values| == |s|
  {
    var s, bits := EncodeStmtRow(header, columns, cells), Bitmap(NullFlags(cells));
    AtWhole(s);
    AtSplit(s, 0, [header] + bits, EncodeValues(columns, cells, 0));
    AtSplit(s, 0, [header], bits);
  }

  // ---------------------------------------------------------------- implementation

  method IsNull(s: bytes, bitmap: nat, bitmapLen: nat, columnOffset: nat) returns (rc: Rc, colIsNull: bool)
    requires bitmap + bitmapLen <= |s| && 0 < bitmapLen && (columnOffset + 2) / 8 < bitmapLen
    ensures rc == if columnOffset > bitmapLen * 8 - 1 then ProtocolViolation else Ok
    ensures rc == Ok ==> colIsNull == NullBit(s, bitmap, columnOffset)
  {
    if columnOffset > bitmapLen * 8 - 1 {
      return ProtocolViolation, false;
    }
    var byteOffset := (columnOffset + 2) / 8;
    colIsNull := Bit(s[bitmap + byteOffset], (columnOffset + 2) % 8);
    return Ok, colIsNull;
  }

  /** The value of a TIME column: a length byte of 0, 8 or 12, and its fields. */
  method GetClock(reader: Reader, prior: Datum<Slice>) returns (rc: Rc, d: Datum<Slice>)
    requires reader.Valid()
    modifies reader
    ensures reader.Valid()
    ensures match TakeClock(reader.buff, old(reader.pos))
            case Good(x, q) => rc == Ok && d == x && reader.pos == q
            case Bad(c, q) => rc == c && d == Partial(reader.buff, old(reader.pos), TYPE_TIME, prior)
  {
    d := prior;
    if reader.Eof() {
      return TruncatedPacket, d;
    }
    var len := reader.buff[reader.pos];
    reader.pos := reader.pos + 1;
    d := Time(false, 0, 0, 0, 0, 0);
    if len !in {0, 8, 12} {
      return ProtocolViolation, d;
    }
    var items: seq<Item>;
    rc, items := GetFields(reader, ClockFields(len));
    d := ClockOf(items);
  }

  /** The value of a DATE, DATETIME or TIMESTAMP column: a length byte of 0, 4, 7 or 11, and its fields. */
  method GetCalendar(reader: Reader, prior: Datum<Slice>) returns (rc: Rc, d: Datum<Slice>)
    requires reader.Valid()
    modifies reader
    ensures reader.Valid()
    ensures match TakeCalendar(reader.buff, old(reader.pos))
            case Good(x, q) => rc == Ok && d == x && reader.pos == q
            case Bad(c, q) => rc == c && d == Partial(reader.buff, old(reader.pos), TYPE_DATE, prior)
  {
    d := prior;
    if reader.Eof() {
      return TruncatedPacket, d;
    }
    var len := reader.buff[reader.pos];
    reader.pos := reader.pos + 1;
    d := Date(0, 0, 0, 0, 0, 0, 0);
    if len !in {0, 4, 7, 11} {
      return ProtocolViolation, d;
    }
    var items: seq<Item>;
    rc, items := GetFields(reader, CalendarFields(len));
    d := CalendarOf(items);
  }

  /** The switch over the column types; `prior` is what the value held. */
  method GetDatum(reader: Reader, kind: byte, prior: Datum<Slice>) returns (rc: Rc, d: Datum<Slice>)
    requires reader.Valid()
    modifies reader
    ensures reader.Valid()
    ensures match TakeDatum(reader.buff, old(reader.pos), kind)
            case Good(x, q) => rc == Ok && d == x && reader.pos == q
            case Bad(c, q) => rc == c && d == Partial(reader.buff, old(reader.pos), kind, prior)
  {
    d := prior;
    match ArmOf(kind)
    case Numeric(w) =>
      var n: nat;
      rc, n := reader.GetInt(w);
      if rc == Ok {
        d := Integer(n);
      }
    case Clock =>
      rc, d := GetClock(reader, prior);
    case Calendar =>
      rc, d := GetCalendar(reader, prior);
    case Textual =>
      var x: Slice;
      rc, x := reader.GetLenencBuffer();
      if rc == Ok {
        d := Str(x);
      }
    case Nothing =>
      return UnknownType, d;
    case Unknown =>
      return UnknownType, d;
  }

  /** The values of a row, as far as they can be read; `prior` is what the caller's array holds. */
  method ParseStmtRowPacket(buff: bytes, columns: seq<Column>, prior: seq<BinaryValue<Slice>>)
    returns (rc: Rc, values: seq<BinaryValue<Slice>>)
    requires |columns| == |prior|
    ensures rc == ParseStmtRow(buff, columns, prior).rc && values == ParseStmtRow(buff, columns, prior).values
  {
    var reader := new Reader(buff);
    values := [];
    if |buff| < 1 {
      return TruncatedPacket, [];
    }
    reader.pos := 1;
    var bitmapLen := BitmapLength(|columns|);
    var bitmap: Slice;
    rc, bitmap := reader.GetBuffer(bitmapLen);
    if rc != Ok {
      return;
    }
    ghost var whole := ParseStmtRow(buff, columns, prior);
    ghost var tail := whole;
    var i := 0;
    while i < |columns|
      invariant i <= |columns| && reader.Valid() && reader.buff == buff && fresh(reader)
      invariant tail == ParseValues(buff, Nulls(buff, 1, |columns|), columns, prior, i, reader.pos)
      invariant whole.rc == tail.rc && whole.values == values + tail.values
    {
      var got, value := GetValue(reader, bitmapLen, columns, prior, i);
      if got != Ok {
        return got, values + [value];
      }
      i := i + 1;
      tail := ParseValues(buff, Nulls(buff, 1, |columns|), columns, prior, i, reader.pos);
      AppendFirst(values, value, tail.values);
      values := values + [value];
    }
    rc := reader.Finish();
  }

  /** Column `i`. */
  method GetValue(reader: Reader, bitmapLen: nat, columns: seq<Column>, prior: seq<BinaryValue<Slice>>, i: nat)
    returns (rc: Rc, value: BinaryValue<Slice>)
    requires reader.Valid() && i < |columns| == |prior|
    requires bitmapLen == BitmapLength(|columns|) && 1 + bitmapLen <= |reader.buff|
    modifies reader
    ensures reader.Valid()
    ensures var row := ParseValues(reader.buff, Nulls(reader.buff, 1, |columns|), columns, prior, i, old(reader.pos));
            if rc == Ok then
              var tail := ParseValues(reader.buff, Nulls(reader.buff, 1, |columns|), columns, prior, i + 1, reader.pos);
              row.rc == tail.rc && row.values == [value] + tail.values
            else row.rc == rc && row.values == [value]
  {
    BitmapAccessInBounds(|columns|, i);
    var isNull: bool;
    value := prior[i];
    rc, isNull := IsNull(reader.buff, 1, bitmapLen, i);
    if isNull {
      value := Stored(prior[i], columns[i], None);
    } else {
      var d: Datum<Slice>;
      rc, d := GetDatum(reader, columns[i].kind, prior[i].datum);
      value := Stored(prior[i], columns[i], Some(d));
    }
  }
}
