/** Text protocol rows: `trilogy_parse_row_packet` of src/protocol.c. */
module TextRows {
  import opened Bytes
  import opened Builders
  import opened Readers

  // ---------------------------------------------------------------- specification

  /** A column: NULL, or where its data lies in the packet. */
  type Cell = Option<Slice>

  /** One column at the cursor. */
  function TakeCell(s: bytes, p: nat): (g: Got<Cell>)
    requires p <= |s|
    ensures p <= g.pos <= |s| && (g.Bad? ==> g.rc != Ok) && (g.Good? ==> p < g.pos)
    ensures g.Good? && g.value.Some? ==> p < g.value.value.at && g.value.value.at + g.value.value.len == g.pos
  {
    match TakeLenencBuffer(s, p)
    case Good(d, q) => Good(Some(d), q)
    case Bad(rc, q) => if rc == NullValue then Good(None, p + 1) else Bad(rc, q)
  }

  /** The code the parser returns, and the columns it has read. */
  datatype Row = Row(rc: Rc, cells: seq<Cell>)

  function ParseRow(s: bytes, p: nat, n: nat): (row: Row)
    requires p <= |s|
    ensures |row.cells| <= n && (row.rc == Ok ==> |row.cells| == n)
    decreases n
  {
    if n == 0 then Row(if p < |s| then ExtraDataInPacket else Ok, [])
    else
      match TakeCell(s, p)
      case Bad(rc, _) => Row(rc, [])
      case Good(c, q) => var tail := ParseRow(s, q, n - 1); Row(tail.rc, [c] + tail.cells)
  }

  /** The first column and the others. */
  lemma {:induction false} RowStep(s: bytes, p: nat, n: nat)
    requires p <= |s| && n > 0 && TakeCell(s, p).Good?
    ensures var c, tail := TakeCell(s, p).value, ParseRow(s, TakeCell(s, p).pos, n - 1);
            ParseRow(s, p, n).rc == tail.rc && ParseRow(s, p, n).cells == [c] + tail.cells
  {
  }

  // ---------------------------------------------------------------- the data slices

  /** Slices in `[lo, hi)`, each strictly behind the end of the one before: they are disjoint, with a length prefix in
      every gap. */
  predicate InOrder(cells: seq<Cell>, lo: nat, hi: nat) {
    cells == [] || match cells[0]
                   case None => InOrder(cells[1..], lo, hi)
                   case Some(x) => lo < x.at && x.at + x.len <= hi && InOrder(cells[1..], x.at + x.len, hi)
  }

  lemma {:induction false} InOrderFrom(cells: seq<Cell>, lo: nat, next: nat, hi: nat)
    requires lo <= next && InOrder(cells, next, hi)
    ensures InOrder(cells, lo, hi)
  {
    if cells != [] && cells[0].None? {
      InOrderFrom(cells[1..], lo, next, hi);
    }
  }

  lemma {:induction false} InOrderCons(c: Cell, cells: seq<Cell>, lo: nat, next: nat, hi: nat)
    requires InOrder(cells, next, hi) && lo <= next <= hi
    requires c.Some? ==> lo < c.value.at && c.value.at + c.value.len == next
    ensures InOrder([c] + cells, lo, hi)
  {
    InOrderFrom(cells, lo, next, hi);
    assert ([c] + cells)[1..] == cells;
  }

  /** What `InOrder` says of any two columns. */
  lemma {:induction false} InOrderAt(cells: seq<Cell>, lo: nat, hi: nat, j: nat, k: nat)
    requires InOrder(cells, lo, hi) && j <= k < |cells| && cells[j].Some? && cells[k].Some?
    ensures lo < cells[k].value.at && cells[k].value.at + cells[k].value.len <= hi
    ensures j < k ==> cells[j].value.at + cells[j].value.len < cells[k].value.at
    decreases |cells|
  {
    if k > 0 {
      var next := if cells[0].Some? then cells[0].value.at + cells[0].value.len else lo;
      InOrderAt(cells[1..], next, hi, if j > 0 then j - 1 else k - 1, k - 1);
    }
  }

  /** The slices a row hands out lie in the packet, are disjoint, and are in order. */
  lemma {:induction false} SlicesAreInOrder(s: bytes, p: nat, n: nat)
    requires p <= |s|
    ensures InOrder(ParseRow(s, p, n).cells, p, |s|)
    decreases n
  {
    if n > 0 && TakeCell(s, p).Good? {
      var c, q := TakeCell(s, p).value, TakeCell(s, p).pos;
      SlicesAreInOrder(s, q, n - 1);
      InOrderCons(c, ParseRow(s, q, n - 1).cells, p, q, |s|);
    }
  }

  // ---------------------------------------------------------------- rows tile the packet

  function Concat(parts: seq<bytes>): bytes {
    if parts == [] then [] else parts[0] + Concat(parts[1..])
  }

  /** `c` is one column and nothing more: 0xfb, or a length in one, three, four or nine bytes and that many bytes of
      data. */
  predicate IsCell(c: bytes) {
    c != [] &&
    if c[0] < 0xfb then |c| == 1 + c[0]
    else if c[0] == 0xfb then |c| == 1
    else if c[0] == 0xfc then |c| >= 3 && |c| == 3 + FromLE(c[1..3])
    else if c[0] == 0xfd then |c| >= 4 && |c| == 4 + FromLE(c[1..4])
    else if c[0] == 0xfe then |c| >= 9 && |c| == 9 + FromLE(c[1..9])
    else false
  }

  /** The parser takes exactly such bytes for a whole column. */
  lemma {:induction false} CellIsTaken(c: bytes)
    ensures IsCell(c) <==> TakeCell(c, 0).Good? && TakeCell(c, 0).pos == |c|
  {
  }

  predicate AreCells(parts: seq<bytes>) {
    forall k | 0 <= k < |parts| :: IsCell(parts[k])
  }

  /** The bytes of a column read the same wherever else they stand. */
  lemma {:induction false} TakeCellElsewhere(s: bytes, p: nat, t: bytes, q: nat)
    requires p <= |s| && TakeCell(s, p).Good? && At(t, q, s[p..TakeCell(s, p).pos])
    ensures TakeCell(t, q).Good? && TakeCell(t, q).pos == q + (TakeCell(s, p).pos - p)
  {
    if TakeLenencBuffer(s, p).Good? {
      TakeLenencBufferElsewhere(s, p, t, q);
    } else {
      assert t[q] == t[q..q + 1][0] == s[p..p + 1][0];
    }
  }

  lemma {:induction false} AcceptedRowTiles(s: bytes, p: nat, n: nat) returns (parts: seq<bytes>)
    requires p <= |s| && ParseRow(s, p, n).rc == Ok
    ensures |parts| == n && AreCells(parts) && Concat(parts) == s[p..]
    decreases n
  {
    if n == 0 {
      parts := [];
    } else {
      var q := TakeCell(s, p).pos;
      AtSlice(s, p, q);
      TakeCellElsewhere(s, p, s[p..q], 0);
      CellIsTaken(s[p..q]);
      var rest := AcceptedRowTiles(s, q, n - 1);
      parts := [s[p..q]] + rest;
      assert parts[1..] == rest;
      assert s[p..q] + s[q..] == s[p..];
    }
  }

  lemma {:induction false} TiledRowIsAccepted(s: bytes, p: nat, parts: seq<bytes>, n: nat)
    requires p <= |s| && n == |parts| && AreCells(parts) && Concat(parts) == s[p..]
    ensures ParseRow(s, p, n).rc == Ok
    decreases n
  {
    if n > 0 {
      var c := parts[0];
      FirstPart(s, p, c, Concat(parts[1..]));
      CellIsTaken(c);
      TakeCellElsewhere(c, 0, s, p);
      RowStep(s, p, n);
      TiledRowIsAccepted(s, TakeCell(s, p).pos, parts[1..], n - 1);
    }
  }

  lemma {:induction false} FirstPart(s: bytes, p: nat, c: bytes, rest: bytes)
    requires p <= |s| && s[p..] == c + rest
    ensures p + |c| <= |s| && At(s, p, c[0..|c|]) && s[p + |c|..] == rest
  {
    assert c[0..|c|] == c == (c + rest)[..|c|];
    assert s[p..p + |c|] == s[p..][..|c|];
    assert s[p + |c|..] == s[p..][|c|..];
  }

  /** A packet is accepted as a row of `n` columns exactly when it is a concatenation of `n` cells. */
  lemma {:induction false} RowsTileThePacket(s: bytes, n: nat)
    ensures ParseRow(s, 0, n).rc == Ok <==>
            exists parts: seq<bytes> :: |parts| == n && AreCells(parts) && Concat(parts) == s
  {
    assert s[0..] == s;
    if ParseRow(s, 0, n).rc == Ok {
      var parts := AcceptedRowTiles(s, 0, n);
    }
    forall parts: seq<bytes> | |parts| == n && AreCells(parts) && Concat(parts) == s
      ensures ParseRow(s, 0, n).rc == Ok
    {
      TiledRowIsAccepted(s, 0, parts, n);
    }
  }

  // ---------------------------------------------------------------- round trip

  /** A column as a server writes it: 0xfb, or `trilogy_builder_write_lenenc_buffer`. */
  function EncodeCell(c: Option<bytes>): bytes {
    match c
    case None => [0xfb]
    case Some(d) => LenencBuffer(d)
  }

  function EncodeRow(columns: seq<Option<bytes>>): bytes {
    if columns == [] then [] else EncodeCell(columns[0]) + EncodeRow(columns[1..])
  }

  predicate Encodable(c: Option<bytes>) {
    c.Some? ==> |c.value| <= SIZE_MAX
  }

  /** `cell` tells where the data `c` is in the packet. */
  predicate Locates(s: bytes, cell: Cell, c: Option<bytes>) {
    match cell
    case None => c == None
    case Some(x) => x.at + x.len <= |s| && c == Some(s[x.at..x.at + x.len])
  }

  predicate LocatesAll(s: bytes, cells: seq<Cell>, columns: seq<Option<bytes>>) {
    |cells| == |columns| && forall k | 0 <= k < |cells| :: Locates(s, cells[k], columns[k])
  }

  lemma {:induction false} LocatesCons(s: bytes, x: Cell, xs: seq<Cell>, columns: seq<Option<bytes>>)
    requires columns != [] && Locates(s, x, columns[0]) && LocatesAll(s, xs, columns[1..])
    ensures LocatesAll(s, [x] + xs, columns)
  {
    forall k | 0 <= k < |columns|
      ensures Locates(s, ([x] + xs)[k], columns[k])
    {
      if k > 0 {
        assert ([x] + xs)[k] == xs[k - 1] && columns[k] == columns[1..][k - 1];
      }
    }
  }

  lemma {:induction false} TakeEncodedCell(s: bytes, p: nat, c: Option<bytes>)
    requires Encodable(c) && At(s, p, EncodeCell(c))
    ensures TakeCell(s, p).Good? && TakeCell(s, p).pos == p + |EncodeCell(c)| && Locates(s, TakeCell(s, p).value, c)
  {
    match c
    case None =>
      assert s[p] == s[p..p + 1][0];
    case Some(d) =>
      LenencBufferRoundTrip(s, p, d);
  }

  lemma {:induction false} EncodedRowParses(s: bytes, p: nat, columns: seq<Option<bytes>>, n: nat)
    requires n == |columns| && forall k | 0 <= k < n :: Encodable(columns[k])
    requires At(s, p, EncodeRow(columns)) && p + |EncodeRow(columns)| == |s|
    ensures ParseRow(s, p, n).rc == Ok
    ensures LocatesAll(s, ParseRow(s, p, n).cells, columns)
    decreases n
  {
    if n > 0 {
      AtSplit(s, p, EncodeCell(columns[0]), EncodeRow(columns[1..]));
      TakeEncodedCell(s, p, columns[0]);
      var q := TakeCell(s, p).pos;
      RowStep(s, p, n);
      EncodedRowParses(s, q, columns[1..], n - 1);
      LocatesCons(s, TakeCell(s, p).value, ParseRow(s, q, n - 1).cells, columns);
    }
  }

  /** Parsing undoes encoding for every row: the slices hold the columns' data. */
  lemma {:induction false} RowRoundTrip(columns: seq<Option<bytes>>)
    requires forall k | 0 <= k < |columns| :: Encodable(columns[k])
    ensures var s := EncodeRow(columns);
            ParseRow(s, 0, |columns|).rc == Ok && LocatesAll(s, ParseRow(s, 0, |columns|).cells, columns)
  {
    AtWhole(EncodeRow(columns));
    EncodedRowParses(EncodeRow(columns), 0, columns, |columns|);
  }

  /** The row cannot be read to its end; the columns that are there have been handed out. */
  predicate CutIsRead(s: bytes, p: nat, columns: seq<Option<bytes>>, n: nat)
    requires p <= |s| && n == |columns|
  {
    var row := ParseRow(s, p, n);
    row.rc == TruncatedPacket && |row.cells| < n && LocatesAll(s, row.cells, columns[..|row.cells|])
  }

  lemma {:induction false} CutCells(s: bytes, p: nat, columns: seq<Option<bytes>>, n: nat)
    requires n == |columns| && (forall k | 0 <= k < n :: Encodable(columns[k])) && Cut(s, p, EncodeRow(columns))
    ensures CutIsRead(s, p, columns, n)
    decreases n
  {
    CutSplit(s, p, EncodeCell(columns[0]), EncodeRow(columns[1..]));
    var q := p + |EncodeCell(columns[0])|;
    if |s| < q {
      CutHere(s, p, columns, n);
    } else {
      TakeEncodedCell(s, p, columns[0]);
      CutCells(s, q, columns[1..], n - 1);
      CutThere(s, p, columns, n, q);
    }
  }

  lemma {:induction false} CutHere(s: bytes, p: nat, columns: seq<Option<bytes>>, n: nat)
    requires 0 < n == |columns| && Encodable(columns[0]) && Cut(s, p, EncodeCell(columns[0]))
    ensures CutIsRead(s, p, columns, n)
  {
    if columns[0].Some? {
      LenencBufferCut(s, p, columns[0].value);
    }
  }

  lemma {:induction false} CutThere(s: bytes, p: nat, columns: seq<Option<bytes>>, n: nat, q: nat)
    requires 0 < n == |columns| && p <= |s| && q <= |s|
    requires TakeCell(s, p).Good? && TakeCell(s, p).pos == q && Locates(s, TakeCell(s, p).value, columns[0])
    requires CutIsRead(s, q, columns[1..], n - 1)
    ensures CutIsRead(s, p, columns, n)
  {
    RowStep(s, p, n);
    var tail := ParseRow(s, q, n - 1).cells;
    var read := columns[..1 + |tail|];
    assert read[0] == columns[0] && read[1..] == columns[1..][..|tail|];
    LocatesCons(s, TakeCell(s, p).value, tail, read);
  }

  /** A row that ends too early, wherever it ends, is refused as truncated; the columns in front of that place have been
      handed out. */
  lemma {:induction false} CutRowIsRefused(s: bytes, columns: seq<Option<bytes>>)
    requires (forall k | 0 <= k < |columns| :: Encodable(columns[k])) && Cut(s, 0, EncodeRow(columns))
    ensures var row := ParseRow(s, 0, |columns|);
            && row.rc == TruncatedPacket && |row.cells| < |columns|
            && LocatesAll(s, row.cells, columns[..|row.cells|])
  {
    CutCells(s, 0, columns, |columns|);
  }

  /** A row of at least one column is never taken for an ERR packet, nor for an EOF packet, which is shorter than 9
      bytes. */
  lemma {:induction false} RowsAreNoTerminators(s: bytes, n: nat)
    requires n > 0 && ParseRow(s, 0, n).rc == Ok
    ensures s != [] && s[0] != PACKET_ERR
    ensures s[0] == PACKET_EOF ==> |s| >= 9
  {
  }

  // ---------------------------------------------------------------- implementation

  /** The columns of the packet in `buff`, as far as they can be read, each as the slice its data pointer and length
      describe. */
  method ParseRowPacket(buff: bytes, columnCount: nat) returns (rc: Rc, values: seq<Cell>)
    ensures Row(rc, values) == ParseRow(buff, 0, columnCount)
  {
    var reader := new Reader(buff);
    ghost var whole := ParseRow(buff, 0, columnCount);
    ghost var left: nat, tail := columnCount, whole;
    values := [];
    var i := 0;
    while i < columnCount
      invariant i + left == columnCount && reader.Valid() && reader.buff == buff && fresh(reader)
      invariant tail == ParseRow(buff, reader.pos, left)
      invariant whole.rc == tail.rc && whole.cells == values + tail.cells
    {
      ghost var p := reader.pos;
      var got, data := reader.GetLenencBuffer();
      if got != Ok && got != NullValue {
        return got, values;
      }
      RowStep(buff, p, left);
      left := left - 1;
      tail := ParseRow(buff, reader.pos, left);
      var cell := if got == Ok then Some(data) else None;
      AppendFirst(values, cell, tail.cells);
      values := values + [cell];
      i := i + 1;
    }
    rc := reader.Finish();
  }
}
