/** The execute packet: `trilogy_build_stmt_execute_packet` of src/protocol.c, and what a server makes of it. */
module StmtExecutes {
  import opened Bytes
  import opened Framing
  import opened Builders
  import opened Readers
  import opened Layouts
  import opened BinaryValues
  import opened Bitmaps
  import opened StmtRows

  const CMD_STMT_EXECUTE: byte := 0x17

  // ---------------------------------------------------------------- specification

  /** A bind; the member of its value union is the one its type selects. */
  type Bind = BinaryValue<bytes>

  predicate BindFits(b: Bind) {
    FitsArm(ArmOf(b.kind), b.datum)
  }

  predicate BindsFit(binds: seq<Bind>) {
    forall k | 0 <= k < |binds| :: BindFits(binds[k])
  }

  function NullMarks(binds: seq<Bind>): (flags: seq<bool>)
    ensures |flags| == |binds|
  {
    seq(|binds|, k requires 0 <= k < |binds| => binds[k].isNull)
  }

  function TypePair(b: Bind): (s: bytes)
    ensures |s| == 2
  {
    [b.kind, if b.isUnsigned then 0x80 else 0x00]
  }

  /** The types of the binds from `i` on. */
  function TypePairs(binds: seq<Bind>, i: nat): bytes
    requires i <= |binds|
    decreases |binds| - i
  {
    if i == |binds| then [] else TypePair(binds[i]) + TypePairs(binds, i + 1)
  }

  /** The values of the binds from `i` on, up to the first one of an unknown type. A bind marked NULL still has its
      value written, unless its type is NULL. */
  function ValueBytes(binds: seq<Bind>, i: nat): bytes
    requires i <= |binds| && BindsFit(binds)
    decreases |binds| - i
  {
    if i == |binds| || ArmOf(binds[i].kind).Unknown? then []
    else EncodeDatum(binds[i].kind, binds[i].datum) + ValueBytes(binds, i + 1)
  }

  /** The command, the statement, the flags, and an iteration count of one. */
  function ExecHead(stmtId: nat, flags: byte): (s: bytes)
    ensures |s| == 10
  {
    [CMD_STMT_EXECUTE] + LE(stmtId, 4) + [flags] + LE(1, 4)
  }

  function BindBytes(binds: seq<Bind>): bytes
    requires BindsFit(binds)
  {
    Bitmap(NullMarks(binds)) + [0x01] + TypePairs(binds, 0) + ValueBytes(binds, 0)
  }

  predicate AllKnown(binds: seq<Bind>, i: nat)
    requires i <= |binds|
    decreases |binds| - i
  {
    i == |binds| || (!ArmOf(binds[i].kind).Unknown? && AllKnown(binds, i + 1))
  }

  /** `binds` is None for a null pointer. */
  function ExecPlan(stmtId: nat, flags: byte, binds: Option<seq<Bind>>, numBinds: nat): Plan
    requires binds.Some? ==> |binds.value| == numBinds && BindsFit(binds.value)
  {
    var head := ExecHead(stmtId, flags);
    if numBinds == 0 then Plan(head, Ok)
    else match binds
         case None => Plan(head, ProtocolViolation)
         case Some(list) => Plan(head + BindBytes(list), if AllKnown(list, 0) then Ok else UnknownType)
  }

  // ---------------------------------------------------------------- byte by byte

  /** The sign byte of a bind. */
  function SignByte(b: Bind): byte {
    if b.isUnsigned then 0x80 else 0x00
  }

  lemma {:induction false} PairByPosition(binds: seq<Bind>, i: nat, k: nat)
    requires i <= k < |binds|
    ensures |TypePairs(binds, i)| == 2 * (|binds| - i)
    ensures TypePairs(binds, i)[2 * (k - i)] == binds[k].kind
    ensures TypePairs(binds, i)[2 * (k - i) + 1] == SignByte(binds[k])
    decreases |binds| - i
  {
    TypePairsLength(binds, i);
    if i < k {
      PairByPosition(binds, i + 1, k);
    }
  }

  lemma {:induction false} TypePairsLength(binds: seq<Bind>, i: nat)
    requires i <= |binds|
    ensures |TypePairs(binds, i)| == 2 * (|binds| - i)
    decreases |binds| - i
  {
    if i < |binds| {
      TypePairsLength(binds, i + 1);
    }
  }

  /** The ten bytes in front of the binds. */
  lemma {:induction false} HeadByPosition(stmtId: nat, flags: byte)
    ensures var s := ExecHead(stmtId, flags);
            && s[0] == 0x17 && s[1..5] == LE(stmtId, 4) && s[5] == flags && s[6..10] == [1, 0, 0, 0]
  {
    LEUnrolled(1);
    ShrOfSmall(1, 8);
    ShrOfSmall(1, 16);
    ShrOfSmall(1, 24);
  }

  lemma {:induction false} ShrOfSmall(v: nat, k: nat)
    requires v < 256 && k >= 8
    ensures Shr(v, k) == 0
  {
    ShrTwice(v, 8, k - 8);
    ShiftByte(v);
    ShrZero(k - 8);
  }

  /** An execute packet by position: command, statement, flags and iteration count; behind the null bitmap the bound
      flag; and behind the types the values. */
  lemma {:induction false} ExecByPosition(stmtId: nat, flags: byte, binds: seq<Bind>)
    requires BindsFit(binds) && binds != []
    ensures var n, s := |binds|, ExecPlan(stmtId, flags, Some(binds), |binds|).bytes;
            var types := 11 + (n + 7) / 8;
            && types + 2 * n <= |s|
            && s[0] == 0x17 && s[1..5] == LE(stmtId, 4) && s[5] == flags && s[6..10] == [1, 0, 0, 0]
            && s[types - 1] == 1 && s[types + 2 * n..] == ValueBytes(binds, 0)
  {
    var n, s := |binds|, ExecHead(stmtId, flags) + BindBytes(binds);
    HeadByPosition(stmtId, flags);
    ExecParts(stmtId, flags, binds);
    HeadStands(s, ExecHead(stmtId, flags));
    FlagStands(s, 10 + (n + 7) / 8);
  }

  lemma {:induction false} FlagStands(s: bytes, at: nat)
    requires At(s, at, [0x01])
    ensures s[at] == 1
  {
    assert s[at] == s[at..at + 1][0];
  }

  /** The null bitmap of an execute packet by position: one bit per bind, and zeros behind the last one. */
  lemma {:induction false} MarksByPosition(stmtId: nat, flags: byte, binds: seq<Bind>, i: nat)
    requires BindsFit(binds) && i / 8 < (|binds| + 7) / 8
    ensures var s := ExecPlan(stmtId, flags, Some(binds), |binds|).bytes;
            10 + i / 8 < |s| && (Bit(s[10 + i / 8], i % 8) <==> i < |binds| && binds[i].isNull)
  {
    ExecParts(stmtId, flags, binds);
    MarkStands(ExecHead(stmtId, flags) + BindBytes(binds), NullMarks(binds), i);
  }

  /** The types of an execute packet by position: two bytes per bind, its type and its sign. */
  lemma {:induction false} TypesByPosition(stmtId: nat, flags: byte, binds: seq<Bind>, k: nat)
    requires BindsFit(binds) && k < |binds|
    ensures var s, types := ExecPlan(stmtId, flags, Some(binds), |binds|).bytes, 11 + (|binds| + 7) / 8;
            && types + 2 * k + 1 < |s|
            && s[types + 2 * k] == binds[k].kind
            && s[types + 2 * k + 1] == if binds[k].isUnsigned then 0x80 else 0x00
  {
    ExecParts(stmtId, flags, binds);
    PairStands(ExecHead(stmtId, flags) + BindBytes(binds), 11 + (|binds| + 7) / 8, binds, k);
  }

  lemma {:induction false} MarkStands(s: bytes, flags: seq<bool>, i: nat)
    requires At(s, 10, Bitmap(flags)) && i / 8 < (|flags| + 7) / 8
    ensures Bit(s[10 + i / 8], i % 8) <==> i < |flags| && flags[i]
  {
    var bits := Bitmap(flags);
    BitmapBit(flags, i);
    assert s[10..10 + |bits|][i / 8] == s[10 + i / 8];
  }

  lemma {:induction false} PairStands(s: bytes, types: nat, binds: seq<Bind>, k: nat)
    requires At(s, types, TypePairs(binds, 0)) && k < |binds|
    ensures types + 2 * k + 1 < |s| && s[types + 2 * k] == binds[k].kind
    ensures s[types + 2 * k + 1] == SignByte(binds[k])
  {
    var pairs := TypePairs(binds, 0);
    PairByPosition(binds, 0, k);
    assert s[types..types + |pairs|][2 * k] == s[types + 2 * k];
    assert s[types..types + |pairs|][2 * k + 1] == s[types + 2 * k + 1];
  }

  lemma {:induction false} HeadStands(s: bytes, head: bytes)
    requires |head| == 10 && At(s, 0, head)
    ensures s[0] == head[0] && s[1..5] == head[1..5] && s[5] == head[5] && s[6..10] == head[6..10]
  {
    assert s[0..10] == head;
    assert s[1..5] == s[0..10][1..5] && s[6..10] == s[0..10][6..10];
  }

  /** How many bytes the values of the first `k` binds take. */
  function ValueAt(binds: seq<Bind>, k: nat): nat
    requires k <= |binds| && BindsFit(binds)
    decreases k
  {
    if k == 0 then 0 else ValueAt(binds, k - 1) + |EncodeDatum(binds[k - 1].kind, binds[k - 1].datum)|
  }

  predicate KnownUpTo(binds: seq<Bind>, k: nat)
    requires k <= |binds|
    decreases k
  {
    k == 0 || (KnownUpTo(binds, k - 1) && !ArmOf(binds[k - 1].kind).Unknown?)
  }

  /** The value of bind `k` stands behind those of the binds in front of it, if none of these is of an unknown type,
      whether it is marked NULL or not. */
  lemma {:induction false} ValueByPosition(binds: seq<Bind>, k: nat)
    requires k < |binds| && BindsFit(binds) && KnownUpTo(binds, k + 1)
    ensures At(ValueBytes(binds, 0), ValueAt(binds, k), EncodeDatum(binds[k].kind, binds[k].datum))
  {
    TailAt(binds, k);
    NextValue(binds, k, ValueBytes(binds, 0));
  }

  predicate TailStands(binds: seq<Bind>, k: nat, all: bytes)
    requires BindsFit(binds) && k <= |binds|
  {
    At(all, ValueAt(binds, k), ValueBytes(binds, k))
  }

  lemma {:induction false} TailAt(binds: seq<Bind>, k: nat)
    requires k <= |binds| && BindsFit(binds) && KnownUpTo(binds, k)
    ensures TailStands(binds, k, ValueBytes(binds, 0))
    decreases k
  {
    if k == 0 {
      AtWhole(ValueBytes(binds, 0));
    } else {
      TailAt(binds, k - 1);
      NextValue(binds, k - 1, ValueBytes(binds, 0));
    }
  }

  lemma {:induction false} NextValue(binds: seq<Bind>, k: nat, all: bytes)
    requires BindsFit(binds) && k < |binds| && !ArmOf(binds[k].kind).Unknown? && TailStands(binds, k, all)
    ensures At(all, ValueAt(binds, k), EncodeDatum(binds[k].kind, binds[k].datum)) && TailStands(binds, k + 1, all)
  {
    AtSplit(all, ValueAt(binds, k), EncodeDatum(binds[k].kind, binds[k].datum), ValueBytes(binds, k + 1));
  }

  /** The type codes neither side knows. */
  predicate UnknownCode(kind: byte) {
    kind in {0x0e, 0xf3, 0xf4} || 0x11 <= kind <= 0xf1
  }

  lemma {:induction false} KnownIff(binds: seq<Bind>, i: nat)
    requires i <= |binds|
    ensures AllKnown(binds, i) <==> forall k | i <= k < |binds| :: !UnknownCode(binds[k].kind)
    decreases |binds| - i
  {
    if i < |binds| {
      TypeRanges(binds[i].kind, NoDatum);
      KnownIff(binds, i + 1);
    }
  }

  /** The code an execute packet is built with, unless it is too long: a null pointer for binds, a bind of an unknown
      type, or success. */
  lemma {:induction false} ExecCodes(stmtId: nat, flags: byte, binds: Option<seq<Bind>>, numBinds: nat)
    requires binds.Some? ==> |binds.value| == numBinds && BindsFit(binds.value)
    ensures ExecPlan(stmtId, flags, binds, numBinds).code ==
            if numBinds > 0 && binds.None? then ProtocolViolation
            else if numBinds > 0 && exists k :: 0 <= k < numBinds && UnknownCode(binds.value[k].kind) then UnknownType
            else Ok
    ensures numBinds == 0 ==> ExecPlan(stmtId, flags, binds, numBinds).bytes == ExecHead(stmtId, flags)
  {
    if binds.Some? {
      KnownIff(binds.value, 0);
    }
  }

  // ---------------------------------------------------------------- the server's side

  /** The statement, and the binds: their declared types, and their values as a binary row has them. */
  datatype Exec = Exec(stmtId: nat, flags: byte, columns: seq<Column>, values: seq<BinaryValue<Slice>>)

  /** Bits `i` to `n` of a map, each at byte `i / 8`, position `i % 8`. */
  function MarksAt(s: bytes, bitmap: nat, i: nat, n: nat): (nulls: seq<bool>)
    requires i <= n && bitmap + (n + 7) / 8 <= |s|
    ensures |nulls| == n - i
    decreases n - i
  {
    if i == n then [] else [Bit(s[bitmap + i / 8], i % 8)] + MarksAt(s, bitmap, i + 1, n)
  }

  /** `n` pairs of a type and a sign flag. */
  function TypesAt(s: bytes, at: nat, n: nat): (columns: seq<Column>)
    requires at + 2 * n <= |s|
    ensures |columns| == n
    decreases n
  {
    if n == 0 then [] else [Column(s[at], s[at + 1] == 0x80)] + TypesAt(s, at + 2, n - 1)
  }

  /** Values nothing has been stored in. */
  function Fresh(n: nat): (prior: seq<BinaryValue<Slice>>)
    ensures |prior| == n
  {
    seq(n, _ => BinaryValue(false, false, TYPE_NULL, NoDatum))
  }

  /** Reads an execute packet for a statement with `n` parameters: the null bitmap, the bound flag, `n` type and sign
      pairs, and the values of the parameters that are not NULL, to the end of the packet. */
  function DecodeExec(s: bytes, n: nat): Option<Exec> {
    if |s| < 10 || s[0] != CMD_STMT_EXECUTE || s[6..10] != LE(1, 4) then None
    else if n == 0 then (if |s| == 10 then Some(Exec(FromLE(s[1..5]), s[5], [], [])) else None)
    else
      var types := 10 + (n + 7) / 8 + 1;
      if |s| < types + 2 * n || s[types - 1] != 0x01 then None
      else
        var columns := TypesAt(s, types, n);
        var row := ParseValues(s, MarksAt(s, 10, 0, n), columns, Fresh(n), 0, types + 2 * n);
        if row.rc == Ok then Some(Exec(FromLE(s[1..5]), s[5], columns, row.values)) else None
  }

  function ColumnOf(b: Bind): Column {
    Column(b.kind, b.isUnsigned)
  }

  function ColumnsOf(binds: seq<Bind>): (columns: seq<Column>)
    ensures |columns| == |binds|
  {
    seq(|binds|, k requires 0 <= k < |binds| => ColumnOf(binds[k]))
  }

  /** A bind as a cell of a binary row. */
  function CellOf(b: Bind): Option<Datum<bytes>> {
    if b.isNull then None else Some(b.datum)
  }

  function CellsOf(binds: seq<Bind>): (cells: seq<Option<Datum<bytes>>>)
    ensures |cells| == |binds|
  {
    seq(|binds|, k requires 0 <= k < |binds| => CellOf(binds[k]))
  }

  /** The bind list, recovered: the types and sign flags as declared, the NULLs, and every other value but for
      midnights. */
  predicate Recovers(s: bytes, exec: Option<Exec>, stmtId: nat, flags: byte, binds: seq<Bind>) {
    && exec.Some? && exec.value.stmtId == stmtId && exec.value.flags == flags
    && exec.value.columns == ColumnsOf(binds)
    && ReadBackFrom(s, exec.value.values, Fresh(|binds|), ColumnsOf(binds), CellsOf(binds), 0)
  }

  // ---------------------------------------------------------------- decodability

  lemma {:induction false} TypeIsRead(s: bytes, at: nat, b: Bind)
    requires At(s, at, TypePair(b))
    ensures Column(s[at], s[at + 1] == 0x80) == ColumnOf(b)
  {
    var pair := s[at..at + 2];
    assert s[at] == pair[0] && s[at + 1] == pair[1];
  }

  lemma {:induction false} TypesAreRead(s: bytes, at: nat, binds: seq<Bind>, i: nat, n: nat)
    requires i + n == |binds| && At(s, at, TypePairs(binds, i))
    ensures at + 2 * n <= |s| && TypesAt(s, at, n) == ColumnsOf(binds)[i..]
    decreases n
  {
    TypePairsLength(binds, i);
    if n > 0 {
      AtSplit(s, at, TypePair(binds[i]), TypePairs(binds, i + 1));
      TypeIsRead(s, at, binds[i]);
      TypesAreRead(s, at + 2, binds, i + 1, n - 1);
      assert ColumnsOf(binds)[i..] == [ColumnOf(binds[i])] + ColumnsOf(binds)[i + 1..];
    }
  }

  lemma {:induction false} MarkIsRead(s: bytes, at: nat, flags: seq<bool>, bits: bytes, k: nat)
    requires bits == Bitmap(flags) && At(s, at, bits) && k < |flags|
    ensures Bit(s[at + k / 8], k % 8) == flags[k]
  {
    BitmapBit(flags, k);
    assert s[at..at + |bits|][k / 8] == s[at + k / 8];
  }

  lemma {:induction false} MarksAreRead(s: bytes, at: nat, flags: seq<bool>, i: nat)
    requires At(s, at, Bitmap(flags)) && i <= |flags|
    ensures MarksAt(s, at, i, |flags|) == flags[i..]
    decreases |flags| - i
  {
    if i < |flags| {
      MarkIsRead(s, at, flags, Bitmap(flags), i);
      MarksAreRead(s, at, flags, i + 1);
      assert flags[i..] == [flags[i]] + flags[i + 1..];
    }
  }

  /** Where the parts of an execute packet with binds are. */
  lemma {:induction false} ExecParts(stmtId: nat, flags: byte, binds: seq<Bind>)
    requires BindsFit(binds) && binds != []
    ensures var n, s := |binds|, ExecHead(stmtId, flags) + BindBytes(binds);
            var types := 10 + (n + 7) / 8 + 1;
            && At(s, 0, ExecHead(stmtId, flags)) && At(s, 10, Bitmap(NullMarks(binds))) && At(s, types - 1, [0x01])
            && At(s, types, TypePairs(binds, 0)) && At(s, types + 2 * n, ValueBytes(binds, 0))
            && |s| == types + 2 * n + |ValueBytes(binds, 0)|
  {
    var head, bits := ExecHead(stmtId, flags), Bitmap(NullMarks(binds));
    var types, values := TypePairs(binds, 0), ValueBytes(binds, 0);
    TypePairsLength(binds, 0);
    SplitFive(head, bits, [0x01], types, values);
  }

  lemma {:induction false} SplitFive(a: bytes, b: bytes, c: bytes, d: bytes, e: bytes)
    ensures var s := a + (b + c + d + e);
            && At(s, 0, a) && At(s, |a|, b) && At(s, |a| + |b|, c) && At(s, |a| + |b| + |c|, d)
            && At(s, |a| + |b| + |c| + |d|, e) && |s| == |a| + |b| + |c| + |d| + |e|
  {
    var s := a + (b + c + d + e);
    AtWhole(s);
    AtSplit(s, 0, a, b + c + d + e);
    AtSplit(s, |a|, b + c + d, e);
    AtSplit(s, |a|, b + c, d);
    AtSplit(s, |a|, b, c);
  }

  lemma {:induction false} HeadIsRead(s: bytes, stmtId: nat, flags: byte)
    requires stmtId < Pow256(4) && At(s, 0, ExecHead(stmtId, flags))
    ensures |s| >= 10 && s[0] == CMD_STMT_EXECUTE && FromLE(s[1..5]) == stmtId && s[5] == flags && s[6..10] == LE(1, 4)
  {
    var a, b, c, d: bytes := [CMD_STMT_EXECUTE], LE(stmtId, 4), [flags], LE(1, 4);
    AtSplit(s, 0, a + b + c, d);
    AtSplit(s, 0, a + b, c);
    AtSplit(s, 0, a, b);
    FromLEOfLE(stmtId, 4);
    assert s[0] == s[0..1][0] && s[5] == s[5..6][0];
  }

  /** A bind is marked NULL exactly when its type is NULL, and its type is known. */
  predicate Consistent(b: Bind) {
    !ArmOf(b.kind).Unknown? && (b.isNull <==> b.kind == TYPE_NULL)
  }

  predicate AllConsistent(binds: seq<Bind>) {
    forall k | 0 <= k < |binds| :: Consistent(binds[k])
  }

  lemma {:induction false} ConsistentCell(b: Bind)
    requires BindFits(b) && Consistent(b)
    ensures CellFits(ColumnOf(b), CellOf(b)) && EncodeCell(ColumnOf(b), CellOf(b)) == EncodeDatum(b.kind, b.datum)
  {
  }

  lemma {:induction false} ConsistentRow(binds: seq<Bind>)
    requires BindsFit(binds) && AllConsistent(binds)
    ensures RowFits(ColumnsOf(binds), CellsOf(binds))
  {
    forall k | 0 <= k < |binds|
      ensures CellFits(ColumnsOf(binds)[k], CellsOf(binds)[k])
    {
      ConsistentCell(binds[k]);
    }
  }

  /** The values of consistent binds are those of a binary row. */
  lemma {:induction false} ConsistentValues(binds: seq<Bind>, i: nat)
    requires i <= |binds| && BindsFit(binds) && AllConsistent(binds) && RowFits(ColumnsOf(binds), CellsOf(binds))
    ensures ValueBytes(binds, i) == EncodeValues(ColumnsOf(binds), CellsOf(binds), i)
    decreases |binds| - i
  {
    if i < |binds| {
      ConsistentCell(binds[i]);
      ConsistentValues(binds, i + 1);
    }
  }

  /** The values parse back, where the rest of the packet has been read. */
  lemma {:induction false} ValuesAreRead(s: bytes, binds: seq<Bind>, p: nat)
    requires BindsFit(binds) && AllConsistent(binds)
    requires At(s, p, ValueBytes(binds, 0)) && p + |ValueBytes(binds, 0)| == |s|
    ensures var row := ParseValues(s, NullMarks(binds), ColumnsOf(binds), Fresh(|binds|), 0, p);
            row.rc == Ok && ReadBackFrom(s, row.values, Fresh(|binds|), ColumnsOf(binds), CellsOf(binds), 0)
  {
    ConsistentRow(binds);
    ConsistentValues(binds, 0);
    ValuesRoundTrip(s, Table(NullMarks(binds), ColumnsOf(binds), Fresh(|binds|), CellsOf(binds)), 0, p);
  }

  /** What the decoder does with a packet the builder finished: everything in front of the values, which start at `p`,
      is recovered. */
  lemma {:induction false} DecodeReachesValues(s: bytes, p: nat, stmtId: nat, flags: byte, binds: seq<Bind>)
    requires stmtId < Pow256(4) && BindsFit(binds) && binds != []
    requires s == ExecHead(stmtId, flags) + BindBytes(binds)
    requires p == 10 + (|binds| + 7) / 8 + 1 + 2 * |binds|
    ensures At(s, p, ValueBytes(binds, 0)) && p + |ValueBytes(binds, 0)| == |s|
    ensures var row := ParseValues(s, NullMarks(binds), ColumnsOf(binds), Fresh(|binds|), 0, p);
            DecodeExec(s, |binds|) ==
            if row.rc == Ok then Some(Exec(stmtId, flags, ColumnsOf(binds), row.values)) else None
  {
    var types := 10 + (|binds| + 7) / 8 + 1;
    ExecParts(stmtId, flags, binds);
    HeadIsRead(s, stmtId, flags);
    MarksAreRead(s, 10, NullMarks(binds), 0);
    TypesAreRead(s, types, binds, 0, |binds|);
    assert ColumnsOf(binds)[0..] == ColumnsOf(binds) && NullMarks(binds)[0..] == NullMarks(binds);
    assert s[types - 1] == s[types - 1..types][0];
  }

  lemma {:induction false} BindsAreRecovered(s: bytes, p: nat, stmtId: nat, flags: byte, binds: seq<Bind>)
    requires stmtId < Pow256(4) && BindsFit(binds) && AllConsistent(binds) && binds != []
    requires s == ExecHead(stmtId, flags) + BindBytes(binds)
    requires p == 10 + (|binds| + 7) / 8 + 1 + 2 * |binds|
    ensures Recovers(s, DecodeExec(s, |binds|), stmtId, flags, binds)
  {
    DecodeReachesValues(s, p, stmtId, flags, binds);
    ValuesAreRead(s, binds, p);
  }

  lemma {:induction false} ConsistentIsKnown(binds: seq<Bind>, i: nat)
    requires i <= |binds| && AllConsistent(binds)
    ensures AllKnown(binds, i)
    decreases |binds| - i
  {
    if i < |binds| {
      ConsistentIsKnown(binds, i + 1);
    }
  }

  lemma {:induction false} KnownAt(binds: seq<Bind>, i: nat, k: nat)
    requires i <= k < |binds| && AllKnown(binds, i)
    ensures !ArmOf(binds[k].kind).Unknown?
    decreases k - i
  {
    if i < k {
      KnownAt(binds, i + 1, k);
    }
  }

  /** Any number of binds, each marked NULL exactly when its type is NULL: the packet decodes to the bind list. */
  lemma {:induction false} ExecRoundTrip(stmtId: nat, flags: byte, binds: seq<Bind>)
    requires stmtId < Pow256(4) && BindsFit(binds) && AllConsistent(binds)
    ensures var plan := ExecPlan(stmtId, flags, Some(binds), |binds|);
            plan.code == Ok && Recovers(plan.bytes, DecodeExec(plan.bytes, |binds|), stmtId, flags, binds)
  {
    ConsistentIsKnown(binds, 0);
    if binds == [] {
      AtWhole(ExecHead(stmtId, flags));
      HeadIsRead(ExecHead(stmtId, flags), stmtId, flags);
      assert ColumnsOf(binds) == [];
    } else {
      var s := ExecHead(stmtId, flags) + BindBytes(binds);
      BindsAreRecovered(s, 10 + (|binds| + 7) / 8 + 1 + 2 * |binds|, stmtId, flags, binds);
    }
  }

  // ---------------------------------------------------------------- exactly the consistent shapes decode

  /** Everything of a bind but its value. */
  predicate SameShape(a: Bind, b: Bind) {
    a.isNull == b.isNull && a.isUnsigned == b.isUnsigned && a.kind == b.kind
  }

  predicate SameShapes(xs: seq<Bind>, ys: seq<Bind>) {
    |xs| == |ys| && forall k | 0 <= k < |xs| :: SameShape(xs[k], ys[k])
  }

  /** The zero of every type: its encoding is zero bytes. */
  function Zero(kind: byte): (d: Datum<bytes>) {
    match ArmOf(kind)
    case Numeric(_) => Integer(0)
    case Clock => Time(false, 0, 0, 0, 0, 0)
    case Calendar => Date(0, 0, 0, 0, 0, 0, 0)
    case Textual => Str([])
    case Nothing => NoDatum
    case Unknown => NoDatum
  }

  /** How many bytes the zero of a type takes. */
  function ZeroWidth(kind: byte): nat {
    match ArmOf(kind)
    case Numeric(w) => w
    case Nothing => 0
    case Unknown => 0
    case _ => 1
  }

  predicate AllZero(s: bytes) {
    forall k | 0 <= k < |s| :: s[k] == 0
  }

  lemma {:induction false} LEOfZero(n: nat)
    ensures AllZero(LE(0, n))
  {
    if n > 0 {
      LEOfZero(n - 1);
    }
  }

  lemma {:induction false} ZeroEncodes(kind: byte)
    ensures FitsArm(ArmOf(kind), Zero(kind))
    ensures AllZero(EncodeDatum(kind, Zero(kind))) && |EncodeDatum(kind, Zero(kind))| == ZeroWidth(kind)
  {
    match ArmOf(kind)
    case Numeric(w) => LEOfZero(w);
    case _ =>
  }

  function Zeroed(binds: seq<Bind>): (zeros: seq<Bind>)
    ensures |zeros| == |binds|
  {
    seq(|binds|, k requires 0 <= k < |binds| => binds[k].(datum := Zero(binds[k].kind)))
  }

  lemma {:induction false} ZeroedFit(binds: seq<Bind>)
    ensures BindsFit(Zeroed(binds)) && SameShapes(Zeroed(binds), binds)
    ensures NullMarks(Zeroed(binds)) == NullMarks(binds) && ColumnsOf(Zeroed(binds)) == ColumnsOf(binds)
  {
    forall k | 0 <= k < |binds|
      ensures BindFits(Zeroed(binds)[k])
    {
      ZeroEncodes(binds[k].kind);
    }
  }

  /** The bytes the zero values of the binds from `i` on take. */
  function WriteWidth(binds: seq<Bind>, i: nat): nat
    requires i <= |binds|
    decreases |binds| - i
  {
    if i == |binds| then 0 else ZeroWidth(binds[i].kind) + WriteWidth(binds, i + 1)
  }

  /** The bytes a reader of zeros consumes for them. */
  function ReadWidth(binds: seq<Bind>, i: nat): nat
    requires i <= |binds|
    decreases |binds| - i
  {
    if i == |binds| then 0 else (if binds[i].isNull then 0 else ZeroWidth(binds[i].kind)) + ReadWidth(binds, i + 1)
  }

  lemma {:induction false} ZeroValues(binds: seq<Bind>, i: nat)
    requires i <= |binds| && AllKnown(binds, i) && BindsFit(Zeroed(binds))
    ensures AllZero(ValueBytes(Zeroed(binds), i)) && |ValueBytes(Zeroed(binds), i)| == WriteWidth(binds, i)
    decreases |binds| - i
  {
    if i < |binds| {
      ZeroEncodes(binds[i].kind);
      ZeroValues(binds, i + 1);
    }
  }

  lemma {:induction false} ReadIsNoMore(binds: seq<Bind>, i: nat)
    requires i <= |binds|
    ensures ReadWidth(binds, i) <= WriteWidth(binds, i)
    decreases |binds| - i
  {
    if i < |binds| {
      ReadIsNoMore(binds, i + 1);
    }
  }

  /** A bind marked NULL that has another type leaves bytes over. */
  lemma {:induction false} StrayValue(binds: seq<Bind>, i: nat, k: nat)
    requires i <= k < |binds| && binds[k].isNull && binds[k].kind != TYPE_NULL && !ArmOf(binds[k].kind).Unknown?
    ensures ReadWidth(binds, i) < WriteWidth(binds, i)
    decreases k - i
  {
    if i < k {
      StrayValue(binds, i + 1, k);
    } else {
      ReadIsNoMore(binds, i + 1);
    }
  }

  /** A column read from zeros takes its zero width, or cannot be read. */
  lemma {:induction false} TakeZero(s: bytes, p: nat, kind: byte)
    requires p <= |s| && forall k | p <= k < |s| :: s[k] == 0
    ensures TakeDatum(s, p, kind).Good? ==> TakeDatum(s, p, kind).pos == p + ZeroWidth(kind)
    ensures kind == TYPE_NULL ==> TakeDatum(s, p, kind).Bad?
  {
  }

  /** The code of a row, one column further. */
  function CodeFrom(s: bytes, binds: seq<Bind>, i: nat, p: nat): Rc
    requires i <= |binds| && p <= |s|
  {
    ParseValues(s, NullMarks(binds), ColumnsOf(binds), Fresh(|binds|), i, p).rc
  }

  lemma {:induction false} CodeStep(s: bytes, binds: seq<Bind>, i: nat, p: nat)
    requires i < |binds| && p <= |s|
    ensures var g := TakeDatum(s, p, binds[i].kind);
            CodeFrom(s, binds, i, p) ==
            if binds[i].isNull then CodeFrom(s, binds, i + 1, p)
            else if g.Good? then CodeFrom(s, binds, i + 1, g.pos)
            else g.rc
  {
  }

  /** Reading zeros fails when there are more than the columns take, and when column `k` has type NULL and is not
      marked. */
  lemma {:induction false} ZerosDoNotParse(s: bytes, binds: seq<Bind>, i: nat, p: nat, k: nat)
    requires i <= |binds| && p <= |s| && forall j | p <= j < |s| :: s[j] == 0
    requires |s| - p > ReadWidth(binds, i) || (i <= k < |binds| && !binds[k].isNull && binds[k].kind == TYPE_NULL)
    ensures CodeFrom(s, binds, i, p) != Ok
    decreases |binds| - i
  {
    if i < |binds| {
      TakeZero(s, p, binds[i].kind);
      CodeStep(s, binds, i, p);
      if binds[i].isNull {
        ZerosDoNotParse(s, binds, i + 1, p, k);
      } else if TakeDatum(s, p, binds[i].kind).Good? {
        ZerosDoNotParse(s, binds, i + 1, p + ZeroWidth(binds[i].kind), k);
      }
    }
  }

  lemma {:induction false} ZerosAt(s: bytes, p: nat, d: bytes)
    requires At(s, p, d) && p + |d| == |s| && AllZero(d)
    ensures forall j | p <= j < |s| :: s[j] == 0
  {
    forall j | p <= j < |s|
      ensures s[j] == 0
    {
      assert s[j] == s[p..p + |d|][j - p];
    }
  }

  lemma {:induction false} ZerosAreNotDecoded(s: bytes, p: nat, stmtId: nat, flags: byte, binds: seq<Bind>, k: nat)
    requires stmtId < Pow256(4) && AllKnown(binds, 0) && k < |binds| && !Consistent(binds[k])
    requires BindsFit(Zeroed(binds)) && s == ExecHead(stmtId, flags) + BindBytes(Zeroed(binds))
    requires p == 10 + (|binds| + 7) / 8 + 1 + 2 * |binds|
    ensures DecodeExec(s, |binds|) == None
  {
    KnownAt(binds, 0, k);
    ZeroedFit(binds);
    DecodeReachesValues(s, p, stmtId, flags, Zeroed(binds));
    ZeroValues(binds, 0);
    ZerosAt(s, p, ValueBytes(Zeroed(binds), 0));
    ReadIsNoMore(binds, 0);
    if binds[k].isNull {
      StrayValue(binds, 0, k);
    }
    ZerosDoNotParse(s, binds, 0, p, k);
  }

  /** Decodability, exactly. For binds of known types, every choice of values decodes to the bind list if and only if
      the binds are marked NULL exactly where their type is NULL: elsewhere a bind marked NULL still has its value
      written, and an unmarked bind of type NULL has none. */
  lemma {:induction false} DecodableIffConsistent(stmtId: nat, flags: byte, binds: seq<Bind>)
    requires stmtId < Pow256(4) && AllKnown(binds, 0)
    ensures AllConsistent(binds) <==>
            forall list: seq<Bind> | SameShapes(list, binds) && BindsFit(list) ::
              var s := ExecPlan(stmtId, flags, Some(list), |binds|).bytes;
              Recovers(s, DecodeExec(s, |binds|), stmtId, flags, list)
  {
    if AllConsistent(binds) {
      forall list: seq<Bind> | SameShapes(list, binds) && BindsFit(list)
        ensures var s := ExecPlan(stmtId, flags, Some(list), |binds|).bytes;
                Recovers(s, DecodeExec(s, |binds|), stmtId, flags, list)
      {
        assert forall k | 0 <= k < |list| :: SameShape(list[k], binds[k]) && Consistent(binds[k]);
        ExecRoundTrip(stmtId, flags, list);
      }
    } else {
      ZeroedFit(binds);
      var k :| 0 <= k < |binds| && !Consistent(binds[k]);
      var list := Zeroed(binds);
      var s := ExecHead(stmtId, flags) + BindBytes(list);
      ZerosAreNotDecoded(s, 10 + (|binds| + 7) / 8 + 1 + 2 * |binds|, stmtId, flags, binds, k);
      assert !Recovers(s, DecodeExec(s, |binds|), stmtId, flags, list);
    }
  }

  // ---------------------------------------------------------------- exact recovery

  /** The bind list, recovered to the last bit of every value. */
  predicate RecoversExactly(s: bytes, exec: Option<Exec>, stmtId: nat, flags: byte, binds: seq<Bind>) {
    && Recovers(s, exec, stmtId, flags, binds)
    && forall k | 0 <= k < |binds| && !binds[k].isNull :: Resolve(s, exec.value.values[k].datum) == binds[k].datum
  }

  predicate AllSurvive(binds: seq<Bind>) {
    forall k | 0 <= k < |binds| :: Survives(CellOf(binds[k]))
  }

  /** Consistent binds are recovered exactly if and only if none of them is a midnight with days or a negative sign. */
  lemma {:induction false} ExecComesBackIff(stmtId: nat, flags: byte, binds: seq<Bind>)
    requires stmtId < Pow256(4) && BindsFit(binds) && AllConsistent(binds)
    ensures var s := ExecPlan(stmtId, flags, Some(binds), |binds|).bytes;
            RecoversExactly(s, DecodeExec(s, |binds|), stmtId, flags, binds) <==> AllSurvive(binds)
  {
    ExecRoundTrip(stmtId, flags, binds);
    var s := ExecPlan(stmtId, flags, Some(binds), |binds|).bytes;
    var exec := DecodeExec(s, |binds|).value;
    forall k | 0 <= k < |binds| && !binds[k].isNull
      ensures Resolve(s, exec.values[k].datum) == binds[k].datum <==> Survives(CellOf(binds[k]))
    {
      assert ReadBack(s, exec.values[k - 0], Fresh(|binds|)[k], ColumnsOf(binds)[k], CellsOf(binds)[k]);
      ReturnedIff(binds[k].datum);
    }
  }

  /** Binds of known types, marked NULL exactly where their type is NULL, none of them a TIME. */
  predicate Lossless(binds: seq<Bind>) {
    AllConsistent(binds) && forall k | 0 <= k < |binds| :: !ArmOf(binds[k].kind).Clock?
  }

  /** A TIME of one day and no hours. */
  function WithMidnight(binds: seq<Bind>, k: nat): (list: seq<Bind>)
    requires k < |binds|
  {
    Zeroed(binds)[k := binds[k].(datum := Time(false, 1, 0, 0, 0, 0))]
  }

  lemma {:induction false} MidnightFits(binds: seq<Bind>, k: nat)
    requires k < |binds| && ArmOf(binds[k].kind).Clock? && AllConsistent(binds)
    ensures var list := WithMidnight(binds, k);
            BindsFit(list) && SameShapes(list, binds) && AllConsistent(list) && !AllSurvive(list)
  {
    ZeroedFit(binds);
    var list := WithMidnight(binds, k);
    forall j | 0 <= j < |list|
      ensures BindFits(list[j]) && SameShape(list[j], binds[j]) && Consistent(list[j])
    {
      assert BindFits(Zeroed(binds)[j]) && Consistent(binds[j]);
    }
    assert !Survives(CellOf(list[k]));
  }

  /** Exact decodability. For binds of known types, every choice of values is recovered to the last bit if and only if
      the binds are marked NULL exactly where their type is NULL, and none of them is a TIME. */
  lemma {:induction false} ExactlyDecodableIff(stmtId: nat, flags: byte, binds: seq<Bind>)
    requires stmtId < Pow256(4) && AllKnown(binds, 0)
    ensures Lossless(binds) <==>
            forall list: seq<Bind> | SameShapes(list, binds) && BindsFit(list) ::
              var s := ExecPlan(stmtId, flags, Some(list), |binds|).bytes;
              RecoversExactly(s, DecodeExec(s, |binds|), stmtId, flags, list)
  {
    if Lossless(binds) {
      forall list: seq<Bind> | SameShapes(list, binds) && BindsFit(list)
        ensures var s := ExecPlan(stmtId, flags, Some(list), |binds|).bytes;
                RecoversExactly(s, DecodeExec(s, |binds|), stmtId, flags, list)
      {
        LosslessShape(list, binds);
        ExecComesBackIff(stmtId, flags, list);
      }
    } else if AllConsistent(binds) {
      var k :| 0 <= k < |binds| && ArmOf(binds[k].kind).Clock?;
      MidnightFits(binds, k);
      var list := WithMidnight(binds, k);
      ExecComesBackIff(stmtId, flags, list);
      var s := ExecPlan(stmtId, flags, Some(list), |binds|).bytes;
      assert !RecoversExactly(s, DecodeExec(s, |binds|), stmtId, flags, list);
    } else {
      DecodableIffConsistent(stmtId, flags, binds);
    }
  }

  lemma {:induction false} LosslessShape(list: seq<Bind>, binds: seq<Bind>)
    requires SameShapes(list, binds) && BindsFit(list) && Lossless(binds)
    ensures AllConsistent(list) && AllSurvive(list)
  {
    forall k | 0 <= k < |list|
      ensures Consistent(list[k]) && Survives(CellOf(list[k]))
    {
      assert SameShape(list[k], binds[k]) && Consistent(binds[k]) && BindFits(list[k]);
    }
  }

  // ---------------------------------------------------------------- implementation

  /** The bits of every eight binds, and the bits that are left. */
  method WriteWholeBytes(builder: Builder, binds: seq<Bind>)
    returns (rc: Rc, currentBits: nat, ghost done: seq<bool>, ghost group: seq<bool>)
    requires builder.Valid()
    modifies builder, builder.buffer
    ensures builder.Wrote(Bitmap(done), rc) && |done + group| <= |binds|
    ensures rc == Ok ==>
              && Collected(NullMarks(binds), |binds|, done, group)
              && |group| == |binds| % 8 && currentBits == Bits(group)
  {
    ghost var p, flags := builder.payload, NullMarks(binds);
    done, group := [], [];
    currentBits := 0;
    var i := 0;
    rc := Ok;
    assert p + Bitmap(done) == p;
    while rc == Ok && i < |binds|
      invariant i <= |binds| && |group| == i % 8 && Collected(flags, i, done, group) && currentBits == Bits(group)
      invariant builder.Wrote(Bitmap(done), rc)
      decreases rc == Ok, |binds| - i
    {
      CollectBit(flags, i, done, group);
      NextPosition(i);
      group := group + [flags[i]];
      if binds[i].isNull {
        currentBits := SetBit(currentBits, i % 8);
      }
      GroupByte(p, flags, i + 1, done, group);
      if i % 8 == 7 {
        rc := builder.WriteUint8(currentBits);
        currentBits := 0;
        done, group := done + group, [];
      }
      i := i + 1;
    }
    assert |done + group| == i;
  }

  /** The null bitmap: the bits of up to eight binds are collected, and written at every eighth and at the end. */
  method WriteNullBitmap(builder: Builder, binds: seq<Bind>) returns (rc: Rc)
    requires builder.Valid()
    modifies builder, builder.buffer
    ensures builder.Wrote(Bitmap(NullMarks(binds)), rc)
  {
    ghost var p, flags := builder.payload, NullMarks(binds);
    ghost var done, group;
    var currentBits: nat;
    rc, currentBits, done, group := WriteWholeBytes(builder, binds);
    if rc == Ok && |binds| % 8 != 0 {
      GroupByte(p, flags, |binds|, done, group);
      rc := builder.WriteUint8(currentBits);
    }
    if rc == Ok {
      AllCollected(flags, done, group);
    }
  }

  /** The first `i` flags: whole groups of eight, and the group being collected. */
  ghost predicate Collected(flags: seq<bool>, i: nat, done: seq<bool>, group: seq<bool>) {
    i <= |flags| && flags[..i] == done + group && |done| % 8 == 0 && |group| <= 8
  }

  lemma {:induction false} CollectBit(flags: seq<bool>, i: nat, done: seq<bool>, group: seq<bool>)
    requires i < |flags| && Collected(flags, i, done, group) && |group| < 8
    ensures Collected(flags, i + 1, done, group + [flags[i]])
    ensures Bits(group + [flags[i]]) == if flags[i] then SetBit(Bits(group), |group|) else Bits(group)
  {
    NextFlag(flags, i, done, group);
    SetBitSnoc(group);
  }

  lemma {:induction false} NextFlag(flags: seq<bool>, i: nat, done: seq<bool>, group: seq<bool>)
    requires i < |flags| && flags[..i] == done + group
    ensures flags[..i + 1] == done + (group + [flags[i]])
  {
    assert flags[..i + 1] == flags[..i] + [flags[i]];
  }

  /** A group as a byte of the map; with eight flags it is whole. */
  lemma {:induction false} GroupByte(p: bytes, flags: seq<bool>, i: nat, done: seq<bool>, group: seq<bool>)
    requires Collected(flags, i, done, group) && group != []
    ensures Bits(group) < 256
    ensures p + Bitmap(done) + [Bits(group)] == p + Bitmap(done + group)
    ensures |group| == 8 ==> Collected(flags, i, done + group, [])
  {
    BitmapGroup(done, group);
    BitsBound(group);
    ShiftByte(1);
    ShlMonotone(1, |group|, 8);
    Associate(p, Bitmap(done), ByteOf(group));
    assert done + group == done + group + [];
  }

  lemma {:induction false} NextPosition(i: nat)
    ensures (i + 1) % 8 == if i % 8 == 7 then 0 else i % 8 + 1
  {
  }

  lemma {:induction false} AllCollected(flags: seq<bool>, done: seq<bool>, group: seq<bool>)
    requires Collected(flags, |flags|, done, group)
    ensures done + group == flags && (group == [] ==> done == flags)
  {
  }

  method WriteType(builder: Builder, b: Bind) returns (rc: Rc)
    requires builder.Valid()
    modifies builder, builder.buffer
    ensures builder.Wrote(TypePair(b), rc)
  {
    rc := builder.WriteUint8(b.kind);
    if rc != Ok {
      return;
    }
    :- builder.WriteUint8(if b.isUnsigned then 0x80 else 0x00);
    return Ok;
  }

  method WriteTypes(builder: Builder, binds: seq<Bind>) returns (rc: Rc)
    requires builder.Valid()
    modifies builder, builder.buffer
    ensures builder.Wrote(TypePairs(binds, 0), rc)
  {
    ghost var whole := builder.payload + TypePairs(binds, 0);
    var i := 0;
    while i < |binds|
      invariant i <= |binds|
      invariant builder.Valid() && builder.payload + TypePairs(binds, i) == whole
      invariant builder.buffer.refusals == old(builder.buffer.refusals)
      invariant builder.packetMaxLength == old(builder.packetMaxLength)
      invariant i > 0 && builder.packetMaxLength > 0 ==> |builder.payload| < builder.packetMaxLength
    {
      Associate(builder.payload, TypePair(binds[i]), TypePairs(binds, i + 1));
      :- WriteType(builder, binds[i]);
      i := i + 1;
    }
    return Ok;
  }

  /** The fields behind a length byte, which are all integers. */
  method WriteFields(builder: Builder, fields: seq<Field>, values: seq<Value>) returns (rc: Rc)
    requires builder.Valid() && FitAll(fields, values) && forall k | 0 <= k < |fields| :: fields[k].Fixed?
    modifies builder, builder.buffer
    ensures builder.Wrote(Encode(fields, values), rc)
  {
    ghost var tail, whole := Encode(fields, values), builder.payload + Encode(fields, values);
    ghost var len := |builder.payload|;
    assert fields[0..] == fields && values[0..] == values;
    var i := 0;
    while i < |fields|
      invariant i <= |fields| && FitAll(fields[i..], values[i..]) && tail == Encode(fields[i..], values[i..])
      invariant builder.Valid() && builder.payload + tail == whole
      invariant builder.buffer.refusals == old(builder.buffer.refusals)
      invariant builder.packetMaxLength == old(builder.packetMaxLength)
      invariant |builder.payload| > len && builder.packetMaxLength > 0 ==> |builder.payload| < builder.packetMaxLength
    {
      EncodeStep(fields[i..], values[i..]);
      assert fields[i..][1..] == fields[i + 1..] && values[i..][1..] == values[i + 1..];
      tail := Encode(fields[i + 1..], values[i + 1..]);
      Associate(builder.payload, LE(values[i].v, fields[i].n), tail);
      :- builder.WriteLE(values[i].v, fields[i].n);
      i := i + 1;
    }
    return Ok;
  }

  /** A length byte and the fields behind it. */
  method WriteMeasured(builder: Builder, len: byte, fields: seq<Field>, values: seq<Value>) returns (rc: Rc)
    requires builder.Valid() && FitAll(fields, values) && forall k | 0 <= k < |fields| :: fields[k].Fixed?
    modifies builder, builder.buffer
    ensures builder.Wrote([len] + Encode(fields, values), rc)
  {
    Associate(builder.payload, [len], Encode(fields, values));
    rc := builder.WriteUint8(len);
    if rc == Ok {
      rc := WriteFields(builder, fields, values);
    }
  }

  method WriteClock(builder: Builder, d: Datum<bytes>) returns (rc: Rc)
    requires builder.Valid() && FitsArm(Clock, d)
    modifies builder, builder.buffer
    ensures FitAll(ClockFields(ClockLength(d)), ClockValues(d))
    ensures builder.Wrote([ClockLength(d)] + Encode(ClockFields(ClockLength(d)), ClockValues(d)), rc)
  {
    ClockFits(d);
    var fieldLen := 0;
    if d.micros != 0 {
      fieldLen := 12;
    } else if d.hour != 0 || d.minute != 0 || d.second != 0 {
      fieldLen := 8;
    }
    rc := WriteMeasured(builder, fieldLen, ClockFields(fieldLen), ClockValues(d));
  }

  method WriteCalendar(builder: Builder, d: Datum<bytes>) returns (rc: Rc)
    requires builder.Valid() && FitsArm(Calendar, d)
    modifies builder, builder.buffer
    ensures FitAll(CalendarFields(CalendarLength(d)), CalendarValues(d))
    ensures builder.Wrote([CalendarLength(d)] + Encode(CalendarFields(CalendarLength(d)), CalendarValues(d)), rc)
  {
    CalendarFits(d);
    var fieldLen := 0;
    if d.micros != 0 {
      fieldLen := 11;
    } else if d.hour != 0 || d.minute != 0 || d.second != 0 {
      fieldLen := 7;
    } else if d.year != 0 || d.month != 0 || d.day != 0 {
      fieldLen := 4;
    }
    rc := WriteMeasured(builder, fieldLen, CalendarFields(fieldLen), CalendarValues(d));
  }

  method WriteDatum(builder: Builder, kind: byte, d: Datum<bytes>) returns (rc: Rc)
    requires builder.Valid() && FitsArm(ArmOf(kind), d) && !ArmOf(kind).Unknown?
    modifies builder, builder.buffer
    ensures builder.Wrote(EncodeDatum(kind, d), rc)
  {
    rc := Ok;
    match ArmOf(kind)
    case Numeric(w) =>
      rc := builder.WriteLE(d.n, w);
    case Clock =>
      rc := WriteClock(builder, d);
    case Calendar =>
      rc := WriteCalendar(builder, d);
    case Textual =>
      rc := builder.WriteLenencBuffer(d.text);
    case Nothing =>
  }

  function ValuesPlan(binds: seq<Bind>): Plan
    requires BindsFit(binds)
  {
    Plan(ValueBytes(binds, 0), if AllKnown(binds, 0) then Ok else UnknownType)
  }

  /** The values, up to the first bind of an unknown type. */
  method WriteValues(builder: Builder, binds: seq<Bind>) returns (rc: Rc)
    requires builder.Valid() && BindsFit(binds)
    requires builder.packetMaxLength > 0 ==> |builder.payload| < builder.packetMaxLength
    modifies builder, builder.buffer
    ensures builder.Built(ValuesPlan(binds), rc)
    ensures rc == Ok ==> builder.Valid()
  {
    ghost var whole := builder.payload + ValueBytes(binds, 0);
    rc := Ok;
    var i := 0;
    while rc == Ok && i < |binds|
      invariant i <= |binds| && (rc != Ok ==> builder.Built(ValuesPlan(binds), rc))
      invariant rc == Ok ==>
                  && AllKnown(binds, 0) == AllKnown(binds, i)
                  && builder.Valid() && builder.payload + ValueBytes(binds, i) == whole
                  && builder.buffer.refusals == old(builder.buffer.refusals)
                  && builder.packetMaxLength == old(builder.packetMaxLength)
                  && (builder.packetMaxLength > 0 ==> |builder.payload| < builder.packetMaxLength)
      decreases rc == Ok, |binds| - i
    {
      if ArmOf(binds[i].kind).Unknown? {
        rc := UnknownType;
      } else {
        Associate(builder.payload, EncodeDatum(binds[i].kind, binds[i].datum), ValueBytes(binds, i + 1));
        rc := WriteDatum(builder, binds[i].kind, binds[i].datum);
        i := i + 1;
      }
    }
  }

  /** Command, statement, flags and iteration count. */
  method WriteHead(builder: Builder, stmtId: nat, flags: byte) returns (rc: Rc)
    requires builder.Valid()
    modifies builder, builder.buffer
    ensures builder.Wrote(ExecHead(stmtId, flags), rc)
  {
    assert ExecHead(stmtId, flags) == [CMD_STMT_EXECUTE] + LE(stmtId, 4) + ([flags] + LE(1, 4));
    :- builder.WriteTagged(CMD_STMT_EXECUTE, stmtId, 4);
    :- builder.WriteTagged(flags, 1, 4);
    return Ok;
  }

  /** The null bitmap, the bound flag and the types. */
  method WriteDeclarations(builder: Builder, binds: seq<Bind>) returns (rc: Rc)
    requires builder.Valid()
    modifies builder, builder.buffer
    ensures builder.Wrote(Bitmap(NullMarks(binds)) + [0x01] + TypePairs(binds, 0), rc)
  {
    ghost var p, bits, types := builder.payload, Bitmap(NullMarks(binds)), TypePairs(binds, 0);
    Associate(p, bits, [0x01]);
    Associate(p, bits + [0x01], types);
    rc := WriteNullBitmap(builder, binds);
    if rc == Ok {
      rc := builder.WriteUint8(0x01);
    }
    if rc == Ok {
      rc := WriteTypes(builder, binds);
    }
  }

  method WriteBinds(builder: Builder, binds: seq<Bind>) returns (rc: Rc)
    requires builder.Valid() && BindsFit(binds)
    modifies builder, builder.buffer
    ensures builder.Built(Plan(BindBytes(binds), if AllKnown(binds, 0) then Ok else UnknownType), rc)
    ensures rc == Ok ==> builder.Valid()
  {
    Associate(builder.payload, Bitmap(NullMarks(binds)) + [0x01] + TypePairs(binds, 0), ValueBytes(binds, 0));
    rc := WriteDeclarations(builder, binds);
    if rc == Ok {
      rc := WriteValues(builder, binds);
    }
  }

  method WriteExecute(builder: Builder, stmtId: nat, flags: byte, binds: Option<seq<Bind>>,
                      numBinds: nat) returns (rc: Rc)
    requires builder.Valid()
    requires binds.Some? ==> |binds.value| == numBinds && BindsFit(binds.value)
    modifies builder, builder.buffer
    ensures builder.Built(ExecPlan(stmtId, flags, binds, numBinds), rc)
    ensures rc == Ok ==> builder.Valid()
  {
    ghost var p, head := builder.payload, ExecHead(stmtId, flags);
    rc := WriteHead(builder, stmtId, flags);
    if rc == Ok && numBinds > 0 {
      if binds == None {
        rc := ProtocolViolation;
      } else {
        Associate(p, head, BindBytes(binds.value));
        rc := WriteBinds(builder, binds.value);
      }
    }
  }

  /** The whole packet. On success the buffer holds its frame. */
  method BuildStmtExecutePacket(builder: Builder, stmtId: nat, flags: byte, binds: Option<seq<Bind>>, numBinds: nat)
    returns (rc: Rc)
    requires builder.Valid()
    requires binds.Some? ==> |binds.value| == numBinds && BindsFit(binds.value)
    modifies builder, builder.buffer
    ensures builder.Built(ExecPlan(stmtId, flags, binds, numBinds), rc)
    ensures rc == Ok ==> builder.buffer.Contents() == Frame(builder.payload, builder.first)
    ensures rc == Ok ==> builder.sq == SeqPlus(builder.first, Fragments(|builder.payload|))
  {
    rc := WriteExecute(builder, stmtId, flags, binds, numBinds);
    if rc == Ok {
      builder.Finalize();
    }
  }
}
