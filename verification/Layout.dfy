/** Packets that are a fixed chain of fields: each `CHECKED` getter call of a parser of src/protocol.c is one field. */
module Layouts {
  import opened Bytes
  import opened Builders
  import opened Readers

  // ---------------------------------------------------------------- specification

  datatype Field =
    | Fixed(n: nat)   // an `n`-byte little-endian integer
    | Varint          // a length-encoded integer
    | Varbytes            // a length-encoded buffer
    | Block(n: nat)   // `n` bytes
    | Remainder       // all bytes that are left

  datatype Item = Num(v: nat) | Data(slice: Slice)

  function TakeField(s: bytes, p: nat, f: Field): (g: Got<Item>)
    requires p <= |s|
    ensures p <= g.pos <= |s| && (g.Bad? ==> g.rc != Ok)
  {
    match f
    case Fixed(n) => AsNum(TakeInt(s, p, n))
    case Varint => AsNum(TakeLenenc(s, p))
    case Varbytes => AsData(TakeLenencBuffer(s, p))
    case Block(n) => AsData(TakeBuffer(s, p, n))
    case Remainder => Good(Data(Slice(p, |s| - p)), |s|)
  }

  function AsNum(g: Got<nat>): Got<Item> {
    match g
    case Good(v, q) => Good(Num(v), q)
    case Bad(rc, q) => Bad(rc, q)
  }

  function AsData(g: Got<Slice>): Got<Item> {
    match g
    case Good(d, q) => Good(Data(d), q)
    case Bad(rc, q) => Bad(rc, q)
  }

  /** The fields read, where the cursor stands, and the code of the getter that failed, if one did. */
  datatype Parsed = Parsed(rc: Rc, items: seq<Item>, pos: nat)

  function ParseFields(s: bytes, p: nat, fields: seq<Field>): (r: Parsed)
    requires p <= |s|
    ensures p <= r.pos <= |s| && |r.items| <= |fields| && (r.rc == Ok ==> |r.items| == |fields|)
    decreases |fields|, |s|
  {
    if fields == [] then Parsed(Ok, [], p)
    else
      match TakeField(s, p, fields[0])
      case Bad(rc, q) => Parsed(rc, [], q)
      case Good(x, q) => var tail := ParseFields(s, q, fields[1..]); tail.(items := [x] + tail.items)
  }

  /** A packet that is nothing but these fields. */
  function ParseAll(s: bytes, fields: seq<Field>): (r: Parsed)
    ensures r.rc == Ok ==> |r.items| == |fields|
  {
    var r := ParseFields(s, 0, fields);
    if r.rc == Ok && r.pos < |s| then r.(rc := ExtraDataInPacket) else r
  }

  /** The integer at place `k`; 0 if it has not been read. */
  function NumberAt(items: seq<Item>, k: nat): nat {
    if k < |items| && items[k].Num? then items[k].v else 0
  }

  // ---------------------------------------------------------------- round trip

  datatype Value = Int(v: nat) | Bytes(d: bytes)

  /** `v` is a value a server can put into field `f`. */
  predicate Fits(f: Field, v: Value) {
    match f
    case Fixed(n) => v.Int? && v.v < Pow256(n)
    case Varint => v.Int? && v.v <= SIZE_MAX
    case Varbytes => v.Bytes? && |v.d| <= SIZE_MAX
    case Block(n) => v.Bytes? && |v.d| == n
    case Remainder => v.Bytes?
  }

  function EncodeField(f: Field, v: Value): bytes
    requires Fits(f, v)
  {
    match f
    case Fixed(n) => LE(v.v, n)
    case Varint => Lenenc(v.v)
    case Varbytes => LenencBuffer(v.d)
    case Block(_) => v.d
    case Remainder => v.d
  }

  /** One value per field, and nothing behind a field that takes the remainder. */
  predicate FitAll(fields: seq<Field>, values: seq<Value>) {
    |fields| == |values| && forall k | 0 <= k < |fields| ::
      Fits(fields[k], values[k]) && (fields[k].Remainder? ==> k + 1 == |fields|)
  }

  function Encode(fields: seq<Field>, values: seq<Value>): bytes
    requires FitAll(fields, values)
  {
    if fields == [] then [] else EncodeField(fields[0], values[0]) + Encode(fields[1..], values[1..])
  }

  predicate Holds(s: bytes, x: Item, v: Value) {
    match x
    case Num(n) => v == Int(n)
    case Data(d) => d.at + d.len <= |s| && v == Bytes(s[d.at..d.at + d.len])
  }

  predicate HoldAll(s: bytes, items: seq<Item>, values: seq<Value>) {
    |items| == |values| && forall k | 0 <= k < |items| :: Holds(s, items[k], values[k])
  }

  lemma {:induction false} HoldCons(s: bytes, x: Item, xs: seq<Item>, values: seq<Value>)
    requires values != [] && Holds(s, x, values[0]) && HoldAll(s, xs, values[1..])
    ensures HoldAll(s, [x] + xs, values)
  {
    forall k | 0 <= k < |values|
      ensures Holds(s, ([x] + xs)[k], values[k])
    {
      if k > 0 {
        assert ([x] + xs)[k] == xs[k - 1] && values[k] == values[1..][k - 1];
      }
    }
  }

  lemma {:induction false} TakeEncodedField(s: bytes, p: nat, f: Field, v: Value)
    requires Fits(f, v) && At(s, p, EncodeField(f, v))
    requires f.Remainder? ==> p + |v.d| == |s|
    ensures var g := TakeField(s, p, f);
            g.Good? && g.pos == p + |EncodeField(f, v)| && Holds(s, g.value, v)
  {
    match f
    case Fixed(n) => TakeIntAt(s, p, v.v, n);
    case Varint => LenencRoundTrip(s, p, v.v);
    case Varbytes => LenencBufferRoundTrip(s, p, v.d);
    case Block(_) =>
    case Remainder =>
  }

  lemma {:induction false} FieldStep(s: bytes, p: nat, fields: seq<Field>)
    requires p <= |s| && fields != [] && TakeField(s, p, fields[0]).Good?
    ensures var g := TakeField(s, p, fields[0]);
            var x, tail := g.value, ParseFields(s, g.pos, fields[1..]);
            var r := ParseFields(s, p, fields);
            r.rc == tail.rc && r.items == [x] + tail.items && r.pos == tail.pos
  {
  }

  /** Parsing undoes encoding for every layout: the cursor ends behind the encoding, and the items are the values. */
  lemma {:induction false} FieldsRoundTrip(s: bytes, p: nat, fields: seq<Field>, values: seq<Value>)
    requires FitAll(fields, values) && At(s, p, Encode(fields, values))
    requires Remainder in fields ==> p + |Encode(fields, values)| == |s|
    ensures var r := ParseFields(s, p, fields);
            r.rc == Ok && r.pos == p + |Encode(fields, values)| && HoldAll(s, r.items, values)
    decreases |fields|
  {
    if fields != [] {
      FirstField(s, p, fields, values);
      var q := TakeField(s, p, fields[0]).pos;
      FieldsRoundTrip(s, q, fields[1..], values[1..]);
      FieldsJoin(s, p, fields, values, q);
    }
  }

  /** The first field is read, the others stand behind it, and a remainder among them ends where the packet does. */
  lemma {:induction false} FirstField(s: bytes, p: nat, fields: seq<Field>, values: seq<Value>)
    requires fields != [] && FitAll(fields, values) && At(s, p, Encode(fields, values))
    requires Remainder in fields ==> p + |Encode(fields, values)| == |s|
    ensures FitAll(fields[1..], values[1..])
    ensures var g, rest := TakeField(s, p, fields[0]), Encode(fields[1..], values[1..]);
            && g.Good? && g.pos + |rest| == p + |Encode(fields, values)| && Holds(s, g.value, values[0])
            && At(s, g.pos, rest) && (Remainder in fields[1..] ==> g.pos + |rest| == |s|)
  {
    EncodeStep(fields, values);
    AtSplit(s, p, EncodeField(fields[0], values[0]), Encode(fields[1..], values[1..]));
    if fields[0].Remainder? {
      assert fields[0] in fields && fields[1..] == [];
    }
    TakeEncodedField(s, p, fields[0], values[0]);
  }

  lemma {:induction false} FieldsJoin(s: bytes, p: nat, fields: seq<Field>, values: seq<Value>, q: nat)
    requires p <= |s| && fields != [] && values != [] && TakeField(s, p, fields[0]).Good?
    requires TakeField(s, p, fields[0]).pos == q && Holds(s, TakeField(s, p, fields[0]).value, values[0])
    requires HoldAll(s, ParseFields(s, q, fields[1..]).items, values[1..])
    ensures var r, tail := ParseFields(s, p, fields), ParseFields(s, q, fields[1..]);
            r.rc == tail.rc && r.pos == tail.pos && HoldAll(s, r.items, values)
  {
    FieldStep(s, p, fields);
    HoldCons(s, TakeField(s, p, fields[0]).value, ParseFields(s, q, fields[1..]).items, values);
  }

  /** A packet that ends inside its fields is reported as truncated, wherever it ends. */
  lemma {:induction false} CutFields(s: bytes, p: nat, fields: seq<Field>, values: seq<Value>)
    requires FitAll(fields, values) && Remainder !in fields && Cut(s, p, Encode(fields, values))
    ensures ParseFields(s, p, fields).rc == TruncatedPacket
    decreases |fields|
  {
    var g := CutFront(s, p, fields, values);
    if g.Good? {
      CutFields(s, g.pos, fields[1..], values[1..]);
      CutLater(s, p, fields, g.pos);
    }
  }

  /** It ends in the first field, or behind it. */
  lemma {:induction false} CutFront(s: bytes, p: nat, fields: seq<Field>, values: seq<Value>) returns (g: Got<Item>)
    requires FitAll(fields, values) && Remainder !in fields && Cut(s, p, Encode(fields, values))
    ensures fields != [] && FitAll(fields[1..], values[1..]) && Remainder !in fields[1..]
    ensures g == TakeField(s, p, fields[0])
    ensures if g.Good? then Cut(s, g.pos, Encode(fields[1..], values[1..])) else g.rc == TruncatedPacket
  {
    EncodeStep(fields, values);
    var here := EncodeField(fields[0], values[0]);
    CutSplit(s, p, here, Encode(fields[1..], values[1..]));
    g := TakeField(s, p, fields[0]);
    assert fields[0] in fields;
    if |s| < p + |here| {
      CutField(s, p, fields[0], values[0]);
    } else {
      TakeEncodedField(s, p, fields[0], values[0]);
    }
  }

  lemma {:induction false} CutLater(s: bytes, p: nat, fields: seq<Field>, q: nat)
    requires p <= |s| && fields != [] && TakeField(s, p, fields[0]).Good? && TakeField(s, p, fields[0]).pos == q
    requires ParseFields(s, q, fields[1..]).rc == TruncatedPacket
    ensures ParseFields(s, p, fields).rc == TruncatedPacket
  {
  }

  lemma {:induction false} CutField(s: bytes, p: nat, f: Field, v: Value)
    requires Fits(f, v) && !f.Remainder? && Cut(s, p, EncodeField(f, v))
    ensures TakeField(s, p, f).Bad? && TakeField(s, p, f).rc == TruncatedPacket
  {
    match f
    case Fixed(n) =>
    case Varint => LenencCut(s, p, v.v);
    case Varbytes => LenencBufferCut(s, p, v.d);
    case Block(_) =>
  }

  /** The first `k` fields, written one behind the other. */
  function EncodeFirst(fields: seq<Field>, values: seq<Value>, k: nat): bytes
    requires k <= |fields| && FitAll(fields, values)
    decreases k
  {
    if k == 0 then [] else EncodeFirst(fields, values, k - 1) + EncodeField(fields[k - 1], values[k - 1])
  }

  lemma {:induction false} EncodeFirstOfTail(fields: seq<Field>, values: seq<Value>, k: nat)
    requires 0 < k <= |fields| && FitAll(fields, values) && FitAll(fields[1..], values[1..])
    ensures EncodeFirst(fields, values, k) ==
            EncodeField(fields[0], values[0]) + EncodeFirst(fields[1..], values[1..], k - 1)
    decreases k
  {
    if k > 1 {
      EncodeFirstOfTail(fields, values, k - 1);
      var a, b := EncodeField(fields[0], values[0]), EncodeFirst(fields[1..], values[1..], k - 2);
      var c := EncodeField(fields[k - 1], values[k - 1]);
      assert fields[1..][k - 2] == fields[k - 1] && values[1..][k - 2] == values[k - 1];
      assert a + b + c == a + (b + c);
    }
  }

  lemma {:induction false} EncodeInOrder(fields: seq<Field>, values: seq<Value>)
    requires FitAll(fields, values)
    ensures Encode(fields, values) == EncodeFirst(fields, values, |fields|)
    decreases |fields|
  {
    if fields != [] {
      EncodeStep(fields, values);
      EncodeInOrder(fields[1..], values[1..]);
      EncodeFirstOfTail(fields, values, |fields|);
    }
  }

  lemma {:induction false} EncodeStep(fields: seq<Field>, values: seq<Value>)
    requires FitAll(fields, values) && fields != []
    ensures FitAll(fields[1..], values[1..])
    ensures Encode(fields, values) == EncodeField(fields[0], values[0]) + Encode(fields[1..], values[1..])
    ensures fields[0].Remainder? ==> Encode(fields, values) == values[0].d
  {
  }

  // ---------------------------------------------------------------- implementation

  /** The chain of `CHECKED` getter calls. */
  method GetFields(reader: Reader, fields: seq<Field>) returns (rc: Rc, items: seq<Item>)
    requires reader.Valid()
    modifies reader
    ensures reader.Valid()
    ensures Parsed(rc, items, reader.pos) == ParseFields(reader.buff, old(reader.pos), fields)
  {
    ghost var whole := ParseFields(reader.buff, reader.pos, fields);
    ghost var tail := whole;
    items := [];
    var i := 0;
    assert fields[0..] == fields;
    while i < |fields|
      invariant i <= |fields| && reader.Valid()
      invariant tail == ParseFields(reader.buff, reader.pos, fields[i..])
      invariant whole.rc == tail.rc && whole.pos == tail.pos && whole.items == items + tail.items
    {
      ghost var p, f := reader.pos, fields[i..];
      var got, item := GetField(reader, fields[i]);
      if got != Ok {
        return got, items;
      }
      FieldStep(reader.buff, p, f);
      assert f[1..] == fields[i + 1..];
      tail := ParseFields(reader.buff, reader.pos, fields[i + 1..]);
      AppendFirst(items, item, tail.items);
      items := items + [item];
      i := i + 1;
    }
    return Ok, items;
  }

  method GetField(reader: Reader, f: Field) returns (rc: Rc, item: Item)
    requires reader.Valid()
    modifies reader
    ensures reader.Valid()
    ensures match TakeField(reader.buff, old(reader.pos), f)
            case Good(x, q) => rc == Ok && item == x && reader.pos == q
            case Bad(c, q) => rc == c && reader.pos == q
  {
    match f
    case Fixed(n) =>
      var v: nat;
      rc, v := reader.GetInt(n);
      item := Num(v);
    case Varint =>
      var v: nat;
      rc, v := reader.GetLenenc();
      item := Num(v);
    case Varbytes =>
      var d: Slice;
      rc, d := reader.GetLenencBuffer();
      item := Data(d);
    case Block(n) =>
      var d: Slice;
      rc, d := reader.GetBuffer(n);
      item := Data(d);
    case Remainder =>
      var d := reader.GetEofBuffer();
      return Ok, Data(d);
  }

  method ParseAllFields(buff: bytes, fields: seq<Field>) returns (rc: Rc, items: seq<Item>)
    ensures rc == ParseAll(buff, fields).rc && items == ParseAll(buff, fields).items
  {
    var reader := new Reader(buff);
    rc, items := GetFields(reader, fields);
    if rc == Ok {
      rc := reader.Finish();
    }
  }
}
