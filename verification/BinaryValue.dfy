/** Values of the binary protocol: what the execute builder writes for one bind, and what the row parser reads for one
    column (src/protocol.c). */
module BinaryValues {
  import opened Bytes
  import opened Builders
  import opened Readers
  import opened Layouts

  // ---------------------------------------------------------------- types and values

  const TYPE_NULL: byte := 0x06
  const TYPE_DATE: byte := 0x0a
  const TYPE_TIME: byte := 0x0b

  /** The member of the value union a type selects. Floats and doubles are bit patterns, so they are numbers. */
  datatype Arm = Numeric(width: nat) | Clock | Calendar | Textual | Nothing | Unknown

  function ArmOf(kind: byte): Arm {
    match kind
    case 0x01 => Numeric(1)                       // TINY
    case 0x02 => Numeric(2)                       // SHORT
    case 0x0d => Numeric(2)                       // YEAR
    case 0x03 => Numeric(4)                       // LONG
    case 0x09 => Numeric(4)                       // INT24
    case 0x04 => Numeric(4)                       // FLOAT
    case 0x08 => Numeric(8)                       // LONGLONG
    case 0x05 => Numeric(8)                       // DOUBLE
    case 0x0b => Clock                            // TIME
    case 0x07 => Calendar                         // TIMESTAMP
    case 0x0a => Calendar                         // DATE
    case 0x0c => Calendar                         // DATETIME
    case 0x06 => Nothing                          // NULL
    case _ =>
      // DECIMAL, VARCHAR, BIT, VECTOR, and JSON up to GEOMETRY
      if kind == 0x00 || kind == 0x0f || kind == 0x10 || kind == 0xf2 || 0xf5 <= kind then Textual else Unknown
  }

  /** A value; its text is bytes, or a slice of the packet it was read from. */
  datatype Datum<+S> =
    | Integer(n: nat)
    | Time(negative: bool, days: nat, hour: nat, minute: nat, second: nat, micros: nat)
    | Date(year: nat, month: nat, day: nat, hour: nat, minute: nat, second: nat, micros: nat)
    | Str(text: S)
    | NoDatum

  /** `d` is stored through the arm `arm`, each field in the range of its C type. */
  predicate FitsArm(arm: Arm, d: Datum<bytes>) {
    match arm
    case Numeric(w) => d.Integer? && d.n < Pow256(w)
    case Clock =>
      && d.Time? && d.days < 0x1_0000_0000 && d.hour < 256 && d.minute < 256 && d.second < 256
      && d.micros < 0x1_0000_0000
    case Calendar =>
      && d.Date? && d.year < 0x1_0000 && d.month < 256 && d.day < 256 && d.hour < 256 && d.minute < 256
      && d.second < 256 && d.micros < 0x1_0000_0000
    case Textual => d.Str? && |d.text| <= PTRDIFF_MAX
    case Nothing => d.NoDatum?
    case Unknown => true
  }

  // ---------------------------------------------------------------- writing

  function ClockLength(d: Datum<bytes>): byte
    requires d.Time?
  {
    if d.micros != 0 then 12 else if d.hour != 0 || d.minute != 0 || d.second != 0 then 8 else 0
  }

  function CalendarLength(d: Datum<bytes>): byte
    requires d.Date?
  {
    if d.micros != 0 then 11
    else if d.hour != 0 || d.minute != 0 || d.second != 0 then 7
    else if d.year != 0 || d.month != 0 || d.day != 0 then 4
    else 0
  }

  /** The fields behind a TIME length byte: sign, days, hour, minute, second, microseconds. */
  function ClockFields(len: byte): seq<Field> {
    if len == 0 then []
    else if len == 8 then [Fixed(1), Fixed(4), Fixed(1), Fixed(1), Fixed(1)]
    else [Fixed(1), Fixed(4), Fixed(1), Fixed(1), Fixed(1), Fixed(4)]
  }

  /** The fields behind a DATE, DATETIME or TIMESTAMP length byte: year, month, day, hour, minute, second,
      microseconds. */
  function CalendarFields(len: byte): seq<Field> {
    if len == 0 then []
    else if len == 4 then [Fixed(2), Fixed(1), Fixed(1)]
    else if len == 7 then [Fixed(2), Fixed(1), Fixed(1), Fixed(1), Fixed(1), Fixed(1)]
    else [Fixed(2), Fixed(1), Fixed(1), Fixed(1), Fixed(1), Fixed(1), Fixed(4)]
  }

  function ClockValues(d: Datum<bytes>): seq<Value>
    requires d.Time?
  {
    var len := ClockLength(d);
    if len == 0 then []
    else
      [Int(if d.negative then 1 else 0), Int(d.days), Int(d.hour), Int(d.minute), Int(d.second)] +
      (if len == 8 then [] else [Int(d.micros)])
  }

  function CalendarValues(d: Datum<bytes>): seq<Value>
    requires d.Date?
  {
    var len := CalendarLength(d);
    if len == 0 then []
    else
      [Int(d.year), Int(d.month), Int(d.day)] +
      (if len == 4 then []
       else [Int(d.hour), Int(d.minute), Int(d.second)] + (if len == 7 then [] else [Int(d.micros)]))
  }

  lemma {:induction false} ClockFits(d: Datum<bytes>)
    requires FitsArm(Clock, d)
    ensures FitAll(ClockFields(ClockLength(d)), ClockValues(d))
    ensures Remainder !in ClockFields(ClockLength(d))
  {
    PowersOf256();
  }

  lemma {:induction false} CalendarFits(d: Datum<bytes>)
    requires FitsArm(Calendar, d)
    ensures FitAll(CalendarFields(CalendarLength(d)), CalendarValues(d))
    ensures Remainder !in CalendarFields(CalendarLength(d))
  {
    PowersOf256();
  }

  /** The bytes the execute builder writes for a value. */
  function EncodeDatum(kind: byte, d: Datum<bytes>): bytes
    requires FitsArm(ArmOf(kind), d)
  {
    match ArmOf(kind)
    case Numeric(w) => LE(d.n, w)
    case Clock => ClockFits(d); [ClockLength(d)] + Encode(ClockFields(ClockLength(d)), ClockValues(d))
    case Calendar => CalendarFits(d); [CalendarLength(d)] + Encode(CalendarFields(CalendarLength(d)), CalendarValues(d))
    case Textual => LenencBuffer(d.text)
    case Nothing => []
    case Unknown => []
  }

  // ---------------------------------------------------------------- reading

  function ClockOf(items: seq<Item>): Datum<Slice> {
    Time(NumberAt(items, 0) == 1, NumberAt(items, 1), NumberAt(items, 2), NumberAt(items, 3), NumberAt(items, 4),
         NumberAt(items, 5))
  }

  function CalendarOf(items: seq<Item>): Datum<Slice> {
    Date(NumberAt(items, 0), NumberAt(items, 1), NumberAt(items, 2), NumberAt(items, 3), NumberAt(items, 4),
         NumberAt(items, 5), NumberAt(items, 6))
  }

  function TakeClock(s: bytes, p: nat): (g: Got<Datum<Slice>>)
    requires p <= |s|
    ensures p <= g.pos <= |s| && (g.Bad? ==> g.rc != Ok)
  {
    if p == |s| then Bad(TruncatedPacket, p)
    else if s[p] !in {0, 8, 12} then Bad(ProtocolViolation, p + 1)
    else
      var r := ParseFields(s, p + 1, ClockFields(s[p]));
      if r.rc != Ok then Bad(r.rc, r.pos) else Good(ClockOf(r.items), r.pos)
  }

  function TakeCalendar(s: bytes, p: nat): (g: Got<Datum<Slice>>)
    requires p <= |s|
    ensures p <= g.pos <= |s| && (g.Bad? ==> g.rc != Ok)
  {
    if p == |s| then Bad(TruncatedPacket, p)
    else if s[p] !in {0, 4, 7, 11} then Bad(ProtocolViolation, p + 1)
    else
      var r := ParseFields(s, p + 1, CalendarFields(s[p]));
      if r.rc != Ok then Bad(r.rc, r.pos) else Good(CalendarOf(r.items), r.pos)
  }

  /** The value the row parser reads for a column of type `kind`. */
  function TakeDatum(s: bytes, p: nat, kind: byte): (g: Got<Datum<Slice>>)
    requires p <= |s|
    ensures p <= g.pos <= |s| && (g.Bad? ==> g.rc != Ok)
  {
    match ArmOf(kind)
    case Numeric(w) =>
      (match TakeInt(s, p, w)
       case Good(n, q) => Good(Integer(n), q)
       case Bad(rc, q) => Bad(rc, q))
    case Clock => TakeClock(s, p)
    case Calendar => TakeCalendar(s, p)
    case Textual =>
      (match TakeLenencBuffer(s, p)
       case Good(d, q) => Good(Str(d), q)
       case Bad(rc, q) => Bad(rc, q))
    case Nothing => Bad(UnknownType, p)
    case Unknown => Bad(UnknownType, p)
  }

  /** What the value holds when it cannot be read: a length byte clears a time or a date, and the fields in front of the
      one that fails are stored; anything else stays as it was. */
  function Partial(s: bytes, p: nat, kind: byte, prior: Datum<Slice>): Datum<Slice>
    requires p <= |s|
  {
    match ArmOf(kind)
    case Clock =>
      if p == |s| then prior
      else if s[p] !in {0, 8, 12} then ClockOf([])
      else ClockOf(ParseFields(s, p + 1, ClockFields(s[p])).items)
    case Calendar =>
      if p == |s| then prior
      else if s[p] !in {0, 4, 7, 11} then CalendarOf([])
      else CalendarOf(ParseFields(s, p + 1, CalendarFields(s[p])).items)
    case _ => prior
  }

  // ---------------------------------------------------------------- byte by byte

  /** Which values a type can carry, by its code. */
  lemma {:induction false} TypeRanges(kind: byte, d: Datum<bytes>)
    ensures kind == 0x01 ==> (FitsArm(ArmOf(kind), d) <==> d.Integer? && d.n < 0x100)
    ensures kind in {0x02, 0x0d} ==> (FitsArm(ArmOf(kind), d) <==> d.Integer? && d.n < 0x1_0000)
    ensures kind in {0x03, 0x04, 0x09} ==> (FitsArm(ArmOf(kind), d) <==> d.Integer? && d.n < 0x1_0000_0000)
    ensures kind in {0x05, 0x08} ==> (FitsArm(ArmOf(kind), d) <==> d.Integer? && d.n < 0x1_0000_0000_0000_0000)
    ensures kind == 0x0b ==> FitsArm(ArmOf(kind), d) == FitsArm(Clock, d)
    ensures kind in {0x07, 0x0a, 0x0c} ==> FitsArm(ArmOf(kind), d) == FitsArm(Calendar, d)
    ensures IsText(kind) ==> (FitsArm(ArmOf(kind), d) <==> d.Str? && |d.text| <= PTRDIFF_MAX)
    ensures kind == 0x06 ==> (FitsArm(ArmOf(kind), d) <==> d.NoDatum?)
    ensures ArmOf(kind).Unknown? <==> kind in {0x0e, 0xf3, 0xf4} || 0x11 <= kind <= 0xf1
  {
    PowersOf256();
  }

  /** DECIMAL, VARCHAR, BIT, VECTOR, and JSON up to GEOMETRY. */
  predicate IsText(kind: byte) {
    kind in {0x00, 0x0f, 0x10, 0xf2} || 0xf5 <= kind
  }

  /** A TIME: a length byte of 0, 8 or 12, the sign, the days, the hour, the minute, the second, the microseconds. */
  function ClockBytes(d: Datum<bytes>): bytes
    requires FitsArm(Clock, d)
  {
    var clock := [if d.negative then 1 else 0] + LE(d.days, 4) + [d.hour, d.minute, d.second];
    if d.micros != 0 then [12] + clock + LE(d.micros, 4)
    else if d.hour != 0 || d.minute != 0 || d.second != 0 then [8] + clock
    else [0]
  }

  /** A DATE, DATETIME or TIMESTAMP: a length byte of 0, 4, 7 or 11, the year, the month, the day, the hour, the minute,
      the second, the microseconds. */
  function CalendarBytes(d: Datum<bytes>): bytes
    requires FitsArm(Calendar, d)
  {
    var date, clock := LE(d.year, 2) + [d.month, d.day], [d.hour, d.minute, d.second];
    if d.micros != 0 then [11] + date + clock + LE(d.micros, 4)
    else if clock != [0, 0, 0] then [7] + date + clock
    else if d.year != 0 || d.month != 0 || d.day != 0 then [4] + date
    else [0]
  }

  lemma {:induction false} LEOfByte(v: nat)
    requires v < 256
    ensures LE(v, 1) == [v]
  {
  }

  /** One integer behind those written. */
  lemma {:induction false} NextInteger(fields: seq<Field>, values: seq<Value>, k: nat)
    requires k < |fields| && FitAll(fields, values) && fields[k].Fixed?
    ensures EncodeFirst(fields, values, k + 1) == EncodeFirst(fields, values, k) + LE(values[k].v, fields[k].n)
    ensures fields[k].n == 1 ==> values[k].v < 256 && LE(values[k].v, 1) == [values[k].v]
  {
    PowersOf256();
    if fields[k].n == 1 {
      LEOfByte(values[k].v);
    }
  }

  /** The fields of a TIME, day and time in five of them, and the microseconds. */
  lemma {:induction false} ClockParts(d: Datum<bytes>)
    requires FitsArm(Clock, d) && FitAll(ClockFields(ClockLength(d)), ClockValues(d)) && ClockLength(d) > 0
    ensures EncodeFirst(ClockFields(ClockLength(d)), ClockValues(d), 5) ==
            [if d.negative then 1 else 0] + LE(d.days, 4) + [d.hour, d.minute, d.second]
  {
    var fields, values := ClockFields(ClockLength(d)), ClockValues(d);
    NextInteger(fields, values, 0);
    NextInteger(fields, values, 1);
    var two := EncodeFirst(fields, values, 2);
    assert two == [if d.negative then 1 else 0] + LE(d.days, 4);
    NextInteger(fields, values, 2);
    NextInteger(fields, values, 3);
    NextInteger(fields, values, 4);
    assert EncodeFirst(fields, values, 5) == two + [d.hour] + [d.minute] + [d.second];
  }

  lemma {:induction false} ClockOnTheWire(d: Datum<bytes>)
    requires FitsArm(Clock, d) && FitAll(ClockFields(ClockLength(d)), ClockValues(d))
    ensures [ClockLength(d)] + Encode(ClockFields(ClockLength(d)), ClockValues(d)) == ClockBytes(d)
  {
    var fields, values := ClockFields(ClockLength(d)), ClockValues(d);
    EncodeInOrder(fields, values);
    if ClockLength(d) > 0 {
      ClockParts(d);
    }
    if ClockLength(d) == 12 {
      NextInteger(fields, values, 5);
    }
  }

  /** The fields of a date, and those of the time behind it. */
  lemma {:induction false} DateParts(d: Datum<bytes>)
    requires FitsArm(Calendar, d) && FitAll(CalendarFields(CalendarLength(d)), CalendarValues(d))
    requires CalendarLength(d) > 0
    ensures EncodeFirst(CalendarFields(CalendarLength(d)), CalendarValues(d), 3) == LE(d.year, 2) + [d.month, d.day]
  {
    var fields, values := CalendarFields(CalendarLength(d)), CalendarValues(d);
    NextInteger(fields, values, 0);
    NextInteger(fields, values, 1);
    NextInteger(fields, values, 2);
  }

  lemma {:induction false} TimeParts(d: Datum<bytes>)
    requires FitsArm(Calendar, d) && FitAll(CalendarFields(CalendarLength(d)), CalendarValues(d))
    requires CalendarLength(d) > 4
    ensures EncodeFirst(CalendarFields(CalendarLength(d)), CalendarValues(d), 6) ==
            LE(d.year, 2) + [d.month, d.day] + [d.hour, d.minute, d.second]
  {
    var fields, values := CalendarFields(CalendarLength(d)), CalendarValues(d);
    DateParts(d);
    NextInteger(fields, values, 3);
    NextInteger(fields, values, 4);
    NextInteger(fields, values, 5);
  }

  lemma {:induction false} CalendarOnTheWire(d: Datum<bytes>)
    requires FitsArm(Calendar, d) && FitAll(CalendarFields(CalendarLength(d)), CalendarValues(d))
    ensures [CalendarLength(d)] + Encode(CalendarFields(CalendarLength(d)), CalendarValues(d)) == CalendarBytes(d)
  {
    var fields, values := CalendarFields(CalendarLength(d)), CalendarValues(d);
    EncodeInOrder(fields, values);
    if CalendarLength(d) == 4 {
      DateParts(d);
    } else if CalendarLength(d) > 4 {
      TimeParts(d);
    }
    if CalendarLength(d) == 11 {
      NextInteger(fields, values, 6);
    }
  }

  /** The bytes the execute builder writes for a value, by the code of its type. */
  lemma {:induction false} DatumOnTheWire(kind: byte, d: Datum<bytes>)
    requires FitsArm(ArmOf(kind), d)
    ensures kind == 0x01 ==> d.Integer? && EncodeDatum(kind, d) == LE(d.n, 1)
    ensures kind in {0x02, 0x0d} ==> d.Integer? && EncodeDatum(kind, d) == LE(d.n, 2)
    ensures kind in {0x03, 0x04, 0x09} ==> d.Integer? && EncodeDatum(kind, d) == LE(d.n, 4)
    ensures kind in {0x05, 0x08} ==> d.Integer? && EncodeDatum(kind, d) == LE(d.n, 8)
    ensures kind == 0x0b ==> FitsArm(Clock, d) && EncodeDatum(kind, d) == ClockBytes(d)
    ensures kind in {0x07, 0x0a, 0x0c} ==> FitsArm(Calendar, d) && EncodeDatum(kind, d) == CalendarBytes(d)
    ensures IsText(kind) ==> d.Str? && EncodeDatum(kind, d) == LenencBuffer(d.text)
    ensures kind in {0x06, 0x0e, 0xf3, 0xf4} || 0x11 <= kind <= 0xf1 ==> EncodeDatum(kind, d) == []
  {
    match ArmOf(kind)
    case Clock => ClockFits(d); ClockOnTheWire(d);
    case Calendar => CalendarFits(d); CalendarOnTheWire(d);
    case _ =>
  }

  /** The integer of `w` bytes at `at`; 0 if it does not end in front of `end`. */
  function Present(s: bytes, at: nat, w: nat, end: nat): nat
    requires end <= |s|
  {
    if at + w <= end then FromLE(s[at..at + w]) else 0
  }

  /** Where field `k` of a list of integers begins. */
  function Offset(fields: seq<Field>, k: nat): nat
    requires k <= |fields| && AllFixed(fields)
    decreases k
  {
    if k == 0 then 0 else Offset(fields, k - 1) + fields[k - 1].n
  }

  predicate AllFixed(fields: seq<Field>) {
    forall k | 0 <= k < |fields| :: fields[k].Fixed? && fields[k].n > 0
  }

  lemma {:induction false} OffsetOfTail(fields: seq<Field>, k: nat)
    requires 0 < k <= |fields| && AllFixed(fields)
    ensures Offset(fields, k) == fields[0].n + Offset(fields[1..], k - 1)
    decreases k
  {
    if k > 1 {
      OffsetOfTail(fields, k - 1);
    }
  }

  /** Integer `k` is read if the packet goes that far; otherwise it counts as 0. */
  predicate NumberIsRead(s: bytes, p: nat, fields: seq<Field>, k: nat)
    requires p <= |s| && k < |fields| && AllFixed(fields)
  {
    NumberAt(ParseFields(s, p, fields).items, k) == Present(s, p + Offset(fields, k), fields[k].n, |s|)
  }

  /** The integers are read to their end, or the packet is too short. */
  predicate EndIsRead(s: bytes, p: nat, fields: seq<Field>)
    requires p <= |s| && AllFixed(fields)
  {
    var r, end := ParseFields(s, p, fields), p + Offset(fields, |fields|);
    if end <= |s| then r.rc == Ok && r.pos == end else r.rc == TruncatedPacket
  }

  lemma {:induction false} FixedAt(s: bytes, p: nat, fields: seq<Field>, k: nat)
    requires p <= |s| && k < |fields| && AllFixed(fields)
    ensures NumberIsRead(s, p, fields, k)
    decreases |fields|
  {
    var q := p + fields[0].n;
    if q > |s| || k == 0 {
      FirstNumber(s, p, fields, k);
    } else {
      FixedAt(s, q, fields[1..], k - 1);
      LaterNumber(s, p, fields, k, q);
    }
  }

  lemma {:induction false} FirstNumber(s: bytes, p: nat, fields: seq<Field>, k: nat)
    requires k < |fields| && AllFixed(fields) && p <= |s| && (p + fields[0].n > |s| || k == 0)
    ensures NumberIsRead(s, p, fields, k)
  {
    if k > 0 {
      OffsetOfTail(fields, k);
    } else if p + fields[0].n <= |s| {
      FieldStep(s, p, fields);
    }
  }

  lemma {:induction false} LaterNumber(s: bytes, p: nat, fields: seq<Field>, k: nat, q: nat)
    requires 0 < k < |fields| && AllFixed(fields) && q == p + fields[0].n <= |s|
    requires NumberIsRead(s, q, fields[1..], k - 1)
    ensures NumberIsRead(s, p, fields, k)
  {
    FieldStep(s, p, fields);
    OffsetOfTail(fields, k);
  }

  lemma {:induction false} FixedEnd(s: bytes, p: nat, fields: seq<Field>)
    requires p <= |s| && AllFixed(fields)
    ensures EndIsRead(s, p, fields)
    decreases |fields|
  {
    if fields != [] {
      var q := p + fields[0].n;
      if q <= |s| {
        FixedEnd(s, q, fields[1..]);
      }
      LaterEnd(s, p, fields, q);
    }
  }

  lemma {:induction false} LaterEnd(s: bytes, p: nat, fields: seq<Field>, q: nat)
    requires fields != [] && AllFixed(fields) && p <= |s| && q == p + fields[0].n
    requires q <= |s| ==> EndIsRead(s, q, fields[1..])
    ensures EndIsRead(s, p, fields)
  {
    OffsetOfTail(fields, |fields|);
    if q <= |s| {
      FieldStep(s, p, fields);
    }
  }

  /** Where a value ends whose length byte, at `p`, is `len`: behind those bytes, or with the packet. */
  function EndAt(s: bytes, p: nat, len: nat): (end: nat)
    ensures end <= |s|
  {
    if p + 1 + len <= |s| then p + 1 + len else |s|
  }

  /** Its fields by position, as far as the packet goes. */
  function ClockAt(s: bytes, p: nat, len: nat): Datum<Slice> {
    var end := EndAt(s, p, len);
    Time(Present(s, p + 1, 1, end) == 1, Present(s, p + 2, 4, end), Present(s, p + 6, 1, end),
         Present(s, p + 7, 1, end), Present(s, p + 8, 1, end), Present(s, p + 9, 4, end))
  }

  function CalendarAt(s: bytes, p: nat, len: nat): Datum<Slice> {
    var end := EndAt(s, p, len);
    Date(Present(s, p + 1, 2, end), Present(s, p + 3, 1, end), Present(s, p + 4, 1, end), Present(s, p + 5, 1, end),
         Present(s, p + 6, 1, end), Present(s, p + 7, 1, end), Present(s, p + 8, 4, end))
  }

  lemma {:induction false} ClockOffsets(len: byte)
    requires len in {8, 12}
    ensures var f := ClockFields(len);
            && AllFixed(f) && Offset(f, 0) == 0 && Offset(f, 1) == 1 && Offset(f, 2) == 5 && Offset(f, 3) == 6
            && Offset(f, 4) == 7 && Offset(f, 5) == 8 && (len == 12 ==> Offset(f, 6) == 12)
  {
  }

  /** Field `k` of a TIME. */
  lemma {:induction false} ClockNumber(s: bytes, p: nat, len: byte, k: nat, at: nat, w: nat)
    requires p < |s| && len in {0, 8, 12}
    requires (k, at, w) in {(0, 1, 1), (1, 2, 4), (2, 6, 1), (3, 7, 1), (4, 8, 1), (5, 9, 4)}
    ensures NumberAt(ParseFields(s, p + 1, ClockFields(len)).items, k) == Present(s, p + at, w, EndAt(s, p, len))
  {
    var fields := ClockFields(len);
    if k < |fields| {
      ClockOffsets(len);
      FixedAt(s, p + 1, fields, k);
    }
  }

  lemma {:induction false} ClockItems(s: bytes, p: nat, len: byte)
    requires p < |s| && len in {0, 8, 12}
    ensures ClockOf(ParseFields(s, p + 1, ClockFields(len)).items) == ClockAt(s, p, len)
  {
    ClockNumber(s, p, len, 0, 1, 1);
    ClockNumber(s, p, len, 1, 2, 4);
    ClockNumber(s, p, len, 2, 6, 1);
    ClockNumber(s, p, len, 3, 7, 1);
    ClockNumber(s, p, len, 4, 8, 1);
    ClockNumber(s, p, len, 5, 9, 4);
  }

  lemma {:induction false} ClockEnds(s: bytes, p: nat, len: byte)
    requires p < |s| && len in {0, 8, 12}
    ensures var r := ParseFields(s, p + 1, ClockFields(len));
            if p + 1 + len <= |s| then r.rc == Ok && r.pos == p + 1 + len else r.rc == TruncatedPacket
  {
    FixedEnd(s, p + 1, ClockFields(len));
    if len > 0 {
      ClockOffsets(len);
    }
  }

  lemma {:induction false} CalendarOffsets(len: byte)
    requires len in {4, 7, 11}
    ensures var f := CalendarFields(len);
            && AllFixed(f) && Offset(f, 0) == 0 && Offset(f, 1) == 2 && Offset(f, 2) == 3 && Offset(f, 3) == 4
            && (len > 4 ==> Offset(f, 4) == 5 && Offset(f, 5) == 6 && Offset(f, 6) == 7)
            && (len == 11 ==> Offset(f, 7) == 11)
  {
  }

  /** Field `k` of a date. */
  lemma {:induction false} CalendarNumber(s: bytes, p: nat, len: byte, k: nat, at: nat, w: nat)
    requires p < |s| && len in {0, 4, 7, 11}
    requires (k, at, w) in {(0, 1, 2), (1, 3, 1), (2, 4, 1), (3, 5, 1), (4, 6, 1), (5, 7, 1), (6, 8, 4)}
    ensures NumberAt(ParseFields(s, p + 1, CalendarFields(len)).items, k) == Present(s, p + at, w, EndAt(s, p, len))
  {
    var fields := CalendarFields(len);
    if k < |fields| {
      CalendarOffsets(len);
      FixedAt(s, p + 1, fields, k);
    }
  }

  lemma {:induction false} CalendarItems(s: bytes, p: nat, len: byte)
    requires p < |s| && len in {0, 4, 7, 11}
    ensures CalendarOf(ParseFields(s, p + 1, CalendarFields(len)).items) == CalendarAt(s, p, len)
  {
    CalendarNumber(s, p, len, 0, 1, 2);
    CalendarNumber(s, p, len, 1, 3, 1);
    CalendarNumber(s, p, len, 2, 4, 1);
    CalendarNumber(s, p, len, 3, 5, 1);
    CalendarNumber(s, p, len, 4, 6, 1);
    CalendarNumber(s, p, len, 5, 7, 1);
    CalendarNumber(s, p, len, 6, 8, 4);
  }

  lemma {:induction false} CalendarEnds(s: bytes, p: nat, len: byte)
    requires p < |s| && len in {0, 4, 7, 11}
    ensures var r := ParseFields(s, p + 1, CalendarFields(len));
            if p + 1 + len <= |s| then r.rc == Ok && r.pos == p + 1 + len else r.rc == TruncatedPacket
  {
    FixedEnd(s, p + 1, CalendarFields(len));
    if len > 0 {
      CalendarOffsets(len);
    }
  }

  /** What the row parser reads for a column, and where it goes on, by the code of its type. */
  lemma {:induction false} DatumByPosition(s: bytes, p: nat, kind: byte)
    requires p <= |s|
    ensures kind == 0x01 ==> TakeDatum(s, p, kind) == NumericAt(s, p, 1)
    ensures kind in {0x02, 0x0d} ==> TakeDatum(s, p, kind) == NumericAt(s, p, 2)
    ensures kind in {0x03, 0x04, 0x09} ==> TakeDatum(s, p, kind) == NumericAt(s, p, 4)
    ensures kind in {0x05, 0x08} ==> TakeDatum(s, p, kind) == NumericAt(s, p, 8)
    ensures IsText(kind) ==>
              match TakeLenencBuffer(s, p)
              case Good(x, q) => TakeDatum(s, p, kind) == Good(Str(x), q)
              case Bad(rc, q) => TakeDatum(s, p, kind) == Bad(rc, q)
    ensures kind in {0x07, 0x0a, 0x0b, 0x0c} && p == |s| ==> TakeDatum(s, p, kind) == Bad(TruncatedPacket, p)
    ensures kind in {0x06, 0x0e, 0xf3, 0xf4} || 0x11 <= kind <= 0xf1 ==> TakeDatum(s, p, kind) == Bad(UnknownType, p)
  {
  }

  function NumericAt(s: bytes, p: nat, w: nat): Got<Datum<Slice>> {
    if p + w <= |s| then Good(Integer(FromLE(s[p..p + w])), p + w) else Bad(TruncatedPacket, p)
  }

  /** The same for a TIME: its fields by position, each read as far as the packet goes, the others 0; a value that is
      not whole is an error, and leaves those fields behind. */
  lemma {:induction false} ClockByPosition(s: bytes, p: nat, prior: Datum<Slice>)
    requires p < |s|
    ensures var g, left := TakeDatum(s, p, 0x0b), Partial(s, p, 0x0b, prior);
            if s[p] !in {0, 8, 12} then
              g.Bad? && g.rc == ProtocolViolation && left == Time(false, 0, 0, 0, 0, 0)
            else if p + 1 + s[p] <= |s| then g == Good(ClockAt(s, p, s[p]), p + 1 + s[p])
            else g.Bad? && g.rc == TruncatedPacket && left == ClockAt(s, p, s[p])
  {
    if s[p] in {0, 8, 12} {
      ClockItems(s, p, s[p]);
      ClockEnds(s, p, s[p]);
    }
  }

  /** The same for a DATE, DATETIME or TIMESTAMP. */
  lemma {:induction false} CalendarByPosition(s: bytes, p: nat, kind: byte, prior: Datum<Slice>)
    requires p < |s| && kind in {0x07, 0x0a, 0x0c}
    ensures var g, left := TakeDatum(s, p, kind), Partial(s, p, kind, prior);
            if s[p] !in {0, 4, 7, 11} then
              g.Bad? && g.rc == ProtocolViolation && left == Date(0, 0, 0, 0, 0, 0, 0)
            else if p + 1 + s[p] <= |s| then g == Good(CalendarAt(s, p, s[p]), p + 1 + s[p])
            else g.Bad? && g.rc == TruncatedPacket && left == CalendarAt(s, p, s[p])
  {
    assert ArmOf(kind) == Calendar;
    CalendarIsTaken(s, p);
    if s[p] in {0, 4, 7, 11} {
      CalendarItems(s, p, s[p]);
    }
  }

  lemma {:induction false} CalendarIsTaken(s: bytes, p: nat)
    requires p < |s|
    ensures var g := TakeCalendar(s, p);
            if s[p] !in {0, 4, 7, 11} then g.Bad? && g.rc == ProtocolViolation
            else if p + 1 + s[p] <= |s| then g == Good(CalendarAt(s, p, s[p]), p + 1 + s[p])
            else g.Bad? && g.rc == TruncatedPacket
  {
    if s[p] in {0, 4, 7, 11} {
      CalendarItems(s, p, s[p]);
      CalendarEnds(s, p, s[p]);
    }
  }

  // ---------------------------------------------------------------- round trip

  /** `d`, with its text taken out of the packet. */
  function Resolve(s: bytes, d: Datum<Slice>): Datum<bytes> {
    match d
    case Integer(n) => Integer(n)
    case Time(a, b, c, e, f, g) => Time(a, b, c, e, f, g)
    case Date(a, b, c, e, f, g, h) => Date(a, b, c, e, f, g, h)
    case Str(x) => if x.at + x.len <= |s| then Str(s[x.at..x.at + x.len]) else NoDatum
    case NoDatum => NoDatum
  }

  /** A TIME of midnight: written with length 0, whatever its days and sign. */
  predicate Midnight(d: Datum<bytes>) {
    d.Time? && d.hour == d.minute == d.second == d.micros == 0
  }

  /** What comes back of a value: a midnight loses its days and its sign. */
  function Returned(d: Datum<bytes>): Datum<bytes> {
    if Midnight(d) then Time(false, 0, 0, 0, 0, 0) else d
  }

  lemma {:induction false} ReturnedIff(d: Datum<bytes>)
    ensures Returned(d) == d <==> !Midnight(d) || (d.days == 0 && !d.negative)
  {
  }

  /** Items that hold integer values are those integers. */
  lemma {:induction false} HeldNumbers(s: bytes, items: seq<Item>, values: seq<Value>)
    requires HoldAll(s, items, values) && forall k | 0 <= k < |values| :: values[k].Int?
    ensures |items| == |values| && forall k | 0 <= k < |items| :: NumberAt(items, k) == values[k].v
  {
    forall k | 0 <= k < |items|
      ensures NumberAt(items, k) == values[k].v
    {
      assert Holds(s, items[k], values[k]);
    }
  }

  lemma {:induction false} HeldClock(s: bytes, items: seq<Item>, d: Datum<bytes>)
    requires d.Time? && HoldAll(s, items, ClockValues(d))
    ensures Resolve(s, ClockOf(items)) == Returned(d)
  {
    HeldNumbers(s, items, ClockValues(d));
  }

  lemma {:induction false} HeldCalendar(s: bytes, items: seq<Item>, d: Datum<bytes>)
    requires d.Date? && HoldAll(s, items, CalendarValues(d))
    ensures Resolve(s, CalendarOf(items)) == d
  {
    HeldNumbers(s, items, CalendarValues(d));
  }

  lemma {:induction false} ClockRoundTrip(s: bytes, p: nat, d: Datum<bytes>)
    requires FitsArm(Clock, d) && FitAll(ClockFields(ClockLength(d)), ClockValues(d))
    requires At(s, p, [ClockLength(d)] + Encode(ClockFields(ClockLength(d)), ClockValues(d)))
    ensures var g := TakeClock(s, p);
            && g.Good? && g.pos == p + 1 + |Encode(ClockFields(ClockLength(d)), ClockValues(d))|
            && Resolve(s, g.value) == Returned(d)
  {
    var len, values := ClockLength(d), ClockValues(d);
    ClockFits(d);
    AtSplit(s, p, [len], Encode(ClockFields(len), values));
    assert s[p] == s[p..p + 1][0];
    FieldsRoundTrip(s, p + 1, ClockFields(len), values);
    HeldClock(s, ParseFields(s, p + 1, ClockFields(len)).items, d);
  }

  lemma {:induction false} CalendarRoundTrip(s: bytes, p: nat, d: Datum<bytes>)
    requires FitsArm(Calendar, d) && FitAll(CalendarFields(CalendarLength(d)), CalendarValues(d))
    requires At(s, p, [CalendarLength(d)] + Encode(CalendarFields(CalendarLength(d)), CalendarValues(d)))
    ensures var g := TakeCalendar(s, p);
            && g.Good? && g.pos == p + 1 + |Encode(CalendarFields(CalendarLength(d)), CalendarValues(d))|
            && Resolve(s, g.value) == d
  {
    var len, values := CalendarLength(d), CalendarValues(d);
    CalendarFits(d);
    AtSplit(s, p, [len], Encode(CalendarFields(len), values));
    assert s[p] == s[p..p + 1][0];
    FieldsRoundTrip(s, p + 1, CalendarFields(len), values);
    HeldCalendar(s, ParseFields(s, p + 1, CalendarFields(len)).items, d);
  }

  /** The row parser reads back what the execute builder writes, for every value of every type: exactly, except that a
      midnight comes back as zero. */
  lemma {:induction false} DatumRoundTrip(s: bytes, p: nat, kind: byte, d: Datum<bytes>)
    requires ArmOf(kind) != Nothing && ArmOf(kind) != Unknown
    requires FitsArm(ArmOf(kind), d) && At(s, p, EncodeDatum(kind, d))
    ensures var g := TakeDatum(s, p, kind);
            g.Good? && g.pos == p + |EncodeDatum(kind, d)| && Resolve(s, g.value) == Returned(d)
  {
    match ArmOf(kind)
    case Numeric(w) => TakeIntAt(s, p, d.n, w);
    case Clock => ClockFits(d); ClockRoundTrip(s, p, d);
    case Calendar => CalendarFits(d); CalendarRoundTrip(s, p, d);
    case Textual => LenencBufferRoundTrip(s, p, d.text);
    case Nothing =>
    case Unknown =>
  }

  /** A value comes back unchanged if and only if it is no midnight, or a midnight of zero days and positive sign. */
  lemma {:induction false} DatumComesBackIff(s: bytes, p: nat, kind: byte, d: Datum<bytes>)
    requires ArmOf(kind) != Nothing && ArmOf(kind) != Unknown
    requires FitsArm(ArmOf(kind), d) && At(s, p, EncodeDatum(kind, d))
    ensures TakeDatum(s, p, kind).Good?
    ensures Resolve(s, TakeDatum(s, p, kind).value) == d <==> !Midnight(d) || (d.days == 0 && !d.negative)
  {
    DatumRoundTrip(s, p, kind, d);
  }

  /** A packet that ends inside a value is reported as truncated, wherever it ends. */
  lemma {:induction false} DatumCut(s: bytes, p: nat, kind: byte, d: Datum<bytes>)
    requires FitsArm(ArmOf(kind), d) && Cut(s, p, EncodeDatum(kind, d))
    ensures TakeDatum(s, p, kind).Bad? && TakeDatum(s, p, kind).rc == TruncatedPacket
  {
    match ArmOf(kind)
    case Numeric(_) =>
    case Clock => ClockFits(d); MeasuredCut(s, p, ClockLength(d), ClockFields(ClockLength(d)), ClockValues(d));
    case Calendar =>
      CalendarFits(d);
      MeasuredCut(s, p, CalendarLength(d), CalendarFields(CalendarLength(d)), CalendarValues(d));
    case Textual => LenencBufferCut(s, p, d.text);
    case _ =>
  }

  lemma {:induction false} MeasuredCut(s: bytes, p: nat, len: byte, fields: seq<Field>, values: seq<Value>)
    requires FitAll(fields, values) && Remainder !in fields && Cut(s, p, [len] + Encode(fields, values))
    ensures p < |s| ==> s[p] == len && ParseFields(s, p + 1, fields).rc == TruncatedPacket
  {
    if p < |s| {
      CutSplit(s, p, [len], Encode(fields, values));
      assert s[p] == s[p..p + 1][0];
      CutFields(s, p + 1, fields, values);
    }
  }
}
