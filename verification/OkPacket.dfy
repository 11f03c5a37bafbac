/** The OK packet and its session-state changes: `trilogy_parse_ok_packet` of src/protocol.c. */
module OkPackets {
  import opened Bytes
  import opened Builders
  import opened Readers
  import opened Layouts

  const MAX_LAST_GTID_LEN: nat := 57
  const SESSION_TRACK_GTIDS: byte := 0x03

  function DataOf(s: bytes, d: Slice): bytes
    requires d.at + d.len <= |s|
  {
    s[d.at..d.at + d.len]
  }

  lemma {:induction false} TextAt(s: bytes, p: nat, d: bytes)
    requires |d| <= SIZE_MAX && At(s, p, LenencBuffer(d))
    ensures var g := TakeLenencBuffer(s, p);
            g.Good? && g.pos == p + |LenencBuffer(d)| && DataOf(s, g.value) == d
  {
    LenencBufferRoundTrip(s, p, d);
  }

  // ---------------------------------------------------------------- session-state changes

  datatype Change = Change(kind: byte, info: bytes)

  /** The changes that can be read, and the code the reading stops with. */
  datatype Changes = Changes(rc: Rc, list: seq<Change>)

  function DecodeChanges(s: bytes, p: nat): Changes
    requires p <= |s|
    decreases |s| - p
  {
    if p == |s| then Changes(Ok, [])
    else
      match TakeLenencBuffer(s, p + 1)
      case Bad(rc, _) => Changes(rc, [])
      case Good(d, q) =>
        var tail := DecodeChanges(s, q);
        Changes(tail.rc, [Change(s[p], DataOf(s, d))] + tail.list)
  }

  datatype Tracked = Tracked(rc: Rc, gtid: bytes)

  /** What one change does to the last GTID. An entry repeats its type in front of the GTID; what follows the GTID is
      not looked at. */
  function StepGtid(c: Change, gtid: bytes): Tracked {
    if c.kind != SESSION_TRACK_GTIDS then Tracked(Ok, gtid)
    else if c.info == [] then Tracked(TruncatedPacket, gtid)
    else
      match TakeLenencBuffer(c.info, 1)
      case Bad(rc, _) => Tracked(rc, gtid)
      case Good(d, _) =>
        if d.len > MAX_LAST_GTID_LEN then Tracked(ProtocolViolation, gtid) else Tracked(Ok, DataOf(c.info, d))
  }

  function FoldGtid(list: seq<Change>, gtid: bytes): Tracked
    decreases |list|
  {
    if list == [] then Tracked(Ok, gtid)
    else
      var t := StepGtid(list[0], gtid);
      if t.rc != Ok then t else FoldGtid(list[1..], t.gtid)
  }

  /** The session-state loop, from a cursor and the GTID found so far: decode the changes, then fold over them. */
  function Track(s: bytes, p: nat, gtid: bytes): Tracked
    requires p <= |s|
  {
    var changes := DecodeChanges(s, p);
    var t := FoldGtid(changes.list, gtid);
    if t.rc != Ok then t else Tracked(changes.rc, t.gtid)
  }

  /** The last GTIDS entry of a list, looked for from its end. */
  function LastEntry(list: seq<Change>): (r: Option<Change>)
    ensures r.Some? ==> r.value.kind == SESSION_TRACK_GTIDS
    decreases |list|
  {
    if list == [] then None
    else if list[|list| - 1].kind == SESSION_TRACK_GTIDS then Some(list[|list| - 1])
    else LastEntry(list[..|list| - 1])
  }

  lemma {:induction false} LastEntryCons(c: Change, list: seq<Change>)
    ensures LastEntry([c] + list) ==
            if LastEntry(list).Some? then LastEntry(list) else if c.kind == SESSION_TRACK_GTIDS then Some(c) else None
    decreases |list|
  {
    var all := [c] + list;
    if list == [] {
      assert all[..0] == [];
    } else {
      assert all[|all| - 1] == list[|list| - 1];
      assert all[..|all| - 1] == [c] + list[..|list| - 1];
      LastEntryCons(c, list[..|list| - 1]);
    }
  }

  /** The GTID of a GTIDS entry: behind a byte that is skipped, a length in one, three, four or nine bytes, and that
      many bytes, at most 57. What follows them is not looked at. */
  function GtidIn(info: bytes): (g: Option<bytes>)
    ensures g.Some? ==> |g.value| <= 57
  {
    if |info| < 2 then None
    else if info[1] < 0xfb then Enclosed(info, 2, info[1])
    else if info[1] == 0xfc && |info| >= 4 then Enclosed(info, 4, FromLE(info[2..4]))
    else if info[1] == 0xfd && |info| >= 5 then Enclosed(info, 5, FromLE(info[2..5]))
    else if info[1] == 0xfe && |info| >= 10 then Enclosed(info, 10, FromLE(info[2..10]))
    else None
  }

  function Enclosed(info: bytes, at: nat, len: nat): Option<bytes> {
    if len <= 57 && at + len <= |info| then Some(info[at..at + len]) else None
  }

  lemma {:induction false} EntryIsRead(c: Change, gtid: bytes)
    ensures StepGtid(c, gtid).rc == Ok <==> c.kind != 0x03 || GtidIn(c.info).Some?
    ensures c.kind == 0x03 && GtidIn(c.info).Some? ==> StepGtid(c, gtid).gtid == GtidIn(c.info).value
    ensures c.kind != 0x03 || GtidIn(c.info).None? ==> StepGtid(c, gtid).gtid == gtid
  {
  }

  /** Every GTIDS entry holds a GTID. */
  predicate WellFormed(list: seq<Change>) {
    forall c | c in list :: c.kind == 0x03 ==> GtidIn(c.info).Some?
  }

  /** The GTID of the last GTIDS entry, or what there was before. */
  function LastGtid(list: seq<Change>, gtid: bytes): bytes {
    match LastEntry(list)
    case Some(c) => if GtidIn(c.info).Some? then GtidIn(c.info).value else gtid
    case None => gtid
  }

  /** The fold accepts exactly the lists whose every GTIDS entry holds a GTID of at most 57 bytes, and then returns the
      last one, or what it started with if there is none. */
  lemma {:induction false} FoldReturnsTheLast(list: seq<Change>, gtid: bytes)
    ensures FoldGtid(list, gtid).rc == Ok <==> WellFormed(list)
    ensures WellFormed(list) ==> FoldGtid(list, gtid).gtid == LastGtid(list, gtid)
    decreases |list|
  {
    if list != [] {
      var c, rest := list[0], list[1..];
      assert list == [c] + rest;
      WellFormedCons(c, rest);
      EntryIsRead(c, gtid);
      if StepGtid(c, gtid).rc == Ok {
        FoldReturnsTheLast(rest, StepGtid(c, gtid).gtid);
        if WellFormed(rest) {
          LastGtidCons(c, rest, gtid);
        }
      }
    }
  }

  lemma {:induction false} WellFormedCons(c: Change, list: seq<Change>)
    ensures WellFormed([c] + list) <==> (c.kind == 0x03 ==> GtidIn(c.info).Some?) && WellFormed(list)
  {
    if WellFormed([c] + list) {
      assert c in [c] + list;
      forall d | d in list
        ensures d in [c] + list
      {
      }
    }
  }

  lemma {:induction false} LastGtidCons(c: Change, list: seq<Change>, gtid: bytes)
    requires WellFormed([c] + list)
    ensures LastGtid([c] + list, gtid) ==
            LastGtid(list, if c.kind == 0x03 && GtidIn(c.info).Some? then GtidIn(c.info).value else gtid)
  {
    WellFormedCons(c, list);
    LastEntryCons(c, list);
    LastIsWellFormed(list);
  }

  lemma {:induction false} LastIsWellFormed(list: seq<Change>)
    requires WellFormed(list)
    ensures LastEntry(list).Some? ==> GtidIn(LastEntry(list).value.info).Some?
    decreases |list|
  {
    if list != [] {
      assert list[|list| - 1] in list;
      if list[|list| - 1].kind != SESSION_TRACK_GTIDS {
        LastIsWellFormed(list[..|list| - 1]);
      }
    }
  }

  /** An entry as a server writes it: whatever its first byte, its GTID is found if it has at most 57 bytes, and refused
      with TRILOGY_PROTOCOL_VIOLATION if it has more. */
  lemma {:induction false} EntryOnTheWire(tag: byte, g: bytes, more: bytes, gtid: bytes)
    requires |g| <= SIZE_MAX
    ensures GtidIn([tag] + LenencBuffer(g) + more) == if |g| <= 57 then Some(g) else None
    ensures StepGtid(Change(0x03, [tag] + LenencBuffer(g) + more), gtid) ==
            if |g| <= 57 then Tracked(Ok, g) else Tracked(ProtocolViolation, gtid)
  {
    var info := [tag] + LenencBuffer(g) + more;
    AtWhole(info);
    AtSplit(info, 0, [tag] + LenencBuffer(g), more);
    AtSplit(info, 0, [tag], LenencBuffer(g));
    TextAt(info, 1, g);
    EntryIsRead(Change(0x03, info), gtid);
  }

  /** A list with such a long entry behind well-formed ones. */
  lemma {:induction false} LongGtidIsRefused(before: seq<Change>, tag: byte, g: bytes, more: bytes, after: seq<Change>,
                                             gtid: bytes)
    requires WellFormed(before) && 57 < |g| <= SIZE_MAX
    ensures FoldGtid(before + [Change(0x03, [tag] + LenencBuffer(g) + more)] + after, gtid).rc == ProtocolViolation
    decreases |before|
  {
    var c := Change(0x03, [tag] + LenencBuffer(g) + more);
    var list := before + [c] + after;
    if before == [] {
      EntryOnTheWire(tag, g, more, gtid);
      assert list[0] == c;
    } else {
      var b := before[0];
      assert b in before && list[0] == b && list[1..] == before[1..] + [c] + after;
      EntryIsRead(b, gtid);
      LongGtidIsRefused(before[1..], tag, g, more, after, StepGtid(b, gtid).gtid);
    }
  }

  function EncodeChange(c: Change): bytes {
    [c.kind] + LenencBuffer(c.info)
  }

  function EncodeChanges(list: seq<Change>): bytes {
    if list == [] then [] else EncodeChange(list[0]) + EncodeChanges(list[1..])
  }

  /** Decoding undoes encoding for every list of changes. */
  lemma {:induction false} ChangesRoundTrip(s: bytes, p: nat, list: seq<Change>)
    requires forall c | c in list :: |c.info| <= SIZE_MAX
    requires At(s, p, EncodeChanges(list)) && p + |EncodeChanges(list)| == |s|
    ensures DecodeChanges(s, p) == Changes(Ok, list)
    decreases |list|
  {
    if list != [] {
      var c := list[0];
      AtSplit(s, p, EncodeChange(c), EncodeChanges(list[1..]));
      TakeEncodedChange(s, p, c);
      var q := p + |EncodeChange(c)|;
      ChangesRoundTrip(s, q, list[1..]);
      assert [c] + list[1..] == list;
    }
  }

  lemma {:induction false} TakeEncodedChange(s: bytes, p: nat, c: Change)
    requires |c.info| <= SIZE_MAX && At(s, p, EncodeChange(c))
    ensures var q := p + |EncodeChange(c)|;
            && DecodeChanges(s, p).rc == DecodeChanges(s, q).rc
            && DecodeChanges(s, p).list == [c] + DecodeChanges(s, q).list
  {
    AtSplit(s, p, [c.kind], LenencBuffer(c.info));
    assert s[p] == s[p..p + 1][0];
    TextAt(s, p + 1, c.info);
    DecodeStep(s, p, c, p + |EncodeChange(c)|);
  }

  lemma {:induction false} DecodeStep(s: bytes, p: nat, c: Change, q: nat)
    requires p < |s| && s[p] == c.kind
    requires TakeLenencBuffer(s, p + 1).Good? && TakeLenencBuffer(s, p + 1).pos == q
    requires DataOf(s, TakeLenencBuffer(s, p + 1).value) == c.info
    ensures DecodeChanges(s, p).rc == DecodeChanges(s, q).rc
    ensures DecodeChanges(s, p).list == [c] + DecodeChanges(s, q).list
  {
  }

  // ---------------------------------------------------------------- the packet

  datatype OkPacket = OkPacket(
    affectedRows: nat, lastInsertId: nat, statusFlags: nat, warningCount: nat, txnStatusFlags: nat,
    sessionStatus: bytes, stateChanges: bytes, info: bytes, lastGtid: bytes)

  datatype OkResult = Accepted(packet: OkPacket) | Rejected(rc: Rc)

  /** The packet type and the counters, then what the capabilities add. */
  function OkHead(caps: nat): seq<Field> {
    [Fixed(1), Varint, Varint] +
    (if Bit(caps, CAP_PROTOCOL_41) then [Fixed(2), Fixed(2)]
     else if Bit(caps, CAP_TRANSACTIONS) then [Fixed(2)]
     else [])
  }

  function HeadOf(items: seq<Item>, caps: nat): OkPacket {
    if Bit(caps, CAP_PROTOCOL_41) then
      OkPacket(NumberAt(items, 1), NumberAt(items, 2), NumberAt(items, 3), NumberAt(items, 4), 0, [], [], [], [])
    else
      OkPacket(NumberAt(items, 1), NumberAt(items, 2), 0, 0, NumberAt(items, 3), [], [], [], [])
  }

  /** What follows the head: session information when it is tracked and there is any, otherwise a message. */
  function ParseTail(s: bytes, p: nat, caps: nat, ok: OkPacket): OkResult
    requires p <= |s|
  {
    if !Bit(caps, CAP_SESSION_TRACK) || p == |s| then Accepted(ok.(info := s[p..]))
    else
      match TakeLenencBuffer(s, p)
      case Bad(rc, _) => Rejected(rc)
      case Good(d, q) =>
        var ok' := ok.(sessionStatus := DataOf(s, d));
        if Bit(ok.statusFlags, STATUS_SESSION_STATE_CHANGED) then ParseStateChanges(s, q, ok')
        else Finished(s, q, ok')
  }

  function ParseStateChanges(s: bytes, p: nat, ok: OkPacket): OkResult
    requires p <= |s|
  {
    match TakeLenencBuffer(s, p)
    case Bad(rc, _) => Rejected(rc)
    case Good(d, q) =>
      var t := Track(DataOf(s, d), 0, []);
      if t.rc != Ok then Rejected(t.rc) else Finished(s, q, ok.(stateChanges := DataOf(s, d), lastGtid := t.gtid))
  }

  function Finished(s: bytes, p: nat, ok: OkPacket): OkResult {
    if p < |s| then Rejected(ExtraDataInPacket) else Accepted(ok)
  }

  function ParseOk(s: bytes, caps: nat): OkResult {
    var head := ParseFields(s, 0, OkHead(caps));
    if head.rc != Ok then Rejected(head.rc) else ParseTail(s, head.pos, caps, HeadOf(head.items, caps))
  }

  // ---------------------------------------------------------------- round trip

  function OkValues(o: OkPacket, kind: byte, caps: nat): seq<Value> {
    [Int(kind), Int(o.affectedRows), Int(o.lastInsertId)] +
    (if Bit(caps, CAP_PROTOCOL_41) then [Int(o.statusFlags), Int(o.warningCount)]
     else if Bit(caps, CAP_TRANSACTIONS) then [Int(o.txnStatusFlags)]
     else [])
  }

  /** The head: the packet type, two length-encoded counters, then two or one 16-bit numbers. */
  function HeadBytes(o: OkPacket, kind: byte, caps: nat): bytes {
    [kind] + Lenenc(o.affectedRows) + Lenenc(o.lastInsertId) +
    (if Bit(caps, CAP_PROTOCOL_41) then LE(o.statusFlags, 2) + LE(o.warningCount, 2)
     else if Bit(caps, CAP_TRANSACTIONS) then LE(o.txnStatusFlags, 2)
     else [])
  }

  /** What follows the head; a `brief` packet ends behind it. */
  function EncodeTail(o: OkPacket, caps: nat, brief: bool): bytes {
    if brief then []
    else if !Bit(caps, CAP_SESSION_TRACK) then o.info
    else if Bit(o.statusFlags, STATUS_SESSION_STATE_CHANGED) then
      LenencBuffer(o.sessionStatus) + LenencBuffer(o.stateChanges)
    else LenencBuffer(o.sessionStatus)
  }

  /** An OK packet on the wire. */
  function EncodeOk(o: OkPacket, kind: byte, caps: nat, brief: bool): bytes {
    HeadBytes(o, kind, caps) + EncodeTail(o, caps, brief)
  }

  predicate InRange(o: OkPacket, caps: nat) {
    && o.affectedRows <= SIZE_MAX && o.lastInsertId <= SIZE_MAX
    && o.statusFlags < 0x1_0000 && o.warningCount < 0x1_0000 && o.txnStatusFlags < 0x1_0000
    && |o.sessionStatus| <= SIZE_MAX && |o.stateChanges| <= SIZE_MAX
    && (if Bit(caps, CAP_PROTOCOL_41) then o.txnStatusFlags == 0 else
          o.statusFlags == o.warningCount == 0 && (Bit(caps, CAP_TRANSACTIONS) || o.txnStatusFlags == 0))
  }

  predicate CarriesChanges(o: OkPacket, caps: nat, brief: bool) {
    !brief && Bit(caps, CAP_SESSION_TRACK) && Bit(o.statusFlags, STATUS_SESSION_STATE_CHANGED)
  }

  predicate AreChanges(changes: bytes, list: seq<Change>) {
    changes == EncodeChanges(list) && forall c | c in list :: |c.info| <= SIZE_MAX
  }

  /** An OK packet a server can send under `caps`: fields in range, absent fields empty, and `lastGtid` the last GTID of
      its state changes `list`. It may be `brief` when nothing is to follow the head, whatever its flags promise. */
  predicate Sendable(o: OkPacket, caps: nat, list: seq<Change>, brief: bool) {
    && InRange(o, caps)
    && (if Bit(caps, CAP_SESSION_TRACK) then o.info == [] else o.sessionStatus == o.stateChanges == o.lastGtid == [])
    && (brief ==> o.info == o.sessionStatus == [])
    && (if CarriesChanges(o, caps, brief)
        then AreChanges(o.stateChanges, list) && WellFormed(list) && o.lastGtid == LastGtid(list, [])
        else o.stateChanges == o.lastGtid == [])
  }

  /** `o` without what follows its head. */
  function Bare(o: OkPacket): OkPacket {
    o.(sessionStatus := [], stateChanges := [], info := [], lastGtid := [])
  }

  lemma {:induction false} HeadIsEncoded(o: OkPacket, kind: byte, caps: nat)
    requires InRange(o, caps)
    ensures FitAll(OkHead(caps), OkValues(o, kind, caps)) && Remainder !in OkHead(caps)
    ensures Encode(OkHead(caps), OkValues(o, kind, caps)) == HeadBytes(o, kind, caps)
  {
    HeadFits(o, kind, caps);
    var fields, values := OkHead(caps), OkValues(o, kind, caps);
    EncodeInOrder(fields, values);
    assert LE(kind, 1) == [kind];
    CountersAreEncoded(o, kind, caps);
    if |fields| > 3 {
      assert EncodeFirst(fields, values, 4) == EncodeFirst(fields, values, 3) + LE(values[3].v, 2);
    }
    if |fields| > 4 {
      assert EncodeFirst(fields, values, 5) == EncodeFirst(fields, values, 4) + LE(values[4].v, 2);
    }
  }

  lemma {:induction false} HeadFits(o: OkPacket, kind: byte, caps: nat)
    requires InRange(o, caps)
    ensures FitAll(OkHead(caps), OkValues(o, kind, caps)) && Remainder !in OkHead(caps)
  {
    PowersOf256();
  }

  lemma {:induction false} CountersAreEncoded(o: OkPacket, kind: byte, caps: nat)
    requires FitAll(OkHead(caps), OkValues(o, kind, caps))
    ensures EncodeFirst(OkHead(caps), OkValues(o, kind, caps), 3) ==
            [kind] + Lenenc(o.affectedRows) + Lenenc(o.lastInsertId)
  {
    var fields, values := OkHead(caps), OkValues(o, kind, caps);
    assert EncodeFirst(fields, values, 1) == LE(kind, 1) == [kind];
    assert EncodeFirst(fields, values, 2) == EncodeFirst(fields, values, 1) + Lenenc(o.affectedRows);
    assert EncodeFirst(fields, values, 3) == EncodeFirst(fields, values, 2) + Lenenc(o.lastInsertId);
  }

  lemma {:induction false} HeldHead(items: seq<Item>, s: bytes, o: OkPacket, kind: byte, caps: nat)
    requires InRange(o, caps) && HoldAll(s, items, OkValues(o, kind, caps))
    ensures HeadOf(items, caps) == Bare(o)
  {
    var values := OkValues(o, kind, caps);
    forall k | 0 <= k < |values|
      ensures items[k] == Num(values[k].v)
    {
      assert Holds(s, items[k], values[k]);
    }
  }

  /** The head is read, whatever follows it. */
  lemma {:induction false} HeadIsRead(s: bytes, o: OkPacket, kind: byte, caps: nat)
    requires InRange(o, caps) && At(s, 0, HeadBytes(o, kind, caps))
    ensures ParseOk(s, caps) == ParseTail(s, |HeadBytes(o, kind, caps)|, caps, Bare(o))
  {
    HeadIsEncoded(o, kind, caps);
    FieldsRoundTrip(s, 0, OkHead(caps), OkValues(o, kind, caps));
    var head := ParseFields(s, 0, OkHead(caps));
    HeldHead(head.items, s, o, kind, caps);
    BehindHead(s, caps, head);
  }

  lemma {:induction false} BehindHead(s: bytes, caps: nat, head: Parsed)
    requires head == ParseFields(s, 0, OkHead(caps)) && head.rc == Ok
    ensures head.pos <= |s| && ParseOk(s, caps) == ParseTail(s, head.pos, caps, HeadOf(head.items, caps))
  {
  }

  /** What follows the session status: what the status flags promise. */
  function BehindStatus(s: bytes, q: nat, ok: OkPacket): OkResult
    requires q <= |s|
  {
    if Bit(ok.statusFlags, STATUS_SESSION_STATE_CHANGED) then ParseStateChanges(s, q, ok) else Finished(s, q, ok)
  }

  lemma {:induction false} StatusStep(s: bytes, p: nat, ok: OkPacket, caps: nat)
    requires p < |s| && Bit(caps, CAP_SESSION_TRACK) && TakeLenencBuffer(s, p).Good?
    ensures var g := TakeLenencBuffer(s, p);
            ParseTail(s, p, caps, ok) == BehindStatus(s, g.pos, ok.(sessionStatus := DataOf(s, g.value)))
  {
  }

  lemma {:induction false} StatusIsRead(s: bytes, p: nat, status: bytes, ok: OkPacket, caps: nat)
    requires Bit(caps, CAP_SESSION_TRACK) && |status| <= SIZE_MAX && At(s, p, LenencBuffer(status))
    ensures ParseTail(s, p, caps, ok) == BehindStatus(s, p + |LenencBuffer(status)|, ok.(sessionStatus := status))
  {
    TextAt(s, p, status);
    StatusStep(s, p, ok, caps);
  }

  lemma {:induction false} ChangesAreRead(s: bytes, p: nat, changes: bytes, list: seq<Change>, ok: OkPacket)
    requires |changes| <= SIZE_MAX && AreChanges(changes, list) && At(s, p, LenencBuffer(changes))
    ensures var t := FoldGtid(list, []);
            ParseStateChanges(s, p, ok) ==
            if t.rc != Ok then Rejected(t.rc)
            else Finished(s, p + |LenencBuffer(changes)|, ok.(stateChanges := changes, lastGtid := t.gtid))
  {
    TextAt(s, p, changes);
    AtWhole(changes);
    ChangesRoundTrip(changes, 0, list);
  }

  /** What the session-state loop must make of the changes `list`, if the packet carries any. */
  function TrackedOf(o: OkPacket, caps: nat, list: seq<Change>): Tracked {
    if CarriesChanges(o, caps, false) then FoldGtid(list, []) else Tracked(Ok, [])
  }

  /** What the parser must make of a packet with session information, of which the loop makes `t`, and `extra` bytes
      behind it. */
  function Outcome(o: OkPacket, caps: nat, t: Tracked, extra: bytes): OkResult {
    if t.rc != Ok then Rejected(t.rc)
    else if extra != [] then Rejected(ExtraDataInPacket)
    else
      Accepted(Bare(o).(sessionStatus := o.sessionStatus,
                        stateChanges := if CarriesChanges(o, caps, false) then o.stateChanges else [],
                        lastGtid := t.gtid))
  }

  predicate TailIsRead(s: bytes, p: nat, o: OkPacket, caps: nat, t: Tracked, extra: bytes)
    requires p <= |s|
  {
    ParseTail(s, p, caps, Bare(o)) == Outcome(o, caps, t, extra)
  }

  lemma {:induction false} OutcomeOf(r: OkResult, s: bytes, end: nat, o: OkPacket, caps: nat, t: Tracked, extra: bytes)
    requires end + |extra| == |s|
    requires var changes := if CarriesChanges(o, caps, false) then o.stateChanges else [];
             var ok := Bare(o).(sessionStatus := o.sessionStatus, stateChanges := changes, lastGtid := t.gtid);
             r == if t.rc != Ok then Rejected(t.rc) else Finished(s, end, ok)
    ensures r == Outcome(o, caps, t, extra)
  {
  }

  lemma {:induction false} TrackedTailIsRead(s: bytes, p: nat, o: OkPacket, caps: nat, list: seq<Change>, extra: bytes)
    requires InRange(o, caps) && Bit(caps, CAP_SESSION_TRACK)
    requires CarriesChanges(o, caps, false) ==> AreChanges(o.stateChanges, list)
    requires At(s, p, EncodeTail(o, caps, false)) && p + |EncodeTail(o, caps, false)| + |extra| == |s|
    ensures TailIsRead(s, p, o, caps, TrackedOf(o, caps, list), extra)
  {
    var q, ok := p + |LenencBuffer(o.sessionStatus)|, Bare(o).(sessionStatus := o.sessionStatus);
    if CarriesChanges(o, caps, false) {
      AtSplit(s, p, LenencBuffer(o.sessionStatus), LenencBuffer(o.stateChanges));
      ChangesAreRead(s, q, o.stateChanges, list, ok);
      OutcomeOf(ParseStateChanges(s, q, ok), s, q + |LenencBuffer(o.stateChanges)|, o, caps, TrackedOf(o, caps, list),
                extra);
    } else {
      OutcomeOf(Finished(s, q, ok), s, q, o, caps, Tracked(Ok, []), extra);
    }
    StatusIsRead(s, p, o.sessionStatus, Bare(o), caps);
  }

  lemma {:induction false} TrackedPacketIsRead(o: OkPacket, kind: byte, caps: nat, list: seq<Change>, extra: bytes)
    requires InRange(o, caps) && Bit(caps, CAP_SESSION_TRACK)
    requires CarriesChanges(o, caps, false) ==> AreChanges(o.stateChanges, list)
    ensures ParseOk(EncodeOk(o, kind, caps, false) + extra, caps) == Outcome(o, caps, TrackedOf(o, caps, list), extra)
  {
    var s, head, tail := EncodeOk(o, kind, caps, false) + extra, HeadBytes(o, kind, caps), EncodeTail(o, caps, false);
    AtWhole(s);
    AtSplit(s, 0, head + tail, extra);
    AtSplit(s, 0, head, tail);
    HeadIsRead(s, o, kind, caps);
    TrackedTailIsRead(s, |head|, o, caps, list, extra);
  }

  /** A packet with a message, or one that ends behind its head. */
  lemma {:induction false} PlainPacketIsRead(o: OkPacket, kind: byte, caps: nat, info: bytes)
    requires InRange(o, caps) && (Bit(caps, CAP_SESSION_TRACK) ==> info == [])
    ensures ParseOk(HeadBytes(o, kind, caps) + info, caps) == Accepted(Bare(o).(info := info))
  {
    var s, head := HeadBytes(o, kind, caps) + info, HeadBytes(o, kind, caps);
    AtWhole(s);
    AtSplit(s, 0, head, info);
    HeadIsRead(s, o, kind, caps);
    assert s[|head|..] == info;
  }

  /** Parsing undoes encoding for every OK packet, under every set of capabilities, with or without session information
      behind the head. */
  lemma {:induction false} OkRoundTrip(o: OkPacket, kind: byte, caps: nat, list: seq<Change>, brief: bool)
    requires Sendable(o, caps, list, brief)
    ensures ParseOk(EncodeOk(o, kind, caps, brief), caps) == Accepted(o)
  {
    if brief || !Bit(caps, CAP_SESSION_TRACK) {
      PlainPacketIsRead(o, kind, caps, EncodeTail(o, caps, brief));
    } else {
      assert EncodeOk(o, kind, caps, false) + [] == EncodeOk(o, kind, caps, false);
      FoldReturnsTheLast(list, []);
      TrackedPacketIsRead(o, kind, caps, list, []);
    }
  }

  /** Session information is read to the last byte: one byte more, and the packet is refused. */
  lemma {:induction false} ExtraDataIsRefused(o: OkPacket, kind: byte, caps: nat, list: seq<Change>, extra: bytes)
    requires Sendable(o, caps, list, false) && Bit(caps, CAP_SESSION_TRACK) && extra != []
    ensures ParseOk(EncodeOk(o, kind, caps, false) + extra, caps) == Rejected(ExtraDataInPacket)
  {
    FoldReturnsTheLast(list, []);
    TrackedPacketIsRead(o, kind, caps, list, extra);
  }

  /** A packet that ends inside its head is refused. */
  lemma {:induction false} CutHeadIsRefused(s: bytes, o: OkPacket, kind: byte, caps: nat)
    requires InRange(o, caps) && Cut(s, 0, HeadBytes(o, kind, caps))
    ensures ParseOk(s, caps) == Rejected(TruncatedPacket)
  {
    HeadIsEncoded(o, kind, caps);
    CutFields(s, 0, OkHead(caps), OkValues(o, kind, caps));
  }

  /** A packet is refused for a GTID of more than 57 bytes, wherever it stands among the changes. */
  lemma {:induction false} LongGtidRefusesPacket(o: OkPacket, kind: byte, caps: nat, before: seq<Change>, tag: byte,
                                                 g: bytes, more: bytes, after: seq<Change>)
    requires InRange(o, caps) && CarriesChanges(o, caps, false) && WellFormed(before) && 57 < |g| <= SIZE_MAX
    requires AreChanges(o.stateChanges, before + [Change(0x03, [tag] + LenencBuffer(g) + more)] + after)
    ensures ParseOk(EncodeOk(o, kind, caps, false), caps) == Rejected(ProtocolViolation)
  {
    LongGtidIsRefused(before, tag, g, more, after, []);
    TrackedPacketIsRead(o, kind, caps, before + [Change(0x03, [tag] + LenencBuffer(g) + more)] + after, []);
    assert EncodeOk(o, kind, caps, false) + [] == EncodeOk(o, kind, caps, false);
  }

  /** No accepted packet carries a GTID of more than 57 bytes. */
  lemma {:induction false} AcceptedGtidIsShort(s: bytes, caps: nat)
    requires ParseOk(s, caps).Accepted?
    ensures |ParseOk(s, caps).packet.lastGtid| <= 57
  {
    forall list: seq<Change>
      ensures |FoldGtid(list, []).gtid| <= MAX_LAST_GTID_LEN
    {
      FoldStaysShort(list, []);
    }
  }

  lemma {:induction false} FoldStaysShort(list: seq<Change>, gtid: bytes)
    requires |gtid| <= MAX_LAST_GTID_LEN
    ensures |FoldGtid(list, gtid).gtid| <= MAX_LAST_GTID_LEN
    decreases |list|
  {
    if list != [] && StepGtid(list[0], gtid).rc == Ok {
      FoldStaysShort(list[1..], StepGtid(list[0], gtid).gtid);
    }
  }

  // ---------------------------------------------------------------- implementation

  /** One pass of the session-state loop. */
  lemma {:induction false} TrackStep(s: bytes, p: nat, gtid: bytes)
    requires p < |s|
    ensures match TakeLenencBuffer(s, p + 1)
            case Bad(rc, _) => Track(s, p, gtid) == Tracked(rc, gtid)
            case Good(d, q) =>
              var t := StepGtid(Change(s[p], DataOf(s, d)), gtid);
              Track(s, p, gtid) == if t.rc != Ok then t else Track(s, q, t.gtid)
  {
    match TakeLenencBuffer(s, p + 1)
    case Bad(_, _) =>
    case Good(d, q) =>
      var tail := DecodeChanges(s, q);
      var c := Change(s[p], DataOf(s, d));
      assert ([c] + tail.list)[1..] == tail.list;
  }

  method ReadGtid(c: Change, gtid: bytes) returns (rc: Rc, lastGtid: bytes)
    requires c.kind == SESSION_TRACK_GTIDS
    ensures Tracked(rc, lastGtid) == StepGtid(c, gtid)
  {
    var reader := new Reader(c.info);
    var got, _ := reader.GetInt(1);
    if got != Ok {
      return got, gtid;
    }
    var d: Slice;
    got, d := reader.GetLenencBuffer();
    if got != Ok {
      return got, gtid;
    }
    if d.len > MAX_LAST_GTID_LEN {
      return ProtocolViolation, gtid;
    }
    return Ok, c.info[d.at..d.at + d.len];
  }

  /** One change at the cursor, and what it does to the last GTID. */
  method ReadChange(reader: Reader, gtid: bytes) returns (rc: Rc, lastGtid: bytes)
    requires reader.Valid() && reader.pos < |reader.buff|
    modifies reader
    ensures reader.Valid() && old(reader.pos) < reader.pos
    ensures Track(reader.buff, old(reader.pos), gtid) ==
            if rc == Ok then Track(reader.buff, reader.pos, lastGtid) else Tracked(rc, lastGtid)
  {
    TrackStep(reader.buff, reader.pos, gtid);
    var c: Change;
    rc, c := GetChange(reader);
    lastGtid := gtid;
    if rc == Ok && c.kind == SESSION_TRACK_GTIDS {
      rc, lastGtid := ReadGtid(c, gtid);
    }
  }

  method GetChange(reader: Reader) returns (rc: Rc, c: Change)
    requires reader.Valid() && reader.pos < |reader.buff|
    modifies reader
    ensures reader.Valid() && old(reader.pos) < reader.pos
    ensures match TakeLenencBuffer(reader.buff, old(reader.pos) + 1)
            case Bad(e, _) => rc == e
            case Good(d, q) =>
              rc == Ok && reader.pos == q && c == Change(reader.buff[old(reader.pos)], DataOf(reader.buff, d))
  {
    var kind := reader.buff[reader.pos];
    reader.pos := reader.pos + 1;
    var d: Slice;
    rc, d := reader.GetLenencBuffer();
    c := Change(kind, if rc == Ok then reader.buff[d.at..d.at + d.len] else []);
  }

  /** The session-state loop. Every pass consumes at least two bytes. */
  method ReadStateChanges(changes: bytes) returns (rc: Rc, lastGtid: bytes)
    ensures Tracked(rc, lastGtid) == Track(changes, 0, [])
  {
    var reader := new Reader(changes);
    rc, lastGtid := Ok, [];
    ghost var whole := Track(changes, 0, []);
    while rc == Ok && !reader.Eof()
      invariant reader.Valid() && reader.buff == changes && fresh(reader)
      invariant whole == if rc == Ok then Track(changes, reader.pos, lastGtid) else Tracked(rc, lastGtid)
      decreases |changes| - reader.pos
    {
      rc, lastGtid := ReadChange(reader, lastGtid);
    }
  }

  method ReadTrackedTail(reader: Reader, ok: OkPacket) returns (rc: Rc, r: OkPacket)
    requires reader.Valid()
    modifies reader
    ensures reader.Valid()
    ensures match ParseStateChanges(reader.buff, old(reader.pos), ok)
            case Accepted(packet) => rc == Ok && r == packet
            case Rejected(c) => rc == c
  {
    var d: Slice;
    r := ok;
    rc, d := reader.GetLenencBuffer();
    if rc != Ok {
      return;
    }
    var changes := reader.buff[d.at..d.at + d.len];
    var gtid: bytes;
    rc, gtid := ReadStateChanges(changes);
    if rc != Ok {
      return;
    }
    r := ok.(stateChanges := changes, lastGtid := gtid);
    rc := reader.Finish();
  }

  method ReadTail(reader: Reader, caps: nat, ok: OkPacket) returns (rc: Rc, r: OkPacket)
    requires reader.Valid()
    modifies reader
    ensures reader.Valid()
    ensures match ParseTail(reader.buff, old(reader.pos), caps, ok)
            case Accepted(packet) => rc == Ok && r == packet
            case Rejected(c) => rc == c
  {
    r := ok;
    if Bit(caps, CAP_SESSION_TRACK) && !reader.Eof() {
      var d: Slice;
      rc, d := reader.GetLenencBuffer();
      if rc != Ok {
        return;
      }
      r := ok.(sessionStatus := reader.buff[d.at..d.at + d.len]);
      if Bit(ok.statusFlags, STATUS_SESSION_STATE_CHANGED) {
        rc, r := ReadTrackedTail(reader, r);
      } else {
        rc := reader.Finish();
      }
    } else {
      var d := reader.GetEofBuffer();
      r := ok.(info := reader.buff[d.at..d.at + d.len]);
      rc := reader.Finish();
    }
  }

  method ParseOkPacket(buff: bytes, caps: nat) returns (rc: Rc, ok: OkPacket)
    ensures match ParseOk(buff, caps)
            case Accepted(packet) => rc == Ok && ok == packet
            case Rejected(c) => rc == c
  {
    var reader := new Reader(buff);
    var items: seq<Item>;
    rc, items := GetFields(reader, OkHead(caps));
    ok := HeadOf(items, caps);
    if rc == Ok {
      rc, ok := ReadTail(reader, caps, ok);
    }
  }
}
