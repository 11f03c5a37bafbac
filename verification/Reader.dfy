/** The bounded cursor of src/reader.c, and length-encoded integers. */
module Readers {
  import opened Bytes
  import opened Builders

  // ---------------------------------------------------------------- specification

  /** What a getter makes of the bytes at a cursor: a value and the cursor behind it, or an error code and where the
      cursor then stands. */
  datatype Got<+T> = Good(value: T, pos: nat) | Bad(rc: Rc, pos: nat)

  /** A data pointer into the packet, and a length. */
  datatype Slice = Slice(at: nat, len: nat)

  function TakeInt(s: bytes, p: nat, n: nat): (g: Got<nat>)
    requires p <= |s|
    ensures p <= g.pos <= |s| && (g.Bad? ==> g.rc != Ok)
  {
    if n > |s| - p then Bad(TruncatedPacket, p) else Good(FromLE(s[p..p + n]), p + n)
  }

  function TakeBuffer(s: bytes, p: nat, n: nat): (g: Got<Slice>)
    requires p <= |s|
    ensures p <= g.pos <= |s| && (g.Bad? ==> g.rc != Ok)
  {
    if n > |s| - p then Bad(TruncatedPacket, p) else Good(Slice(p, n), p + n)
  }

  /** How many bytes follow a leader that announces an integer. */
  function TailWidth(leader: byte): nat {
    if leader == 0xfc then 2 else if leader == 0xfd then 3 else 8
  }

  function TakeLenenc(s: bytes, p: nat): (g: Got<nat>)
    requires p <= |s|
    ensures p <= g.pos <= |s| && (g.Bad? ==> g.rc != Ok) && (g.Good? ==> p < g.pos)
  {
    if p == |s| then Bad(TruncatedPacket, p)
    else if s[p] < 0xfb then Good(s[p], p + 1)
    else if s[p] == 0xfb then Bad(NullValue, p + 1)
    else if s[p] == 0xff then Bad(ProtocolViolation, p + 1)
    else TakeInt(s, p + 1, TailWidth(s[p]))
  }

  function TakeLenencBuffer(s: bytes, p: nat): (g: Got<Slice>)
    requires p <= |s|
    ensures p <= g.pos <= |s| && (g.Bad? ==> g.rc != Ok)
    ensures g.Good? ==> p < g.value.at && g.value.at + g.value.len == g.pos
  {
    match TakeLenenc(s, p)
    case Bad(rc, q) => Bad(rc, q)
    case Good(n, q) => TakeBuffer(s, q, n)
  }

  // ---------------------------------------------------------------- what is at a cursor

  /** The bytes `d` start at `p`. */
  predicate At(s: bytes, p: nat, d: bytes) {
    p + |d| <= |s| && s[p..p + |d|] == d
  }

  lemma {:induction false} AtSplit(s: bytes, p: nat, a: bytes, b: bytes)
    requires At(s, p, a + b)
    ensures At(s, p, a) && At(s, p + |a|, b)
  {
    assert s[p..p + |a|] == (a + b)[..|a|];
    assert s[p + |a|..p + |a| + |b|] == (a + b)[|a|..];
  }

  lemma {:induction false} AtWhole(s: bytes)
    ensures At(s, 0, s)
  {
    assert s[0..|s|] == s;
  }

  /** A slice of the packet starts where it starts. */
  lemma {:induction false} AtSlice(s: bytes, p: nat, q: nat)
    requires p <= q <= |s|
    ensures At(s, p, s[p..q]) && At(s[p..q], 0, s[p..q])
  {
    AtWhole(s[p..q]);
  }

  // ---------------------------------------------------------------- length-encoded integers

  lemma {:induction false} TakeIntAt(s: bytes, p: nat, v: nat, n: nat)
    requires v < Pow256(n) && At(s, p, LE(v, n))
    ensures TakeInt(s, p, n) == Good(v, p + n)
  {
    FromLEOfLE(v, n);
  }

  /** Decoding undoes encoding for every 64-bit value, wherever it stands and whatever follows, and consumes exactly the
      encoding. */
  lemma {:induction false} LenencRoundTrip(s: bytes, p: nat, v: nat)
    requires v <= SIZE_MAX && At(s, p, Lenenc(v))
    ensures TakeLenenc(s, p) == Good(v, p + |Lenenc(v)|)
  {
    var w := LenencWidth(v);
    AtSplit(s, p, [LenencLeader(v)], LE(v, w));
    assert s[p] == s[p..p + 1][0];
    if v >= 251 {
      PowersOf256();
      TakeIntAt(s, p + 1, v, w);
    }
  }

  /** No encoding is a prefix of another, and none starts like NULL or an error packet. */
  lemma {:induction false} LenencPrefixFree(v: nat, w: nat, a: bytes, b: bytes)
    requires v <= SIZE_MAX && w <= SIZE_MAX
    requires Lenenc(v) + a == Lenenc(w) + b
    ensures v == w && a == b
    ensures Lenenc(v)[0] != 0xfb && Lenenc(v)[0] != 0xff
  {
    var s := Lenenc(v) + a;
    AtWhole(s);
    AtSplit(s, 0, Lenenc(v), a);
    AtSplit(s, 0, Lenenc(w), b);
    LenencRoundTrip(s, 0, v);
    LenencRoundTrip(s, 0, w);
  }

  lemma {:induction false} LenencBufferRoundTrip(s: bytes, p: nat, d: bytes)
    requires |d| <= SIZE_MAX && At(s, p, LenencBuffer(d))
    ensures var n := |Lenenc(|d|)|;
            TakeLenencBuffer(s, p) == Good(Slice(p + n, |d|), p + n + |d|) && s[p + n..p + n + |d|] == d
  {
    AtSplit(s, p, Lenenc(|d|), d);
    LenencRoundTrip(s, p, |d|);
  }

  // ---------------------------------------------------------------- packets that end too early

  /** Which bytes are not taken for an integer, and the codes. */
  lemma {:induction false} LenencFailsIff(s: bytes, p: nat)
    requires p < |s|
    ensures var g := TakeLenenc(s, p);
            && (g.Bad? && g.rc == NullValue <==> s[p] == 0xfb)
            && (g.Bad? && g.rc == ProtocolViolation <==> s[p] == 0xff)
            && (g.Bad? && g.rc == TruncatedPacket <==>
                  || (s[p] == 0xfc && |s| - p < 3)
                  || (s[p] == 0xfd && |s| - p < 4)
                  || (s[p] == 0xfe && |s| - p < 9))
  {
  }

  /** A packet that ends inside `d`, which starts at `p`. */
  predicate Cut(s: bytes, p: nat, d: bytes) {
    p <= |s| < p + |d| && s[p..] == d[..|s| - p]
  }

  lemma {:induction false} CutSplit(s: bytes, p: nat, a: bytes, b: bytes)
    requires Cut(s, p, a + b)
    ensures if |s| < p + |a| then Cut(s, p, a) else At(s, p, a) && Cut(s, p + |a|, b)
  {
    var n := |s| - p;
    if n < |a| {
      assert (a + b)[..n] == a[..n];
    } else {
      assert s[p..p + |a|] == s[p..][..|a|] == (a + b)[..n][..|a|];
      assert (a + b)[..n][..|a|] == a;
      assert s[p + |a|..] == s[p..][|a|..] == (a + b)[..n][|a|..];
      assert (a + b)[..n][|a|..] == b[..n - |a|];
    }
  }

  lemma {:induction false} LenencCut(s: bytes, p: nat, v: nat)
    requires v <= SIZE_MAX && Cut(s, p, Lenenc(v))
    ensures TakeLenenc(s, p).Bad? && TakeLenenc(s, p).rc == TruncatedPacket
  {
    if p < |s| {
      assert s[p] == s[p..][0] == Lenenc(v)[0];
    }
  }

  lemma {:induction false} LenencBufferCut(s: bytes, p: nat, d: bytes)
    requires |d| <= SIZE_MAX && Cut(s, p, LenencBuffer(d))
    ensures TakeLenencBuffer(s, p).Bad? && TakeLenencBuffer(s, p).rc == TruncatedPacket
  {
    CutSplit(s, p, Lenenc(|d|), d);
    if |s| < p + |Lenenc(|d|)| {
      LenencCut(s, p, |d|);
    } else {
      LenencRoundTrip(s, p, |d|);
    }
  }

  // ---------------------------------------------------------------- getters look no further than they consume

  lemma {:induction false} TakeIntElsewhere(s: bytes, p: nat, t: bytes, q: nat, n: nat)
    requires p + n <= |s| && At(t, q, s[p..p + n])
    ensures TakeInt(t, q, n) == Good(TakeInt(s, p, n).value, q + n)
  {
  }

  lemma {:induction false} TakeLenencElsewhere(s: bytes, p: nat, t: bytes, q: nat)
    requires p <= |s| && TakeLenenc(s, p).Good? && At(t, q, s[p..TakeLenenc(s, p).pos])
    ensures TakeLenenc(t, q) == Good(TakeLenenc(s, p).value, q + (TakeLenenc(s, p).pos - p))
  {
    var e := TakeLenenc(s, p).pos;
    assert s[p..e] == [s[p]] + s[p + 1..e];
    AtSplit(t, q, [s[p]], s[p + 1..e]);
    assert t[q] == t[q..q + 1][0];
    if s[p] >= 0xfb {
      TakeIntElsewhere(s, p + 1, t, q + 1, TailWidth(s[p]));
    }
  }

  /** The bytes a getter consumed read the same wherever else they stand. */
  lemma {:induction false} TakeLenencBufferElsewhere(s: bytes, p: nat, t: bytes, q: nat)
    requires p <= |s| && TakeLenencBuffer(s, p).Good? && At(t, q, s[p..TakeLenencBuffer(s, p).pos])
    ensures var g, h := TakeLenencBuffer(s, p), TakeLenencBuffer(t, q);
            && h == Good(Slice(q + (g.value.at - p), g.value.len), q + (g.pos - p))
            && t[h.value.at..h.pos] == s[g.value.at..g.pos]
  {
    var g := TakeLenencBuffer(s, p);
    var a := TakeLenenc(s, p).pos;
    assert s[p..g.pos] == s[p..a] + s[a..g.pos];
    AtSplit(t, q, s[p..a], s[a..g.pos]);
    TakeLenencElsewhere(s, p, t, q);
  }

  // ---------------------------------------------------------------- implementation

  class Reader {
    const buff: bytes
    var pos: nat

    ghost predicate Valid()
      reads this
    {
      pos <= |buff|
    }

    constructor (buff: bytes)
      ensures this.buff == buff && pos == 0 && Valid()
    {
      this.buff := buff;
      pos := 0;
    }

    /** `trilogy_reader_get_uint8`, `_uint16`, `_uint24`, `_uint32` and `_uint64` for `n` = 1, 2, 3, 4 and 8: the value
        `a | b << 8 | c << 16 | ...`. Also `_float` and `_double`, as bit patterns. */
    method GetInt(n: nat) returns (rc: Rc, v: nat)
      requires Valid()
      modifies this
      ensures Valid()
      ensures match TakeInt(buff, old(pos), n)
              case Good(x, q) => rc == Ok && v == x && pos == q
              case Bad(c, q) => rc == c && pos == q
    {
      v := 0;
      if n > |buff| - pos {
        return TruncatedPacket, 0;
      }
      ghost var p := pos;
      assert buff[p..p] == [];
      for k := 0 to n
        invariant pos == p + k <= |buff|
        invariant v == FromLE(buff[p..p + k])
      {
        FromLESnoc(buff[p..p + k], buff[pos]);
        assert buff[p..p + k + 1] == buff[p..p + k] + [buff[pos]];
        v := v + Shl(buff[pos], 8 * k);
        pos := pos + 1;
      }
      return Ok, v;
    }

    method GetLenenc() returns (rc: Rc, v: nat)
      requires Valid()
      modifies this
      ensures Valid()
      ensures match TakeLenenc(buff, old(pos))
              case Good(x, q) => rc == Ok && v == x && pos == q
              case Bad(c, q) => rc == c && pos == q
    {
      if 1 > |buff| - pos {
        return TruncatedPacket, 0;
      }
      var leader := buff[pos];
      pos := pos + 1;
      if leader < 0xfb {
        return Ok, leader;
      }
      match leader
      case 0xfb =>
        return NullValue, 0;
      case 0xfc =>
        rc, v := GetInt(2);
      case 0xfd =>
        rc, v := GetInt(3);
      case 0xfe =>
        rc, v := GetInt(8);
      case _ =>
        return ProtocolViolation, 0;
    }

    method GetBuffer(len: nat) returns (rc: Rc, data: Slice)
      requires Valid()
      modifies this
      ensures Valid()
      ensures match TakeBuffer(buff, old(pos), len)
              case Good(x, q) => rc == Ok && data == x && pos == q
              case Bad(c, q) => rc == c && pos == q
    {
      if len > |buff| - pos {
        return TruncatedPacket, Slice(0, 0);
      }
      data := Slice(pos, len);
      pos := pos + len;
      return Ok, data;
    }

    method GetLenencBuffer() returns (rc: Rc, data: Slice)
      requires Valid()
      modifies this
      ensures Valid()
      ensures match TakeLenencBuffer(buff, old(pos))
              case Good(x, q) => rc == Ok && data == x && pos == q
              case Bad(c, q) => rc == c && pos == q
    {
      var len: nat;
      data := Slice(0, 0);
      rc, len := GetLenenc();
      if rc != Ok {
        return;
      }
      if len > |buff| - pos {
        return TruncatedPacket, data;
      }
      rc, data := GetBuffer(len);
    }

    method GetEofBuffer() returns (data: Slice)
      requires Valid()
      modifies this
      ensures Valid() && pos == |buff| && data == Slice(old(pos), |buff| - old(pos))
    {
      data := Slice(pos, |buff| - pos);
      pos := |buff|;
    }

    predicate Eof()
      reads this
    {
      !(pos < |buff|)
    }

    method Finish() returns (rc: Rc)
      ensures rc == if pos < |buff| then ExtraDataInPacket else Ok
    {
      if pos < |buff| {
        return ExtraDataInPacket;
      }
      return Ok;
    }
  }
}
