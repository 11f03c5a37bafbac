/** SQL string escaping: `trilogy_escape` of src/client.c. */
module Escapes {
  import opened Bytes
  import opened Buffers
  import opened Framing

  const QUOTE: byte := 39
  const BACKSLASH: byte := 92

  // ---------------------------------------------------------------- specification

  /** The lookup table; 0 stands for a byte that is not escaped. */
  function Lookup(c: byte): byte {
    match c
    case 34 => 34     // "
    case 0 => 48      // NUL as 0
    case 39 => 39     // '
    case 92 => 92     // \
    case 10 => 110    // newline as n
    case 13 => 114    // carriage return as r
    case 26 => 90     // control-Z as Z
    case _ => 0
  }

  /** A byte has to be escaped: every byte of the table, or only the quote when backslashes are not escapes. */
  predicate Special(noBackslash: bool, c: byte) {
    if noBackslash then c == QUOTE else Lookup(c) != 0
  }

  function EscapeByte(noBackslash: bool, c: byte): (s: bytes)
    ensures 1 <= |s| <= 2
  {
    if !Special(noBackslash, c) then [c] else if noBackslash then [QUOTE, QUOTE] else [BACKSLASH, Lookup(c)]
  }

  function Escaped(noBackslash: bool, s: bytes): bytes {
    if s == [] then [] else EscapeByte(noBackslash, s[0]) + Escaped(noBackslash, s[1..])
  }

  lemma {:induction false} EscapedLength(noBackslash: bool, s: bytes)
    ensures |s| <= |Escaped(noBackslash, s)| <= 2 * |s|
  {
    if s != [] {
      EscapedLength(noBackslash, s[1..]);
    }
  }

  lemma {:induction false} EscapeDistributes(noBackslash: bool, s: bytes, t: bytes)
    ensures Escaped(noBackslash, s + t) == Escaped(noBackslash, s) + Escaped(noBackslash, t)
  {
    if s == [] {
      assert s + t == t;
    } else {
      EscapeDistributes(noBackslash, s[1..], t);
      assert (s + t)[1..] == s[1..] + t;
      Associate(EscapeByte(noBackslash, s[0]), Escaped(noBackslash, s[1..]), Escaped(noBackslash, t));
    }
  }

  // ---------------------------------------------------------------- what a SQL scanner makes of it

  /** A literal behind its opening quote: its value, and what follows the closing quote. */
  datatype Scanned = Literal(value: bytes, rest: bytes) | Unterminated

  /** The bytes a backslash sequence stands for; `\%` and `\_` keep their backslash. */
  function Unescape(c: byte): bytes {
    match c
    case 48 => [0]
    case 110 => [10]
    case 114 => [13]
    case 90 => [26]
    case 116 => [9]
    case 98 => [8]
    case 37 => [92, c]
    case 95 => [92, c]
    case _ => [c]
  }

  /** A literal in quotes `q`: a doubled quote stands for one, and a backslash starts a sequence unless
      `noBackslash`. */
  function Scan(q: byte, noBackslash: bool, t: bytes): Scanned {
    if t == [] then Unterminated
    else if t[0] == q then
      if |t| > 1 && t[1] == q then Prefixed([q], Scan(q, noBackslash, t[2..])) else Literal([], t[1..])
    else if t[0] == 92 && !noBackslash then
      if |t| > 1 then Prefixed(Unescape(t[1]), Scan(q, noBackslash, t[2..])) else Unterminated
    else Prefixed([t[0]], Scan(q, noBackslash, t[1..]))
  }

  function Prefixed(d: bytes, r: Scanned): Scanned {
    if r.Literal? then r.(value := d + r.value) else r
  }

  /** The quotes an escaped string may stand in: single ones, and double ones where backslashes are escapes. */
  predicate Encloses(q: byte, noBackslash: bool) {
    q == 39 || (q == 34 && !noBackslash)
  }

  /** One escaped byte is scanned back to that byte. */
  lemma {:induction false} ScanByte(q: byte, noBackslash: bool, c: byte, t: bytes)
    requires Encloses(q, noBackslash)
    ensures Scan(q, noBackslash, EscapeByte(noBackslash, c) + t) == Prefixed([c], Scan(q, noBackslash, t))
  {
    var e := EscapeByte(noBackslash, c);
    if |e| == 1 {
      assert (e + t)[1..] == t;
    } else {
      assert (e + t)[2..] == t;
    }
  }

  /** The scanner returns the input, and stops exactly at the closing quote, whatever follows it but another quote. */
  lemma {:induction false} ScanEscaped(q: byte, noBackslash: bool, s: bytes, rest: bytes)
    requires Encloses(q, noBackslash) && (rest == [] || rest[0] != q)
    ensures Scan(q, noBackslash, Escaped(noBackslash, s) + ([q] + rest)) == Literal(s, rest)
  {
    var close := [q] + rest;
    if s == [] {
      assert [] + close == close && close[1..] == rest;
    } else {
      var more := Escaped(noBackslash, s[1..]);
      Associate(EscapeByte(noBackslash, s[0]), more, close);
      ScanByte(q, noBackslash, s[0], more + close);
      ScanEscaped(q, noBackslash, s[1..], rest);
      assert [s[0]] + s[1..] == s;
    }
  }

  /** Escaping is injective: no two strings are escaped alike. */
  lemma {:induction false} EscapeIsInjective(noBackslash: bool, s: bytes, t: bytes)
    requires Escaped(noBackslash, s) == Escaped(noBackslash, t)
    ensures s == t
  {
    ScanEscaped(39, noBackslash, s, []);
    ScanEscaped(39, noBackslash, t, []);
  }

  // ---------------------------------------------------------------- which bytes are escaped

  /** A string is its own escape if and only if it holds no byte that needs one: without backslash escapes that is the
      single quote, with them also NUL, newline, carriage return, control-Z, the double quote and the backslash. */
  lemma {:induction false} EscapeKeepsIff(noBackslash: bool, s: bytes)
    ensures Escaped(noBackslash, s) == s <==>
            forall c | c in s :: Plain(noBackslash, c)
  {
    if s != [] {
      var more := Escaped(noBackslash, s[1..]);
      EscapedLength(noBackslash, s[1..]);
      EscapeKeepsIff(noBackslash, s[1..]);
      assert s == [s[0]] + s[1..];
      if Plain(noBackslash, s[0]) {
        assert Escaped(noBackslash, s) == [s[0]] + more && ([s[0]] + more)[1..] == more;
      } else {
        assert s[0] in s && |Escaped(noBackslash, s)| > |s|;
      }
    }
  }

  predicate Plain(noBackslash: bool, c: byte) {
    if noBackslash then c != 39 else c !in {0, 10, 13, 26, 34, 39, 92}
  }

  /** With backslash escapes no raw NUL, newline, carriage return or control-Z is left. */
  lemma {:induction false} NoRawControls(s: bytes)
    ensures forall c | c in Escaped(false, s) :: c !in {0, 10, 13, 26}
  {
    if s != [] {
      NoRawControls(s[1..]);
    }
  }

  // ---------------------------------------------------------------- spans

  /** A span without special bytes stands for itself. */
  lemma {:induction false} SpanStep(noBackslash: bool, s: bytes, at: nat, k: nat)
    requires at <= k <= |s| && forall j | at <= j < k :: !Special(noBackslash, s[j])
    ensures Escaped(noBackslash, s[at..]) == s[at..k] + Escaped(noBackslash, s[k..])
    decreases k - at
  {
    if at < k {
      SpanStep(noBackslash, s, at + 1, k);
      assert s[at..][1..] == s[at + 1..];
      assert s[at..k] == [s[at]] + s[at + 1..k];
      Associate([s[at]], s[at + 1..k], Escaped(noBackslash, s[k..]));
    }
  }

  /** A special byte. */
  lemma {:induction false} ByteStep(noBackslash: bool, s: bytes, k: nat)
    requires k < |s|
    ensures Escaped(noBackslash, s[k..]) == EscapeByte(noBackslash, s[k]) + Escaped(noBackslash, s[k + 1..])
  {
    assert s[k..][1..] == s[k + 1..];
  }

  /** `memchr` for a quote: its position, or the end. */
  function NextQuote(s: bytes, at: nat): (k: nat)
    requires at <= |s|
    ensures at <= k <= |s| && (forall j | at <= j < k :: s[j] != QUOTE) && (k < |s| ==> s[k] == QUOTE)
    decreases |s| - at
  {
    if at == |s| || s[at] == QUOTE then at else NextQuote(s, at + 1)
  }

  // ---------------------------------------------------------------- implementation

  /** What the loops promise from `cursor` on. */
  twostate predicate Finished(b: Buffer, noBackslash: bool, s: bytes, rc: Rc)
    reads b
  {
    b.Valid() && b.refusals == old(b.refusals) + (if rc == Ok then 0 else 1) &&
    (rc == Ok ==> old(b.Valid()) && b.Contents() == old(b.Contents()) + Escaped(noBackslash, s))
  }

  /** Quotes are doubled; the spans between them are copied. */
  method DoubleQuotes(b: Buffer, str: bytes) returns (rc: Rc)
    requires b.Valid() && |str| <= PTRDIFF_MAX
    modifies b
    ensures Finished(b, true, str, rc)
  {
    ghost var whole := b.Contents() + Escaped(true, str);
    var cursor := 0;
    assert str[0..] == str;
    while cursor < |str|
      invariant cursor <= |str| && b.Valid() && b.refusals == old(b.refusals)
      invariant b.Contents() + Escaped(true, str[cursor..]) == whole
    {
      var next := NextQuote(str, cursor);
      SpanStep(true, str, cursor, next);
      Associate(b.Contents(), str[cursor..next], Escaped(true, str[next..]));
      :- b.Write(str[cursor..next]);
      cursor := next;
      if next < |str| {
        ByteStep(true, str, next);
        Associate(b.Contents(), [QUOTE, QUOTE], Escaped(true, str[next + 1..]));
        :- b.Write([QUOTE, QUOTE]);
        cursor := next + 1;
      }
    }
    assert b.Contents() + [] == b.Contents();
    return Ok;
  }

  /** The span up to the next byte of the table. */
  method SkipPlain(str: bytes, start: nat) returns (cursor: nat)
    requires start <= |str|
    ensures start <= cursor <= |str| && (forall j | start <= j < cursor :: !Special(false, str[j]))
    ensures cursor < |str| ==> Special(false, str[cursor])
  {
    cursor := start;
    while cursor < |str| && Lookup(str[cursor]) == 0
      invariant start <= cursor <= |str| && forall j | start <= j < cursor :: !Special(false, str[j])
    {
      cursor := cursor + 1;
    }
  }

  method PutEscape(b: Buffer, escaped: byte) returns (rc: Rc)
    requires b.Valid()
    modifies b
    ensures b.Valid() && b.refusals == old(b.refusals) + if rc == Ok then 0 else 1
    ensures rc == Ok ==> b.Contents() == old(b.Contents()) + [BACKSLASH, escaped]
  {
    Associate(b.Contents(), [BACKSLASH], [escaped]);
    :- b.Putc(BACKSLASH);
    :- b.Putc(escaped);
    return Ok;
  }

  /** Special bytes get a backslash; the spans between them are copied. */
  method AddBackslashes(b: Buffer, str: bytes) returns (rc: Rc)
    requires b.Valid() && |str| <= PTRDIFF_MAX
    modifies b
    ensures Finished(b, false, str, rc)
  {
    ghost var whole := b.Contents() + Escaped(false, str);
    var cursor := 0;
    assert str[0..] == str;
    while cursor < |str|
      invariant cursor <= |str| && b.Valid() && b.refusals == old(b.refusals)
      invariant b.Contents() + Escaped(false, str[cursor..]) == whole
    {
      var start := cursor;
      cursor := SkipPlain(str, start);
      SpanStep(false, str, start, cursor);
      Associate(b.Contents(), str[start..cursor], Escaped(false, str[cursor..]));
      :- b.Write(str[start..cursor]);
      if cursor < |str| {
        ByteStep(false, str, cursor);
        Associate(b.Contents(), [BACKSLASH, Lookup(str[cursor])], Escaped(false, str[cursor + 1..]));
        :- PutEscape(b, Lookup(str[cursor]));
        cursor := cursor + 1;
      }
    }
    assert b.Contents() + [] == b.Contents();
    return Ok;
  }

  /** Both loops compute the byte-wise escape, unless an allocation is refused. */
  method Escape(b: Buffer, serverStatus: nat, str: bytes) returns (rc: Rc)
    requires b.Valid() && |str| <= PTRDIFF_MAX
    modifies b
    ensures b.Valid() && b.refusals == old(b.refusals) + if rc == Ok then 0 else 1
    ensures rc == Ok ==> b.Contents() == Escaped(Bit(serverStatus, STATUS_NO_BACKSLASH_ESCAPES), str)
  {
    b.len := 0;
    :- b.Expand(|str|);
    assert b.Contents() == [];
    if Bit(serverStatus, STATUS_NO_BACKSLASH_ESCAPES) {
      assert [] + Escaped(true, str) == Escaped(true, str);
      rc := DoubleQuotes(b, str);
    } else {
      assert [] + Escaped(false, str) == Escaped(false, str);
      rc := AddBackslashes(b, str);
    }
  }
}
