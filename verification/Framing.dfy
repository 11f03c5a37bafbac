/** What a payload looks like on the wire, and how to get it back: the reference for the framing writer of
    src/builder.c and the framing reader of src/packet_parser.c. */
module Framing {
  import opened Bytes

  const MAX_PACKET_LEN: nat := 0xffffff

  /** `sq + 1` in a `uint8_t`. */
  function Next(sq: byte): byte {
    if sq == 255 then 0 else sq + 1
  }

  /** The sequence number `k` fragments after `sq`. */
  function SeqPlus(sq: byte, k: nat): byte
    decreases k
  {
    if k == 0 then sq else SeqPlus(Next(sq), k - 1)
  }

  lemma {:induction false} SeqPlusIsModular(sq: byte, k: nat)
    ensures SeqPlus(sq, k) == (sq + k) % 256
    decreases k
  {
    if k > 0 {
      SeqPlusIsModular(Next(sq), k - 1);
    }
  }

  /** Three length bytes and a sequence number. */
  function Header(n: nat, sq: byte): (h: bytes)
    requires n <= MAX_PACKET_LEN
    ensures |h| == 4
  {
    [n % 256, n / 0x100 % 256, n / 0x1_0000 % 256, sq]
  }

  /** The length a header announces. */
  function HeaderLength(h: bytes): (n: nat)
    requires |h| >= 3
    ensures n <= MAX_PACKET_LEN
  {
    var low: int, mid: int, high: int := h[0], h[1], h[2];
    low + 0x100 * mid + 0x1_0000 * high
  }

  /** A finished message: full fragments, then one fragment shorter than a full one, possibly empty. */
  function Frame(p: bytes, sq: byte): (s: bytes)
    ensures |s| >= 4
    decreases |p|
  {
    if |p| < MAX_PACKET_LEN then Header(|p|, sq) + p
    else Header(MAX_PACKET_LEN, sq) + p[..MAX_PACKET_LEN] + Frame(p[MAX_PACKET_LEN..], Next(sq))
  }

  /** How many fragments carry `n` payload bytes. */
  function Fragments(n: nat): (k: nat)
    ensures k > 0
  {
    if n < MAX_PACKET_LEN then 1 else 1 + Fragments(n - MAX_PACKET_LEN)
  }

  /** `s` with the length `n` written into the header at offset `h`. */
  function PatchLength(s: bytes, h: nat, n: nat): (r: bytes)
    requires h + 3 <= |s|
    ensures |r| == |s|
  {
    s[h := n % 256][h + 1 := n / 0x100 % 256][h + 2 := n / 0x1_0000 % 256]
  }

  lemma {:induction false} PatchTail(a: bytes, s: bytes, h: nat, n: nat)
    requires h + 3 <= |s|
    ensures PatchLength(a + s, |a| + h, n) == a + PatchLength(s, h, n)
  {
  }

  lemma {:induction false} PatchHeader(p: bytes, sq: byte, m: nat, n: nat)
    requires m <= MAX_PACKET_LEN && n <= MAX_PACKET_LEN
    ensures PatchLength(Header(m, sq) + p, 0, n) == Header(n, sq) + p
  {
  }

  /** The first fragment of a message that fills it. */
  function FullFragment(p: bytes, sq: byte): (s: bytes)
    requires |p| >= MAX_PACKET_LEN
    ensures |s| == 4 + MAX_PACKET_LEN
  {
    Header(MAX_PACKET_LEN, sq) + p[..MAX_PACKET_LEN]
  }

  lemma {:induction false} FramePeel(p: bytes, sq: byte)
    requires |p| >= MAX_PACKET_LEN
    ensures Frame(p, sq) == FullFragment(p, sq) + Frame(p[MAX_PACKET_LEN..], Next(sq))
  {
  }

  lemma {:induction false} FrameLength(p: bytes, sq: byte)
    ensures |Frame(p, sq)| == |p| + 4 * Fragments(|p|)
    decreases |p|
  {
    if |p| >= MAX_PACKET_LEN {
      FrameLength(p[MAX_PACKET_LEN..], Next(sq));
    }
  }

  /** How many payload bytes fragment `k` of an `n`-byte message carries. */
  function FragmentSize(n: nat, k: nat): (m: nat)
    ensures m <= n && m <= MAX_PACKET_LEN
  {
    if n < MAX_PACKET_LEN then n else if k == 0 then MAX_PACKET_LEN else FragmentSize(n - MAX_PACKET_LEN, k - 1)
  }

  /** The payload bytes before fragment `k`. */
  function PayloadAt(k: nat): nat {
    if k == 0 then 0 else MAX_PACKET_LEN + PayloadAt(k - 1)
  }

  /** The wire offset of header `k`. */
  function HeaderAt(k: nat): nat {
    if k == 0 then 0 else 4 + MAX_PACKET_LEN + HeaderAt(k - 1)
  }

  /** The counts in closed form. The last fragment carries the remainder, so it is empty when the payload length is a
      multiple of 0xffffff. */
  lemma {:induction false} FragmentsInClosedForm(n: nat, k: nat)
    requires k < Fragments(n)
    ensures Fragments(n) == n / MAX_PACKET_LEN + 1
    ensures PayloadAt(k) == k * 0xffffff
    ensures HeaderAt(k) == k * 0x1000003
    ensures FragmentSize(n, k) == if k < n / MAX_PACKET_LEN then MAX_PACKET_LEN else n % MAX_PACKET_LEN
  {
    if k > 0 {
      FragmentsInClosedForm(n - MAX_PACKET_LEN, k - 1);
    } else if n >= MAX_PACKET_LEN {
      FragmentsInClosedForm(n - MAX_PACKET_LEN, 0);
    }
  }

  /** The first `k` fragments, all full. */
  function FullFragments(p: bytes, sq: byte, k: nat): (s: bytes)
    requires k < Fragments(|p|)
    ensures |s| == HeaderAt(k)
    decreases k
  {
    if k == 0 then [] else FullFragment(p, sq) + FullFragments(p[MAX_PACKET_LEN..], Next(sq), k - 1)
  }

  lemma {:induction false} FragmentBounds(n: nat, k: nat)
    requires k < Fragments(n)
    ensures PayloadAt(k) <= n
    ensures FragmentSize(n, k) == FragmentSize(n - PayloadAt(k), 0)
  {
    if k > 0 {
      FragmentBounds(n - MAX_PACKET_LEN, k - 1);
    }
  }

  /** Fragment `k` of a finished message, by position. The headers before it all read 0xffffff and count on from `sq`;
      what follows offset `HeaderAt(k)` is the frame of the rest of the payload, numbered `sq + k`. */
  lemma {:induction false} FrameSplit(p: bytes, sq: byte, k: nat)
    requires k < Fragments(|p|)
    ensures PayloadAt(k) <= |p|
    ensures Frame(p, sq) == FullFragments(p, sq, k) + Frame(p[PayloadAt(k)..], SeqPlus(sq, k))
    decreases k
  {
    FragmentBounds(|p|, k);
    if k == 0 {
      assert p[0..] == p;
    } else {
      var q := p[MAX_PACKET_LEN..];
      FrameSplit(q, Next(sq), k - 1);
      FramePeel(p, sq);
      DropDrop(p, MAX_PACKET_LEN, PayloadAt(k - 1));
      Associate(FullFragment(p, sq), FullFragments(q, Next(sq), k - 1), Frame(p[PayloadAt(k)..], SeqPlus(sq, k)));
    }
  }

  lemma {:induction false} FrameStarts(p: bytes, sq: byte)
    ensures FragmentSize(|p|, 0) <= |p| && 4 + FragmentSize(|p|, 0) <= |Frame(p, sq)|
    ensures Frame(p, sq)[..4] == Header(FragmentSize(|p|, 0), sq)
    ensures Frame(p, sq)[4..4 + FragmentSize(|p|, 0)] == p[..FragmentSize(|p|, 0)]
  {
    if |p| >= MAX_PACKET_LEN {
      FramePeel(p, sq);
    }
  }

  lemma {:induction false} FragmentAt(p: bytes, sq: byte, k: nat)
    requires k < Fragments(|p|)
    ensures var f, at, from, n := Frame(p, sq), HeaderAt(k), PayloadAt(k), FragmentSize(|p|, k);
            && from + n <= |p| && at + 4 + n <= |f|
            && f[at..at + 4] == Header(n, SeqPlus(sq, k)) && f[at + 4..at + 4 + n] == p[from..from + n]
  {
    var at, n := HeaderAt(k), FragmentSize(|p|, k);
    FrameSplit(p, sq, k);
    FragmentBounds(|p|, k);
    var q := p[PayloadAt(k)..];
    var tail := Frame(q, SeqPlus(sq, k));
    FrameStarts(q, SeqPlus(sq, k));
    SliceBehind(FullFragments(p, sq, k), tail, 0, 4);
    SliceBehind(FullFragments(p, sq, k), tail, 4, 4 + n);
    assert q[..n] == p[PayloadAt(k)..PayloadAt(k) + n];
  }

  lemma {:induction false} HeaderBytes(n: nat, sq: byte, k: nat)
    requires n <= MAX_PACKET_LEN
    ensures Header(n, SeqPlus(sq, k)) == [n % 256, n / 0x100 % 256, n / 0x1_0000, (sq + k) % 256]
  {
    SeqPlusIsModular(sq, k);
  }

  /** Fragment `k` of a finished message, by position: at offset `k * 0x1000003` a header that reads the size of the
      fragment in three bytes, the least significant first, and the number `sq + k` modulo 256; behind it the payload
      bytes from `k * 0xffffff` on. */
  lemma {:induction false} FragmentByPosition(p: bytes, sq: byte, k: nat)
    requires k <= |p| / 0xffffff
    ensures var f, at, from := Frame(p, sq), k * 0x1000003, k * 0xffffff;
            var n := if k < |p| / 0xffffff then 0xffffff else |p| % 0xffffff;
            && from + n <= |p| && at + 4 + n <= |f|
            && f[at..at + 4] == [n % 256, n / 0x100 % 256, n / 0x1_0000, (sq + k) % 256]
            && f[at + 4..at + 4 + n] == p[from..from + n]
  {
    FragmentsInClosedForm(|p|, 0);
    FragmentsInClosedForm(|p|, k);
    FragmentAt(p, sq, k);
    HeaderBytes(FragmentSize(|p|, k), sq, k);
  }

  lemma {:induction false} SliceBehind(a: bytes, b: bytes, i: nat, j: nat)
    requires i <= j <= |b|
    ensures (a + b)[|a| + i..|a| + j] == b[i..j]
  {
  }

  lemma {:induction false} SliceOfTail(p: bytes, m: nat, at: nat, n: nat)
    requires m + at + n <= |p|
    ensures p[m..][at..at + n] == p[m + at..m + at + n]
  {
  }

  lemma {:induction false} DropDrop(p: bytes, m: nat, n: nat)
    requires m + n <= |p|
    ensures p[m..][n..] == p[m + n..]
  {
  }

  lemma {:induction false} Rejoin(a: bytes, p: bytes, m: nat)
    requires m <= |p|
    ensures a + p[..m] + p[m..] == a + p
  {
  }

  lemma {:induction false} Associate(a: bytes, b: bytes, c: bytes)
    ensures a + (b + c) == a + b + c
  {
  }

  // ---------------------------------------------------------------- reading back

  lemma {:induction false} HeaderStarts(n: nat, sq: byte, tail: bytes)
    requires n <= MAX_PACKET_LEN
    ensures (Header(n, sq) + tail)[3] == sq && HeaderLength(Header(n, sq) + tail) == n
  {
  }

  datatype Unframed =
    | Message(payload: bytes, rest: bytes, sq: byte)  // one whole message, what follows it, the number expected next
    | Mismatch                                         // a header with an unexpected sequence number
    | Short                                            // the stream ends inside the message

  /** Reads one message off a stream by slicing: the definition the incremental parser is compared with. `acc` is
      the payload of the fragments already read. */
  function Unframe(s: bytes, sq: byte, acc: bytes): Unframed
    decreases |s|
  {
    if |s| < 4 then Short
    else if s[3] != sq then Mismatch
    else
      var n := HeaderLength(s);
      if |s| < 4 + n then Short
      else if n == MAX_PACKET_LEN then Unframe(s[4 + n..], Next(sq), acc + s[4..4 + n])
      else Message(acc + s[4..4 + n], s[4 + n..], Next(sq))
  }

  /** One fragment of a stream: `Unframe`, unrolled once. */
  lemma {:induction false} UnframeStep(n: nat, d: bytes, sq: byte, tail: bytes, acc: bytes)
    requires n == |d| <= MAX_PACKET_LEN
    ensures Unframe(Header(n, sq) + d + tail, sq, acc) ==
            if n == MAX_PACKET_LEN then Unframe(tail, Next(sq), acc + d) else Message(acc + d, tail, Next(sq))
  {
    var s := Header(n, sq) + d + tail;
    HeaderStarts(n, sq, d + tail);
    assert s == Header(n, sq) + (d + tail);
    assert s[4..4 + n] == d;
    assert s[4 + n..] == tail;
  }

  /** Reading undoes framing for every payload, consumes exactly the frame, and leaves the reader expecting the
      number after the last header. */
  lemma {:induction false} UnframeFrame(p: bytes, sq: byte, rest: bytes, acc: bytes)
    ensures Unframe(Frame(p, sq) + rest, sq, acc) == Message(acc + p, rest, SeqPlus(sq, Fragments(|p|)))
    decreases |p|
  {
    if |p| < MAX_PACKET_LEN {
      UnframeStep(|p|, p, sq, rest, acc);
    } else {
      var d, q := p[..MAX_PACKET_LEN], p[MAX_PACKET_LEN..];
      FramePeel(p, sq);
      Associate(FullFragment(p, sq), Frame(q, Next(sq)), rest);
      UnframeStep(MAX_PACKET_LEN, d, sq, Frame(q, Next(sq)) + rest, acc);
      UnframeFrame(q, Next(sq), rest, acc + d);
      Rejoin(acc, p, MAX_PACKET_LEN);
    }
  }

  lemma {:induction false} UnframeShort(n: nat, sq: byte, d: bytes, k: nat, acc: bytes)
    requires n <= MAX_PACKET_LEN && k < 4 + n && k <= 4 + |d|
    ensures Unframe((Header(n, sq) + d)[..k], sq, acc) == Short
  {
    if k >= 4 {
      HeaderStarts(n, sq, d[..k - 4]);
      CutInside(Header(n, sq), d, k - 4);
    }
  }

  lemma {:induction false} CutInside(a: bytes, f: bytes, j: nat)
    requires j <= |f|
    ensures (a + f)[..|a| + j] == a + f[..j]
  {
  }

  /** No strict prefix of a frame already reads as a message. */
  lemma {:induction false} UnframePrefix(p: bytes, sq: byte, k: nat, acc: bytes)
    requires k < |Frame(p, sq)|
    ensures Unframe(Frame(p, sq)[..k], sq, acc) == Short
    decreases |p|
  {
    if |p| < MAX_PACKET_LEN {
      UnframeShort(|p|, sq, p, k, acc);
    } else {
      var d, f := p[..MAX_PACKET_LEN], Frame(p[MAX_PACKET_LEN..], Next(sq));
      FramePeel(p, sq);
      if k < 4 + MAX_PACKET_LEN {
        Associate(Header(MAX_PACKET_LEN, sq), d, f);
        UnframeShort(MAX_PACKET_LEN, sq, d + f, k, acc);
      } else {
        var j := k - 4 - MAX_PACKET_LEN;
        CutInside(FullFragment(p, sq), f, j);
        UnframeStep(MAX_PACKET_LEN, d, sq, f[..j], acc);
        UnframePrefix(p[MAX_PACKET_LEN..], Next(sq), j, acc + d);
      }
    }
  }

  /** Several messages of one conversation, numbered on from each other. */
  function FrameAll(ps: seq<bytes>, sq: byte): bytes {
    if ps == [] then []
    else Frame(ps[0], sq) + FrameAll(ps[1..], SeqPlus(sq, Fragments(|ps[0]|)))
  }

  /** The number expected after all of `ps`. */
  function SeqAfter(ps: seq<bytes>, sq: byte): byte {
    if ps == [] then sq else SeqAfter(ps[1..], SeqPlus(sq, Fragments(|ps[0]|)))
  }
}
