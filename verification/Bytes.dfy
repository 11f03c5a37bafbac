/** Bytes, status codes, little-endian integers and flag tests shared by the whole wire layer. */
module Bytes {

  type byte = x: int | 0 <= x < 256
  type bytes = seq<byte>

  const SIZE_MAX: nat := 0xffff_ffff_ffff_ffff

  /** No C object is larger than PTRDIFF_MAX bytes; `malloc` and `realloc` refuse more. */
  const PTRDIFF_MAX: nat := 0x7fff_ffff_ffff_ffff

  /** The status codes of inc/trilogy/error.h. Every code but `Ok` is negative in C. */
  datatype Rc =
    | Ok
    | Err
    | Eof
    | SysErr
    | UnexpectedPacket
    | TruncatedPacket
    | ProtocolViolation
    | ExtraDataInPacket
    | Again
    | ClosedConnection
    | HaveResults
    | NullValue
    | InvalidSequenceId
    | TypeOverflow
    | OpensslErr
    | MaxPacketExceeded
    | UnknownType
    | Timeout
  {
    predicate IsFailure() { this != Ok }
    function PropagateFailure(): Rc requires IsFailure() { this }
  }

  datatype Option<+T> = None | Some(value: T)

  /** An element moves from the front of one sequence to the end of the one before it. */
  lemma {:induction false} AppendFirst<T>(xs: seq<T>, x: T, tail: seq<T>)
    ensures xs + ([x] + tail) == xs + [x] + tail
  {
  }

  // ---------------------------------------------------------------- shifts, bits and flags

  /** `v << k`, for a value that does not outgrow its C type. */
  function Shl(v: nat, k: nat): nat {
    if k == 0 then v else 2 * Shl(v, k - 1)
  }

  /** `v >> k`. */
  function Shr(v: nat, k: nat): nat {
    if k == 0 then v else Shr(v / 2, k - 1)
  }

  /** `v & (1 << k)` is non-zero. */
  predicate Bit(v: nat, k: nat) {
    Shr(v, k) % 2 == 1
  }

  lemma {:induction false} ShlAdd(v: nat, w: nat, k: nat)
    ensures Shl(v + w, k) == Shl(v, k) + Shl(w, k)
  {
    if k > 0 {
      ShlAdd(v, w, k - 1);
    }
  }

  lemma {:induction false} ShlMonotone(v: nat, j: nat, k: nat)
    requires j <= k
    ensures Shl(v, j) <= Shl(v, k)
    decreases k - j
  {
    if j < k {
      ShlMonotone(v, j, k - 1);
    }
  }

  lemma {:induction false} ShlTwice(v: nat, j: nat, k: nat)
    ensures Shl(Shl(v, j), k) == Shl(v, j + k)
  {
    if k > 0 {
      ShlTwice(v, j, k - 1);
    }
  }

  lemma {:induction false} ShrTwice(v: nat, j: nat, k: nat)
    ensures Shr(Shr(v, j), k) == Shr(v, j + k)
  {
    if j > 0 {
      ShrTwice(v / 2, j - 1, k);
    }
  }

  /** `v >> k` is `v` divided by a power of two. */
  lemma {:induction false} ShrBounds(v: nat, k: nat, p: nat)
    requires p == Shl(1, k)
    ensures p * Shr(v, k) <= v < p * Shr(v, k) + p
    decreases k
  {
    if k > 0 {
      ShrBounds(v / 2, k - 1, Shl(1, k - 1));
      var h := p / 2;
      assert p * Shr(v, k) == 2 * (h * Shr(v, k));
    }
  }

  lemma {:induction false} ShiftByte(v: nat)
    ensures Shl(v, 8) == 256 * v
    ensures Shr(v, 8) == v / 256
  {
    ShiftNibble(v);
    ShiftNibble(v / 16);
    ShiftNibble(16 * v);
    ShlTwice(v, 4, 4);
    ShrTwice(v, 4, 4);
  }

  lemma {:induction false} ShiftNibble(v: nat)
    ensures Shl(v, 4) == 16 * v
    ensures Shr(v, 4) == v / 16
  {
    assert Shl(v, 4) == 4 * Shl(v, 2) == 16 * Shl(v, 0);
    assert Shr(v, 4) == Shr(v / 2, 3) == Shr(v / 4, 2) == Shr(v / 8, 1) == Shr(v / 16, 0);
  }

  // ---------------------------------------------------------------- little-endian integers

  function Pow256(n: nat): (p: nat)
    ensures p > 0
  {
    if n == 0 then 1 else 256 * Pow256(n - 1)
  }

  /** The low `n` bytes of `v`, least significant first. */
  function LE(v: nat, n: nat): (s: bytes)
    ensures |s| == n
  {
    if n == 0 then [] else [v % 256] + LE(v / 256, n - 1)
  }

  function FromLE(s: bytes): nat {
    if s == [] then 0 else s[0] + 256 * FromLE(s[1..])
  }

  lemma {:induction false} FromLEOfLE(v: nat, n: nat)
    requires v < Pow256(n)
    ensures FromLE(LE(v, n)) == v
  {
    if n > 0 {
      FromLEOfLE(v / 256, n - 1);
      assert LE(v, n)[1..] == LE(v / 256, n - 1);
    }
  }

  lemma {:induction false} PowersOf256()
    ensures Pow256(1) == 0x100 && Pow256(2) == 0x1_0000 && Pow256(3) == 0x100_0000
    ensures Pow256(4) == 0x1_0000_0000 && Pow256(8) == 0x1_0000_0000_0000_0000
    ensures SIZE_MAX == Pow256(8) - 1 == 2 * PTRDIFF_MAX + 1
  {
    assert Pow256(4) == 256 * Pow256(3);
    assert Pow256(6) == 256 * Pow256(5) && Pow256(8) == 256 * Pow256(7);
  }

  /** What the writers compute: byte `k` of `v` is `(v >> 8k) & 0xff`. */
  lemma {:induction false} LEIndex(v: nat, n: nat, k: nat)
    requires k < n
    ensures LE(v, n)[k] == Shr(v, 8 * k) % 256
  {
    if k > 0 {
      LEIndex(v / 256, n - 1, k - 1);
      ShiftByte(v);
      ShrTwice(v, 8, 8 * (k - 1));
      assert LE(v, n)[k] == LE(v / 256, n - 1)[k - 1];
      assert Shr(v, 8 * k) == Shr(v / 256, 8 * (k - 1));
    }
  }

  /** The bytes `write_uint16`, `write_uint24`, `write_uint32` and `write_uint64` append, in order. */
  lemma {:induction false} LEUnrolled(v: nat)
    ensures LE(v, 1) == [v % 256]
    ensures LE(v, 2) == [v % 256, Shr(v, 8) % 256]
    ensures LE(v, 3) == [v % 256, Shr(v, 8) % 256, Shr(v, 16) % 256]
    ensures LE(v, 4) == [v % 256, Shr(v, 8) % 256, Shr(v, 16) % 256, Shr(v, 24) % 256]
    ensures LE(v, 8) == [v % 256, Shr(v, 8) % 256, Shr(v, 16) % 256, Shr(v, 24) % 256,
                         Shr(v, 32) % 256, Shr(v, 40) % 256, Shr(v, 48) % 256, Shr(v, 56) % 256]
  {
    LEPrefix(v, 1, [v % 256]);
    LEPrefix(v, 2, [v % 256, Shr(v, 8) % 256]);
    LEPrefix(v, 3, [v % 256, Shr(v, 8) % 256, Shr(v, 16) % 256]);
    LEPrefix(v, 4, [v % 256, Shr(v, 8) % 256, Shr(v, 16) % 256, Shr(v, 24) % 256]);
    LEPrefix(v, 8, [v % 256, Shr(v, 8) % 256, Shr(v, 16) % 256, Shr(v, 24) % 256,
                    Shr(v, 32) % 256, Shr(v, 40) % 256, Shr(v, 48) % 256, Shr(v, 56) % 256]);
  }

  lemma {:induction false} LEPrefix(v: nat, n: nat, s: bytes)
    requires |s| == n && forall k | 0 <= k < n :: s[k] == Shr(v, 8 * k) % 256
    ensures LE(v, n) == s
  {
    forall k | 0 <= k < n
      ensures LE(v, n)[k] == s[k]
    {
      LEIndex(v, n, k);
    }
  }

  /** What the readers compute: `a | b << 8 | ...`, most significant byte last. */
  lemma {:induction false} FromLESnoc(s: bytes, b: byte)
    ensures FromLE(s + [b]) == FromLE(s) + Shl(b, 8 * |s|)
  {
    if s == [] {
      assert (s + [b])[1..] == [];
    } else {
      FromLESnoc(s[1..], b);
      assert (s + [b])[1..] == s[1..] + [b];
      ShiftByte(Shl(b, 8 * (|s| - 1)));
      ShlTwice(b, 8 * (|s| - 1), 8);
    }
  }

  // ---------------------------------------------------------------- flags and packet types

  /** The bit numbers of the capability flags (0x00000200, 0x00002000, 0x00800000 and 0x01000000). */
  const CAP_PROTOCOL_41: nat := 9
  const CAP_TRANSACTIONS: nat := 13
  const CAP_SESSION_TRACK: nat := 23
  const CAP_DEPRECATE_EOF: nat := 24

  /** The bit numbers of the server status flags (0x0200 and 0x4000). */
  const STATUS_NO_BACKSLASH_ESCAPES: nat := 9
  const STATUS_SESSION_STATE_CHANGED: nat := 14

  /** The flag tests, over the values of the flags in inc/trilogy/protocol.h. */
  lemma {:induction false} FlagValues(v: nat)
    ensures Bit(v, CAP_PROTOCOL_41) <==> v / 0x200 % 2 == 1
    ensures Bit(v, CAP_TRANSACTIONS) <==> v / 0x2000 % 2 == 1
    ensures Bit(v, CAP_SESSION_TRACK) <==> v / 0x80_0000 % 2 == 1
    ensures Bit(v, CAP_DEPRECATE_EOF) <==> v / 0x100_0000 % 2 == 1
    ensures Bit(v, STATUS_NO_BACKSLASH_ESCAPES) <==> v / 0x200 % 2 == 1
    ensures Bit(v, STATUS_SESSION_STATE_CHANGED) <==> v / 0x4000 % 2 == 1
  {
    FlagPowers();
    ShrBounds(v, 9, 0x200);
    ShrBounds(v, 13, 0x2000);
    ShrBounds(v, 14, 0x4000);
    ShrBounds(v, 23, 0x80_0000);
    ShrBounds(v, 24, 0x100_0000);
  }

  lemma {:induction false} FlagPowers()
    ensures Shl(1, 9) == 0x200 && Shl(1, 13) == 0x2000 && Shl(1, 14) == 0x4000
    ensures Shl(1, 23) == 0x80_0000 && Shl(1, 24) == 0x100_0000
  {
    ShlTwice(1, 9, 4);
    ShlTwice(1, 9, 5);
    ShlTwice(1, 9, 14);
    ShlTwice(1, 9, 15);
  }

  const PACKET_OK: byte := 0x00
  const PACKET_EOF: byte := 0xfe
  const PACKET_ERR: byte := 0xff
}
