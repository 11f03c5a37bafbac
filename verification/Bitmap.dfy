/** Null bitmaps: bit `i` of the map is bit `i % 8` of byte `i / 8`. */
module Bitmaps {
  import opened Bytes

  /** Up to eight flags as a byte, the first in the lowest bit. */
  function Bits(flags: seq<bool>): nat {
    if flags == [] then 0 else (if flags[0] then 1 else 0) + 2 * Bits(flags[1..])
  }

  lemma {:induction false} BitsBound(flags: seq<bool>)
    ensures Bits(flags) < Shl(1, |flags|)
  {
    if flags != [] {
      BitsBound(flags[1..]);
    }
  }

  lemma {:induction false} BitOfBits(flags: seq<bool>, k: nat)
    ensures Bit(Bits(flags), k) <==> k < |flags| && flags[k]
    decreases k
  {
    if flags == [] {
      ShrZero(k);
    } else if k > 0 {
      BitOfBits(flags[1..], k - 1);
    }
  }

  lemma {:induction false} ShrZero(k: nat)
    ensures Shr(0, k) == 0
  {
    if k > 0 {
      ShrZero(k - 1);
    }
  }

  /** One more flag sets the next bit. */
  lemma {:induction false} BitsSnoc(flags: seq<bool>, b: bool)
    ensures Bits(flags + [b]) == Bits(flags) + if b then Shl(1, |flags|) else 0
    decreases |flags|
  {
    if flags == [] {
      assert (flags + [b])[1..] == [];
    } else {
      assert (flags + [b])[1..] == flags[1..] + [b];
      BitsSnoc(flags[1..], b);
    }
  }

  /** The bitmap of `flags`, padded with zero bits. */
  function Bitmap(flags: seq<bool>): (s: bytes)
    ensures |s| == (|flags| + 7) / 8
    decreases |flags|
  {
    if flags == [] then []
    else if |flags| <= 8 then ByteOf(flags)
    else ByteOf(flags[..8]) + Bitmap(flags[8..])
  }

  function ByteOf(flags: seq<bool>): (s: bytes)
    requires |flags| <= 8
    ensures |s| == 1
  {
    BitsBound(flags);
    ShiftByte(1);
    ShlMonotone(1, |flags|, 8);
    [Bits(flags)]
  }

  /** Bit `i` of the map is flag `i`; the padding bits are zero. */
  lemma {:induction false} BitmapBit(flags: seq<bool>, i: nat)
    requires i / 8 < (|flags| + 7) / 8
    ensures Bit(Bitmap(flags)[i / 8], i % 8) <==> i < |flags| && flags[i]
    decreases |flags|
  {
    if i < 8 {
      var first := if |flags| <= 8 then flags else flags[..8];
      BitOfBits(first, i);
    } else {
      BitmapBit(flags[8..], i - 8);
      assert i / 8 == (i - 8) / 8 + 1 && i % 8 == (i - 8) % 8;
    }
  }

  /** A full group of eight flags, and what comes before it. */
  lemma {:induction false} BitmapGroup(flags: seq<bool>, group: seq<bool>)
    requires |flags| % 8 == 0 && 0 < |group| <= 8
    ensures Bitmap(flags + group) == Bitmap(flags) + ByteOf(group)
    decreases |flags|
  {
    if flags == [] {
      assert flags + group == group;
    } else {
      assert (flags + group)[..8] == flags[..8];
      assert (flags + group)[8..] == flags[8..] + group;
      BitmapGroup(flags[8..], group);
      if |flags| == 8 {
        assert flags[..8] == flags;
      }
    }
  }

  /** `v | 1 << k`. */
  function SetBit(v: nat, k: nat): nat {
    if Bit(v, k) then v else v + Shl(1, k)
  }

  /** Setting the bit behind the flags collected so far appends a flag. */
  lemma {:induction false} SetBitSnoc(flags: seq<bool>)
    ensures SetBit(Bits(flags), |flags|) == Bits(flags + [true])
    ensures Bits(flags) == Bits(flags + [false])
  {
    BitOfBits(flags, |flags|);
    BitsSnoc(flags, true);
    BitsSnoc(flags, false);
  }
}
