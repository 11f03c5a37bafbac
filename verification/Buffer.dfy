/** The growable byte buffer of src/buffer.c. */
module Buffers {
  import opened Bytes

  /** The capacity the doubling loop ends with: the first of `cap`, `2 * cap`, ... that holds `want`
      bytes, or nothing when the next doubling would overflow a `size_t`. */
  function Grow(cap: nat, want: nat): (r: Option<nat>)
    requires 0 < cap
    decreases want - cap
  {
    if want <= cap then Some(cap)
    else if cap > SIZE_MAX / 2 then None
    else Grow(cap * 2, want)
  }

  /** `Grow` answers with the least sufficient power-of-two multiple of `cap`. */
  lemma {:induction false} GrowIsLeast(cap: nat, want: nat) returns (k: nat)
    requires 0 < cap <= SIZE_MAX
    ensures Grow(cap, want).Some? ==>
              && Grow(cap, want).value == Shl(cap, k) <= SIZE_MAX
              && want <= Shl(cap, k)
              && (k > 0 ==> Shl(cap, k - 1) < want)
    ensures Grow(cap, want).None? ==> Shl(cap, k) < want && Shl(cap, k + 1) > SIZE_MAX
    decreases want - cap
  {
    if want <= cap || cap > SIZE_MAX / 2 {
      k := 0;
      assert Shl(cap, 1) == 2 * Shl(cap, 0);
    } else {
      var j := GrowIsLeast(cap * 2, want);
      k := j + 1;
      assert Shl(cap, 1) == 2 * Shl(cap, 0);
      ShlTwice(cap, 1, j);
      ShlTwice(cap, 1, j + 1);
      if j > 0 {
        ShlTwice(cap, 1, j - 1);
      }
    }
  }

  /** TRILOGY_TYPE_OVERFLOW is reported exactly when no doubling of `cap` that a `size_t` can hold is
      large enough. */
  lemma {:induction false} GrowOverflowsIff(cap: nat, want: nat)
    requires 0 < cap <= SIZE_MAX
    ensures Grow(cap, want).None? <==> forall k: nat :: Shl(cap, k) <= SIZE_MAX ==> Shl(cap, k) < want
  {
    var k := GrowIsLeast(cap, want);
    if Grow(cap, want).None? {
      forall j: nat | Shl(cap, j) <= SIZE_MAX
        ensures Shl(cap, j) < want
      {
        if j > k {
          ShlMonotone(cap, k + 1, j);
        } else {
          ShlMonotone(cap, j, k);
        }
      }
    }
  }

  class Buffer {
    var len: nat
    var cap: nat
    /** The whole block: `len` bytes of contents, then whatever the rest of it holds. */
    var buff: bytes

    /** How many allocations were refused so far: by the allocator, or because no capacity was representable. */
    ghost var refusals: nat
    /** How many bytes reallocations have moved so far. */
    ghost var copied: nat

    ghost predicate Valid()
      reads this
    {
      0 < cap == |buff| <= PTRDIFF_MAX && len <= cap && copied < cap
    }

    ghost function Contents(): bytes
      requires Valid()
      reads this
    {
      buff[..len]
    }

    constructor (initialCapacity: nat)
      requires 0 < initialCapacity <= PTRDIFF_MAX
      ensures Valid() && len == 0 && cap == initialCapacity && refusals == 0 && copied == 0
    {
      len := 0;
      cap := initialCapacity;
      buff := seq(initialCapacity, _ => 0);
      refusals, copied := 0, 0;
    }

    /** `realloc`: a larger block that starts with the same bytes, unless the allocator refuses. */
    method Reallocate(newCap: nat) returns (ok: bool, block: bytes)
      requires Valid() && cap <= newCap
      ensures ok ==> newCap <= PTRDIFF_MAX
      ensures ok ==> |block| == newCap && block[..cap] == buff
    {
      ok := *;
      ok := ok && newCap <= PTRDIFF_MAX;
      block := buff + seq(newCap - cap, _ => 0);
    }

    /** Room for `needed` more bytes. The capacity grows to the least sufficient one, no byte of the block is lost, and
        the bytes moved over the buffer's whole life stay below its capacity (`copied < cap` in `Valid`). */
    method Expand(needed: nat) returns (rc: Rc)
      requires Valid() && needed <= PTRDIFF_MAX
      modifies this`cap, this`buff, this`refusals, this`copied
      ensures Valid()
      ensures old(cap) <= cap && buff[..old(cap)] == old(buff)
      ensures old(len) + needed <= old(cap) ==> rc == Ok
      ensures refusals == old(refusals) + if rc == Ok then 0 else 1
      ensures rc == TypeOverflow <==> Grow(old(cap), old(len) + needed).None?
      ensures rc == Ok ==> len + needed <= cap && Some(cap) == Grow(old(cap), old(len) + needed)
      ensures rc != Ok ==> cap == old(cap) && buff == old(buff) && rc in {SysErr, TypeOverflow}
      ensures copied == if cap == old(cap) then old(copied) else old(copied + cap)
    {
      if len + needed > cap {
        var newCap := cap;
        while len + needed > newCap
          invariant cap <= newCap
          invariant newCap == cap || 2 * cap <= newCap
          invariant Grow(newCap, len + needed) == Grow(cap, len + needed)
          decreases len + needed - newCap
        {
          if newCap > SIZE_MAX / 2 {
            refusals := refusals + 1;
            return TypeOverflow;
          }
          newCap := newCap * 2;
        }
        var ok, block := Reallocate(newCap);
        if !ok {
          refusals := refusals + 1;
          return SysErr;
        }
        copied := copied + cap;
        buff := block;
        cap := newCap;
      }
      return Ok;
    }

    method Putc(c: byte) returns (rc: Rc)
      requires Valid()
      modifies this
      ensures Valid()
      ensures refusals == old(refusals) + if rc == Ok then 0 else 1
      ensures rc == Ok ==> Contents() == old(Contents()) + [c]
      ensures rc != Ok ==> Contents() == old(Contents())
    {
      rc := Expand(1);
      if rc != Ok {
        return;
      }
      buff := buff[len := c];
      len := len + 1;
      return Ok;
    }

    /** `memcpy` to the end of the buffer, for a caller that has made room. */
    method Append(data: bytes)
      requires Valid() && len + |data| <= cap
      modifies this`len, this`buff
      ensures Valid() && Contents() == old(Contents()) + data
      ensures buff[0] == if old(len) == 0 && data != [] then data[0] else old(buff[0])
    {
      buff := buff[..len] + data + buff[len + |data|..];
      len := len + |data|;
      assert buff[..len] == old(buff[..len]) + data;
    }

    method Write(data: bytes) returns (rc: Rc)
      requires Valid() && |data| <= PTRDIFF_MAX
      modifies this
      ensures Valid()
      ensures refusals == old(refusals) + if rc == Ok then 0 else 1
      ensures rc == Ok ==> Contents() == old(Contents()) + data
      ensures rc != Ok ==> Contents() == old(Contents())
    {
      rc := Expand(|data|);
      if rc != Ok {
        return;
      }
      Append(data);
      return Ok;
    }
  }
}
