/** The packet builder of src/builder.c: it splits one payload into fragments while it is being written. */
module Builders {
  import opened Bytes
  import opened Buffers
  import opened Framing

  // ---------------------------------------------------------------- specification

  /** The builder as a value: what is in the buffer, and the counters. */
  datatype Written = Written(
    sent: bytes, headerOffset: nat, fragmentLength: nat, packetLength: nat, sq: byte)

  /** A run of bytes copied to the end of the buffer and counted. */
  function Put(b: Written, d: bytes): Written {
    b.(sent := b.sent + d, fragmentLength := b.fragmentLength + |d|, packetLength := b.packetLength + |d|)
  }

  /** The current header closed with length 0xffffff, and a new one opened behind it. */
  function Close(b: Written): (r: Written)
    requires b.headerOffset + 3 <= |b.sent|
    ensures r.headerOffset + 3 <= |r.sent|
  {
    b.(sent := PatchLength(b.sent, b.headerOffset, MAX_PACKET_LEN) + Header(0, b.sq), headerOffset := |b.sent|,
       fragmentLength := 0, sq := Next(b.sq))
  }

  /** One byte, as `trilogy_builder_write_uint8` writes it. */
  function PutByte(b: Written, v: byte): (r: Written)
    requires b.headerOffset + 3 <= |b.sent|
    ensures r.headerOffset + 3 <= |r.sent|
  {
    var a := Put(b, [v]);
    if a.fragmentLength == MAX_PACKET_LEN then Close(a) else a
  }

  /** `trilogy_builder_write_uint8` on each byte of `d`, in order. */
  function PutEach(b: Written, d: bytes): Written
    requires b.headerOffset + 3 <= |b.sent|
    decreases |d|
  {
    if d == [] then b else PutEach(PutByte(b, d[0]), d[1..])
  }

  /** The builder that holds payload `p`: full fragments in front, then one with an unfinished header. */
  function Holding(p: bytes, first: byte): (b: Written)
    ensures b.headerOffset + 4 + b.fragmentLength == |b.sent| && b.fragmentLength < MAX_PACKET_LEN
    ensures b.packetLength == |p|
    decreases |p|
  {
    if |p| < MAX_PACKET_LEN then Written(Header(0, first) + p, 0, |p|, |p|, Next(first))
    else Behind(FullFragment(p, first), Holding(p[MAX_PACKET_LEN..], Next(first)), |p|)
  }

  /** `b` with `a` in front of it. */
  function Behind(a: bytes, b: Written, packetLength: nat): Written {
    b.(sent := a + b.sent, headerOffset := |a| + b.headerOffset, packetLength := packetLength)
  }

  lemma {:induction false} HoldingPeel(p: bytes, d: bytes, first: byte)
    requires |p| >= MAX_PACKET_LEN
    ensures Holding(p + d, first) ==
            Behind(FullFragment(p, first), Holding(p[MAX_PACKET_LEN..] + d, Next(first)), |p + d|)
  {
    assert (p + d)[MAX_PACKET_LEN..] == p[MAX_PACKET_LEN..] + d;
    assert (p + d)[..MAX_PACKET_LEN] == p[..MAX_PACKET_LEN];
  }

  lemma {:induction false} BehindPut(a: bytes, b: Written, d: bytes, n: nat)
    ensures Behind(a, Put(b, d), n + |d|) == Put(Behind(a, b, n), d)
  {
    Associate(a, b.sent, d);
  }

  lemma {:induction false} BehindClose(a: bytes, b: Written, n: nat)
    requires b.headerOffset + 3 <= |b.sent|
    ensures Behind(a, Close(b), n) == Close(Behind(a, b, n))
  {
    PatchTail(a, b.sent, b.headerOffset, MAX_PACKET_LEN);
    Associate(a, PatchLength(b.sent, b.headerOffset, MAX_PACKET_LEN), Header(0, b.sq));
  }

  /** A run of bytes that stays inside the fragment. */
  lemma {:induction false} HoldingAppend(p: bytes, d: bytes, first: byte)
    requires Holding(p, first).fragmentLength + |d| < MAX_PACKET_LEN
    ensures Holding(p + d, first) == Put(Holding(p, first), d)
    decreases |p|
  {
    if |p| >= MAX_PACKET_LEN {
      var q := p[MAX_PACKET_LEN..];
      HoldingPeel(p, d, first);
      HoldingAppend(q, d, Next(first));
      BehindPut(FullFragment(p, first), Holding(q, Next(first)), d, |p|);
    } else {
      Associate(Header(0, first), p, d);
    }
  }

  /** A run of bytes that exactly fills the fragment. */
  lemma {:induction false} HoldingFill(p: bytes, d: bytes, first: byte)
    requires Holding(p, first).fragmentLength + |d| == MAX_PACKET_LEN
    ensures Holding(p + d, first) == Close(Put(Holding(p, first), d))
    decreases |p|
  {
    if |p| >= MAX_PACKET_LEN {
      var q, a := p[MAX_PACKET_LEN..], FullFragment(p, first);
      HoldingPeel(p, d, first);
      HoldingFill(q, d, Next(first));
      BehindPut(a, Holding(q, Next(first)), d, |p|);
      BehindClose(a, Put(Holding(q, Next(first)), d), |p| + |d|);
    } else {
      FillFirst(p, d, first);
    }
  }

  lemma {:induction false} FillFirst(p: bytes, d: bytes, first: byte)
    requires |p| < MAX_PACKET_LEN && |p| + |d| == MAX_PACKET_LEN
    ensures Holding(p + d, first) == Close(Put(Holding(p, first), d))
  {
    HoldingFull(p + d, first);
    Associate(Header(0, first), p, d);
    PatchHeader(p + d, first, 0, MAX_PACKET_LEN);
  }

  lemma {:induction false} HoldingFull(q: bytes, first: byte)
    requires |q| == MAX_PACKET_LEN
    ensures Holding(q, first) ==
            Written(Header(MAX_PACKET_LEN, first) + q + Header(0, Next(first)), 4 + MAX_PACKET_LEN, 0, |q|,
                    Next(Next(first)))
  {
    assert q[..MAX_PACKET_LEN] == q && q[MAX_PACKET_LEN..] == [];
    assert Header(0, Next(first)) + [] == Header(0, Next(first));
  }

  /** Writing the last fragment's length turns the builder's buffer into the finished message. */
  lemma {:induction false} HoldingFinalize(p: bytes, first: byte)
    ensures var b := Holding(p, first);
            PatchLength(b.sent, b.headerOffset, b.fragmentLength) == Frame(p, first)
    decreases |p|
  {
    if |p| >= MAX_PACKET_LEN {
      var q := p[MAX_PACKET_LEN..];
      var c := Holding(q, Next(first));
      HoldingFinalize(q, Next(first));
      FramePeel(p, first);
      PatchTail(FullFragment(p, first), c.sent, c.headerOffset, c.fragmentLength);
    } else {
      PatchHeader(p, first, 0, |p|);
    }
  }

  /** The next sequence number counts on from the last header written. */
  lemma {:induction false} HoldingSeq(p: bytes, first: byte)
    ensures Holding(p, first).sq == SeqPlus(first, Fragments(|p|))
    decreases |p|
  {
    if |p| >= MAX_PACKET_LEN {
      HoldingSeq(p[MAX_PACKET_LEN..], Next(first));
    }
  }

  lemma {:induction false} HoldingPut(p: bytes, v: byte, first: byte)
    ensures PutByte(Holding(p, first), v) == Holding(p + [v], first)
  {
    if Holding(p, first).fragmentLength + 1 == MAX_PACKET_LEN {
      HoldingFill(p, [v], first);
    } else {
      HoldingAppend(p, [v], first);
    }
  }

  /** Writing byte by byte from a builder that holds `p` leads to the builder that holds `p + d`, whatever number of
      fragment boundaries lie between. */
  lemma {:induction false} HoldingPutEach(p: bytes, d: bytes, first: byte)
    ensures PutEach(Holding(p, first), d) == Holding(p + d, first)
    decreases |d|
  {
    if d == [] {
      assert p + d == p;
    } else {
      HoldingPut(p, d[0], first);
      HoldingPutEach(p + [d[0]], d[1..], first);
      FirstThenRest(p, d);
    }
  }

  lemma {:induction false} FirstThenRest(p: bytes, d: bytes)
    requires d != []
    ensures p + [d[0]] + d[1..] == p + d
  {
  }

  /** The packet length at which a one-byte write is refused: `packet_max_length - 1` in a `size_t`. */
  function ByteLimit(maxLength: nat): nat {
    if maxLength == 0 then SIZE_MAX else maxLength - 1
  }

  /** How many bytes follow the leader of a length-encoded integer. */
  function LenencWidth(v: nat): nat {
    if v < 251 then 0 else if v <= 0xffff then 2 else if v <= 0xffffff then 3 else 8
  }

  function LenencLeader(v: nat): byte {
    if v < 251 then v else if v <= 0xffff then 0xfc else if v <= 0xffffff then 0xfd else 0xfe
  }

  /** A length-encoded integer. */
  function Lenenc(v: nat): (s: bytes) {
    [LenencLeader(v)] + LE(v, LenencWidth(v))
  }

  /** The bytes of every length-encoded integer. */
  lemma {:induction false} LenencUnrolled(v: nat)
    ensures v < 251 ==> Lenenc(v) == [v]
    ensures 251 <= v <= 0xffff ==> Lenenc(v) == [0xfc, v % 256, v / 0x100]
    ensures 0x1_0000 <= v <= 0xff_ffff ==> Lenenc(v) == [0xfd, v % 256, v / 0x100 % 256, v / 0x1_0000]
    ensures 0x100_0000 <= v <= 0xffff_ffff_ffff_ffff ==> Lenenc(v) == [0xfe] + LE(v, 8)
  {
    if v >= 251 {
      UnrollLE(v);
    }
  }

  lemma {:induction false} UnrollLE(v: nat)
    ensures LE(v, 0) == []
    ensures LE(v, 2) == [v % 256, v / 0x100 % 256]
    ensures LE(v, 3) == [v % 256, v / 0x100 % 256, v / 0x1_0000 % 256]
  {
    assert LE(v / 0x1_0000, 1) == [v / 0x1_0000 % 256] + LE(v / 0x100_0000, 0);
    assert LE(v / 0x100, 2) == [v / 0x100 % 256] + LE(v / 0x1_0000, 1);
    assert LE(v / 0x100, 1) == [v / 0x100 % 256] + LE(v / 0x1_0000, 0);
  }

  /** A length-encoded buffer. */
  function LenencBuffer(d: bytes): (s: bytes)
    ensures |s| > |d|
  {
    Lenenc(|d|) + d
  }

  /** What a packet is to consist of, and the code its builder then returns. */
  datatype Plan = Plan(bytes: bytes, code: Rc)

  // ---------------------------------------------------------------- implementation

  class Builder {
    const buffer: Buffer
    var headerOffset: nat
    var packetLength: nat
    var packetMaxLength: nat
    var fragmentLength: nat
    var sq: byte

    /** What has been written so far, and the number of the first fragment. */
    ghost var payload: bytes
    ghost const first: byte

    ghost function Model(): Written
      requires buffer.Valid()
      reads this, buffer
    {
      Written(buffer.Contents(), headerOffset, fragmentLength, packetLength, sq)
    }

    ghost predicate Valid()
      reads this, buffer
    {
      buffer.Valid() && Model() == Holding(payload, first)
    }

    /** What every write promises. TRILOGY_OK: the payload has grown by `d`, within the limit.
        TRILOGY_MAX_PACKET_EXCEEDED: it would have reached the limit. Anything else: an allocation was refused. */
    twostate predicate Wrote(d: bytes, rc: Rc)
      reads this, buffer
    {
      && buffer.Valid()
      && packetMaxLength == old(packetMaxLength)
      && rc in {Ok, MaxPacketExceeded, SysErr, TypeOverflow}
      && buffer.refusals == old(buffer.refusals) + (if rc in {Ok, MaxPacketExceeded} then 0 else 1)
      && (rc == Ok ==> Valid() && payload == old(payload) + d)
      && (rc == Ok && d != [] && packetMaxLength > 0 ==> |payload| < packetMaxLength)
      && (rc == MaxPacketExceeded ==> |old(payload)| + |d| >= packetMaxLength)
    }

    /** What a run of bytes promises: only an allocation can be refused. */
    twostate predicate Ran(d: bytes, rc: Rc)
      reads this, buffer
    {
      && buffer.Valid()
      && packetMaxLength == old(packetMaxLength)
      && buffer.refusals == old(buffer.refusals) + (if rc == Ok then 0 else 1)
      && rc in {Ok, SysErr, TypeOverflow}
      && (rc == Ok ==> Valid() && payload == old(payload) + d)
    }

    /** What building a packet promises, unless an allocation is refused: the bytes of the plan and its code, or
        TRILOGY_MAX_PACKET_EXCEEDED exactly when those bytes would have reached the limit. */
    twostate predicate Built(plan: Plan, rc: Rc)
      reads this, buffer
    {
      && buffer.Valid()
      && packetMaxLength == old(packetMaxLength)
      && rc !in {Again, Eof}
      && old(buffer.refusals) <= buffer.refusals
      && (buffer.refusals == old(buffer.refusals) && packetMaxLength > 0 ==>
            rc == if |old(payload)| + |plan.bytes| < packetMaxLength then plan.code else MaxPacketExceeded)
      && (rc == Ok ==> plan.code == Ok && payload == old(payload) + plan.bytes)
    }

    /** `trilogy_builder_init` without the header; `Start` writes it. */
    constructor (buffer: Buffer, sq: byte)
      requires buffer.Valid()
      modifies buffer`len
      ensures this.buffer == buffer && buffer.Valid() && buffer.len == 0
      ensures packetLength == 0 && packetMaxLength == SIZE_MAX
      ensures this.sq == sq == first && payload == []
    {
      this.buffer := buffer;
      this.sq, first := sq, sq;
      packetLength, packetMaxLength := 0, SIZE_MAX;
      headerOffset, fragmentLength := 0, 0;
      payload := [];
      new;
      buffer.len := 0;
    }

    /** Appends an unfinished header and counts on. */
    method WriteHeader() returns (rc: Rc)
      requires buffer.Valid()
      modifies this`headerOffset, this`fragmentLength, this`sq, buffer
      ensures buffer.Valid()
      ensures buffer.refusals == old(buffer.refusals) + if rc == Ok then 0 else 1
      ensures rc == Ok ==>
                Model() == old(Model()).(sent := old(buffer.Contents()) + Header(0, old(sq)),
                                         headerOffset := old(buffer.len), fragmentLength := 0, sq := Next(old(sq)))
      ensures rc in {Ok, SysErr, TypeOverflow}
    {
      rc := buffer.Expand(4);
      if rc != Ok {
        return;
      }
      headerOffset := buffer.len;
      fragmentLength := 0;
      buffer.Append([0, 0, 0, sq]);
      sq := Next(sq);
      return Ok;
    }

    method Start() returns (rc: Rc)
      requires buffer.Valid() && buffer.len == 0 && packetLength == 0 && payload == [] && sq == first
      modifies this`headerOffset, this`fragmentLength, this`sq, buffer
      ensures buffer.Valid()
      ensures buffer.refusals == old(buffer.refusals) + if rc == Ok then 0 else 1
      ensures rc == Ok ==> Valid()
      ensures rc in {Ok, SysErr, TypeOverflow}
    {
      rc := WriteHeader();
      if rc != Ok {
        return;
      }
      assert buffer.Contents() == Header(0, first) + [];
      return Ok;
    }

    /** Closes the current fragment with length 0xffffff and opens the next one. */
    method WriteContinuationHeader() returns (rc: Rc)
      requires buffer.Valid() && headerOffset + 3 <= buffer.len
      modifies this`headerOffset, this`fragmentLength, this`sq, buffer
      ensures buffer.Valid()
      ensures buffer.refusals == old(buffer.refusals) + if rc == Ok then 0 else 1
      ensures rc == Ok ==> Model() == Close(old(Model()))
      ensures rc in {Ok, SysErr, TypeOverflow}
    {
      PatchHeaderLength(MAX_PACKET_LEN);
      rc := WriteHeader();
    }

    /** The three stores into the current header. */
    method PatchHeaderLength(n: nat)
      requires buffer.Valid() && headerOffset + 3 <= buffer.len
      modifies buffer`buff
      ensures buffer.Valid()
      ensures Model() == old(Model()).(sent := PatchLength(old(buffer.Contents()), headerOffset, n))
    {
      buffer.buff := buffer.buff[headerOffset := n % 256];
      buffer.buff := buffer.buff[headerOffset + 1 := n / 0x100 % 256];
      buffer.buff := buffer.buff[headerOffset + 2 := n / 0x1_0000 % 256];
      assert buffer.Contents() == PatchLength(old(buffer.Contents()), headerOffset, n);
    }

    /** Writes the length of the last fragment; the buffer then holds the finished message, and the builder the number
        after its last header. */
    method Finalize()
      requires Valid()
      modifies buffer`buff
      ensures buffer.Valid() && buffer.Contents() == Frame(payload, first)
      ensures sq == SeqPlus(first, Fragments(|payload|))
    {
      HoldingFinalize(payload, first);
      HoldingSeq(payload, first);
      PatchHeaderLength(fragmentLength);
    }

    /** Makes room for a run of bytes, copies it and counts it. */
    method AppendRun(d: bytes) returns (rc: Rc)
      requires buffer.Valid() && |d| <= PTRDIFF_MAX
      modifies this`fragmentLength, this`packetLength, buffer
      ensures buffer.Valid()
      ensures buffer.refusals == old(buffer.refusals) + if rc == Ok then 0 else 1
      ensures rc == Ok ==> Model() == Put(old(Model()), d)
      ensures rc in {Ok, SysErr, TypeOverflow}
    {
      rc := buffer.Expand(|d|);
      if rc != Ok {
        return;
      }
      buffer.Append(d);
      fragmentLength := fragmentLength + |d|;
      packetLength := packetLength + |d|;
      return Ok;
    }

    method WriteUint8(val: byte) returns (rc: Rc)
      requires Valid()
      modifies this, buffer
      ensures Wrote([val], rc)
      ensures rc == MaxPacketExceeded <==>
              old(packetLength) >= if old(packetMaxLength) > 0 then old(packetMaxLength) - 1 else SIZE_MAX
    {
      HoldingPut(payload, val, first);
      if packetLength >= ByteLimit(packetMaxLength) {
        return MaxPacketExceeded;
      }
      :- AppendRun([val]);
      payload := payload + [val];
      if fragmentLength == MAX_PACKET_LEN {
        :- WriteContinuationHeader();
      }
      return Ok;
    }

    /** `trilogy_builder_write_uint16`, `_uint24`, `_uint32` and `_uint64` for `n` = 2, 3, 4 and 8: the bytes
        `(val >> 8k) & 0xff`, each through `WriteUint8`. Also `_float` and `_double`, on their bit patterns. */
    method WriteLE(val: nat, n: nat) returns (rc: Rc)
      requires Valid()
      modifies this, buffer
      ensures Wrote(LE(val, n), rc)
    {
      ghost var p := payload;
      assert LE(val, n)[..0] == [];
      for k := 0 to n
        invariant Valid() && payload == p + LE(val, n)[..k]
        invariant buffer.refusals == old(buffer.refusals)
        invariant packetMaxLength == old(packetMaxLength)
        invariant k > 0 && packetMaxLength > 0 ==> |payload| < packetMaxLength
      {
        LEIndex(val, n, k);
        OneMore(p, LE(val, n), k);
        :- WriteUint8(Shr(val, 8 * k) % 256);
      }
      assert LE(val, n)[..n] == LE(val, n);
      return Ok;
    }

    static lemma {:induction false} OneMore(p: bytes, d: bytes, k: nat)
      requires k < |d|
      ensures p + d[..k] + [d[k]] == p + d[..k + 1]
    {
    }

    /** A run of bytes that leaves room in the fragment. */
    method WriteWithin(d: bytes) returns (rc: Rc)
      requires Valid() && |d| <= PTRDIFF_MAX && fragmentLength + |d| < MAX_PACKET_LEN
      modifies this, buffer
      ensures Ran(d, rc)
    {
      HoldingAppend(payload, d, first);
      :- AppendRun(d);
      payload := payload + d;
      return Ok;
    }

    /** A run of bytes that fills the fragment, and the header of the next one. */
    method WriteFilling(d: bytes) returns (rc: Rc)
      requires Valid() && |d| <= PTRDIFF_MAX && fragmentLength + |d| == MAX_PACKET_LEN
      modifies this, buffer
      ensures Ran(d, rc)
      ensures rc == Ok ==> fragmentLength == 0
    {
      HoldingFill(payload, d, first);
      :- AppendRun(d);
      payload := payload + d;
      :- WriteContinuationHeader();
      return Ok;
    }

    /** Whatever writes led from one valid state to another, they left the same bytes, headers, sequence number and
        counters as `WriteUint8` on each byte of the payload they added: in particular one `WriteBuffer`. */
    twostate lemma {:induction false} WritesAreBytewise(d: bytes)
      requires old(Valid()) && Valid() && payload == old(payload) + d
      ensures old(headerOffset + 3 <= buffer.len)
      ensures Model() == PutEach(old(Model()), d)
    {
      HoldingPutEach(old(payload), d, first);
    }

    /** Appends `data`, splitting it at every fragment boundary it crosses. Each pass of the loop consumes at least
        one byte. */
    method WriteBuffer(data: bytes) returns (rc: Rc)
      requires Valid() && |data| <= PTRDIFF_MAX
      modifies this, buffer
      ensures Wrote(data, rc)
      ensures rc == MaxPacketExceeded <==> old(packetLength) + |data| >= old(packetMaxLength)
    {
      ghost var p := payload;
      var fragmentRemaining := MAX_PACKET_LEN - fragmentLength;
      if packetLength + |data| >= packetMaxLength {
        return MaxPacketExceeded;
      }
      if |data| < fragmentRemaining {
        rc := WriteWithin(data);
        return;
      }
      var at := 0;
      NextRun(p, data, 0, 0);
      while |data| - at >= fragmentRemaining
        invariant at <= |data| && 0 < fragmentRemaining == MAX_PACKET_LEN - fragmentLength
        invariant Valid() && payload == p + data[..at]
        invariant buffer.refusals == old(buffer.refusals) && packetMaxLength == old(packetMaxLength)
        decreases |data| - at
      {
        NextRun(p, data, at, fragmentRemaining);
        :- WriteFilling(data[at..at + fragmentRemaining]);
        at := at + fragmentRemaining;
        fragmentRemaining := MAX_PACKET_LEN;
      }
      NextRun(p, data, at, |data| - at);
      if |data| - at > 0 {
        :- WriteWithin(data[at..]);
      }
      return Ok;
    }

    static lemma {:induction false} NextRun(p: bytes, data: bytes, at: nat, n: nat)
      requires at + n <= |data|
      ensures data[..0] == [] && p + [] == p
      ensures p + data[..at] + data[at..at + n] == p + data[..at + n]
      ensures at + n == |data| ==> p + data[..at] + data[at..] == p + data && data[..at + n] == data
    {
    }

    method WriteLenenc(val: nat) returns (rc: Rc)
      requires Valid() && val <= SIZE_MAX
      modifies this, buffer
      ensures Wrote(Lenenc(val), rc)
    {
      if val < 251 {
        rc := WriteUint8(val);
      } else if val <= 0xffff {
        rc := WriteTagged(0xfc, val, 2);
      } else if val <= 0xffffff {
        rc := WriteTagged(0xfd, val, 3);
      } else {
        rc := WriteTagged(0xfe, val, 8);
      }
    }

    method WriteTagged(leader: byte, val: nat, n: nat) returns (rc: Rc)
      requires Valid()
      modifies this, buffer
      ensures Wrote([leader] + LE(val, n), rc)
    {
      rc := WriteUint8(leader);
      if rc != Ok {
        return;
      }
      :- WriteLE(val, n);
      return Ok;
    }

    method WriteLenencBuffer(data: bytes) returns (rc: Rc)
      requires Valid() && |data| <= PTRDIFF_MAX
      modifies this, buffer
      ensures Wrote(LenencBuffer(data), rc)
    {
      rc := WriteLenenc(|data|);
      if rc != Ok {
        return;
      }
      :- WriteBuffer(data);
      return Ok;
    }

    method SetMaxPacketLength(maxLength: nat) returns (rc: Rc)
      requires Valid()
      modifies this`packetMaxLength
      ensures Valid()
      ensures rc == if old(packetLength) > maxLength then MaxPacketExceeded else Ok
      ensures packetMaxLength == if rc == Ok then maxLength else old(packetMaxLength)
    {
      if packetLength > maxLength {
        return MaxPacketExceeded;
      }
      packetMaxLength := maxLength;
      return Ok;
    }
  }
}
