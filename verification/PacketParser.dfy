/** The incremental packet parser of src/packet_parser.c, with the callbacks src/client.c installs. */
module PacketParsers {
  import opened Bytes
  import opened Buffers
  import opened Framing

  // ---------------------------------------------------------------- specification, one byte at a time

  datatype Phase = Len0 | Len1 | Len2 | Seq | Payload

  /** The parser as a value, with the packet buffer it fills: `packet` is what the buffer holds, `kind` the first byte
      of its block, which outlives an empty packet. */
  datatype Machine = Machine(phase: Phase, remaining: nat, fragment: bool, sq: byte, packet: bytes, kind: byte) {

    /** The states between two successful callbacks. */
    predicate Healthy() {
      match phase
      case Len0 => true
      case Len1 => remaining < 0x100
      case Len2 => remaining < 0x1_0000
      case Seq => remaining <= MAX_PACKET_LEN && (fragment <==> remaining == MAX_PACKET_LEN)
      case Payload => 0 < remaining <= MAX_PACKET_LEN
    }

    /** What a data callback leaves that failed on the last byte of a fragment: nothing remains, and the payload has not
        ended. */
    predicate Stuck() {
      phase == Payload && remaining == 0
    }

    /** Every state the parser can be in, whatever its callbacks returned. */
    predicate Sane() {
      Healthy() || Stuck()
    }

    /** Between two packets. */
    predicate Idle() {
      phase == Len0 && !fragment
    }
  }

  datatype Verdict = More | Packet | BadSequence

  datatype Step = Step(machine: Machine, verdict: Verdict)

  /** `end_of_payload`: the callback that ends a packet pauses the parser. */
  function EndOfPayload(m: Machine): Step {
    Step(m.(phase := Len0), if m.fragment then More else Packet)
  }

  /** Payload bytes handed to the data callback. */
  function TakeData(m: Machine, d: bytes): Machine
    requires |d| <= m.remaining
  {
    m.(remaining := m.remaining - |d|, packet := m.packet + d,
       kind := if m.packet == [] && d != [] then d[0] else m.kind)
  }

  /** One byte of input. A wrong sequence number is not consumed. */
  function Feed(m: Machine, b: byte): (r: Step)
    requires m.Healthy()
    ensures r.machine.Healthy()
  {
    match m.phase
    case Len0 => Step(m.(phase := Len1, remaining := b), More)
    case Len1 => Step(m.(phase := Len2, remaining := m.remaining + 0x100 * (b as int)), More)
    case Len2 =>
      var n := m.remaining + 0x1_0000 * (b as int);
      Step(m.(phase := Seq, remaining := n, fragment := n == MAX_PACKET_LEN,
              packet := if m.fragment then m.packet else []), More)
    case Seq =>
      if b != m.sq then Step(m, BadSequence)
      else
        var started := m.(phase := Payload, sq := Next(m.sq));
        if m.remaining == 0 then EndOfPayload(started) else Step(started, More)
    case Payload =>
      var taken := TakeData(m, [b]);
      if taken.remaining == 0 then EndOfPayload(taken) else Step(taken, More)
  }

  /** A run over `s` that stops behind a packet, or in front of a wrong sequence number. */
  datatype Ran = Ran(machine: Machine, rest: bytes, verdict: Verdict)

  function Run(m: Machine, s: bytes): (r: Ran)
    requires m.Healthy()
    ensures r.machine.Healthy()
    decreases |s|
  {
    if s == [] then Ran(m, [], More)
    else
      var step := Feed(m, s[0]);
      match step.verdict
      case More => Run(step.machine, s[1..])
      case Packet => Ran(step.machine, s[1..], Packet)
      case BadSequence => Ran(m, s, BadSequence)
  }

  /** Where a run can stop. */
  lemma {:induction false} RunStops(m: Machine, s: bytes)
    requires m.Healthy()
    ensures var r := Run(m, s);
            && (r.verdict == More ==> r.rest == [])
            && (r.verdict == Packet ==> r.machine.Idle() && |r.rest| < |s|)
            && (r.verdict == BadSequence ==> r.machine.phase == Seq && 0 < |r.rest| <= |s| && r.rest[0] != r.machine.sq)
    decreases |s|
  {
    if s != [] {
      var step := Feed(m, s[0]);
      if step.verdict == More {
        RunStops(step.machine, s[1..]);
      }
    }
  }

  /** A run over the payload bytes that are there, in one step. */
  lemma {:induction false} RunPayload(m: Machine, s: bytes, k: nat)
    requires m.Healthy() && m.phase == Payload && 0 < k <= |s| && k <= m.remaining
    ensures var t := TakeData(m, s[..k]);
            Run(m, s) == if k < m.remaining then Run(t, s[k..])
                         else if m.fragment then Run(t.(phase := Len0), s[k..])
                         else Ran(t.(phase := Len0), s[k..], Packet)
    decreases k
  {
    var t := TakeData(m, [s[0]]);
    TakeOneThenRest(m, s, k);
    if k > 1 {
      RunPayload(t, s[1..], k - 1);
    }
  }

  lemma {:induction false} TakeOneThenRest(m: Machine, s: bytes, k: nat)
    requires 0 < k <= |s| && k <= m.remaining
    ensures TakeData(TakeData(m, [s[0]]), s[1..][..k - 1]) == TakeData(m, s[..k])
    ensures s[1..][k - 1..] == s[k..]
    ensures s[..1] == [s[0]]
  {
    assert s[..k] == [s[0]] + s[1..][..k - 1];
    Associate(m.packet, [s[0]], s[1..][..k - 1]);
  }

  /** Cutting the input does not matter: a run over `a + b` is a run over `a`, continued over `b` if nothing stopped
      it. */
  lemma {:induction false} RunConcat(m: Machine, a: bytes, b: bytes)
    requires m.Healthy()
    ensures var r := Run(m, a);
            Run(m, a + b) == if r.verdict == More then Run(r.machine, b) else Ran(r.machine, r.rest + b, r.verdict)
    decreases |a|
  {
    if a == [] {
      assert a + b == b;
    } else {
      var step := Feed(m, a[0]);
      assert (a + b)[0] == a[0] && (a + b)[1..] == a[1..] + b;
      if step.verdict == More {
        RunConcat(step.machine, a[1..], b);
      }
    }
  }

  // ---------------------------------------------------------------- the byte-wise run is `Unframe`

  /** The payload already collected of the message being read. */
  function Collected(m: Machine): bytes {
    if m.fragment then m.packet else []
  }

  /** What a run from a fragment boundary must do, by the slicing definition. */
  ghost predicate Agrees(r: Ran, u: Unframed) {
    match u
    case Message(payload, rest, sq) =>
      && r.verdict == Packet && r.rest == rest
      && r.machine.packet == payload && r.machine.sq == sq && r.machine.Idle()
      && (payload != [] ==> r.machine.kind == payload[0])
    case Mismatch => r.verdict == BadSequence
    case Short => r.verdict == More
  }

  /** Three length bytes. */
  lemma {:induction false} RunLength(m: Machine, s: bytes)
    requires m.phase == Len0 && |s| >= 3
    ensures var n := HeaderLength(s);
            Run(m, s) ==
            Run(m.(phase := Seq, remaining := n, fragment := n == MAX_PACKET_LEN, packet := Collected(m)), s[3..])
  {
    var m1 := Feed(m, s[0]).machine;
    var m2 := Feed(m1, s[1]).machine;
    var m3 := Feed(m2, s[2]).machine;
    assert Run(m, s) == Run(m1, s[1..]);
    assert s[1..][0] == s[1] && s[1..][1..] == s[2..];
    assert Run(m1, s[1..]) == Run(m2, s[2..]);
    assert s[2..][0] == s[2] && s[2..][1..] == s[3..];
    assert Run(m2, s[2..]) == Run(m3, s[3..]);
    assert m3.remaining == HeaderLength(s);
  }

  /** A fragment's sequence byte, when it is the expected one. */
  lemma {:induction false} RunSequence(m: Machine, s: bytes)
    requires m.Healthy() && m.phase == Seq && s != [] && s[0] == m.sq
    ensures var started := m.(phase := Payload, sq := Next(m.sq));
            Run(m, s) == if m.remaining == 0 then Ran(started.(phase := Len0), s[1..], Packet) else Run(started, s[1..])
  {
  }

  /** A run that ends inside a header cannot stop. */
  lemma {:induction false} RunShortHeader(m: Machine, s: bytes)
    requires m.phase == Len0 && |s| < 4
    ensures Run(m, s).verdict == More
  {
    if |s| == 3 {
      RunLength(m, s);
    } else if s != [] {
      var m1 := Feed(m, s[0]).machine;
      assert Run(m, s) == Run(m1, s[1..]);
      if |s| == 2 {
        assert Run(m1, s[1..]) == Run(Feed(m1, s[1]).machine, s[2..]);
      }
    }
  }

  /** Run over one whole header. */
  lemma {:induction false} RunHeader(m: Machine, s: bytes)
    requires m.phase == Len0 && |s| >= 4
    ensures var n := HeaderLength(s);
            var started := Machine(Payload, n, n == MAX_PACKET_LEN, Next(m.sq), Collected(m), m.kind);
            if s[3] != m.sq then Run(m, s).verdict == BadSequence
            else Run(m, s) == if n == 0 then Ran(started.(phase := Len0), s[4..], Packet) else Run(started, s[4..])
  {
    var n := HeaderLength(s);
    var m3 := m.(phase := Seq, remaining := n, fragment := n == MAX_PACKET_LEN, packet := Collected(m));
    RunLength(m, s);
    assert s[3..][0] == s[3] && s[3..][1..] == s[4..];
    if s[3] == m.sq {
      RunSequence(m3, s[3..]);
    }
  }

  /** Run over the payload of a fragment, as far as it is there. */
  lemma {:induction false} RunBody(m: Machine, t: bytes)
    requires m.Healthy() && m.phase == Payload
    ensures |t| < m.remaining ==> Run(m, t).verdict == More
    ensures |t| >= m.remaining ==>
              var done := m.(phase := Len0, remaining := 0, packet := m.packet + t[..m.remaining],
                             kind := if m.packet == [] then t[0] else m.kind);
              Run(m, t) == if m.fragment then Run(done, t[m.remaining..]) else Ran(done, t[m.remaining..], Packet)
  {
    if |t| >= m.remaining {
      RunPayload(m, t, m.remaining);
    } else if t != [] {
      RunPayload(m, t, |t|);
    }
  }

  /** From a fragment boundary, the incremental parser does what slicing the stream does. Between two fragments of one
      message the packet buffer holds the payload so far, and is not empty. */
  lemma {:induction false} RunIsUnframe(m: Machine, s: bytes)
    requires m.phase == Len0
    requires m.fragment ==> m.packet != [] && m.kind == m.packet[0]
    ensures Agrees(Run(m, s), Unframe(s, m.sq, Collected(m)))
    decreases |s|, 1
  {
    if |s| < 4 {
      RunShortHeader(m, s);
    } else {
      RunHeader(m, s);
      var n := HeaderLength(s);
      if s[3] == m.sq && n > 0 {
        var started := Machine(Payload, n, n == MAX_PACKET_LEN, Next(m.sq), Collected(m), m.kind);
        RunBody(started, s[4..]);
        if |s| >= 4 + n {
          RunWhole(m, s, n);
        }
      }
    }
  }

  lemma {:induction false} RunWhole(m: Machine, s: bytes, n: nat)
    requires m.phase == Len0
    requires m.fragment ==> m.packet != [] && m.kind == m.packet[0]
    requires |s| >= 4 + n && n == HeaderLength(s) > 0 && s[3] == m.sq
    ensures Agrees(Run(m, s), Unframe(s, m.sq, Collected(m)))
    decreases |s|, 0
  {
    var t := s[4..];
    var done := Machine(Len0, 0, n == MAX_PACKET_LEN, Next(m.sq), Collected(m) + t[..n],
                        if m.fragment then m.kind else t[0]);
    RunHeader(m, s);
    RunBody(Machine(Payload, n, n == MAX_PACKET_LEN, Next(m.sq), Collected(m), m.kind), t);
    SliceOfTail(s, 4, 0, n);
    DropDrop(s, 4, n);
    if n == MAX_PACKET_LEN {
      RunIsUnframe(done, t[n..]);
    }
  }

  // ---------------------------------------------------------------- implementation

  /** What `trilogy_packet_parser_execute` reports through `error`: 0, the positive value of the callback that ends a
      packet, or an error code. */
  datatype Report = Running | Paused | Failed(rc: Fault)

  /** A wrong sequence number, or what the data callback returns when it cannot make room. */
  type Fault = rc: Rc | rc in {InvalidSequenceId, SysErr, TypeOverflow} witness SysErr

  function Reported(v: Verdict): Report {
    match v
    case More => Running
    case Packet => Paused
    case BadSequence => Failed(InvalidSequenceId)
  }

  /** How a run goes on from a report: not at all, unless the parser is still running. */
  function ResumedFrom(error: Report, m: Machine, rest: bytes): Ran
    requires m.Sane()
  {
    match error
    case Running => RunFrom(m, rest)
    case Paused => Ran(m, rest, Packet)
    case Failed(_) => Ran(m, rest, BadSequence)
  }

  /** One pass of the parser's loop: where it leaves the machine, how much it consumes, what it reports. */
  datatype Move = Move(machine: Machine, n: nat, error: Report)

  function HeaderMove(m: Machine, b: byte): Move
    requires m.Healthy()
  {
    var step := Feed(m, b);
    Move(step.machine, if step.verdict == BadSequence then 0 else 1, Reported(step.verdict))
  }

  function PayloadMove(m: Machine, s: bytes): Move
    requires m.Healthy() && m.phase == Payload
  {
    var n := if |s| > m.remaining then m.remaining else |s|;
    var taken := TakeData(m, s[..n]);
    if taken.remaining == 0 then Move(taken.(phase := Len0), n, if m.fragment then Running else Paused)
    else Move(taken, n, Running)
  }

  /** The same, for a parser that may be stuck. */
  function ChunkMove(m: Machine, s: bytes): Move
    requires m.Sane() && m.phase == Payload
  {
    if m.Stuck() then Move(m.(phase := Len0), 0, if m.fragment then Running else Paused) else PayloadMove(m, s)
  }

  /** One pass, in any state. */
  function PassMove(m: Machine, s: bytes): Move
    requires m.Sane() && s != []
  {
    if m.phase == Payload then ChunkMove(m, s) else HeaderMove(m, s[0])
  }

  /** A run is one pass of the loop, and the run over what the pass left. */
  lemma {:induction false} RunMove(m: Machine, s: bytes)
    requires m.Healthy() && s != []
    ensures var move := if m.phase == Payload then PayloadMove(m, s) else HeaderMove(m, s[0]);
            && move.n <= |s| && move.machine.Healthy()
            && Run(m, s) == ResumedFrom(move.error, move.machine, s[move.n..])
  {
    if m.phase == Payload {
      RunPayload(m, s, if |s| > m.remaining then m.remaining else |s|);
    } else {
      assert s[0..] == s;
    }
  }

  /** A run that is one pass long, when nothing stops it: its input is consumed. */
  lemma {:induction false} RunOnePass(m: Machine, s: bytes)
    requires m.Healthy() && s != []
    ensures var move := if m.phase == Payload then PayloadMove(m, s) else HeaderMove(m, s[0]);
            move.n <= |s| && (move.error == Running ==> Run(m, s[..move.n]) == Ran(move.machine, [], More))
  {
    if m.phase == Payload {
      var n := if |s| > m.remaining then m.remaining else |s|;
      RunPayload(m, s[..n], n);
      assert s[..n][..n] == s[..n] && s[..n][n..] == [];
    } else if Feed(m, s[0]).verdict == More {
      assert s[..1] == [s[0]] && s[..1][1..] == [];
    }
  }

  /** A pass consumes the next `n` bytes. */
  lemma {:induction false} RunGrows(start: Machine, s: bytes, i: nat, n: nat, m: Machine, next: Machine)
    requires start.Healthy() && m.Healthy() && i + n <= |s|
    requires Run(start, s[..i]) == Ran(m, [], More) && Run(m, s[i..][..n]) == Ran(next, [], More)
    ensures Run(start, s[..i + n]) == Ran(next, [], More)
  {
    RunConcat(start, s[..i], s[i..][..n]);
    assert s[..i + n] == s[..i] + s[i..][..n];
  }

  /** A stuck parser ends its payload before it looks at any input. */
  function Settled(m: Machine): (r: Machine)
    requires m.Sane()
    ensures r.Healthy()
  {
    if m.Stuck() then m.(phase := Len0) else m
  }

  /** The run of a parser in any state: a stuck one first ends its payload, once more. */
  function RunFrom(m: Machine, s: bytes): (r: Ran)
    requires m.Sane()
    ensures r.machine.Sane()
  {
    if !m.Stuck() then Run(m, s)
    else if s == [] then Ran(m, s, More)
    else if m.fragment then Run(Settled(m), s)
    else Ran(Settled(m), s, Packet)
  }

  /** A run in any state is one pass of the loop, and the run over what the pass left. */
  lemma {:induction false} RunFromMove(m: Machine, s: bytes)
    requires m.Sane() && s != []
    ensures var move := PassMove(m, s);
            && move.n <= |s| && move.machine.Sane()
            && RunFrom(m, s) == ResumedFrom(move.error, move.machine, s[move.n..])
  {
    if m.Stuck() {
      assert s[0..] == s;
    } else {
      RunMove(m, s);
    }
  }

  /** From `start`, the first `i` bytes of `s` have led to `m`, with nothing lost or reported. */
  predicate Reached(start: Machine, s: bytes, i: nat, m: Machine)
    requires i <= |s|
  {
    && start.Sane() && m.Sane()
    && (|| (i == 0 && m == start)
        || (!m.Stuck() && Run(Settled(start), s[..i]) == Ran(m, [], More)))
  }

  lemma {:induction false} ReachedStep(start: Machine, s: bytes, i: nat, m: Machine)
    requires i < |s| && Reached(start, s, i, m)
    ensures var move := PassMove(m, s[i..]);
            i + move.n <= |s| && (move.error == Running ==> Reached(start, s, i + move.n, move.machine))
  {
    if m.Stuck() {
      assert s[..0] == [];
    } else {
      RunOnePass(m, s[i..]);
      var move := PassMove(m, s[i..]);
      if move.error == Running {
        assert i == 0 ==> s[..i] == [];
        RunGrows(Settled(start), s, i, move.n, m, move.machine);
      }
    }
  }

  lemma {:induction false} ReachedLost(start: Machine, s: bytes, i: nat, n: nat, m: Machine)
    requires i < |s| && Reached(start, s, i, m) && m.phase == Payload && m.remaining > 0
    requires n == if |s[i..]| > m.remaining then m.remaining else |s[i..]|
    ensures LostChunk(start, s, i + n, m.(remaining := m.remaining - n))
  {
    assert i == 0 ==> s[..i] == [];
    assert LostAt(Settled(start), s, i, i + n, m.(remaining := m.remaining - n));
  }

  /** A refused allocation while `s` was parsed from `start`, `i` bytes of it consumed: at some `k` in front of payload
      bytes the data callback failed. The chunk from there to `i` has been counted and is lost; everything in front of
      it has been parsed. */
  ghost predicate LostChunk(start: Machine, s: bytes, i: nat, m: Machine) {
    start.Sane() && exists k: nat :: k < |s| && LostAt(Settled(start), s, k, i, m)
  }

  predicate LostAt(start: Machine, s: bytes, k: nat, i: nat, m: Machine)
    requires start.Healthy() && k < |s|
  {
    var run := Run(start, s[..k]);
    && run.verdict == More && run.machine.phase == Payload
    && i == k + (if |s| - k > run.machine.remaining then run.machine.remaining else |s| - k)
    && m == run.machine.(remaining := run.machine.remaining - (i - k))
  }

  class PacketParser {
    /** `user_data` of the callbacks. */
    const buffer: Buffer
    var sequenceNumber: byte
    var bytesRemaining: nat
    var state: Phase
    var fragment: bool
    var deferredEndCallback: bool

    ghost function Model(): Machine
      requires buffer.Valid()
      reads this, buffer
    {
      Machine(state, bytesRemaining, fragment, sequenceNumber, buffer.Contents(), buffer.buff[0])
    }

    ghost predicate Valid()
      reads this, buffer
    {
      buffer.Valid() && bytesRemaining <= MAX_PACKET_LEN && Model().Sane()
    }

    /** The states successful callbacks lead to. */
    ghost predicate Sound()
      reads this, buffer
    {
      Valid() && !deferredEndCallback && !Model().Stuck()
    }

    /** No allocation has been refused. */
    twostate predicate Spared()
      reads buffer
    {
      buffer.refusals == old(buffer.refusals)
    }

    constructor (buffer: Buffer)
      requires buffer.Valid()
      ensures this.buffer == buffer && Valid() && sequenceNumber == 0
      ensures !deferredEndCallback && Model().Idle()
    {
      this.buffer := buffer;
      state := Len0;
      fragment := false;
      deferredEndCallback := false;
      sequenceNumber := 0;
      bytesRemaining := 0;
    }

    method OnPacketBegin()
      requires Valid()
      modifies buffer`len
      ensures Valid() && Model() == old(Model()).(packet := [])
    {
      buffer.len := 0;
    }

    method OnPacketData(data: bytes) returns (rc: Rc)
      requires Valid() && |data| <= PTRDIFF_MAX
      modifies buffer
      ensures Valid() && buffer.refusals == old(buffer.refusals) + if rc == Ok then 0 else 1
      ensures rc in {Ok, SysErr, TypeOverflow} && (data == [] ==> rc == Ok)
      ensures rc == Ok ==> Model() == old(Model()).(packet := old(buffer.Contents()) + data,
                                                    kind := if old(buffer.Contents()) == [] && data != [] then data[0]
                                                            else old(buffer.buff[0]))
      ensures rc != Ok ==> Model() == old(Model())
    {
      rc := buffer.Expand(|data|);
      if rc != Ok {
        return;
      }
      buffer.Append(data);
      return Ok;
    }

    /** One byte of a header; a wrong sequence number is not consumed. */
    method HeaderByte(curByte: byte) returns (n: nat, error: Report)
      requires Sound() && state != Payload
      modifies this, buffer`len
      ensures Sound() && n <= 1
      ensures !error.Failed? ==> n == 1
      ensures error.Failed? ==> error.rc == InvalidSequenceId
      ensures Move(Model(), n, error) == HeaderMove(old(Model()), curByte)
    {
      n := 1;
      error := Running;
      match state
      case Len0 =>
        bytesRemaining := curByte;
        state := Len1;
      case Len1 =>
        bytesRemaining := bytesRemaining + 0x100 * (curByte as int);
        state := Len2;
      case Len2 =>
        bytesRemaining := bytesRemaining + 0x1_0000 * (curByte as int);
        var wasFragment := fragment;
        fragment := bytesRemaining == MAX_PACKET_LEN;
        state := Seq;
        if !wasFragment {
          OnPacketBegin();
        }
      case Seq =>
        if curByte != sequenceNumber {
          return 0, Failed(InvalidSequenceId);
        }
        sequenceNumber := Next(sequenceNumber);
        state := Payload;
        if bytesRemaining == 0 {
          error := EndOfPayload();
        }
    }

    /** Where both payload branches go: a full fragment goes on, anything else ends the packet. */
    method EndOfPayload() returns (error: Report)
      modifies this`state
      ensures state == Len0 && error == if fragment then Running else Paused
    {
      state := Len0;
      error := if fragment then Running else Paused;
    }

    /** As much of the payload as is there, and no more than the header announced. A stuck parser takes nothing and ends
        its payload; a failed callback loses the chunk. */
    method PayloadChunk(input: bytes) returns (chunkLength: nat, error: Report)
      requires Valid() && !deferredEndCallback && state == Payload && input != [] && |input| <= PTRDIFF_MAX
      modifies this, buffer
      ensures Valid() && chunkLength <= |input|
      ensures buffer.refusals == old(buffer.refusals) + if error.Failed? then 1 else 0
      ensures deferredEndCallback == (error.Failed? && bytesRemaining == 0)
      ensures !error.Failed? ==> Move(Model(), chunkLength, error) == ChunkMove(old(Model()), input)
      ensures error.Failed? ==>
                && old(bytesRemaining) > 0
                && chunkLength == (if |input| > old(bytesRemaining) then old(bytesRemaining) else |input|)
                && Model() == old(Model()).(remaining := old(bytesRemaining) - chunkLength)
    {
      chunkLength := |input|;
      if chunkLength > bytesRemaining {
        chunkLength := bytesRemaining;
      }
      bytesRemaining := bytesRemaining - chunkLength;
      var rc := OnPacketData(input[..chunkLength]);
      if rc != Ok {
        if bytesRemaining == 0 {
          deferredEndCallback := true;
        }
        return chunkLength, Failed(rc);
      }
      error := Running;
      if bytesRemaining == 0 {
        error := EndOfPayload();
      }
    }

    /** How the parser got from `start` to behind the first `i` bytes of `s`, with what it reports. */
    twostate predicate Parsed(start: Machine, s: bytes, i: nat, error: Report)
      reads this, buffer
      requires i <= |s|
    {
      && Valid() && start.Sane()
      && (Spared() ==>
            && !deferredEndCallback
            && RunFrom(start, s) == ResumedFrom(error, Model(), s[i..])
            && (error.Failed? ==> error.rc == InvalidSequenceId))
      && (!Spared() ==>
            && error.Failed? && LostChunk(start, s, i, Model()) && deferredEndCallback == (bytesRemaining == 0))
    }

    /** One pass of the loop in `Execute`. */
    method Pass(input: bytes) returns (n: nat, error: Report)
      requires Valid() && !deferredEndCallback && input != [] && |input| <= PTRDIFF_MAX
      modifies this, buffer
      ensures Valid() && n <= |input|
      ensures buffer.refusals == old(buffer.refusals) || buffer.refusals == old(buffer.refusals) + 1
      ensures Spared() ==>
                && !deferredEndCallback && (error.Failed? ==> error.rc == InvalidSequenceId)
                && Move(Model(), n, error) == PassMove(old(Model()), input)
      ensures !error.Failed? ==> n > 0 || (old(state) == Payload && state == Len0)
      ensures !Spared() ==>
                && error.Failed? && old(state) == Payload && old(bytesRemaining) > 0
                && n == (if |input| > old(bytesRemaining) then old(bytesRemaining) else |input|)
                && Model() == old(Model()).(remaining := old(bytesRemaining) - n)
                && deferredEndCallback == (bytesRemaining == 0)
    {
      if state == Payload {
        n, error := PayloadChunk(input);
      } else {
        n, error := HeaderByte(input[0]);
      }
    }
  
    /** One pass, as a step of the loop that began at `start`. */
    method Advance(buff: bytes, i: nat, ghost start: Machine) returns (n: nat, error: Report)
      requires Valid() && !deferredEndCallback && i < |buff| <= PTRDIFF_MAX
      requires Reached(start, buff, i, Model()) && RunFrom(start, buff) == RunFrom(Model(), buff[i..])
      modifies this, buffer
      ensures i + n <= |buff|
      ensures buffer.refusals == old(buffer.refusals) || buffer.refusals == old(buffer.refusals) + 1
      ensures Parsed(start, buff, i + n, error)
      ensures error == Running ==> Reached(start, buff, i + n, Model())
      ensures !error.Failed? ==> n > 0 || (old(state) == Payload && state == Len0)
    {
      ghost var m := Model();
      RunFromMove(m, buff[i..]);
      ReachedStep(start, buff, i, m);
      n, error := Pass(buff[i..]);
      if !Spared() {
        ReachedLost(start, buff, i, n, m);
      }
      DropDrop(buff, i, n);
    }

    /** The loop of `Execute`. */
    method Loop(buff: bytes) returns (i: nat, error: Report)
      requires Valid() && !deferredEndCallback && |buff| <= PTRDIFF_MAX
      modifies this, buffer
      ensures i <= |buff| && (error == Running ==> i == |buff|)
      ensures buffer.refusals == old(buffer.refusals) || buffer.refusals == old(buffer.refusals) + 1
      ensures Parsed(old(Model()), buff, i, error)
      ensures error == Paused ==> i > 0 || (old(state) == Payload && state == Len0)
    {
      i, error := 0, Running;
      ghost var start := Model();
      assert buff[0..] == buff;
      while error == Running && i < |buff|
        invariant i <= |buff|
        invariant buffer.refusals == old(buffer.refusals) || buffer.refusals == old(buffer.refusals) + 1
        invariant Parsed(start, buff, i, error)
        invariant error == Running ==> Reached(start, buff, i, Model())
        invariant !error.Failed? && i == 0 ==>
                    (error == Running && state == old(state)) || (old(state) == Payload && state == Len0)
        decreases error == Running, |buff| - i, state == Payload
      {
        var n: nat;
        n, error := Advance(buff, i, start);
        i := i + n;
      }
    }

    /** Consumes input until a packet ends, a sequence number is wrong, a callback fails, or no input is left. In every
        state: without a refused allocation it is the specified run; with one, the chunk at hand is counted and lost,
        and the end is deferred if it was the last of its fragment. A deferred end is reported first. */
    method Execute(buff: bytes) returns (i: nat, error: Report)
      requires Valid() && |buff| <= PTRDIFF_MAX
      modifies this, buffer
      ensures Valid() && i <= |buff| && (error == Running ==> i == |buff|)
      ensures buffer.refusals == old(buffer.refusals) || buffer.refusals == old(buffer.refusals) + 1
      ensures old(deferredEndCallback) ==>
                i == 0 && error == Paused && !deferredEndCallback && Model() == old(Model()) && Spared()
      ensures !old(deferredEndCallback) ==> Parsed(old(Model()), buff, i, error)
      // A pause consumes input, or ends a packet whose last byte a callback failed to take.
      ensures error == Paused ==>
                || i > 0
                || (old(deferredEndCallback) && !deferredEndCallback)
                || (old(state) == Payload && state == Len0 && deferredEndCallback == old(deferredEndCallback))
    {
      if deferredEndCallback {
        deferredEndCallback := false;
        return 0, Paused;
      }
      i, error := Loop(buff);
    }
  }
}
