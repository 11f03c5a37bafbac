/** The connection object of src/client.c, its non-blocking operations, and the blocking ones of src/blocking.c. */
module Clients {
  import opened Bytes
  import opened Buffers
  import opened Framing
  import opened Builders
  import opened PacketParsers
  import opened TextRows
  import opened Layouts
  import opened OkPackets
  import opened Links
  import opened Sessions
  import opened Sockets
  import opened Drains
  import Escapes
  import StmtExecutes

  const CMD_QUERY: byte := 0x03

  /** `trilogy_build_query_packet`, `trilogy_build_change_db_packet` and `trilogy_build_stmt_prepare_packet`. */
  method BuildTextPacket(builder: Builder, command: byte, text: bytes) returns (rc: Rc)
    requires builder.Valid() && |text| <= PTRDIFF_MAX
    modifies builder, builder.buffer
    ensures builder.Built(Plan([command] + text, Ok), rc)
    ensures rc == Ok ==> builder.buffer.Contents() == Frame(builder.payload, builder.first)
    ensures rc == Ok ==> builder.sq == SeqPlus(builder.first, Fragments(|builder.payload|))
  {
    Associate(builder.payload, [command], text);
    rc := builder.WriteUint8(command);
    if rc == Ok {
      rc := builder.WriteBuffer(text);
    }
    if rc == Ok {
      builder.Finalize();
    }
  }

  class Connection {
    const socket: Socket
    const packetBuffer: Buffer
    const parser: PacketParser
    const recvBuff: array<byte>
    var recvPos: nat
    var recvLen: nat
    var packetBufferWritten: nat
    /** `max_allowed_packet`; 0 for no limit. */
    const maxAllowedPacket: nat
    /** The fields that replies change. */
    var state: State

    ghost predicate Valid()
      reads this`recvPos, this`recvLen, parser, packetBuffer
    {
      parser.buffer == packetBuffer && parser.Valid() && recvPos <= recvLen <= recvBuff.Length == RECV_BUFF_SIZE
    }

    /** The parser is in a state its callbacks leave when they succeed. */
    ghost predicate Sound()
      reads this`recvPos, this`recvLen, parser, packetBuffer
    {
      Valid() && parser.Sound()
    }

    /** No allocation has been refused during the call. */
    twostate predicate Spared()
      reads packetBuffer
    {
      packetBuffer.refusals == old(packetBuffer.refusals)
    }

    ghost function Receiving(): Link
      requires Valid()
      reads this`recvPos, this`recvLen, parser, packetBuffer, recvBuff, socket`arrivals
    {
      Link(parser.Model(), recvBuff[recvPos..recvLen], socket.arrivals)
    }

    /** The receiving side, while it is sound. */
    ghost function Listening(): Option<Link>
      reads this`recvPos, this`recvLen, parser, packetBuffer, recvBuff, socket`arrivals
    {
      if Sound() then Some(Receiving()) else None
    }

    ghost function Model(): Peer
      requires Valid()
      reads this`recvPos, this`recvLen, this`state, parser, packetBuffer, recvBuff, socket`arrivals
    {
      Peer(Receiving(), state)
    }

    constructor (socket: Socket, packetBuffer: Buffer, maxAllowedPacket: nat, capabilities: nat)
      requires packetBuffer.Valid()
      ensures Sound() && Receiving().machine.Idle() && recvPos == recvLen && GtidFits(state)
      ensures this.socket == socket && this.packetBuffer == packetBuffer && this.maxAllowedPacket == maxAllowedPacket
      ensures state == State(capabilities, 0, 0, 0, 0, [], 0, [], 0, false) && recvBuff.Length == 32768
    {
      this.socket, this.packetBuffer, this.maxAllowedPacket := socket, packetBuffer, maxAllowedPacket;
      parser := new PacketParser(packetBuffer);
      recvBuff := new byte[RECV_BUFF_SIZE];
      recvPos, recvLen, packetBufferWritten := 0, 0, 0;
      state := State(capabilities, 0, 0, 0, 0, [], 0, [], 0, false);
    }

    // -------------------------------------------------------------- receiving

    /** What every call that reads does to the amount of input left: it never adds to it, and TRILOGY_AGAIN means that
        every received byte has been parsed. */
    twostate predicate Consumed(rc: Rc)
      reads this, socket
    {
      && |socket.arrivals| <= old(|socket.arrivals|)
      && (rc == Again ==> recvPos == recvLen)
      && (old(recvPos == recvLen && socket.arrivals != []) ==> |socket.arrivals| < old(|socket.arrivals|))
    }

    /** A packet takes input, or ends what a failed callback left unfinished. */
    twostate predicate Advanced()
      reads this, socket, parser
    {
      || |socket.arrivals| < old(|socket.arrivals|)
      || (|socket.arrivals| == old(|socket.arrivals|) && recvLen - recvPos < old(recvLen - recvPos))
      || (&& |socket.arrivals| == old(|socket.arrivals|) && recvLen - recvPos == old(recvLen - recvPos)
          && (|| (old(parser.deferredEndCallback) && !parser.deferredEndCallback)
              || (&& parser.deferredEndCallback == old(parser.deferredEndCallback)
                  && old(parser.state) == Payload && parser.state == Len0)))
    }

    /** Hands the received bytes to the parser. */
    method ParseReceived() returns (rc: Rc)
      requires Valid()
      modifies this`recvPos, parser, packetBuffer
      ensures Valid() && old(packetBuffer.refusals) <= packetBuffer.refusals
      ensures rc == Again ==> recvPos == recvLen
      ensures rc == Ok ==> Advanced()
      ensures old(Sound()) && Spared() ==>
                Sound() && Received(Receiving(), rc) == Parse(old(Receiving()))
      ensures old(Sound()) && !Spared() ==> (Sound() <==> parser.bytesRemaining > 0)
    {
      ghost var unread := recvBuff[recvPos..recvLen];
      var n, error := parser.Execute(recvBuff[recvPos..recvLen]);
      recvPos := recvPos + n;
      assert recvBuff[recvPos..recvLen] == unread[n..];
      match error
      case Running =>
        return Again;
      case Paused =>
        return Ok;
      case Failed(e) =>
        return e;
    }

    /** `read_packet`. */
    method ReadPacket() returns (rc: Rc)
      requires Valid()
      modifies this`recvPos, this`recvLen, recvBuff, socket`arrivals, parser, packetBuffer
      ensures Valid() && old(packetBuffer.refusals) <= packetBuffer.refusals && Consumed(rc)
      ensures rc == Ok ==> Advanced()
      ensures old(Sound()) && Spared() ==>
                Sound() && Received(Receiving(), rc) == Links.ReadPacket(old(Receiving()))
      // A refused allocation loses a chunk; unless it was the last of a fragment, reading can go on.
      ensures old(Sound()) && !Spared() ==> (Sound() <==> parser.bytesRemaining > 0)
    {
      if recvPos == recvLen {
        var nread: nat;
        rc, nread := socket.Read(recvBuff);
        if rc != Ok {
          return;
        }
        if nread == 0 {
          return ClosedConnection;
        }
        recvLen := nread;
        recvPos := 0;
      }
      rc := ParseReceived();
    }
  
    // -------------------------------------------------------------- replies

    method ReadOkPacket() returns (rc: Rc)
      requires packetBuffer.Valid()
      modifies this`state
      ensures Reply(state, rc, Nothing) == HandleOk(old(state), packetBuffer.Contents())
    {
      var ok: OkPacket;
      rc, ok := ParseOkPacket(packetBuffer.buff[..packetBuffer.len], state.caps);
      if rc != Ok {
        return;
      }
      if Bit(state.caps, CAP_PROTOCOL_41) {
        state := state.(warningCount := ok.warningCount, serverStatus := ok.statusFlags);
      }
      state := state.(affectedRows := ok.affectedRows, lastInsertId := ok.lastInsertId);
      if 0 < |ok.lastGtid| && |ok.lastGtid| < MAX_LAST_GTID_LEN {
        state := state.(lastGtid := ok.lastGtid);
      }
    }

    method ReadErrPacket() returns (rc: Rc)
      requires packetBuffer.Valid()
      modifies this`state
      ensures Reply(state, rc, Nothing) == HandleErr(old(state), packetBuffer.Contents())
    {
      var p := packetBuffer.buff[..packetBuffer.len];
      var items: seq<Item>;
      rc, items := ParseAllFields(p, ErrFields(state.caps));
      if rc != Ok {
        return;
      }
      state := state.(errorCode := NumberAt(items, 1), errorMessage := MessageAt(p, items, |items| - 1));
      return Err;
    }

    method ReadDeprecatedEofPacket() returns (rc: Rc)
      requires packetBuffer.Valid() && !Bit(state.caps, CAP_DEPRECATE_EOF)
      modifies this`state
      ensures Reply(state, if rc == Eof then Ok else rc, Nothing) == HandleEof(old(state), packetBuffer.Contents())
      ensures rc != Ok
    {
      var p := packetBuffer.buff[..packetBuffer.len];
      FieldsCodes(p, 0, EofFields(state.caps));
      var items: seq<Item>;
      rc, items := ParseAllFields(p, EofFields(state.caps));
      if rc != Ok {
        return;
      }
      if Bit(state.caps, CAP_PROTOCOL_41) {
        state := state.(warningCount := NumberAt(items, 1), serverStatus := NumberAt(items, 2));
      }
      return Eof;
    }

    method ReadEofPacket() returns (rc: Rc)
      requires packetBuffer.Valid()
      modifies this`state
      ensures Reply(state, rc, Nothing) == HandleEof(old(state), packetBuffer.Contents())
    {
      if Bit(state.caps, CAP_DEPRECATE_EOF) {
        rc := ReadOkPacket();
      } else {
        rc := ReadDeprecatedEofPacket();
        if rc == Eof {
          rc := Ok;
        }
      }
    }

    /** The packet type, read from the start of the block: an empty packet leaves the byte of an earlier one. */
    method CurrentPacketType() returns (kind: byte)
      requires packetBuffer.Valid()
      ensures kind == packetBuffer.buff[0]
    {
      kind := packetBuffer.buff[0];
    }

    /** What an operation does with the packet just read. */
    method Answer(q: Request) returns (rc: Rc, out: Output)
      requires Valid()
      modifies this`state
      ensures Valid() && Reply(state, rc, out) == Handle(q, old(state), parser.Model())
    {
      out := Nothing;
      var kind := CurrentPacketType();
      match q
      case AwaitStatus =>
        if kind == PACKET_OK {
          rc := ReadOkPacket();
        } else if kind == PACKET_ERR {
          rc := ReadErrPacket();
        } else {
          rc := UnexpectedPacket;
        }
      case AwaitQuery =>
        if kind == PACKET_OK {
          rc := ReadOkPacket();
        } else if kind == PACKET_ERR {
          rc := ReadErrPacket();
        } else {
          rc, out := ReadCount();
        }
      case AwaitColumn =>
        var items: seq<Item>;
        rc, items := ParseAllFields(packetBuffer.buff[..packetBuffer.len], COLUMN_FIELDS);
        out := if rc == Ok then Definition(items) else Nothing;
      case AwaitEof =>
        rc := ReadEofPacket();
      case AwaitRow =>
        rc, out := AnswerRow(kind);
    }

    method ReadCount() returns (rc: Rc, out: Output)
      requires packetBuffer.Valid()
      modifies this`state
      ensures Reply(state, rc, out) == HandleCount(old(state), packetBuffer.Contents())
    {
      var items: seq<Item>;
      rc, items := ParseAllFields(packetBuffer.buff[..packetBuffer.len], [Varint]);
      if rc != Ok {
        return rc, Nothing;
      }
      state := state.(columnCount := NumberAt(items, 0), started := false);
      return HaveResults, Columns(NumberAt(items, 0));
    }

    method AnswerRow(kind: byte) returns (rc: Rc, out: Output)
      requires packetBuffer.Valid()
      modifies this`state
      ensures Reply(state, rc, out) == HandleRow(old(state), kind, packetBuffer.Contents())
    {
      out := Nothing;
      if kind == PACKET_EOF && packetBuffer.len < 9 {
        rc := ReadEofPacket();
        if rc == Ok {
          rc := Eof;
        }
      } else if kind == PACKET_ERR {
        rc := ReadErrPacket();
      } else {
        var cells: seq<Cell>;
        rc, cells := ParseRowPacket(packetBuffer.buff[..packetBuffer.len], state.columnCount);
        out := Cells(cells);
      }
    }

    // -------------------------------------------------------------- non-blocking operations

    /** One packet and the reply to it: `trilogy_query_recv`, `trilogy_read_column`, `read_eof` and
        `read_generic_response`. */
    method Receive(q: Request) returns (rc: Rc, out: Output)
      requires Valid()
      modifies this`recvPos, this`recvLen, this`state, recvBuff, socket`arrivals, parser, packetBuffer
      ensures Valid() && old(packetBuffer.refusals) <= packetBuffer.refusals && Consumed(rc)
      ensures old(Sound()) && Spared() ==> Sound() && Turn(Model(), rc, out) == Ask(q, old(Model()))
    {
      out := Nothing;
      rc := ReadPacket();
      if rc == Ok {
        HandleCodes(q, state, parser.Model());
        rc, out := Answer(q);
      }
    }

    /** `trilogy_read_row`. */
    method ReadRow() returns (rc: Rc, out: Output)
      requires Valid()
      modifies this`recvPos, this`recvLen, this`state, recvBuff, socket`arrivals, parser, packetBuffer
      ensures Valid() && old(packetBuffer.refusals) <= packetBuffer.refusals && Consumed(rc)
      ensures old(Sound()) && Spared() ==>
                Sound() && Turn(Model(), rc, out) == Sessions.ReadRow(old(Model()))
    {
      if !state.started {
        if !Bit(state.caps, CAP_DEPRECATE_EOF) {
          rc, out := Receive(AwaitEof);
          if rc != Ok {
            return;
          }
        }
        state := state.(started := true);
      }
      rc, out := Receive(AwaitRow);
    }
  
    /** `trilogy_drain_results`. */
    method DrainResults() returns (rc: Rc)
      requires Valid()
      modifies this`recvPos, this`recvLen, this`state, recvBuff, socket`arrivals, parser, packetBuffer
      ensures Valid() && old(packetBuffer.refusals) <= packetBuffer.refusals
      ensures old(Sound()) && Spared() ==> Sound() && Turn(Model(), rc, Nothing) == Drain(old(Model()))
    {
      if !state.started {
        var out: Output;
        rc, out := Receive(AwaitEof);
        if rc != Ok {
          return;
        }
        state := state.(started := true);
      }
      rc := DropPackets();
    }

    /** One packet dropped; `done` when it looked like a terminator, or could not be read. */
    method DropPacket() returns (rc: Rc, done: bool)
      requires Valid()
      modifies this`recvPos, this`recvLen, recvBuff, socket`arrivals, parser, packetBuffer
      ensures Valid() && old(packetBuffer.refusals) <= packetBuffer.refusals
      ensures done || Advanced()
      ensures old(Sound()) && Spared() ==>
                Sound() && DropRows(old(Model())) == if done then Turn(Model(), rc, Nothing) else DropRows(Model())
    {
      rc := ReadPacket();
      done := rc != Ok;
      if !done {
        var kind := CurrentPacketType();
        done := kind == PACKET_EOF && packetBuffer.len < 9;
      }
    }

    method DropPackets() returns (rc: Rc)
      requires Valid()
      modifies this`recvPos, this`recvLen, recvBuff, socket`arrivals, parser, packetBuffer
      ensures Valid() && old(packetBuffer.refusals) <= packetBuffer.refusals
      ensures old(Sound()) && Spared() ==> Sound() && Turn(Model(), rc, Nothing) == DropRows(old(Model()))
    {
      ghost var sound := Sound();
      ghost var whole := if sound then DropRows(Model()) else Turn(Model(), Ok, Nothing);
      rc := Ok;
      var done := false;
      while !done
        invariant Valid() && old(packetBuffer.refusals) <= packetBuffer.refusals
        invariant sound && Spared() ==>
                    Sound() && whole == if done then Turn(Model(), rc, Nothing) else DropRows(Model())
        decreases !done, |socket.arrivals|, recvLen - recvPos, parser.deferredEndCallback, parser.state == Payload
      {
        rc, done := DropPacket();
      }
    }

    // -------------------------------------------------------------- blocking operations

    /** The retry loops of `trilogy_query`, `trilogy_read_full_column` and the generic replies. */
    method ReceiveFull(q: Request) returns (rc: Rc, out: Output)
      requires Valid()
      modifies this`recvPos, this`recvLen, this`state, recvBuff, socket`arrivals, parser, packetBuffer
      ensures Valid() && old(packetBuffer.refusals) <= packetBuffer.refusals
      ensures old(Sound()) && Spared() ==> Sound() && Turn(Model(), rc, out) == AskFull(q, old(Model()))
    {
      ghost var sound := Sound();
      ghost var whole := if sound then AskFull(q, Model()) else Turn(Model(), Ok, Nothing);
      rc, out := Receive(q);
      while rc == Again
        invariant Valid() && old(packetBuffer.refusals) <= packetBuffer.refusals
        invariant rc == Again ==> recvPos == recvLen
        invariant sound && Spared() ==> Sound() && whole == RetryAsk(q, Turn(Model(), rc, out))
        decreases rc == Again, |socket.arrivals|
      {
        rc := socket.WaitRead();
        if rc == Ok {
          rc, out := Receive(q);
        }
      }
    }

    /** `trilogy_read_full_row`. */
    method ReadFullRow() returns (rc: Rc, out: Output)
      requires Valid()
      modifies this`recvPos, this`recvLen, this`state, recvBuff, socket`arrivals, parser, packetBuffer
      ensures Valid() && old(packetBuffer.refusals) <= packetBuffer.refusals
      ensures old(Sound()) && Spared() ==>
                Sound() && Turn(Model(), rc, out) == Sessions.ReadFullRow(old(Model()))
    {
      ghost var sound := Sound();
      ghost var whole := if sound then Sessions.ReadFullRow(Model()) else Turn(Model(), Ok, Nothing);
      rc, out := ReadRow();
      while rc == Again
        invariant Valid() && old(packetBuffer.refusals) <= packetBuffer.refusals
        invariant rc == Again ==> recvPos == recvLen
        invariant sound && Spared() ==> Sound() && whole == RetryRow(Turn(Model(), rc, out))
        decreases rc == Again, |socket.arrivals|
      {
        rc := socket.WaitRead();
        if rc == Ok {
          rc, out := ReadRow();
        }
      }
    }

    // -------------------------------------------------------------- sending

    ghost predicate CanFlush()
      reads this`packetBufferWritten, packetBuffer
    {
      packetBuffer.Valid() && packetBufferWritten <= packetBuffer.len
    }

    ghost function Outgoing(): Outbox
      requires CanFlush()
      reads this`packetBufferWritten, packetBuffer, socket`sent, socket`departures
    {
      Outbox(packetBuffer.Contents()[packetBufferWritten..], socket.sent, socket.departures)
    }

    /** `trilogy_flush_writes`. */
    method FlushWrites() returns (rc: Rc)
      requires CanFlush()
      modifies this`packetBufferWritten, socket`departures, socket`sent
      ensures CanFlush() && Flushed(Outgoing(), rc) == Flush(old(Outgoing()))
    {
      var n: nat;
      rc, n := socket.Write(packetBuffer.buff[packetBufferWritten..packetBuffer.len]);
      assert packetBuffer.buff[packetBufferWritten..packetBuffer.len] == packetBuffer.Contents()[packetBufferWritten..];
      if rc != Ok {
        return;
      }
      packetBufferWritten := packetBufferWritten + n;
      rc := if packetBufferWritten < packetBuffer.len then Again else Ok;
    }

    method BeginWrite() returns (rc: Rc)
      requires packetBuffer.Valid()
      modifies this`packetBufferWritten, socket`departures, socket`sent
      ensures CanFlush()
      ensures Flushed(Outgoing(), rc) ==
              Flush(Outbox(packetBuffer.Contents(), old(socket.sent), old(socket.departures)))
    {
      packetBufferWritten := 0;
      assert packetBuffer.Contents()[0..] == packetBuffer.Contents();
      rc := FlushWrites();
    }

    /** `flush_full`. */
    method FlushFully() returns (rc: Rc)
      requires CanFlush()
      modifies this`packetBufferWritten, socket`departures, socket`sent
      ensures CanFlush() && Flushed(Outgoing(), rc) == FlushFull(old(Outgoing()))
    {
      rc := Again;
      while rc == Again
        invariant CanFlush()
        invariant FlushFull(old(Outgoing())) == if rc == Again then FlushFull(Outgoing()) else Flushed(Outgoing(), rc)
        decreases rc == Again, |socket.departures|
      {
        rc := socket.WaitWrite();
        if rc == Ok {
          rc := FlushWrites();
        }
      }
    }
  
    /** What follows every first write: `flush_full`, if it was not enough to send all of `o`. */
    method FinishWrite(first: Rc, ghost o: Outbox) returns (rc: Rc)
      requires first == Again ==> CanFlush() && Flushed(Outgoing(), first) == Flush(o)
      modifies this`packetBufferWritten, socket`departures, socket`sent
      ensures if first == Again then rc == SendFull(o).rc && socket.sent == SendFull(o).outbox.sent else
                rc == first && socket.sent == old(socket.sent) && socket.departures == old(socket.departures)
    {
      rc := first;
      if rc == Again {
        rc := FlushFully();
      }
    }

    // -------------------------------------------------------------- escaping

    /** `trilogy_escape`, into the packet buffer. */
    method Escape(str: bytes) returns (rc: Rc, escaped: bytes)
      requires Valid() && |str| <= PTRDIFF_MAX
      modifies packetBuffer
      ensures old(Sound()) ==> Sound()
      ensures Valid() && packetBuffer.refusals == old(packetBuffer.refusals) + if rc == Ok then 0 else 1
      ensures rc == Ok ==>
                escaped == Escapes.Escaped(Bit(state.serverStatus, STATUS_NO_BACKSLASH_ESCAPES), str)
    {
      rc := Escapes.Escape(packetBuffer, state.serverStatus, str);
      escaped := packetBuffer.buff[..packetBuffer.len];
    }

    // -------------------------------------------------------------- commands

    /** `begin_command_phase`. The parser will expect the number after `sq`. */
    method BeginCommandPhase(sq: byte) returns (rc: Rc, builder: Builder)
      requires Valid()
      modifies packetBuffer, parser`sequenceNumber
      ensures old(Sound()) ==> Sound()
      ensures Valid() && fresh(builder) && builder.buffer == packetBuffer && builder.first == sq
      ensures packetBuffer.refusals == old(packetBuffer.refusals) + if rc == Ok then 0 else 1
      ensures rc in {Ok, SysErr, TypeOverflow}
      ensures rc == Ok ==> builder.Valid() && builder.payload == []
      ensures rc == Ok && maxAllowedPacket > 0 ==> builder.packetMaxLength == maxAllowedPacket
      ensures rc == Ok && maxAllowedPacket == 0 ==> builder.packetMaxLength == SIZE_MAX
      ensures rc == Ok ==> parser.sequenceNumber == if sq == 255 then 0 else sq + 1
    {
      builder := new Builder(packetBuffer, sq);
      rc := builder.Start();
      if rc != Ok {
        return;
      }
      if maxAllowedPacket > 0 {
        var _ := builder.SetMaxPacketLength(maxAllowedPacket);
      }
      parser.sequenceNumber := Next(sq);
    }
  
    /** `begin_command_phase`, and a command with a text. */
    method BuildCommand(command: byte, text: bytes) returns (rc: Rc, builder: Builder)
      requires Valid() && |text| <= PTRDIFF_MAX
      modifies packetBuffer, parser`sequenceNumber
      ensures old(Sound()) ==> Sound()
      ensures Valid() && fresh(builder) && old(packetBuffer.refusals) <= packetBuffer.refusals
      ensures rc != Again
      ensures Spared() ==>
                rc == if maxAllowedPacket == 0 || 1 + |text| < maxAllowedPacket then Ok else MaxPacketExceeded
      ensures rc == Ok ==> packetBuffer.Contents() == Frame([command] + text, 0)
      ensures rc == Ok ==> builder.sq == SeqPlus(0, Fragments(1 + |text|)) && parser.sequenceNumber == 1
    {
      rc, builder := BeginCommandPhase(0);
      if rc == Ok {
        assert [] + ([command] + text) == [command] + text;
        rc := BuildTextPacket(builder, command, text);
      }
    }

    /** What a sender promises: a packet that could not be built leaves the wire unchanged; otherwise the frame of
        `payload` is in the packet buffer, and one write of it has been tried. */
    twostate predicate Dispatched(payload: bytes, rc: Rc, built: bool)
      reads this, packetBuffer, socket
    {
      if built then
        && CanFlush() && packetBuffer.Contents() == Frame(payload, 0)
        && Flushed(Outgoing(), rc) == Flush(Outbox(Frame(payload, 0), old(socket.sent), old(socket.departures)))
      else
        rc !in {Ok, Again} && socket.sent == old(socket.sent) && socket.departures == old(socket.departures)
    }

    /** `trilogy_query_send`. The parser expects the number that follows the last fragment header of the query. */
    method QuerySend(query: bytes) returns (rc: Rc, ghost built: bool)
      requires Valid() && |query| <= PTRDIFF_MAX
      modifies packetBuffer, parser`sequenceNumber, this`packetBufferWritten, socket`departures, socket`sent
      ensures old(Sound()) ==> Sound()
      ensures Valid() && old(packetBuffer.refusals) <= packetBuffer.refusals
      ensures Dispatched([0x03] + query, rc, built)
      ensures Spared() ==> (built <==> maxAllowedPacket == 0 || 1 + |query| < maxAllowedPacket)
      ensures Spared() && !built ==> rc == MaxPacketExceeded
      ensures built ==> parser.sequenceNumber == SeqPlus(0, Fragments(1 + |query|))
      ensures old(Sound()) && Spared() && built ==>
                Listening() == Some(Asked(old(Receiving()), QueryFrame(query), SeqPlus(0, Fragments(1 + |query|))))
    {
      var builder: Builder;
      rc, builder := BuildCommand(CMD_QUERY, query);
      built := rc == Ok;
      if rc == Ok {
        parser.sequenceNumber := builder.sq;
        rc := BeginWrite();
      }
    }

    /** `trilogy_change_db_send` and `trilogy_stmt_prepare_send`, with the commands 0x02 and 0x16, which leave the
        parser expecting number 1. */
    method CommandSend(command: byte, text: bytes) returns (rc: Rc, ghost built: bool)
      requires Valid() && |text| <= PTRDIFF_MAX
      modifies packetBuffer, parser`sequenceNumber, this`packetBufferWritten, socket`departures, socket`sent
      ensures old(Sound()) ==> Sound()
      ensures Valid() && old(packetBuffer.refusals) <= packetBuffer.refusals
      ensures Dispatched([command] + text, rc, built)
      ensures Spared() ==> (built <==> maxAllowedPacket == 0 || 1 + |text| < maxAllowedPacket)
      ensures Spared() && !built ==> rc == MaxPacketExceeded
      ensures built ==> parser.sequenceNumber == 1
    {
      var builder: Builder;
      rc, builder := BuildCommand(command, text);
      built := rc == Ok;
      if rc == Ok {
        rc := BeginWrite();
      }
    }
  
    /** `trilogy_stmt_execute_send`. */
    method StmtExecuteSend(stmtId: nat, flags: byte, binds: Option<seq<StmtExecutes.Bind>>, numBinds: nat)
      returns (rc: Rc, ghost built: bool)
      requires Valid()
      requires binds.Some? ==> |binds.value| == numBinds && StmtExecutes.BindsFit(binds.value)
      modifies packetBuffer, parser`sequenceNumber, this`packetBufferWritten, socket`departures, socket`sent
      ensures old(Sound()) ==> Sound()
      ensures Valid() && old(packetBuffer.refusals) <= packetBuffer.refusals
      ensures var plan := StmtExecutes.ExecPlan(stmtId, flags, binds, numBinds);
              var fits := |plan.bytes| < if maxAllowedPacket > 0 then maxAllowedPacket else SIZE_MAX;
              && Dispatched(plan.bytes, rc, built)
              && (Spared() ==>
                    && (built <==> plan.code == Ok && fits)
                    && (built || rc == if fits then plan.code else MaxPacketExceeded))
              && (built ==> parser.sequenceNumber == SeqPlus(0, Fragments(|plan.bytes|)))
    {
      ghost var plan := StmtExecutes.ExecPlan(stmtId, flags, binds, numBinds);
      var builder: Builder;
      rc, builder := BeginCommandPhase(0);
      assert [] + plan.bytes == plan.bytes;
      if rc == Ok {
        rc := StmtExecutes.BuildStmtExecutePacket(builder, stmtId, flags, binds, numBinds);
      }
      built := rc == Ok;
      if rc == Ok {
        parser.sequenceNumber := builder.sq;
        rc := BeginWrite();
      }
    }

    /** `trilogy_query_send`, flushed to the end. */
    method QuerySendFully(query: bytes) returns (rc: Rc, ghost built: bool)
      requires Valid() && |query| <= PTRDIFF_MAX
      modifies packetBuffer, parser`sequenceNumber, this`packetBufferWritten, socket`departures, socket`sent
      ensures old(Sound()) ==> Sound()
      ensures Valid() && old(packetBuffer.refusals) <= packetBuffer.refusals
      ensures Spared() ==> (built <==> maxAllowedPacket == 0 || 1 + |query| < maxAllowedPacket)
      ensures Spared() && !built ==> rc == MaxPacketExceeded
      ensures !built ==> rc != Ok && socket.sent == old(socket.sent) && socket.departures == old(socket.departures)
      ensures built ==>
                var f := SendFull(Outbox(QueryFrame(query), old(socket.sent), old(socket.departures)));
                rc == f.rc && socket.sent == f.outbox.sent
      ensures old(Sound()) && Spared() && built ==>
                Listening() == Some(Asked(old(Receiving()), QueryFrame(query), SeqPlus(0, Fragments(1 + |query|))))
    {
      rc, built := QuerySend(query);
      rc := FinishWrite(rc, Outbox(QueryFrame(query), old(socket.sent), old(socket.departures)));
    }

    /** `trilogy_query`: send, flush, and wait for the reply. */
    method Query(query: bytes) returns (rc: Rc, out: Output)
      requires Valid() && |query| <= PTRDIFF_MAX
      modifies packetBuffer, parser, this`packetBufferWritten, socket
      modifies this`recvPos, this`recvLen, this`state, recvBuff
      ensures Valid() && old(packetBuffer.refusals) <= packetBuffer.refusals
      ensures Spared() && 0 < maxAllowedPacket <= 1 + |query| ==>
                && rc == MaxPacketExceeded
                && socket.sent == old(socket.sent) && socket.departures == old(socket.departures)
      ensures old(Sound()) && Spared() && (maxAllowedPacket == 0 || 1 + |query| < maxAllowedPacket) ==>
                var f := SendFull(Outbox(QueryFrame(query), old(socket.sent), old(socket.departures)));
                var asked := Asked(old(Receiving()), QueryFrame(query), SeqPlus(0, Fragments(1 + |query|)));
                && Sound() && socket.sent == f.outbox.sent
                && if f.rc != Ok then rc == f.rc
                   else Turn(Model(), rc, out) == AskFull(AwaitQuery, Peer(asked, old(state)))
    {
      out := Nothing;
      ghost var built: bool;
      rc, built := QuerySendFully(query);
      if rc == Ok {
        rc, out := ReceiveFull(AwaitQuery);
      }
    }
  }

  function QueryFrame(query: bytes): (s: bytes)
    ensures s != []
  {
    Frame([CMD_QUERY] + query, 0)
  }

  /** The receiving side once a command has been sent: the packet buffer holds the frame, and the parser expects the
      number `next`. */
  function Asked(l: Link, frame: bytes, next: byte): (r: Link)
    requires frame != []
    ensures r.machine.Healthy() == l.machine.Healthy()
  {
    l.(machine := l.machine.(sq := next, packet := frame, kind := frame[0]))
  }
}
