# The wire layer of a MySQL client, verified

A Dafny model of the part of this client that turns calls into bytes on a socket and bytes into answers: the packet
builder over its growable buffer, the incremental packet parser, the value codecs of the text and binary protocols, the
resumable result-set reader, and SQL string escaping. `dafny verify dfyconfig.toml` checks everything.

| file | what it models |
|---|---|
| `Bytes.dfy` | bytes, status codes, shifts and flag tests, little-endian integers |
| `Buffer.dfy` | the doubling buffer (`src/buffer.c`) |
| `Framing.dfy` | what a framed message is, and how to slice it apart: the reference for builder and parser |
| `Builder.dfy` | the fragmenting packet builder (`src/builder.c`) |
| `PacketParser.dfy` | the five-state parser (`src/packet_parser.c`) with the callbacks of `src/client.c` |
| `Link.dfy`, `Socket.dfy` | `read_packet`, `trilogy_flush_writes` and their retry loops over a socket that may do anything |
| `Reader.dfy`, `Layout.dfy` | the bounded cursor (`src/reader.c`) and packets that are chains of fields |
| `TextRow.dfy`, `OkPacket.dfy` | text rows, the OK packet and its session-state changes (`src/protocol.c`) |
| `BinaryValue.dfy`, `Bitmap.dfy`, `StmtRow.dfy`, `StmtExecute.dfy` | binary values, rows and the execute packet (`src/protocol.c`) |
| `Session.dfy`, `Reply.dfy`, `ResultSet.dfy`, `Drain.dfy` | reply handlers, what every operation answers, resumable result sets, draining (`src/client.c`, `src/blocking.c`) |
| `Client.dfy` | the connection object: non-blocking and blocking operations |
| `Transport.dfy` | both directions together: end-to-end delivery and sequence numbers of replies |
| `Escape.dfy` | `trilogy_escape` |

The objects of the source are classes (`Buffer`, `Builder`, `PacketParser`, `Reader`, `Socket`, `Connection`); their
methods are proved against functions on values (`Holding`, `Run`, `ReadPacket`, `ReadRow`, ...), and the theorems are
lemmas about those functions, for all inputs and all runs.

**Formats.** Parsers and builders are proved against chains of fields, which both sides share. What those chains mean is
stated apart from them, in literal bytes and type codes: what a server sends is written out as `EncodeOk`, `ErrBytes`,
`EofBytes` and `ColumnBytes`, and the lemmas `FlagValues`, `LenencUnrolled`, `FragmentByPosition`, `DatumOnTheWire`,
`DatumByPosition`, `ClockByPosition`, `CalendarByPosition`, `RowByPosition`, `ExecByPosition`, `EntryOnTheWire` and
`EscapeKeepsIff` say which byte stands where.

**The socket** is a script of outcomes, one per read and one per write: bytes (at most what the receive buffer holds),
nothing yet, the end, or an error. A theorem over all scripts is a theorem over all schedules of partial writes, all
cuttings into reads and all points where a call returns TRILOGY_AGAIN. A wait for something the script never brings
times out, where `poll` would wait forever.

**Allocation** may fail at any reallocation. The ghost counter `refusals` counts the failures, so a contract can say what
a call does when no allocation fails during that call, whatever happened before; the buffer and the parser also say what
a failure leaves behind. A builder whose allocation failed promises nothing about its payload any more, as in the source,
where every sender then gives up.

**Sizes.** No C object exceeds PTRDIFF_MAX bytes, so sums of two sizes do not wrap in a `size_t`. A buffer has a
positive capacity: from capacity 0 the doubling loop of `trilogy_buffer_expand` would not end, and the client always
starts with 32768.

## What the code does where one might expect otherwise

- A TIME whose hour, minute, second and microseconds are all zero is written with length 0, so days and sign are lost
  (`src/protocol.c:846-855`): `DatumComesBackIff`, `StmtRowComesBackIff` and `ExecComesBackIff` give the exact
  condition.
- A bind marked NULL still has its value written unless its type is NULL (`src/protocol.c:813-936`):
  `DecodableIffConsistent` shows that decoding succeeds for all values exactly when the binds are marked NULL where their
  type is NULL and nowhere else.
- The unsigned flag of a row value is set but never reset (`src/protocol.c:1045-1047`): `ReadBack` says so.
- Only query and execute copy the builder's sequence number back (`src/client.c:67`, `src/client.c:613`,
  `src/client.c:908`): `CommandReplyAcceptedIff` says for which lengths the other senders accept their reply.
- The packet behind the last row is recognised only below 9 bytes (`src/client.c:694`). With DEPRECATE_EOF on it is an OK
  packet, which may carry session information or a message and be longer; it is then read as a row: `TerminatorSeenIff`,
  `EndsAreSeenIff`, and the condition in `ResultSetIsDelivered`, `RecordsAreRead` and `QueryIsAnswered`.
- Draining does not look for ERR packets (`src/client.c:722-733`): `DrainStepsOverErr`.
- `inc/trilogy/client.h:458-482` describes draining as reading rows until TRILOGY_EOF. With DEPRECATE_EOF on and no row
  read yet the code still expects an EOF packet behind the columns: `DrainAgreesIff` is the exact condition.
- The parser accepts a GTID of 57 bytes, which `inc/trilogy/protocol.h:380-382` gives as the longest one, but the
  connection does not store it (`src/client.c:201-204`): `LongestGtidIsDropped`.
- `current_packet_type` reads the first byte of the packet buffer even after an empty packet (`src/client.c:12-15`); the
  model keeps that byte (`Machine.kind`), so a stale type is modelled as it is.
- After a failing data callback the parser stays in its payload state with nothing remaining, and a deferred end ignores
  `fragment` (`src/packet_parser.c:26-35`, `src/packet_parser.c:106-113`): `Execute` describes every such state and what
  follows from it; the packet theorems are about runs in which no callback fails.

## Model

| member | source | states |
|---|---|---|
| `Buffers.Buffer.constructor` | src/buffer.c:8-19 | a buffer of a positive capacity starts empty, with no byte moved |
| `Buffers.Buffer.Expand` | src/buffer.c:23-49 | makes room for `needed` more bytes: the capacity becomes the one `Grow` answers, every byte of the block is kept, TRILOGY_TYPE_OVERFLOW is reported exactly when no doubling is representable, a failure changes nothing, and over the buffer's whole life the bytes moved by reallocations stay below the capacity (`copied < cap`) |
| `Buffers.GrowIsLeast` | src/buffer.c:30-38 | the doubling loop ends at `cap * 2^k` for the least `k` that suffices, or stops because the next doubling exceeds SIZE_MAX while the last one was too small |
| `Buffers.GrowOverflowsIff` | src/buffer.c:32-35 | overflow is reported if and only if every representable doubling is too small |
| `Buffers.Buffer.Putc` | src/buffer.c:51-62 | appends one byte, or leaves the contents as they were |
| `Buffers.Buffer.Write` | src/buffer.c:64-75 | appends all bytes, or leaves the contents as they were |
| `Builders.Builder.Start` | src/builder.c:36-46 | a builder over an emptied buffer holds the empty payload behind one unfinished header |
| `Builders.Builder.WriteHeader` | src/builder.c:8-25 | appends a zero header with the current number, remembers its offset, resets the fragment length and counts the number on modulo 256 |
| `Builders.Builder.WriteContinuationHeader` | src/builder.c:27-34 | closes the current header with 0xffffff and opens the next one |
| `Builders.Builder.Finalize` | src/builder.c:48-53 | turns the buffer into `Frame(payload, first)`, the reference framing, with the builder at the number after the last header |
| `Builders.Builder.WriteUint8` | src/builder.c:63-80 | appends one payload byte and keeps the canonical form `Holding(payload, first)`; the limit is refused exactly at `packet_max_length - 1` |
| `Builders.Builder.WriteLE` | src/builder.c:82-159 | appends the little-endian bytes of an integer (or of a bit pattern), wherever fragment boundaries fall |
| `Builders.Builder.WriteLenenc` | src/builder.c:161-177 | appends the length-encoded integer of every 64-bit value |
| `Builders.Builder.WriteBuffer` | src/builder.c:179-230 | appends a buffer of any length across any number of fragment boundaries; it is refused exactly when the packet length would reach the maximum; the loop terminates |
| `Builders.Builder.WriteWithin` | src/builder.c:190-200 | a run shorter than the room left in the fragment is appended and counted |
| `Builders.Builder.WriteFilling` | src/builder.c:203-217 | a run that fills the fragment is appended, the fragment is closed and the next one opened |
| `Builders.Builder.WriteLenencBuffer` | src/builder.c:232-239 | appends a length prefix and the data |
| `Builders.Builder.SetMaxPacketLength` | src/builder.c:250-259 | sets the limit unless the packet is already longer |
| `Builders.HoldingAppend` | src/builder.c:190-200 | from the canonical form of `p`, appending a run that stays inside the fragment gives the canonical form of the longer payload |
| `Builders.HoldingFill` | src/builder.c:203-217 | from the canonical form of `p`, filling the fragment, patching 0xffffff and opening a header gives the canonical form of the longer payload |
| `Builders.HoldingPutEach` | src/builder.c:63-80 | `write_uint8` on each byte leads from the canonical form of `p` to that of `p + d`, for all `p` and `d` |
| `Builders.Builder.WritesAreBytewise` | src/builder.c:179-230 | any accepted write, `WriteBuffer` in particular, leaves the same bytes, headers, sequence number and counters as `write_uint8` on each byte from the same state |
| `Builders.HoldingFinalize` | src/builder.c:48-53 | patching the last header into the canonical form yields the framed message |
| `Builders.HoldingSeq` | src/builder.c:8-25 | the next number is the first one plus the number of fragments, modulo 256 |
| `Framing.FragmentsInClosedForm` | src/builder.c:27-34 | a message of `n` bytes has `n/0xffffff + 1` fragments; fragment `k` carries 0xffffff bytes, the last one the remainder, which is none when `n` is a multiple of 0xffffff |
| `Framing.FrameLength` | src/builder.c:48-80 | a finished message is `n + 4 * fragments` bytes long |
| `Framing.FrameSplit` | src/builder.c:27-34 | what follows the first `k` full fragments is the frame of the rest of the payload, numbered `k` further |
| `Framing.FragmentByPosition` | src/builder.c:8-34 | by position: fragment `k` stands at offset `k * 0x1000003` with its size (0xffffff, or the remainder for the last one) in three bytes, the least significant first, and the first number plus `k` modulo 256; behind it exactly the payload bytes from `k * 0xffffff` on |
| `Bytes.LEUnrolled` | src/builder.c:82-121 | the byte-by-byte definition of the little-endian encodings agrees with the shifts and masks written out in the source |
| `Bytes.FlagValues` | inc/trilogy/protocol.h:84-267 | the flag tests of the model over the values of the capability and status flags |
| `Builders.LenencUnrolled` | src/builder.c:161-177 | the bytes of every length-encoded integer: one byte below 251, otherwise 0xfc, 0xfd or 0xfe and two, three or eight bytes |
| `Framing.UnframeFrame` | src/packet_parser.c:37-136 | slicing a frame apart returns the payload, exactly consumes the frame and expects the number after its last header, for every payload and first number |
| `Framing.UnframePrefix` | src/packet_parser.c:37-136 | no strict prefix of a frame already reads as a message |
| `PacketParsers.RunConcat` | src/packet_parser.c:22-140 | a run over `a + b` is a run over `a`, continued over `b` unless it stopped |
| `PacketParsers.RunIsUnframe` | src/packet_parser.c:37-136 | from a fragment boundary the five-state machine does what slicing the stream does: same packet, same rest, same next number, same point of an invalid sequence id |
| `PacketParsers.RunStops` | src/packet_parser.c:76-134 | a run pauses only between packets, and stops at a wrong sequence number without consuming it |
| `PacketParsers.RunPayload` | src/packet_parser.c:93-120 | handing over a chunk of payload equals feeding its bytes one by one |
| `PacketParsers.PacketParser.constructor` | src/packet_parser.c:12-20 | the parser starts between two packets, expecting number 0 |
| `PacketParsers.PacketParser.OnPacketBegin` | src/client.c:17-24 | empties the packet buffer |
| `PacketParsers.PacketParser.OnPacketData` | src/client.c:26-39 | appends payload bytes, or fails and changes nothing |
| `PacketParsers.PacketParser.HeaderByte` | src/packet_parser.c:41-92 | one header byte is one step of the byte-wise machine |
| `PacketParsers.PacketParser.PayloadChunk` | src/packet_parser.c:93-120 | takes as much of the payload as is there; a failed callback loses that chunk and leaves the parser in its payload state, with the end deferred exactly when no byte remained; a parser left so ends its payload again |
| `PacketParsers.PacketParser.Loop` | src/packet_parser.c:37-139 | from every state: the loop over one input is the byte-wise run, stopped where that run stops; when a data callback fails, everything in front of the chunk at hand has been parsed and that chunk is lost |
| `PacketParsers.PacketParser.Execute` | src/packet_parser.c:22-140 | the same for every state and every failure; a deferred end is reported first, without looking at `fragment` and without consuming or changing anything else |
| `Links.ChunkInvariance` | src/client.c:72-109 | however a stream is cut into reads and however often a read would block, retrying `read_packet` delivers what one run over the whole stream does, with the same parser state and the same rest |
| `Links.ReadIsTake` | src/client.c:72-109 | one `read_packet` returns what the stream holds next, or TRILOGY_AGAIN without changing what it holds |
| `Links.StreamByPosition` | src/client.c:72-109 | the stream is everything in front of the first close or error, and it ends with TRILOGY_CLOSED_CONNECTION or with that error |
| `Links.BadSequenceStays` | src/packet_parser.c:76-80 | TRILOGY_INVALID_SEQUENCE_ID is reported again by every further call, and nothing is consumed |
| `Links.DeliveryIsChunkInvariant` | src/client.c:72-109 | the list of all packets, the code that ends it and the final state depend on the stream only, not on its cutting |
| `Links.PacketsAreMessages` | src/packet_parser.c:37-136 | the packets of a stream are the messages got by slicing it; it ends with TRILOGY_INVALID_SEQUENCE_ID exactly when the numbering breaks |
| `Links.FramedPacketsAreDelivered` | src/client.c:72-109 | any list of framed payloads is delivered one by one and in order, ahead of whatever follows |
| `Sockets.Socket.Read` | src/socket.c:65-77 | the read contract: some bytes, TRILOGY_AGAIN, 0 at the end, or an error |
| `Sockets.Socket.Write` | src/socket.c:79-95 | the write contract: a count of bytes taken, TRILOGY_AGAIN, or an error |
| `Sockets.SendFullConserves` | src/client.c:155-174 | under any partial writes, bytes written and bytes left are the same sequence as before; success means that all of it is on the wire |
| `Sockets.FlushFullConserves` | src/blocking.c:13-26 | the same for the loop that waits and flushes |
| `Sockets.SendCompletesIff` | src/blocking.c:13-26 | a message gets through if and only if the writes take that many bytes before one fails; otherwise that failure is reported |
| `Transports.MessageArrives` | src/client.c:72-119 | end to end: any payload, written under any partial writes and read under any cutting, arrives as exactly one equal packet; both sides end at the same number modulo 256 and no byte of what follows is consumed |
| `Transports.NothingArrivesEarly` | src/packet_parser.c:121-134 | before the last byte is written no packet is delivered |
| `Transports.DeliveredIff` | src/client.c:155-174 | a message is delivered if and only if the writes take all of its frame before one fails |
| `Transports.ExpectsOneIff` | src/client.c:56-70 | a sender that leaves the parser expecting 1 agrees with the reply if and only if `n / 0xffffff` is a multiple of 256, as it is below 0xffffff bytes |
| `Transports.CommandReplyAcceptedIff` | src/client.c:522-537 | the reply to such a command is accepted under exactly that condition, and refused as an invalid sequence id otherwise |
| `Transports.QueryIsConfirmed` | src/client.c:598-631 | after a query of any length an OK packet numbered on from its last fragment is accepted: TRILOGY_OK, with all its fields recorded, however late it arrives |
| `Transports.QueryIsRejected` | src/client.c:598-634 | the same for an ERR packet: TRILOGY_ERR, with code and message recorded |
| `Transports.QueryIsAnswered` | src/client.c:598-616 | after a query of any length a whole result set, numbered on from its last fragment, is accepted, and is read completely, with its end packet recorded, if and only if that packet is shorter than 9 bytes |
| `Readers.LenencRoundTrip` | src/reader.c:136-182 | decoding the encoding of any 64-bit value returns it and consumes exactly the encoding, wherever it stands and whatever follows |
| `Readers.LenencPrefixFree` | src/builder.c:161-177 | no encoding is a prefix of another; none begins with 0xfb or 0xff |
| `Readers.LenencBufferRoundTrip` | src/reader.c:210-231 | the same for a length prefix and its data |
| `Readers.LenencFailsIff` | src/reader.c:136-182 | an integer is refused as NULL exactly for 0xfb, as a violation exactly for 0xff, and as truncated exactly when fewer bytes are there than its leader announces |
| `Readers.LenencBufferCut` | src/reader.c:210-231 | a length prefix and its data, cut off anywhere, are refused as truncated |
| `Readers.Reader.GetInt` | src/reader.c:20-134 | reads a little-endian integer of `n` bytes (or a bit pattern), or fails without moving |
| `Readers.Reader.GetLenenc` | src/reader.c:136-182 | every leader byte, with the cursor left where the source leaves it |
| `Readers.Reader.GetBuffer` | src/reader.c:184-208 | hands out the next bytes in place, or fails without moving |
| `Readers.Reader.GetLenencBuffer` | src/reader.c:210-231 | a length and that many bytes in place, bounded by what is left |
| `Readers.Reader.GetEofBuffer` | src/reader.c:258-271 | hands out everything that is left |
| `Readers.Reader.Finish` | src/reader.c:275-282 | TRILOGY_EXTRA_DATA_IN_PACKET exactly when bytes are left |
| `TextRows.RowsTileThePacket` | src/protocol.c:320-348 | a packet is accepted as a row of `n` columns if and only if it is a concatenation of `n` cells, each 0xfb, or a length in one, three, four or nine bytes and that many bytes of data |
| `TextRows.SlicesAreInOrder` | src/protocol.c:320-348 | the slices handed out lie in the packet, in order and apart from each other |
| `TextRows.InOrderAt` | src/protocol.c:333-341 | what that order says of any two columns: bounds, and a gap between the end of one and the start of the other |
| `TextRows.RowRoundTrip` | src/protocol.c:320-348 | a row built from 0xfb and length-encoded buffers parses back to its columns |
| `TextRows.CutRowIsRefused` | src/protocol.c:320-348 | a row cut off anywhere is refused as truncated, with the columns in front of that place handed out |
| `TextRows.RowsAreNoTerminators` | src/client.c:694-705 | no accepted row of at least one column starts like an ERR packet, and one that starts like an EOF packet has at least 9 bytes |
| `TextRows.ParseRowPacket` | src/protocol.c:320-348 | the loop computes the specification: code, and every column read so far |
| `Layouts.FieldsRoundTrip` | src/reader.c:20-271 | a packet laid out as any chain of fields parses back to its values, and the cursor ends behind it |
| `Layouts.CutFields` | src/reader.c:20-271 | such a packet, cut off anywhere, is refused as truncated |
| `Layouts.GetFields` | src/protocol.c:350-402 | a chain of getter calls stops at the first failure with its code |
| `Layouts.ParseAllFields` | src/protocol.c:306-318 | such a chain, accepted only if all bytes are consumed |
| `OkPackets.FoldReturnsTheLast` | src/protocol.c:83-104 | the session-state fold accepts exactly the lists whose every GTIDS entry holds, behind a byte that is skipped, a length in one, three, four or nine bytes and a GTID of at most 57 bytes, and returns the last such GTID, or what it started with |
| `OkPackets.EntryOnTheWire` | src/protocol.c:86-101 | an entry of any byte and a length-encoded GTID yields that GTID up to 57 bytes, and TRILOGY_PROTOCOL_VIOLATION above |
| `OkPackets.LongGtidRefusesPacket` | src/protocol.c:96-98 | a whole OK packet is refused for such a GTID, wherever it stands among the changes |
| `OkPackets.ChangesRoundTrip` | src/protocol.c:83-85 | decoding undoes encoding for every list of session-state changes |
| `OkPackets.ReadStateChanges` | src/protocol.c:83-104 | the loop terminates on every input and equals decoding the whole list and then folding over it |
| `OkPackets.OkRoundTrip` | src/protocol.c:37-114 | every OK packet with fields in range, written out byte by byte, parses back under every set of capabilities, with or without session information behind its head, its GTID being the last one among its changes |
| `OkPackets.ExtraDataIsRefused` | src/protocol.c:110 | one byte behind the session information, and the packet is refused |
| `OkPackets.CutHeadIsRefused` | src/protocol.c:44-60 | a packet that ends inside its head is refused as truncated |
| `OkPackets.AcceptedGtidIsShort` | src/protocol.c:96-98 | no accepted packet carries a GTID of more than 57 bytes |
| `OkPackets.ParseOkPacket` | src/protocol.c:37-114 | the parser computes the specification, branch by branch, and accepts only when all bytes are consumed |
| `BinaryValues.DatumRoundTrip` | src/protocol.c:816-936 | for every type, the row parser reads back what the execute builder writes for a value, except that a midnight loses days and sign |
| `BinaryValues.DatumComesBackIff` | src/protocol.c:846-855 | what the row parser reads of a written value is that value if and only if it is no TIME with all four clock fields zero, or has zero days and a positive sign |
| `BinaryValues.TypeRanges` | inc/trilogy/protocol.h:275-303 | by type code: which values a type carries, in which width, and which codes are unknown |
| `BinaryValues.DatumOnTheWire` | src/protocol.c:816-936 | by type code: the bytes the execute builder writes for a value, TIME and dates field by field behind their length byte |
| `BinaryValues.DatumByPosition` | src/protocol.c:1049-1203 | by type code: which bytes the row parser reads for a number or a text, and the codes that are refused |
| `BinaryValues.ClockByPosition` | src/protocol.c:1147-1195 | a TIME by position: every field that is wholly there is stored, the others are 0; a length byte other than 0, 8 and 12 is a violation, a value cut off is truncated |
| `BinaryValues.CalendarByPosition` | src/protocol.c:1098-1146 | the same for DATE, DATETIME and TIMESTAMP and the length bytes 0, 4, 7 and 11 |
| `BinaryValues.DatumCut` | src/protocol.c:1049-1203 | a value cut off anywhere is refused as truncated |
| `Bitmaps.BitmapBit` | src/protocol.c:782-798 | bit `i` of the map is at byte `i / 8`, position `i % 8`; padding bits are zero |
| `StmtRows.BitmapAccessInBounds` | src/protocol.c:1004-1019 | for every column `(i + 2) / 8 < (n + 9) / 8`, and the guard in front of the access never fires |
| `StmtRows.StmtRowRoundTrip` | src/protocol.c:1021-1210 | a row of any number of columns parses back: NULLs, types, sign flags (set, never reset) and values |
| `StmtRows.StmtRowComesBackIff` | src/protocol.c:1021-1210 | all values come back exactly if and only if no cell is a TIME midnight with days or a negative sign |
| `StmtRows.RowByPosition` | src/protocol.c:1004-1019 | a row by position: the NULL of column `i` at byte `1 + (i + 2) / 8`, bit `(i + 2) % 8`, two reserved zero bits, and the values from byte `1 + (n + 9) / 8` on |
| `StmtRows.CutRowIsRefused` | src/protocol.c:1021-1210 | a row cut off anywhere is refused as truncated; the values in front of that place are stored, and of the one it ends in the type, the sign flag and what can be read of it |
| `StmtRows.IsNull` | src/protocol.c:1004-1019 | reads the bit of a column behind the two reserved ones |
| `StmtRows.GetDatum` | src/protocol.c:1049-1203 | the switch over column types computes the specification, and what it has stored of a value that cannot be read |
| `StmtRows.ParseStmtRowPacket` | src/protocol.c:1021-1210 | the loop computes the specification: code, every value stored over what the caller's array held, and what is stored of the column at which it fails |
| `StmtExecutes.ExecRoundTrip` | src/protocol.c:759-949 | for any number of binds marked NULL exactly where their type is NULL, reading bitmap, bound flag, types and values recovers the bind list, but for days and sign of TIME midnights |
| `StmtExecutes.ExecComesBackIff` | src/protocol.c:759-949 | such binds are recovered exactly if and only if none of them is a TIME midnight with days or a negative sign |
| `StmtExecutes.ExactlyDecodableIff` | src/protocol.c:813-936 | for binds of known types, every choice of values is recovered exactly if and only if they are marked NULL exactly where their type is NULL and none is a TIME |
| `StmtExecutes.DecodableIffConsistent` | src/protocol.c:813-936 | for binds of known types, every choice of values is recovered, but for days and sign of TIME midnights, if and only if they are marked NULL exactly where their type is NULL |
| `StmtExecutes.ExecByPosition` | src/protocol.c:759-811 | by position: command, statement, flags, an iteration count of one, the bound flag behind the bitmap, the values behind the types |
| `StmtExecutes.MarksByPosition` | src/protocol.c:780-798 | bit `i` of the bitmap is set exactly for a bind marked NULL; the bits behind the last one are zero |
| `StmtExecutes.TypesByPosition` | src/protocol.c:803-811 | the type and the sign byte (0x80 or 0) of every bind |
| `StmtExecutes.ValueByPosition` | src/protocol.c:813-936 | the value of every bind stands behind those in front of it, whether it is marked NULL or not |
| `StmtExecutes.ExecCodes` | src/protocol.c:773-940 | binds missing, a bind of an unknown type code, or success |
| `StmtExecutes.MarksAreRead` | src/protocol.c:782-798 | the null bitmap reads back |
| `StmtExecutes.TypesAreRead` | src/protocol.c:803-811 | the type and sign pairs read back |
| `StmtExecutes.WriteNullBitmap` | src/protocol.c:780-798 | collecting bits and writing them at every eighth bind and at the end writes the bitmap of all marks |
| `StmtExecutes.WriteTypes` | src/protocol.c:803-811 | writes the pairs of all binds |
| `StmtExecutes.WriteDatum` | src/protocol.c:816-936 | writes the bytes of one value of any known type |
| `StmtExecutes.WriteValues` | src/protocol.c:813-940 | writes the values in order, and stops with TRILOGY_UNKNOWN_TYPE at the first unknown type |
| `StmtExecutes.BuildStmtExecutePacket` | src/protocol.c:759-949 | writes the planned packet and its frame; TRILOGY_PROTOCOL_VIOLATION for missing binds, TRILOGY_UNKNOWN_TYPE, and TRILOGY_MAX_PACKET_EXCEEDED exactly when the bytes reach the limit |
| `Sessions.OkIsRecorded` | src/client.c:183-207 | every OK packet with fields in range, written out byte by byte: counters, under the 4.1 protocol status and warnings, and a GTID of 1 to 56 bytes end up in the connection; nothing else changes |
| `Sessions.ErrIsRecorded` | src/client.c:209-223 | every ERR packet, written out byte by byte: code and message end up in the connection, nothing else changes, and TRILOGY_ERR is returned |
| `Sessions.EofIsRecorded` | src/client.c:225-257 | every old EOF packet, written out byte by byte: warnings and status end up in the connection, each in its place |
| `Sessions.ColumnIsRead` | src/protocol.c:350-402 | every column definition, written out byte by byte: its thirteen fields are handed out in order |
| `Sessions.FailuresChangeNothing` | src/client.c:176-257 | a packet that cannot be parsed changes nothing in the connection |
| `Replies.OkIsAnswered` | src/client.c:282-304 | a framed OK packet answers a query or any other command with TRILOGY_OK and is recorded; the stream goes on behind it |
| `Replies.ErrIsAnswered` | src/client.c:626-634 | a framed ERR packet, as such an answer or among the rows, gives TRILOGY_ERR and is recorded |
| `Replies.OthersAreUnexpected` | src/client.c:282-293 | any other packet is refused as the answer to a command that is no query |
| `Replies.RowIsAnswered` | src/client.c:694-705 | any other packet among the rows gives what the row parser makes of it, well-formed or not; nothing is recorded |
| `Replies.EofIsAnswered` | src/client.c:661-670 | a framed EOF packet behind the columns is recorded |
| `Replies.OkIsReceived` | src/blocking.c:202-209 | the same through the retry loop, however late the bytes of an OK packet arrive |
| `Replies.ErrIsReceived` | src/blocking.c:202-209 | the same for an ERR packet |
| `Replies.OthersAreRefused` | src/client.c:282-304 | the same for any other packet |
| `Sessions.HandleCodes` | src/client.c:618-706 | no reply is taken for TRILOGY_AGAIN, and TRILOGY_EOF is only returned for a packet that looks like a terminator |
| `Sessions.AskFullIsTake` | src/blocking.c:188-224 | a one-packet reply, retried under any TRILOGY_AGAIN, is what a reader of the whole stream gets |
| `Sessions.ReadRowIsTake` | src/client.c:672-706 | one `read_row`, whichever of its two packets is late, loses and repeats nothing |
| `Sessions.ReadFullRowIsTake` | src/blocking.c:226-239 | the same for the retry loop: the EOF packet behind the columns is skipped once |
| `ResultSets.ResultSetsResume` | src/blocking.c:188-239 | any result set, well-formed or not, is read alike wherever the calls are interrupted |
| `ResultSets.RowsAreDelivered` | src/client.c:672-706 | rows and a terminator: exactly those rows, in order, and TRILOGY_EOF at the first byte behind the terminator, whose contents are recorded |
| `ResultSets.RowsComeFirst` | src/client.c:672-706 | rows at the front of a stream are delivered, all of them and in order, ahead of whatever reading on brings |
| `ResultSets.RowsThenError` | src/client.c:700-701 | rows and an ERR packet: exactly those rows, and then TRILOGY_ERR with code and message recorded |
| `ResultSets.TerminatorSeenIff` | src/client.c:694-705 | the packet behind the last row is recognised if and only if it is shorter than 9 bytes; a longer one is read as a row |
| `ResultSets.EndsAreSeenIff` | src/client.c:694-705 | every end packet a server can send is shorter than 9 bytes if and only if DEPRECATE_EOF is off |
| `ResultSets.ChattyEof` | src/client.c:694 | with DEPRECATE_EOF on there is a well-formed end packet of 9 bytes or more |
| `ResultSets.RowsOverrun` | src/client.c:694-705 | behind such a packet, reading does not end with the rows of the result set and TRILOGY_EOF |
| `ResultSets.ColumnEofIsSkipped` | src/client.c:674-688 | the EOF packet behind the columns is skipped exactly when DEPRECATE_EOF is off, and what it says is recorded |
| `ResultSets.ResultSetIsDelivered` | src/client.c:618-706 | of a result set of at least one column the columns are delivered, and its rows, nothing else and TRILOGY_EOF at the first byte behind it if and only if its end packet is shorter than 9 bytes; what both EOF packets say is then recorded, and the next packet is numbered on from it |
| `ResultSets.ResultSetIsRead` | src/blocking.c:188-239 | the same for the blocking calls, under any cutting and any TRILOGY_AGAIN, with the same bound on the end packet |
| `ResultSets.RecordsComeBack` | src/protocol.c:320-348 | rows of values encoded as a server does are delivered as those values |
| `ResultSets.ColumnsComeBack` | src/protocol.c:350-402 | column definitions encoded as a server does are delivered as those definitions |
| `ResultSets.EndIsRecorded` | src/client.c:694-699 | the end packet, an OK packet or an old EOF packet as the capabilities demand, is one that ends the rows, and is recorded |
| `ResultSets.RecordsAreRead` | src/blocking.c:188-239 | values in, values out: for every table of columns and values sent as a result set, byte by byte, the blocking calls return those columns, and those values if and only if the end packet is shorter than 9 bytes; the connection then holds what that packet says |
| `Drains.DrainFullIsSkip` | src/client.c:708-733 | draining is resumable: TRILOGY_AGAIN loses and repeats nothing |
| `Drains.DrainAgreesIff` | src/client.c:708-733 | draining leaves every stream that holds a result set where reading does, with the rows begun and the EOF packet behind the columns recorded but not the end packet, if and only if rows have been read or DEPRECATE_EOF is off |
| `Drains.DrainedLikeRead` | src/client.c:708-733 | under that condition and any TRILOGY_AGAIN, draining ends at the byte where reading to TRILOGY_EOF ends |
| `Drains.DrainOverruns` | src/client.c:710-720 | otherwise the terminator of an empty result set is taken for the EOF packet behind the columns |
| `Drains.DrainStepsOverErr` | src/client.c:722-733 | an ERR packet among the rows stops reading, but draining steps over it and waits for a terminator |
| `Drains.GtidStaysShort` | src/client.c:201-204 | over every run of calls the stored GTID stays below 57 bytes |
| `Drains.LongestGtidIsDropped` | src/client.c:201-204 | of the GTIDs the parser accepts, exactly the empty one and those of 57 bytes are not stored |
| `Clients.BuildTextPacket` | src/protocol.c:659-689 | a command byte and a text, framed; refused exactly when they reach the limit |
| `Clients.Connection.constructor` | src/client.c:121-153 | a connection starts between two packets with nothing received |
| `Clients.Connection.ReadPacket` | src/client.c:72-109 | is the specified `read_packet` on parser, receive buffer and socket; a packet always takes input or ends what a failed callback left, so that loops over it terminate; after a refused allocation the parser stays in a specified state unless the chunk lost was the last of its fragment |
| `Clients.Connection.ReadOkPacket` | src/client.c:183-207 | updates counters, status and GTID as specified |
| `Clients.Connection.ReadErrPacket` | src/client.c:209-223 | stores code and message and returns TRILOGY_ERR |
| `Clients.Connection.ReadEofPacket` | src/client.c:244-257 | an OK packet or an old EOF packet, as DEPRECATE_EOF says |
| `Clients.Connection.Answer` | src/client.c:618-706 | each operation's treatment of the packet it waited for |
| `Clients.Connection.Receive` | src/client.c:618-659 | query reply, column, EOF packet or status: one packet and its reply |
| `Clients.Connection.ReadRow` | src/client.c:672-706 | is the specified `read_row` |
| `Clients.Connection.DrainResults` | src/client.c:708-733 | is the specified draining, and terminates |
| `Clients.Connection.ReceiveFull` | src/blocking.c:188-224 | the retry loop is the specified one |
| `Clients.Connection.ReadFullRow` | src/blocking.c:226-239 | the retry loop is the specified one |
| `Clients.Connection.FlushWrites` | src/client.c:155-174 | one write of everything that is left |
| `Clients.Connection.BeginWrite` | src/client.c:111-119 | the first write of a finished message |
| `Clients.Connection.FlushFully` | src/blocking.c:13-26 | the waiting loop is the specified one |
| `Clients.Connection.BeginCommandPhase` | src/client.c:56-70 | an empty builder whose limit is `max_allowed_packet`, or SIZE_MAX when that is 0; the parser expects the number after the first header |
| `Clients.Connection.QuerySend` | src/client.c:598-616 | gets past building if and only if `max_allowed_packet` is 0 or `1 + length` is below it; a refused query leaves the wire unchanged; afterwards the parser expects the number after the last fragment header, for every length |
| `Clients.Connection.CommandSend` | src/client.c:522-537 | the same limit and the same unchanged wire; the parser is left expecting 1 |
| `Clients.Connection.StmtExecuteSend` | src/client.c:894-911 | the same for the execute packet, with the number after the last fragment header |
| `Clients.Connection.Query` | src/blocking.c:188-209 | send, flush and wait: what is on the wire, what is read and what is returned |
| `Clients.Connection.Escape` | src/client.c:739-790 | escapes into the packet buffer in the mode the server status selects |
| `Escapes.ScanEscaped` | src/client.c:755-784 | a scanner of SQL literals returns the input and stops exactly at the closing quote: of single-quoted ones in both modes, of double-quoted ones where backslashes are escapes |
| `Escapes.EscapeKeepsIff` | src/client.c:735-737 | a string is its own escape if and only if it holds none of the bytes to be escaped, which are listed |
| `Escapes.NoRawControls` | src/client.c:767-784 | with backslash escapes no raw NUL, newline, carriage return or control-Z is left |
| `Escapes.EscapedLength` | src/client.c:748-750 | the output is between one and two times as long as the input |
| `Escapes.EscapeDistributes` | src/client.c:755-784 | escaping distributes over concatenation |
| `Escapes.EscapeIsInjective` | src/client.c:735-737 | no two strings are escaped alike |
| `Escapes.DoubleQuotes` | src/client.c:755-766 | the span-copying loop over quotes equals the per-byte map |
| `Escapes.AddBackslashes` | src/client.c:767-784 | the span-copying loop over the lookup table equals the per-byte map |
| `Escapes.Escape` | src/client.c:739-790 | the whole function equals the per-byte map, unless an allocation is refused |

## Left out

- Authentication, handshake and TLS packets and the password scrambles: their results come from OpenSSL digests, and the rest is straight-line.
- Connecting, name resolution, TLS and `poll` in `src/socket.c`: only the read, write and wait contracts are modelled; a wait that fails is not.
- The replies to COM_STMT_PREPARE and COM_STMT_EXECUTE, `trilogy_stmt_read_row`, COM_SET_OPTION, COM_PING, COM_QUIT, COM_STMT_RESET, COM_STMT_CLOSE and long data: the same send and receive patterns with other field lists.
- The `field_list` variant of the column packet, which no caller uses.
- The tables of `src/charset.c` and `src/error.c`, and the Ruby binding.
- `trilogy_buffer_free` and TRILOGY_MEM_ERROR, the answer of a freed buffer.
- Floating-point meaning: floats and doubles are 32-bit and 64-bit patterns, as in the unions of the source.
- Heap identity of buffers: a buffer's block is a sequence, so pointers that outlive a reallocation are not modelled; the slices of a row and the error message are positions in, or copies of, the packet just read.
- Output arrays of the row parsers are returned as sequences; for the binary row, `prior` stands for what the caller's array held.
- Straight-line chains of getter and writer calls are loops over a list of fields (`GetFields`, `WriteFields`, `WriteLE`, `GetInt`); `LEUnrolled` relates the integer loops to the written-out code.
- The value union of a bind is the member its type selects.
- Fairness: the retry loops are proved safe, and complete exactly relative to what the socket does (`SendCompletesIff`, `ChunkInvariance`); that a peer ever answers is not claimed.
- Buffers.Buffer.Reallocate: `realloc` may refuse for any reason; beyond that only that the new block starts with the old bytes.
- Builders.Builder.WriteUint8: after a refused allocation the payload is not specified, because no caller uses the packet then.
- Clients.Connection.ReadPacket: between a refused allocation at the last byte of a fragment and the end of packet this defers, only validity and progress are promised; `PacketParsers.PacketParser.Execute` says what the parser does there.
