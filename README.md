# The bitcoin `inv` message of btcwire, in Dafny

This project models `MsgInv` from the Go package btcwire. `MsgInv` is the
peer-to-peer message that advertises inventory vectors. An inventory vector is
a 4-byte object type plus a 32-byte hash. The model covers:

- the message's list of inventory vectors, bounded by `MaxInvPerMsg` (50,000);
- `AddInvVect`, the checked append;
- `BtcDecode`, which reads a varint count, rejects a count over the bound, and
  then reads that many fixed-size records from a reader;
- `BtcEncode`, which re-checks the bound and then writes the count and the
  records to a writer;
- `Command` and `MaxPayloadLength`, the message contract's constants;
- `NewMsgInv`, the constructor.

Layout:

- `wire.dfy` (module `Wire`) holds the byte-level helpers the message uses.
  The varint ("CompactSize": one discriminant byte, then 2, 4 or 8
  little-endian bytes) and the 36-byte inventory vector record each come with
  an encoder and a parser. Their round-trip and size properties are proved
  there.
- `streams.dfy` (module `Streams`) holds the reader and the writer.
  - A `Reader` is a constant byte sequence with a cursor. A read follows
    `io.ReadFull`: when fewer bytes remain than asked for, it consumes them and
    fails. The failure is `EOF` when no byte was available and `UnexpectedEOF`
    otherwise.
  - A `Writer` is a byte sequence that writes append to. Its capacity stands
    for a transport that may refuse a write.
- `msginv.dfy` (module `Inv`) has the class `MsgInv` with its field `invList`
  and its methods.
  - Functions that describe what the methods do: `Appended`, `AppendAll`,
    `DecodeRecords`, `Decode` and `EncodeMsg`.
  - Lemmas proving the message's properties about those functions.

The methods change state in place, so each one is proved against these
functions. `BtcDecode` ends in the state `Decode` gives for the old state.
`BtcEncode` appends `EncodeMsg(invList)` or a prefix of it.

Points of the code's behaviour worth knowing (the model follows the code):

- `BtcDecode` does not reset the list: it appends to whatever the receiver
  already holds.
- It also ignores the error from `AddInvVect` (msginv.go:57). So on a receiver
  that has no room, records are dropped silently and decoding still succeeds
  (`DecodeIntoFullReceiverDrops`, `AppendAllTakesRoom`).
- When a record read fails, the records read before the failure stay in the
  list (`DecodeRecordsTruncated`, `DecodeTruncatedStream`).
- A stream that ends early yields `EOF` or `UnexpectedEOF`, depending on where
  inside the count or the record it ends.
- `BtcEncode` does check the bound again before writing anything
  (msginv.go:67-71).

## Model

| member | source | states |
|---|---|---|
| `Wire.ReadFull` | msginv.go:40-56 | a read of the count or of a record stays inside the stream; a successful read of n bytes returns n bytes and advances the cursor by n |
| `Wire.ReadFullSequential` | msginv.go:40-56 | two reads in a row of a and then b bytes succeed exactly when one read of a + b bytes does, return the same bytes and leave the same cursor; when they fail the stream ends drained |
| `Wire.ReadFullAt` | msginv.go:40-56 | reading exactly the bytes placed at the cursor returns them and advances past them, whatever precedes or follows |
| `Wire.VarIntTruncated` | msginv.go:40-43 | a stream that ends inside an encoded count fails with `EOF` when at most the discriminant was present, `UnexpectedEOF` otherwise, and drains the stream |
| `Inv.DecodeCountFails` | msginv.go:40-43 | for any stream, a count that cannot be read ends decoding with that read's error, the cursor where the read left it, and the list unchanged |
| `Inv.DecodeTruncatedCount` | msginv.go:40-43 | when the count itself is cut short, decoding returns the read's error, drains the stream and leaves the list unchanged |
| `Wire.ParseVarInt` | msginv.go:40-43 | reading the count stays inside the stream, and a successful read consumes at least one byte |
| `Wire.EncodeVarInt` | msginv.go:73 | the count takes between 1 and `MaxVarIntPayload` (9) bytes |
| `Wire.VarIntRoundTrip` | msginv.go:73-76 | reading an encoded count at any position returns the count and consumes exactly its bytes, whatever follows |
| `Wire.EncodeInvVect` | msginv.go:79 | every record is exactly `MaxInvVectPayload` (36) bytes long |
| `Wire.ParseInvVect` | msginv.go:53-56 | a record read succeeds exactly when 36 bytes remain and then consumes 36 bytes; a failed read drains the stream |
| `Wire.InvVectRoundTrip` | msginv.go:79-82 | reading an encoded record returns it and consumes exactly 36 bytes |
| `Wire.ParseInvVectTruncated` | msginv.go:53-56 | on a stream that ends inside a record, the error is `EOF` when the stream ends before the record or between its type and hash, and `UnexpectedEOF` otherwise |
| `Streams.ReadVarInt` | msginv.go:40 | the reader's cursor and result are those of parsing the count at the old cursor |
| `Streams.ReadInvVect` | msginv.go:53 | the reader's cursor and result are those of parsing a record at the old cursor |
| `Streams.Writer.Write` | msginv.go:73-82 | a write appends the whole chunk when it fits the writer's capacity; otherwise it fails and appends nothing |
| `Streams.WriteVarInt` | msginv.go:73-76 | appends the count's encoding, or fails with `WriteFailed` having written nothing |
| `Streams.WriteInvVect` | msginv.go:79-82 | appends the record's 36 bytes, or fails with `WriteFailed` having written nothing |
| `Inv.MsgInv.constructor` | msginv.go:103-105 | a new message has an empty list |
| `Inv.MsgInv.AddInvVect` | msginv.go:26-35 | succeeds exactly when the list has fewer than 50,000 entries; success appends `iv` at the end and keeps the earlier entries; on failure the list is unchanged and the error names `MsgInv.AddInvVect`; a list within the bound stays within it |
| `Inv.Appended` | msginv.go:26-35 | the list after one `AddInvVect` keeps the old list, grows by one exactly when there is room, the new last entry is `iv`, and a bounded list stays bounded |
| `Inv.AppendAll` | msginv.go:51-58 | the list after handing records to `AddInvVect` one by one, errors ignored (msginv.go:57): it keeps the old list, grows by at most the number of records, and a bounded list stays bounded |
| `Inv.AppendAllTakesRoom` | msginv.go:51-58 | handing records to `AddInvVect` one by one keeps the old list, takes records in order up to the free room, and drops the rest |
| `Inv.AppendAllBounded` | msginv.go:51-58 | those appends never push a list over the bound; they add every record when all fit, and nothing to a full list |
| `Inv.DecodeRecords` | msginv.go:51-58 | the decode loop leaves the cursor inside the stream, keeps the old list as a prefix, and keeps a bounded list bounded |
| `Inv.Decode` | msginv.go:39-61 | decoding leaves the cursor between its start and the end of the stream |
| `Inv.DecodeRecordsComplete` | msginv.go:51-58 | when all `count` records are present, each is read and added in order, no error is returned, and the cursor ends just after the last record |
| `Inv.DecodeRecordsTruncated` | msginv.go:51-56 | when the stream ends inside record m, the m records before it stay added, the stream is drained, and the error is the one from the failing record read |
| `Inv.DecodeExtendsReceiver` | msginv.go:39-61 | decoding never removes or rewrites what the receiver already held, and never pushes a bounded list over `MaxInvPerMsg` |
| `Inv.DecodeRejectsOversizedCount` | msginv.go:45-49 | a count over the bound is rejected as soon as it is read: only the varint is consumed, the list is unchanged, and the error names `MsgInv.BtcDecode` with the count |
| `Inv.DecodeRejectsOversized` | msginv.go:45-49 | for any stream and any encoding of the count, a count over the bound is rejected right after it is read, with the list unchanged and the error naming `MsgInv.BtcDecode` with the count |
| `Inv.DecodeTruncatedStream` | msginv.go:51-56 | a stream holding a count but only m of its records, decoded by a fresh message, fails with `EOF`/`UnexpectedEOF`, drains the stream, and leaves exactly those m records in the list |
| `Inv.DecodeCutShort` | msginv.go:40-56 | for any stream whose count is within the bound but which ends inside record m, a fresh message keeps the m records read, drains the stream and returns the failing record read's error |
| `Inv.DecodeWellFormed` | msginv.go:40-58 | for any stream holding a count within the bound followed by that many records, decoding succeeds, hands the records to `AddInvVect` in order and stops just after the last one |
| `Inv.MsgInv.BtcDecode` | msginv.go:39-61 | the new list, cursor and error are those `Decode` gives for the old list and cursor; the old list is a prefix of the new one; a bounded list stays bounded |
| `Inv.EncodeRecords` | msginv.go:78-83 | the records take 36 bytes each |
| `Inv.EncodeMsg` | msginv.go:73-83 | the payload starts with the count byte itself for fewer than 253 records and with the discriminant 0xfd otherwise, is then 36 bytes per record long, and never exceeds `MaxVarIntPayload + MaxInvPerMsg * MaxInvVectPayload` |
| `Inv.EncodeRecordsPrefix` | msginv.go:78-83 | the bytes written for the first n records are a prefix of the bytes for all of them |
| `Inv.MsgInv.BtcEncode` | msginv.go:65-86 | a list over the bound is rejected with nothing written; otherwise the call succeeds exactly when the whole payload fits the writer; success appends the count followed by the records in list order; failure returns `WriteFailed` having written a prefix of that payload |
| `Inv.EncodeDecodeRoundTrip` | msginv.go:39-86 | decoding an encoded bounded list from any stream position succeeds, consumes exactly the encoded bytes, and hands the records to `AddInvVect` in order |
| `Inv.EncodeDecodeAlone` | msginv.go:39-86 | a stream holding just an encoded bounded message decodes into any receiver without error, consuming every byte and handing the records to `AddInvVect` in order |
| `Inv.EncodeDecodeFresh` | msginv.go:101-105 | decoding an encoding into a new message gives back the original list and consumes every byte |
| `Inv.DecodeIntoFullReceiverDrops` | msginv.go:57 | decoding a well-formed message into a full receiver returns no error while dropping every record |
| `Inv.EmptyMessage` | msginv.go:73-76 | the empty message is the single byte 0, and it decodes to the empty list |
| `Inv.EncodedLengthBounded` | msginv.go:96-99 | every encoding of a bounded list is at most `MaxVarIntPayload + MaxInvPerMsg * MaxInvVectPayload` bytes |
| `Inv.MsgInv.Command` | msginv.go:90-92 | the command is the constant `"inv"`, for every message and whatever its list; it fits the 12-byte command field |
| `Inv.MsgInv.MaxPayloadLength` | msginv.go:96-99 | for every protocol version, the value bounds the length of every payload `BtcEncode` can produce, and it fits in a `uint32` |
| `Inv.EncodeThenDecode` | msginv.go:39-86 | encoding a bounded message into a writer of `MaxPayloadLength` bytes, then decoding into a new message, gives back the same vectors with neither call returning an error, and the decode consumes exactly the bytes written |

## Left out

- The varint and record codecs (`readVarInt`, `writeVarInt`, `readInvVect`,
  `writeInvVect`) are defined in files that are not part of this model.
  - `Wire` gives them concrete stand-ins: the CompactSize varint, and a
    little-endian 4-byte type followed by a 32-byte hash.
  - The message's proofs use their round-trip, fixed-size and truncation
    lemmas, and can see their bodies.
  - Which error a truncated stream yields depends on the stand-ins' read
    order (the discriminant, then the value; the type, then the hash). So the
    `EOF`/`UnexpectedEOF` results of `VarIntTruncated`,
    `ParseInvVectTruncated`, `DecodeTruncatedCount`, `DecodeCutShort` and
    `DecodeTruncatedStream` hold for these stand-ins, not for every codec.
    `EmptyMessage` also unfolds the varint codec.
  - `ParseVarInt` accepts non-minimal encodings; this model does not reject
    them.
- Writes have no partial outcome: each varint and each record goes out in one
  write, which either appends all its bytes or none.
  - A refused write is modelled as a fixed capacity, so transport errors are
    not told apart.
  - Short writes inside a record are not modelled.
- Error texts from `fmt.Sprintf` and `messageError` are reduced to
  `MessageError(origin, number)`. Only the function name and the number the
  text reports are kept.
- The generic `Message` interface and dispatch by command name belong to other
  files.
- `*InvVect` pointers are plain values. The model does not capture pointer
  identity or aliasing between list entries.
- The protocol version `pver` is passed through everywhere and used nowhere, as
  in the code.
- `MaxInvPerMsg`, `cmdInv`, `maxVarIntPayload` (9), `maxInvVectPayload` (36)
  and the 12-byte command field width are defined in files that are not part
  of this model. They appear here as named constants.
- Concurrency and cancellation: none in this code.
