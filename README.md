# The Raft-state protocol-buffer codec of `roachpb`

This project models in Dafny the generated protocol-buffer codec in
`roachpb/internal_raft.pb.go`. It covers five messages that the replicas of a
range keep or exchange:

- `RaftCommand`: the range id, the originating replica and the batch request;
- `RaftTruncatedState`: the index and term of the last truncated log entry;
- `RaftTombstone`: the next replica id;
- `RaftSnapshotData`: the range descriptor, the key/value pairs and the log entries;
- `RaftSnapshotData_KeyValue`: one key/value pair and its timestamp.

For each message the model has:

- `Size`, which works out the encoded length;
- `MarshalTo`, which writes the encoding into a caller's buffer at an offset;
- `Marshal`, which allocates a buffer of the right size and fills it;
- `Unmarshal`, which reads a byte string field by field into the receiver.

It also covers the helpers these use:

- the varint writer `encodeVarintInternalRaft`;
- the fixed-width writers `encodeFixed64InternalRaft` and `encodeFixed32InternalRaft`;
- the varint length `sovInternalRaft`;
- `skipInternalRaft`, which measures a field the decoder does not know.

The project has six modules:

- `Wire` (wire.dfy): bytes, Go's `uint64`, `int64` and `int32`, and the conversions between them. It also holds the decoder's errors and the `Written` predicate. `Written` says that a buffer differs from its old contents only in a given run of bytes at a given offset.
- `Varints` (varint.dfy): the base-128 varint and the little-endian encodings, defined as functions. It also holds the methods that write them into an array, and the varint reader. The reader returns the value or `UnexpectedEof` / `IntOverflow`, as the decoders' inner loops do.
- `Fields` (fields.dfy): reading one tag, measuring an unknown field (`skipInternalRaft`), and reading one field against a message's schema. It also holds the generic field loop that every `Unmarshal` is, as the function `DecodeFrom`, and the lemmas that decode a run of encoded fields.
- `Messages` (messages.dfy): one datatype per message, with its encoding `EncodeX` and its decoding `DecodeX`. It also holds the round trip and the other properties of the pair.
- `Raft` (raft.dfy): one class per Go struct, whose fields the methods update in place. Each `Size`, `MarshalTo`, `Marshal` and `Unmarshal` method is proved against the functions of `Messages`. `MarshalTo` writes into an `array<Byte>`. `Unmarshal` is the source's `for iNdEx < l` loop.
- `Findings` (findings.dfy): the cursor arithmetic as written, with Go's 64-bit wrap-around, and three inputs on which it panics. See "## Findings".

Modelling choices:

- **Nested messages.** `ReplicaDescriptor`, `BatchRequest`, `RangeDescriptor`, `Timestamp` and `raftpb.Entry` are other messages, from other files. The model stands each for its own encoding, a byte string. Each decoder takes the parameter `nested: NestedCodec`, which says whether the nested message's own `Unmarshal` accepts a payload.
- **Merging.** In protocol buffers, decoding two encodings of a message one after the other is the same as decoding their concatenation. So a second occurrence of a nested field, which Go unmarshals into the same value, is modelled as concatenation of the two encodings.
- **Scalar and bytes fields.** A repeated scalar field keeps its last value. `Key` and `Value` of a key/value pair are `Option`s: `None` is Go's nil slice, which `MarshalTo` omits. A present but empty payload decodes to `Some([])`, because Go stores `[]byte{}` there.

## Model

| member | source | states |
|---|---|---|
| Wire.I64Of | roachpb/internal_raft.pb.go:391-405 | Go's `int64(u)` is congruent to `u` modulo 2^64 and negative exactly when `u >= 2^63` |
| Wire.U64OfI64 | roachpb/internal_raft.pb.go:103 | Go's `uint64(x)` of an int64 is congruent to `x` modulo 2^64 |
| Wire.U64OfI32 | roachpb/internal_raft.pb.go:164 | Go's `uint64(x)` of an int32 sign-extends: congruent to `x` and at least 2^64 - 2^31 when `x` is negative |
| Wire.I32Of | roachpb/internal_raft.pb.go:608-622 | Go's int32 accumulation keeps `u` modulo 2^32 |
| Wire.I64RoundTrip | roachpb/internal_raft.pb.go:391-405 | converting a RangeID to uint64 for the wire and back gives the RangeID |
| Wire.I32RoundTrip | roachpb/internal_raft.pb.go:608-622 | sign-extending a ReplicaID to uint64 and truncating it back gives the ReplicaID |
| Wire.I32OfKeeps | roachpb/internal_raft.pb.go:608-622 | truncation to int32 leaves a decoded value unchanged exactly when it is below 2^31 |
| Varints.Varint | roachpb/internal_raft.pb.go:274-282 | the definition of the varint: the base-128 digits of `v`, least significant first, with the continuation bit 0x80 added to every byte but the last, as the `for v >= 1<<7` loop writes them |
| Varints.VarintShape | roachpb/internal_raft.pb.go:274-282 | a varint is at least one byte, every byte but the last has the continuation bit, and the last does not |
| Varints.VarintLength | roachpb/internal_raft.pb.go:345-354 | the varint of `v` fits in `n` bytes exactly when `v < 128^n` |
| Varints.VarintAtMostTen | roachpb/internal_raft.pb.go:345-354 | the varint of any uint64 is 1 to 10 bytes long |
| Varints.Sov | roachpb/internal_raft.pb.go:345-354 | `sovInternalRaft(x)` is the length of the varint of `x`, between 1 and 10, and 1 exactly when `x < 0x80` |
| Varints.EncodeVarint | roachpb/internal_raft.pb.go:274-282 | writes the varint of `v` at `offset`, changes no other byte, and returns the offset just past it |
| Varints.LittleEndianRoundTrip | roachpb/internal_raft.pb.go:256-273 | the n-byte little-endian form of `v < 256^n` has n bytes and reads back as `v` |
| Varints.LittleEndianAt | roachpb/internal_raft.pb.go:256-266 | byte k of the little-endian form is `v >> 8k` truncated to a byte |
| Varints.EncodeFixed64 | roachpb/internal_raft.pb.go:256-266 | writes the 8 little-endian bytes of `v` at `offset`, changes no other byte, and returns `offset + 8` |
| Varints.EncodeFixed32 | roachpb/internal_raft.pb.go:267-273 | writes the 4 little-endian bytes of `v` at `offset`, changes no other byte, and returns `offset + 4` |
| Varints.ReadVarint | roachpb/internal_raft.pb.go:521-534 | a varint read yields a uint64 and a cursor at most 10 bytes on and within the data, or fails with `UnexpectedEof` or `IntOverflow` |
| Varints.DecodeVarint | roachpb/internal_raft.pb.go:521-534 | the decoders' inner `for shift` loop computes the varint read |
| Varints.ReadVarintOfVarint | roachpb/internal_raft.pb.go:521-534 | reading at a written varint of `v` gives `v` and the position just past it |
| Varints.ReadVarintTruncated | roachpb/internal_raft.pb.go:525-527 | continuation bytes up to the end of data, with fewer than 10 bytes in all, give `UnexpectedEof` |
| Varints.ReadVarintOverflow | roachpb/internal_raft.pb.go:522-524 | ten continuation bytes in a row give `IntOverflow` |
| Fields.ReadTag | roachpb/internal_raft.pb.go:492-508 | a tag read either moves the cursor forward within the data and yields a wire type below 8, or fails with `UnexpectedEof` or `IntOverflow` |
| Fields.Key | roachpb/internal_raft.pb.go:101-112 | a field key is `fieldNum << 3` with the wire type in its low three bits |
| Fields.TagAt | roachpb/internal_raft.pb.go:492-508 | reading a written key gives back its field number and wire type |
| Fields.FieldLength | roachpb/internal_raft.pb.go:928-1026 | `skipInternalRaft` measures a field of at least one byte, or fails |
| Fields.ValueLength | roachpb/internal_raft.pb.go:947-1023 | the definition of the `switch wireType` of `skipInternalRaft`: a varint is skipped to its end, fixed64 and fixed32 by 8 and 4 bytes with no end-of-data check, a length-delimited field by its length, refused when negative or when the total passes 2^63 - 1, a start-group key by its group, an end-group key by nothing more, and wire types 6 and 7 are illegal; every result is at least one byte |
| Fields.GroupLength | roachpb/internal_raft.pb.go:987-1015 | the definition of the group loop: read a key; an end-group key ends the group just after it, measured from the start-group key; any other field is skipped with `skipInternalRaft` and the loop goes on; every result is at least one byte |
| Fields.Skip | roachpb/internal_raft.pb.go:928-1026 | the `skipInternalRaft` method computes `FieldLength` |
| Fields.SkipValue | roachpb/internal_raft.pb.go:947-1023 | the `switch wireType` of `skipInternalRaft` computes `ValueLength` |
| Fields.SkipGroup | roachpb/internal_raft.pb.go:987-1015 | the group loop of `skipInternalRaft` computes `GroupLength` |
| Fields.SkipsVarint | roachpb/internal_raft.pb.go:949-962 | a varint field is skipped up to the end of its value |
| Fields.SkipsFixed | roachpb/internal_raft.pb.go:963-1020 | a fixed64 field is skipped by 8 bytes and a fixed32 field by 4 bytes after the key |
| Fields.SkipsBytes | roachpb/internal_raft.pb.go:966-986 | a length-delimited field is skipped by its length; a negative length is `InvalidLength` |
| Fields.SkipsEmptyGroup | roachpb/internal_raft.pb.go:987-1015 | a start-group key followed by an end-group key is skipped as one field |
| Fields.SkipsIllegal | roachpb/internal_raft.pb.go:1021-1022 | wire types 6 and 7 are an illegal wire type |
| Fields.FieldLengthOfVarint | roachpb/internal_raft.pb.go:949-962 | the skipped length of an encoded varint field is its key length plus its value length |
| Fields.FieldLengthOfFixed | roachpb/internal_raft.pb.go:963-1020 | the skipped length of a fixed field is its key length plus 8 or 4 |
| Fields.FieldLengthOfBytes | roachpb/internal_raft.pb.go:966-986 | the skipped length of an encoded length-delimited field is its whole encoding |
| Fields.FieldLengthOfEmptyGroup | roachpb/internal_raft.pb.go:987-1015 | the skipped length of an empty group is its two keys |
| Fields.GroupSkipsFields | roachpb/internal_raft.pb.go:987-1015 | from inside a group, a written run of fields followed by an end-group key is skipped field by field up to just past that key |
| Fields.FieldLengthOfGroup | roachpb/internal_raft.pb.go:987-1015 | a start-group key, a written run of fields and an end-group key are skipped as one field of their whole length |
| Fields.FieldLengthIllegal | roachpb/internal_raft.pb.go:1021-1022 | a key with wire type 6 or 7 is refused as an illegal wire type |
| Fields.FieldLengthNegative | roachpb/internal_raft.pb.go:982-985 | a length of 2^63 or more, negative as an int, is `InvalidLength` |
| Fields.PayloadEnd | roachpb/internal_raft.pb.go:425-431 | a payload end is found exactly when the length is non-negative and the payload fits; otherwise a negative length is `InvalidLength` and an overlong one is `UnexpectedEof` |
| Fields.SkipEnd | roachpb/internal_raft.pb.go:554-567 | an unknown field is skipped exactly when it fits in the data; otherwise `UnexpectedEof` |
| Fields.NextField | roachpb/internal_raft.pb.go:361-479 | reading one field moves the cursor forward within the data, gives a positive field number, and gives an unknown payload exactly for field numbers outside the message's schema and a varint payload exactly for varint fields |
| Fields.FieldAt | roachpb/internal_raft.pb.go:378-465 | the checks after the tag: an end-group tag is `EndGroup`, a field number of zero or less is an illegal tag, an unknown field is skipped, and a known field with the wrong wire type is refused; a field read moves the cursor forward within the data |
| Fields.UnknownAt | roachpb/internal_raft.pb.go:466-479 | the `default` case: an unknown field is measured with `skipInternalRaft` from the start of its tag and skipped when it fits in the data, with no payload |
| Fields.VarintAt | roachpb/internal_raft.pb.go:391-405 | a varint field, read as its value, ending within the data |
| Fields.BytesAt | roachpb/internal_raft.pb.go:406-435 | a length-delimited field, read as the bytes `data[iNdEx:postIndex]`, ending within the data |
| Fields.DecodeFrom | roachpb/internal_raft.pb.go:361-485 | the definition of the `for iNdEx < l` loop of every Unmarshal: until the end of the data, read the next field, skip it if unknown, otherwise hand it to the message, and stop at the first error; the final `iNdEx > l` check cannot fire, because each step ends within the data |
| Fields.ReadField | roachpb/internal_raft.pb.go:361-479 | one round of an `Unmarshal` loop computes `NextField` |
| Fields.VarintFieldRead | roachpb/internal_raft.pb.go:386-405 | a varint field is read as its value if the schema says varint, skipped if unknown, and refused as a wrong wire type if the schema says bytes |
| Fields.BytesFieldRead | roachpb/internal_raft.pb.go:406-435 | a length-delimited field is read as its payload if the schema says bytes, skipped if unknown, and refused as a wrong wire type if the schema says varint |
| Fields.KeyedVarintAt | roachpb/internal_raft.pb.go:386-405 | the same, for a varint field written as key and value |
| Fields.KeyedBytesAt | roachpb/internal_raft.pb.go:406-435 | the same, for a bytes field written as key, length and payload |
| Fields.UnknownFieldSkipped | roachpb/internal_raft.pb.go:466-479 | an unknown field leaves the message as it is and decoding goes on after it |
| Fields.KnownFieldApplied | roachpb/internal_raft.pb.go:386-465 | a known field that is accepted updates the message, and decoding goes on after it |
| Fields.KnownFieldRefused | roachpb/internal_raft.pb.go:432-434 | a nested payload that its own `Unmarshal` refuses ends decoding with that error |
| Fields.DecodeFromStops | roachpb/internal_raft.pb.go:363-385 | a field that cannot be read ends decoding with that field's error |
| Fields.NextFieldTruncatedTag | roachpb/internal_raft.pb.go:368-370 | a tag cut short by the end of the data gives `UnexpectedEof` |
| Fields.NextFieldOverlongTag | roachpb/internal_raft.pb.go:364-367 | a tag of ten continuation bytes or more gives `IntOverflow` |
| Fields.NextFieldTagChecks | roachpb/internal_raft.pb.go:378-389 | an end-group tag, a field number of zero or less, and a known field with the wrong wire type are each refused with their own error |
| Fields.NextFieldBadLength | roachpb/internal_raft.pb.go:425-431 | a known bytes field with a negative length is `InvalidLength`, and one with a length past the data is `UnexpectedEof` |
| Fields.NextFieldSkipPastEnd | roachpb/internal_raft.pb.go:475-477 | an unknown field that runs past the end of the data is `UnexpectedEof` |
| Fields.FieldsAt | roachpb/internal_raft.pb.go:363-479 | decoding a written run of fields applies them one by one, in order, and then goes on after the run |
| Fields.DecodeFields | roachpb/internal_raft.pb.go:358-486 | decoding the encoding of a run of fields gives the result of applying those fields in order |
| Fields.EncodeFieldsAppend | roachpb/internal_raft.pb.go:96-121 | the encoding of two runs of fields is the concatenation of their encodings |
| Fields.ApplyFieldsAppend | roachpb/internal_raft.pb.go:358-486 | applying two runs of fields applies the first and, unless it fails, then the second |
| Messages.LiteralKeys | roachpb/internal_raft.pb.go:101-143 | the key bytes 0x08, 0x10, 0x0a, 0x12, 0x1a that MarshalTo writes are the keys of fields 1 and 2 (varint) and 1, 2, 3 (bytes) |
| Messages.EncodeTruncatedState | roachpb/internal_raft.pb.go:133-145 | the definition of what MarshalTo writes: Index as varint field 1, then Term as varint field 2 |
| Messages.ApplyTruncatedState | roachpb/internal_raft.pb.go:515-553 | the definition of the `switch fieldNum`: field 1 replaces Index and field 2 replaces Term, so the last occurrence wins |
| Messages.DecodeTruncatedState | roachpb/internal_raft.pb.go:487-574 | the definition of Unmarshal: the field loop with the schema {1, 2: varint} and `ApplyTruncatedState`, into a receiver holding `m` |
| Messages.TruncatedStateFieldsEncoded | roachpb/internal_raft.pb.go:133-145 | a truncated state is encoded as its two varint fields in field order |
| Messages.TruncatedStateApplied | roachpb/internal_raft.pb.go:487-574 | applying those fields to any starting value gives the encoded state |
| Messages.TruncatedStateSize | roachpb/internal_raft.pb.go:294-300 | a truncated state encodes in two key bytes plus the varints of index and term, at most 22 bytes |
| Messages.TruncatedStateRoundTrip | roachpb/internal_raft.pb.go:487-574 | unmarshalling the encoding of a truncated state gives that state, whatever the receiver held |
| Messages.TruncatedStateLastWins | roachpb/internal_raft.pb.go:516-553 | unmarshalling two concatenated encodings gives the second, since each varint field replaces the last |
| Messages.TruncatedStateSkipsUnknown | roachpb/internal_raft.pb.go:554-567 | an unknown field before an encoded state is skipped and the state is decoded |
| Messages.EncodeTombstone | roachpb/internal_raft.pb.go:157-166 | the definition of what MarshalTo writes: NextReplicaID as varint field 1, sign-extended to 64 bits |
| Messages.ApplyTombstone | roachpb/internal_raft.pb.go:603-622 | the definition of the `switch fieldNum`: field 1 replaces NextReplicaID with the low 32 bits of the value, read as signed |
| Messages.DecodeTombstone | roachpb/internal_raft.pb.go:575-643 | the definition of Unmarshal: the field loop with the schema {1: varint} and `ApplyTombstone` |
| Messages.TombstoneSize | roachpb/internal_raft.pb.go:302-307 | a tombstone encodes in one key byte plus the varint of its sign-extended id: 2 bytes for ids below 0x80, 11 bytes for negative ids |
| Messages.TombstoneTruncates | roachpb/internal_raft.pb.go:604-618 | a varint field 1 decodes to the low 32 bits of its value, read as signed |
| Messages.TombstoneRoundTrip | roachpb/internal_raft.pb.go:575-643 | unmarshalling the encoding of a tombstone gives that tombstone, negative ids included |
| Messages.EncodeCommand | roachpb/internal_raft.pb.go:96-121 | the definition of what MarshalTo writes: RangeID as varint field 1, then OriginReplica and Cmd as length-delimited fields 2 and 3 |
| Messages.ApplyCommand | roachpb/internal_raft.pb.go:386-465 | the definition of the `switch fieldNum`: field 1 replaces RangeID, read as int64; fields 2 and 3 are merged by concatenation into OriginReplica and Cmd when their own Unmarshal accepts the payload, and are otherwise refused with that error |
| Messages.DecodeCommand | roachpb/internal_raft.pb.go:358-486 | the definition of Unmarshal: the field loop with the schema {1: varint, 2, 3: bytes} and `ApplyCommand` |
| Messages.CommandFieldsEncoded | roachpb/internal_raft.pb.go:96-121 | a command is encoded as RangeID, OriginReplica and Cmd in field order |
| Messages.CommandApplied | roachpb/internal_raft.pb.go:358-486 | applying those fields merges the command into the receiver when both nested payloads are accepted, and otherwise fails with the first refusal |
| Messages.CommandSize | roachpb/internal_raft.pb.go:283-292 | a command's encoded length is its three keys, the RangeID varint, and each nested payload with its length varint |
| Messages.CommandRoundTrip | roachpb/internal_raft.pb.go:358-486 | unmarshalling the encoding of a command merges it into the receiver, or fails with the nested refusal |
| Messages.CommandDecodesEncoding | roachpb/internal_raft.pb.go:358-486 | into an empty receiver, unmarshalling an accepted command's encoding gives that command |
| Messages.CommandLastWins | roachpb/internal_raft.pb.go:386-465 | for two concatenated encodings the second RangeID wins and the nested messages of both are merged |
| Messages.EncodeKeyValue | roachpb/internal_raft.pb.go:228-254 | the definition of what MarshalTo writes: Key as field 1 and Value as field 2, each only when not nil, then Timestamp as field 3 always |
| Messages.ApplyKeyValue | roachpb/internal_raft.pb.go:814-906 | the definition of the `switch fieldNum`: fields 1 and 2 replace Key and Value with `Some` of the payload, which is `Some([])` for an empty payload, as the `[]byte{}` of lines 842-844 and 873-875 makes it; field 3 is merged into Timestamp when its Unmarshal accepts it |
| Messages.DecodeKeyValue | roachpb/internal_raft.pb.go:786-927 | the definition of Unmarshal: the field loop with the schema {1, 2, 3: bytes} and `ApplyKeyValue` |
| Messages.OptionalField | roachpb/internal_raft.pb.go:234-247 | a nil key or value gives no field, a present one a single field |
| Messages.KeyValueFieldsEncoded | roachpb/internal_raft.pb.go:228-254 | a key/value pair is encoded as Key and Value (when not nil) and then Timestamp |
| Messages.OptionalApplied | roachpb/internal_raft.pb.go:815-876 | applying a Key or Value field sets it to the payload, and an absent field changes nothing |
| Messages.KeyValueApplied | roachpb/internal_raft.pb.go:786-927 | applying a pair's fields merges it into the receiver when its timestamp is accepted |
| Messages.KeyValueSize | roachpb/internal_raft.pb.go:329-343 | a pair's encoded length counts Key and Value only when not nil, and always counts the Timestamp |
| Messages.KeyValueNilOmitted | roachpb/internal_raft.pb.go:234-247 | nil Key and Value leave only the Timestamp field, and an empty non-nil Key is still written as `0x0a 0x00` |
| Messages.KeyValueRoundTrip | roachpb/internal_raft.pb.go:786-927 | unmarshalling a pair's encoding merges it into the receiver, or fails when the timestamp is refused |
| Messages.KeyValueDecodesEncoding | roachpb/internal_raft.pb.go:786-927 | into an empty receiver, unmarshalling a pair's encoding gives that pair, nil and empty keys and values kept apart |
| Messages.EncodeSnapshotData | roachpb/internal_raft.pb.go:178-216 | the definition of what MarshalTo writes: RangeDescriptor as field 1, then one field 2 per pair and one field 3 per log entry, in list order |
| Messages.ApplySnapshotData | roachpb/internal_raft.pb.go:672-764 | the definition of the `switch fieldNum`: field 1 is merged into RangeDescriptor; field 2 is decoded into a fresh empty pair, which is appended to KV; field 3 is appended to LogEntries when raftpb.Entry accepts it; each nested refusal is returned as the error |
| Messages.DecodeSnapshotData | roachpb/internal_raft.pb.go:644-785 | the definition of Unmarshal: the field loop with the schema {1, 2, 3: bytes} and `ApplySnapshotData` |
| Messages.KeyValuesAppend | roachpb/internal_raft.pb.go:189-201 | the encoding of the KV list is compositional over concatenation |
| Messages.KeyValueRunEncoded | roachpb/internal_raft.pb.go:189-201 | the KV list is encoded as one field 2 per pair, in order |
| Messages.EntryRunEncoded | roachpb/internal_raft.pb.go:202-214 | the log entries are encoded as one field 3 per entry, in order |
| Messages.SnapshotDataFieldsEncoded | roachpb/internal_raft.pb.go:178-216 | snapshot data is encoded as the range descriptor, then the pairs, then the entries |
| Messages.KeyValuesApplied | roachpb/internal_raft.pb.go:703-733 | decoding a run of KV fields appends the pairs to the receiver's list in wire order, or fails if a timestamp is refused |
| Messages.EntriesApplied | roachpb/internal_raft.pb.go:734-764 | decoding a run of log-entry fields appends the entries in wire order, or fails if an entry is refused |
| Messages.SnapshotDataApplied | roachpb/internal_raft.pb.go:644-785 | applying snapshot data's fields merges the range descriptor and appends the pairs and entries |
| Messages.SnapshotDataRoundTrip | roachpb/internal_raft.pb.go:644-785 | unmarshalling the encoding of snapshot data merges it into the receiver, or fails with the first refusal |
| Messages.SnapshotDataDecodesEncoding | roachpb/internal_raft.pb.go:644-785 | into an empty receiver, unmarshalling accepted snapshot data's encoding gives that snapshot data |
| Raft.CopyBytes | roachpb/internal_raft.pb.go:237 | `copy` writes the payload at the offset and changes no other byte |
| Raft.PutVarintField | roachpb/internal_raft.pb.go:101-103 | writes a key byte and a varint, and no other byte |
| Raft.PutBytesField | roachpb/internal_raft.pb.go:104-111 | writes a key byte, the payload's size as a varint, and the payload, and no other byte |
| Raft.PutOptionalField | roachpb/internal_raft.pb.go:234-247 | writes a key/value pair's Key or Value field only when it is not nil |
| Raft.FramedKeys | roachpb/internal_raft.pb.go:234-252 | the literal key bytes of the key/value pair's MarshalTo are the keys of fields 1, 2 and 3 |
| Raft.KeyValueFramed | roachpb/internal_raft.pb.go:228-254 | a pair's encoding is the optional Key, the optional Value and the Timestamp, each framed by its key byte |
| Raft.CommandFramed | roachpb/internal_raft.pb.go:96-121 | a command's encoding is the RangeID varint and the two framed nested messages |
| Raft.SnapshotDataFramed | roachpb/internal_raft.pb.go:178-216 | snapshot data's encoding is the framed range descriptor, then the pairs, then the entries |
| Raft.PutKeyValue | roachpb/internal_raft.pb.go:228-254 | writes a pair's three fields in order, and no other byte |
| Raft.PutKeyValueField | roachpb/internal_raft.pb.go:189-200 | writes one KV element as key 0x12, the pair's size and the pair, and no other byte |
| Raft.PutKeyValues | roachpb/internal_raft.pb.go:189-201 | the KV loop writes the encoding of the whole list, and no other byte |
| Raft.PutEntries | roachpb/internal_raft.pb.go:202-214 | the LogEntries loop writes the encoding of every entry, and no other byte |
| Raft.PutSnapshotData | roachpb/internal_raft.pb.go:178-216 | writes the range descriptor, the pairs and the entries in order, and no other byte |
| Raft.RaftTruncatedState.constructor | roachpb/internal_raft.pb.go:36-41 | a new truncated state has index and term zero |
| Raft.RaftTruncatedState.Size | roachpb/internal_raft.pb.go:294-300 | `Size` is the length of the encoding |
| Raft.RaftTruncatedState.MarshalTo | roachpb/internal_raft.pb.go:133-145 | writes the encoding at the offset, changes no other byte, and returns its length |
| Raft.RaftTruncatedState.Marshal | roachpb/internal_raft.pb.go:123-131 | returns exactly the encoding |
| Raft.RaftTruncatedState.Unmarshal | roachpb/internal_raft.pb.go:487-574 | leaves the receiver as `DecodeTruncatedState` gives it, or returns that decoding's error |
| Raft.RaftTombstone.constructor | roachpb/internal_raft.pb.go:48-50 | a new tombstone has next replica id zero |
| Raft.RaftTombstone.Size | roachpb/internal_raft.pb.go:302-307 | `Size` is the length of the encoding |
| Raft.RaftTombstone.MarshalTo | roachpb/internal_raft.pb.go:157-166 | writes the encoding at the offset, changes no other byte, and returns its length |
| Raft.RaftTombstone.Marshal | roachpb/internal_raft.pb.go:147-155 | returns exactly the encoding |
| Raft.RaftTombstone.Unmarshal | roachpb/internal_raft.pb.go:575-643 | leaves the receiver as `DecodeTombstone` gives it, or returns that decoding's error |
| Raft.RaftCommand.constructor | roachpb/internal_raft.pb.go:23-27 | a new command has a zero RangeID and empty nested messages |
| Raft.RaftCommand.Size | roachpb/internal_raft.pb.go:283-292 | `Size` is the length of the encoding |
| Raft.RaftCommand.MarshalTo | roachpb/internal_raft.pb.go:96-121 | writes the encoding at the offset, changes no other byte, and returns its length |
| Raft.RaftCommand.Marshal | roachpb/internal_raft.pb.go:86-94 | returns exactly the encoding |
| Raft.RaftCommand.Unmarshal | roachpb/internal_raft.pb.go:358-486 | leaves the receiver as `DecodeCommand` gives it, or returns that decoding's error |
| Raft.RaftSnapshotDataKeyValue.constructor | roachpb/internal_raft.pb.go:69-73 | a new pair has nil Key and Value and an empty timestamp |
| Raft.RaftSnapshotDataKeyValue.FromValue | roachpb/internal_raft.pb.go:69-73 | a pair built from a value holds that value |
| Raft.RaftSnapshotDataKeyValue.Size | roachpb/internal_raft.pb.go:329-343 | `Size` is the length of the encoding |
| Raft.RaftSnapshotDataKeyValue.MarshalTo | roachpb/internal_raft.pb.go:228-254 | writes the encoding at the offset, changes no other byte, and returns its length |
| Raft.RaftSnapshotDataKeyValue.Marshal | roachpb/internal_raft.pb.go:218-226 | returns exactly the encoding |
| Raft.RaftSnapshotDataKeyValue.Unmarshal | roachpb/internal_raft.pb.go:786-927 | leaves the receiver as `DecodeKeyValue` gives it, or returns that decoding's error |
| Raft.RaftSnapshotData.constructor | roachpb/internal_raft.pb.go:58-63 | new snapshot data has an empty range descriptor and no pairs or entries |
| Raft.RaftSnapshotData.Size | roachpb/internal_raft.pb.go:309-327 | `Size` is the length of the encoding |
| Raft.RaftSnapshotData.MarshalTo | roachpb/internal_raft.pb.go:178-216 | writes the encoding at the offset, changes no other byte, and returns its length |
| Raft.RaftSnapshotData.Marshal | roachpb/internal_raft.pb.go:168-176 | returns exactly the encoding |
| Raft.RaftSnapshotData.Unmarshal | roachpb/internal_raft.pb.go:644-785 | leaves the receiver as `DecodeSnapshotData` gives it, or returns that decoding's error |
| Findings.AddInt64 | roachpb/internal_raft.pb.go:428 | Go's int addition is congruent to the exact sum modulo 2^64, equal to it when in range, and negative for two non-negative operands exactly when the sum passes 2^63 - 1 |
| Findings.PayloadEndAsWritten | roachpb/internal_raft.pb.go:425-432 | the length check as written panics exactly when a non-negative length pushes `iNdEx + msglen` past 2^63 - 1 |
| Findings.PayloadEndAgrees | roachpb/internal_raft.pb.go:425-432 | without wrap-around the check as written agrees with `PayloadEnd` |
| Findings.PayloadEndRefusesWrap | roachpb/internal_raft.pb.go:425-432 | where the check as written panics, `PayloadEnd` reports `UnexpectedEof` |
| Findings.CommandPayloadWraps | roachpb/internal_raft.pb.go:425-432 | on `PayloadWrapInput` the check as written panics, and the corrected decoding returns `UnexpectedEof` |
| Findings.SkipEndAsWritten | roachpb/internal_raft.pb.go:554-567 | the skip check as written panics exactly when a non-negative `skippy` pushes `iNdEx + skippy` past 2^63 - 1 |
| Findings.SkipEndAgrees | roachpb/internal_raft.pb.go:554-567 | without wrap-around the skip check as written agrees with `SkipEnd` |
| Findings.SkipEndRefusesWrap | roachpb/internal_raft.pb.go:554-567 | where the skip check as written panics, `SkipEnd` reports `UnexpectedEof` |
| Findings.TruncatedStateSkipWraps | roachpb/internal_raft.pb.go:554-567 | on `SkipWrapInput` the skip check as written panics, and the corrected decoding returns `UnexpectedEof` |
| Findings.BytesSkipAsWritten | roachpb/internal_raft.pb.go:982-986 | `iNdEx += length` as written returns a negative count exactly when a non-negative length pushes it past 2^63 - 1 |
| Findings.GroupStepAsWritten | roachpb/internal_raft.pb.go:987-1015 | the group loop as written panics exactly when `start + next` is negative |
| Findings.ValueLengthRefusesWrap | roachpb/internal_raft.pb.go:982-986 | where the length-delimited skip as written goes negative, `ValueLength` reports `InvalidLength` |
| Findings.TruncatedStateGroupWraps | roachpb/internal_raft.pb.go:987-1015 | on `GroupWrapInput` the inner skip as written goes negative and the group loop panics, and the corrected decoding returns `InvalidLength` |
| Findings.TruncatedStateGroupNextWraps | roachpb/internal_raft.pb.go:987-1015 | on `GroupNextWrapInput` the inner skip as written returns 2^63 - 1, which is not negative, then `start + next` wraps and the group loop panics; the corrected decoding returns `UnexpectedEof` |

## Left out

- `Reset`, `String`, `ProtoMessage` and the `init` registration: these are reflection and text formatting, with no effect on the codec.
- `sozInternalRaft`: no message of the file has a zig-zag field, so nothing calls it.
- The nested messages' own codecs: each is a parameter of the decoders, `nested`. Each nested message is its own encoding, holding bytes. A second occurrence of a nested field is merged by concatenation, which protocol buffers define to be the same as merging.
- A nested message's `Size` and `MarshalTo` are taken to be its byte length and a copy of its bytes. Their errors, which are passed up by `MarshalTo`, cannot happen in the model.
- The texts of the error values: the model has one constructor per error value, and keeps the field number and wire type as data.
- Raft.RaftTruncatedState.Unmarshal, Raft.RaftTombstone.Unmarshal, Raft.RaftCommand.Unmarshal, Raft.RaftSnapshotDataKeyValue.Unmarshal, Raft.RaftSnapshotData.Unmarshal: on an error the contract does not say what the receiver holds. Go leaves it partly updated; for example, a failed KV entry has already been appended.
- Raft.RaftCommand.MarshalTo, Raft.RaftSnapshotData.MarshalTo, Raft.RaftSnapshotDataKeyValue.MarshalTo, Raft.RaftTruncatedState.MarshalTo, Raft.RaftTombstone.MarshalTo: these require a buffer that holds the encoding. Go gives no error here and panics on an index out of range.
- Raft.RaftCommand.Size, Raft.RaftSnapshotDataKeyValue.Size, Raft.RaftSnapshotData.Size and the `Marshal`, `MarshalTo` and round-trip lemmas of those messages require an encoding of at most 2^63 - 1 bytes. The overflow of Go's `int` in `Size` beyond that is not modelled.
- Fields.FieldLength: case 1 and case 5 of `skipInternalRaft` move the cursor by 8 or 4 bytes without checking the data. The model does the same, and the caller's `iNdEx + skippy > l` check catches the overrun at top level. Inside a group, the next read's end-of-data check catches it.
- The main model adds cursor positions exactly. Go's 64-bit wrap-around of those sums is modelled separately in `Findings`.
- Varints.ReadVarint: Go ORs the 7-bit groups shifted into a `uint64`. The model adds them times powers of 128, which is the same number because the groups occupy disjoint bits. In the tenth byte only the lowest bit survives Go's shift by 63, so the model keeps only `data[i] % 2` there.
- The package's tests and the acceptance tests (`pkg/acceptance`) are not part of this model: they start clusters and talk over the network.

## Findings

| source | as written | input that shows it | evidently intended | confidence | as-written member | corrected member |
|---|---|---|---|---|---|---|
| roachpb/internal_raft.pb.go:428-432 | `postIndex := iNdEx + msglen` wraps past 2^63 - 1 to a negative int when `msglen` is large. `postIndex > l` is then false, and `data[iNdEx:postIndex]` panics. The same check appears at lines 458, 695, 725, 756, 837, 868 and 899. | `RaftCommand.Unmarshal` of `12 ff ff ff ff ff ff ff ff 7f`: field 2, a length-delimited field, of length 2^63 - 1 at offset 10 | return `io.ErrUnexpectedEOF` | not executed | Findings.CommandPayloadWraps | Fields.PayloadEnd |
| roachpb/internal_raft.pb.go:554-567 | `iNdEx + skippy` wraps negative when an unknown field claims nearly 2^63 bytes. `(iNdEx + skippy) > l` is then false, `iNdEx` becomes negative, and the next `data[iNdEx]` panics. The same check appears at lines 468-478, 625-635, 767-777 and 909-919. | `RaftTruncatedState.Unmarshal` of `08 00 1a f5 ff ff ff ff ff ff ff 7f`: field 1 is 0, then unknown field 3 of length 2^63 - 11, so `skippy` = 2^63 - 1 at offset 2 | return `io.ErrUnexpectedEOF` | not executed | Findings.TruncatedStateSkipWraps | Fields.SkipEnd |
| roachpb/internal_raft.pb.go:982-1013 | Inside a group, the nested `skipInternalRaft` of a length-delimited field returns the wrapped, negative `iNdEx + length`, because the `length < 0` check looks only at `length`. `iNdEx = start + next` then goes negative, and the group loop's `data[iNdEx]` panics. | `RaftTruncatedState.Unmarshal` of `1b 12 ff ff ff ff ff ff ff ff 7f`: a group, field 3, holding field 2 with length 2^63 - 1 | return `ErrInvalidLengthInternalRaft`, as the top-level `skippy < 0` check does | not executed | Findings.TruncatedStateGroupWraps | Fields.ValueLength |
| roachpb/internal_raft.pb.go:987-1015 | Inside a group, the nested `skipInternalRaft` of a length-delimited field can return 2^63 - 1, which has not wrapped. The group loop adds it with no check of its own: `iNdEx = start + next` wraps negative, and the loop's next `data[iNdEx]` panics. | `RaftTruncatedState.Unmarshal` of `1b 12 f5 ff ff ff ff ff ff ff 7f`: a group, field 3, holding field 2 with length 2^63 - 11, so `next` = 2^63 - 1 at `start` = 1 | return `io.ErrUnexpectedEOF`, since the group runs past the end of the data | not executed | Findings.TruncatedStateGroupNextWraps | Fields.GroupLength |
