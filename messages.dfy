/** The five messages of roachpb/internal_raft.pb.go as values: the bytes MarshalTo
    writes for each, what Unmarshal does with each of its known fields, and the
    properties that tie the two together.  A nested message whose codec lives elsewhere
    (ReplicaDescriptor, BatchRequest, RangeDescriptor, Timestamp, raftpb.Entry) is
    represented by its own encoding: its Size is the length of those bytes, its
    MarshalTo writes them, and its Unmarshal is the parameter `nested`.  A second
    occurrence of such a field merges into the first, which for encodings is
    concatenation. */
module Messages {
  import opened Wire
  import opened Varints
  import opened Fields

  /** The keys MarshalTo writes as literal bytes are the one-byte varints of the keys. */
  lemma LiteralKeys()
    ensures Varint(Key(1, 0)) == [0x08] && Varint(Key(2, 0)) == [0x10]
    ensures Varint(Key(1, 2)) == [0x0a] && Varint(Key(2, 2)) == [0x12] && Varint(Key(3, 2)) == [0x1a]
  {
  }

  // ===== RaftTruncatedState =====

  datatype TruncatedState = TruncatedState(index: U64, term: U64)

  const TruncatedStateSchema: Schema := map[1 := VarintField, 2 := VarintField]

  /** RaftTruncatedState.MarshalTo: Index as field 1, Term as field 2. */
  function EncodeTruncatedState(m: TruncatedState): seq<Byte>
  {
    KeyedVarint(1, m.index) + KeyedVarint(2, m.term)
  }

  /** The fields MarshalTo writes, as values. */
  function TruncatedStateFields(m: TruncatedState): (fs: seq<Field>)
    ensures Numbered(fs)
  {
    [VarintF(1, m.index), VarintF(2, m.term)]
  }

  lemma TruncatedStateFieldsEncoded(m: TruncatedState)
    ensures EncodeFields(TruncatedStateFields(m)) == EncodeTruncatedState(m)
  {
    var fs := TruncatedStateFields(m);
    assert fs[1..] == [fs[1]] && fs[1..][1..] == [];
    assert EncodeFields(fs[1..]) == EncodeField(fs[1]);
  }

  /** The `switch fieldNum` of RaftTruncatedState.Unmarshal: each field is reset and
      then set to the value read, so the last occurrence wins. */
  function ApplyTruncatedState(m: TruncatedState, fieldNum: I32, p: Payload): Result<TruncatedState>
  {
    match p
    case VarintValue(u) => if fieldNum == 1 then Ok(m.(index := u)) else Ok(m.(term := u))
    case _ => Ok(m)
  }

  /** RaftTruncatedState.Unmarshal into a receiver that holds `m`. */
  function DecodeTruncatedState(data: seq<Byte>, m: TruncatedState): Result<TruncatedState>
  {
    DecodeFrom(data, 0, m, TruncatedStateSchema, ApplyTruncatedState)
  }

  /** Handing the fields of `m` to the receiver sets both of its fields. */
  lemma TruncatedStateApplied(m0: TruncatedState, m: TruncatedState)
    ensures ApplyFields(m0, TruncatedStateFields(m), TruncatedStateSchema, ApplyTruncatedState) == Ok(m)
  {
    var fs := TruncatedStateFields(m);
    assert fs[1..] == [fs[1]] && fs[1..][1..] == [];
    ApplyKnown(m0, fs, TruncatedStateSchema, ApplyTruncatedState);
    ApplyKnown(m0.(index := m.index), fs[1..], TruncatedStateSchema, ApplyTruncatedState);
  }

  /** RaftTruncatedState.Size: a key byte and a varint per field. */
  lemma TruncatedStateSize(m: TruncatedState)
    ensures |EncodeTruncatedState(m)| == 2 + |Varint(m.index)| + |Varint(m.term)|
    ensures |EncodeTruncatedState(m)| <= 22
  {
    LiteralKeys();
    VarintAtMostTen(m.index);
    VarintAtMostTen(m.term);
  }

  /** Unmarshal of what MarshalTo wrote restores Index and Term, whatever the receiver held. */
  lemma TruncatedStateRoundTrip(m: TruncatedState, m0: TruncatedState)
    ensures DecodeTruncatedState(EncodeTruncatedState(m), m0) == Ok(m)
  {
    TruncatedStateSize(m);
    TruncatedStateFieldsEncoded(m);
    DecodeFields(m0, TruncatedStateSchema, ApplyTruncatedState, TruncatedStateFields(m));
    TruncatedStateApplied(m0, m);
  }

  /** Of two encodings one after the other, the second one's fields win. */
  lemma TruncatedStateLastWins(a: TruncatedState, b: TruncatedState, m0: TruncatedState)
    ensures DecodeTruncatedState(EncodeTruncatedState(a) + EncodeTruncatedState(b), m0) == Ok(b)
  {
    var fa, fb := TruncatedStateFields(a), TruncatedStateFields(b);
    TruncatedStateSize(a);
    TruncatedStateSize(b);
    TruncatedStateFieldsEncoded(a);
    TruncatedStateFieldsEncoded(b);
    EncodeFieldsAppend(fa, fb);
    DecodeFields(m0, TruncatedStateSchema, ApplyTruncatedState, fa + fb);
    ApplyFieldsAppend(m0, fa, fb, TruncatedStateSchema, ApplyTruncatedState);
    TruncatedStateApplied(m0, a);
    TruncatedStateApplied(a, b);
  }

  /** A field with a number other than 1 and 2 in front changes nothing. */
  lemma TruncatedStateSkipsUnknown(f: Field, m: TruncatedState, m0: TruncatedState)
    requires 2 < f.fieldNum < 0x8000_0000 && |EncodeField(f)| <= MAX_INT64 - 22
    ensures DecodeTruncatedState(EncodeField(f) + EncodeTruncatedState(m), m0) == Ok(m)
  {
    var fs := TruncatedStateFields(m);
    TruncatedStateSize(m);
    TruncatedStateFieldsEncoded(m);
    EncodeFieldsOne(f);
    EncodeFieldsAppend([f], fs);
    DecodeFields(m0, TruncatedStateSchema, ApplyTruncatedState, [f] + fs);
    ApplyFieldsCons(m0, f, fs, TruncatedStateSchema, ApplyTruncatedState);
    TruncatedStateApplied(m0, m);
  }

  // ===== RaftTombstone =====

  datatype Tombstone = Tombstone(nextReplicaID: I32)

  const TombstoneSchema: Schema := map[1 := VarintField]

  /** RaftTombstone.MarshalTo: NextReplicaID as field 1, sign-extended to 64 bits. */
  function EncodeTombstone(m: Tombstone): seq<Byte>
  {
    KeyedVarint(1, U64OfI32(m.nextReplicaID))
  }

  function TombstoneFields(m: Tombstone): (fs: seq<Field>)
    ensures Numbered(fs)
  {
    [VarintF(1, U64OfI32(m.nextReplicaID))]
  }

  /** RaftTombstone.Unmarshal's field 1: the int32 accumulator keeps the low 32 bits. */
  function ApplyTombstone(m: Tombstone, fieldNum: I32, p: Payload): Result<Tombstone>
  {
    match p
    case VarintValue(u) => Ok(m.(nextReplicaID := I32Of(u)))
    case _ => Ok(m)
  }

  function DecodeTombstone(data: seq<Byte>, m: Tombstone): Result<Tombstone>
  {
    DecodeFrom(data, 0, m, TombstoneSchema, ApplyTombstone)
  }

  /** RaftTombstone.Size is 1 + sov(NextReplicaID), which is eleven bytes for a
      negative ID, since it is sign-extended to 64 bits first. */
  lemma TombstoneSize(m: Tombstone)
    ensures |EncodeTombstone(m)| == 1 + |Varint(U64OfI32(m.nextReplicaID))|
    ensures m.nextReplicaID < 0 ==> |EncodeTombstone(m)| == 11
    ensures 0 <= m.nextReplicaID < 0x80 ==> |EncodeTombstone(m)| == 2
  {
    LiteralKeys();
    var v := U64OfI32(m.nextReplicaID);
    VarintAtMostTen(v);
    if m.nextReplicaID < 0 {
      VarintLength(v, 9);
      assert Pow(0x80, 9) == TWO_63;
    }
  }

  /** Unmarshal of a varint `v` as field 1 keeps its low 32 bits, read as signed. */
  lemma TombstoneTruncates(v: U64, m0: Tombstone)
    ensures DecodeTombstone(KeyedVarint(1, v), m0) == Ok(Tombstone(I32Of(v)))
  {
    var fs := [VarintF(1, v)];
    assert fs[1..] == [];
    assert EncodeFields(fs) == KeyedVarint(1, v);
    assert ApplyFields(m0, fs, TombstoneSchema, ApplyTombstone) == Ok(Tombstone(I32Of(v)));
    assert |EncodeFields(fs)| <= MAX_INT64 by {
      LiteralKeys();
      VarintAtMostTen(v);
    }
    DecodeFields(m0, TombstoneSchema, ApplyTombstone, fs);
  }

  /** Unmarshal of what MarshalTo wrote recovers NextReplicaID, negative ones included. */
  lemma TombstoneRoundTrip(m: Tombstone, m0: Tombstone)
    ensures DecodeTombstone(EncodeTombstone(m), m0) == Ok(m)
  {
    I32RoundTrip(m.nextReplicaID);
    TombstoneTruncates(U64OfI32(m.nextReplicaID), m0);
  }

  // ===== RaftCommand =====

  datatype Command = Command(rangeID: I64, originReplica: seq<Byte>, cmd: seq<Byte>)

  /** A receiver that `Reset` or `RaftCommand{}` gives. */
  const EmptyCommand := Command(0, [], [])

  const CommandSchema: Schema := map[1 := VarintField, 2 := BytesField, 3 := BytesField]

  /** RaftCommand.MarshalTo: RangeID, then OriginReplica and Cmd as nested messages. */
  function EncodeCommand(m: Command): seq<Byte>
  {
    KeyedVarint(1, U64OfI64(m.rangeID)) + KeyedBytes(2, m.originReplica) + KeyedBytes(3, m.cmd)
  }

  function CommandFields(m: Command): (fs: seq<Field>)
    ensures Numbered(fs)
  {
    [VarintF(1, U64OfI64(m.rangeID)), BytesF(2, m.originReplica), BytesF(3, m.cmd)]
  }

  lemma CommandFieldsEncoded(m: Command)
    ensures EncodeFields(CommandFields(m)) == EncodeCommand(m)
  {
    var fs := CommandFields(m);
    assert fs[1..] == [fs[1], fs[2]] && fs[1..][1..] == [fs[2]] && fs[1..][1..][1..] == [];
    assert EncodeFields(fs[1..][1..]) == EncodeField(fs[2]);
    assert EncodeFields(fs[1..]) == EncodeField(fs[1]) + EncodeField(fs[2]);
  }

  /** The `switch fieldNum` of RaftCommand.Unmarshal: RangeID is replaced, a nested
      message is merged unless its own Unmarshal refuses the payload. */
  function ApplyCommand(nested: NestedCodec, m: Command, fieldNum: I32, p: Payload): Result<Command>
  {
    match p
    case VarintValue(u) => Ok(m.(rangeID := I64Of(u)))
    case BytesValue(b) =>
      if fieldNum == 2 then
        if nested(ReplicaDescriptor, b) then Ok(m.(originReplica := m.originReplica + b))
        else Err(NestedFailure(ReplicaDescriptor))
      else
        if nested(BatchRequest, b) then Ok(m.(cmd := m.cmd + b))
        else Err(NestedFailure(BatchRequest))
    case Unknown => Ok(m)
  }

  function CommandApply(nested: NestedCodec): (Command, I32, Payload) -> Result<Command>
  {
    (m: Command, fieldNum: I32, p: Payload) => ApplyCommand(nested, m, fieldNum, p)
  }

  /** RaftCommand.Unmarshal into a receiver that holds `m`. */
  function DecodeCommand(nested: NestedCodec, data: seq<Byte>, m: Command): Result<Command>
  {
    DecodeFrom(data, 0, m, CommandSchema, CommandApply(nested))
  }

  /** What decoding `m` into a receiver holding `into` leaves: RangeID replaced, the
      nested messages merged. */
  function MergeCommand(into: Command, m: Command): Command
  {
    Command(m.rangeID, into.originReplica + m.originReplica, into.cmd + m.cmd)
  }

  /** Whether both nested Unmarshals accept the nested messages of `m`. */
  predicate CommandAccepted(nested: NestedCodec, m: Command)
  {
    nested(ReplicaDescriptor, m.originReplica) && nested(BatchRequest, m.cmd)
  }

  /** The first nested Unmarshal that refuses its part of `m`. */
  function CommandRefusal(nested: NestedCodec, m: Command): DecodeError
  {
    if !nested(ReplicaDescriptor, m.originReplica) then NestedFailure(ReplicaDescriptor)
    else NestedFailure(BatchRequest)
  }

  /** Handing the fields of `m` to a receiver holding `m0` merges `m` into it. */
  lemma CommandApplied(nested: NestedCodec, m0: Command, m: Command)
    ensures ApplyFields(m0, CommandFields(m), CommandSchema, CommandApply(nested)) ==
      if CommandAccepted(nested, m) then Ok(MergeCommand(m0, m)) else Err(CommandRefusal(nested, m))
  {
    var fs := CommandFields(m);
    var apply := CommandApply(nested);
    assert fs[1..] == [fs[1], fs[2]] && fs[1..][1..] == [fs[2]] && fs[1..][1..][1..] == [];
    I64RoundTrip(m.rangeID);
    var m1 := m0.(rangeID := m.rangeID);
    ApplyKnown(m0, fs, CommandSchema, apply);
    ApplyKnown(m1, fs[1..], CommandSchema, apply);
    if nested(ReplicaDescriptor, m.originReplica) {
      var m2 := m1.(originReplica := m0.originReplica + m.originReplica);
      ApplyKnown(m2, fs[1..][1..], CommandSchema, apply);
    }
  }

  /** RaftCommand.Size: per field a key byte, and per nested message its length's
      varint and its length. */
  lemma CommandSize(m: Command)
    ensures |EncodeCommand(m)| ==
      1 + |Varint(U64OfI64(m.rangeID))| +
      1 + |m.originReplica| + |Varint(|m.originReplica|)| +
      1 + |m.cmd| + |Varint(|m.cmd|)|
  {
    LiteralKeys();
  }

  /** Unmarshal of what MarshalTo wrote: the fields come back merged into the receiver
      when both nested codecs accept their payloads, otherwise the first refusal. */
  lemma CommandRoundTrip(nested: NestedCodec, m: Command, m0: Command)
    requires |EncodeCommand(m)| <= MAX_INT64
    ensures DecodeCommand(nested, EncodeCommand(m), m0) ==
      if CommandAccepted(nested, m) then Ok(MergeCommand(m0, m)) else Err(CommandRefusal(nested, m))
  {
    CommandFieldsEncoded(m);
    DecodeFields(m0, CommandSchema, CommandApply(nested), CommandFields(m));
    CommandApplied(nested, m0, m);
  }

  /** Into a fresh receiver, Unmarshal of MarshalTo's bytes gives the command back. */
  lemma CommandDecodesEncoding(nested: NestedCodec, m: Command)
    requires |EncodeCommand(m)| <= MAX_INT64 && CommandAccepted(nested, m)
    ensures DecodeCommand(nested, EncodeCommand(m), EmptyCommand) == Ok(m)
  {
    CommandRoundTrip(nested, m, EmptyCommand);
    assert MergeCommand(EmptyCommand, m) == m;
  }

  /** Two encodings one after the other: the last RangeID wins, the nested messages merge. */
  lemma CommandLastWins(nested: NestedCodec, a: Command, b: Command)
    requires |EncodeCommand(a) + EncodeCommand(b)| <= MAX_INT64
    requires CommandAccepted(nested, a) && CommandAccepted(nested, b)
    ensures DecodeCommand(nested, EncodeCommand(a) + EncodeCommand(b), EmptyCommand) ==
      Ok(Command(b.rangeID, a.originReplica + b.originReplica, a.cmd + b.cmd))
  {
    var fa, fb := CommandFields(a), CommandFields(b);
    var apply := CommandApply(nested);
    CommandFieldsEncoded(a);
    CommandFieldsEncoded(b);
    EncodeFieldsAppend(fa, fb);
    DecodeFields(EmptyCommand, CommandSchema, apply, fa + fb);
    ApplyFieldsAppend(EmptyCommand, fa, fb, CommandSchema, apply);
    CommandApplied(nested, EmptyCommand, a);
    assert MergeCommand(EmptyCommand, a) == a;
    CommandApplied(nested, a, b);
  }

  // ===== RaftSnapshotData_KeyValue =====

  /** Key and Value are `[]byte` that may be nil; Timestamp is a nested message. */
  datatype KeyValue = KeyValue(key: Option<seq<Byte>>, value: Option<seq<Byte>>, timestamp: seq<Byte>)

  const EmptyKeyValue := KeyValue(None, None, [])

  const KeyValueSchema: Schema := map[1 := BytesField, 2 := BytesField, 3 := BytesField]

  /** A `[]byte` field that MarshalTo writes only when it is not nil. */
  function OptionalBytes(fieldNum: nat, b: Option<seq<Byte>>): seq<Byte>
    requires 0 < fieldNum < 0x8000_0000
  {
    if b.Some? then KeyedBytes(fieldNum, b.value) else []
  }

  /** RaftSnapshotData_KeyValue.MarshalTo: Key and Value when not nil, then Timestamp
      always. */
  function EncodeKeyValue(m: KeyValue): seq<Byte>
  {
    OptionalBytes(1, m.key) + OptionalBytes(2, m.value) + KeyedBytes(3, m.timestamp)
  }

  function OptionalField(fieldNum: nat, b: Option<seq<Byte>>): (fs: seq<Field>)
    requires 0 < fieldNum < 0x8000_0000
    ensures Numbered(fs) && |fs| <= 1
  {
    if b.Some? then [BytesF(fieldNum, b.value)] else []
  }

  function KeyValueFields(m: KeyValue): (fs: seq<Field>)
    ensures Numbered(fs)
  {
    var k, v, t := OptionalField(1, m.key), OptionalField(2, m.value), [BytesF(3, m.timestamp)];
    EncodeFieldsAppend(k, v);
    EncodeFieldsAppend(k + v, t);
    k + v + t
  }

  lemma KeyValueFieldsEncoded(m: KeyValue)
    ensures EncodeFields(KeyValueFields(m)) == EncodeKeyValue(m)
  {
    var k, v, t := OptionalField(1, m.key), OptionalField(2, m.value), [BytesF(3, m.timestamp)];
    if m.key.Some? {
      EncodeFieldsOne(k[0]);
    }
    if m.value.Some? {
      EncodeFieldsOne(v[0]);
    }
    EncodeFieldsOne(BytesF(3, m.timestamp));
    EncodeFieldsAppend(k, v);
    EncodeFieldsAppend(k + v, t);
  }

  /** The `switch fieldNum` of RaftSnapshotData_KeyValue.Unmarshal: Key and Value are
      replaced by a copy of the payload, which is an empty slice rather than nil when the
      payload is empty; Timestamp is merged unless its Unmarshal refuses the payload. */
  function ApplyKeyValue(nested: NestedCodec, m: KeyValue, fieldNum: I32, p: Payload): Result<KeyValue>
  {
    match p
    case BytesValue(b) =>
      if fieldNum == 1 then Ok(m.(key := Some(b)))
      else if fieldNum == 2 then Ok(m.(value := Some(b)))
      else if nested(Timestamp, b) then Ok(m.(timestamp := m.timestamp + b))
      else Err(NestedFailure(Timestamp))
    case _ => Ok(m)
  }

  function KeyValueApply(nested: NestedCodec): (KeyValue, I32, Payload) -> Result<KeyValue>
  {
    (m: KeyValue, fieldNum: I32, p: Payload) => ApplyKeyValue(nested, m, fieldNum, p)
  }

  /** RaftSnapshotData_KeyValue.Unmarshal into a receiver that holds `m`. */
  function DecodeKeyValue(nested: NestedCodec, data: seq<Byte>, m: KeyValue): Result<KeyValue>
  {
    DecodeFrom(data, 0, m, KeyValueSchema, KeyValueApply(nested))
  }

  /** What decoding `m` into a receiver holding `into` leaves: Key and Value replaced
      where `m` has them, Timestamp merged. */
  function MergeKeyValue(into: KeyValue, m: KeyValue): KeyValue
  {
    KeyValue(if m.key.Some? then m.key else into.key,
             if m.value.Some? then m.value else into.value,
             into.timestamp + m.timestamp)
  }

  /** Handing an optional field to the receiver: replaced when present. */
  lemma OptionalApplied(nested: NestedCodec, m0: KeyValue, fieldNum: nat, b: Option<seq<Byte>>)
    requires fieldNum == 1 || fieldNum == 2
    ensures ApplyFields(m0, OptionalField(fieldNum, b), KeyValueSchema, KeyValueApply(nested)) ==
      Ok(if b.None? then m0 else if fieldNum == 1 then m0.(key := b) else m0.(value := b))
  {
    if b.Some? {
      ApplyKnown(m0, OptionalField(fieldNum, b), KeyValueSchema, KeyValueApply(nested));
    }
  }

  /** Handing the fields of `m` to a receiver holding `m0` merges `m` into it. */
  lemma KeyValueApplied(nested: NestedCodec, m0: KeyValue, m: KeyValue)
    ensures ApplyFields(m0, KeyValueFields(m), KeyValueSchema, KeyValueApply(nested)) ==
      if nested(Timestamp, m.timestamp) then Ok(MergeKeyValue(m0, m)) else Err(NestedFailure(Timestamp))
  {
    var apply := KeyValueApply(nested);
    var k, v, t := OptionalField(1, m.key), OptionalField(2, m.value), [BytesF(3, m.timestamp)];
    assert KeyValueFields(m) == k + v + t;
    ApplyFieldsAppend3(m0, k, v, t, KeyValueSchema, apply);
    OptionalApplied(nested, m0, 1, m.key);
    var m1 := if m.key.None? then m0 else m0.(key := m.key);
    OptionalApplied(nested, m1, 2, m.value);
    var m2 := if m.value.None? then m1 else m1.(value := m.value);
    ApplyOne(m2, BytesF(3, m.timestamp), KeyValueSchema, apply);
  }

  /** RaftSnapshotData_KeyValue.Size: per present field a key byte, the length's varint
      and the length. */
  lemma KeyValueSize(m: KeyValue)
    ensures |EncodeKeyValue(m)| ==
      (if m.key.Some? then 1 + |m.key.value| + |Varint(|m.key.value|)| else 0) +
      (if m.value.Some? then 1 + |m.value.value| + |Varint(|m.value.value|)| else 0) +
      1 + |m.timestamp| + |Varint(|m.timestamp|)|
  {
    LiteralKeys();
  }

  /** A nil Key or Value is left out of the encoding; an empty one is written as a field
      of length zero. */
  lemma KeyValueNilOmitted(m: KeyValue)
    ensures m.key == None && m.value == None ==> EncodeKeyValue(m) == KeyedBytes(3, m.timestamp)
    ensures m.key == Some([]) ==> EncodeKeyValue(m)[..2] == [0x0a, 0x00]
  {
    LiteralKeys();
    if m.key == Some([]) {
      assert Varint(0) == [0x00];
    }
  }

  /** Unmarshal of what MarshalTo wrote: Key and Value come back when they were set,
      present-but-empty ones included, and Timestamp is merged, unless its codec refuses
      the payload. */
  lemma KeyValueRoundTrip(nested: NestedCodec, m: KeyValue, m0: KeyValue)
    requires |EncodeKeyValue(m)| <= MAX_INT64
    ensures DecodeKeyValue(nested, EncodeKeyValue(m), m0) ==
      if nested(Timestamp, m.timestamp) then Ok(MergeKeyValue(m0, m)) else Err(NestedFailure(Timestamp))
  {
    KeyValueFieldsEncoded(m);
    DecodeFields(m0, KeyValueSchema, KeyValueApply(nested), KeyValueFields(m));
    KeyValueApplied(nested, m0, m);
  }

  /** Into a fresh receiver, Unmarshal of MarshalTo's bytes gives the pair back. */
  lemma KeyValueDecodesEncoding(nested: NestedCodec, m: KeyValue)
    requires |EncodeKeyValue(m)| <= MAX_INT64
    ensures DecodeKeyValue(nested, EncodeKeyValue(m), EmptyKeyValue) ==
      if nested(Timestamp, m.timestamp) then Ok(m) else Err(NestedFailure(Timestamp))
  {
    KeyValueRoundTrip(nested, m, EmptyKeyValue);
    assert MergeKeyValue(EmptyKeyValue, m) == m;
  }

  // ===== RaftSnapshotData =====

  /** RangeDescriptor is a nested message; KV and LogEntries are repeated fields. */
  datatype SnapshotData = SnapshotData(rangeDescriptor: seq<Byte>, kv: seq<KeyValue>, logEntries: seq<seq<Byte>>)

  const EmptySnapshotData := SnapshotData([], [], [])

  const SnapshotDataSchema: Schema := map[1 := BytesField, 2 := BytesField, 3 := BytesField]

  /** The loop of RaftSnapshotData.MarshalTo over KV: each pair as a field 2. */
  function EncodeKeyValues(kvs: seq<KeyValue>): seq<Byte>
    decreases |kvs|
  {
    if |kvs| == 0 then [] else KeyedBytes(2, EncodeKeyValue(kvs[0])) + EncodeKeyValues(kvs[1..])
  }

  /** The loop of RaftSnapshotData.MarshalTo over LogEntries: each entry as a field 3. */
  function EncodeEntries(es: seq<seq<Byte>>): seq<Byte>
    decreases |es|
  {
    if |es| == 0 then [] else KeyedBytes(3, es[0]) + EncodeEntries(es[1..])
  }

  /** The pairs of `a + b` are those of `a`, then those of `b`. */
  lemma {:induction false} KeyValuesAppend(a: seq<KeyValue>, b: seq<KeyValue>)
    ensures EncodeKeyValues(a + b) == EncodeKeyValues(a) + EncodeKeyValues(b)
    decreases |a|
  {
    if |a| == 0 {
      assert a + b == b;
    } else {
      assert (a + b)[1..] == a[1..] + b;
      KeyValuesAppend(a[1..], b);
    }
  }

  /** The pairs before the `k + 1`st: those before the `k`th, then the `k`th. */
  lemma KeyValuesUpTo(kvs: seq<KeyValue>, k: nat)
    requires k < |kvs|
    ensures EncodeKeyValues(kvs[..k + 1]) == EncodeKeyValues(kvs[..k]) + KeyedBytes(2, EncodeKeyValue(kvs[k]))
    ensures |EncodeKeyValues(kvs[..k + 1])| <= |EncodeKeyValues(kvs)|
  {
    assert kvs[..k + 1] == kvs[..k] + [kvs[k]];
    KeyValuesAppend(kvs[..k], [kvs[k]]);
    assert [kvs[k]][1..] == [];
    assert kvs == kvs[..k + 1] + kvs[k + 1..];
    KeyValuesAppend(kvs[..k + 1], kvs[k + 1..]);
  }

  /** The pairs from the `k`th on: the `k`th, then the rest. */
  lemma KeyValuesFrom(kvs: seq<KeyValue>, k: nat)
    requires k < |kvs|
    ensures EncodeKeyValues(kvs[k..]) == KeyedBytes(2, EncodeKeyValue(kvs[k])) + EncodeKeyValues(kvs[k + 1..])
  {
    assert kvs[k..][1..] == kvs[k + 1..];
  }

  /** The entries from the `k`th on: the `k`th, then the rest. */
  lemma EntriesFrom(es: seq<seq<Byte>>, k: nat)
    requires k < |es|
    ensures EncodeEntries(es[k..]) == KeyedBytes(3, es[k]) + EncodeEntries(es[k + 1..])
  {
    assert es[k..][1..] == es[k + 1..];
  }

  /** RaftSnapshotData.MarshalTo: RangeDescriptor, then every pair, then every entry. */
  function EncodeSnapshotData(m: SnapshotData): seq<Byte>
  {
    KeyedBytes(1, m.rangeDescriptor) + EncodeKeyValues(m.kv) + EncodeEntries(m.logEntries)
  }

  function KeyValueRun(kvs: seq<KeyValue>): (fs: seq<Field>)
    ensures Numbered(fs) && |fs| == |kvs|
    decreases |kvs|
  {
    if |kvs| == 0 then [] else [BytesF(2, EncodeKeyValue(kvs[0]))] + KeyValueRun(kvs[1..])
  }

  function EntryRun(es: seq<seq<Byte>>): (fs: seq<Field>)
    ensures Numbered(fs) && |fs| == |es|
    decreases |es|
  {
    if |es| == 0 then [] else [BytesF(3, es[0])] + EntryRun(es[1..])
  }

  function SnapshotDataFields(m: SnapshotData): (fs: seq<Field>)
    ensures Numbered(fs)
  {
    var d, k, e := [BytesF(1, m.rangeDescriptor)], KeyValueRun(m.kv), EntryRun(m.logEntries);
    EncodeFieldsAppend(d, k);
    EncodeFieldsAppend(d + k, e);
    d + k + e
  }

  lemma {:induction false} KeyValueRunEncoded(kvs: seq<KeyValue>)
    ensures EncodeFields(KeyValueRun(kvs)) == EncodeKeyValues(kvs)
    decreases |kvs|
  {
    if |kvs| > 0 {
      var f := BytesF(2, EncodeKeyValue(kvs[0]));
      KeyValueRunEncoded(kvs[1..]);
      EncodeFieldsOne(f);
      EncodeFieldsAppend([f], KeyValueRun(kvs[1..]));
    }
  }

  lemma {:induction false} EntryRunEncoded(es: seq<seq<Byte>>)
    ensures EncodeFields(EntryRun(es)) == EncodeEntries(es)
    decreases |es|
  {
    if |es| > 0 {
      var f := BytesF(3, es[0]);
      EntryRunEncoded(es[1..]);
      EncodeFieldsOne(f);
      EncodeFieldsAppend([f], EntryRun(es[1..]));
    }
  }

  lemma SnapshotDataFieldsEncoded(m: SnapshotData)
    ensures EncodeFields(SnapshotDataFields(m)) == EncodeSnapshotData(m)
  {
    var d, k, e := [BytesF(1, m.rangeDescriptor)], KeyValueRun(m.kv), EntryRun(m.logEntries);
    EncodeFieldsOne(BytesF(1, m.rangeDescriptor));
    KeyValueRunEncoded(m.kv);
    EntryRunEncoded(m.logEntries);
    EncodeFieldsAppend(d, k);
    EncodeFieldsAppend(d + k, e);
  }

  /** The `switch fieldNum` of RaftSnapshotData.Unmarshal: RangeDescriptor is merged;
      a KV payload is decoded into a fresh pair that is appended; a LogEntries payload
      is appended once raftpb.Entry's Unmarshal accepts it. */
  function ApplySnapshotData(nested: NestedCodec, m: SnapshotData, fieldNum: I32, p: Payload): Result<SnapshotData>
  {
    match p
    case BytesValue(b) =>
      if fieldNum == 1 then
        if nested(RangeDescriptor, b) then Ok(m.(rangeDescriptor := m.rangeDescriptor + b))
        else Err(NestedFailure(RangeDescriptor))
      else if fieldNum == 2 then
        var r := DecodeKeyValue(nested, b, EmptyKeyValue);
        if r.Err? then Err(r.error) else Ok(m.(kv := m.kv + [r.value]))
      else
        if nested(RaftEntry, b) then Ok(m.(logEntries := m.logEntries + [b]))
        else Err(NestedFailure(RaftEntry))
    case _ => Ok(m)
  }

  function SnapshotDataApply(nested: NestedCodec): (SnapshotData, I32, Payload) -> Result<SnapshotData>
  {
    (m: SnapshotData, fieldNum: I32, p: Payload) => ApplySnapshotData(nested, m, fieldNum, p)
  }

  /** RaftSnapshotData.Unmarshal into a receiver that holds `m`. */
  function DecodeSnapshotData(nested: NestedCodec, data: seq<Byte>, m: SnapshotData): Result<SnapshotData>
  {
    DecodeFrom(data, 0, m, SnapshotDataSchema, SnapshotDataApply(nested))
  }

  /** What decoding `m` into a receiver holding `into` leaves: RangeDescriptor merged,
      the pairs and the entries of `m` appended. */
  function MergeSnapshotData(into: SnapshotData, m: SnapshotData): SnapshotData
  {
    SnapshotData(into.rangeDescriptor + m.rangeDescriptor, into.kv + m.kv, into.logEntries + m.logEntries)
  }

  predicate TimestampsAccepted(nested: NestedCodec, kvs: seq<KeyValue>)
  {
    forall i :: 0 <= i < |kvs| ==> nested(Timestamp, kvs[i].timestamp)
  }

  predicate EntriesAccepted(nested: NestedCodec, es: seq<seq<Byte>>)
  {
    forall i :: 0 <= i < |es| ==> nested(RaftEntry, es[i])
  }

  /** Whether every nested Unmarshal accepts its part of `m`. */
  predicate SnapshotDataAccepted(nested: NestedCodec, m: SnapshotData)
  {
    nested(RangeDescriptor, m.rangeDescriptor) && TimestampsAccepted(nested, m.kv) &&
    EntriesAccepted(nested, m.logEntries)
  }

  /** The first nested Unmarshal, in the order of the encoding, that refuses its part of `m`. */
  function SnapshotDataRefusal(nested: NestedCodec, m: SnapshotData): DecodeError
  {
    if !nested(RangeDescriptor, m.rangeDescriptor) then NestedFailure(RangeDescriptor)
    else if !TimestampsAccepted(nested, m.kv) then NestedFailure(Timestamp)
    else NestedFailure(RaftEntry)
  }

  lemma TimestampsAcceptedCons(nested: NestedCodec, kvs: seq<KeyValue>)
    requires |kvs| > 0
    ensures TimestampsAccepted(nested, kvs) <==>
      nested(Timestamp, kvs[0].timestamp) && TimestampsAccepted(nested, kvs[1..])
  {
    assert forall i :: 0 < i < |kvs| ==> kvs[i] == kvs[1..][i - 1];
  }

  lemma EntriesAcceptedCons(nested: NestedCodec, es: seq<seq<Byte>>)
    requires |es| > 0
    ensures EntriesAccepted(nested, es) <==> nested(RaftEntry, es[0]) && EntriesAccepted(nested, es[1..])
  {
    assert forall i :: 0 < i < |es| ==> es[i] == es[1..][i - 1];
  }

  /** Handing the first encoded pair of `kvs` to the receiver appends it. */
  lemma FirstKeyValueApplied(nested: NestedCodec, m0: SnapshotData, kvs: seq<KeyValue>)
    requires |kvs| > 0 && |EncodeKeyValues(kvs)| <= MAX_INT64
    ensures |EncodeKeyValues(kvs[1..])| <= |EncodeKeyValues(kvs)|
    ensures ApplyFields(m0, KeyValueRun(kvs), SnapshotDataSchema, SnapshotDataApply(nested)) ==
      if nested(Timestamp, kvs[0].timestamp)
      then ApplyFields(m0.(kv := m0.kv + [kvs[0]]), KeyValueRun(kvs[1..]), SnapshotDataSchema, SnapshotDataApply(nested))
      else Err(NestedFailure(Timestamp))
  {
    var fs := KeyValueRun(kvs);
    assert fs[1..] == KeyValueRun(kvs[1..]);
    KeyValueDecodesEncoding(nested, kvs[0]);
    ApplyKnown(m0, fs, SnapshotDataSchema, SnapshotDataApply(nested));
  }

  /** Handing the encoded pairs `kvs` to the receiver appends them in order. */
  lemma {:induction false} KeyValuesApplied(nested: NestedCodec, m0: SnapshotData, kvs: seq<KeyValue>)
    requires |EncodeKeyValues(kvs)| <= MAX_INT64
    ensures ApplyFields(m0, KeyValueRun(kvs), SnapshotDataSchema, SnapshotDataApply(nested)) ==
      if TimestampsAccepted(nested, kvs) then Ok(m0.(kv := m0.kv + kvs)) else Err(NestedFailure(Timestamp))
    decreases |kvs|
  {
    if |kvs| == 0 {
      assert m0.kv + kvs == m0.kv;
    } else {
      FirstKeyValueApplied(nested, m0, kvs);
      TimestampsAcceptedCons(nested, kvs);
      if nested(Timestamp, kvs[0].timestamp) {
        var m1 := m0.(kv := m0.kv + [kvs[0]]);
        KeyValuesApplied(nested, m1, kvs[1..]);
        AppendHead(m0.kv, kvs);
      }
    }
  }

  /** Handing the first encoded entry of `es` to the receiver appends it. */
  lemma FirstEntryApplied(nested: NestedCodec, m0: SnapshotData, es: seq<seq<Byte>>)
    requires |es| > 0
    ensures ApplyFields(m0, EntryRun(es), SnapshotDataSchema, SnapshotDataApply(nested)) ==
      if nested(RaftEntry, es[0])
      then ApplyFields(m0.(logEntries := m0.logEntries + [es[0]]), EntryRun(es[1..]), SnapshotDataSchema, SnapshotDataApply(nested))
      else Err(NestedFailure(RaftEntry))
  {
    var fs := EntryRun(es);
    assert fs[1..] == EntryRun(es[1..]);
    ApplyKnown(m0, fs, SnapshotDataSchema, SnapshotDataApply(nested));
  }

  /** Handing the encoded entries `es` to the receiver appends them in order. */
  lemma {:induction false} EntriesApplied(nested: NestedCodec, m0: SnapshotData, es: seq<seq<Byte>>)
    ensures ApplyFields(m0, EntryRun(es), SnapshotDataSchema, SnapshotDataApply(nested)) ==
      if EntriesAccepted(nested, es) then Ok(m0.(logEntries := m0.logEntries + es)) else Err(NestedFailure(RaftEntry))
    decreases |es|
  {
    if |es| == 0 {
      assert m0.logEntries + es == m0.logEntries;
    } else {
      FirstEntryApplied(nested, m0, es);
      EntriesAcceptedCons(nested, es);
      if nested(RaftEntry, es[0]) {
        var m1 := m0.(logEntries := m0.logEntries + [es[0]]);
        EntriesApplied(nested, m1, es[1..]);
        AppendHead(m0.logEntries, es);
      }
    }
  }

  /** Handing the fields of `m` to a receiver holding `m0` merges `m` into it. */
  lemma SnapshotDataApplied(nested: NestedCodec, m0: SnapshotData, m: SnapshotData)
    requires |EncodeKeyValues(m.kv)| <= MAX_INT64
    ensures ApplyFields(m0, SnapshotDataFields(m), SnapshotDataSchema, SnapshotDataApply(nested)) ==
      if SnapshotDataAccepted(nested, m) then Ok(MergeSnapshotData(m0, m)) else Err(SnapshotDataRefusal(nested, m))
  {
    var apply := SnapshotDataApply(nested);
    var d, k, e := [BytesF(1, m.rangeDescriptor)], KeyValueRun(m.kv), EntryRun(m.logEntries);
    assert SnapshotDataFields(m) == d + k + e;
    ApplyOne(m0, BytesF(1, m.rangeDescriptor), SnapshotDataSchema, apply);
    ApplyFieldsAppend3(m0, d, k, e, SnapshotDataSchema, apply);
    if nested(RangeDescriptor, m.rangeDescriptor) {
      var m1 := m0.(rangeDescriptor := m0.rangeDescriptor + m.rangeDescriptor);
      KeyValuesApplied(nested, m1, m.kv);
      if TimestampsAccepted(nested, m.kv) {
        EntriesApplied(nested, m1.(kv := m1.kv + m.kv), m.logEntries);
      }
    }
  }

  /** Unmarshal of what MarshalTo wrote: RangeDescriptor merged, the pairs and the
      entries appended to those the receiver held, unless a nested codec refuses. */
  lemma SnapshotDataRoundTrip(nested: NestedCodec, m: SnapshotData, m0: SnapshotData)
    requires |EncodeSnapshotData(m)| <= MAX_INT64
    ensures DecodeSnapshotData(nested, EncodeSnapshotData(m), m0) ==
      if SnapshotDataAccepted(nested, m) then Ok(MergeSnapshotData(m0, m)) else Err(SnapshotDataRefusal(nested, m))
  {
    SnapshotDataFieldsEncoded(m);
    DecodeFields(m0, SnapshotDataSchema, SnapshotDataApply(nested), SnapshotDataFields(m));
    SnapshotDataApplied(nested, m0, m);
  }

  /** Into a fresh receiver, Unmarshal of MarshalTo's bytes gives the snapshot back. */
  lemma SnapshotDataDecodesEncoding(nested: NestedCodec, m: SnapshotData)
    requires |EncodeSnapshotData(m)| <= MAX_INT64 && SnapshotDataAccepted(nested, m)
    ensures DecodeSnapshotData(nested, EncodeSnapshotData(m), EmptySnapshotData) == Ok(m)
  {
    SnapshotDataRoundTrip(nested, m, EmptySnapshotData);
    assert MergeSnapshotData(EmptySnapshotData, m) == m;
  }
}
