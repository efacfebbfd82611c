/** The five generated Go types of roachpb/internal_raft.pb.go as objects: their
    fields, and the methods Size, MarshalTo, Marshal and Unmarshal that the code
    generator writes for each.  Every method is proved against the value-level codec
    of the Messages module: Size is the length of the encoding, MarshalTo writes the
    encoding into the buffer and nothing else, Marshal returns it, and Unmarshal ends
    in the state (or with the error) that decoding the input from the receiver's old
    state gives.  A slice `data[i:]` handed to a nested MarshalTo is the array `data`
    with the offset `i`. */
module Raft {
  import opened Wire
  import opened Varints
  import opened Fields
  import opened Messages

  // ===== Writing fields =====

  /** `copy(data[offset:], payload)` into a buffer with room for all of `payload`; it
      also stands for the MarshalTo of a nested message, whose encoding is `payload`. */
  method CopyBytes(data: array<Byte>, offset: nat, payload: seq<Byte>) returns (next: nat)
    requires offset + |payload| <= data.Length
    modifies data
    ensures next == offset + |payload|
    ensures Written(old(data[..]), data[..], offset, payload)
  {
    ghost var before := data[..];
    WrittenNothing(before, offset);
    var k := 0;
    while k < |payload|
      invariant k <= |payload|
      invariant Written(before, data[..], offset, payload[..k])
    {
      WrittenByte(before, data[..], offset, payload[..k], payload[k]);
      assert payload[..k] + [payload[k]] == payload[..k + 1];
      data[offset + k] := payload[k];
      k := k + 1;
    }
    assert payload[..k] == payload;
    next := offset + k;
  }

  /** A field as MarshalTo writes it when its key is the literal byte `key`: the key,
      then the length of `payload` as a varint, then `payload`. */
  function Framed(key: Byte, payload: seq<Byte>): seq<Byte>
  {
    [key] + Varint(|payload|) + payload
  }

  /** `data[i] = key; i++; i = encodeVarintInternalRaft(data, i, v)`: a varint field. */
  method PutVarintField(data: array<Byte>, offset: nat, key: Byte, v: U64) returns (next: nat)
    requires offset + 1 + |Varint(v)| <= data.Length
    modifies data
    ensures next == offset + 1 + |Varint(v)|
    ensures Written(old(data[..]), data[..], offset, [key] + Varint(v))
  {
    ghost var before := data[..];
    WrittenNothing(before, offset);
    WrittenByte(before, data[..], offset, [], key);
    data[offset] := key;
    ghost var mid := data[..];
    next := EncodeVarint(data, offset + 1, v);
    WrittenThen(before, mid, data[..], offset, [key], Varint(v));
  }

  /** A length-delimited field: the key, the length as a varint, then the payload,
      either copied or written by the nested message's MarshalTo. */
  method PutBytesField(data: array<Byte>, offset: nat, key: Byte, payload: seq<Byte>) returns (next: nat)
    requires offset + |Framed(key, payload)| <= data.Length <= MAX_INT64
    modifies data
    ensures next == offset + |Framed(key, payload)|
    ensures Written(old(data[..]), data[..], offset, Framed(key, payload))
  {
    ghost var before := data[..];
    var i := PutVarintField(data, offset, key, |payload|);
    ghost var mid := data[..];
    next := CopyBytes(data, i, payload);
    WrittenThen(before, mid, data[..], offset, [key] + Varint(|payload|), payload);
  }

  /** A field that MarshalTo writes only when the slice `b` is not nil. */
  function OptionalFramed(key: Byte, b: Option<seq<Byte>>): seq<Byte>
  {
    if b.Some? then Framed(key, b.value) else []
  }

  /** `if b != nil { ... }` around a length-delimited field. */
  method PutOptionalField(data: array<Byte>, offset: nat, key: Byte, b: Option<seq<Byte>>) returns (next: nat)
    requires offset + |OptionalFramed(key, b)| <= data.Length <= MAX_INT64
    modifies data
    ensures next == offset + |OptionalFramed(key, b)|
    ensures Written(old(data[..]), data[..], offset, OptionalFramed(key, b))
  {
    if b.Some? {
      next := PutBytesField(data, offset, key, b.value);
    } else {
      WrittenNothing(data[..], offset);
      next := offset;
    }
  }

  /** The literal keys MarshalTo writes for field 1, 2 and 3 of wire type 2. */
  lemma FramedKeys(b: Option<seq<Byte>>)
    ensures OptionalFramed(0x0a, b) == OptionalBytes(1, b)
    ensures OptionalFramed(0x12, b) == OptionalBytes(2, b)
    ensures OptionalFramed(0x1a, b) == OptionalBytes(3, b)
  {
    LiteralKeys();
  }

  /** The encoding of a pair as its MarshalTo writes it, field by field. */
  lemma KeyValueFramed(m: KeyValue)
    ensures EncodeKeyValue(m) == OptionalFramed(0x0a, m.key) + OptionalFramed(0x12, m.value) + Framed(0x1a, m.timestamp)
  {
    FramedKeys(m.key);
    FramedKeys(m.value);
    FramedKeys(Some(m.timestamp));
  }

  /** The body of `RaftSnapshotData_KeyValue.MarshalTo`: Key and Value when not nil,
      then Timestamp. */
  method PutKeyValue(data: array<Byte>, offset: nat, key: Option<seq<Byte>>, value: Option<seq<Byte>>,
                     timestamp: seq<Byte>) returns (next: nat)
    requires offset + |OptionalFramed(0x0a, key) + OptionalFramed(0x12, value) + Framed(0x1a, timestamp)|
             <= data.Length <= MAX_INT64
    modifies data
    ensures next == offset + |OptionalFramed(0x0a, key) + OptionalFramed(0x12, value) + Framed(0x1a, timestamp)|
    ensures Written(old(data[..]), data[..], offset,
                    OptionalFramed(0x0a, key) + OptionalFramed(0x12, value) + Framed(0x1a, timestamp))
  {
    ghost var s0 := data[..];
    var i := PutOptionalField(data, offset, 0x0a, key);
    ghost var s1 := data[..];
    var j := PutOptionalField(data, i, 0x12, value);
    ghost var s2 := data[..];
    next := PutBytesField(data, j, 0x1a, timestamp);
    WrittenThree(s0, s1, s2, data[..], offset, i, j,
                 OptionalFramed(0x0a, key), OptionalFramed(0x12, value), Framed(0x1a, timestamp));
  }

  /** The encoding of a command as its MarshalTo writes it, field by field. */
  lemma CommandFramed(m: Command)
    ensures EncodeCommand(m) == [0x08] + Varint(U64OfI64(m.rangeID)) + Framed(0x12, m.originReplica) + Framed(0x1a, m.cmd)
  {
    LiteralKeys();
  }

  // ===== RaftTruncatedState =====

  class RaftTruncatedState {
    var index: U64
    var term: U64

    /** `RaftTruncatedState{}`. */
    constructor ()
      ensures Model() == TruncatedState(0, 0)
    {
      index, term := 0, 0;
    }

    function Model(): TruncatedState
      reads this
    {
      TruncatedState(index, term)
    }

    /** Size: the number of bytes MarshalTo writes. */
    method Size() returns (n: nat)
      ensures n == |EncodeTruncatedState(Model())|
    {
      var s := Sov(index);
      n := 1 + s;
      s := Sov(term);
      n := n + 1 + s;
      TruncatedStateSize(Model());
    }

    /** MarshalTo(data[offset:]): writes the encoding and returns its length. */
    method MarshalTo(data: array<Byte>, offset: nat) returns (n: nat)
      requires offset + |EncodeTruncatedState(Model())| <= data.Length
      modifies data
      ensures n == |EncodeTruncatedState(Model())|
      ensures Written(old(data[..]), data[..], offset, EncodeTruncatedState(Model()))
    {
      LiteralKeys();
      ghost var before := data[..];
      var i := PutVarintField(data, offset, 0x08, index);
      ghost var mid := data[..];
      i := PutVarintField(data, i, 0x10, term);
      WrittenThen(before, mid, data[..], offset, KeyedVarint(1, index), KeyedVarint(2, term));
      n := i - offset;
    }

    /** Marshal: a buffer of Size bytes, filled by MarshalTo. */
    method Marshal() returns (bytes: seq<Byte>)
      ensures bytes == EncodeTruncatedState(Model())
    {
      var size := Size();
      var data := new Byte[size];
      ghost var blank := data[..];
      var n := MarshalTo(data, 0);
      WrittenWhole(blank, data[..], EncodeTruncatedState(Model()));
      bytes := data[..n];
    }

    /** Unmarshal: the loop over the fields of `data`, merged into the receiver. */
    method Unmarshal(data: seq<Byte>) returns (err: Option<DecodeError>)
      modifies this
      ensures err.None? ==> DecodeTruncatedState(data, old(Model())) == Ok(Model())
      ensures err.Some? ==> DecodeTruncatedState(data, old(Model())) == Err(err.value)
    {
      var iNdEx := 0;
      while iNdEx < |data|
        invariant iNdEx <= |data|
        invariant DecodeFrom(data, iNdEx, Model(), TruncatedStateSchema, ApplyTruncatedState) ==
          DecodeTruncatedState(data, old(Model()))
        decreases |data| - iNdEx
      {
        var r := ReadField(data, iNdEx, TruncatedStateSchema);
        if r.Err? {
          DecodeFromStops(data, iNdEx, Model(), TruncatedStateSchema, ApplyTruncatedState);
          return Some(r.error);
        }
        var f := r.value;
        if f.payload.Unknown? {
          UnknownFieldSkipped(data, iNdEx, Model(), TruncatedStateSchema, ApplyTruncatedState, f);
        } else {
          ghost var m := Model();
          if f.fieldNum == 1 {
            index := f.payload.u;
          } else {
            term := f.payload.u;
          }
          KnownFieldApplied(data, iNdEx, m, TruncatedStateSchema, ApplyTruncatedState, f, Model());
        }
        iNdEx := f.next;
      }
      return None;
    }
  }

  // ===== RaftTombstone =====

  class RaftTombstone {
    var nextReplicaID: I32

    /** `RaftTombstone{}`. */
    constructor ()
      ensures Model() == Tombstone(0)
    {
      nextReplicaID := 0;
    }

    function Model(): Tombstone
      reads this
    {
      Tombstone(nextReplicaID)
    }

    method Size() returns (n: nat)
      ensures n == |EncodeTombstone(Model())|
    {
      var s := Sov(U64OfI32(nextReplicaID));
      n := 1 + s;
      TombstoneSize(Model());
    }

    method MarshalTo(data: array<Byte>, offset: nat) returns (n: nat)
      requires offset + |EncodeTombstone(Model())| <= data.Length
      modifies data
      ensures n == |EncodeTombstone(Model())|
      ensures Written(old(data[..]), data[..], offset, EncodeTombstone(Model()))
    {
      LiteralKeys();
      var i := PutVarintField(data, offset, 0x08, U64OfI32(nextReplicaID));
      n := i - offset;
    }

    method Marshal() returns (bytes: seq<Byte>)
      ensures bytes == EncodeTombstone(Model())
    {
      var size := Size();
      var data := new Byte[size];
      ghost var blank := data[..];
      var n := MarshalTo(data, 0);
      WrittenWhole(blank, data[..], EncodeTombstone(Model()));
      bytes := data[..n];
    }

    /** Unmarshal: field 1 is accumulated in an int32, which keeps the low 32 bits. */
    method Unmarshal(data: seq<Byte>) returns (err: Option<DecodeError>)
      modifies this
      ensures err.None? ==> DecodeTombstone(data, old(Model())) == Ok(Model())
      ensures err.Some? ==> DecodeTombstone(data, old(Model())) == Err(err.value)
    {
      var iNdEx := 0;
      while iNdEx < |data|
        invariant iNdEx <= |data|
        invariant DecodeFrom(data, iNdEx, Model(), TombstoneSchema, ApplyTombstone) ==
          DecodeTombstone(data, old(Model()))
        decreases |data| - iNdEx
      {
        var r := ReadField(data, iNdEx, TombstoneSchema);
        if r.Err? {
          DecodeFromStops(data, iNdEx, Model(), TombstoneSchema, ApplyTombstone);
          return Some(r.error);
        }
        var f := r.value;
        if f.payload.Unknown? {
          UnknownFieldSkipped(data, iNdEx, Model(), TombstoneSchema, ApplyTombstone, f);
        } else {
          ghost var m := Model();
          nextReplicaID := I32Of(f.payload.u);
          KnownFieldApplied(data, iNdEx, m, TombstoneSchema, ApplyTombstone, f, Model());
        }
        iNdEx := f.next;
      }
      return None;
    }
  }

  // ===== RaftCommand =====

  class RaftCommand {
    var rangeID: I64
    /** The encodings of the nested ReplicaDescriptor and BatchRequest. */
    var originReplica: seq<Byte>
    var cmd: seq<Byte>

    /** `RaftCommand{}`. */
    constructor ()
      ensures Model() == EmptyCommand
    {
      rangeID, originReplica, cmd := 0, [], [];
    }

    function Model(): Command
      reads this
    {
      Command(rangeID, originReplica, cmd)
    }

    method Size() returns (n: nat)
      requires |EncodeCommand(Model())| <= MAX_INT64
      ensures n == |EncodeCommand(Model())|
    {
      CommandSize(Model());
      var s := Sov(U64OfI64(rangeID));
      n := 1 + s;
      var l := |originReplica|;
      s := Sov(l);
      n := n + 1 + l + s;
      l := |cmd|;
      s := Sov(l);
      n := n + 1 + l + s;
    }

    method MarshalTo(data: array<Byte>, offset: nat) returns (n: nat)
      requires offset + |EncodeCommand(Model())| <= data.Length <= MAX_INT64
      modifies data
      ensures n == |EncodeCommand(Model())|
      ensures Written(old(data[..]), data[..], offset, EncodeCommand(Model()))
    {
      CommandFramed(Model());
      ghost var s0 := data[..];
      var i := PutVarintField(data, offset, 0x08, U64OfI64(rangeID));
      ghost var s1 := data[..];
      var j := PutBytesField(data, i, 0x12, originReplica);
      ghost var s2 := data[..];
      var k := PutBytesField(data, j, 0x1a, cmd);
      WrittenThree(s0, s1, s2, data[..], offset, i, j,
                   [0x08] + Varint(U64OfI64(rangeID)), Framed(0x12, originReplica), Framed(0x1a, cmd));
      n := k - offset;
    }

    method Marshal() returns (bytes: seq<Byte>)
      requires |EncodeCommand(Model())| <= MAX_INT64
      ensures bytes == EncodeCommand(Model())
    {
      var size := Size();
      var data := new Byte[size];
      ghost var blank := data[..];
      var n := MarshalTo(data, 0);
      WrittenWhole(blank, data[..], EncodeCommand(Model()));
      bytes := data[..n];
    }

    /** Unmarshal: RangeID is replaced; OriginReplica and Cmd are handed to their own
        Unmarshal, which merges the payload into them. */
    method Unmarshal(nested: NestedCodec, data: seq<Byte>) returns (err: Option<DecodeError>)
      modifies this
      ensures err.None? ==> DecodeCommand(nested, data, old(Model())) == Ok(Model())
      ensures err.Some? ==> DecodeCommand(nested, data, old(Model())) == Err(err.value)
    {
      var iNdEx := 0;
      while iNdEx < |data|
        invariant iNdEx <= |data|
        invariant DecodeFrom(data, iNdEx, Model(), CommandSchema, CommandApply(nested)) ==
          DecodeCommand(nested, data, old(Model()))
        decreases |data| - iNdEx
      {
        var r := ReadField(data, iNdEx, CommandSchema);
        if r.Err? {
          DecodeFromStops(data, iNdEx, Model(), CommandSchema, CommandApply(nested));
          return Some(r.error);
        }
        var f := r.value;
        ghost var m := Model();
        if f.payload.Unknown? {
          UnknownFieldSkipped(data, iNdEx, m, CommandSchema, CommandApply(nested), f);
        } else if f.fieldNum == 1 {
          rangeID := I64Of(f.payload.u);
          KnownFieldApplied(data, iNdEx, m, CommandSchema, CommandApply(nested), f, Model());
        } else if f.fieldNum == 2 {
          if !nested(ReplicaDescriptor, f.payload.bytes) {
            KnownFieldRefused(data, iNdEx, m, CommandSchema, CommandApply(nested), f,
                              NestedFailure(ReplicaDescriptor));
            return Some(NestedFailure(ReplicaDescriptor));
          }
          originReplica := originReplica + f.payload.bytes;
          KnownFieldApplied(data, iNdEx, m, CommandSchema, CommandApply(nested), f, Model());
        } else {
          if !nested(BatchRequest, f.payload.bytes) {
            KnownFieldRefused(data, iNdEx, m, CommandSchema, CommandApply(nested), f,
                              NestedFailure(BatchRequest));
            return Some(NestedFailure(BatchRequest));
          }
          cmd := cmd + f.payload.bytes;
          KnownFieldApplied(data, iNdEx, m, CommandSchema, CommandApply(nested), f, Model());
        }
        iNdEx := f.next;
      }
      return None;
    }
  }

  // ===== RaftSnapshotData_KeyValue =====

  class RaftSnapshotDataKeyValue {
    /** A nil `[]byte` is `None`. */
    var key: Option<seq<Byte>>
    var value: Option<seq<Byte>>
    /** The encoding of the nested Timestamp. */
    var timestamp: seq<Byte>

    /** `RaftSnapshotData_KeyValue{}`. */
    constructor ()
      ensures Model() == EmptyKeyValue
    {
      key, value, timestamp := None, None, [];
    }

    /** A copy of a pair, as `for _, msg := range m.KV` makes. */
    constructor FromValue(m: KeyValue)
      ensures Model() == m
    {
      key, value, timestamp := m.key, m.value, m.timestamp;
    }

    function Model(): KeyValue
      reads this
    {
      KeyValue(key, value, timestamp)
    }

    method Size() returns (n: nat)
      requires |EncodeKeyValue(Model())| <= MAX_INT64
      ensures n == |EncodeKeyValue(Model())|
    {
      KeyValueSize(Model());
      n := 0;
      var l, s;
      if key.Some? {
        l := |key.value|;
        s := Sov(l);
        n := n + 1 + l + s;
      }
      if value.Some? {
        l := |value.value|;
        s := Sov(l);
        n := n + 1 + l + s;
      }
      l := |timestamp|;
      s := Sov(l);
      n := n + 1 + l + s;
    }

    method MarshalTo(data: array<Byte>, offset: nat) returns (n: nat)
      requires offset + |EncodeKeyValue(Model())| <= data.Length <= MAX_INT64
      modifies data
      ensures n == |EncodeKeyValue(Model())|
      ensures Written(old(data[..]), data[..], offset, EncodeKeyValue(Model()))
    {
      KeyValueFramed(Model());
      var i := PutKeyValue(data, offset, key, value, timestamp);
      n := i - offset;
    }

    method Marshal() returns (bytes: seq<Byte>)
      requires |EncodeKeyValue(Model())| <= MAX_INT64
      ensures bytes == EncodeKeyValue(Model())
    {
      var size := Size();
      var data := new Byte[size];
      ghost var blank := data[..];
      var n := MarshalTo(data, 0);
      WrittenWhole(blank, data[..], EncodeKeyValue(Model()));
      bytes := data[..n];
    }

    /** Unmarshal: Key and Value become a copy of the payload, an empty slice rather
        than nil when the payload is empty; Timestamp is handed to its own Unmarshal. */
    method Unmarshal(nested: NestedCodec, data: seq<Byte>) returns (err: Option<DecodeError>)
      modifies this
      ensures err.None? ==> DecodeKeyValue(nested, data, old(Model())) == Ok(Model())
      ensures err.Some? ==> DecodeKeyValue(nested, data, old(Model())) == Err(err.value)
    {
      var iNdEx := 0;
      while iNdEx < |data|
        invariant iNdEx <= |data|
        invariant DecodeFrom(data, iNdEx, Model(), KeyValueSchema, KeyValueApply(nested)) ==
          DecodeKeyValue(nested, data, old(Model()))
        decreases |data| - iNdEx
      {
        var r := ReadField(data, iNdEx, KeyValueSchema);
        if r.Err? {
          DecodeFromStops(data, iNdEx, Model(), KeyValueSchema, KeyValueApply(nested));
          return Some(r.error);
        }
        var f := r.value;
        ghost var m := Model();
        if f.payload.Unknown? {
          UnknownFieldSkipped(data, iNdEx, m, KeyValueSchema, KeyValueApply(nested), f);
        } else if f.fieldNum == 1 {
          key := Some(f.payload.bytes);
          KnownFieldApplied(data, iNdEx, m, KeyValueSchema, KeyValueApply(nested), f, Model());
        } else if f.fieldNum == 2 {
          value := Some(f.payload.bytes);
          KnownFieldApplied(data, iNdEx, m, KeyValueSchema, KeyValueApply(nested), f, Model());
        } else {
          if !nested(Timestamp, f.payload.bytes) {
            KnownFieldRefused(data, iNdEx, m, KeyValueSchema, KeyValueApply(nested), f,
                              NestedFailure(Timestamp));
            return Some(NestedFailure(Timestamp));
          }
          timestamp := timestamp + f.payload.bytes;
          KnownFieldApplied(data, iNdEx, m, KeyValueSchema, KeyValueApply(nested), f, Model());
        }
        iNdEx := f.next;
      }
      return None;
    }
  }

  // ===== RaftSnapshotData =====

  /** One turn of the loop over KV in RaftSnapshotData.MarshalTo: the key 0x12, the
      pair's Size as a varint, then the pair's own MarshalTo. */
  method PutKeyValueField(data: array<Byte>, offset: nat, m: KeyValue) returns (next: nat)
    requires offset + |KeyedBytes(2, EncodeKeyValue(m))| <= data.Length <= MAX_INT64
    modifies data
    ensures next == offset + |KeyedBytes(2, EncodeKeyValue(m))|
    ensures Written(old(data[..]), data[..], offset, KeyedBytes(2, EncodeKeyValue(m)))
  {
    LiteralKeys();
    var msg := new RaftSnapshotDataKeyValue.FromValue(m);
    var size := msg.Size();
    ghost var before := data[..];
    var i := PutVarintField(data, offset, 0x12, size);
    ghost var mid := data[..];
    var n := msg.MarshalTo(data, i);
    assert msg.Model() == m;
    WrittenThen(before, mid, data[..], offset, [0x12] + Varint(size), EncodeKeyValue(m));
    next := i + n;
  }

  /** The loop over KV in RaftSnapshotData.MarshalTo. */
  method PutKeyValues(data: array<Byte>, offset: nat, kvs: seq<KeyValue>) returns (next: nat)
    requires offset + |EncodeKeyValues(kvs)| <= data.Length <= MAX_INT64
    modifies data
    ensures next == offset + |EncodeKeyValues(kvs)|
    ensures Written(old(data[..]), data[..], offset, EncodeKeyValues(kvs))
  {
    ghost var before := data[..];
    WrittenNothing(before, offset);
    next := offset;
    var k := 0;
    while k < |kvs|
      invariant k <= |kvs|
      invariant next == offset + |EncodeKeyValues(kvs[..k])|
      invariant Written(before, data[..], offset, EncodeKeyValues(kvs[..k]))
    {
      KeyValuesUpTo(kvs, k);
      ghost var mid := data[..];
      next := PutKeyValueField(data, next, kvs[k]);
      WrittenThen(before, mid, data[..], offset, EncodeKeyValues(kvs[..k]), KeyedBytes(2, EncodeKeyValue(kvs[k])));
      k := k + 1;
    }
    assert kvs[..k] == kvs;
  }

  /** The loop over LogEntries in RaftSnapshotData.MarshalTo. */
  method PutEntries(data: array<Byte>, offset: nat, es: seq<seq<Byte>>) returns (next: nat)
    requires offset + |EncodeEntries(es)| <= data.Length <= MAX_INT64
    modifies data
    ensures next == offset + |EncodeEntries(es)|
    ensures Written(old(data[..]), data[..], offset, EncodeEntries(es))
  {
    LiteralKeys();
    ghost var before := data[..];
    ghost var written: seq<Byte> := [];
    WrittenNothing(before, offset);
    next := offset;
    var k := 0;
    while k < |es|
      invariant k <= |es|
      invariant next == offset + |written|
      invariant written + EncodeEntries(es[k..]) == EncodeEntries(es)
      invariant Written(before, data[..], offset, written)
    {
      ghost var field := KeyedBytes(3, es[k]);
      EntriesFrom(es, k);
      ghost var mid := data[..];
      next := PutBytesField(data, next, 0x1a, es[k]);
      WrittenStep(before, mid, data[..], offset, written, field, EncodeEntries(es[k + 1..]), EncodeEntries(es));
      written := written + field;
      k := k + 1;
    }
    assert written == EncodeEntries(es) by {
      assert es[k..] == [];
    }
  }

  /** The encoding of a snapshot as its MarshalTo writes it, field by field. */
  lemma SnapshotDataFramed(m: SnapshotData)
    ensures EncodeSnapshotData(m) == Framed(0x0a, m.rangeDescriptor) + EncodeKeyValues(m.kv) + EncodeEntries(m.logEntries)
  {
    LiteralKeys();
  }

  /** The body of `RaftSnapshotData.MarshalTo`: RangeDescriptor, then every KV, then
      every LogEntries element. */
  method PutSnapshotData(data: array<Byte>, offset: nat, rangeDescriptor: seq<Byte>, kv: seq<KeyValue>,
                         logEntries: seq<seq<Byte>>) returns (next: nat)
    requires offset + |Framed(0x0a, rangeDescriptor) + EncodeKeyValues(kv) + EncodeEntries(logEntries)|
             <= data.Length <= MAX_INT64
    modifies data
    ensures next == offset + |Framed(0x0a, rangeDescriptor) + EncodeKeyValues(kv) + EncodeEntries(logEntries)|
    ensures Written(old(data[..]), data[..], offset,
                    Framed(0x0a, rangeDescriptor) + EncodeKeyValues(kv) + EncodeEntries(logEntries))
  {
    ghost var s0 := data[..];
    var i := PutBytesField(data, offset, 0x0a, rangeDescriptor);
    ghost var s1 := data[..];
    var j := PutKeyValues(data, i, kv);
    ghost var s2 := data[..];
    next := PutEntries(data, j, logEntries);
    WrittenThree(s0, s1, s2, data[..], offset, i, j,
                 Framed(0x0a, rangeDescriptor), EncodeKeyValues(kv), EncodeEntries(logEntries));
  }

  class RaftSnapshotData {
    /** The encoding of the nested RangeDescriptor. */
    var rangeDescriptor: seq<Byte>
    var kv: seq<KeyValue>
    /** The encodings of the raftpb.Entry values. */
    var logEntries: seq<seq<Byte>>

    /** `RaftSnapshotData{}`. */
    constructor ()
      ensures Model() == EmptySnapshotData
    {
      rangeDescriptor, kv, logEntries := [], [], [];
    }

    function Model(): SnapshotData
      reads this
    {
      SnapshotData(rangeDescriptor, kv, logEntries)
    }

    method Size() returns (n: nat)
      requires |EncodeSnapshotData(Model())| <= MAX_INT64
      ensures n == |EncodeSnapshotData(Model())|
    {
      LiteralKeys();
      var l := |rangeDescriptor|;
      var s := Sov(l);
      n := 1 + l + s;
      var k := 0;
      while k < |kv|
        invariant k <= |kv|
        invariant n + |EncodeKeyValues(kv[k..])| + |EncodeEntries(logEntries)| == |EncodeSnapshotData(Model())|
      {
        KeyValuesFrom(kv, k);
        var e := new RaftSnapshotDataKeyValue.FromValue(kv[k]);
        l := e.Size();
        s := Sov(l);
        n := n + 1 + l + s;
        k := k + 1;
      }
      k := 0;
      while k < |logEntries|
        invariant k <= |logEntries|
        invariant n + |EncodeEntries(logEntries[k..])| == |EncodeSnapshotData(Model())|
      {
        EntriesFrom(logEntries, k);
        l := |logEntries[k]|;
        s := Sov(l);
        n := n + 1 + l + s;
        k := k + 1;
      }
    }

    method MarshalTo(data: array<Byte>, offset: nat) returns (n: nat)
      requires offset + |EncodeSnapshotData(Model())| <= data.Length <= MAX_INT64
      modifies data
      ensures n == |EncodeSnapshotData(Model())|
      ensures Written(old(data[..]), data[..], offset, EncodeSnapshotData(Model()))
    {
      SnapshotDataFramed(Model());
      var i := PutSnapshotData(data, offset, rangeDescriptor, kv, logEntries);
      n := i - offset;
    }

    method Marshal() returns (bytes: seq<Byte>)
      requires |EncodeSnapshotData(Model())| <= MAX_INT64
      ensures bytes == EncodeSnapshotData(Model())
    {
      var size := Size();
      var data := new Byte[size];
      ghost var blank := data[..];
      var n := MarshalTo(data, 0);
      WrittenWhole(blank, data[..], EncodeSnapshotData(Model()));
      bytes := data[..n];
    }

    /** Unmarshal: RangeDescriptor is handed to its own Unmarshal; a KV payload is
        unmarshalled into a new pair, which is appended; a LogEntries payload is
        appended once raftpb.Entry's Unmarshal accepts it. */
    method Unmarshal(nested: NestedCodec, data: seq<Byte>) returns (err: Option<DecodeError>)
      modifies this
      ensures err.None? ==> DecodeSnapshotData(nested, data, old(Model())) == Ok(Model())
      ensures err.Some? ==> DecodeSnapshotData(nested, data, old(Model())) == Err(err.value)
    {
      var iNdEx := 0;
      while iNdEx < |data|
        invariant iNdEx <= |data|
        invariant DecodeFrom(data, iNdEx, Model(), SnapshotDataSchema, SnapshotDataApply(nested)) ==
          DecodeSnapshotData(nested, data, old(Model()))
        decreases |data| - iNdEx
      {
        var r := ReadField(data, iNdEx, SnapshotDataSchema);
        if r.Err? {
          DecodeFromStops(data, iNdEx, Model(), SnapshotDataSchema, SnapshotDataApply(nested));
          return Some(r.error);
        }
        var f := r.value;
        ghost var m := Model();
        if f.payload.Unknown? {
          UnknownFieldSkipped(data, iNdEx, m, SnapshotDataSchema, SnapshotDataApply(nested), f);
        } else if f.fieldNum == 1 {
          if !nested(RangeDescriptor, f.payload.bytes) {
            KnownFieldRefused(data, iNdEx, m, SnapshotDataSchema, SnapshotDataApply(nested), f,
                              NestedFailure(RangeDescriptor));
            return Some(NestedFailure(RangeDescriptor));
          }
          rangeDescriptor := rangeDescriptor + f.payload.bytes;
          KnownFieldApplied(data, iNdEx, m, SnapshotDataSchema, SnapshotDataApply(nested), f, Model());
        } else if f.fieldNum == 2 {
          var e := new RaftSnapshotDataKeyValue();
          var kvErr := e.Unmarshal(nested, f.payload.bytes);
          kv := kv + [e.Model()];
          if kvErr.Some? {
            KnownFieldRefused(data, iNdEx, m, SnapshotDataSchema, SnapshotDataApply(nested), f, kvErr.value);
            return kvErr;
          }
          KnownFieldApplied(data, iNdEx, m, SnapshotDataSchema, SnapshotDataApply(nested), f, Model());
        } else {
          if !nested(RaftEntry, f.payload.bytes) {
            KnownFieldRefused(data, iNdEx, m, SnapshotDataSchema, SnapshotDataApply(nested), f,
                              NestedFailure(RaftEntry));
            return Some(NestedFailure(RaftEntry));
          }
          logEntries := logEntries + [f.payload.bytes];
          KnownFieldApplied(data, iNdEx, m, SnapshotDataSchema, SnapshotDataApply(nested), f, Model());
        }
        iNdEx := f.next;
      }
      return None;
    }
  }
}
