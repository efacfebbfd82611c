/** The field layer that every Unmarshal of roachpb/internal_raft.pb.go repeats inline:
    reading a tag and checking it, reading the value of a known field, skipping an
    unknown field (skipInternalRaft), and the cursor loop over the whole input.  The
    "Message Structure" section of the Protocol Buffers encoding defines the layout:
    a tag `fieldNum << 3 | wireType` followed by a value whose shape the wire type gives. */
module Fields {
  import opened Wire
  import opened Varints

  /** How a field the message knows is carried: a varint (wire type 0) or a
      length-delimited payload (wire type 2).  No message here has other kinds. */
  datatype FieldKind = VarintField | BytesField

  /** The known fields of a message, by field number. */
  type Schema = map<int, FieldKind>

  /** A decoded tag and the position just after it. */
  datatype Tag = Tag(fieldNum: I32, wireType: nat, wire: U64, next: nat)

  /** The value of one field as the loop hands it to the message. */
  datatype Payload = VarintValue(u: U64) | BytesValue(bytes: seq<Byte>) | Unknown

  /** One field read at some cursor: its number, its value and the cursor after it. */
  datatype FieldRead = FieldRead(fieldNum: I32, payload: Payload, next: nat)

  /** The tag at `pos`: `fieldNum := int32(wire >> 3)` and `wireType := int(wire & 0x7)`. */
  function ReadTag(data: seq<Byte>, pos: nat): (r: Result<Tag>)
    ensures r.Ok? ==> pos < r.value.next <= |data| && r.value.wireType < 8
    ensures r.Err? ==> r.error == UnexpectedEof || r.error == IntOverflow
  {
    match ReadVarint(data, pos)
    case Fail(e) => Err(e)
    case Read(wire, next) => Ok(Tag(I32Of(wire / 8), wire % 8, wire, next))
  }

  /** What skipInternalRaft(data[start:]) returns: the length of the field that starts
      at `start`, tag included.  Wire types 1 and 5 are not checked against the end of
      the data here; the caller checks the whole skip.  A length-delimited field longer
      than the largest `int` is an invalid length: at the top level this is what Go's
      `skippy < 0` check reports once the addition has wrapped (see the Findings module
      for the group case, where the wrapped cursor is used as an index). */
  function FieldLength(data: seq<Byte>, start: nat): (r: Result<nat>)
    requires start < |data|
    ensures r.Ok? ==> r.value >= 1
    decreases |data| - start, 1
  {
    match ReadVarint(data, start)
    case Fail(e) => Err(e)
    case Read(wire, i) => ValueLength(data, start, wire % 8, i)
  }

  /** The rest of FieldLength once the tag has been read: `i` is the position after the
      tag and `wireType` its wire type. */
  function ValueLength(data: seq<Byte>, start: nat, wireType: nat, i: nat): (r: Result<nat>)
    requires start < i <= |data|
    ensures r.Ok? ==> r.value >= 1
    decreases |data| - start, 0
  {
    if wireType == 0 then
      (match ReadVarint(data, i)
       case Fail(e) => Err(e)
       case Read(_, j) => Ok(j - start))
    else if wireType == 1 then Ok(i + 8 - start)
    else if wireType == 2 then
      (match ReadVarint(data, i)
       case Fail(e) => Err(e)
       case Read(u, j) =>
         var length := I64Of(u);
         if length < 0 then Err(InvalidLength)
         else if j - start + length > MAX_INT64 then Err(InvalidLength)
         else Ok(j + length - start))
    else if wireType == 3 then GroupLength(data, start, i)
    else if wireType == 4 then Ok(i - start)
    else if wireType == 5 then Ok(i + 4 - start)
    else Err(IllegalWireType(wireType))
  }

  /** The group loop of skipInternalRaft: from cursor `i`, skip fields until an
      end-group tag; the result is measured from `base`, the start of the group's tag. */
  function GroupLength(data: seq<Byte>, base: nat, i: nat): (r: Result<nat>)
    requires base < i
    ensures r.Ok? ==> r.value >= 1
    decreases if i <= |data| then |data| - i else 0, 2
  {
    match ReadVarint(data, i)
    case Fail(e) => Err(e)
    case Read(innerWire, j) =>
      if innerWire % 8 == 4 then Ok(j - base)
      else
        match FieldLength(data, i)
        case Err(e) => Err(e)
        case Ok(next) => GroupLength(data, base, i + next)
  }

  /** The end of a length-delimited payload of `msglen` bytes starting at `start`, in
      data of length `l`: the checks `msglen < 0` and `postIndex > l`, with the
      addition `iNdEx + msglen` exact (see the Findings module for Go's wrapping one). */
  function PayloadEnd(l: nat, start: nat, msglen: I64): (r: Result<nat>)
    ensures r.Ok? <==> 0 <= msglen && start + msglen <= l
    ensures r.Ok? ==> start <= r.value <= l && r.value - start == msglen
    ensures msglen < 0 ==> r == Err(InvalidLength)
    ensures r.Err? && msglen >= 0 ==> r == Err(UnexpectedEof)
  {
    if msglen < 0 then Err(InvalidLength)
    else if start + msglen > l then Err(UnexpectedEof)
    else Ok(start + msglen)
  }

  /** The cursor after skipping `skippy` bytes from `pos`: the check
      `(iNdEx + skippy) > l`, with the addition exact. */
  function SkipEnd(l: nat, pos: nat, skippy: nat): (r: Result<nat>)
    ensures r.Ok? <==> pos + skippy <= l
    ensures r.Ok? ==> pos <= r.value <= l && r.value - pos == skippy
    ensures r.Err? ==> r == Err(UnexpectedEof)
  {
    if pos + skippy > l then Err(UnexpectedEof) else Ok(pos + skippy)
  }

  /** One turn of an Unmarshal loop at cursor `pos`, up to the point where the message
      takes over: read the tag, then the field it introduces. */
  function NextField(data: seq<Byte>, pos: nat, schema: Schema): (r: Result<FieldRead>)
    requires pos < |data|
    ensures r.Ok? ==> pos < r.value.next <= |data|
    ensures r.Ok? ==> r.value.fieldNum > 0
    ensures r.Ok? ==> (r.value.payload.Unknown? <==> r.value.fieldNum !in schema)
    ensures r.Ok? && r.value.fieldNum in schema ==>
      (schema[r.value.fieldNum] == VarintField <==> r.value.payload.VarintValue?)
  {
    match ReadTag(data, pos)
    case Err(e) => Err(e)
    case Ok(tag) => FieldAt(data, pos, tag, schema)
  }

  /** The field whose tag `tag` starts at `pos`: reject wire type 4 and field numbers
      <= 0, then read a known field with the wire type its kind demands, or skip an
      unknown one. */
  function FieldAt(data: seq<Byte>, pos: nat, tag: Tag, schema: Schema): (r: Result<FieldRead>)
    requires pos < tag.next <= |data|
    ensures r.Ok? ==> pos < r.value.next <= |data|
    ensures r.Ok? ==> r.value.fieldNum == tag.fieldNum > 0
    ensures r.Ok? ==> (r.value.payload.Unknown? <==> r.value.fieldNum !in schema)
    ensures r.Ok? && r.value.fieldNum in schema ==>
      (schema[r.value.fieldNum] == VarintField <==> r.value.payload.VarintValue?)
  {
    if tag.wireType == 4 then Err(EndGroup)
    else if tag.fieldNum <= 0 then Err(IllegalTag(tag.fieldNum, tag.wire))
    else if tag.fieldNum !in schema then UnknownAt(data, pos, tag.fieldNum)
    else if schema[tag.fieldNum] == VarintField then
      if tag.wireType != 0 then Err(WrongWireType(tag.fieldNum, tag.wireType))
      else VarintAt(data, tag.fieldNum, tag.next)
    else
      if tag.wireType != 2 then Err(WrongWireType(tag.fieldNum, tag.wireType))
      else BytesAt(data, tag.fieldNum, tag.next)
  }

  /** An unknown field: skipped with skipInternalRaft from the start of its tag. */
  function UnknownAt(data: seq<Byte>, pos: nat, fieldNum: I32): (r: Result<FieldRead>)
    requires pos < |data|
    ensures r.Ok? ==> pos < r.value.next <= |data| && r.value == FieldRead(fieldNum, Unknown, r.value.next)
  {
    match FieldLength(data, pos)
    case Err(e) => Err(e)
    case Ok(skippy) =>
      match SkipEnd(|data|, pos, skippy)
      case Err(e) => Err(e)
      case Ok(next) => Ok(FieldRead(fieldNum, Unknown, next))
  }

  /** A varint field whose value starts at `i`. */
  function VarintAt(data: seq<Byte>, fieldNum: I32, i: nat): (r: Result<FieldRead>)
    ensures r.Ok? ==> i < r.value.next <= |data| && r.value.fieldNum == fieldNum && r.value.payload.VarintValue?
  {
    match ReadVarint(data, i)
    case Fail(e) => Err(e)
    case Read(u, next) => Ok(FieldRead(fieldNum, VarintValue(u), next))
  }

  /** A length-delimited field whose length starts at `i`. */
  function BytesAt(data: seq<Byte>, fieldNum: I32, i: nat): (r: Result<FieldRead>)
    ensures r.Ok? ==> i < r.value.next <= |data| && r.value.fieldNum == fieldNum && r.value.payload.BytesValue?
  {
    match ReadVarint(data, i)
    case Fail(e) => Err(e)
    case Read(u, j) =>
      match PayloadEnd(|data|, j, I64Of(u))
      case Err(e) => Err(e)
      case Ok(post) => Ok(FieldRead(fieldNum, BytesValue(data[j..post]), post))
  }

  /** The loop `for iNdEx < l { ... }` of an Unmarshal from cursor `pos`, with the message
      decoded so far `m`; `apply` is what the message does with a known field (it is
      never called for an unknown field, which the loop only skips).  The final check
      `iNdEx > l` cannot fire, since every step stays within the data. */
  function DecodeFrom<M>(data: seq<Byte>, pos: nat, m: M, schema: Schema,
                         apply: (M, I32, Payload) -> Result<M>): Result<M>
    requires pos <= |data|
    decreases |data| - pos
  {
    if pos == |data| then Ok(m)
    else
      match NextField(data, pos, schema)
      case Err(e) => Err(e)
      case Ok(f) =>
        if f.payload.Unknown? then DecodeFrom(data, f.next, m, schema, apply)
        else
          match apply(m, f.fieldNum, f.payload)
          case Err(e) => Err(e)
          case Ok(m') => DecodeFrom(data, f.next, m', schema, apply)
  }

  // ----- The imperative code -----

  /** skipInternalRaft on data[start:]. */
  method Skip(data: seq<Byte>, start: nat) returns (r: Result<nat>)
    requires start < |data|
    ensures r == FieldLength(data, start)
    decreases |data| - start, 1
  {
    var tag := DecodeVarint(data, start);
    if tag.Fail? {
      return Err(tag.error);
    }
    r := SkipValue(data, start, tag.value % 8, tag.next);
  }

  /** The `switch wireType` of skipInternalRaft. */
  method SkipValue(data: seq<Byte>, start: nat, wireType: nat, i: nat) returns (r: Result<nat>)
    requires start < i <= |data|
    ensures r == ValueLength(data, start, wireType, i)
    decreases |data| - start, 0
  {
    if wireType == 0 {
      var v := DecodeVarint(data, i);
      if v.Fail? {
        return Err(v.error);
      }
      return Ok(v.next - start);
    } else if wireType == 1 {
      return Ok(i + 8 - start);
    } else if wireType == 2 {
      var v := DecodeVarint(data, i);
      if v.Fail? {
        return Err(v.error);
      }
      var length := I64Of(v.value);
      if length < 0 {
        return Err(InvalidLength);
      }
      if v.next - start + length > MAX_INT64 {
        return Err(InvalidLength);
      }
      return Ok(v.next + length - start);
    } else if wireType == 3 {
      r := SkipGroup(data, start, i);
    } else if wireType == 4 {
      return Ok(i - start);
    } else if wireType == 5 {
      return Ok(i + 4 - start);
    } else {
      return Err(IllegalWireType(wireType));
    }
  }

  /** The loop of skipInternalRaft's case 3: skip the fields of a group whose tag starts
      at `base`, from cursor `i`, up to and including its end-group tag. */
  method SkipGroup(data: seq<Byte>, base: nat, i: nat) returns (r: Result<nat>)
    requires base < i
    ensures r == GroupLength(data, base, i)
    decreases if i <= |data| then |data| - i else 0, 2
  {
    var start := i;
    while true
      invariant base < i <= start
      invariant GroupLength(data, base, start) == GroupLength(data, base, i)
      decreases if start <= |data| then |data| - start else 0
    {
      var inner := DecodeVarint(data, start);
      if inner.Fail? {
        return Err(inner.error);
      }
      if inner.value % 8 == 4 {
        return Ok(inner.next - base);
      }
      var next := Skip(data, start);
      if next.Err? {
        return Err(next.error);
      }
      start := start + next.value;
    }
  }

  /** The part of an Unmarshal loop body that is the same in every message. */
  method ReadField(data: seq<Byte>, pos: nat, schema: Schema) returns (r: Result<FieldRead>)
    requires pos < |data|
    ensures r == NextField(data, pos, schema)
  {
    var l := |data|;
    var tag := DecodeVarint(data, pos);
    if tag.Fail? {
      return Err(tag.error);
    }
    var wire, iNdEx := tag.value, tag.next;
    var fieldNum := I32Of(wire / 8);
    var wireType := wire % 8;
    if wireType == 4 {
      return Err(EndGroup);
    }
    if fieldNum <= 0 {
      return Err(IllegalTag(fieldNum, wire));
    }
    if fieldNum !in schema {
      var skippy := Skip(data, pos);
      if skippy.Err? {
        return Err(skippy.error);
      }
      if pos + skippy.value > l {
        return Err(UnexpectedEof);
      }
      return Ok(FieldRead(fieldNum, Unknown, pos + skippy.value));
    }
    if schema[fieldNum] == VarintField {
      if wireType != 0 {
        return Err(WrongWireType(fieldNum, wireType));
      }
      var v := DecodeVarint(data, iNdEx);
      if v.Fail? {
        return Err(v.error);
      }
      return Ok(FieldRead(fieldNum, VarintValue(v.value), v.next));
    }
    if wireType != 2 {
      return Err(WrongWireType(fieldNum, wireType));
    }
    var v := DecodeVarint(data, iNdEx);
    if v.Fail? {
      return Err(v.error);
    }
    iNdEx := v.next;
    var msglen := I64Of(v.value);
    if msglen < 0 {
      return Err(InvalidLength);
    }
    var postIndex := iNdEx + msglen;
    if postIndex > l {
      return Err(UnexpectedEof);
    }
    return Ok(FieldRead(fieldNum, BytesValue(data[iNdEx..postIndex]), postIndex));
  }

  // ----- Encoding one field -----

  /** The key of a field: `fieldNum << 3 | wireType`. */
  function Key(fieldNum: nat, wireType: nat): (r: U64)
    requires 0 < fieldNum < 0x8000_0000 && wireType < 8
    ensures r / 8 == fieldNum && r % 8 == wireType
  {
    fieldNum * 8 + wireType
  }

  /** A varint field as MarshalTo writes it: its key, then the value. */
  function KeyedVarint(fieldNum: nat, v: U64): seq<Byte>
    requires 0 < fieldNum < 0x8000_0000
  {
    Varint(Key(fieldNum, 0)) + Varint(v)
  }

  /** A length-delimited field as MarshalTo writes it: key, length, payload. */
  function KeyedBytes(fieldNum: nat, payload: seq<Byte>): seq<Byte>
    requires 0 < fieldNum < 0x8000_0000
  {
    Varint(Key(fieldNum, 2)) + Varint(|payload|) + payload
  }

  /** The tag of a key written at `pos` reads back as that field number and wire type. */
  lemma TagAt(data: seq<Byte>, pos: nat, fieldNum: nat, wireType: nat)
    requires 0 < fieldNum < 0x8000_0000 && wireType < 8
    requires At(data, pos, Varint(Key(fieldNum, wireType)))
    ensures ReadTag(data, pos) ==
      Ok(Tag(fieldNum, wireType, Key(fieldNum, wireType), pos + |Varint(Key(fieldNum, wireType))|))
  {
    ReadVarintOfVarint(data, pos, Key(fieldNum, wireType));
    assert I32Of(fieldNum) == fieldNum;
  }

  // ----- Skipping a field -----

  /** FieldLength of a varint field whose key `key` ends at `i` and whose value ends at `j`. */
  lemma SkipsVarint(data: seq<Byte>, pos: nat, key: U64, i: nat, v: U64, j: nat)
    requires pos < |data| && key % 8 == 0
    requires ReadVarint(data, pos) == Read(key, i) && ReadVarint(data, i) == Read(v, j)
    ensures FieldLength(data, pos) == Ok(j - pos)
  {
  }

  /** FieldLength of a fixed64 (wire type 1) or fixed32 (wire type 5) field. */
  lemma SkipsFixed(data: seq<Byte>, pos: nat, key: U64, i: nat)
    requires pos < |data| && ReadVarint(data, pos) == Read(key, i)
    ensures key % 8 == 1 ==> FieldLength(data, pos) == Ok(i + 8 - pos)
    ensures key % 8 == 5 ==> FieldLength(data, pos) == Ok(i + 4 - pos)
  {
  }

  /** FieldLength of a length-delimited field whose length `len` ends at `j`. */
  lemma SkipsBytes(data: seq<Byte>, pos: nat, key: U64, i: nat, len: U64, j: nat)
    requires pos < |data| && key % 8 == 2
    requires ReadVarint(data, pos) == Read(key, i) && ReadVarint(data, i) == Read(len, j)
    ensures len >= TWO_63 ==> FieldLength(data, pos) == Err(InvalidLength)
    ensures len < TWO_63 && j - pos + len <= MAX_INT64 ==> FieldLength(data, pos) == Ok(j + len - pos)
  {
  }

  /** FieldLength of a group whose end-group key `endKey` directly follows its key. */
  lemma SkipsEmptyGroup(data: seq<Byte>, pos: nat, key: U64, i: nat, endKey: U64, j: nat)
    requires pos < |data| && key % 8 == 3 && endKey % 8 == 4
    requires ReadVarint(data, pos) == Read(key, i) && ReadVarint(data, i) == Read(endKey, j)
    ensures FieldLength(data, pos) == Ok(j - pos)
  {
    assert ValueLength(data, pos, 3, i) == GroupLength(data, pos, i);
  }

  /** FieldLength refuses wire types 6 and 7. */
  lemma SkipsIllegal(data: seq<Byte>, pos: nat, key: U64, i: nat)
    requires pos < |data| && key % 8 >= 6 && ReadVarint(data, pos) == Read(key, i)
    ensures FieldLength(data, pos) == Err(IllegalWireType(key % 8))
  {
  }

  /** skipInternalRaft measures a varint field as its key and its value. */
  lemma FieldLengthOfVarint(data: seq<Byte>, pos: nat, key: U64, v: U64)
    requires key % 8 == 0 && At(data, pos, Varint(key) + Varint(v))
    ensures FieldLength(data, pos) == Ok(|Varint(key)| + |Varint(v)|)
  {
    var i := pos + |Varint(key)|;
    AtSplit(data, pos, Varint(key), Varint(v));
    ReadVarintOfVarint(data, pos, key);
    ReadVarintOfVarint(data, i, v);
    SkipsVarint(data, pos, key, i, v, i + |Varint(v)|);
  }

  /** ... a fixed64 or fixed32 field as its key and 8 or 4 bytes, whether or not
      they are there (the caller checks the end). */
  lemma FieldLengthOfFixed(data: seq<Byte>, pos: nat, key: U64, width: nat)
    requires (key % 8 == 1 && width == 8) || (key % 8 == 5 && width == 4)
    requires At(data, pos, Varint(key))
    ensures FieldLength(data, pos) == Ok(|Varint(key)| + width)
  {
    ReadVarintOfVarint(data, pos, key);
    SkipsFixed(data, pos, key, pos + |Varint(key)|);
  }

  /** ... a length-delimited field as its key, its length and the payload. */
  lemma FieldLengthOfBytes(data: seq<Byte>, pos: nat, key: U64, payload: seq<Byte>)
    requires key % 8 == 2 && |Varint(key) + Varint(|payload|) + payload| <= MAX_INT64
    requires At(data, pos, Varint(key) + Varint(|payload|) + payload)
    ensures FieldLength(data, pos) == Ok(|Varint(key)| + |Varint(|payload|)| + |payload|)
  {
    var len: U64 := |payload|;
    var i := pos + |Varint(key)|;
    var j := i + |Varint(len)|;
    assert At(data, pos, Varint(key)) && At(data, i, Varint(len)) && j + len <= |data| by {
      AtSplit(data, pos, Varint(key) + Varint(len), payload);
      AtSplit(data, pos, Varint(key), Varint(len));
    }
    assert ReadVarint(data, pos) == Read(key, i) by {
      ReadVarintOfVarint(data, pos, key);
    }
    assert ReadVarint(data, i) == Read(len, j) by {
      ReadVarintOfVarint(data, i, len);
    }
    SkipsBytes(data, pos, key, i, len, j);
  }

  /** ... and an empty group as its start-group and end-group keys. */
  lemma FieldLengthOfEmptyGroup(data: seq<Byte>, pos: nat, key: U64, endKey: U64)
    requires key % 8 == 3 && endKey % 8 == 4
    requires At(data, pos, Varint(key) + Varint(endKey))
    ensures FieldLength(data, pos) == Ok(|Varint(key)| + |Varint(endKey)|)
  {
    var i := pos + |Varint(key)|;
    AtSplit(data, pos, Varint(key), Varint(endKey));
    ReadVarintOfVarint(data, pos, key);
    ReadVarintOfVarint(data, i, endKey);
    SkipsEmptyGroup(data, pos, key, i, endKey, i + |Varint(endKey)|);
  }

  /** Wire types 6 and 7 cannot be skipped. */
  lemma FieldLengthIllegal(data: seq<Byte>, pos: nat, key: U64)
    requires key % 8 >= 6 && At(data, pos, Varint(key))
    ensures FieldLength(data, pos) == Err(IllegalWireType(key % 8))
  {
    ReadVarintOfVarint(data, pos, key);
    SkipsIllegal(data, pos, key, pos + |Varint(key)|);
  }

  /** A length-delimited field whose length, as an int64, is negative. */
  lemma FieldLengthNegative(data: seq<Byte>, pos: nat, key: U64, len: U64)
    requires key % 8 == 2 && len >= TWO_63
    requires At(data, pos, Varint(key) + Varint(len))
    ensures FieldLength(data, pos) == Err(InvalidLength)
  {
    var i := pos + |Varint(key)|;
    AtSplit(data, pos, Varint(key), Varint(len));
    ReadVarintOfVarint(data, pos, key);
    ReadVarintOfVarint(data, i, len);
    SkipsBytes(data, pos, key, i, len, i + |Varint(len)|);
  }

  // ----- Reading one field -----

  /** Where the parts of a varint field written at `pos` end: its key at `i`, its value
      at the end of the field. */
  lemma KeyedVarintParts(data: seq<Byte>, pos: nat, fieldNum: nat, v: U64) returns (i: nat)
    requires 0 < fieldNum < 0x8000_0000 && At(data, pos, KeyedVarint(fieldNum, v))
    ensures ReadVarint(data, pos) == Read(Key(fieldNum, 0), i)
    ensures ReadTag(data, pos) == Ok(Tag(fieldNum, 0, Key(fieldNum, 0), i))
    ensures ReadVarint(data, i) == Read(v, pos + |KeyedVarint(fieldNum, v)|)
  {
    var key := Key(fieldNum, 0);
    i := pos + |Varint(key)|;
    AtSplit(data, pos, Varint(key), Varint(v));
    TagAt(data, pos, fieldNum, 0);
    ReadVarintOfVarint(data, pos, key);
    ReadVarintOfVarint(data, i, v);
  }

  /** Where the parts of a length-delimited field written at `pos` end: its key at `i`,
      its length at `j`, its payload at the end of the field. */
  lemma KeyedBytesParts(data: seq<Byte>, pos: nat, fieldNum: nat, payload: seq<Byte>) returns (i: nat, j: nat)
    requires 0 < fieldNum < 0x8000_0000 && |payload| < TWO_64
    requires At(data, pos, KeyedBytes(fieldNum, payload))
    ensures ReadVarint(data, pos) == Read(Key(fieldNum, 2), i)
    ensures ReadTag(data, pos) == Ok(Tag(fieldNum, 2, Key(fieldNum, 2), i))
    ensures ReadVarint(data, i) == Read(|payload|, j)
    ensures j + |payload| == pos + |KeyedBytes(fieldNum, payload)| <= |data|
    ensures data[j..j + |payload|] == payload
  {
    var key := Key(fieldNum, 2);
    var len: U64 := |payload|;
    i := pos + |Varint(key)|;
    j := i + |Varint(len)|;
    AtSplit(data, pos, Varint(key) + Varint(len), payload);
    AtSplit(data, pos, Varint(key), Varint(len));
    TagAt(data, pos, fieldNum, 2);
    ReadVarintOfVarint(data, pos, key);
    ReadVarintOfVarint(data, i, len);
  }

  /** How the loop body treats a varint field, from the reads of its parts. */
  lemma VarintFieldRead(data: seq<Byte>, pos: nat, schema: Schema, fieldNum: I32, key: U64, i: nat, v: U64, j: nat)
    requires pos < |data| && fieldNum > 0 && key % 8 == 0
    requires ReadVarint(data, pos) == Read(key, i) && ReadTag(data, pos) == Ok(Tag(fieldNum, 0, key, i))
    requires ReadVarint(data, i) == Read(v, j)
    ensures fieldNum !in schema ==> NextField(data, pos, schema) == Ok(FieldRead(fieldNum, Unknown, j))
    ensures fieldNum in schema && schema[fieldNum] == VarintField ==>
      NextField(data, pos, schema) == Ok(FieldRead(fieldNum, VarintValue(v), j))
    ensures fieldNum in schema && schema[fieldNum] == BytesField ==>
      NextField(data, pos, schema) == Err(WrongWireType(fieldNum, 0))
  {
    if fieldNum !in schema {
      SkipsVarint(data, pos, key, i, v, j);
    }
  }

  /** How the loop body treats a length-delimited field, from the reads of its parts. */
  lemma BytesFieldRead(data: seq<Byte>, pos: nat, schema: Schema, fieldNum: I32, key: U64, i: nat, len: U64, j: nat)
    requires pos < |data| && fieldNum > 0 && key % 8 == 2
    requires ReadVarint(data, pos) == Read(key, i) && ReadTag(data, pos) == Ok(Tag(fieldNum, 2, key, i))
    requires ReadVarint(data, i) == Read(len, j) && len < TWO_63 && j + len <= |data| && j + len - pos <= MAX_INT64
    ensures fieldNum !in schema ==> NextField(data, pos, schema) == Ok(FieldRead(fieldNum, Unknown, j + len))
    ensures fieldNum in schema && schema[fieldNum] == BytesField ==>
      NextField(data, pos, schema) == Ok(FieldRead(fieldNum, BytesValue(data[j..j + len]), j + len))
    ensures fieldNum in schema && schema[fieldNum] == VarintField ==>
      NextField(data, pos, schema) == Err(WrongWireType(fieldNum, 2))
  {
    if fieldNum !in schema {
      SkipsBytes(data, pos, key, i, len, j);
    }
  }

  /** A varint field written at `pos` is read as its value if the message knows it as
      a varint field, skipped if the message does not know it, and refused otherwise. */
  lemma KeyedVarintAt(data: seq<Byte>, pos: nat, schema: Schema, fieldNum: nat, v: U64)
    requires 0 < fieldNum < 0x8000_0000 && At(data, pos, KeyedVarint(fieldNum, v))
    ensures var end := pos + |KeyedVarint(fieldNum, v)|;
      && (fieldNum !in schema ==> NextField(data, pos, schema) == Ok(FieldRead(fieldNum, Unknown, end)))
      && (fieldNum in schema && schema[fieldNum] == VarintField ==>
            NextField(data, pos, schema) == Ok(FieldRead(fieldNum, VarintValue(v), end)))
      && (fieldNum in schema && schema[fieldNum] == BytesField ==>
            NextField(data, pos, schema) == Err(WrongWireType(fieldNum, 0)))
  {
    var i := KeyedVarintParts(data, pos, fieldNum, v);
    VarintFieldRead(data, pos, schema, fieldNum, Key(fieldNum, 0), i, v, pos + |KeyedVarint(fieldNum, v)|);
  }

  /** A length-delimited field written at `pos` is read as its payload if the message
      knows it as a length-delimited field, skipped if the message does not know it,
      and refused otherwise. */
  lemma KeyedBytesAt(data: seq<Byte>, pos: nat, schema: Schema, fieldNum: nat, payload: seq<Byte>)
    requires 0 < fieldNum < 0x8000_0000 && |payload| < TWO_63 && |KeyedBytes(fieldNum, payload)| <= MAX_INT64
    requires At(data, pos, KeyedBytes(fieldNum, payload))
    ensures var end := pos + |KeyedBytes(fieldNum, payload)|;
      && (fieldNum !in schema ==> NextField(data, pos, schema) == Ok(FieldRead(fieldNum, Unknown, end)))
      && (fieldNum in schema && schema[fieldNum] == BytesField ==>
            NextField(data, pos, schema) == Ok(FieldRead(fieldNum, BytesValue(payload), end)))
      && (fieldNum in schema && schema[fieldNum] == VarintField ==>
            NextField(data, pos, schema) == Err(WrongWireType(fieldNum, 2)))
  {
    var i, j := KeyedBytesParts(data, pos, fieldNum, payload);
    BytesFieldRead(data, pos, schema, fieldNum, Key(fieldNum, 2), i, |payload|, j);
  }

  // ----- The loop -----

  /** The loop goes past an unknown field without touching the message. */
  lemma UnknownFieldSkipped<M>(data: seq<Byte>, pos: nat, m: M, schema: Schema,
                               apply: (M, I32, Payload) -> Result<M>, f: FieldRead)
    requires pos < |data| && NextField(data, pos, schema) == Ok(f) && f.payload.Unknown?
    ensures DecodeFrom(data, pos, m, schema, apply) == DecodeFrom(data, f.next, m, schema, apply)
  {
  }

  /** The loop hands a known field to the message and goes on after it. */
  lemma KnownFieldApplied<M>(data: seq<Byte>, pos: nat, m: M, schema: Schema,
                             apply: (M, I32, Payload) -> Result<M>, f: FieldRead, m': M)
    requires pos < |data| && NextField(data, pos, schema) == Ok(f) && !f.payload.Unknown?
    requires apply(m, f.fieldNum, f.payload) == Ok(m')
    ensures DecodeFrom(data, pos, m, schema, apply) == DecodeFrom(data, f.next, m', schema, apply)
  {
  }

  /** The loop stops with the error the message returns for a known field. */
  lemma KnownFieldRefused<M>(data: seq<Byte>, pos: nat, m: M, schema: Schema,
                             apply: (M, I32, Payload) -> Result<M>, f: FieldRead, e: DecodeError)
    requires pos < |data| && NextField(data, pos, schema) == Ok(f) && !f.payload.Unknown?
    requires apply(m, f.fieldNum, f.payload) == Err(e)
    ensures DecodeFrom(data, pos, m, schema, apply) == Err(e)
  {
  }

  // ----- A run of fields -----

  /** One field as a MarshalTo writes it. */
  datatype Field = VarintF(fieldNum: nat, v: U64) | BytesF(fieldNum: nat, payload: seq<Byte>)

  predicate Numbered(fs: seq<Field>)
  {
    forall i :: 0 <= i < |fs| ==> 0 < fs[i].fieldNum < 0x8000_0000
  }

  function EncodeField(f: Field): seq<Byte>
    requires 0 < f.fieldNum < 0x8000_0000
  {
    match f
    case VarintF(n, v) => KeyedVarint(n, v)
    case BytesF(n, p) => KeyedBytes(n, p)
  }

  /** The fields one after the other. */
  function EncodeFields(fs: seq<Field>): seq<Byte>
    requires Numbered(fs)
    decreases |fs|
  {
    if |fs| == 0 then [] else EncodeField(fs[0]) + EncodeFields(fs[1..])
  }

  function PayloadOf(f: Field): Payload
  {
    match f
    case VarintF(_, v) => VarintValue(v)
    case BytesF(_, p) => BytesValue(p)
  }

  /** What the loop of an Unmarshal does with a run of well-formed fields, without the
      bytes: skip unknown fields, refuse a known field of the other wire type, hand the
      others to `apply` in order and stop at its first error. */
  function ApplyFields<M>(m: M, fs: seq<Field>, schema: Schema, apply: (M, I32, Payload) -> Result<M>): Result<M>
    requires Numbered(fs)
    decreases |fs|
  {
    if |fs| == 0 then Ok(m)
    else
      var n := fs[0].fieldNum;
      if n !in schema then ApplyFields(m, fs[1..], schema, apply)
      else if (schema[n] == VarintField) != fs[0].VarintF? then
        Err(WrongWireType(n, if fs[0].VarintF? then 0 else 2))
      else
        var r := apply(m, n, PayloadOf(fs[0]));
        if r.Err? then Err(r.error) else ApplyFields(r.value, fs[1..], schema, apply)
  }

  /** The loop resumed at `pos` with the outcome `r` of the fields before it. */
  function Resume<M>(r: Result<M>, data: seq<Byte>, pos: nat, schema: Schema,
                     apply: (M, I32, Payload) -> Result<M>): Result<M>
    requires pos <= |data|
  {
    match r
    case Err(e) => Err(e)
    case Ok(m) => DecodeFrom(data, pos, m, schema, apply)
  }

  /** What the loop's field reader returns for field `f` whose bytes end at `end`. */
  function Expected(f: Field, schema: Schema, end: nat): Result<FieldRead>
    requires 0 < f.fieldNum < 0x8000_0000
  {
    var n := f.fieldNum;
    if n !in schema then Ok(FieldRead(n, Unknown, end))
    else if (schema[n] == VarintField) != f.VarintF? then Err(WrongWireType(n, if f.VarintF? then 0 else 2))
    else Ok(FieldRead(n, PayloadOf(f), end))
  }

  /** A field written at `pos` reads back as expected. */
  lemma FieldReadAt(data: seq<Byte>, pos: nat, end: nat, schema: Schema, f: Field)
    requires 0 < f.fieldNum < 0x8000_0000 && |data| <= MAX_INT64 && At(data, pos, EncodeField(f))
    requires end == pos + |EncodeField(f)|
    ensures ReadsField(data, pos, end, schema, f)
  {
    match f
    case VarintF(n, v) =>
      KeyedVarintAt(data, pos, schema, n, v);
    case BytesF(n, p) =>
      KeyedBytesAt(data, pos, schema, n, p);
  }

  /** The loop, given that the field reader returns what it returns for `f`, does
      what ApplyFields does with `f`. */
  lemma FieldStep<M>(data: seq<Byte>, pos: nat, m: M, schema: Schema,
                     apply: (M, I32, Payload) -> Result<M>, f: Field, end: nat)
    requires 0 < f.fieldNum < 0x8000_0000 && pos < end <= |data|
    requires NextField(data, pos, schema) == Expected(f, schema, end)
    ensures DecodeFrom(data, pos, m, schema, apply) ==
      Resume(ApplyFields(m, [f], schema, apply), data, end, schema, apply)
  {
    assert [f][1..] == [];
  }

  /** The field reader, at `pos`, reads field `f` ending at `end`. */
  ghost predicate ReadsField(data: seq<Byte>, pos: nat, end: nat, schema: Schema, f: Field)
    requires 0 < f.fieldNum < 0x8000_0000
  {
    pos < end <= |data| && NextField(data, pos, schema) == Expected(f, schema, end)
  }

  /** The field reader reads field `fs[i]` from `starts[i]` to `starts[i + 1]`, and the
      last one ends within the data. */
  ghost predicate ReadsAll(data: seq<Byte>, starts: seq<nat>, schema: Schema, fs: seq<Field>)
    requires Numbered(fs)
  {
    |starts| == |fs| + 1 && starts[|fs|] <= |data| &&
    forall i :: 0 <= i < |fs| ==> ReadsField(data, starts[i], starts[i + 1], schema, fs[i])
  }

  /** Where each of the fields `fs` starts when they are written one after the other
      from `pos` on, and where the last one ends. */
  function Offsets(pos: nat, fs: seq<Field>): (r: seq<nat>)
    requires Numbered(fs)
    ensures |r| == |fs| + 1 && r[0] == pos && r[|fs|] == pos + |EncodeFields(fs)|
    ensures forall i :: 0 <= i < |fs| ==> r[i + 1] == r[i] + |EncodeField(fs[i])|
    decreases |fs|
  {
    if |fs| == 0 then [pos]
    else
      var rest := Offsets(pos + |EncodeField(fs[0])|, fs[1..]);
      assert EncodeFields(fs) == EncodeField(fs[0]) + EncodeFields(fs[1..]);
      assert forall i :: 0 < i < |fs| ==> fs[i] == fs[1..][i - 1] && ([pos] + rest)[i] == rest[i - 1];
      [pos] + rest
  }

  /** A run of fields written at `pos` is each of its fields written at its offset. */
  lemma {:induction false} AtEach(data: seq<Byte>, pos: nat, fs: seq<Field>)
    requires Numbered(fs) && At(data, pos, EncodeFields(fs))
    ensures forall i :: 0 <= i < |fs| ==> At(data, Offsets(pos, fs)[i], EncodeField(fs[i]))
    decreases |fs|
  {
    if |fs| > 0 {
      var end := pos + |EncodeField(fs[0])|;
      AtSplit(data, pos, EncodeField(fs[0]), EncodeFields(fs[1..]));
      AtEach(data, end, fs[1..]);
      var r := Offsets(pos, fs);
      var rest := Offsets(end, fs[1..]);
      assert r == [pos] + rest;
      forall i | 0 < i < |fs|
        ensures At(data, r[i], EncodeField(fs[i]))
      {
        assert r[i] == rest[i - 1] && fs[i] == fs[1..][i - 1];
      }
    }
  }

  /** Fields written one after the other at `pos` are read one after the other. */
  lemma ReadsAllAt(data: seq<Byte>, pos: nat, schema: Schema, fs: seq<Field>) returns (starts: seq<nat>)
    requires Numbered(fs) && |data| <= MAX_INT64 && At(data, pos, EncodeFields(fs))
    ensures ReadsAll(data, starts, schema, fs)
    ensures starts[0] == pos && starts[|fs|] == pos + |EncodeFields(fs)|
  {
    starts := Offsets(pos, fs);
    AtEach(data, pos, fs);
    forall i | 0 <= i < |fs|
      ensures ReadsField(data, starts[i], starts[i + 1], schema, fs[i])
    {
      FieldReadAt(data, starts[i], starts[i + 1], schema, fs[i]);
    }
  }

  /** ApplyFields of a run that starts with one field. */
  lemma ApplyFieldsCons<M>(m: M, f: Field, rest: seq<Field>, schema: Schema, apply: (M, I32, Payload) -> Result<M>)
    requires 0 < f.fieldNum < 0x8000_0000 && Numbered(rest)
    ensures var r := ApplyFields(m, [f], schema, apply);
      ApplyFields(m, [f] + rest, schema, apply) ==
        if r.Err? then Err(r.error) else ApplyFields(r.value, rest, schema, apply)
  {
    assert ([f] + rest)[1..] == rest;
    assert [f][1..] == [];
  }

  /** The loop over fields `fs[k..]`, read one after the other, does what ApplyFields says,
      then goes on after them. */
  lemma {:induction false} FieldsFrom<M>(data: seq<Byte>, starts: seq<nat>, schema: Schema,
                                         apply: (M, I32, Payload) -> Result<M>, fs: seq<Field>, k: nat, m: M)
    requires Numbered(fs) && ReadsAll(data, starts, schema, fs) && k <= |fs| && starts[k] <= |data|
    ensures Numbered(fs[k..])
    ensures DecodeFrom(data, starts[k], m, schema, apply) ==
      Resume(ApplyFields(m, fs[k..], schema, apply), data, starts[|fs|], schema, apply)
    decreases |fs| - k
  {
    if k == |fs| {
      assert fs[k..] == [];
    } else {
      var r := ApplyFields(m, [fs[k]], schema, apply);
      assert ApplyFields(m, fs[k..], schema, apply) ==
        (if r.Err? then Err(r.error) else ApplyFields(r.value, fs[k + 1..], schema, apply)) by {
        ApplyFieldsCons(m, fs[k], fs[k + 1..], schema, apply);
        assert [fs[k]] + fs[k + 1..] == fs[k..];
      }
      assert DecodeFrom(data, starts[k], m, schema, apply) ==
        Resume(r, data, starts[k + 1], schema, apply) by {
        assert ReadsField(data, starts[k], starts[k + 1], schema, fs[k]);
        FieldStep(data, starts[k], m, schema, apply, fs[k], starts[k + 1]);
      }
      if r.Ok? {
        FieldsFrom(data, starts, schema, apply, fs, k + 1, r.value);
      }
    }
  }

  /** The loop over a run of fields written at `pos` does what ApplyFields says, then
      goes on after the run. */
  lemma FieldsAt<M>(data: seq<Byte>, pos: nat, m: M, schema: Schema,
                    apply: (M, I32, Payload) -> Result<M>, fs: seq<Field>)
    requires Numbered(fs) && |data| <= MAX_INT64 && At(data, pos, EncodeFields(fs))
    ensures DecodeFrom(data, pos, m, schema, apply) ==
      Resume(ApplyFields(m, fs, schema, apply), data, pos + |EncodeFields(fs)|, schema, apply)
  {
    var starts := ReadsAllAt(data, pos, schema, fs);
    FieldsFrom(data, starts, schema, apply, fs, 0, m);
    assert fs[0..] == fs;
  }

  /** ApplyFields of `fs` after the outcome `r` of the fields before them. */
  function Continue<M>(r: Result<M>, fs: seq<Field>, schema: Schema, apply: (M, I32, Payload) -> Result<M>): Result<M>
    requires Numbered(fs)
  {
    if r.Err? then Err(r.error) else ApplyFields(r.value, fs, schema, apply)
  }

  /** A run of one field is that field. */
  lemma EncodeFieldsOne(f: Field)
    requires 0 < f.fieldNum < 0x8000_0000
    ensures Numbered([f]) && EncodeFields([f]) == EncodeField(f)
  {
    assert [f][1..] == [];
  }

  /** ApplyFields of a run whose first field the message knows, with the wire type it expects. */
  lemma ApplyKnown<M>(m: M, fs: seq<Field>, schema: Schema, apply: (M, I32, Payload) -> Result<M>)
    requires Numbered(fs) && |fs| > 0 && fs[0].fieldNum in schema
    requires (schema[fs[0].fieldNum] == VarintField) == fs[0].VarintF?
    ensures Numbered(fs[1..])
    ensures ApplyFields(m, fs, schema, apply) ==
      Continue(apply(m, fs[0].fieldNum, PayloadOf(fs[0])), fs[1..], schema, apply)
  {
  }

  /** A field of a written run is skipped as its whole encoding, and its key is no
      end-group key. */
  lemma FieldOfRunSkipped(data: seq<Byte>, i: nat, f: Field)
    requires 0 < f.fieldNum < 0x8000_0000 && |data| <= MAX_INT64 && At(data, i, EncodeField(f))
    ensures ReadVarint(data, i).Read? && ReadVarint(data, i).value % 8 != 4
    ensures FieldLength(data, i) == Ok(|EncodeField(f)|)
  {
    match f {
      case VarintF(n, v) =>
        AtSplit(data, i, Varint(Key(n, 0)), Varint(v));
        ReadVarintOfVarint(data, i, Key(n, 0));
        FieldLengthOfVarint(data, i, Key(n, 0), v);
      case BytesF(n, p) =>
        AtSplit(data, i, Varint(Key(n, 2)) + Varint(|p|), p);
        AtSplit(data, i, Varint(Key(n, 2)), Varint(|p|));
        ReadVarintOfVarint(data, i, Key(n, 2));
        FieldLengthOfBytes(data, i, Key(n, 2), p);
    }
  }

  /** One turn of the group loop: a field that is not an end-group key is skipped. */
  lemma GroupStep(data: seq<Byte>, base: nat, i: nat, n: nat)
    requires base < i && ReadVarint(data, i).Read? && ReadVarint(data, i).value % 8 != 4
    requires FieldLength(data, i) == Ok(n)
    ensures GroupLength(data, base, i) == GroupLength(data, base, i + n)
  {
  }

  /** The group loop ends at an end-group key, just after it. */
  lemma GroupEnd(data: seq<Byte>, base: nat, i: nat)
    requires base < i && ReadVarint(data, i).Read? && ReadVarint(data, i).value % 8 == 4
    ensures GroupLength(data, base, i) == Ok(ReadVarint(data, i).next - base)
  {
  }

  /** The first field of a group's run, `n` bytes long, is skipped, and the rest of the
      run follows it. */
  lemma GroupSkipsFirst(data: seq<Byte>, base: nat, i: nat, fs: seq<Field>) returns (n: nat)
    requires base < i && Numbered(fs) && |fs| > 0 && |data| <= MAX_INT64
    requires At(data, i, EncodeFields(fs))
    ensures Numbered(fs[1..]) && n + |EncodeFields(fs[1..])| == |EncodeFields(fs)|
    ensures At(data, i + n, EncodeFields(fs[1..]))
    ensures GroupLength(data, base, i) == GroupLength(data, base, i + n)
  {
    n := |EncodeField(fs[0])|;
    AtSplit(data, i, EncodeField(fs[0]), EncodeFields(fs[1..]));
    FieldOfRunSkipped(data, i, fs[0]);
    GroupStep(data, base, i, n);
  }

  /** The group loop of skipInternalRaft, from cursor `i`, skips a written run of fields
      one by one and stops just after the end-group key at `e`, which follows them. */
  lemma {:induction false} GroupSkipsFields(data: seq<Byte>, base: nat, i: nat, fs: seq<Field>, e: nat)
    requires base < i && Numbered(fs) && |data| <= MAX_INT64 && At(data, i, EncodeFields(fs))
    requires e == i + |EncodeFields(fs)| && ReadVarint(data, e).Read? && ReadVarint(data, e).value % 8 == 4
    ensures GroupLength(data, base, i) == Ok(ReadVarint(data, e).next - base)
    decreases |fs|
  {
    if |fs| == 0 {
      assert e == i;
      GroupEnd(data, base, i);
    } else {
      var n := GroupSkipsFirst(data, base, i, fs);
      GroupSkipsFields(data, base, i + n, fs[1..], e);
    }
  }

  /** A start-group key sends skipInternalRaft into its group loop just after the key. */
  lemma FieldLengthOfStartGroup(data: seq<Byte>, pos: nat, key: U64, i: nat)
    requires pos < |data| && ReadVarint(data, pos) == Read(key, i) && key % 8 == 3
    ensures FieldLength(data, pos) == GroupLength(data, pos, i)
  {
  }

  /** skipInternalRaft measures a group as its start-group key, the fields it holds and
      its end-group key. */
  lemma FieldLengthOfGroup(data: seq<Byte>, pos: nat, fieldNum: nat, fs: seq<Field>)
    requires 0 < fieldNum < 0x8000_0000 && Numbered(fs) && |data| <= MAX_INT64
    requires At(data, pos, Varint(Key(fieldNum, 3)) + EncodeFields(fs) + Varint(Key(fieldNum, 4)))
    ensures FieldLength(data, pos) ==
      Ok(|Varint(Key(fieldNum, 3)) + EncodeFields(fs) + Varint(Key(fieldNum, 4))|)
  {
    var start, body, end := Varint(Key(fieldNum, 3)), EncodeFields(fs), Varint(Key(fieldNum, 4));
    var i, e := pos + |start|, pos + |start| + |body|;
    AtSplit(data, pos, start + body, end);
    AtSplit(data, pos, start, body);
    ReadVarintOfVarint(data, pos, Key(fieldNum, 3));
    ReadVarintOfVarint(data, e, Key(fieldNum, 4));
    assert ReadVarint(data, e).next == e + |end|;
    calc {
      FieldLength(data, pos);
      == { FieldLengthOfStartGroup(data, pos, Key(fieldNum, 3), i); }
      GroupLength(data, pos, i);
      == { GroupSkipsFields(data, pos, i, fs, e); }
      Ok(ReadVarint(data, e).next - pos);
      == { assert ReadVarint(data, e).next - pos == |start + body + end|; }
      Ok(|start + body + end|);
    }
  }

  /** Two runs written one after the other are the concatenation of their encodings. */
  lemma {:induction false} EncodeFieldsAppend(fa: seq<Field>, fb: seq<Field>)
    requires Numbered(fa) && Numbered(fb)
    ensures Numbered(fa + fb) && EncodeFields(fa + fb) == EncodeFields(fa) + EncodeFields(fb)
    decreases |fa|
  {
    if |fa| == 0 {
      assert fa + fb == fb;
    } else {
      assert (fa + fb)[0] == fa[0] && (fa + fb)[1..] == fa[1..] + fb;
      EncodeFieldsAppend(fa[1..], fb);
    }
  }

  /** ApplyFields of two runs is the second one applied after the first. */
  lemma {:induction false} ApplyFieldsAppend<M>(m: M, fa: seq<Field>, fb: seq<Field>, schema: Schema,
                                                apply: (M, I32, Payload) -> Result<M>)
    requires Numbered(fa) && Numbered(fb)
    ensures Numbered(fa + fb)
    ensures ApplyFields(m, fa + fb, schema, apply) == Continue(ApplyFields(m, fa, schema, apply), fb, schema, apply)
    decreases |fa|
  {
    if |fa| == 0 {
      assert fa + fb == fb;
    } else {
      assert (fa + fb)[0] == fa[0] && (fa + fb)[1..] == fa[1..] + fb;
      var n := fa[0].fieldNum;
      if n !in schema {
        ApplyFieldsAppend(m, fa[1..], fb, schema, apply);
      } else if (schema[n] == VarintField) == fa[0].VarintF? {
        var r := apply(m, n, PayloadOf(fa[0]));
        if r.Ok? {
          ApplyFieldsAppend(r.value, fa[1..], fb, schema, apply);
        }
      }
    }
  }

  /** ApplyFields of three runs, one after the other. */
  lemma ApplyFieldsAppend3<M>(m: M, fa: seq<Field>, fb: seq<Field>, fc: seq<Field>, schema: Schema,
                              apply: (M, I32, Payload) -> Result<M>)
    requires Numbered(fa) && Numbered(fb) && Numbered(fc)
    ensures Numbered(fa + fb) && Numbered(fa + fb + fc)
    ensures ApplyFields(m, fa + fb + fc, schema, apply) ==
      Continue(Continue(ApplyFields(m, fa, schema, apply), fb, schema, apply), fc, schema, apply)
  {
    ApplyFieldsAppend(m, fa, fb, schema, apply);
    ApplyFieldsAppend(m, fa + fb, fc, schema, apply);
  }

  /** ApplyFields of one field the message knows, with the wire type it expects. */
  lemma ApplyOne<M>(m: M, f: Field, schema: Schema, apply: (M, I32, Payload) -> Result<M>)
    requires 0 < f.fieldNum < 0x8000_0000 && f.fieldNum in schema
    requires (schema[f.fieldNum] == VarintField) == f.VarintF?
    ensures Numbered([f]) && ApplyFields(m, [f], schema, apply) == apply(m, f.fieldNum, PayloadOf(f))
  {
    assert [f][1..] == [];
  }

  /** Decoding exactly a run of fields. */
  lemma DecodeFields<M>(m: M, schema: Schema, apply: (M, I32, Payload) -> Result<M>, fs: seq<Field>)
    requires Numbered(fs) && |EncodeFields(fs)| <= MAX_INT64
    ensures DecodeFrom(EncodeFields(fs), 0, m, schema, apply) == ApplyFields(m, fs, schema, apply)
  {
    var data := EncodeFields(fs);
    AtWhole(data);
    FieldsAt(data, 0, m, schema, apply, fs);
    ResumeAtEnd(ApplyFields(m, fs, schema, apply), data, schema, apply);
  }

  /** At the end of the data the loop stops with what it has. */
  lemma ResumeAtEnd<M>(r: Result<M>, data: seq<Byte>, schema: Schema, apply: (M, I32, Payload) -> Result<M>)
    ensures Resume(r, data, |data|, schema, apply) == r
  {
  }

  // ----- The checks of the loop body -----

  /** A tag cut short by the end of the data: io.ErrUnexpectedEOF. */
  lemma NextFieldTruncatedTag(data: seq<Byte>, pos: nat, schema: Schema)
    requires pos < |data| && |data| - pos < 10
    requires forall j :: pos <= j < |data| ==> data[j] >= 0x80
    ensures NextField(data, pos, schema) == Err(UnexpectedEof)
  {
    ReadVarintTruncated(data, pos, pos);
  }

  /** Ten bytes with the continuation bit: ErrIntOverflowInternalRaft. */
  lemma NextFieldOverlongTag(data: seq<Byte>, pos: nat, schema: Schema)
    requires pos + 10 <= |data|
    requires forall j :: pos <= j < pos + 10 ==> data[j] >= 0x80
    ensures NextField(data, pos, schema) == Err(IntOverflow)
  {
    ReadVarintOverflow(data, pos, pos);
  }

  /** The checks on the tag itself, in the order the loop makes them. */
  lemma NextFieldTagChecks(data: seq<Byte>, pos: nat, schema: Schema)
    requires pos < |data| && ReadTag(data, pos).Ok?
    ensures var t := ReadTag(data, pos).value;
      && (t.wireType == 4 ==> NextField(data, pos, schema) == Err(EndGroup))
      && (t.wireType != 4 && t.fieldNum <= 0 ==>
            NextField(data, pos, schema) == Err(IllegalTag(t.fieldNum, t.wire)))
      && (t.wireType != 4 && t.fieldNum > 0 && t.fieldNum in schema &&
          t.wireType != (if schema[t.fieldNum] == VarintField then 0 else 2) ==>
            NextField(data, pos, schema) == Err(WrongWireType(t.fieldNum, t.wireType)))
  {
  }

  /** A length-delimited known field whose length is negative as an int64, or whose
      payload runs past the end of the data. */
  lemma NextFieldBadLength(data: seq<Byte>, pos: nat, schema: Schema)
    requires pos < |data| && ReadTag(data, pos).Ok?
    requires var t := ReadTag(data, pos).value;
      t.wireType == 2 && t.fieldNum > 0 && t.fieldNum in schema && schema[t.fieldNum] == BytesField &&
      ReadVarint(data, t.next).Read?
    ensures var length := ReadVarint(data, ReadTag(data, pos).value.next);
      var u, i := length.value, length.next;
      && (I64Of(u) < 0 ==> NextField(data, pos, schema) == Err(InvalidLength))
      && (0 <= I64Of(u) && i + I64Of(u) > |data| ==> NextField(data, pos, schema) == Err(UnexpectedEof))
  {
  }

  /** An unknown field that the skip measures as running past the end of the data. */
  lemma NextFieldSkipPastEnd(data: seq<Byte>, pos: nat, schema: Schema)
    requires pos < |data| && ReadTag(data, pos).Ok?
    requires var t := ReadTag(data, pos).value; t.wireType != 4 && t.fieldNum > 0 && t.fieldNum !in schema
    requires FieldLength(data, pos).Ok? && pos + FieldLength(data, pos).value > |data|
    ensures NextField(data, pos, schema) == Err(UnexpectedEof)
  {
  }

  /** Any error of a field stops the loop with that error. */
  lemma DecodeFromStops<M>(data: seq<Byte>, pos: nat, m: M, schema: Schema, apply: (M, I32, Payload) -> Result<M>)
    requires pos < |data| && NextField(data, pos, schema).Err?
    ensures DecodeFrom(data, pos, m, schema, apply) == Err(NextField(data, pos, schema).error)
  {
  }
}
