/** Vocabulary shared by the protocol-buffer codec of roachpb/internal_raft.pb.go:
    bytes, Go's fixed-width integers and their conversions, the decoder's errors,
    and a predicate that describes writing a run of bytes into a buffer. */
module Wire {

  /** An element of a Go `[]byte`. */
  type Byte = x: int | 0 <= x < 0x100

  const TWO_32: int := 0x1_0000_0000
  const TWO_63: int := 0x8000_0000_0000_0000
  const TWO_64: int := 0x1_0000_0000_0000_0000
  const MAX_INT64: int := 0x7FFF_FFFF_FFFF_FFFF

  /** Go's `uint64`, `int64` (also `int`, 64 bits wide here) and `int32`. */
  type U64 = x: int | 0 <= x < 0x1_0000_0000_0000_0000
  type I64 = x: int | -0x8000_0000_0000_0000 <= x < 0x8000_0000_0000_0000
  type I32 = x: int | -0x8000_0000 <= x < 0x8000_0000

  datatype Option<T> = None | Some(value: T)

  /** The nested messages whose codecs live outside this file. */
  datatype NestedKind = ReplicaDescriptor | BatchRequest | RangeDescriptor | Timestamp | RaftEntry

  /** Whether the nested message's own `Unmarshal` accepts a payload.  The nested codecs
      are not part of this model, so every decoder takes this as a parameter. */
  type NestedCodec = (NestedKind, seq<Byte>) -> bool

  /** The errors an `Unmarshal` or `skipInternalRaft` can return. */
  datatype DecodeError =
    | UnexpectedEof                            // io.ErrUnexpectedEOF
    | IntOverflow                              // ErrIntOverflowInternalRaft
    | InvalidLength                            // ErrInvalidLengthInternalRaft
    | EndGroup                                 // "wiretype end group for non-group"
    | IllegalTag(fieldNum: int, wire: U64)     // "illegal tag %d (wire type %d)"
    | WrongWireType(field: int, wireType: nat) // "wrong wireType = %d for field ..."
    | IllegalWireType(wireType: nat)           // "illegal wireType %d"
    | NestedFailure(kind: NestedKind)          // the nested message's Unmarshal failed

  datatype Result<T> = Ok(value: T) | Err(error: DecodeError)

  /** Go's `int64(u)`: the two's-complement reading of a `uint64`. */
  function I64Of(u: U64): (r: I64)
    ensures (u - r) % TWO_64 == 0
    ensures r < 0 <==> u >= TWO_63
  {
    if u < TWO_63 then u else u - TWO_64
  }

  /** Go's `uint64(x)` of an `int64`. */
  function U64OfI64(x: I64): (r: U64)
    ensures (r - x) % TWO_64 == 0
  {
    if x < 0 then x + TWO_64 else x
  }

  /** Go's `uint64(x)` of an `int32`: sign extension. */
  function U64OfI32(x: I32): (r: U64)
    ensures (r - x) % TWO_64 == 0
    ensures x < 0 ==> r >= TWO_64 - TWO_32 / 2
  {
    if x < 0 then x + TWO_64 else x
  }

  /** Go's `int32(u)`: keeps the low 32 bits of `u`, read as a signed number. */
  function I32Of(u: U64): (r: I32)
    ensures (u - r) % TWO_32 == 0
  {
    var low := u % TWO_32;
    if low < TWO_32 / 2 then low else low - TWO_32
  }

  /** Converting an `int64` to `uint64` and back is the identity. */
  lemma I64RoundTrip(x: I64)
    ensures I64Of(U64OfI64(x)) == x
  {
  }

  /** Sign-extending an `int32` to `uint64` and truncating it back is the identity. */
  lemma I32RoundTrip(x: I32)
    ensures I32Of(U64OfI32(x)) == x
  {
    if x < 0 {
      assert (x + TWO_64) % TWO_32 == x + TWO_32;
    }
  }

  /** Truncating to `int32` keeps exactly the values below 2^31. */
  lemma I32OfKeeps(u: U64)
    ensures I32Of(u) == u <==> u < TWO_32 / 2
  {
  }

  /** Appending the head of `s` and then its tail appends `s`. */
  lemma AppendHead<T>(a: seq<T>, s: seq<T>)
    requires |s| > 0
    ensures a + [s[0]] + s[1..] == a + s
  {
    assert [s[0]] + s[1..] == s;
  }

  /** `bytes` occur in `data` from position `pos` on. */
  ghost predicate At(data: seq<Byte>, pos: nat, bytes: seq<Byte>)
  {
    pos + |bytes| <= |data| && data[pos..pos + |bytes|] == bytes
  }

  /** The whole of `data` occurs at its start. */
  lemma AtWhole(data: seq<Byte>)
    ensures At(data, 0, data)
  {
    assert data[0..|data|] == data;
  }

  /** A window holding `a + b` holds `a` and then `b`. */
  lemma AtSplit(data: seq<Byte>, pos: nat, a: seq<Byte>, b: seq<Byte>)
    requires At(data, pos, a + b)
    ensures At(data, pos, a) && At(data, pos + |a|, b)
  {
    assert data[pos..pos + |a|] == (a + b)[..|a|];
    assert data[pos + |a|..pos + |a| + |b|] == (a + b)[|a|..];
  }

  /** `after` is `before` with `bytes` written from `offset` on and nothing else changed. */
  ghost predicate Written(before: seq<Byte>, after: seq<Byte>, offset: nat, bytes: seq<Byte>)
  {
    offset + |bytes| <= |before| &&
    after == before[..offset] + bytes + before[offset + |bytes|..]
  }

  lemma WrittenNothing(s: seq<Byte>, offset: nat)
    requires offset <= |s|
    ensures Written(s, s, offset, [])
  {
    assert s == s[..offset] + [] + s[offset..];
  }

  /** Writing one more byte right after a written run extends the run. */
  lemma WrittenByte(before: seq<Byte>, mid: seq<Byte>, offset: nat, bytes: seq<Byte>, b: Byte)
    requires Written(before, mid, offset, bytes)
    requires offset + |bytes| < |before|
    ensures Written(before, mid[offset + |bytes| := b], offset, bytes + [b])
  {
    var i := offset + |bytes|;
    var after := mid[i := b];
    var want := before[..offset] + (bytes + [b]) + before[i + 1..];
    assert |after| == |want|;
    forall k | 0 <= k < |after|
      ensures after[k] == want[k]
    {
      if k < offset {
      } else if k < i {
        assert mid[k] == bytes[k - offset];
      } else if k == i {
      } else {
        assert mid[k] == before[i..][k - i];
      }
    }
  }

  /** Two adjacent written runs form one. */
  lemma WrittenThen(a: seq<Byte>, b: seq<Byte>, c: seq<Byte>, offset: nat, x: seq<Byte>, y: seq<Byte>)
    requires Written(a, b, offset, x)
    requires Written(b, c, offset + |x|, y)
    ensures Written(a, c, offset, x + y)
  {
    var i := offset + |x|;
    var want := a[..offset] + (x + y) + a[i + |y|..];
    assert |c| == |want|;
    forall k | 0 <= k < |c|
      ensures c[k] == want[k]
    {
      if k < offset {
        assert c[k] == b[k];
      } else if k < i {
        assert c[k] == b[k];
      } else if k < i + |y| {
      } else {
        assert c[k] == b[k];
      }
    }
  }

  /** Three adjacent written runs form one; `o1` and `o2` are where the second and
      the third start. */
  lemma WrittenThree(s0: seq<Byte>, s1: seq<Byte>, s2: seq<Byte>, s3: seq<Byte>,
                     o0: nat, o1: nat, o2: nat, x: seq<Byte>, y: seq<Byte>, z: seq<Byte>)
    requires Written(s0, s1, o0, x) && Written(s1, s2, o1, y) && Written(s2, s3, o2, z)
    requires o1 == o0 + |x| && o2 == o1 + |y|
    ensures Written(s0, s3, o0, x + y + z)
  {
    WrittenThen(s0, s1, s2, o0, x, y);
    WrittenThen(s0, s2, s3, o0, x + y, z);
  }

  /** One turn of a loop that writes `total` piece by piece: `written` is done, and
      `field` is the next piece. */
  lemma WrittenStep(before: seq<Byte>, mid: seq<Byte>, after: seq<Byte>, offset: nat,
                    written: seq<Byte>, field: seq<Byte>, rest: seq<Byte>, total: seq<Byte>)
    requires Written(before, mid, offset, written)
    requires Written(mid, after, offset + |written|, field)
    requires written + (field + rest) == total
    ensures Written(before, after, offset, written + field)
    ensures written + field + rest == total
  {
    WrittenThen(before, mid, after, offset, written, field);
    assert written + (field + rest) == written + field + rest;
  }

  /** A run written over the whole of `before` is all that `after` holds. */
  lemma WrittenWhole(before: seq<Byte>, after: seq<Byte>, bytes: seq<Byte>)
    requires Written(before, after, 0, bytes) && |bytes| == |before|
    ensures after == bytes
  {
    assert before[..0] + bytes + before[|bytes|..] == bytes;
  }
}
