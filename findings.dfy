/** Three places where roachpb/internal_raft.pb.go adds two Go `int`s that can both be
    large: the end of a length-delimited payload (`postIndex := iNdEx + msglen`), the
    cursor after an unknown field (`iNdEx + skippy`), and the cursor inside a group in
    skipInternalRaft (`iNdEx += length`, then `iNdEx = start + next`).  A Go `int` is
    64 bits wide and its addition wraps around, so each check that follows the
    addition can be passed by a sum that has become negative, and the next slice or
    index expression then panics.  The members below model the code as written, with
    the wrapping addition, exhibit an input on which it panics, and relate it to the
    exact checks of the Fields module (PayloadEnd, SkipEnd, ValueLength), which every
    decoder of the model uses and which report an error for that input instead. */
module Findings {
  import opened Wire
  import opened Varints
  import opened Fields
  import opened Messages

  /** Go's `a + b` on 64-bit `int`s: the sum modulo 2^64, read in two's complement. */
  function AddInt64(a: I64, b: I64): (r: I64)
    ensures (r - (a + b)) % TWO_64 == 0
    ensures -TWO_63 <= a + b <= MAX_INT64 ==> r == a + b
    ensures a >= 0 && b >= 0 ==> (r < 0 <==> a + b > MAX_INT64)
  {
    var s := a + b;
    if s > MAX_INT64 then s - TWO_64 else if s < -TWO_63 then s + TWO_64 else s
  }

  /** What a step of the Go code ends in: a value, an error return, or a run-time
      panic from a slice or index expression out of range. */
  datatype Step = Value(v: int) | Failed(error: DecodeError) | Panic

  // ----- postIndex := iNdEx + msglen -----

  /** A length-delimited field of every Unmarshal, as written: `msglen < 0` is refused,
      then `postIndex := iNdEx + msglen` wraps, `postIndex > l` is refused, and
      `data[iNdEx:postIndex]` panics when the wrapped end lies before the start. */
  function PayloadEndAsWritten(l: nat, start: nat, msglen: I64): (r: Step)
    requires start <= l <= MAX_INT64
    ensures r.Panic? <==> 0 <= msglen && start + msglen > MAX_INT64
    ensures r.Failed? ==> r == Failed(InvalidLength) || r == Failed(UnexpectedEof)
  {
    if msglen < 0 then Failed(InvalidLength)
    else
      var postIndex := AddInt64(start, msglen);
      if postIndex > l then Failed(UnexpectedEof)
      else if postIndex < start then Panic
      else Value(postIndex)
  }

  /** Without the wrap-around the code as written is PayloadEnd. */
  lemma PayloadEndAgrees(l: nat, start: nat, msglen: I64)
    requires start <= l <= MAX_INT64 && start + msglen <= MAX_INT64
    ensures PayloadEnd(l, start, msglen).Ok? ==> PayloadEndAsWritten(l, start, msglen) == Value(PayloadEnd(l, start, msglen).value)
    ensures PayloadEnd(l, start, msglen).Err? ==> PayloadEndAsWritten(l, start, msglen) == Failed(PayloadEnd(l, start, msglen).error)
  {
  }

  /** Where the code as written panics, PayloadEnd reports io.ErrUnexpectedEOF. */
  lemma PayloadEndRefusesWrap(l: nat, start: nat, msglen: I64)
    requires start <= l <= MAX_INT64 && PayloadEndAsWritten(l, start, msglen).Panic?
    ensures PayloadEnd(l, start, msglen) == Err(UnexpectedEof)
  {
  }

  /** The bytes 0xff (eight times) and 0x7f: the varint of 2^63 - 1, the largest `int`. */
  const MaxIntVarint: seq<Byte> := [0xff, 0xff, 0xff, 0xff, 0xff, 0xff, 0xff, 0xff, 0x7f]

  lemma MaxIntVarintIs()
    ensures Varint(MAX_INT64) == MaxIntVarint
  {
  }

  /** A RaftCommand whose field 2 (OriginReplica) claims 2^63 - 1 bytes. */
  const PayloadWrapInput: seq<Byte> := [0x12] + MaxIntVarint

  lemma PayloadWrapReads()
    ensures ReadVarint(PayloadWrapInput, 0) == Read(0x12, 1)
    ensures ReadVarint(PayloadWrapInput, 1) == Read(MAX_INT64, 10)
  {
    var data := PayloadWrapInput;
    MaxIntVarintIs();
    assert At(data, 1, Varint(MAX_INT64));
    ReadVarintOfVarint(data, 1, MAX_INT64);
  }

  /** On PayloadWrapInput the code as written computes postIndex = 10 + (2^63 - 1),
      which wraps to a negative number, passes `postIndex > l`, and slices
      data[10:postIndex], which panics; the model returns io.ErrUnexpectedEOF. */
  lemma CommandPayloadWraps(nested: NestedCodec, m: Command)
    ensures PayloadEndAsWritten(|PayloadWrapInput|, 10, MAX_INT64) == Panic
    ensures DecodeCommand(nested, PayloadWrapInput, m) == Err(UnexpectedEof)
  {
    PayloadWrapField();
  }

  /** The only field of PayloadWrapInput ends past the end of the 10 bytes. */
  lemma PayloadWrapField()
    ensures NextField(PayloadWrapInput, 0, CommandSchema) == Err(UnexpectedEof)
  {
    PayloadWrapReads();
    assert ReadTag(PayloadWrapInput, 0) == Ok(Tag(2, 2, 0x12, 1));
  }

  // ----- iNdEx + skippy -----

  /** The `default:` branch of every Unmarshal, as written, once skipInternalRaft has
      returned `skippy`: `skippy < 0` is refused, `(iNdEx + skippy) > l` is checked on a
      wrapping sum, and `iNdEx += skippy` stores it; a negative cursor passes the loop
      test `iNdEx < l` and the next `data[iNdEx]` panics. */
  function SkipEndAsWritten(l: nat, pos: nat, skippy: I64): (r: Step)
    requires pos < l <= MAX_INT64
    ensures r.Panic? <==> 0 <= skippy && pos + skippy > MAX_INT64
    ensures r.Failed? ==> r == Failed(InvalidLength) || r == Failed(UnexpectedEof)
  {
    if skippy < 0 then Failed(InvalidLength)
    else
      var sum := AddInt64(pos, skippy);
      if sum > l then Failed(UnexpectedEof)
      else if sum < 0 then Panic
      else Value(sum)
  }

  /** Without the wrap-around the code as written is SkipEnd. */
  lemma SkipEndAgrees(l: nat, pos: nat, skippy: nat)
    requires pos < l <= MAX_INT64 && pos + skippy <= MAX_INT64
    ensures SkipEnd(l, pos, skippy).Ok? ==> SkipEndAsWritten(l, pos, skippy) == Value(SkipEnd(l, pos, skippy).value)
    ensures SkipEnd(l, pos, skippy).Err? ==> SkipEndAsWritten(l, pos, skippy) == Failed(SkipEnd(l, pos, skippy).error)
  {
  }

  /** Where the code as written panics, SkipEnd reports io.ErrUnexpectedEOF. */
  lemma SkipEndRefusesWrap(l: nat, pos: nat, skippy: nat)
    requires pos < l <= MAX_INT64 && skippy <= MAX_INT64 && SkipEndAsWritten(l, pos, skippy).Panic?
    ensures SkipEnd(l, pos, skippy) == Err(UnexpectedEof)
  {
  }

  /** The varint of 2^63 - 11. */
  const NearMaxVarint: seq<Byte> := [0xf5, 0xff, 0xff, 0xff, 0xff, 0xff, 0xff, 0xff, 0x7f]

  lemma NearMaxVarintIs()
    ensures Varint(0x7FFF_FFFF_FFFF_FFF5) == NearMaxVarint
  {
  }

  /** A RaftTruncatedState with Index 0 followed by an unknown field 3 of wire type 2
      whose length is 2^63 - 11. */
  const SkipWrapInput: seq<Byte> := [0x08, 0x00, 0x1a] + NearMaxVarint

  /** The first field of SkipWrapInput: Index = 0, ending at 2. */
  lemma SkipWrapFirstField()
    ensures NextField(SkipWrapInput, 0, TruncatedStateSchema) == Ok(FieldRead(1, VarintValue(0), 2))
  {
    var data := SkipWrapInput;
    assert At(data, 0, Varint(0x08));
    ReadVarintOfVarint(data, 0, 0x08);
    assert At(data, 1, Varint(0));
    ReadVarintOfVarint(data, 1, 0);
  }

  /** The second field of SkipWrapInput spans 2^63 - 1 bytes from position 2, past the
      end of the 12 bytes. */
  lemma SkipWrapSecondField()
    ensures FieldLength(SkipWrapInput, 2) == Ok(MAX_INT64)
    ensures NextField(SkipWrapInput, 2, TruncatedStateSchema) == Err(UnexpectedEof)
  {
    SkipWrapReads();
    assert FieldLength(SkipWrapInput, 2) == Ok(MAX_INT64);
  }

  lemma SkipWrapReads()
    ensures ReadVarint(SkipWrapInput, 2) == Read(0x1a, 3)
    ensures ReadVarint(SkipWrapInput, 3) == Read(0x7FFF_FFFF_FFFF_FFF5, 12)
  {
    var data := SkipWrapInput;
    NearMaxVarintIs();
    assert At(data, 3, Varint(0x7FFF_FFFF_FFFF_FFF5));
    ReadVarintOfVarint(data, 3, 0x7FFF_FFFF_FFFF_FFF5);
  }

  /** On SkipWrapInput skipInternalRaft returns skippy = 2^63 - 1 at iNdEx = 2, the sum
      wraps, and the code as written indexes data with a negative cursor; the model
      returns io.ErrUnexpectedEOF. */
  lemma TruncatedStateSkipWraps(m: TruncatedState)
    ensures SkipEndAsWritten(|SkipWrapInput|, 2, MAX_INT64) == Panic
    ensures DecodeTruncatedState(SkipWrapInput, m) == Err(UnexpectedEof)
  {
    SkipWrapFirstField();
    SkipWrapSecondField();
    assert DecodeFrom(SkipWrapInput, 2, m.(index := 0), TruncatedStateSchema, ApplyTruncatedState) == Err(UnexpectedEof);
  }

  // ----- iNdEx += length; iNdEx = start + next -----

  /** skipInternalRaft's case 2 as written, from the cursor `j` after the length:
      `iNdEx += length` wraps, and only `length < 0` is refused, so a wrapped,
      negative cursor is returned as the field's length. */
  function BytesSkipAsWritten(j: nat, length: I64): (r: Step)
    requires j <= MAX_INT64
    ensures r.Value? && r.v < 0 <==> 0 <= length && j + length > MAX_INT64
  {
    var iNdEx := AddInt64(j, length);
    if length < 0 then Failed(InvalidLength) else Value(iNdEx)
  }

  /** One turn of skipInternalRaft's group loop as written, once the recursive call on
      data[start:] has returned `next`: `iNdEx = start + next` wraps, and a negative
      cursor passes `iNdEx >= l` and makes `data[iNdEx]` panic on the next turn. */
  function GroupStepAsWritten(start: nat, next: I64): (r: Step)
    requires start <= MAX_INT64
    ensures r.Panic? <==> AddInt64(start, next) < 0
  {
    var iNdEx := AddInt64(start, next);
    if iNdEx < 0 then Panic else Value(iNdEx)
  }

  /** Where case 2 as written returns a wrapped length, ValueLength refuses the field
      with ErrInvalidLengthInternalRaft, inside a group as at the top level. */
  lemma ValueLengthRefusesWrap(data: seq<Byte>, start: nat, i: nat, u: U64, j: nat)
    requires start < i <= |data| <= MAX_INT64 && ReadVarint(data, i) == Read(u, j)
    requires BytesSkipAsWritten(j - start, I64Of(u)).Value? && BytesSkipAsWritten(j - start, I64Of(u)).v < 0
    ensures ValueLength(data, start, 2, i) == Err(InvalidLength)
  {
  }

  /** A RaftTruncatedState whose unknown field 3 is a group holding a field 2 of wire
      type 2 with length 2^63 - 1. */
  const GroupWrapInput: seq<Byte> := [0x1b, 0x12] + MaxIntVarint

  lemma GroupWrapReads()
    ensures ReadVarint(GroupWrapInput, 0) == Read(0x1b, 1)
    ensures ReadVarint(GroupWrapInput, 1) == Read(0x12, 2)
    ensures ReadVarint(GroupWrapInput, 2) == Read(MAX_INT64, 11)
  {
    var data := GroupWrapInput;
    MaxIntVarintIs();
    assert At(data, 2, Varint(MAX_INT64));
    ReadVarintOfVarint(data, 2, MAX_INT64);
  }

  /** skipInternalRaft, as modelled, refuses the group: its inner field is too long. */
  lemma GroupWrapLength()
    ensures FieldLength(GroupWrapInput, 0) == Err(InvalidLength)
  {
    var data := GroupWrapInput;
    GroupWrapReads();
    assert FieldLength(data, 1) == Err(InvalidLength);
    assert GroupLength(data, 0, 1) == Err(InvalidLength);
  }

  /** On GroupWrapInput the recursive skip of data[1:] returns the wrapped
      10 + (2^63 - 1), the group loop sets iNdEx = 1 + that, a negative number, and
      reads data[iNdEx], which panics; the model returns ErrInvalidLengthInternalRaft. */
  lemma TruncatedStateGroupWraps(m: TruncatedState)
    ensures BytesSkipAsWritten(10, MAX_INT64) == Value(10 + MAX_INT64 - TWO_64)
    ensures GroupStepAsWritten(1, 10 + MAX_INT64 - TWO_64) == Panic
    ensures DecodeTruncatedState(GroupWrapInput, m) == Err(InvalidLength)
  {
    GroupWrapReads();
    GroupWrapLength();
    assert NextField(GroupWrapInput, 0, TruncatedStateSchema) == Err(InvalidLength);
  }

  /** A RaftTruncatedState whose unknown field 3 is a group holding a field 2 of wire
      type 2 with length 2^63 - 11: the inner field spans exactly 2^63 - 1 bytes. */
  const GroupNextWrapInput: seq<Byte> := [0x1b, 0x12] + NearMaxVarint

  lemma GroupNextWrapReads()
    ensures ReadVarint(GroupNextWrapInput, 0) == Read(0x1b, 1)
    ensures ReadVarint(GroupNextWrapInput, 1) == Read(0x12, 2)
    ensures ReadVarint(GroupNextWrapInput, 2) == Read(0x7FFF_FFFF_FFFF_FFF5, 11)
  {
    var data := GroupNextWrapInput;
    NearMaxVarintIs();
    assert At(data, 2, Varint(0x7FFF_FFFF_FFFF_FFF5));
    ReadVarintOfVarint(data, 2, 0x7FFF_FFFF_FFFF_FFF5);
  }

  /** The inner field is measured as 2^63 - 1 bytes, which no int cursor past 0 can
      add without wrapping; the model then finds no end-group tag in the data. */
  lemma GroupNextWrapLength()
    ensures FieldLength(GroupNextWrapInput, 1) == Ok(MAX_INT64)
    ensures FieldLength(GroupNextWrapInput, 0) == Err(UnexpectedEof)
  {
    var data := GroupNextWrapInput;
    GroupNextWrapReads();
    assert FieldLength(data, 1) == Ok(MAX_INT64);
    assert ReadVarint(data, 1 + MAX_INT64) == Fail(UnexpectedEof);
    assert GroupLength(data, 0, 1 + MAX_INT64) == Err(UnexpectedEof);
    assert GroupLength(data, 0, 1) == Err(UnexpectedEof);
  }

  /** On GroupNextWrapInput the recursive skip of data[1:] returns next = 2^63 - 1
      without wrapping, the group loop's `iNdEx = start + next` wraps to a negative
      number, and the next `data[iNdEx]` panics; the model returns io.ErrUnexpectedEOF. */
  lemma TruncatedStateGroupNextWraps(m: TruncatedState)
    ensures BytesSkipAsWritten(10, 0x7FFF_FFFF_FFFF_FFF5) == Value(MAX_INT64)
    ensures GroupStepAsWritten(1, MAX_INT64) == Panic
    ensures DecodeTruncatedState(GroupNextWrapInput, m) == Err(UnexpectedEof)
  {
    GroupNextWrapReads();
    GroupNextWrapLength();
    assert NextField(GroupNextWrapInput, 0, TruncatedStateSchema) == Err(UnexpectedEof);
  }
}
