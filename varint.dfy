/** Base-128 varints and little-endian fixed-width integers, as the Protocol Buffers
    encoding ("Base 128 Varints") defines them: encodeVarintInternalRaft, sovInternalRaft,
    encodeFixed64InternalRaft and encodeFixed32InternalRaft, and the varint loop that every
    Unmarshal and skipInternalRaft repeat inline. */
module Varints {
  import opened Wire

  function Pow(base: nat, k: nat): (r: nat)
    ensures base > 0 ==> r > 0
  {
    if k == 0 then 1 else base * Pow(base, k - 1)
  }

  /** The base-128 digits of `v`, least significant first; every byte but the last
      carries the continuation bit 0x80. */
  function Varint(v: nat): seq<Byte>
  {
    if v < 0x80 then [v] else [v % 0x80 + 0x80] + Varint(v / 0x80)
  }

  /** Every byte of a varint except the last has bit 0x80 set; the last is below 0x80. */
  lemma {:induction false} VarintShape(v: nat)
    ensures |Varint(v)| >= 1
    ensures forall k :: 0 <= k < |Varint(v)| - 1 ==> Varint(v)[k] >= 0x80
    ensures Varint(v)[|Varint(v)| - 1] < 0x80
  {
    if v >= 0x80 {
      VarintShape(v / 0x80);
      var rest := Varint(v / 0x80);
      assert Varint(v) == [v % 0x80 + 0x80] + rest;
      forall k | 0 < k < |Varint(v)| - 1
        ensures Varint(v)[k] >= 0x80
      {
        assert Varint(v)[k] == rest[k - 1];
      }
    }
  }

  /** A varint has at most `n` bytes exactly when the value is below 128^n. */
  lemma {:induction false} VarintLength(v: nat, n: nat)
    requires n >= 1
    ensures |Varint(v)| <= n <==> v < Pow(0x80, n)
  {
    if n > 1 {
      VarintLength(v / 0x80, n - 1);
    }
  }

  /** A 64-bit value never needs more than ten bytes. */
  lemma VarintAtMostTen(v: U64)
    ensures 1 <= |Varint(v)| <= 10
  {
    VarintShape(v);
    VarintLength(v, 10);
    assert Pow(0x80, 10) == 0x40_0000_0000_0000_0000;
  }

  /** sovInternalRaft: the number of bytes the varint of `x` takes. */
  method Sov(x: U64) returns (n: nat)
    ensures n == |Varint(x)|
    ensures 1 <= n <= 10
    ensures n == 1 <==> x < 0x80
  {
    VarintAtMostTen(x);
    var v := x;
    n := 0;
    while true
      invariant n + |Varint(v)| == |Varint(x)|
      decreases v
    {
      n := n + 1;
      v := v / 0x80;
      if v == 0 {
        break;
      }
    }
  }

  /** encodeVarintInternalRaft: writes the varint of `v` at `offset` and returns the
      offset just past it. */
  method EncodeVarint(data: array<Byte>, offset: nat, v: U64) returns (next: nat)
    requires offset + |Varint(v)| <= data.Length
    modifies data
    ensures next == offset + |Varint(v)|
    ensures Written(old(data[..]), data[..], offset, Varint(v))
  {
    ghost var before := data[..];
    ghost var written: seq<Byte> := [];
    WrittenNothing(before, offset);
    var w: nat := v;
    next := offset;
    while w >= 0x80
      invariant next == offset + |written|
      invariant written + Varint(w) == Varint(v)
      invariant Written(before, data[..], offset, written)
      decreases w
    {
      var b := w % 0x80 + 0x80;
      assert written + [b] + Varint(w / 0x80) == Varint(v);
      WrittenByte(before, data[..], offset, written, b);
      data[next] := b;
      written := written + [b];
      w := w / 0x80;
      next := next + 1;
    }
    WrittenByte(before, data[..], offset, written, w);
    data[next] := w;
    next := next + 1;
  }

  /** The `n` low bytes of `v`, least significant first. */
  function LittleEndian(v: nat, n: nat): seq<Byte>
  {
    if n == 0 then [] else [v % 0x100] + LittleEndian(v / 0x100, n - 1)
  }

  /** The number whose little-endian bytes are `s`. */
  function FromLittleEndian(s: seq<Byte>): nat
  {
    if s == [] then 0 else s[0] + 0x100 * FromLittleEndian(s[1..])
  }

  /** The `n` little-endian bytes of a value below 256^n give the value back. */
  lemma {:induction false} LittleEndianRoundTrip(v: nat, n: nat)
    requires v < Pow(0x100, n)
    ensures |LittleEndian(v, n)| == n
    ensures FromLittleEndian(LittleEndian(v, n)) == v
  {
    if n > 0 {
      LittleEndianRoundTrip(v / 0x100, n - 1);
      assert LittleEndian(v, n)[1..] == LittleEndian(v / 0x100, n - 1);
    }
  }

  /** Go's `v >> (8*k)`. */
  function ShiftRight8(v: nat, k: nat): nat
  {
    if k == 0 then v else ShiftRight8(v / 0x100, k - 1)
  }

  /** Byte `k` of the little-endian encoding is Go's `uint8(v >> (8*k))`. */
  lemma {:induction false} LittleEndianAt(v: nat, n: nat, k: nat)
    requires k < n
    ensures |LittleEndian(v, n)| == n
    ensures LittleEndian(v, n)[k] == ShiftRight8(v, k) % 0x100
  {
    LittleEndianLength(v, n);
    if k > 0 {
      LittleEndianAt(v / 0x100, n - 1, k - 1);
    }
  }

  lemma {:induction false} LittleEndianLength(v: nat, n: nat)
    ensures |LittleEndian(v, n)| == n
  {
    if n > 0 {
      LittleEndianLength(v / 0x100, n - 1);
    }
  }

  /** encodeFixed64InternalRaft: writes the eight little-endian bytes of `v`. */
  method EncodeFixed64(data: array<Byte>, offset: nat, v: U64) returns (next: nat)
    requires offset + 8 <= data.Length
    modifies data
    ensures next == offset + 8
    ensures Written(old(data[..]), data[..], offset, LittleEndian(v, 8))
  {
    data[offset] := v % 0x100;
    data[offset + 1] := v / 0x100 % 0x100;
    data[offset + 2] := v / 0x1_0000 % 0x100;
    data[offset + 3] := v / 0x100_0000 % 0x100;
    data[offset + 4] := v / 0x1_0000_0000 % 0x100;
    data[offset + 5] := v / 0x100_0000_0000 % 0x100;
    data[offset + 6] := v / 0x1_0000_0000_0000 % 0x100;
    data[offset + 7] := v / 0x100_0000_0000_0000 % 0x100;
    next := offset + 8;
    ShiftRight8Values(v);
    FixedWritten(old(data[..]), data[..], offset, v, 8);
  }

  /** encodeFixed32InternalRaft: writes the four little-endian bytes of `v`. */
  method EncodeFixed32(data: array<Byte>, offset: nat, v: nat) returns (next: nat)
    requires v < TWO_32
    requires offset + 4 <= data.Length
    modifies data
    ensures next == offset + 4
    ensures Written(old(data[..]), data[..], offset, LittleEndian(v, 4))
  {
    data[offset] := v % 0x100;
    data[offset + 1] := v / 0x100 % 0x100;
    data[offset + 2] := v / 0x1_0000 % 0x100;
    data[offset + 3] := v / 0x100_0000 % 0x100;
    next := offset + 4;
    ShiftRight8Values(v);
    FixedWritten(old(data[..]), data[..], offset, v, 4);
  }

  lemma {:induction false} ShiftRight8Succ(v: nat, k: nat)
    ensures ShiftRight8(v, k + 1) == ShiftRight8(v, k) / 0x100
  {
    if k > 0 {
      ShiftRight8Succ(v / 0x100, k - 1);
    }
  }

  lemma ShiftRight8Values(v: nat)
    ensures ShiftRight8(v, 0) == v
    ensures ShiftRight8(v, 1) == v / 0x100
    ensures ShiftRight8(v, 2) == v / 0x1_0000
    ensures ShiftRight8(v, 3) == v / 0x100_0000
    ensures ShiftRight8(v, 4) == v / 0x1_0000_0000
    ensures ShiftRight8(v, 5) == v / 0x100_0000_0000
    ensures ShiftRight8(v, 6) == v / 0x1_0000_0000_0000
    ensures ShiftRight8(v, 7) == v / 0x100_0000_0000_0000
  {
    ShiftRight8Succ(v, 0);
    ShiftRight8Succ(v, 1);
    assert v / 0x100 / 0x100 == v / 0x1_0000;
    ShiftRight8Succ(v, 2);
    assert v / 0x1_0000 / 0x100 == v / 0x100_0000;
    ShiftRight8Succ(v, 3);
    assert v / 0x100_0000 / 0x100 == v / 0x1_0000_0000;
    ShiftRight8Succ(v, 4);
    assert v / 0x1_0000_0000 / 0x100 == v / 0x100_0000_0000;
    ShiftRight8Succ(v, 5);
    assert v / 0x100_0000_0000 / 0x100 == v / 0x1_0000_0000_0000;
    ShiftRight8Succ(v, 6);
    assert v / 0x1_0000_0000_0000 / 0x100 == v / 0x100_0000_0000_0000;
  }

  /** The byte-by-byte writes of the fixed-width encoders amount to writing the
      little-endian run. */
  lemma FixedWritten(before: seq<Byte>, after: seq<Byte>, offset: nat, v: nat, n: nat)
    requires n <= 8 && offset + n <= |before| == |after|
    requires forall k :: 0 <= k < |after| && !(offset <= k < offset + n) ==> after[k] == before[k]
    requires forall k :: 0 <= k < n ==> after[offset + k] == ShiftRight8(v, k) % 0x100
    ensures Written(before, after, offset, LittleEndian(v, n))
  {
    var bytes := LittleEndian(v, n);
    LittleEndianLength(v, n);
    var want := before[..offset] + bytes + before[offset + n..];
    forall k | 0 <= k < |after|
      ensures after[k] == want[k]
    {
      if offset <= k < offset + n {
        LittleEndianAt(v, n, k - offset);
        assert after[offset + (k - offset)] == ShiftRight8(v, k - offset) % 0x100;
      }
    }
    assert after == want;
  }

  /** The outcome of reading one varint: its value and the position just after it,
      or the error that stopped the read. */
  datatype VarintRead = Read(value: nat, next: nat) | Fail(error: DecodeError)

  /** 2^(64 - 7n): a bound on what the groups of a varint from its `n`th on contribute,
      in units of their own weight, once the tenth group is cut to one bit. */
  function VarintCap(n: nat): (r: nat)
    requires n <= 9
    ensures r >= 2
    decreases 9 - n
  {
    if n == 9 then 2 else 0x80 * VarintCap(n + 1)
  }

  /** The value of the groups of the varint that starts at `start`, from the byte at `i`
      on, in units of that byte's weight.  The loop adds `(b & 0x7F) << shift` into a
      uint64: the groups occupy disjoint bits, so the OR is a sum, and at the tenth byte
      (shift 63) only the lowest bit of the group is kept.  Once ten bytes have been read
      with the continuation bit set the shift has reached 64 and the read fails. */
  function ReadVarintFrom(data: seq<Byte>, start: nat, i: nat): (r: VarintRead)
    requires start <= i <= start + 10
    ensures r.Read? ==> i < r.next <= |data| && r.next <= start + 10
    ensures r.Fail? ==> r.error == UnexpectedEof || r.error == IntOverflow
    decreases start + 10 - i
  {
    if i == start + 10 then Fail(IntOverflow)
    else if i >= |data| then Fail(UnexpectedEof)
    else if data[i] < 0x80 then Read(if i == start + 9 then data[i] % 2 else data[i], i + 1)
    else
      match ReadVarintFrom(data, start, i + 1)
      case Fail(e) => Fail(e)
      case Read(v, j) => Read(data[i] - 0x80 + 0x80 * v, j)
  }

  /** The groups from the `n`th on stay below VarintCap(n). */
  lemma {:induction false} ReadVarintFromBound(data: seq<Byte>, start: nat, i: nat)
    requires start <= i <= start + 9
    ensures ReadVarintFrom(data, start, i).Read? ==> ReadVarintFrom(data, start, i).value < VarintCap(i - start)
    decreases start + 10 - i
  {
    if i < |data| && data[i] >= 0x80 && i < start + 9 {
      ReadVarintFromBound(data, start, i + 1);
    }
  }

  /** One varint read from position `pos`: its value as a uint64 and the position after it. */
  function ReadVarint(data: seq<Byte>, pos: nat): (r: VarintRead)
    ensures r.Read? ==> r.value < TWO_64 && pos < r.next <= |data| && r.next <= pos + 10
    ensures r.Fail? ==> r.error == UnexpectedEof || r.error == IntOverflow
  {
    ReadVarintFromBound(data, pos, pos);
    assert VarintCap(0) == TWO_64;
    ReadVarintFrom(data, pos, pos)
  }

  /** A partial read `r` of the rest of a varint, seen from a reader that has already
      accumulated `acc` and whose next group is worth `scale`. */
  function Accumulated(r: VarintRead, acc: nat, scale: nat): VarintRead
  {
    match r
    case Fail(e) => Fail(e)
    case Read(v, j) => Read(acc + scale * v, j)
  }

  /** One turn of the decoders' varint loop on a byte with the continuation bit. */
  lemma AccumulateStep(data: seq<Byte>, start: nat, i: nat, acc: nat, scale: nat, group: nat)
    requires start <= i < start + 10 && i < |data| && data[i] >= 0x80
    requires i < start + 9 ==> group == data[i] - 0x80
    ensures Accumulated(ReadVarintFrom(data, start, i), acc, scale) ==
            Accumulated(ReadVarintFrom(data, start, i + 1), acc + scale * group, scale * 0x80)
  {
    match ReadVarintFrom(data, start, i + 1)
    case Fail(_) =>
    case Read(v, j) =>
      calc {
        acc + scale * (group + 0x80 * v);
        acc + scale * group + scale * (0x80 * v);
        { assert scale * (0x80 * v) == (scale * 0x80) * v; }
        acc + scale * group + (scale * 0x80) * v;
      }
  }

  /** The last byte of a varint: its group, cut to one bit if it is the tenth byte. */
  lemma LastGroupRead(data: seq<Byte>, start: nat, i: nat, group: nat)
    requires start <= i < start + 10 && i < |data| && data[i] < 0x80
    requires group == if i == start + 9 then data[i] % 2 else data[i]
    ensures ReadVarintFrom(data, start, i) == Read(group, i + 1)
  {
  }

  /** The varint loop that every Unmarshal and skipInternalRaft repeat inline. */
  method DecodeVarint(data: seq<Byte>, pos: nat) returns (r: VarintRead)
    ensures r == ReadVarint(data, pos)
  {
    var i := pos;
    var shift := 0;
    var scale: nat := 1;   // 1 << shift
    var wire: nat := 0;
    while true
      invariant pos <= i <= pos + 10 && shift == 7 * (i - pos)
      invariant Accumulated(ReadVarintFrom(data, pos, i), wire, scale) == ReadVarintFrom(data, pos, pos)
      decreases 70 - shift
    {
      if shift >= 64 {
        return Fail(IntOverflow);
      }
      if i >= |data| {
        return Fail(UnexpectedEof);
      }
      var b := data[i];
      var group := if b < 0x80 then b else b - 0x80;   // b & 0x7F
      if shift == 63 {
        group := group % 2;      // shifted by 63, only the lowest bit stays in a uint64
      }
      if b < 0x80 {
        LastGroupRead(data, pos, i, group);
        assert ReadVarintFrom(data, pos, pos) == Read(wire + scale * group, i + 1);
        return Read(wire + scale * group, i + 1);
      }
      AccumulateStep(data, pos, i, wire, scale, group);
      wire := wire + scale * group;
      scale := scale * 0x80;
      i := i + 1;
      shift := shift + 7;
    }
  }

  /** Reading the varint of `v` back yields `v` and the position just after it. */
  lemma {:induction false} ReadVarintFromVarint(data: seq<Byte>, start: nat, i: nat, v: nat)
    requires start <= i <= start + 9 && v < VarintCap(i - start)
    requires At(data, i, Varint(v))
    ensures ReadVarintFrom(data, start, i) == Read(v, i + |Varint(v)|)
    decreases start + 10 - i
  {
    assert data[i] == Varint(v)[0];
    if v >= 0x80 {
      var rest := Varint(v / 0x80);
      assert data[i + 1..i + 1 + |rest|] == data[i..i + |Varint(v)|][1..];
      ReadVarintFromVarint(data, start, i + 1, v / 0x80);
    }
  }

  /** Varint round trip: decoding the encoding of a 64-bit value gives it back. */
  lemma ReadVarintOfVarint(data: seq<Byte>, pos: nat, v: U64)
    requires At(data, pos, Varint(v))
    ensures ReadVarint(data, pos) == Read(v, pos + |Varint(v)|)
  {
    assert VarintCap(0) == TWO_64;
    ReadVarintFromVarint(data, pos, pos, v);
  }

  /** Input that ends while every remaining byte still has the continuation bit set,
      before ten bytes are read, is reported as io.ErrUnexpectedEOF. */
  lemma {:induction false} ReadVarintTruncated(data: seq<Byte>, start: nat, i: nat)
    requires start <= i <= |data| && |data| < start + 10
    requires forall j :: i <= j < |data| ==> data[j] >= 0x80
    ensures ReadVarintFrom(data, start, i) == Fail(UnexpectedEof)
    decreases |data| - i
  {
    if i < |data| {
      ReadVarintTruncated(data, start, i + 1);
    }
  }

  /** Ten bytes that all carry the continuation bit are reported as
      ErrIntOverflowInternalRaft (the shift reaches 64). */
  lemma {:induction false} ReadVarintOverflow(data: seq<Byte>, start: nat, i: nat)
    requires start <= i <= start + 10 && start + 10 <= |data|
    requires forall j :: i <= j < start + 10 ==> data[j] >= 0x80
    ensures ReadVarintFrom(data, start, i) == Fail(IntOverflow)
    decreases start + 10 - i
  {
    if i < start + 10 {
      ReadVarintOverflow(data, start, i + 1);
    }
  }
}
