/**
 A `String` travels exactly as the `Vec<u8>` of its UTF-8 bytes: the same
 writes on the way out, and on the way in the `Vec<u8>` decode followed by
 the UTF-8 check. The empty container is the count 0 and nothing else.
 */
module Strings {
  import opened Wire
  import opened ByteOrder
  import opened Primitives
  import opened Utf8
  import opened Schema
  import opened Serialization
  import opened Deserialization

  /** The `Vec<u8>` type whose serializer `String` delegates to. */
  const ByteVec: Ty := VecOf(Prim(U8))

  /** The bytes of a string, seen as `Vec<u8>` elements, are well typed. */
  lemma ByteElementsWellTyped(bs: seq<byte>)
    requires |bs| < LengthLimit
    ensures WellTyped(Elements(ByteElements(bs)), ByteVec)
  {
    ByteFieldsWellTyped(bs);
  }

  lemma {:induction false} ByteFieldsWellTyped(bs: seq<byte>)
    ensures FieldsWellTyped(ByteElements(bs), Repeat(Prim(U8), |bs|))
  {
    if bs != [] {
      ByteFieldsWellTyped(bs[1..]);
      ByteElementsCons(bs);
      RepeatCons(Prim(U8), |bs|);
    }
  }

  /** Each byte encodes as itself, so the element bytes of a `Vec<u8>` are
      the bytes. */
  lemma {:induction false} ByteFieldsEncoding(bs: seq<byte>, e: Endianness)
    ensures FieldsWellTyped(ByteElements(bs), Repeat(Prim(U8), |bs|))
    ensures EncodeFields(ByteElements(bs), Repeat(Prim(U8), |bs|), e) == bs
  {
    ByteFieldsWellTyped(bs);
    if bs != [] {
      ByteFieldsEncoding(bs[1..], e);
      ByteFieldsEncodingCons(bs, e);
    }
  }

  /** `ByteFieldsEncoding` for a non-empty string, from the fact for its tail. */
  lemma ByteFieldsEncodingCons(bs: seq<byte>, e: Endianness)
    requires bs != [] && FieldsWellTyped(ByteElements(bs), Repeat(Prim(U8), |bs|))
    requires FieldsWellTyped(ByteElements(bs[1..]), Repeat(Prim(U8), |bs| - 1))
    requires EncodeFields(ByteElements(bs[1..]), Repeat(Prim(U8), |bs| - 1), e) == bs[1..]
    ensures EncodeFields(ByteElements(bs), Repeat(Prim(U8), |bs|), e) == bs
  {
    ByteElementsCons(bs);
    RepeatCons(Prim(U8), |bs|);
    EncodeFieldsCons(Scalar(Int(bs[0])), ByteElements(bs[1..]), Prim(U8), Repeat(Prim(U8), |bs| - 1), e);
    ByteEncoding(bs[0], e);
    assert [bs[0]] + bs[1..] == bs;
  }

  /** A `u8` encodes as the one byte holding it, in either byte order. */
  lemma ByteEncoding(b: byte, e: Endianness)
    ensures EncodeScalar(Int(b), U8, e) == [b]
  {
    var bs := EncodeScalar(Int(b), U8, e);
    ScalarRoundTrip(Int(b), U8, e, []);
    assert bs + [] == bs;
    assert Bits(DecodeScalar(U8, bs, e).value.item, U8) == bs[0];
  }

  /** A string has the wire format of the `Vec<u8>` of its bytes. */
  lemma StringEncodesAsByteVec(bs: seq<byte>, e: Endianness)
    requires WellTyped(Text(bs), Str)
    ensures WellTyped(Elements(ByteElements(bs)), ByteVec)
    ensures Encode(Text(bs), Str, e) == Encode(Elements(ByteElements(bs)), ByteVec, e)
  {
    ByteFieldsEncoding(bs, e);
  }

  /** Serializing a string performs exactly the writes of serializing the
      `Vec<u8>` of its bytes, whatever the buffer, including the overflow. */
  lemma StringSerializesAsByteVec(bs: seq<byte>, buf: seq<byte>, e: Endianness)
    requires |bs| < LengthLimit
    ensures WellTyped(Elements(ByteElements(bs)), ByteVec)
    ensures SerializeString(bs, buf, e) == Serialize(Elements(ByteElements(bs)), ByteVec, buf, e)
  {
    var v := Elements(ByteElements(bs));
    ByteFieldsEncoding(bs, e);
    assert Encode(v, ByteVec, e) == LengthPrefix(|bs|, e) + bs;
    SerializeStringWritesEncoding(bs, buf, e);
    SerializeWritesEncoding(v, ByteVec, buf, e);
    WritesEncodingUnique(SerializeString(bs, buf, e), Serialize(v, ByteVec, buf, e), LengthPrefix(|bs|, e) + bs, buf);
  }

  /** Two writes of the same encoding into the same buffer have the same outcome. */
  lemma WritesEncodingUnique(r: Result<Written, SerializeError>, r': Result<Written, SerializeError>, enc: seq<byte>, buf: seq<byte>)
    requires WritesEncoding(r, enc, buf) && WritesEncoding(r', enc, buf)
    ensures r == r'
  {
    if r.Err? {
      assert r.error == BufferOverflow && r'.error == BufferOverflow;
    }
  }

  /** The `Vec<u8>` element loop: `left` bytes are available exactly when it
      succeeds, and then it stages them one element per byte. */
  lemma {:induction false} ByteEach(left: nat, rest: seq<byte>, staged: seq<Value>, total: nat, e: Endianness)
    ensures |rest| < left ==> DecodeEach(Prim(U8), left, rest, staged, total, e) == Err(Invalid)
    ensures |rest| >= left ==>
      DecodeEach(Prim(U8), left, rest, staged, total, e) == Ok(Decoded(staged + ByteElements(rest[..left]), total + left))
  {
    if left == 0 {
      assert ByteElements(rest[..0]) == [];
      assert staged + [] == staged;
    } else if |rest| == 0 {
      assert Decode(Prim(U8), rest, e).Err?;
    } else {
      var x := Scalar(Int(rest[0]));
      ByteDecode(rest, e);
      EachStep(Prim(U8), left, rest, rest[1..], staged, total, e, x, 1);
      ByteEach(left - 1, rest[1..], staged + [x], total + 1, e);
      if |rest| >= left {
        ByteElementsStep(rest, left, staged);
      }
    }
  }

  /** Staging the first byte, then the next `left - 1`, stages the first `left`. */
  lemma ByteElementsStep(rest: seq<byte>, left: nat, staged: seq<Value>)
    requires 0 < left <= |rest|
    ensures staged + [Scalar(Int(rest[0]))] + ByteElements(rest[1..][..left - 1]) == staged + ByteElements(rest[..left])
  {
    assert rest[1..][..left - 1] == rest[..left][1..];
    ByteElementsCons(rest[..left]);
  }

  /** A `u8` decodes as the byte in front, in either byte order. */
  lemma ByteDecode(buf: seq<byte>, e: Endianness)
    requires |buf| > 0
    ensures Decode(Prim(U8), buf, e) == Ok(Decoded(Scalar(Int(buf[0])), 1))
  {
    var s := DecodeScalar(U8, buf, e).value.item;
    assert Bits(s, U8) == buf[0];
  }

  /** `Vec<u8>` decode succeeds exactly when the String decoder's byte read
      does, consumes the same bytes, and yields those bytes as elements. */
  lemma ByteVecDecodes(buf: seq<byte>, e: Endianness)
    ensures DecodeVec(Prim(U8), buf, e).Ok? <==> DecodeByteVec(buf, e).Ok?
    ensures DecodeByteVec(buf, e).Ok? ==>
      var d := DecodeByteVec(buf, e).value;
      DecodeVec(Prim(U8), buf, e) == Ok(Decoded(Elements(ByteElements(d.item)), d.consumed))
  {
    if |buf| >= 4 {
      var n := ByteCount(buf, e);
      if 4 + n <= |buf| {
        FitsReadsAlike(buf, e, n);
      } else {
        ShortReadsAlike(buf, e, n);
      }
    } else {
      TinyReadsAlike(buf, e);
    }
  }

  /** The generic `Vec<u8>` read and the raw byte read of `buf` agree: both
      fail, or both take the same bytes. */
  predicate ReadsAlike(buf: seq<byte>, e: Endianness)
  {
    && (DecodeVec(Prim(U8), buf, e).Ok? <==> DecodeByteVec(buf, e).Ok?)
    && (DecodeByteVec(buf, e).Ok? ==>
          var d := DecodeByteVec(buf, e).value;
          DecodeVec(Prim(U8), buf, e) == Ok(Decoded(Elements(ByteElements(d.item)), d.consumed)))
  }

  /** `ReadsAlike` when the counted bytes all follow the count. */
  lemma FitsReadsAlike(buf: seq<byte>, e: Endianness, n: nat)
    requires DecodeScalar(U32, buf, e) == Ok(Decoded(Int(n), 4)) && 4 + n <= |buf|
    ensures ReadsAlike(buf, e)
  {
    ByteReadFits(buf, e, n);
    ByteVecFits(buf, e, n);
  }

  /** `ReadsAlike` when the count exceeds the bytes that follow it. */
  lemma ShortReadsAlike(buf: seq<byte>, e: Endianness, n: nat)
    requires DecodeScalar(U32, buf, e) == Ok(Decoded(Int(n), 4)) && |buf| < 4 + n
    ensures ReadsAlike(buf, e)
  {
    ByteVecShort(buf, e, n);
  }

  /** `ReadsAlike` when there is no room for the count. */
  lemma TinyReadsAlike(buf: seq<byte>, e: Endianness)
    requires |buf| < 4
    ensures ReadsAlike(buf, e)
  {
  }

  /** The count in front of a buffer of at least four bytes. */
  lemma ByteCount(buf: seq<byte>, e: Endianness) returns (n: nat)
    requires |buf| >= 4
    ensures DecodeScalar(U32, buf, e) == Ok(Decoded(Int(n), 4))
  {
    n := DecodeScalar(U32, buf, e).value.item.i;
  }

  /** A count whose bytes all follow it: the raw read takes exactly those bytes. */
  lemma ByteReadFits(buf: seq<byte>, e: Endianness, n: nat)
    requires DecodeScalar(U32, buf, e) == Ok(Decoded(Int(n), 4)) && 4 + n <= |buf|
    ensures DecodeByteVec(buf, e) == Ok(Decoded(buf[4..4 + n], 4 + n))
  {
  }

  /** A count whose bytes all follow it: the `Vec<u8>` read takes exactly those
      bytes, one element each. */
  lemma ByteVecFits(buf: seq<byte>, e: Endianness, n: nat)
    requires DecodeScalar(U32, buf, e) == Ok(Decoded(Int(n), 4)) && 4 + n <= |buf|
    ensures DecodeVec(Prim(U8), buf, e) == Ok(Decoded(Elements(ByteElements(buf[4..4 + n])), 4 + n))
  {
    ByteLoop(n, buf[4..], e);
    assert buf[4..][..n] == buf[4..4 + n];
    VecFromEach(Prim(U8), buf, e, n, ByteElements(buf[4..4 + n]), n);
  }

  /** The `Vec<u8>` element loop, started empty, takes the first `n` bytes. */
  lemma ByteLoop(n: nat, rest: seq<byte>, e: Endianness)
    requires n <= |rest|
    ensures DecodeEach(Prim(U8), n, rest, [], 0, e) == Ok(Decoded(ByteElements(rest[..n]), n))
  {
    ByteEach(n, rest, [], 0, e);
    assert [] + ByteElements(rest[..n]) == ByteElements(rest[..n]);
  }

  /** A `Vec<T>` read is its count followed by the element loop. */
  lemma VecFromEach(u: Ty, buf: seq<byte>, e: Endianness, n: nat, items: seq<Value>, m: nat)
    requires DecodeScalar(U32, buf, e) == Ok(Decoded(Int(n), 4)) && |buf| >= 4
    requires DecodeEach(u, n, buf[4..], [], 0, e) == Ok(Decoded(items, m))
    ensures DecodeVec(u, buf, e) == Ok(Decoded(Elements(items), m + 4))
  {
  }

  /** A count larger than the bytes that follow it: both readers fail. */
  lemma ByteVecShort(buf: seq<byte>, e: Endianness, n: nat)
    requires DecodeScalar(U32, buf, e) == Ok(Decoded(Int(n), 4)) && |buf| < 4 + n
    ensures DecodeByteVec(buf, e).Err? && DecodeVec(Prim(U8), buf, e).Err?
  {
    ByteEach(n, buf[4..], [], 0, e);
  }

  /** String decode is `Vec<u8>` decode followed by the UTF-8 check: it
      succeeds exactly when that decode does and its bytes are well-formed
      UTF-8, and then consumes the same bytes. */
  lemma StringDecodesAsByteVec(buf: seq<byte>, e: Endianness)
    ensures DecodeString(buf, e).Ok? <==>
      DecodeVec(Prim(U8), buf, e).Ok? && ValidUtf8(buf[4..DecodeVec(Prim(U8), buf, e).value.consumed])
    ensures DecodeString(buf, e).Ok? ==>
      var d := DecodeVec(Prim(U8), buf, e).value;
      && d.item == Elements(ByteElements(DecodeString(buf, e).value.item.bytes))
      && d.consumed == DecodeString(buf, e).value.consumed
  {
    ByteVecDecodes(buf, e);
  }

  /** The empty `Vec<T>` is the count 0 alone, and decodes back to empty. */
  lemma EmptyVec(u: Ty, e: Endianness, rest: seq<byte>)
    ensures WellTyped(Elements([]), VecOf(u))
    ensures Encode(Elements([]), VecOf(u), e) == [0, 0, 0, 0]
    ensures Decode(VecOf(u), [0, 0, 0, 0] + rest, e) == Ok(Decoded(Elements([]), 4))
  {
    assert Repeat(u, 0) == [];
    ZeroPrefix(e);
    assert ([0, 0, 0, 0] + rest)[..4] == [0, 0, 0, 0];
    ZeroCount([0, 0, 0, 0] + rest, e);
    assert DecodeEach(u, 0, ([0, 0, 0, 0] + rest)[4..], [], 0, e) == Ok(Decoded([], 0));
  }

  /** The empty `String` is the count 0 alone, and decodes back to empty. */
  lemma EmptyString(e: Endianness, rest: seq<byte>)
    ensures WellTyped(Text([]), Str)
    ensures Encode(Text([]), Str, e) == [0, 0, 0, 0]
    ensures Decode(Str, [0, 0, 0, 0] + rest, e) == Ok(Decoded(Text([]), 4))
  {
    ZeroPrefix(e);
    ZeroCount([0, 0, 0, 0] + rest, e);
    assert ([0, 0, 0, 0] + rest)[4..4] == [];
  }

  /** The count 0 is four zero bytes in either byte order. */
  lemma ZeroPrefix(e: Endianness)
    ensures LengthPrefix(0, e) == [0, 0, 0, 0]
  {
    ZeroBytes(4);
    var p := LengthPrefix(0, e);
    assert forall i :: 0 <= i < 4 ==> p[i] == 0;
  }

  /** The low `w` bytes of zero are all zero. */
  lemma {:induction false} ZeroBytes(w: nat)
    ensures forall i :: 0 <= i < w ==> LittleEndian(0, w)[i] == 0
  {
    if w > 0 {
      ZeroBytes(w - 1);
      assert LittleEndian(0, w) == [0] + LittleEndian(0, w - 1);
    }
  }

  /** Four zero bytes read as the count 0. */
  lemma ScalarDecodesZero(e: Endianness)
    ensures DecodeScalar(U32, [0, 0, 0, 0], e) == Ok(Decoded(Int(0), 4))
  {
    ZeroPrefix(e);
    ScalarRoundTrip(Int(0), U32, e, []);
    assert LengthPrefix(0, e) + [] == [0, 0, 0, 0];
  }

  lemma ZeroCount(buf: seq<byte>, e: Endianness)
    requires |buf| >= 4 && buf[..4] == [0, 0, 0, 0]
    ensures DecodeScalar(U32, buf, e) == Ok(Decoded(Int(0), 4))
  {
    ScalarDecodesZero(e);
  }

  /** Peeling the first byte off the element view. */
  lemma ByteElementsCons(bs: seq<byte>)
    requires bs != []
    ensures ByteElements(bs) == [Scalar(Int(bs[0]))] + ByteElements(bs[1..])
  {
  }
}
