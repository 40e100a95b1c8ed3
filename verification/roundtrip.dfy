/**
 Decoding inverts encoding. For every well-formed type and every value of it,
 under either byte order, decoding the encoding followed by any bytes yields
 the value back and consumes exactly the encoding.
 */
module RoundTrip {
  import opened Wire
  import opened Primitives
  import opened Utf8
  import opened Schema
  import opened Serialization
  import opened Deserialization

  lemma {:induction false} DecodeEncode(v: Value, t: Ty, e: Endianness, rest: seq<byte>)
    requires WellFormed(t) && WellTyped(v, t)
    ensures Decode(t, Encode(v, t, e) + rest, e) == Ok(Decoded(v, |Encode(v, t, e)|))
    decreases v, 1
  {
    match t
    case Prim(k) => ScalarRoundTrip(v.s, k, e, rest);
    case OptionOf(u) => OptionRoundTrip(v, u, e, rest);
    case VecOf(u) => VecRoundTrip(v, u, e, rest);
    case ArrayOf(u, n) => ArrayRoundTrip(v, u, n, e, rest);
    case Str => StringRoundTrip(v.bytes, e, rest);
    case Struct(ts) => StructRoundTrip(v, ts, e, rest);
    case Enum(vs) => VariantRoundTrip(v, vs, e, rest);
  }

  /** What a successful serialize writes decodes back to the value, with as
      many bytes consumed as were written, whether the decoder is given the
      whole buffer or exactly the written bytes. */
  lemma SerializeThenDecode(v: Value, t: Ty, buf: seq<byte>, e: Endianness)
    requires WellFormed(t) && WellTyped(v, t) && Serialize(v, t, buf, e).Ok?
    ensures var w := Serialize(v, t, buf, e).value;
      && Decode(t, w.buffer, e) == Ok(Decoded(v, w.size))
      && Decode(t, w.buffer[..w.size], e) == Ok(Decoded(v, w.size))
  {
    var enc := Encode(v, t, e);
    SerializeWritesEncoding(v, t, buf, e);
    DecodeEncode(v, t, e, buf[|enc|..]);
    DecodeEncode(v, t, e, []);
    assert enc + [] == enc;
    assert (enc + buf[|enc|..])[..|enc|] == enc;
  }

  lemma {:induction false} OptionRoundTrip(v: Value, u: Ty, e: Endianness, rest: seq<byte>)
    requires WellFormed(u) && WellTyped(v, OptionOf(u))
    ensures DecodeOption(u, Encode(v, OptionOf(u), e) + rest, e) == Ok(Decoded(v, |Encode(v, OptionOf(u), e)|))
    decreases v, 0
  {
    if v.Some? {
      var inner := Encode(v.inner, u, e);
      DecodeEncode(v.inner, u, e, rest);
      OptionConcat(u, inner, rest, v.inner, e);
    }
  }

  /** A presence byte 1 followed by bytes that decode to `x`. */
  lemma OptionConcat(u: Ty, inner: seq<byte>, rest: seq<byte>, x: Value, e: Endianness)
    requires Decode(u, inner + rest, e) == Ok(Decoded(x, |inner|))
    ensures DecodeOption(u, [1] + inner + rest, e) == Ok(Decoded(Some(x), |[1] + inner|))
  {
    Split3([1], inner, rest);
  }

  lemma {:induction false} VecRoundTrip(v: Value, u: Ty, e: Endianness, rest: seq<byte>)
    requires WellFormed(u) && WellTyped(v, VecOf(u))
    ensures DecodeVec(u, Encode(v, VecOf(u), e) + rest, e) == Ok(Decoded(v, |Encode(v, VecOf(u), e)|))
    decreases v, 0
  {
    var n := |v.items|;
    var prefix := LengthPrefix(n, e);
    var body := EncodeFields(v.items, Repeat(u, n), e);
    ScalarRoundTrip(Int(n), U32, e, body + rest);
    EachRoundTrip(v.items, u, e, rest, [], 0);
    VecConcat(u, prefix, body, rest, n, v.items, e);
  }

  /** A count `n` in four bytes followed by bytes the element loop reads as
      `items`. */
  lemma VecConcat(u: Ty, prefix: seq<byte>, body: seq<byte>, rest: seq<byte>, n: nat, items: seq<Value>, e: Endianness)
    requires DecodeScalar(U32, prefix + (body + rest), e) == Ok(Decoded(Int(n), 4)) && |prefix| == 4
    requires DecodeEach(u, n, body + rest, [], 0, e) == Ok(Decoded([] + items, 0 + |body|))
    ensures DecodeVec(u, prefix + body + rest, e) == Ok(Decoded(Elements(items), |prefix + body|))
  {
    Split3(prefix, body, rest);
    assert [] + items == items;
  }

  lemma {:induction false} ArrayRoundTrip(v: Value, u: Ty, n: nat, e: Endianness, rest: seq<byte>)
    requires WellFormed(u) && WellTyped(v, ArrayOf(u, n))
    ensures Decode(ArrayOf(u, n), Encode(v, ArrayOf(u, n), e) + rest, e) == Ok(Decoded(v, |Encode(v, ArrayOf(u, n), e)|))
    decreases v, 0
  {
    EachRoundTrip(v.items, u, e, rest, [], 0);
    assert [] + v.items == v.items;
  }

  lemma StringRoundTrip(bytes: seq<byte>, e: Endianness, rest: seq<byte>)
    requires |bytes| < LengthLimit && ValidUtf8(bytes)
    ensures DecodeString(LengthPrefix(|bytes|, e) + bytes + rest, e)
      == Ok(Decoded(Text(bytes), |LengthPrefix(|bytes|, e) + bytes|))
  {
    ByteVecRoundTrip(bytes, e, rest);
  }

  /** The count and the raw bytes of a `Vec<u8>` read back, whatever follows. */
  lemma ByteVecRoundTrip(bytes: seq<byte>, e: Endianness, rest: seq<byte>)
    requires |bytes| < LengthLimit
    ensures DecodeByteVec(LengthPrefix(|bytes|, e) + bytes + rest, e) == Ok(Decoded(bytes, 4 + |bytes|))
  {
    var prefix := LengthPrefix(|bytes|, e);
    var buf := prefix + bytes + rest;
    assert buf == prefix + (bytes + rest);
    ScalarRoundTrip(Int(|bytes|), U32, e, bytes + rest);
    assert buf[4..4 + |bytes|] == bytes;
  }

  lemma {:induction false} StructRoundTrip(v: Value, ts: seq<Ty>, e: Endianness, rest: seq<byte>)
    requires AllWellFormed(ts) && WellTyped(v, Struct(ts))
    ensures Decode(Struct(ts), Encode(v, Struct(ts), e) + rest, e) == Ok(Decoded(v, |Encode(v, Struct(ts), e)|))
    decreases v, 0
  {
    FieldsRoundTrip(v.fields, ts, e, rest);
  }

  lemma {:induction false} VariantRoundTrip(v: Value, vs: seq<VariantTy>, e: Endianness, rest: seq<byte>)
    requires WellFormed(Enum(vs)) && WellTyped(v, Enum(vs))
    ensures DecodeVariant(vs, Encode(v, Enum(vs), e) + rest, e) == Ok(Decoded(v, |Encode(v, Enum(vs), e)|))
    decreases v, 0
  {
    var fields := vs[v.index].fields;
    var body := EncodeFields(v.payload, fields, e);
    assert Discriminant(v.index) == v.index;
    assert AllWellFormed(fields);
    FieldsRoundTrip(v.payload, fields, e, rest);
    VariantConcat(vs, v.index, body, rest, v.payload, e);
  }

  /** A discriminant byte naming a declared variant, followed by bytes that
      the variant's field decoders read as `payload`. */
  lemma VariantConcat(vs: seq<VariantTy>, tag: byte, body: seq<byte>, rest: seq<byte>, payload: seq<Value>, e: Endianness)
    requires tag < |vs| && DecodeFields(vs[tag].fields, body + rest, e) == Ok(Decoded(payload, |body|))
    ensures DecodeVariant(vs, [tag] + body + rest, e) == Ok(Decoded(Variant(tag, payload), |[tag] + body|))
  {
    Split3([tag], body, rest);
  }

  /** The element loop reads back the elements of a sequence, whatever was
      staged before it and whatever follows. */
  lemma {:induction false} EachRoundTrip(items: seq<Value>, u: Ty, e: Endianness, rest: seq<byte>, staged: seq<Value>, total: nat)
    requires WellFormed(u) && FieldsWellTyped(items, Repeat(u, |items|))
    ensures DecodeEach(u, |items|, EncodeFields(items, Repeat(u, |items|), e) + rest, staged, total, e)
      == Ok(Decoded(staged + items, total + |EncodeFields(items, Repeat(u, |items|), e)|))
    decreases items, 2
  {
    if items == [] {
      EachNil(items, u, e, rest, staged, total);
    } else {
      EachEncodingCons(items, u, e);
      var x, xs := items[0], items[1..];
      var head := Encode(x, u, e);
      var tail := EncodeFields(xs, Repeat(u, |xs|), e);
      DecodeEncode(x, u, e, tail + rest);
      EachRoundTrip(xs, u, e, rest, staged + [x], total + |head|);
      EachConcat(u, head, tail, rest, x, |xs|, staged, total, e, Ok(Decoded(staged + [x] + xs, total + |head| + |tail|)));
      EachRoundTripJoin(u, items, EncodeFields(items, Repeat(u, |items|), e), rest, staged, total, e, x, xs, head, tail);
    }
  }

  /** Restates the loop's outcome on `head + tail` in terms of the whole
      sequence `items` and its encoding `enc`. */
  lemma EachRoundTripJoin(u: Ty, items: seq<Value>, enc: seq<byte>, rest: seq<byte>, staged: seq<Value>, total: nat,
                          e: Endianness, x: Value, xs: seq<Value>, head: seq<byte>, tail: seq<byte>)
    requires items != [] && x == items[0] && xs == items[1..] && enc == head + tail
    requires DecodeEach(u, |xs| + 1, head + tail + rest, staged, total, e)
      == Ok(Decoded(staged + [x] + xs, total + |head| + |tail|))
    ensures DecodeEach(u, |items|, enc + rest, staged, total, e) == Ok(Decoded(staged + items, total + |enc|))
  {
    AppendFirst(staged, items);
    assert DecodeEach(u, |items|, enc + rest, staged, total, e) == DecodeEach(u, |xs| + 1, head + tail + rest, staged, total, e);
    assert Decoded(staged + [x] + xs, total + |head| + |tail|) == Decoded(staged + items, total + |enc|);
  }

  /** No elements left: the loop hands back what it staged. */
  lemma EachNil(items: seq<Value>, u: Ty, e: Endianness, rest: seq<byte>, staged: seq<Value>, total: nat)
    requires items == []
    ensures FieldsWellTyped(items, Repeat(u, |items|))
    ensures DecodeEach(u, |items|, EncodeFields(items, Repeat(u, |items|), e) + rest, staged, total, e)
      == Ok(Decoded(staged + items, total + |EncodeFields(items, Repeat(u, |items|), e)|))
  {
    assert Repeat(u, 0) == [];
    assert EncodeFields([], [], e) == [];
    assert staged + [] == staged;
  }

  /** The field decoders read back the fields, whatever follows. */
  lemma {:induction false} FieldsRoundTrip(vs: seq<Value>, ts: seq<Ty>, e: Endianness, rest: seq<byte>)
    requires AllWellFormed(ts) && FieldsWellTyped(vs, ts)
    ensures DecodeFields(ts, EncodeFields(vs, ts, e) + rest, e) == Ok(Decoded(vs, |EncodeFields(vs, ts, e)|))
    decreases vs, 2
  {
    if vs == [] {
      assert EncodeFields(vs, ts, e) == [];
    } else {
      AllWellFormedCons(ts);
      var x, xs := vs[0], vs[1..];
      var head := Encode(x, ts[0], e);
      var tail := EncodeFields(xs, ts[1..], e);
      DecodeEncode(x, ts[0], e, tail + rest);
      FieldsRoundTrip(xs, ts[1..], e, rest);
      FieldsConcat(ts[0], ts[1..], head, tail, rest, x, xs, e);
      AppendFirst([], vs);
      assert [ts[0]] + ts[1..] == ts;
    }
  }

  /** A homogeneous encoding is the first element's encoding followed by the
      encoding of the others, which keep the element type. */
  lemma EachEncodingCons(items: seq<Value>, u: Ty, e: Endianness)
    requires items != [] && FieldsWellTyped(items, Repeat(u, |items|))
    ensures WellTyped(items[0], u) && FieldsWellTyped(items[1..], Repeat(u, |items[1..]|))
    ensures EncodeFields(items, Repeat(u, |items|), e)
      == Encode(items[0], u, e) + EncodeFields(items[1..], Repeat(u, |items[1..]|), e)
  {
    RepeatCons(u, |items|);
  }

  /** Three pieces written back to back: the last two start after the first. */
  lemma Split3(head: seq<byte>, tail: seq<byte>, rest: seq<byte>)
    ensures head + tail + rest == head + (tail + rest)
    ensures (head + (tail + rest))[|head|..] == tail + rest
  {
  }

  /** The element loop over `head + tail + rest`, when its first decode reads
      exactly `head`: one more turn than over `tail + rest`, with the same
      outcome `r`. */
  lemma EachConcat(u: Ty, head: seq<byte>, tail: seq<byte>, rest: seq<byte>, x: Value, left: nat,
      staged: seq<Value>, total: nat, e: Endianness, r: Result<Decoded<seq<Value>>, DeserializeError>)
    requires Decode(u, head + (tail + rest), e) == Ok(Decoded(x, |head|))
    requires DecodeEach(u, left, tail + rest, staged + [x], total + |head|, e) == r
    ensures DecodeEach(u, left + 1, head + tail + rest, staged, total, e) == r
  {
    Split3(head, tail, rest);
    EachJoin(u, left + 1, head + (tail + rest), tail + rest, staged, total, e, x, |head|, r);
  }

  /** The field decoders over `head + tail + rest`, when the first field reads
      exactly `head` and the others read exactly `tail`. */
  lemma FieldsConcat(t: Ty, us: seq<Ty>, head: seq<byte>, tail: seq<byte>, rest: seq<byte>, x: Value, xs: seq<Value>, e: Endianness)
    requires Decode(t, head + (tail + rest), e) == Ok(Decoded(x, |head|))
    requires DecodeFields(us, tail + rest, e) == Ok(Decoded(xs, |tail|))
    ensures DecodeFields([t] + us, head + tail + rest, e) == Ok(Decoded([x] + xs, |head + tail|))
  {
    Split3(head, tail, rest);
    FieldsStep(t, us, head + (tail + rest), tail + rest, e, x, |head|, xs, |tail|);
  }

  /** Moving the first of `items` behind `staged` keeps the concatenation. */
  lemma AppendFirst<T>(staged: seq<T>, items: seq<T>)
    requires items != []
    ensures staged + [items[0]] + items[1..] == staged + items
    ensures [items[0]] + items[1..] == items
  {
  }
}
