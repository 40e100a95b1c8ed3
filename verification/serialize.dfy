/**
 The write direction. `Encode` is the wire format of a value as a pure byte
 string; `Serialize` follows the encoder implementations step by step, writing
 into a caller-owned buffer and reporting the bytes written or
 `BufferOverflow`. `SerializeWritesEncoding` ties the two together.
 */
module Serialization {
  import opened Wire
  import opened Primitives
  import opened Schema

  /** The discriminant byte of the variant with 0-based index `index`: the
      generated code writes `index as u8`, which keeps the low 8 bits. */
  function Discriminant(index: nat): byte
  {
    index % 256
  }

  /** The 4-byte element count in front of a Vec or a String. */
  function LengthPrefix(n: nat, e: Endianness): seq<byte>
    requires n < LengthLimit
  {
    EncodeScalar(Int(n), U32, e)
  }

  /** The wire format of a value of type `t`. */
  function Encode(v: Value, t: Ty, e: Endianness): seq<byte>
    requires WellTyped(v, t)
    decreases v
  {
    match t
    case Prim(k) => EncodeScalar(v.s, k, e)
    case OptionOf(u) => if v.None? then [0] else [1] + Encode(v.inner, u, e)
    case VecOf(u) => LengthPrefix(|v.items|, e) + EncodeFields(v.items, Repeat(u, |v.items|), e)
    case ArrayOf(u, n) => EncodeFields(v.items, Repeat(u, n), e)
    case Str => LengthPrefix(|v.bytes|, e) + v.bytes
    case Struct(ts) => EncodeFields(v.fields, ts, e)
    case Enum(vs) => [Discriminant(v.index)] + EncodeFields(v.payload, vs[v.index].fields, e)
  }

  /** The wire format of consecutive fields: their encodings back to back. */
  function EncodeFields(vs: seq<Value>, ts: seq<Ty>, e: Endianness): seq<byte>
    requires FieldsWellTyped(vs, ts)
    decreases vs
  {
    if vs == [] then [] else Encode(vs[0], ts[0], e) + EncodeFields(vs[1..], ts[1..], e)
  }

  /** The encoding of a first field in front of others. */
  lemma EncodeFieldsCons(x: Value, xs: seq<Value>, t: Ty, us: seq<Ty>, e: Endianness)
    requires WellTyped(x, t) && FieldsWellTyped(xs, us)
    ensures FieldsWellTyped([x] + xs, [t] + us)
    ensures EncodeFields([x] + xs, [t] + us, e) == Encode(x, t, e) + EncodeFields(xs, us, e)
  {
    assert ([x] + xs)[1..] == xs && ([t] + us)[1..] == us;
  }

  /** `serialize(&self, buffer, endian)` for every supported type. On success
      the buffer keeps its length, the size fits in it, and nothing past the
      written prefix changes. */
  function Serialize(v: Value, t: Ty, buf: seq<byte>, e: Endianness): (r: Result<Written, SerializeError>)
    requires WellTyped(v, t)
    ensures r.Ok? ==> |r.value.buffer| == |buf| && r.value.size <= |buf|
    ensures r.Ok? ==> r.value.buffer[r.value.size..] == buf[r.value.size..]
    decreases v, 1
  {
    match t
    case Prim(k) => SerializeScalar(v.s, k, buf, e)
    case OptionOf(u) => SerializeOption(v, u, buf, e)
    case VecOf(u) => SerializeVec(v, u, buf, e)
    case ArrayOf(u, n) => SerializeFields(v.items, Repeat(u, n), buf, e)
    case Str => SerializeString(v.bytes, buf, e)
    case Struct(ts) => SerializeFields(v.fields, ts, buf, e)
    case Enum(vs) => SerializeVariant(v, vs, buf, e)
  }

  /** `Option<T>`: an empty buffer overflows; `None` is the byte 0, `Some` the
      byte 1 in front of the payload written at offset 1. */
  function SerializeOption(v: Value, u: Ty, buf: seq<byte>, e: Endianness): (r: Result<Written, SerializeError>)
    requires WellTyped(v, OptionOf(u))
    ensures r.Ok? ==> |r.value.buffer| == |buf| && r.value.size <= |buf|
    ensures r.Ok? ==> r.value.buffer[r.value.size..] == buf[r.value.size..]
    ensures |buf| == 0 ==> r == Err(BufferOverflow)
    ensures r.Ok? ==> r.value.buffer[0] == (if v.None? then 0 else 1)
    decreases v, 0
  {
    if |buf| == 0 then Err(BufferOverflow)
    else if v.None? then Ok(Written([0] + buf[1..], 1))
    else
      var w :- Serialize(v.inner, u, buf[1..], e);
      Ok(Written([1] + w.buffer, w.size + 1))
  }

  /** `Vec<T>`: the element count as a u32 in the first four bytes, then each
      element at the running offset. */
  function SerializeVec(v: Value, u: Ty, buf: seq<byte>, e: Endianness): (r: Result<Written, SerializeError>)
    requires WellTyped(v, VecOf(u))
    ensures r.Ok? ==> |r.value.buffer| == |buf| && 4 <= r.value.size <= |buf|
    ensures r.Ok? ==> r.value.buffer[r.value.size..] == buf[r.value.size..]
    ensures |buf| < 4 ==> r == Err(BufferOverflow)
    ensures r.Ok? ==> r.value.buffer[..4] == LengthPrefix(|v.items|, e)
    decreases v, 0
  {
    var header :- SerializeScalar(Int(|v.items|), U32, buf, e);
    var body :- SerializeFields(v.items, Repeat(u, |v.items|), buf[4..], e);
    var out := header.buffer[..4] + body.buffer;
    assert out[..4] == header.buffer[..4];
    ScalarCanonical(U32, header.buffer, e);
    Ok(Written(out, 4 + body.size))
  }

  /** `String`: the length of its UTF-8 bytes as a u32, then the bytes. */
  function SerializeString(bytes: seq<byte>, buf: seq<byte>, e: Endianness): (r: Result<Written, SerializeError>)
    requires |bytes| < LengthLimit
    ensures r.Ok? <==> 4 + |bytes| <= |buf|
    ensures r.Ok? ==> |r.value.buffer| == |buf| && r.value.size == 4 + |bytes|
    ensures r.Ok? ==> r.value.buffer[4..r.value.size] == bytes
    ensures r.Ok? ==> r.value.buffer[r.value.size..] == buf[r.value.size..]
  {
    var header :- SerializeScalar(Int(|bytes|), U32, buf, e);
    if |buf| - 4 < |bytes| then Err(BufferOverflow)
    else
      var out := header.buffer[..4] + bytes + buf[4 + |bytes|..];
      assert out[4..4 + |bytes|] == bytes;
      Ok(Written(out, 4 + |bytes|))
  }

  /** The code generated for an enum: the discriminant byte at offset 0, then
      the chosen variant's payload fields from offset 1; an empty buffer
      overflows. */
  function SerializeVariant(v: Value, vs: seq<VariantTy>, buf: seq<byte>, e: Endianness): (r: Result<Written, SerializeError>)
    requires WellTyped(v, Enum(vs))
    ensures r.Ok? ==> |r.value.buffer| == |buf| && 1 <= r.value.size <= |buf|
    ensures r.Ok? ==> r.value.buffer[r.value.size..] == buf[r.value.size..]
    ensures |buf| == 0 ==> r == Err(BufferOverflow)
    ensures r.Ok? ==> r.value.buffer[0] == Discriminant(v.index)
    decreases v, 0
  {
    if |buf| < 1 then Err(BufferOverflow)
    else
      var body :- SerializeFields(v.payload, vs[v.index].fields, buf[1..], e);
      Ok(Written([Discriminant(v.index)] + body.buffer, 1 + body.size))
  }

  /** `offset += field.serialize(&mut buf[offset..], endian)?` for each field in
      order: every field is written at the running offset and the first
      failure aborts. */
  function SerializeFields(vs: seq<Value>, ts: seq<Ty>, buf: seq<byte>, e: Endianness): (r: Result<Written, SerializeError>)
    requires FieldsWellTyped(vs, ts)
    ensures r.Ok? ==> |r.value.buffer| == |buf| && r.value.size <= |buf|
    ensures r.Ok? ==> r.value.buffer[r.value.size..] == buf[r.value.size..]
    decreases vs, 1
  {
    if vs == [] then Ok(Written(buf, 0))
    else
      var first :- Serialize(vs[0], ts[0], buf, e);
      var rest :- SerializeFields(vs[1..], ts[1..], first.buffer[first.size..], e);
      Ok(Written(first.buffer[..first.size] + rest.buffer, first.size + rest.size))
  }

  /** `r` is the outcome of writing `enc` into `buf`: success exactly when it
      fits, and then `enc` at the front, its length as the size, and the rest
      of the buffer untouched. */
  predicate WritesEncoding(r: Result<Written, SerializeError>, enc: seq<byte>, buf: seq<byte>)
  {
    && (r.Ok? <==> |enc| <= |buf|)
    && (r.Ok? ==> r.value == Written(enc + buf[|enc|..], |enc|))
  }

  /** Serialization succeeds exactly when the encoding fits in the buffer, and
      then writes the encoding at the front, reports its length, and leaves
      the rest of the buffer untouched. */
  lemma {:induction false} SerializeWritesEncoding(v: Value, t: Ty, buf: seq<byte>, e: Endianness)
    requires WellTyped(v, t)
    ensures WritesEncoding(Serialize(v, t, buf, e), Encode(v, t, e), buf)
    decreases v, 1
  {
    match t
    case Prim(k) =>
    case OptionOf(u) => SerializeOptionWritesEncoding(v, u, buf, e);
    case VecOf(u) => SerializeVecWritesEncoding(v, u, buf, e);
    case ArrayOf(u, n) => SerializeFieldsWritesEncoding(v.items, Repeat(u, n), buf, e);
    case Str => SerializeStringWritesEncoding(v.bytes, buf, e);
    case Struct(ts) => SerializeFieldsWritesEncoding(v.fields, ts, buf, e);
    case Enum(vs) => SerializeVariantWritesEncoding(v, vs, buf, e);
  }

  lemma {:induction false} SerializeOptionWritesEncoding(v: Value, u: Ty, buf: seq<byte>, e: Endianness)
    requires WellTyped(v, OptionOf(u))
    ensures WritesEncoding(SerializeOption(v, u, buf, e), Encode(v, OptionOf(u), e), buf)
    decreases v, 0
  {
    if v.Some? && |buf| > 0 {
      var inner := Serialize(v.inner, u, buf[1..], e);
      assert SerializeOption(v, u, buf, e)
        == if inner.Err? then Err(inner.error) else Ok(Written([1] + inner.value.buffer, inner.value.size + 1));
      assert Encode(v, OptionOf(u), e) == [1] + Encode(v.inner, u, e);
      SerializeWritesEncoding(v.inner, u, buf[1..], e);
      PrefixedWrite([1], Encode(v.inner, u, e), buf);
    }
  }

  lemma {:induction false} SerializeVecWritesEncoding(v: Value, u: Ty, buf: seq<byte>, e: Endianness)
    requires WellTyped(v, VecOf(u))
    ensures WritesEncoding(SerializeVec(v, u, buf, e), Encode(v, VecOf(u), e), buf)
    decreases v, 0
  {
    if |buf| >= 4 {
      var ts := Repeat(u, |v.items|);
      SerializeFieldsWritesEncoding(v.items, ts, buf[4..], e);
      PrefixedWrite(LengthPrefix(|v.items|, e), EncodeFields(v.items, ts, e), buf);
    }
  }

  lemma SerializeStringWritesEncoding(bytes: seq<byte>, buf: seq<byte>, e: Endianness)
    requires |bytes| < LengthLimit
    ensures WritesEncoding(SerializeString(bytes, buf, e), LengthPrefix(|bytes|, e) + bytes, buf)
  {
    if |buf| >= 4 {
      PrefixedWrite(LengthPrefix(|bytes|, e), bytes, buf);
    }
  }

  lemma {:induction false} SerializeVariantWritesEncoding(v: Value, vs: seq<VariantTy>, buf: seq<byte>, e: Endianness)
    requires WellTyped(v, Enum(vs))
    ensures WritesEncoding(SerializeVariant(v, vs, buf, e), Encode(v, Enum(vs), e), buf)
    decreases v, 0
  {
    if |buf| >= 1 {
      var fields := vs[v.index].fields;
      SerializeFieldsWritesEncoding(v.payload, fields, buf[1..], e);
      PrefixedWrite([Discriminant(v.index)], EncodeFields(v.payload, fields, e), buf);
    }
  }

  /** Writing `body` right after a `head` already written at the front. */
  lemma PrefixedWrite(head: seq<byte>, body: seq<byte>, buf: seq<byte>)
    requires |head| <= |buf|
    ensures |body| <= |buf[|head|..]| <==> |head + body| <= |buf|
    ensures |body| <= |buf[|head|..]| ==>
      head + (body + buf[|head|..][|body|..]) == (head + body) + buf[|head + body|..]
  {
  }

  lemma {:induction false} SerializeFieldsWritesEncoding(vs: seq<Value>, ts: seq<Ty>, buf: seq<byte>, e: Endianness)
    requires FieldsWellTyped(vs, ts)
    ensures WritesEncoding(SerializeFields(vs, ts, buf, e), EncodeFields(vs, ts, e), buf)
    decreases vs, 0
  {
    if vs != [] {
      var head := Encode(vs[0], ts[0], e);
      var tail := EncodeFields(vs[1..], ts[1..], e);
      SerializeWritesEncoding(vs[0], ts[0], buf, e);
      if |head| <= |buf| {
        var first := Serialize(vs[0], ts[0], buf, e).value;
        assert first.buffer[first.size..] == buf[|head|..];
        assert first.buffer[..first.size] == head;
        SerializeFieldsWritesEncoding(vs[1..], ts[1..], buf[|head|..], e);
        PrefixedWrite(head, tail, buf);
      }
    }
  }
}
