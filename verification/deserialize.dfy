/**
 The read direction: `deserialize(buf, endian)` for every supported type,
 returning the value and the number of bytes consumed, or `Invalid`.
 */
module Deserialization {
  import opened Wire
  import opened Primitives
  import opened Utf8
  import opened Schema

  /** Decodes a value of type `t` from the front of `buf`. A success never
      claims more bytes than the buffer holds. */
  function Decode(t: Ty, buf: seq<byte>, e: Endianness): (r: Result<Decoded<Value>, DeserializeError>)
    ensures r.Ok? ==> r.value.consumed <= |buf|
    decreases t, 1, 0
  {
    match t
    case Prim(k) =>
      var d :- DecodeScalar(k, buf, e);
      Ok(Decoded(Scalar(d.item), d.consumed))
    case OptionOf(u) => DecodeOption(u, buf, e)
    case VecOf(u) => DecodeVec(u, buf, e)
    case ArrayOf(u, n) =>
      var d :- DecodeEach(u, n, buf, [], 0, e);
      Ok(Decoded(Elements(d.item), d.consumed))
    case Str => DecodeString(buf, e)
    case Struct(ts) =>
      var d :- DecodeFields(ts, buf, e);
      Ok(Decoded(Record(d.item), d.consumed))
    case Enum(vs) => DecodeVariant(vs, buf, e)
  }

  /** `Option<T>`: presence byte 0 is `None`, 1 is `Some` of the value decoded
      from offset 1, anything else (or no byte at all) is `Invalid`. */
  function DecodeOption(u: Ty, buf: seq<byte>, e: Endianness): (r: Result<Decoded<Value>, DeserializeError>)
    ensures r.Ok? ==> 1 <= r.value.consumed <= |buf|
    ensures |buf| == 0 || buf[0] > 1 ==> r == Err(Invalid)
    ensures |buf| > 0 && buf[0] == 0 ==> r == Ok(Decoded(None, 1))
    ensures r.Ok? && buf[0] == 1 ==> r.value.item.Some?
    decreases OptionOf(u), 0, 0
  {
    if |buf| == 0 then Err(Invalid)
    else if buf[0] == 0 then Ok(Decoded(None, 1))
    else if buf[0] == 1 then
      var d :- Decode(u, buf[1..], e);
      Ok(Decoded(Some(d.item), d.consumed + 1))
    else Err(Invalid)
  }

  /** `Vec<T>`: a u32 count in the first four bytes, then that many elements
      decoded back to back from offset 4. */
  function DecodeVec(u: Ty, buf: seq<byte>, e: Endianness): (r: Result<Decoded<Value>, DeserializeError>)
    ensures r.Ok? ==> 4 <= r.value.consumed <= |buf|
    ensures |buf| < 4 ==> r == Err(Invalid)
    ensures r.Ok? ==>
      r.value.item.Elements? && |r.value.item.items| == DecodeScalar(U32, buf, e).value.item.i
    decreases VecOf(u), 0, 0
  {
    var count :- DecodeScalar(U32, buf, e);
    var d :- DecodeEach(u, count.item.i, buf[4..], [], 0, e);
    Ok(Decoded(Elements(d.item), d.consumed + 4))
  }

  /** `String`: the bytes of a `Vec<u8>`, accepted only when they are
      well-formed UTF-8. */
  function DecodeString(buf: seq<byte>, e: Endianness): (r: Result<Decoded<Value>, DeserializeError>)
    ensures r.Ok? <==> DecodeByteVec(buf, e).Ok? && ValidUtf8(DecodeByteVec(buf, e).value.item)
    ensures r.Ok? ==> r.value == Decoded(Text(DecodeByteVec(buf, e).value.item), DecodeByteVec(buf, e).value.consumed)
  {
    var d :- DecodeByteVec(buf, e);
    if ValidUtf8(d.item) then Ok(Decoded(Text(d.item), d.consumed)) else Err(Invalid)
  }

  /** The code generated for an enum: byte 0 selects the variant by its
      0-based index, whose payload fields are decoded from offset 1; an empty
      buffer or an index past the last variant is `Invalid`. */
  function DecodeVariant(vs: seq<VariantTy>, buf: seq<byte>, e: Endianness): (r: Result<Decoded<Value>, DeserializeError>)
    ensures r.Ok? ==> 1 <= r.value.consumed <= |buf|
    ensures |buf| == 0 || buf[0] >= |vs| ==> r == Err(Invalid)
    ensures r.Ok? ==> r.value.item.Variant? && r.value.item.index == buf[0]
    decreases Enum(vs), 0, 0
  {
    if |buf| == 0 || buf[0] >= |vs| then Err(Invalid)
    else
      var d :- DecodeFields(vs[buf[0]].fields, buf[1..], e);
      Ok(Decoded(Variant(buf[0], d.item), d.consumed + 1))
  }

  /** The element loop of Vec and [T; N]: `left` more decodes of type `t`
      from `rest`, each starting where the previous one stopped, behind the
      `staged` elements already read from the first `total` bytes; the first
      failure aborts. */
  function DecodeEach(t: Ty, left: nat, rest: seq<byte>, staged: seq<Value>, total: nat, e: Endianness)
    : (r: Result<Decoded<seq<Value>>, DeserializeError>)
    ensures r.Ok? ==> |r.value.item| == |staged| + left && total <= r.value.consumed <= total + |rest|
    decreases t, 2, left
  {
    if left == 0 then Ok(Decoded(staged, total))
    else
      var d :- Decode(t, rest, e);
      DecodeEach(t, left - 1, rest[d.consumed..], staged + [d.item], total + d.consumed, e)
  }

  /** One decode per field type, in declaration order, at the running offset
      (the code generated for a struct or a tuple variant). */
  function DecodeFields(ts: seq<Ty>, buf: seq<byte>, e: Endianness): (r: Result<Decoded<seq<Value>>, DeserializeError>)
    ensures r.Ok? ==> |r.value.item| == |ts| && r.value.consumed <= |buf|
    decreases ts, 0, 0
  {
    if ts == [] then Ok(Decoded([], 0))
    else
      var first :- Decode(ts[0], buf, e);
      var rest :- DecodeFields(ts[1..], buf[first.consumed..], e);
      Ok(Decoded([first.item] + rest.item, first.consumed + rest.consumed))
  }

  /** `Vec::<u8>::deserialize` as the String decoder uses it: the count, then
      that many raw bytes. */
  function DecodeByteVec(buf: seq<byte>, e: Endianness): (r: Result<Decoded<seq<byte>>, DeserializeError>)
    ensures r.Ok? ==> r.value.consumed == 4 + |r.value.item| <= |buf|
    ensures r.Ok? ==> r.value.item == buf[4..r.value.consumed]
  {
    var count :- DecodeScalar(U32, buf, e);
    var n := count.item.i;
    if |buf| - 4 < n then Err(Invalid) else Ok(Decoded(buf[4..4 + n], 4 + n))
  }

  /** Whatever a decode of type `t` yields is a value of type `t`: a scalar
      of the kind read, at most 2^32 - 1 elements or bytes behind a count,
      well-formed UTF-8 in a string, and a declared variant with its payload. */
  lemma {:induction false} DecodeWellTyped(t: Ty, buf: seq<byte>, e: Endianness)
    requires Decode(t, buf, e).Ok?
    ensures WellTyped(Decode(t, buf, e).value.item, t)
    decreases t, 1, 0
  {
    match t
    case Prim(k) =>
    case OptionOf(u) =>
      if buf[0] == 1 {
        DecodeWellTyped(u, buf[1..], e);
      }
    case VecOf(u) =>
      var n := DecodeScalar(U32, buf, e).value.item.i;
      EachDecodeWellTyped(u, n, buf[4..], [], 0, e);
      var items := DecodeEach(u, n, buf[4..], [], 0, e).value.item;
      FieldsWellTypedEach(items, Repeat(u, |items|));
    case ArrayOf(u, n) =>
      EachDecodeWellTyped(u, n, buf, [], 0, e);
      var items := DecodeEach(u, n, buf, [], 0, e).value.item;
      FieldsWellTypedEach(items, Repeat(u, n));
    case Str =>
    case Struct(ts) =>
      FieldsDecodeWellTyped(ts, buf, e);
    case Enum(vs) =>
      FieldsDecodeWellTyped(vs[buf[0]].fields, buf[1..], e);
  }

  /** The element loop yields values of its element type, behind staged
      values of that type. */
  lemma {:induction false} EachDecodeWellTyped(t: Ty, left: nat, rest: seq<byte>, staged: seq<Value>, total: nat, e: Endianness)
    requires DecodeEach(t, left, rest, staged, total, e).Ok?
    requires forall i :: 0 <= i < |staged| ==> WellTyped(staged[i], t)
    ensures var items := DecodeEach(t, left, rest, staged, total, e).value.item;
      forall i :: 0 <= i < |items| ==> WellTyped(items[i], t)
    decreases t, 2, left
  {
    if left > 0 {
      var d := DecodeEach(t, left, rest, staged, total, e).value;
      var x, c := EachUnfold(t, left, rest, staged, total, e, d.item, d.consumed);
      DecodeWellTyped(t, rest, e);
      EachDecodeWellTyped(t, left - 1, rest[c..], staged + [x], total + c, e);
    }
  }

  /** The field decoders yield one value of each declared field type. */
  lemma {:induction false} FieldsDecodeWellTyped(ts: seq<Ty>, buf: seq<byte>, e: Endianness)
    requires DecodeFields(ts, buf, e).Ok?
    ensures FieldsWellTyped(DecodeFields(ts, buf, e).value.item, ts)
    decreases ts, 0, 0
  {
    if ts != [] {
      var d := DecodeFields(ts, buf, e).value;
      var x, c, others := FieldsUnfold(ts, buf, e, d.item, d.consumed);
      DecodeWellTyped(ts[0], buf, e);
      FieldsDecodeWellTyped(ts[1..], buf[c..], e);
      assert d.item[1..] == others;
    }
  }

  /** One turn of the element loop when the element decode succeeds and
      leaves `after` unread. */
  lemma EachStep(t: Ty, left: nat, buf: seq<byte>, after: seq<byte>, staged: seq<Value>, total: nat,
                 e: Endianness, x: Value, c: nat)
    requires left > 0 && Decode(t, buf, e) == Ok(Decoded(x, c)) && c <= |buf| && buf[c..] == after
    ensures DecodeEach(t, left, buf, staged, total, e) == DecodeEach(t, left - 1, after, staged + [x], total + c, e)
  {
  }

  /** `EachStep` with the outcome `r` of the remaining turns named. */
  lemma EachJoin(t: Ty, left: nat, buf: seq<byte>, after: seq<byte>, staged: seq<Value>, total: nat,
                 e: Endianness, x: Value, c: nat, r: Result<Decoded<seq<Value>>, DeserializeError>)
    requires left > 0 && Decode(t, buf, e) == Ok(Decoded(x, c)) && c <= |buf| && buf[c..] == after
    requires DecodeEach(t, left - 1, after, staged + [x], total + c, e) == r
    ensures DecodeEach(t, left, buf, staged, total, e) == r
  {
    EachStep(t, left, buf, after, staged, total, e, x, c);
  }

  /** A successful decode of the first field `x` from `c` bytes, then of the
      others from where it stopped, is a successful decode of all `m` bytes. */
  lemma FieldsJoin(ts: seq<Ty>, buf: seq<byte>, e: Endianness, x: Value, c: nat, others: seq<Value>, m: nat)
    requires ts != [] && Decode(ts[0], buf, e) == Ok(Decoded(x, c)) && c <= |buf| && c <= m
    requires DecodeFields(ts[1..], buf[c..], e) == Ok(Decoded(others, m - c))
    ensures DecodeFields(ts, buf, e) == Ok(Decoded([x] + others, m))
  {
    assert c + (m - c) == m;
  }

  /** `FieldsJoin` for the field list `[t] + us`, the others read from the
      `after` the first field leaves. */
  lemma FieldsStep(t: Ty, us: seq<Ty>, buf: seq<byte>, after: seq<byte>, e: Endianness, x: Value, c: nat, xs: seq<Value>, c': nat)
    requires Decode(t, buf, e) == Ok(Decoded(x, c)) && c <= |buf| && buf[c..] == after
    requires DecodeFields(us, after, e) == Ok(Decoded(xs, c'))
    ensures DecodeFields([t] + us, buf, e) == Ok(Decoded([x] + xs, c + c'))
  {
    assert ([t] + us)[0] == t && ([t] + us)[1..] == us;
    FieldsJoin([t] + us, buf, e, x, c, xs, c + c');
  }

  /** A successful turn of the element loop starts with a successful decode
      of some `x` from `c` bytes, after which the loop continues with `x`
      staged and ends with the same outcome. */
  lemma EachUnfold(t: Ty, left: nat, rest: seq<byte>, staged: seq<Value>, total: nat, e: Endianness, xs: seq<Value>, m: nat)
    returns (x: Value, c: nat)
    requires left > 0 && DecodeEach(t, left, rest, staged, total, e) == Ok(Decoded(xs, m))
    ensures Decode(t, rest, e) == Ok(Decoded(x, c)) && c <= |rest| && total + c <= m
    ensures DecodeEach(t, left - 1, rest[c..], staged + [x], total + c, e) == Ok(Decoded(xs, m))
  {
    var d := Decode(t, rest, e).value;
    x, c := d.item, d.consumed;
  }

  /** A successful field list starts with a successful decode of its first
      field `x` from `c` bytes, after which the other fields decode, from
      where it stopped, to the `others` that follow `x`. */
  lemma FieldsUnfold(ts: seq<Ty>, buf: seq<byte>, e: Endianness, xs: seq<Value>, m: nat)
    returns (x: Value, c: nat, others: seq<Value>)
    requires ts != [] && DecodeFields(ts, buf, e) == Ok(Decoded(xs, m))
    ensures Decode(ts[0], buf, e) == Ok(Decoded(x, c)) && c <= |buf| && c <= m && xs == [x] + others
    ensures DecodeFields(ts[1..], buf[c..], e) == Ok(Decoded(others, m - c))
  {
    var d := Decode(ts[0], buf, e).value;
    x, c := d.item, d.consumed;
    others := DecodeFields(ts[1..], buf[c..], e).value.item;
  }
}
