/**
 Two places where the encoder as written departs from what its callers are
 evidently promised, each shown on a concrete input next to the corrected
 behaviour the rest of the model uses.
 */
module Findings {
  import opened Wire
  import opened Primitives
  import opened Schema
  import opened Serialization
  import opened Deserialization

  /** What a call of the encoder as written does: return normally, or panic. */
  datatype Outcome = Returns(r: Result<Written, SerializeError>) | Panics

  /** `serialize` as written, for every type. It does what `Serialize` does,
      except that the `Vec<T>` encoder (and `String`, which hands its bytes to
      it) takes the slice `buf[..4]` before any length check and panics when
      fewer than four bytes are left; a panic in a nested encoder ends the
      whole call. Where it returns, it returns what `Serialize` returns. */
  function SerializeAsWritten(v: Value, t: Ty, buf: seq<byte>, e: Endianness): (o: Outcome)
    requires WellTyped(v, t)
    ensures (t.VecOf? || t.Str?) && |buf| < 4 ==> o.Panics?
    ensures t.Prim? ==> o.Returns?
    ensures o.Returns? ==> o.r == Serialize(v, t, buf, e)
    decreases v, 1
  {
    match t
    case Prim(k) => Returns(SerializeScalar(v.s, k, buf, e))
    case OptionOf(u) =>
      if |buf| == 0 then Returns(Err(BufferOverflow))
      else if v.None? then Returns(Ok(Written([0] + buf[1..], 1)))
      else
        (match SerializeAsWritten(v.inner, u, buf[1..], e)
         case Panics => Panics
         case Returns(r) =>
           Returns(if r.Err? then Err(r.error) else Ok(Written([1] + r.value.buffer, r.value.size + 1))))
    case VecOf(u) =>
      if |buf| < 4 then Panics
      else
        var header := SerializeScalar(Int(|v.items|), U32, buf, e).value;
        (match FieldsAsWritten(v.items, Repeat(u, |v.items|), buf[4..], e)
         case Panics => Panics
         case Returns(r) =>
           Returns(if r.Err? then Err(r.error) else Ok(Written(header.buffer[..4] + r.value.buffer, 4 + r.value.size))))
    case ArrayOf(u, n) => FieldsAsWritten(v.items, Repeat(u, n), buf, e)
    case Str =>
      // a `u8` element never panics, so only the count can
      if |buf| < 4 then Panics else Returns(SerializeString(v.bytes, buf, e))
    case Struct(ts) => FieldsAsWritten(v.fields, ts, buf, e)
    case Enum(vs) =>
      if |buf| < 1 then Returns(Err(BufferOverflow))
      else
        (match FieldsAsWritten(v.payload, vs[v.index].fields, buf[1..], e)
         case Panics => Panics
         case Returns(r) =>
           Returns(if r.Err? then Err(r.error) else Ok(Written([Discriminant(v.index)] + r.value.buffer, 1 + r.value.size))))
  }

  /** The fields written as written: each at the running offset, the first
      error returned and the first panic propagated. */
  function FieldsAsWritten(vs: seq<Value>, ts: seq<Ty>, buf: seq<byte>, e: Endianness): (o: Outcome)
    requires FieldsWellTyped(vs, ts)
    ensures o.Returns? ==> o.r == SerializeFields(vs, ts, buf, e)
    decreases vs, 1
  {
    if vs == [] then Returns(Ok(Written(buf, 0)))
    else
      match SerializeAsWritten(vs[0], ts[0], buf, e)
      case Panics => Panics
      case Returns(first) =>
        if first.Err? then Returns(Err(first.error))
        else
          var w := first.value;
          match FieldsAsWritten(vs[1..], ts[1..], w.buffer[w.size..], e)
          case Panics => Panics
          case Returns(rest) =>
            Returns(if rest.Err? then Err(rest.error)
                    else Ok(Written(w.buffer[..w.size] + rest.value.buffer, w.size + rest.value.size)))
  }

  /** The code as written panics only where the corrected code reports
      `BufferOverflow`: whenever the encoding fits, it returns exactly what
      `Serialize` returns. */
  lemma {:induction false} PanicsOnlyOnOverflow(v: Value, t: Ty, buf: seq<byte>, e: Endianness)
    requires WellTyped(v, t)
    ensures SerializeAsWritten(v, t, buf, e).Panics? ==> |buf| < |Encode(v, t, e)| && Serialize(v, t, buf, e).Err?
    ensures |Encode(v, t, e)| <= |buf| ==> SerializeAsWritten(v, t, buf, e) == Returns(Serialize(v, t, buf, e))
    decreases v, 1
  {
    SerializeWritesEncoding(v, t, buf, e);
    match t
    case Prim(k) =>
    case OptionOf(u) =>
      if |buf| > 0 && v.Some? {
        PanicsOnlyOnOverflow(v.inner, u, buf[1..], e);
      }
    case VecOf(u) =>
      if |buf| >= 4 {
        FieldsPanicOnlyOnOverflow(v.items, Repeat(u, |v.items|), buf[4..], e);
      }
    case ArrayOf(u, n) =>
      FieldsPanicOnlyOnOverflow(v.items, Repeat(u, n), buf, e);
    case Str =>
    case Struct(ts) =>
      FieldsPanicOnlyOnOverflow(v.fields, ts, buf, e);
    case Enum(vs) =>
      if |buf| >= 1 {
        FieldsPanicOnlyOnOverflow(v.payload, vs[v.index].fields, buf[1..], e);
      }
  }

  /** `PanicsOnlyOnOverflow` for the fields: a panic means the encoded fields
      do not fit. */
  lemma {:induction false} FieldsPanicOnlyOnOverflow(vs: seq<Value>, ts: seq<Ty>, buf: seq<byte>, e: Endianness)
    requires FieldsWellTyped(vs, ts)
    ensures FieldsAsWritten(vs, ts, buf, e).Panics? ==> |buf| < |EncodeFields(vs, ts, e)|
    decreases vs, 1
  {
    if vs != [] {
      PanicsOnlyOnOverflow(vs[0], ts[0], buf, e);
      var first := Serialize(vs[0], ts[0], buf, e);
      if first.Ok? {
        SerializeWritesEncoding(vs[0], ts[0], buf, e);
        FieldsPanicOnlyOnOverflow(vs[1..], ts[1..], first.value.buffer[first.value.size..], e);
      }
    }
  }

  /** An empty `Vec<u8>` into a 3-byte buffer: the code as written panics,
      where every other encoder reports `BufferOverflow`, as the corrected
      `SerializeVec` does. */
  lemma ShortBufferPanics(e: Endianness)
    ensures SerializeAsWritten(Elements([]), VecOf(Prim(U8)), [0, 0, 0], e) == Panics
    ensures Serialize(Elements([]), VecOf(Prim(U8)), [0, 0, 0], e) == Err(BufferOverflow)
  {
    assert WellTyped(Elements([]), VecOf(Prim(U8)));
  }

  /** `vec![Vec::<u8>::new()]` into six bytes: the outer count fits, and the
      inner vector's count, two bytes in, panics; the corrected encoder
      reports `BufferOverflow`. */
  lemma NestedShortBufferPanics(e: Endianness)
    ensures WellTyped(Elements([Elements([])]), VecOf(VecOf(Prim(U8))))
    ensures SerializeAsWritten(Elements([Elements([])]), VecOf(VecOf(Prim(U8))), [0, 0, 0, 0, 0, 0], e) == Panics
    ensures Serialize(Elements([Elements([])]), VecOf(VecOf(Prim(U8))), [0, 0, 0, 0, 0, 0], e) == Err(BufferOverflow)
  {
    var inner, outer := Elements([]), Elements([Elements([])]);
    assert WellTyped(inner, VecOf(Prim(U8)));
    assert FieldsWellTyped([inner], [VecOf(Prim(U8))]);
    assert Repeat(VecOf(Prim(U8)), 1) == [VecOf(Prim(U8))];
    var rest := SerializeScalar(Int(1), U32, [0, 0, 0, 0, 0, 0], e).value.buffer[4..];
    assert |rest| == 2;
    assert SerializeAsWritten(inner, VecOf(Prim(U8)), rest, e) == Panics;
  }

  /** `Some(String::new())` into three bytes: the string's count, one byte in,
      panics. */
  lemma OptionStringPanics(e: Endianness)
    ensures SerializeAsWritten(Some(Text([])), OptionOf(Str), [0, 0, 0], e) == Panics
    ensures Serialize(Some(Text([])), OptionOf(Str), [0, 0, 0], e) == Err(BufferOverflow)
  {
    assert WellTyped(Text([]), Str);
    assert [0, 0, 0][1..] == [0, 0];
  }

  /** `n` unit variants: an enum whose values are their discriminants alone. */
  function UnitVariants(n: nat): (vs: seq<VariantTy>)
    ensures |vs| == n && forall i :: 0 <= i < n ==> vs[i].fields == []
  {
    seq(n, _ => VariantTy([]))
  }

  /** The generated code writes `index as u8`: the variant with index 256 of a
      257-variant enum is written as the byte 0, which reads back as the first
      variant. Such an enum is well typed but not `WellFormed`, the condition
      under which `DecodeEncode` proves the round trip. */
  lemma DiscriminantWraps(e: Endianness)
    ensures WellTyped(Variant(256, []), Enum(UnitVariants(257)))
    ensures !WellFormed(Enum(UnitVariants(257)))
    ensures Encode(Variant(256, []), Enum(UnitVariants(257)), e) == [0]
    ensures Decode(Enum(UnitVariants(257)), [0], e) == Ok(Decoded(Variant(0, []), 1))
  {
    var vs := UnitVariants(257);
    assert FieldsWellTyped([], vs[256].fields);
    assert EncodeFields([], [], e) == [];
    assert [0][1..] == [];
    assert DecodeFields(vs[0].fields, [0][1..], e) == Ok(Decoded([], 0));
  }
}
