/**
 Type descriptors and values of the codec. A `Ty` names the Rust type a value
 is encoded as; derived records and tagged unions are described by the ordered
 types of their fields and variant payloads, since the wire format carries no
 names.
 */
module Schema {
  import opened Wire
  import opened Primitives
  import opened Utf8

  datatype Ty =
    | Prim(kind: Kind)                  // u8 .. f64, bool
    | OptionOf(inner: Ty)               // Option<T>
    | VecOf(elem: Ty)                   // Vec<T>
    | ArrayOf(elem: Ty, len: nat)       // [T; N]
    | Str                               // String
    | Struct(fields: seq<Ty>)           // derived struct with named fields
    | Enum(variants: seq<VariantTy>)    // derived enum, variants in declaration order

  /** The payload field types of one enum variant (empty for a unit variant). */
  datatype VariantTy = VariantTy(fields: seq<Ty>)

  datatype Value =
    | Scalar(s: Primitives.Scalar)
    | None
    | Some(inner: Value)
    | Elements(items: seq<Value>)       // the items of a Vec or an array
    | Text(bytes: seq<byte>)            // the UTF-8 bytes of a String
    | Record(fields: seq<Value>)        // struct fields in declaration order
    | Variant(index: nat, payload: seq<Value>)

  /** Largest element count the 4-byte length prefix can carry, plus one. */
  const LengthLimit: nat := Limit(U32)

  /** `n` copies of the element type: the field types of a homogeneous sequence. */
  function Repeat(t: Ty, n: nat): (ts: seq<Ty>)
    ensures |ts| == n
    ensures forall i :: 0 <= i < n ==> ts[i] == t
  {
    seq(n, _ => t)
  }

  /** The first copy in front of the others. */
  lemma RepeatCons(u: Ty, n: nat)
    requires n > 0
    ensures Repeat(u, n) == [u] + Repeat(u, n - 1) && Repeat(u, n)[1..] == Repeat(u, n - 1)
  {
  }

  /** `v` is a value of type `t`. Vectors and strings are shorter than
      2^32 elements (their length is written as a `u32`), strings hold
      well-formed UTF-8, and an enum value names one of the declared variants
      and carries that variant's payload. */
  predicate WellTyped(v: Value, t: Ty)
    decreases v
  {
    match t
    case Prim(k) => v.Scalar? && HasKind(v.s, k)
    case OptionOf(u) => v.None? || (v.Some? && WellTyped(v.inner, u))
    case VecOf(u) =>
      v.Elements? && |v.items| < LengthLimit && FieldsWellTyped(v.items, Repeat(u, |v.items|))
    case ArrayOf(u, n) =>
      v.Elements? && |v.items| == n && FieldsWellTyped(v.items, Repeat(u, n))
    case Str => v.Text? && |v.bytes| < LengthLimit && ValidUtf8(v.bytes)
    case Struct(ts) => v.Record? && FieldsWellTyped(v.fields, ts)
    case Enum(vs) =>
      v.Variant? && v.index < |vs| && FieldsWellTyped(v.payload, vs[v.index].fields)
  }

  /** Field `i` of `vs` has type `ts[i]`, for each of the equally many fields. */
  predicate FieldsWellTyped(vs: seq<Value>, ts: seq<Ty>)
    decreases vs
  {
    |vs| == |ts| && (vs == [] || (WellTyped(vs[0], ts[0]) && FieldsWellTyped(vs[1..], ts[1..])))
  }

  /** Field by field: `FieldsWellTyped` holds exactly when each field has the
      type at its position. */
  lemma {:induction false} FieldsWellTypedEach(vs: seq<Value>, ts: seq<Ty>)
    ensures FieldsWellTyped(vs, ts) <==> |vs| == |ts| && forall i :: 0 <= i < |vs| ==> WellTyped(vs[i], ts[i])
    decreases vs
  {
    if vs != [] && |vs| == |ts| {
      FieldsWellTypedEach(vs[1..], ts[1..]);
      assert forall i :: 0 < i < |vs| ==> vs[1..][i - 1] == vs[i] && ts[1..][i - 1] == ts[i];
    }
  }

  /** Every enum inside `t` has at most 256 variants, so that each variant's
      0-based index fits the one discriminant byte. */
  predicate WellFormed(t: Ty)
  {
    match t
    case Prim(_) => true
    case Str => true
    case OptionOf(u) => WellFormed(u)
    case VecOf(u) => WellFormed(u)
    case ArrayOf(u, _) => WellFormed(u)
    case Struct(ts) => AllWellFormed(ts)
    case Enum(vs) => |vs| <= 256 && forall i :: 0 <= i < |vs| ==> AllWellFormed(vs[i].fields)
  }

  predicate AllWellFormed(ts: seq<Ty>)
  {
    forall i :: 0 <= i < |ts| ==> WellFormed(ts[i])
  }

  /** The first of several well-formed types, and the others. */
  lemma AllWellFormedCons(ts: seq<Ty>)
    requires ts != [] && AllWellFormed(ts)
    ensures WellFormed(ts[0]) && AllWellFormed(ts[1..])
  {
    assert forall i :: 0 <= i < |ts| - 1 ==> ts[1..][i] == ts[i + 1];
  }

  /** The Vec<u8> holding the bytes of a String. */
  function ByteElements(bs: seq<byte>): (items: seq<Value>)
    ensures |items| == |bs|
    ensures forall i :: 0 <= i < |bs| ==> items[i] == Scalar(Int(bs[i]))
  {
    seq(|bs|, i requires 0 <= i < |bs| => Scalar(Int(bs[i])))
  }
}
