/**
 Framing: every decoder reads only the bytes it reports as consumed. Whatever
 follows them, or whether anything follows them at all, cannot change the
 outcome. Consequently a buffer cut short of what a decode consumed is
 `Invalid`, and so is every truncated encoding.
 */
module Framing {
  import opened Wire
  import opened Primitives
  import opened Schema
  import opened Serialization
  import opened Deserialization
  import opened RoundTrip

  /** `a` and `b` both hold at least `n` bytes and agree on the first `n`. */
  predicate SamePrefix(a: seq<byte>, b: seq<byte>, n: nat)
  {
    n <= |a| && n <= |b| && a[..n] == b[..n]
  }

  /** Decoding depends only on the consumed bytes: any buffer that starts
      with the `n` bytes from which `x` was decoded decodes to `x` from `n`
      bytes. */
  lemma {:induction false} DecodeLocal(t: Ty, buf: seq<byte>, buf': seq<byte>, e: Endianness, x: Value, n: nat)
    requires Decode(t, buf, e) == Ok(Decoded(x, n)) && SamePrefix(buf, buf', n)
    ensures Decode(t, buf', e) == Ok(Decoded(x, n))
    decreases t, 1
  {
    match t
    case Prim(k) => ScalarLocal(k, buf, buf', e);
    case OptionOf(u) => OptionLocal(u, buf, buf', e, x, n);
    case VecOf(u) => VecLocal(u, buf, buf', e, x, n);
    case ArrayOf(u, len) => EachLocal(u, len, buf, buf', [], 0, e, x.items, n);
    case Str => StringLocal(buf, buf', e);
    case Struct(ts) => FieldsLocal(ts, buf, buf', e, x.fields, n);
    case Enum(vs) => VariantLocal(vs, buf, buf', e, x, n);
  }

  lemma ScalarLocal(k: Kind, buf: seq<byte>, buf': seq<byte>, e: Endianness)
    requires DecodeScalar(k, buf, e).Ok? && SamePrefix(buf, buf', Width(k))
    ensures DecodeScalar(k, buf', e) == DecodeScalar(k, buf, e)
  {
  }

  lemma {:induction false} OptionLocal(u: Ty, buf: seq<byte>, buf': seq<byte>, e: Endianness, x: Value, n: nat)
    requires DecodeOption(u, buf, e) == Ok(Decoded(x, n)) && SamePrefix(buf, buf', n)
    ensures DecodeOption(u, buf', e) == Ok(Decoded(x, n))
    decreases OptionOf(u), 0
  {
    SplitPrefix(buf, buf', 1, n);
    if buf[0] == 1 {
      DecodeLocal(u, buf[1..], buf'[1..], e, x.inner, n - 1);
    }
  }

  lemma {:induction false} VecLocal(u: Ty, buf: seq<byte>, buf': seq<byte>, e: Endianness, x: Value, n: nat)
    requires DecodeVec(u, buf, e) == Ok(Decoded(x, n)) && SamePrefix(buf, buf', n)
    ensures DecodeVec(u, buf', e) == Ok(Decoded(x, n))
    decreases VecOf(u), 0
  {
    SplitPrefix(buf, buf', 4, n);
    ScalarLocal(U32, buf, buf', e);
    var count := DecodeScalar(U32, buf, e).value.item.i;
    EachLocal(u, count, buf[4..], buf'[4..], [], 0, e, x.items, n - 4);
  }

  lemma StringLocal(buf: seq<byte>, buf': seq<byte>, e: Endianness)
    requires DecodeString(buf, e).Ok? && SamePrefix(buf, buf', DecodeString(buf, e).value.consumed)
    ensures DecodeString(buf', e) == DecodeString(buf, e)
  {
    var n := DecodeString(buf, e).value.consumed;
    SplitPrefix(buf, buf', 4, n);
    ScalarLocal(U32, buf, buf', e);
    assert buf[4..n] == buf[4..][..n - 4] == buf'[4..][..n - 4] == buf'[4..n];
  }

  lemma {:induction false} VariantLocal(vs: seq<VariantTy>, buf: seq<byte>, buf': seq<byte>, e: Endianness, x: Value, n: nat)
    requires DecodeVariant(vs, buf, e) == Ok(Decoded(x, n)) && SamePrefix(buf, buf', n)
    ensures DecodeVariant(vs, buf', e) == Ok(Decoded(x, n))
    decreases Enum(vs), 0
  {
    SplitPrefix(buf, buf', 1, n);
    FieldsLocal(vs[buf[0]].fields, buf[1..], buf'[1..], e, x.payload, n - 1);
  }

  /** The element loop reads only the `m` bytes it consumes after `total`. */
  lemma {:induction false} EachLocal(t: Ty, left: nat, rest: seq<byte>, rest': seq<byte>, staged: seq<Value>, total: nat,
                                     e: Endianness, xs: seq<Value>, m: nat)
    requires DecodeEach(t, left, rest, staged, total, e) == Ok(Decoded(xs, total + m))
    requires SamePrefix(rest, rest', m)
    ensures DecodeEach(t, left, rest', staged, total, e) == Ok(Decoded(xs, total + m))
    decreases t, 2, left, 2
  {
    if left > 0 {
      EachLocalCons(t, left, rest, rest', staged, total, e, xs, m);
    }
  }

  /** `EachLocal` for a turn that decodes one more element. */
  lemma {:induction false} EachLocalCons(t: Ty, left: nat, rest: seq<byte>, rest': seq<byte>, staged: seq<Value>, total: nat,
                                         e: Endianness, xs: seq<Value>, m: nat)
    requires left > 0 && DecodeEach(t, left, rest, staged, total, e) == Ok(Decoded(xs, total + m))
    requires SamePrefix(rest, rest', m)
    ensures DecodeEach(t, left, rest', staged, total, e) == Ok(Decoded(xs, total + m))
    decreases t, 2, left, 1
  {
    var x, c := EachUnfold(t, left, rest, staged, total, e, xs, total + m);
    EachLocalRest(t, left, rest, rest', staged, total, e, xs, m, x, c);
    EachStep(t, left, rest', rest'[c..], staged, total, e, x, c);
  }

  /** The first element and the remaining turns, read from the agreeing
      buffer `rest'`. */
  lemma {:induction false} EachLocalRest(t: Ty, left: nat, rest: seq<byte>, rest': seq<byte>, staged: seq<Value>, total: nat,
                                         e: Endianness, xs: seq<Value>, m: nat, x: Value, c: nat)
    requires left > 0 && Decode(t, rest, e) == Ok(Decoded(x, c)) && c <= m
    requires DecodeEach(t, left - 1, rest[c..], staged + [x], total + c, e) == Ok(Decoded(xs, total + m))
    requires SamePrefix(rest, rest', m)
    ensures Decode(t, rest', e) == Ok(Decoded(x, c)) && c <= |rest'|
    ensures DecodeEach(t, left - 1, rest'[c..], staged + [x], total + c, e) == Ok(Decoded(xs, total + m))
    decreases t, 2, left, 0
  {
    SplitPrefix(rest, rest', c, m);
    DecodeLocal(t, rest, rest', e, x, c);
    EachLocalTail(t, left - 1, rest[c..], rest'[c..], staged + [x], total, e, xs, m, c);
  }

  /** `EachLocal` for the turns that start `c` bytes into the `m`. */
  lemma {:induction false} EachLocalTail(t: Ty, left: nat, rest: seq<byte>, rest': seq<byte>, staged: seq<Value>, total: nat,
                                         e: Endianness, xs: seq<Value>, m: nat, c: nat)
    requires c <= m && DecodeEach(t, left, rest, staged, total + c, e) == Ok(Decoded(xs, total + m))
    requires SamePrefix(rest, rest', m - c)
    ensures DecodeEach(t, left, rest', staged, total + c, e) == Ok(Decoded(xs, total + m))
    decreases t, 2, left, 3
  {
    EachLocal(t, left, rest, rest', staged, total + c, e, xs, m - c);
  }

  /** The field decoders read only the `m` bytes they consume. */
  lemma {:induction false} FieldsLocal(ts: seq<Ty>, buf: seq<byte>, buf': seq<byte>, e: Endianness, xs: seq<Value>, m: nat)
    requires DecodeFields(ts, buf, e) == Ok(Decoded(xs, m)) && SamePrefix(buf, buf', m)
    ensures DecodeFields(ts, buf', e) == Ok(Decoded(xs, m))
    decreases ts, 2
  {
    if ts != [] {
      FieldsLocalCons(ts, buf, buf', e, xs, m);
    }
  }

  /** `FieldsLocal` for a non-empty field list: the first field, then the rest. */
  lemma {:induction false} FieldsLocalCons(ts: seq<Ty>, buf: seq<byte>, buf': seq<byte>, e: Endianness, xs: seq<Value>, m: nat)
    requires ts != [] && DecodeFields(ts, buf, e) == Ok(Decoded(xs, m)) && SamePrefix(buf, buf', m)
    ensures DecodeFields(ts, buf', e) == Ok(Decoded(xs, m))
    decreases ts, 1
  {
    var x, c, others := FieldsUnfold(ts, buf, e, xs, m);
    FieldsLocalRest(ts, buf, buf', e, m, x, c, others);
    FieldsJoin(ts, buf', e, x, c, others, m);
  }

  /** The first field and the others, read from the agreeing buffer `buf'`. */
  lemma {:induction false} FieldsLocalRest(ts: seq<Ty>, buf: seq<byte>, buf': seq<byte>, e: Endianness, m: nat,
                                           x: Value, c: nat, others: seq<Value>)
    requires ts != [] && Decode(ts[0], buf, e) == Ok(Decoded(x, c)) && c <= m
    requires DecodeFields(ts[1..], buf[c..], e) == Ok(Decoded(others, m - c))
    requires SamePrefix(buf, buf', m)
    ensures Decode(ts[0], buf', e) == Ok(Decoded(x, c)) && c <= |buf'|
    ensures DecodeFields(ts[1..], buf'[c..], e) == Ok(Decoded(others, m - c))
    decreases ts, 0
  {
    SplitPrefix(buf, buf', c, m);
    DecodeLocal(ts[0], buf, buf', e, x, c);
    FieldsLocal(ts[1..], buf[c..], buf'[c..], e, others, m - c);
  }

  /** Agreement on `n` bytes is agreement on the first `c` of them and on the
      `n - c` that follow. */
  lemma SplitPrefix(a: seq<byte>, b: seq<byte>, c: nat, n: nat)
    requires SamePrefix(a, b, n) && c <= n
    ensures SamePrefix(a, b, c) && SamePrefix(a[c..], b[c..], n - c)
    ensures c > 0 ==> a[0] == b[0]
  {
    assert a[..c] == a[..n][..c] && b[..c] == b[..n][..c];
    assert a[c..][..n - c] == a[..n][c..] && b[c..][..n - c] == b[..n][c..];
    if c > 0 {
      assert a[0] == a[..n][0] && b[0] == b[..n][0];
    }
  }

  /** Appending bytes after a successful decode changes nothing. */
  lemma DecodeExtends(t: Ty, buf: seq<byte>, more: seq<byte>, e: Endianness)
    requires Decode(t, buf, e).Ok?
    ensures Decode(t, buf + more, e) == Decode(t, buf, e)
  {
    var d := Decode(t, buf, e).value;
    assert (buf + more)[..d.consumed] == buf[..d.consumed];
    DecodeLocal(t, buf, buf + more, e, d.item, d.consumed);
  }

  /** Cutting the buffer right after the consumed bytes changes nothing. */
  lemma DecodeExact(t: Ty, buf: seq<byte>, e: Endianness)
    requires Decode(t, buf, e).Ok?
    ensures Decode(t, buf[..Decode(t, buf, e).value.consumed], e) == Decode(t, buf, e)
  {
    var d := Decode(t, buf, e).value;
    assert buf[..d.consumed][..d.consumed] == buf[..d.consumed];
    DecodeLocal(t, buf, buf[..d.consumed], e, d.item, d.consumed);
  }

  /** A buffer cut anywhere before the end of what a decode consumed does not
      decode: the decoder reports `Invalid` rather than a shorter value. */
  lemma TruncatedInvalid(t: Ty, buf: seq<byte>, k: nat, e: Endianness)
    requires Decode(t, buf, e).Ok? && k < Decode(t, buf, e).value.consumed
    ensures Decode(t, buf[..k], e) == Err(Invalid)
  {
    var cut := Decode(t, buf[..k], e);
    if cut.Ok? {
      var m := cut.value.consumed;
      assert buf[..k][..m] == buf[..m];
      DecodeLocal(t, buf[..k], buf, e, cut.value.item, m);
      assert false;
    } else {
      assert cut.error == Invalid;
    }
  }

  /** Every strict prefix of an encoding is `Invalid`. */
  lemma TruncatedEncodingInvalid(v: Value, t: Ty, e: Endianness, k: nat)
    requires WellFormed(t) && WellTyped(v, t) && k < |Encode(v, t, e)|
    ensures Decode(t, Encode(v, t, e)[..k], e) == Err(Invalid)
  {
    var enc := Encode(v, t, e);
    DecodeEncode(v, t, e, []);
    assert enc + [] == enc;
    TruncatedInvalid(t, enc, k, e);
  }
}
