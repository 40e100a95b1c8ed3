/**
 The primitive codec: the ten fixed-width numeric kinds and `bool`, each with a
 fixed width, written and read in the selected byte order (single-byte kinds
 ignore it). Floats are carried as their IEEE-754 bit patterns.
 */
module Primitives {
  import opened Wire
  import opened ByteOrder

  datatype Kind = U8 | I8 | U16 | I16 | U32 | I32 | U64 | I64 | F32 | F64 | Bool

  /** A scalar value: an integer, a float's raw bit pattern, or a boolean. */
  datatype Scalar = Int(i: int) | Float(bits: nat) | Flag(b: bool)

  /** Bytes occupied on the wire, identical for encode and decode. */
  function Width(k: Kind): nat
  {
    match k
    case U8 | I8 | Bool => 1
    case U16 | I16 => 2
    case U32 | I32 | F32 => 4
    case U64 | I64 | F64 => 8
  }

  /** 2^(8 * Width(k)): one more than the largest bit pattern of kind `k`. */
  function Limit(k: Kind): nat
  {
    match k
    case U8 | I8 | Bool => 0x100
    case U16 | I16 => 0x1_0000
    case U32 | I32 | F32 => 0x1_0000_0000
    case U64 | I64 | F64 => 0x1_0000_0000_0000_0000
  }

  lemma LimitIsPow256(k: Kind)
    ensures Limit(k) == Pow256(Width(k))
  {
    assert Pow256(2) == 0x1_0000 && Pow256(4) == 0x1_0000_0000;
    assert Pow256(8) == 0x1_0000_0000_0000_0000;
  }

  predicate IsSigned(k: Kind)
  {
    k == I8 || k == I16 || k == I32 || k == I64
  }

  predicate IsUnsigned(k: Kind)
  {
    k == U8 || k == U16 || k == U32 || k == U64
  }

  /** `s` is a value of the Rust type `k`: integers within the range of their
      width (two's complement for the signed kinds), bit patterns within the
      width of the float. */
  predicate HasKind(s: Scalar, k: Kind)
  {
    match s
    case Int(i) =>
      (IsUnsigned(k) && 0 <= i < Limit(k))
      || (IsSigned(k) && -(Limit(k) / 2) <= i < Limit(k) / 2)
    case Float(bits) => (k == F32 || k == F64) && bits < Limit(k)
    case Flag(_) => k == Bool
  }

  /** The unsigned bit pattern of a scalar: two's complement for negative
      integers (`as u8` and `to_le_bytes` of signed kinds), 1/0 for booleans. */
  function Bits(s: Scalar, k: Kind): (u: nat)
    requires HasKind(s, k)
    ensures u < Limit(k)
  {
    match s
    case Int(i) => if i < 0 then i + Limit(k) else i
    case Float(bits) => bits
    case Flag(b) => if b then 1 else 0
  }

  /** The scalar of kind `k` whose pattern is `u`; any non-zero byte is `true`. */
  function FromBits(u: nat, k: Kind): (s: Scalar)
    requires u < Limit(k)
    ensures HasKind(s, k)
  {
    match k
    case Bool => Flag(u != 0)
    case F32 | F64 => Float(u)
    case I8 | I16 | I32 | I64 => Int(if u >= Limit(k) / 2 then u - Limit(k) else u)
    case U8 | U16 | U32 | U64 => Int(u)
  }

  /** The wire bytes of a scalar. */
  function EncodeScalar(s: Scalar, k: Kind, e: Endianness): (bs: seq<byte>)
    requires HasKind(s, k)
    ensures |bs| == Width(k)
  {
    ToBytes(Bits(s, k), Width(k), e)
  }

  /** `deserialize` for a scalar kind: `Invalid` on fewer than `Width(k)` bytes,
      otherwise the value read from the first `Width(k)` bytes. */
  function DecodeScalar(k: Kind, buf: seq<byte>, e: Endianness): (r: Result<Decoded<Scalar>, DeserializeError>)
    ensures r.Ok? <==> Width(k) <= |buf|
    ensures r.Ok? ==> r.value.consumed == Width(k) && HasKind(r.value.item, k)
    ensures r.Ok? && k == Bool ==> r.value.item == Flag(buf[0] != 0)
    ensures r.Ok? && (k == U8 || k == I8) ==> Bits(r.value.item, k) == buf[0]
  {
    if |buf| < Width(k) then Err(Invalid)
    else
      LimitIsPow256(k);
      FromBytesBound(buf[..Width(k)], e);
      Ok(Decoded(FromBits(FromBytes(buf[..Width(k)], e), k), Width(k)))
  }

  /** `serialize` for a scalar kind: `BufferOverflow` when the buffer is shorter
      than the width; otherwise the first `Width(k)` bytes are overwritten with
      bytes that decode back to `s`, and nothing else changes. */
  function SerializeScalar(s: Scalar, k: Kind, buf: seq<byte>, e: Endianness): (r: Result<Written, SerializeError>)
    requires HasKind(s, k)
    ensures r.Err? <==> |buf| < Width(k)
    ensures r.Ok? ==> r.value.size == Width(k) && |r.value.buffer| == |buf|
    ensures r.Ok? ==> r.value.buffer[Width(k)..] == buf[Width(k)..]
    ensures r.Ok? ==> DecodeScalar(k, r.value.buffer, e) == Ok(Decoded(s, Width(k)))
  {
    if |buf| < Width(k) then Err(BufferOverflow)
    else
      var bytes := EncodeScalar(s, k, e);
      var out := bytes + buf[Width(k)..];
      assert out[..Width(k)] == bytes;
      ScalarRoundTrip(s, k, e, buf[Width(k)..]);
      Ok(Written(out, Width(k)))
  }

  lemma FromBitsInverts(s: Scalar, k: Kind)
    requires HasKind(s, k) && k != Bool
    ensures FromBits(Bits(s, k), k) == s
  {
  }

  lemma BitsInverts(u: nat, k: Kind)
    requires u < Limit(k) && (k != Bool || u <= 1)
    ensures Bits(FromBits(u, k), k) == u
  {
  }

  /** Round trip of one scalar, whatever follows it in the buffer. */
  lemma ScalarRoundTrip(s: Scalar, k: Kind, e: Endianness, rest: seq<byte>)
    requires HasKind(s, k)
    ensures DecodeScalar(k, EncodeScalar(s, k, e) + rest, e) == Ok(Decoded(s, Width(k)))
  {
    var u := Bits(s, k);
    LimitIsPow256(k);
    var bytes := EncodeScalar(s, k, e);
    assert (bytes + rest)[..Width(k)] == bytes;
    FromBytesBound(bytes, e);
    assert DecodeScalar(k, bytes + rest, e) == Ok(Decoded(FromBits(FromBytes(bytes, e), k), Width(k)));
    BytesRoundTrip(u, Width(k), e);
    assert FromBytes(bytes, e) == u;
    if k != Bool {
      FromBitsInverts(s, k);
    } else {
      assert s == Flag(u != 0);
    }
  }

  /** Single-byte kinds write the same byte under either byte order. */
  lemma SingleByteIgnoresEndianness(s: Scalar, k: Kind)
    requires HasKind(s, k) && Width(k) == 1
    ensures EncodeScalar(s, k, Little) == EncodeScalar(s, k, Big) == [Bits(s, k)]
  {
  }

  /** `true` is written as byte 1 and `false` as byte 0. */
  lemma BoolEncoding(b: bool, e: Endianness)
    ensures EncodeScalar(Flag(b), Bool, e) == [if b then 1 else 0]
  {
  }

  /** Reading is canonical except for booleans: the bytes a non-boolean scalar
      was read from are exactly the bytes it encodes to. */
  lemma ScalarCanonical(k: Kind, buf: seq<byte>, e: Endianness)
    requires k != Bool && Width(k) <= |buf|
    ensures EncodeScalar(DecodeScalar(k, buf, e).value.item, k, e) == buf[..Width(k)]
  {
    var u := FromBytes(buf[..Width(k)], e);
    LimitIsPow256(k);
    FromBytesBound(buf[..Width(k)], e);
    BitsInverts(u, k);
    BytesCanonical(buf[..Width(k)], e);
  }
}
