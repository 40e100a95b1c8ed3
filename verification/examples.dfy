/**
 Concrete wire images: the general theorems instantiated on values of the
 kind the repository's tests and examples exchange.
 */
module WireExamples {
  import opened Wire
  import opened ByteOrder
  import opened Primitives
  import opened Schema
  import opened Serialization
  import opened Deserialization
  import opened RoundTrip

  /** `-42i8` is the single byte 0xD6 in either byte order, and reads back. */
  lemma NegativeI8(e: Endianness)
    ensures EncodeScalar(Int(-42), I8, e) == [0xD6]
    ensures DecodeScalar(I8, [0xD6], e) == Ok(Decoded(Int(-42), 1))
  {
    assert LittleEndian(214, 1) == [214];
    ScalarRoundTrip(Int(-42), I8, e, []);
    assert [0xD6] + [] == [0xD6];
  }

  /** `0x1234u16` puts its low byte first in little-endian order and last in
      big-endian order. */
  lemma U16ByteOrder()
    ensures EncodeScalar(Int(0x1234), U16, Little) == [0x34, 0x12]
    ensures EncodeScalar(Int(0x1234), U16, Big) == [0x12, 0x34]
  {
    assert LittleEndian(0x12, 1) == [0x12];
    assert LittleEndian(0x1234, 2) == [0x34] + LittleEndian(0x12, 1);
    assert Reverse([0x34, 0x12]) == [0x12, 0x34];
  }

  /** An enum with the three unit variants `A`, `B`, `C`. */
  const Abc: Ty := Enum([VariantTy([]), VariantTy([]), VariantTy([])])

  /** `A`, `B`, `C` in declaration order. */
  const AbcItems: seq<Value> := [Variant(0, []), Variant(1, []), Variant(2, [])]

  /** `vec![A, B, C]` is the count 3 in four little-endian bytes followed by
      one discriminant byte per element, and reads back with as many bytes
      consumed as were written. */
  lemma UnitEnumVec()
    ensures WellTyped(Elements(AbcItems), VecOf(Abc))
    ensures Encode(Elements(AbcItems), VecOf(Abc), Little) == [3, 0, 0, 0, 0, 1, 2]
    ensures Decode(VecOf(Abc), [3, 0, 0, 0, 0, 1, 2], Little) == Ok(Decoded(Elements(AbcItems), 7))
  {
    AbcVecEncoding();
    assert WellFormed(Abc);
    DecodeEncode(Elements(AbcItems), VecOf(Abc), Little, []);
    assert [3, 0, 0, 0, 0, 1, 2] + [] == [3, 0, 0, 0, 0, 1, 2];
  }

  /** The wire image of `vec![A, B, C]`, byte by byte. */
  lemma AbcVecEncoding()
    ensures WellTyped(Elements(AbcItems), VecOf(Abc))
    ensures Encode(Elements(AbcItems), VecOf(Abc), Little) == [3, 0, 0, 0, 0, 1, 2]
  {
    AbcItemsEncoding();
    ThreePrefix();
    assert [3, 0, 0, 0] + [0, 1, 2] == [3, 0, 0, 0, 0, 1, 2];
  }

  /** The elements are well typed and encode as their discriminants. */
  lemma AbcItemsEncoding()
    ensures FieldsWellTyped(AbcItems, Repeat(Abc, 3))
    ensures EncodeFields(AbcItems, Repeat(Abc, 3), Little) == [0, 1, 2]
  {
    var xs, ts := AbcItems, Repeat(Abc, 3);
    assert ts == [Abc, Abc, Abc];
    UnitVariantEncoding(0);
    UnitVariantEncoding(1);
    UnitVariantEncoding(2);
    assert xs[1..] == [xs[1], xs[2]] && xs[1..][1..] == [xs[2]] && xs[1..][1..][1..] == [];
    assert EncodeFields([xs[2]], [Abc], Little) == [2];
    assert EncodeFields([xs[1], xs[2]], [Abc, Abc], Little) == [1, 2];
  }

  /** A unit variant of `Abc` is well typed and encodes as its index. */
  lemma UnitVariantEncoding(i: nat)
    requires i < 3
    ensures WellTyped(Variant(i, []), Abc)
    ensures Encode(Variant(i, []), Abc, Little) == [i]
  {
    assert FieldsWellTyped([], []);
    assert EncodeFields([], [], Little) == [];
  }

  /** The count 3 is written `03 00 00 00`. */
  lemma ThreePrefix()
    ensures LengthPrefix(3, Little) == [3, 0, 0, 0]
  {
    assert LittleEndian(0, 1) == [0] + LittleEndian(0, 0) == [0];
    assert LittleEndian(0, 2) == [0] + LittleEndian(0, 1) == [0, 0];
    assert LittleEndian(0, 3) == [0] + LittleEndian(0, 2) == [0, 0, 0];
    assert LittleEndian(3, 4) == [3] + LittleEndian(0, 3) == [3, 0, 0, 0];
  }
}
