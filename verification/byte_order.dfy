/**
 Fixed-width unsigned integers as byte strings, in little- and big-endian
 order: the `to_le_bytes` / `to_be_bytes` / `from_le_bytes` / `from_be_bytes`
 conversions the primitive codec relies on.
 */
module ByteOrder {
  import opened Wire

  /** 256^w, the number of distinct values of a w-byte unsigned integer. */
  function Pow256(w: nat): (p: nat)
    ensures p >= 1
  {
    if w == 0 then 1 else 256 * Pow256(w - 1)
  }

  /** The low w bytes of n in little-endian order (least significant first);
      for n < 256^w this is the whole w-byte representation of n. */
  function LittleEndian(n: nat, w: nat): (bs: seq<byte>)
    ensures |bs| == w
  {
    if w == 0 then [] else [n % 256] + LittleEndian(n / 256, w - 1)
  }

  /** The unsigned value of a little-endian byte string. */
  function FromLittleEndian(bs: seq<byte>): nat
  {
    if bs == [] then 0 else bs[0] + 256 * FromLittleEndian(bs[1..])
  }

  /** A w-byte string holds a value below 256^w. */
  lemma {:induction false} FromLittleEndianBound(bs: seq<byte>)
    ensures FromLittleEndian(bs) < Pow256(|bs|)
  {
    if bs != [] {
      FromLittleEndianBound(bs[1..]);
      var high := FromLittleEndian(bs[1..]);
      assert 256 * high <= 256 * (Pow256(|bs| - 1) - 1);
    }
  }

  function Reverse(bs: seq<byte>): (r: seq<byte>)
    ensures |r| == |bs|
    ensures forall i :: 0 <= i < |bs| ==> r[i] == bs[|bs| - 1 - i]
  {
    if bs == [] then [] else Reverse(bs[1..]) + [bs[0]]
  }

  /** The w-byte representation of n (its low w bytes) in the selected byte order. */
  function ToBytes(n: nat, w: nat, e: Endianness): (bs: seq<byte>)
    ensures |bs| == w
  {
    match e
    case Little => LittleEndian(n, w)
    case Big => Reverse(LittleEndian(n, w))
  }

  /** The unsigned value of a byte string read in the selected byte order. */
  function FromBytes(bs: seq<byte>, e: Endianness): nat
  {
    match e
    case Little => FromLittleEndian(bs)
    case Big => FromLittleEndian(Reverse(bs))
  }

  /** A byte string of width w holds a value below 256^w in either order. */
  lemma FromBytesBound(bs: seq<byte>, e: Endianness)
    ensures FromBytes(bs, e) < Pow256(|bs|)
  {
    match e
    case Little => FromLittleEndianBound(bs);
    case Big => FromLittleEndianBound(Reverse(bs));
  }

  lemma {:induction false} ReverseReverse(bs: seq<byte>)
    ensures Reverse(Reverse(bs)) == bs
  {
    var r := Reverse(Reverse(bs));
    assert forall i :: 0 <= i < |bs| ==> r[i] == bs[i];
  }

  /** Reading back a little-endian representation yields the number. */
  lemma {:induction false} FromLittleEndianInverts(n: nat, w: nat)
    requires n < Pow256(w)
    ensures FromLittleEndian(LittleEndian(n, w)) == n
  {
    if w > 0 {
      var bs := LittleEndian(n, w);
      assert n / 256 < Pow256(w - 1);
      assert bs[1..] == LittleEndian(n / 256, w - 1);
      FromLittleEndianInverts(n / 256, w - 1);
    }
  }

  /** Every byte string is the little-endian representation of its value. */
  lemma {:induction false} LittleEndianInverts(bs: seq<byte>)
    ensures LittleEndian(FromLittleEndian(bs), |bs|) == bs
  {
    if bs != [] {
      var n := FromLittleEndian(bs);
      var high := FromLittleEndian(bs[1..]);
      assert n % 256 == bs[0] && n / 256 == high;
      LittleEndianInverts(bs[1..]);
    }
  }

  /** Decoding the bytes of n under the same byte order gives back n. */
  lemma BytesRoundTrip(n: nat, w: nat, e: Endianness)
    requires n < Pow256(w)
    ensures FromBytes(ToBytes(n, w, e), e) == n
  {
    FromLittleEndianInverts(n, w);
    ReverseReverse(LittleEndian(n, w));
  }

  /** The byte representation is canonical: re-encoding a decoded value
      reproduces the bytes it was read from. */
  lemma BytesCanonical(bs: seq<byte>, e: Endianness)
    ensures ToBytes(FromBytes(bs, e), |bs|, e) == bs
  {
    match e
    case Little =>
      LittleEndianInverts(bs);
    case Big =>
      LittleEndianInverts(Reverse(bs));
      ReverseReverse(bs);
  }
}
