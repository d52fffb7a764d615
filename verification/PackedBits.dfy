/** A bit vector packed eight to a byte, as the physical allocator keeps it in raw memory. */
module PackedBits {

  /** `1 << k` within a byte. */
  function Mask(k: nat): bv8
    requires k < 8
  {
    if k == 0 then 1 else if k == 1 then 2 else if k == 2 then 4 else if k == 3 then 8
    else if k == 4 then 16 else if k == 5 then 32 else if k == 6 then 64 else 128
  }

  predicate GetAt(bytes: seq<bv8>, i: nat)
    requires i < 8 * |bytes|
  {
    BitOf(bytes[i / 8], i % 8)
  }

  predicate BitOf(x: bv8, k: nat)
    requires k < 8
  {
    x & Mask(k) != 0
  }

  /** Set or clear bit `k` of a byte. */
  function WithBit(x: bv8, k: nat, value: bool): bv8
    requires k < 8
  {
    if value then x | Mask(k) else x & !Mask(k)
  }

  function SetAt(bytes: seq<bv8>, i: nat, value: bool): (r: seq<bv8>)
    requires i < 8 * |bytes|
    ensures |r| == |bytes|
  {
    bytes[i / 8 := WithBit(bytes[i / 8], i % 8, value)]
  }

  lemma MaskBits(x: bv8, j: nat, k: nat)
    requires j < 8 && k < 8
    ensures (x | Mask(j)) & Mask(k) != 0 <==> j == k || x & Mask(k) != 0
    ensures x & !Mask(j) & Mask(k) != 0 <==> j != k && x & Mask(k) != 0
  {
  }

  lemma ByteGetSet(x: bv8, j: nat, value: bool, k: nat)
    requires j < 8 && k < 8
    ensures BitOf(WithBit(x, j, value), k) <==> if j == k then value else BitOf(x, k)
  {
    MaskBits(x, j, k);
  }

  lemma SameBit(i: nat, j: nat)
    ensures i == j <==> i / 8 == j / 8 && i % 8 == j % 8
  {
  }

  /** Writing one bit changes that bit and no other, also within the same byte. */
  lemma GetSet(bytes: seq<bv8>, i: nat, value: bool, j: nat)
    requires i < 8 * |bytes| && j < 8 * |bytes|
    ensures GetAt(SetAt(bytes, i, value), j) <==> if i == j then value else GetAt(bytes, j)
  {
    SameBit(i, j);
    ByteOfSet(bytes, i / 8, i % 8, value, j / 8, j % 8);
  }

  lemma ByteOfSet(bytes: seq<bv8>, b: nat, k: nat, value: bool, b': nat, k': nat)
    requires b < |bytes| && b' < |bytes| && k < 8 && k' < 8
    ensures BitOf(bytes[b := WithBit(bytes[b], k, value)][b'], k')
            <==> if b == b' && k == k' then value else BitOf(bytes[b'], k')
  {
    ByteGetSet(bytes[b], k, value, k');
  }

  /** The bytes spell out the bits. */
  ghost predicate Packs(bytes: seq<bv8>, bits: seq<bool>) {
    && |bits| == 8 * |bytes|
    && forall i {:trigger GetAt(bytes, i)} :: 0 <= i < |bits| ==> (bits[i] <==> GetAt(bytes, i))
  }

  lemma PacksSet(bytes: seq<bv8>, bits: seq<bool>, i: nat, value: bool)
    requires Packs(bytes, bits) && i < |bits|
    ensures Packs(SetAt(bytes, i, value), bits[i := value])
  {
    forall j | 0 <= j < |bits| ensures bits[i := value][j] <==> GetAt(SetAt(bytes, i, value), j) {
      GetSet(bytes, i, value, j);
    }
  }

  /** A bitmap in memory; `bits` is what its bytes say. */
  class Bitmap {
    const bytes: array<bv8>
    ghost var bits: seq<bool>

    ghost predicate Valid()
      reads this, bytes
    {
      Packs(bytes[..], bits)
    }

    /** All bits set. */
    constructor (n: nat)
      ensures Valid() && fresh(bytes) && |bits| == 8 * n
      ensures forall i :: 0 <= i < |bits| ==> bits[i]
    {
      bytes := new bv8[n](_ => 0xFF);
      bits := seq(8 * n, _ => true);
      new;
      forall i | 0 <= i < 8 * n ensures GetAt(bytes[..], i) {
        assert bytes[..][i / 8] == 0xFF;
      }
    }

    method Get(i: nat) returns (b: bool)
      requires Valid() && i < |bits|
      ensures b == bits[i]
    {
      b := bytes[i / 8] & Mask(i % 8) != 0;
      assert b == GetAt(bytes[..], i);
    }

    method Set(i: nat, value: bool)
      requires Valid() && i < |bits|
      modifies this`bits, bytes
      ensures Valid() && bits == old(bits)[i := value]
    {
      PacksSet(bytes[..], bits, i, value);
      bytes[i / 8] := WithBit(bytes[i / 8], i % 8, value);
      bits := bits[i := value];
      assert bytes[..] == SetAt(old(bytes[..]), i, value);
    }
  }
}
