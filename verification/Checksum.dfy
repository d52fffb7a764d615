/**
 The internet checksum: a sum of 16-bit words in a wrapping 32-bit register, folded to 16 bits and
 complemented.
 */
module Checksum {
  import opened Collections

  type Byte = x: int | 0 <= x < 0x100

  /** The k-th big-endian word. */
  function Word(data: seq<Byte>, k: nat): (w: nat)
    requires 2 * k + 1 < |data|
    ensures w < 0x1_0000
  {
    (data[2 * k] as int) * 0x100 + data[2 * k + 1] as int
  }

  /** The sum of the first k words. */
  function Sum(data: seq<Byte>, k: nat): nat
    requires 2 * k <= |data|
  {
    if k == 0 then 0 else Sum(data, k - 1) + Word(data, k - 1)
  }

  function Total(data: seq<Byte>): nat { Sum(data, |data| / 2) }

  /** The fold loop. */
  function Fold(sum: nat): (r: nat)
    ensures r < 0x1_0000
  {
    if sum / 0x1_0000 == 0 then sum else Fold(sum % 0x1_0000 + sum / 0x1_0000)
  }

  /** The checksum of data of even length. */
  function Compute(data: seq<Byte>): (r: nat)
    ensures r < 0x1_0000
  {
    0xFFFF - Fold(Total(data) % 0x1_0000_0000)
  }

  /** The loop over the words. An odd number of bytes makes it read past the end, which panics. */
  method SumWords(data: seq<Byte>) returns (r: Option<nat>)
    ensures r == if |data| % 2 == 0 then Some(Total(data) % 0x1_0000_0000) else None
  {
    var sum: nat, i: nat := 0, 0;
    while i < |data|
      invariant i % 2 == 0 && i <= |data| && sum == Sum(data, i / 2) % 0x1_0000_0000
    {
      if i + 1 >= |data| { return None; }
      var word := Word(data, i / 2);
      AddWrapped(Sum(data, i / 2), word);
      sum := (sum + word) % 0x1_0000_0000;
      i := i + 2;
      assert Sum(data, i / 2) == Sum(data, i / 2 - 1) + Word(data, i / 2 - 1);
    }
    return Some(sum);
  }

  method ComputeInternetChecksum(data: seq<Byte>) returns (r: Option<nat>)
    ensures r == if |data| % 2 == 0 then Some(Compute(data)) else None
  {
    var words := SumWords(data);
    if words.None? { return None; }
    var sum := words.value;
    while sum / 0x1_0000 != 0
      invariant Fold(sum) == Fold(words.value)
      decreases sum
    {
      sum := sum % 0x1_0000 + sum / 0x1_0000;
    }
    return Some(0xFFFF - sum);
  }

  // ---------------------------------------------------------------- what folding computes

  lemma FoldOnce(sum: nat)
    ensures (sum % 0x1_0000 + sum / 0x1_0000) % 0xFFFF == sum % 0xFFFF
    ensures sum % 0x1_0000 + sum / 0x1_0000 == 0 <==> sum == 0
  {
    var lo, hi := sum % 0x1_0000, sum / 0x1_0000;
    assert sum == hi * 0xFFFF + (lo + hi);
    AddMultiple(lo + hi, hi);
  }

  lemma {:induction false} AddMultiple(x: nat, k: nat)
    ensures (k * 0xFFFF + x) % 0xFFFF == x % 0xFFFF
  {
    if k == 0 {
    } else {
      AddMultiple(x, k - 1);
      assert k * 0xFFFF + x == ((k - 1) * 0xFFFF + x) + 0xFFFF;
    }
  }

  /** Folding keeps the remainder modulo 65535 and is zero only for zero. */
  lemma {:induction false} FoldResidue(sum: nat)
    ensures Fold(sum) % 0xFFFF == sum % 0xFFFF && (Fold(sum) == 0 <==> sum == 0)
  {
    if sum / 0x1_0000 != 0 {
      FoldOnce(sum);
      FoldResidue(sum % 0x1_0000 + sum / 0x1_0000);
    }
  }

  /** So a fold is determined by the remainder, and by whether the sum is zero. */
  lemma FoldUnique(sum: nat, x: nat)
    requires x < 0x1_0000 && x % 0xFFFF == sum % 0xFFFF && (x == 0 <==> sum == 0)
    ensures Fold(sum) == x
  {
    FoldResidue(sum);
  }

  lemma WrapResidue(sum: nat)
    ensures (sum % 0x1_0000_0000) % 0xFFFF == sum % 0xFFFF <==> (sum / 0x1_0000_0000) % 0xFFFF == 0
  {
    var q, r := sum / 0x1_0000_0000, sum % 0x1_0000_0000;
    assert sum == (q * 0x1_0001) * 0xFFFF + (q + r);
    AddMultiple(q + r, q * 0x1_0001);
    SameResidue(q, r);
  }

  lemma SameResidue(q: nat, r: nat)
    ensures (q + r) % 0xFFFF == r % 0xFFFF <==> q % 0xFFFF == 0
  {
    AddMultiple(q % 0xFFFF + r, q / 0xFFFF);
    assert q + r == (q / 0xFFFF) * 0xFFFF + (q % 0xFFFF + r);
    AddMultiple(q % 0xFFFF + r % 0xFFFF, r / 0xFFFF);
    assert q % 0xFFFF + r == (r / 0xFFFF) * 0xFFFF + (q % 0xFFFF + r % 0xFFFF);
  }

  /** The folded sum is congruent to the sum of the words exactly when what the register lost by
      wrapping is a multiple of 65535; in particular when nothing was lost. */
  lemma ChecksumResidue(data: seq<Byte>)
    ensures (0xFFFF - Compute(data)) % 0xFFFF == Total(data) % 0xFFFF
            <==> (Total(data) / 0x1_0000_0000) % 0xFFFF == 0
  {
    FoldResidue(Total(data) % 0x1_0000_0000);
    WrapResidue(Total(data));
  }

  lemma {:induction false} SumBound(data: seq<Byte>, k: nat)
    requires 2 * k <= |data|
    ensures Sum(data, k) <= k * 0xFFFF
  {
    if k == 0 {
    } else {
      SumBound(data, k - 1);
    }
  }

  /** Up to 65536 words nothing is lost: the complement of the checksum is congruent to the sum of the
      words modulo 65535, and is zero only if they are all zero. */
  lemma ShortDataResidue(data: seq<Byte>)
    requires |data| <= 0x2_0000
    ensures (0xFFFF - Compute(data)) % 0xFFFF == Total(data) % 0xFFFF
    ensures Compute(data) == 0xFFFF <==> Total(data) == 0
  {
    SumBound(data, |data| / 2);
    FoldResidue(Total(data) % 0x1_0000_0000);
  }

  // ---------------------------------------------------------------- checking a written checksum

  /** The data with a word written at an aligned place. */
  function WithWord(data: seq<Byte>, k: nat, w: nat): seq<Byte>
    requires 2 * k + 1 < |data| && w < 0x1_0000
  {
    data[2 * k := w / 0x100][2 * k + 1 := w % 0x100]
  }

  lemma {:induction false} SumWithWord(data: seq<Byte>, k: nat, w: nat, j: nat)
    requires 2 * k + 1 < |data| && w < 0x1_0000 && Word(data, k) == 0 && 2 * j <= |data|
    ensures Sum(WithWord(data, k, w), j) == Sum(data, j) + if k < j then w else 0
  {
    if j == 0 {
    } else {
      SumWithWord(data, k, w, j - 1);
    }
  }

  lemma AddWrapped(t: nat, c: nat)
    ensures (t + c) % 0x1_0000_0000 == (t % 0x1_0000_0000 + c) % 0x1_0000_0000
  {
  }

  /** What the register holds and the complement of its fold add up to a multiple of 65535. That does
      not make the register wrap, because the largest number it can hold is such a multiple. */
  lemma ComplementFits(r: nat, f: nat, c: nat)
    requires r < 0x1_0000_0000 && f < 0x1_0000 && f % 0xFFFF == r % 0xFFFF && (f == 0 <==> r == 0) && c == 0xFFFF - f
    ensures 0 < r + c < 0x1_0000_0000 && (r + c) % 0xFFFF == 0
  {
    var q := r / 0xFFFF;
    assert r == q * 0xFFFF + r % 0xFFFF && q <= 0x1_0001;
    assert 0x1_0001 * 0xFFFF == 0xFFFF_FFFF;
  }

  /** For data of any even length, writing the checksum into a word that was zero and computing again
      gives zero. */
  lemma WrittenChecksumChecks(data: seq<Byte>, k: nat)
    requires |data| % 2 == 0 && 2 * k + 1 < |data| && Word(data, k) == 0
    ensures Compute(WithWord(data, k, Compute(data))) == 0
  {
    var c, r := Compute(data), Total(data) % 0x1_0000_0000;
    SumWithWord(data, k, c, |data| / 2);
    AddWrapped(Total(data), c);
    CheckedFold(r, c);
  }

  lemma CheckedFold(r: nat, c: nat)
    requires r < 0x1_0000_0000 && c == 0xFFFF - Fold(r)
    ensures Fold((r + c) % 0x1_0000_0000) == 0xFFFF
  {
    FoldResidue(r);
    ComplementFits(r, Fold(r), c);
    FoldUnique(r + c, 0xFFFF);
  }

  // ---------------------------------------------------------------- byte order

  function Swap(w: nat): nat
    requires w < 0x1_0000
  {
    w % 0x100 * 0x100 + w / 0x100
  }

  /** The data with the bytes of every word exchanged. */
  function Swapped(data: seq<Byte>): seq<Byte>
    requires |data| % 2 == 0
  {
    seq(|data|, i requires 0 <= i < |data| => if i % 2 == 0 then data[i + 1] else data[i - 1])
  }

  /** The sum of the high bytes of the first k words. */
  function HighBytes(data: seq<Byte>, k: nat): nat
    requires 2 * k <= |data|
  {
    if k == 0 then 0 else HighBytes(data, k - 1) + data[2 * (k - 1)]
  }

  lemma {:induction false} SwappedSum(data: seq<Byte>, k: nat)
    requires |data| % 2 == 0 && 2 * k <= |data|
    ensures Sum(Swapped(data), k) + HighBytes(data, k) * 0xFFFF == 0x100 * Sum(data, k)
    ensures Sum(Swapped(data), k) == 0 <==> Sum(data, k) == 0
  {
    if k == 0 {
    } else {
      SwappedSum(data, k - 1);
    }
  }

  /** The checksum does not depend on the byte order: exchanging the bytes of every word exchanges the
      bytes of the checksum, for data of up to 65536 words. */
  lemma ByteOrderIndependent(data: seq<Byte>)
    requires |data| % 2 == 0 && |data| <= 0x2_0000
    ensures Compute(Swapped(data)) == Swap(Compute(data))
  {
    var s, s' := Total(data), Total(Swapped(data));
    NoWrap(data);
    NoWrap(Swapped(data));
    SwappedSum(data, |data| / 2);
    FoldResidue(s);
    SwapFold(s, s', Fold(s), HighBytes(data, |data| / 2));
    FoldUnique(s', Swap(Fold(s)));
  }

  lemma NoWrap(data: seq<Byte>)
    requires |data| <= 0x2_0000
    ensures Compute(data) == 0xFFFF - Fold(Total(data))
  {
    SumBound(data, |data| / 2);
  }

  lemma SwapFold(s: nat, s': nat, f: nat, high: nat)
    requires f < 0x1_0000 && f % 0xFFFF == s % 0xFFFF && (f == 0 <==> s == 0)
    requires s' + high * 0xFFFF == 0x100 * s && (s' == 0 <==> s == 0)
    ensures Swap(f) % 0xFFFF == s' % 0xFFFF && (Swap(f) == 0 <==> s' == 0)
    ensures 0xFFFF - Swap(f) == Swap(0xFFFF - f)
  {
    AddMultiple(s', high);
    TimesResidue(s);
    TimesResidue(f);
    assert Swap(f) + (f / 0x100) * 0xFFFF == 0x100 * f;
    AddMultiple(Swap(f), f / 0x100);
  }

  lemma TimesResidue(x: nat)
    ensures (0x100 * x) % 0xFFFF == (0x100 * (x % 0xFFFF)) % 0xFFFF
  {
    AddMultiple(0x100 * (x % 0xFFFF), 0x100 * (x / 0xFFFF));
  }
}
