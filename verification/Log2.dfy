/** Powers of two and the rounded-up logarithm that sizes blocks in both allocators. */
module Log2 {

  function Pow2(n: nat): (r: nat)
    ensures r >= 1
  {
    if n == 0 then 1 else 2 * Pow2(n - 1)
  }

  /** `u64::ilog2`. */
  function Ilog2(n: nat): nat
    requires n > 0
  {
    if n < 2 then 0 else 1 + Ilog2(n / 2)
  }

  lemma {:induction false} Ilog2Bounds(n: nat)
    requires n > 0
    ensures Pow2(Ilog2(n)) <= n < Pow2(Ilog2(n) + 1)
  {
    if n >= 2 { Ilog2Bounds(n / 2); }
  }

  /** Zero underflows and anything above 2^63 overflows in the source. */
  function Log2RoundedUp(num: nat): nat
    requires 1 <= num <= 0x8000_0000_0000_0000
  {
    if num == 1 then 0 else Ilog2(num * 2 - 1)
  }

  /** The result is the least exponent whose power of two is not below `num`. */
  lemma Log2RoundedUpIsCeiling(num: nat, k: nat)
    requires 1 <= num <= 0x8000_0000_0000_0000
    ensures num <= Pow2(k) <==> Log2RoundedUp(num) <= k
  {
    var r := Log2RoundedUp(num);
    if num > 1 { Ilog2Bounds(num * 2 - 1); }
    assert num <= Pow2(r) < 2 * num;
    if r <= k { Pow2Monotone(r, k); } else { Pow2Monotone(k, r - 1); }
  }

  lemma {:induction false} Pow2Monotone(a: nat, b: nat)
    requires a <= b
    ensures Pow2(a) <= Pow2(b)
    decreases b
  {
    if a >= b {
    } else {
      Pow2Monotone(a, b - 1);
    }
  }

  lemma DivUnique(x: nat, n: nat, q: nat, r: nat)
    requires x == n * q + r && r < n
    ensures x / n == q && x % n == r
  {
    var p := x / n;
    assert x == n * p + x % n;
    if p < q { TimesMonotone(n, p + 1, q); }
    if q < p { TimesMonotone(n, q + 1, p); }
  }

  lemma TimesMonotone(n: nat, a: nat, b: nat)
    requires a <= b
    ensures n * a <= n * b
  {
  }
}
