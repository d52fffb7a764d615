/**
 The binary tree of the physical page allocator, as a vector of bits.

 Node 1 is the root and nodes `2i` and `2i + 1` are the children of node `i`; with `leaves` leaves,
 nodes `leaves .. 2 * leaves` are the pages. One bit per node: a leaf is set when its page is taken,
 an inner node when both children are.
 */
module BuddyTree {
  import opened Collections
  import opened Log2

  type Tree = seq<bool>

  // ---------------------------------------------------------------- the AND invariant

  predicate AndNode(t: Tree, i: nat)
    requires 2 * i + 1 < |t|
  {
    t[i] <==> t[2 * i] && t[2 * i + 1]
  }

  /** Every inner bit is the AND of its children's bits, except perhaps at `hole`. */
  ghost predicate AndTreeBut(t: Tree, leaves: nat, hole: nat)
    requires 2 * leaves <= |t|
  {
    forall i :: 1 <= i < leaves && i != hole ==> AndNode(t, i)
  }

  ghost predicate AndTree(t: Tree, leaves: nat)
    requires 2 * leaves <= |t|
  {
    AndTreeBut(t, leaves, 0)
  }

  /** The taken pages, as leaf indices. */
  ghost function Taken(t: Tree, leaves: nat): set<nat>
    requires 2 * leaves <= |t|
  {
    set i: nat | leaves <= i < 2 * leaves && t[i]
  }

  /** Recomputing the one node that may be wrong leaves at most its parent wrong. */
  lemma RepairNode(t: Tree, leaves: nat, i: nat)
    requires 2 * leaves <= |t| && 1 <= i < leaves && AndTreeBut(t, leaves, i)
    ensures AndTreeBut(t[i := t[2 * i] && t[2 * i + 1]], leaves, i / 2)
  {
    var t' := t[i := t[2 * i] && t[2 * i + 1]];
    forall j | 1 <= j < leaves && j != i / 2 ensures AndNode(t', j) {
      if j != i { assert AndNode(t, j); }
    }
  }

  /** Changing a leaf leaves at most its parent wrong. */
  lemma ChangeLeaf(t: Tree, leaves: nat, leaf: nat, taken: bool)
    requires 2 * leaves <= |t| && leaves <= leaf < 2 * leaves && AndTree(t, leaves)
    ensures AndTreeBut(t[leaf := taken], leaves, leaf / 2)
  {
    var t' := t[leaf := taken];
    forall j | 1 <= j < leaves && j != leaf / 2 ensures AndNode(t', j) {
      assert AndNode(t, j);
    }
  }

  /** The leaves of `t'` are those of `t` but for one. */
  ghost predicate LeafChanged(t: Tree, t': Tree, leaves: nat, leaf: nat, taken: bool)
    requires 2 * leaves <= |t| && 2 * leaves <= |t'|
  {
    forall j :: leaves <= j < 2 * leaves ==> t'[j] == if j == leaf then taken else t[j]
  }

  lemma TakenChanged(t: Tree, t': Tree, leaves: nat, leaf: nat, taken: bool)
    requires 2 * leaves <= |t| && 2 * leaves <= |t'| && leaves <= leaf < 2 * leaves
    requires LeafChanged(t, t', leaves, leaf, taken)
    ensures Taken(t', leaves) == if taken then Taken(t, leaves) + {leaf} else Taken(t, leaves) - {leaf}
  {
  }

  // ---------------------------------------------------------------- spans of nodes

  /** The leftmost leaf below node `c`, which is `h` levels above the leaves. */
  function FirstLeaf(c: nat, h: nat): nat
    decreases h
  {
    if h == 0 then c else FirstLeaf(2 * c, h - 1)
  }

  lemma {:induction false} FirstLeafIsProduct(c: nat, h: nat)
    ensures FirstLeaf(c, h) == c * Pow2(h)
    decreases h
  {
    if h == 0 {
    } else {
      FirstLeafIsProduct(2 * c, h - 1);
      assert (2 * c) * Pow2(h - 1) == c * (2 * Pow2(h - 1));
    }
  }

  lemma {:induction false} FirstLeafSteps(a: nat, b: nat, h: nat)
    ensures FirstLeaf(a, h) >= a
    ensures FirstLeaf(a + 1, h) == FirstLeaf(a, h) + Pow2(h)
    ensures a < b ==> FirstLeaf(a, h) + Pow2(h) <= FirstLeaf(b, h)
    decreases h
  {
    if h == 0 {
    } else {
      FirstLeafSteps(2 * a, 2 * b, h - 1);
      FirstLeafSteps(2 * a + 1, 2 * b, h - 1);
    }
  }

  lemma {:induction false} FirstLeafTwice(c: nat, a: nat, b: nat)
    ensures FirstLeaf(FirstLeaf(c, a), b) == FirstLeaf(c, a + b)
    decreases a
  {
    if a == 0 {
    } else {
      FirstLeafTwice(2 * c, a - 1, b);
    }
  }

  /** Node `c` is `h` levels above the leaves. */
  predicate Level(leaves: nat, c: nat, h: nat) {
    leaves <= FirstLeaf(c, h) && FirstLeaf(c, h) + Pow2(h) <= 2 * leaves
  }

  lemma Children(leaves: nat, c: nat, h: nat)
    requires Level(leaves, c, h)
    ensures c < 2 * leaves && (c < leaves <==> h > 0)
    ensures h > 0 ==> Level(leaves, 2 * c, h - 1) && Level(leaves, 2 * c + 1, h - 1)
    ensures h > 0 ==> FirstLeaf(2 * c + 1, h - 1) == FirstLeaf(c, h) + Pow2(h - 1)
  {
    FirstLeafSteps(c, c, h);
    if h > 0 { FirstLeafSteps(2 * c, 2 * c, h - 1); }
  }

  /** All leaves from `lo` on, `n` of them, are free. */
  ghost predicate Free(t: Tree, lo: nat, n: nat)
    requires lo + n <= |t|
  {
    forall i :: lo <= i < lo + n ==> !t[i]
  }

  ghost predicate AllTaken(t: Tree, lo: nat, n: nat)
    requires lo + n <= |t|
  {
    forall i :: lo <= i < lo + n ==> t[i]
  }

  ghost predicate Summary(t: Tree, leaves: nat, c: nat, h: nat) {
    2 * leaves <= |t| && AndTree(t, leaves) && Level(leaves, c, h)
  }

  /** A node's bit says whether every page below it is taken. */
  lemma {:induction false} BitIsAllTaken(t: Tree, leaves: nat, c: nat, h: nat)
    requires Summary(t, leaves, c, h) && c >= 1
    ensures c < 2 * leaves && (t[c] <==> AllTaken(t, FirstLeaf(c, h), Pow2(h)))
    decreases h
  {
    Children(leaves, c, h);
    if h == 0 {
    } else {
      BitIsAllTaken(t, leaves, 2 * c, h - 1);
      BitIsAllTaken(t, leaves, 2 * c + 1, h - 1);
      assert AndNode(t, c);
      Halves(t, FirstLeaf(c, h), Pow2(h - 1));
    }
  }

  lemma Halves(t: Tree, lo: nat, n: nat)
    requires lo + 2 * n <= |t|
    ensures AllTaken(t, lo, 2 * n) <==> AllTaken(t, lo, n) && AllTaken(t, lo + n, n)
    ensures Free(t, lo, 2 * n) <==> Free(t, lo, n) && Free(t, lo + n, n)
  {
  }

  // ---------------------------------------------------------------- single pages

  function FindHigh(t: Tree, leaves: nat, c: nat): nat
    requires 1 <= c < 2 * leaves <= |t|
    decreases 2 * leaves - c
  {
    if c >= leaves then c
    else if !t[2 * c + 1] then FindHigh(t, leaves, 2 * c + 1)
    else FindHigh(t, leaves, 2 * c)
  }

  function FindLow(t: Tree, leaves: nat, c: nat): nat
    requires 1 <= c < 2 * leaves <= |t|
    decreases 2 * leaves - c
  {
    if c >= leaves then c
    else if !t[2 * c] then FindLow(t, leaves, 2 * c)
    else FindLow(t, leaves, 2 * c + 1)
  }

  /** Below a clear node, the high search finds exactly the highest free page. */
  lemma {:induction false} FindHighIsHighest(t: Tree, leaves: nat, c: nat, h: nat)
    requires Summary(t, leaves, c, h) && 1 <= c < 2 * leaves && !t[c]
    ensures var r, lo, n := FindHigh(t, leaves, c), FirstLeaf(c, h), Pow2(h);
            lo <= r < lo + n && !t[r] && AllTaken(t, r + 1, lo + n - (r + 1))
    decreases h
  {
    Children(leaves, c, h);
    if h == 0 {
    } else {
      assert AndNode(t, c);
      if !t[2 * c + 1] {
        FindHighIsHighest(t, leaves, 2 * c + 1, h - 1);
      } else {
        BitIsAllTaken(t, leaves, 2 * c + 1, h - 1);
        FindHighIsHighest(t, leaves, 2 * c, h - 1);
      }
    }
  }

  /** Below a clear node, the low search finds exactly the lowest free page. */
  lemma {:induction false} FindLowIsLowest(t: Tree, leaves: nat, c: nat, h: nat)
    requires Summary(t, leaves, c, h) && 1 <= c < 2 * leaves && !t[c]
    ensures var r, lo, n := FindLow(t, leaves, c), FirstLeaf(c, h), Pow2(h);
            lo <= r < lo + n && !t[r] && AllTaken(t, lo, r - lo)
    decreases h
  {
    Children(leaves, c, h);
    if h == 0 {
    } else {
      assert AndNode(t, c);
      if !t[2 * c] {
        FindLowIsLowest(t, leaves, 2 * c, h - 1);
      } else {
        BitIsAllTaken(t, leaves, 2 * c, h - 1);
        FindLowIsLowest(t, leaves, 2 * c + 1, h - 1);
      }
    }
  }

  // ---------------------------------------------------------------- contiguous blocks

  predicate CheckAllEmpty(t: Tree, leaves: nat, c: nat)
    requires 1 <= c < 2 * leaves <= |t|
    decreases 2 * leaves - c
  {
    if c >= leaves then !t[c]
    else !t[c] && CheckAllEmpty(t, leaves, 2 * c) && CheckAllEmpty(t, leaves, 2 * c + 1)
  }

  function LastLevelIndex(leaves: nat, c: nat): nat
    requires c >= 1
    decreases leaves - c
  {
    if c < leaves then LastLevelIndex(leaves, 2 * c) else c
  }

  function FindContiguous(t: Tree, leaves: nat, c: nat, order: nat): Option<nat>
    requires 1 <= c < 2 * leaves <= |t|
    decreases 2 * leaves - c
  {
    if c >= 2 * leaves / Pow2(order + 1) then
      if CheckAllEmpty(t, leaves, c) then Some(LastLevelIndex(leaves, c)) else None
    else
      DivBelow(2 * leaves, Pow2(order + 1), c);
      if !t[2 * c + 1] then
        var right := FindContiguous(t, leaves, 2 * c + 1, order);
        if right.Some? then right else FindContiguous(t, leaves, 2 * c, order)
      else FindContiguous(t, leaves, 2 * c, order)
  }

  lemma DivBelow(a: nat, b: nat, c: nat)
    requires b >= 2 && c < a / b
    ensures 2 * c + 1 < a
  {
    assert b * (a / b) <= a;
    assert 2 * (a / b) <= b * (a / b);
  }

  lemma {:induction false} CheckAllEmptyIsFree(t: Tree, leaves: nat, c: nat, h: nat)
    requires Summary(t, leaves, c, h) && 1 <= c < 2 * leaves
    ensures CheckAllEmpty(t, leaves, c) <==> Free(t, FirstLeaf(c, h), Pow2(h))
    ensures LastLevelIndex(leaves, c) == FirstLeaf(c, h)
    decreases h
  {
    Children(leaves, c, h);
    if h == 0 {
    } else {
      CheckAllEmptyIsFree(t, leaves, 2 * c, h - 1);
      CheckAllEmptyIsFree(t, leaves, 2 * c + 1, h - 1);
      Halves(t, FirstLeaf(c, h), Pow2(h - 1));
      BitIsAllTaken(t, leaves, c, h);
      assert t[c] ==> t[FirstLeaf(c, h)];
    }
  }

  lemma {:induction false} PowerIsFirstLeaf(d: nat)
    ensures FirstLeaf(1, d) == Pow2(d)
  {
    FirstLeafIsProduct(1, d);
  }

  lemma {:induction false} PowerQuotient(a: nat, b: nat)
    ensures Pow2(a + b) / Pow2(b) == Pow2(a)
    decreases b
  {
    if b == 0 {
    } else {
      PowerQuotient(a, b - 1);
      HalveBoth(Pow2(a + b - 1), Pow2(b - 1));
    }
  }

  lemma HalveBoth(x: nat, y: nat)
    requires y > 0
    ensures (2 * x) / (2 * y) == x / y
  {
    var q, r := x / y, x % y;
    assert x == y * q + r;
    assert 2 * x == (2 * y) * q + 2 * r;
    DivUnique(2 * x, 2 * y, q, 2 * r);
  }

  /** The stop test of the search is "this node spans 2^order pages". */
  lemma StopTest(d: nat, c: nat, h: nat, order: nat)
    requires Level(Pow2(d), c, h) && order <= h && order <= d
    ensures c >= 2 * Pow2(d) / Pow2(order + 1) <==> h == order
  {
    var top := Pow2(d - order);
    PowerQuotient(d - order, order + 1);
    assert d - order + (order + 1) == d + 1;
    assert 2 * Pow2(d) / Pow2(order + 1) == top;
    PowerIsFirstLeaf(d);
    PowerIsFirstLeaf(d - order);
    FirstLeafTwice(1, d - order, order);
    assert FirstLeaf(top, order) == Pow2(d);
    if h == order {
      if c < top { FirstLeafSteps(c, top, order); }
    } else {
      AboveStop(d, c, h, order, top);
    }
  }

  /** A node above the level of the blocks comes before the blocks' nodes. */
  lemma AboveStop(d: nat, c: nat, h: nat, order: nat, top: nat)
    requires Level(Pow2(d), c, h) && order < h && FirstLeaf(top, order) == Pow2(d)
    ensures c < top
  {
    FirstLeafIsProduct(2 * top, order);
    FirstLeafIsProduct(top, order);
    assert (2 * top) * Pow2(order) == 2 * (top * Pow2(order));
    var m := FirstLeaf(c + 1, h - order);
    FirstLeafTwice(c + 1, h - order, order);
    FirstLeafSteps(c, c, h);
    assert FirstLeaf(m, order) <= FirstLeaf(2 * top, order);
    if m > 2 * top { FirstLeafSteps(2 * top, m, order); }
    FirstLeafSteps(2 * (c + 1), 0, h - order - 1);
  }

  /** Block `b` of 2^order pages: the pages below node `b` of that level. */
  ghost predicate FreeBlock(t: Tree, b: nat, order: nat) {
    FirstLeaf(b, order) + Pow2(order) <= |t| && Free(t, FirstLeaf(b, order), Pow2(order))
  }

  ghost predicate Within(b: nat, order: nat, c: nat, h: nat) {
    FirstLeaf(c, h) <= FirstLeaf(b, order) && FirstLeaf(b, order) + Pow2(order) <= FirstLeaf(c, h) + Pow2(h)
  }

  /** A block below a node lies below one of its children. */
  lemma WithinHalf(b: nat, order: nat, c: nat, h: nat)
    requires Within(b, order, c, h) && order < h
    ensures Within(b, order, 2 * c, h - 1) || Within(b, order, 2 * c + 1, h - 1)
  {
    FirstLeafSteps(2 * c, 2 * c, h - 1);
    var m := FirstLeaf(2 * c + 1, h - 1 - order);
    FirstLeafTwice(2 * c + 1, h - 1 - order, order);
    if b < m { FirstLeafSteps(b, m, order); }
    if m < b { FirstLeafSteps(m, b, order); }
  }

  /** `r` is the first page of the highest free block of 2^order pages below node `c`, namely of
      block `b`; it is `None` exactly when there is no such block. */
  ghost predicate IsHighest(t: Tree, c: nat, h: nat, order: nat, r: Option<nat>, b: nat) {
    && (r.Some? ==> r.value == FirstLeaf(b, order) && Within(b, order, c, h) && FreeBlock(t, b, order))
    && (forall b': nat :: Within(b', order, c, h) && FreeBlock(t, b', order) ==> r.Some? && b' <= b)
  }

  lemma HighestFromRight(t: Tree, c: nat, h: nat, order: nat, r: Option<nat>, b: nat)
    requires order < h && r.Some? && IsHighest(t, 2 * c + 1, h - 1, order, r, b)
    ensures IsHighest(t, c, h, order, r, b)
  {
    FirstLeafSteps(2 * c, 2 * c, h - 1);
    forall b': nat | Within(b', order, c, h) && FreeBlock(t, b', order) ensures b' <= b {
      WithinHalf(b', order, c, h);
      if b < b' && !Within(b', order, 2 * c + 1, h - 1) { FirstLeafSteps(b, b', order); }
    }
  }

  lemma HighestFromLeft(t: Tree, c: nat, h: nat, order: nat, r: Option<nat>, b: nat)
    requires order < h && IsHighest(t, 2 * c, h - 1, order, r, b)
    requires forall b': nat :: Within(b', order, 2 * c + 1, h - 1) ==> !FreeBlock(t, b', order)
    ensures IsHighest(t, c, h, order, r, b)
  {
    FirstLeafSteps(2 * c, 2 * c, h - 1);
    forall b': nat | Within(b', order, c, h) && FreeBlock(t, b', order) ensures r.Some? && b' <= b {
      WithinHalf(b', order, c, h);
    }
  }

  lemma TakenHoldsNoBlock(t: Tree, c: nat, h: nat, order: nat)
    requires FirstLeaf(c, h) + Pow2(h) <= |t| && AllTaken(t, FirstLeaf(c, h), Pow2(h))
    ensures forall b: nat :: Within(b, order, c, h) ==> !FreeBlock(t, b, order)
  {
    forall b: nat | Within(b, order, c, h) ensures !FreeBlock(t, b, order) {
      assert t[FirstLeaf(b, order)];
    }
  }

  lemma HighestHere(t: Tree, c: nat, order: nat, r: Option<nat>)
    requires FirstLeaf(c, order) + Pow2(order) <= |t|
    requires r == if Free(t, FirstLeaf(c, order), Pow2(order)) then Some(FirstLeaf(c, order)) else None
    ensures IsHighest(t, c, order, order, r, c)
  {
    forall b: nat | Within(b, order, c, order) ensures b == c {
      if b < c { FirstLeafSteps(b, c, order); }
      if c < b { FirstLeafSteps(c, b, order); }
    }
  }

  /** The contiguous search below a node returns the highest aligned free block of 2^order pages
      there, and fails only if there is none. */
  lemma {:induction false} FindContiguousIsHighest(t: Tree, d: nat, c: nat, h: nat, order: nat) returns (b: nat)
    requires Summary(t, Pow2(d), c, h) && 1 <= c < 2 * Pow2(d) && order <= h && order <= d
    ensures IsHighest(t, c, h, order, FindContiguous(t, Pow2(d), c, order), b)
    decreases h
  {
    Children(Pow2(d), c, h);
    StopTest(d, c, h, order);
    if h == order {
      CheckAllEmptyIsFree(t, Pow2(d), c, h);
      HighestHere(t, c, order, FindContiguous(t, Pow2(d), c, order));
      b := c;
    } else {
      var right := FindContiguousIsHighest(t, d, 2 * c + 1, h - 1, order);
      var left := FindContiguousIsHighest(t, d, 2 * c, h - 1, order);
      var found := FindContiguous(t, Pow2(d), 2 * c + 1, order);
      if !t[2 * c + 1] && found.Some? {
        HighestFromRight(t, c, h, order, found, right);
        b := right;
      } else {
        BitIsAllTaken(t, Pow2(d), 2 * c + 1, h - 1);
        if t[2 * c + 1] { TakenHoldsNoBlock(t, 2 * c + 1, h - 1, order); }
        HighestFromLeft(t, c, h, order, FindContiguous(t, Pow2(d), 2 * c, order), left);
        b := left;
      }
    }
  }

  /** The same in plain numbers, from the root: the result is the first page of the highest free
      run of 2^order pages that starts at a multiple of 2^order. */
  lemma SearchFromRoot(t: Tree, d: nat, order: nat)
    requires 2 * Pow2(d) <= |t| && AndTree(t, Pow2(d)) && order <= d
    ensures var r, w, leaves := FindContiguous(t, Pow2(d), 1, order), Pow2(order), Pow2(d);
            && (r.Some? ==> leaves <= r.value && r.value + w <= 2 * leaves && r.value % w == 0 && Free(t, r.value, w))
            && (forall i: nat :: leaves <= i && i + w <= 2 * leaves && i % w == 0 && Free(t, i, w) ==> r.Some? && i <= r.value)
  {
    var r, w, leaves := FindContiguous(t, Pow2(d), 1, order), Pow2(order), Pow2(d);
    PowerIsFirstLeaf(d);
    var b := FindContiguousIsHighest(t, d, 1, d, order);
    BlockIsAligned(b, order);
    forall i: nat | leaves <= i && i + w <= 2 * leaves && i % w == 0 && Free(t, i, w)
      ensures r.Some? && i <= r.value
    {
      var b' := AlignedIsBlock(i, order);
      assert Within(b', order, 1, d) && FreeBlock(t, b', order);
      if b' < b { FirstLeafSteps(b', b, order); }
    }
  }

  lemma BlockIsAligned(b: nat, order: nat)
    ensures FirstLeaf(b, order) % Pow2(order) == 0
  {
    FirstLeafIsProduct(b, order);
    DivUnique(b * Pow2(order), Pow2(order), b, 0);
  }

  lemma AlignedIsBlock(i: nat, order: nat) returns (b: nat)
    requires i % Pow2(order) == 0
    ensures i == FirstLeaf(b, order)
  {
    b := i / Pow2(order);
    FirstLeafIsProduct(b, order);
  }

  /** A block larger than the tree is found, at the first page, exactly if every page is free. */
  lemma SearchTooLarge(t: Tree, d: nat, order: nat)
    requires 2 * Pow2(d) <= |t| && AndTree(t, Pow2(d)) && order > d
    ensures FindContiguous(t, Pow2(d), 1, order) == if Free(t, Pow2(d), Pow2(d)) then Some(Pow2(d)) else None
  {
    PowerIsFirstLeaf(d);
    Pow2Monotone(d + 2, order + 1);
    DivUnique(2 * Pow2(d), Pow2(order + 1), 0, 2 * Pow2(d));
    CheckAllEmptyIsFree(t, Pow2(d), 1, d);
  }
}
