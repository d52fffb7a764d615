/**
 The physical page allocator: the tree of `BuddyTree` changed in place in a packed bitmap, and the
 ledger of pages.

 `reserved` and `owned` are the pages the allocator must never hand out and the pages it has
 handed out; they are leaf indices and exist for specification only. A panic of the kernel is a
 `None` result.
 */
module BuddyAllocation {
  import opened Collections
  import opened Log2
  import opened BuddyTree
  import opened PackedBits

  predicate InRun(i: nat, first: nat, n: nat) { first <= i < first + n }

  function Pages(first: nat, n: nat): set<nat> { set i: nat | first <= i < first + n && InRun(i, first, n) }

  /** A page of a tree of depth `d` that is not in use. */
  ghost predicate IsFree(d: nat, used: set<nat>, leaf: nat) {
    Pow2(d) <= leaf < 2 * Pow2(d) && leaf !in used
  }

  /** No page is left. */
  ghost predicate Full(d: nat, used: set<nat>) {
    forall i: nat :: !IsFree(d, used, i)
  }

  /** Every page of the run is free. */
  ghost predicate FreeRun(d: nat, used: set<nat>, first: nat, n: nat) {
    forall i :: first <= i < first + n ==> IsFree(d, used, i)
  }

  /** Scan down from page `i` for a free run of `w` pages that begins at a multiple of `w`. */
  ghost function HighestRun(d: nat, used: set<nat>, w: nat, i: nat): Option<nat>
    requires w > 0
    decreases i
  {
    if i < Pow2(d) then None
    else if i % w == 0 && FreeRun(d, used, i, w) then Some(i)
    else HighestRun(d, used, w, i - 1)
  }

  /** The scan finds the highest such run, and fails only if there is none. */
  lemma {:induction false} HighestRunIsHighest(d: nat, used: set<nat>, w: nat, i: nat, j: nat)
    requires w > 0
    ensures var r := HighestRun(d, used, w, i);
            && (r.Some? ==> Pow2(d) <= r.value <= i && r.value % w == 0 && FreeRun(d, used, r.value, w))
            && (j <= i && j % w == 0 && FreeRun(d, used, j, w) ==> r.Some? && j <= r.value)
    decreases i
  {
    if j <= i && FreeRun(d, used, j, w) { assert IsFree(d, used, j); }
    if i >= Pow2(d) && !(i % w == 0 && FreeRun(d, used, i, w)) {
      HighestRunIsHighest(d, used, w, i - 1, j);
    }
  }

  lemma HighestRunUnique(d: nat, used: set<nat>, w: nat, r: Option<nat>)
    requires w > 0
    requires r.Some? ==> r.value % w == 0 && FreeRun(d, used, r.value, w)
    requires forall i: nat :: i % w == 0 && FreeRun(d, used, i, w) ==> r.Some? && i <= r.value
    ensures r == HighestRun(d, used, w, 2 * Pow2(d))
  {
    HighestRunIsHighest(d, used, w, 2 * Pow2(d), 0);
    if r.Some? {
      assert IsFree(d, used, r.value);
      HighestRunIsHighest(d, used, w, 2 * Pow2(d), r.value);
    }
  }

  /** The first page for a request of `n` pages: that of the highest free run that is as long as `n`
      rounded up to a power of two and starts at a multiple of that length. A request for more pages
      than there are finds the first page if no page is in use. */
  ghost function BestRun(d: nat, used: set<nat>, n: nat): Option<nat>
    requires n <= 0x8000_0000_0000_0000
  {
    if n == 0 then Some(Pow2(d))
    else if n <= Pow2(d) then HighestRun(d, used, Pow2(Log2RoundedUp(n)), 2 * Pow2(d))
    else if used == {} then Some(Pow2(d))
    else None
  }

  class BuddyAllocator {
    var nPages: nat
    var treeSize: nat
    var allocatedPages: nat
    const tree: Bitmap

    ghost var depth: nat
    ghost var reserved: set<nat>
    ghost var owned: set<nat>

    /** The tree has its size: one bit per node, a power of two of leaves, at least eight. */
    ghost predicate Sized()
      reads this, tree, tree.bytes
    {
      && tree.Valid()
      && depth >= 3
      && treeSize == 2 * Pow2(depth) == |tree.bits|
      && nPages <= Pow2(depth)
    }

    /** The set leaves are exactly the reserved pages and the pages handed out, which are disjoint;
        every inner bit is the AND of its children. */
    ghost predicate Ledger()
      reads this, tree, tree.bytes
    {
      && Sized()
      && AndTree(tree.bits, Pow2(depth))
      && Taken(tree.bits, Pow2(depth)) == reserved + owned
      && reserved !! owned
    }

    ghost predicate Valid()
      reads this, tree, tree.bytes
    {
      Ledger() && allocatedPages == |owned|
    }

    /** The pages that cannot be handed out now. */
    ghost function Used(): set<nat>
      reads this`reserved, this`owned
    {
      reserved + owned
    }

    /** The leaf of a page address. */
    ghost function LeafOf(addr: nat): nat
      reads this`depth
    {
      addr / 4096 + Pow2(depth)
    }

    /** `addr` is the address of the page at `leaf`, or both are missing. */
    ghost predicate IsAddress(addr: Option<nat>, leaf: Option<nat>)
      reads this`depth
    {
      if leaf.None? then addr.None?
      else addr.Some? && leaf.value >= Pow2(depth) && addr.value == (leaf.value - Pow2(depth)) * 4096
    }

    // -------------------------------------------------------------- setting up

    /** A map of the machine in which everything is taken. */
    constructor (ramPages: nat)
      requires 5 <= ramPages <= 0x8000_0000_0000_0000
      ensures Sized() && fresh(tree) && fresh(tree.bytes)
      ensures ramPages <= Pow2(depth) && depth == Log2RoundedUp(ramPages)
      ensures forall i :: 0 <= i < |tree.bits| ==> tree.bits[i]
    {
      var elements := Pow2(Log2RoundedUp(ramPages));
      TreeSizes(ramPages);
      tree := new Bitmap(elements / 8 * 2);
      treeSize := elements * 2;
      nPages := ramPages;
      allocatedPages := 0;
      depth := Log2RoundedUp(ramPages);
    }

    /** Free the usable pages of the memory map; everything else is reserved for good. */
    method Init(usable: seq<nat>)
      requires Sized() && forall i :: 0 <= i < |tree.bits| ==> tree.bits[i]
      requires Distinct(usable) && forall i :: 0 <= i < |usable| ==> usable[i] < Pow2(depth)
      modifies this`nPages, this`allocatedPages, this`reserved, this`owned, tree, tree.bytes
      ensures owned == {} && Valid()
      ensures forall i :: i in reserved <==> Pow2(depth) <= i < 2 * Pow2(depth) && i - Pow2(depth) !in usable
    {
      var count := FreeUsable(usable);
      FewUsable(usable, Pow2(depth));
      allocatedPages := 0;
      nPages := count;
      UpdateAll();
      owned := {};
      reserved := Taken(tree.bits, Pow2(depth));
    }

    method FreeUsable(usable: seq<nat>) returns (count: nat)
      requires tree.Valid() && treeSize == |tree.bits| && treeSize % 2 == 0
      requires forall i :: 0 <= i < treeSize ==> tree.bits[i]
      requires forall i :: 0 <= i < |usable| ==> usable[i] < treeSize / 2
      modifies tree, tree.bytes
      ensures tree.Valid() && treeSize == |tree.bits| && count == |usable|
      ensures forall i :: treeSize / 2 <= i < treeSize ==> (tree.bits[i] <==> i - treeSize / 2 !in usable)
    {
      var leaves := treeSize / 2;
      count := 0;
      while count < |usable|
        invariant 0 <= count <= |usable| && tree.Valid() && treeSize == |tree.bits|
        invariant forall i :: leaves <= i < treeSize ==> (tree.bits[i] <==> i - leaves !in usable[..count])
      {
        tree.Set(usable[count] + leaves, false);
        assert usable[..count + 1] == usable[..count] + [usable[count]];
        count := count + 1;
      }
      assert usable[..|usable|] == usable;
    }

    /** Bring every inner node up to date, from the last to the first. */
    method UpdateAll()
      requires Sized()
      modifies tree, tree.bytes
      ensures Sized() && AndTree(tree.bits, Pow2(depth))
      ensures forall i :: Pow2(depth) <= i < 2 * Pow2(depth) ==> tree.bits[i] == old(tree.bits)[i]
    {
      ghost var leaves := Pow2(depth);
      var i := treeSize / 2;
      while i > 1
        invariant 1 <= i <= leaves && Sized()
        invariant forall j :: i <= j < leaves ==> AndNode(tree.bits, j)
        invariant forall j :: leaves <= j < 2 * leaves ==> tree.bits[j] == old(tree.bits)[j]
      {
        i := i - 1;
        ghost var before := tree.bits;
        var left := tree.Get(2 * i);
        var right := tree.Get(2 * i + 1);
        tree.Set(i, left && right);
        forall j | i <= j < leaves ensures AndNode(tree.bits, j) {
          if j != i { assert AndNode(before, j); }
        }
      }
    }

    // -------------------------------------------------------------- marking

    /** Recompute a node and its ancestors. */
    method UpdateFromLower(index: nat)
      requires Sized() && index < Pow2(depth) && AndTreeBut(tree.bits, Pow2(depth), index)
      modifies tree, tree.bytes
      ensures Sized() && AndTree(tree.bits, Pow2(depth))
      ensures forall i :: Pow2(depth) <= i < 2 * Pow2(depth) ==> tree.bits[i] == old(tree.bits)[i]
      decreases index
    {
      if index == 0 { return; }
      var left := tree.Get(2 * index);
      var right := tree.Get(2 * index + 1);
      RepairNode(tree.bits, Pow2(depth), index);
      tree.Set(index, left && right);
      UpdateFromLower(index / 2);
    }

    /** Copy a mark to everything below a node. The bound is a page count added to the first leaf,
        so for a node below a leaf there is nothing to do. */
    method UpdateFromHigher(index: nat, taken: bool)
      requires index >= 1 && Sized()
      modifies tree, tree.bytes
      ensures Sized() && (index >= treeSize ==> tree.bits == old(tree.bits))
      decreases nPages + treeSize / 2 - index
    {
      if index >= nPages + treeSize / 2 { return; }
      tree.Set(index, taken);
      UpdateFromHigher(2 * index, taken);
      UpdateFromHigher(2 * index + 1, taken);
    }

    method MarkIndex(index: nat, taken: bool)
      requires Sized() && AndTree(tree.bits, Pow2(depth)) && Pow2(depth) <= index < 2 * Pow2(depth)
      modifies tree, tree.bytes
      ensures Sized() && AndTree(tree.bits, Pow2(depth))
      ensures LeafChanged(old(tree.bits), tree.bits, Pow2(depth), index, taken)
    {
      ChangeLeaf(tree.bits, Pow2(depth), index, taken);
      tree.Set(index, taken);
      UpdateFromLower(index / 2);
      UpdateFromHigher(2 * index, taken);
    }

    /** Enter a free page into the ledger. */
    method Take(index: nat)
      requires Ledger() && IsFree(depth, Used(), index)
      modifies this`owned, tree, tree.bytes
      ensures Ledger() && owned == old(owned) + {index}
    {
      LedgerSets(reserved, owned, index);
      MarkIndex(index, true);
      TakenChanged(old(tree.bits), tree.bits, Pow2(depth), index, true);
      owned := owned + {index};
    }

    // -------------------------------------------------------------- single pages

    method FindEmptyRecursivelyHigh(curr: nat) returns (r: nat)
      requires Sized() && 1 <= curr < treeSize
      ensures r == FindHigh(tree.bits, Pow2(depth), curr)
      decreases treeSize - curr
    {
      if curr >= treeSize / 2 { return curr; }
      var right := tree.Get(2 * curr + 1);
      if !right {
        r := FindEmptyRecursivelyHigh(2 * curr + 1);
      } else {
        r := FindEmptyRecursivelyHigh(2 * curr);
      }
    }

    method FindEmptyRecursivelyLow(curr: nat) returns (r: nat)
      requires Sized() && 1 <= curr < treeSize
      ensures r == FindLow(tree.bits, Pow2(depth), curr)
      decreases treeSize - curr
    {
      if curr >= treeSize / 2 { return curr; }
      var left := tree.Get(2 * curr);
      if !left {
        r := FindEmptyRecursivelyLow(2 * curr);
      } else {
        r := FindEmptyRecursivelyLow(2 * curr + 1);
      }
    }

    /** The highest free page; a full root is a panic. */
    method FindEmptyFrameHigh() returns (r: Option<nat>)
      requires Ledger()
      ensures r.None? <==> Full(depth, Used())
      ensures r.Some? ==> IsFree(depth, Used(), r.value) && forall i :: r.value < i ==> !IsFree(depth, Used(), i)
    {
      RootSaysFull();
      var full := tree.Get(1);
      if full { return None; }
      var index := FindEmptyRecursivelyHigh(1);
      PowerIsFirstLeaf(depth);
      FindHighIsHighest(tree.bits, Pow2(depth), 1, depth);
      r := Some(index);
      forall i | index < i ensures !IsFree(depth, Used(), i) {
        if i < 2 * Pow2(depth) { assert i in Taken(tree.bits, Pow2(depth)); }
      }
      assert index !in Taken(tree.bits, Pow2(depth));
    }

    /** The lowest free page; a full root is a panic. */
    method FindEmptyFrameLow() returns (r: Option<nat>)
      requires Ledger()
      ensures r.None? <==> Full(depth, Used())
      ensures r.Some? ==> IsFree(depth, Used(), r.value) && forall i: nat :: i < r.value ==> !IsFree(depth, Used(), i)
    {
      RootSaysFull();
      var full := tree.Get(1);
      if full { return None; }
      var index := FindEmptyRecursivelyLow(1);
      PowerIsFirstLeaf(depth);
      FindLowIsLowest(tree.bits, Pow2(depth), 1, depth);
      r := Some(index);
      forall i: nat | i < index ensures !IsFree(depth, Used(), i) {
        if Pow2(depth) <= i { assert i in Taken(tree.bits, Pow2(depth)); }
      }
      assert index !in Taken(tree.bits, Pow2(depth));
    }

    lemma RootSaysFull()
      requires Ledger()
      ensures tree.bits[1] <==> Full(depth, Used())
    {
      var t, leaves := tree.bits, Pow2(depth);
      PowerIsFirstLeaf(depth);
      BitIsAllTaken(t, leaves, 1, depth);
      if t[1] {
        forall i: nat ensures !IsFree(depth, Used(), i) {
          if leaves <= i < 2 * leaves { assert i in Taken(t, leaves); }
        }
      } else {
        var i: nat :| leaves <= i < 2 * leaves && !t[i];
        assert i !in Taken(t, leaves);
        assert IsFree(depth, Used(), i);
      }
    }

    lemma OwnsEverything()
      requires Valid() && allocatedPages == Pow2(depth)
      ensures Full(depth, Used())
    {
      var leaves := Pow2(depth);
      assert owned <= Pages(leaves, leaves) by {
        forall i | i in owned ensures i in Pages(leaves, leaves) { assert i in Taken(tree.bits, leaves); }
      }
      PagesSize(leaves, leaves);
      SubsetFull(owned, Pages(leaves, leaves));
    }

    /** A page that was found is entered into the ledger and the count. */
    method TakeFrame(index: nat) returns (addr: nat)
      requires Valid() && IsFree(depth, Used(), index)
      modifies this`allocatedPages, this`owned, tree, tree.bytes
      ensures Valid() && owned == old(owned) + {index} && IsAddress(Some(addr), Some(index))
    {
      allocatedPages := allocatedPages + 1;
      Take(index);
      addr := AddressOf(index, treeSize);
    }

    /** Hand out the highest free page; panic when there is none. */
    method AllocateFrame() returns (r: Option<nat>, ghost leaf: Option<nat>)
      requires Valid()
      modifies this`allocatedPages, this`owned, tree, tree.bytes
      ensures IsAddress(r, leaf)
      ensures leaf.None? <==> Full(depth, old(Used()))
      ensures leaf.Some? ==> Valid() && owned == old(owned) + {leaf.value}
      ensures leaf.Some? ==> IsFree(depth, old(Used()), leaf.value)
      ensures leaf.Some? ==> forall i :: leaf.value < i ==> !IsFree(depth, old(Used()), i)
    {
      if allocatedPages == treeSize / 2 {
        OwnsEverything();
        return None, None;
      }
      var index := FindEmptyFrameHigh();
      leaf := index;
      if index.None? { return None, None; }
      var addr := TakeFrame(index.value);
      r := Some(addr);
    }

    /** Hand out the lowest free page; panic when there is none. */
    method AllocateFrameLow() returns (r: Option<nat>, ghost leaf: Option<nat>)
      requires Valid()
      modifies this`allocatedPages, this`owned, tree, tree.bytes
      ensures IsAddress(r, leaf)
      ensures leaf.None? <==> Full(depth, old(Used()))
      ensures leaf.Some? ==> Valid() && owned == old(owned) + {leaf.value}
      ensures leaf.Some? ==> IsFree(depth, old(Used()), leaf.value)
      ensures leaf.Some? ==> forall i: nat :: i < leaf.value ==> !IsFree(depth, old(Used()), i)
    {
      if allocatedPages == treeSize / 2 {
        OwnsEverything();
        return None, None;
      }
      var index := FindEmptyFrameLow();
      leaf := index;
      if index.None? { return None, None; }
      var addr := TakeFrame(index.value);
      r := Some(addr);
    }

    // -------------------------------------------------------------- runs of pages

    method CheckAllEmpty(index: nat) returns (r: bool)
      requires Sized() && 1 <= index < treeSize
      ensures r == BuddyTree.CheckAllEmpty(tree.bits, Pow2(depth), index)
      decreases treeSize - index
    {
      var taken := tree.Get(index);
      if taken { return false; }
      if index >= treeSize / 2 { return true; }
      r := CheckAllEmpty(2 * index);
      if r { r := CheckAllEmpty(2 * index + 1); }
    }

    method GetLastLevelIndex(index: nat) returns (r: nat)
      requires Sized() && index >= 1
      ensures r == LastLevelIndex(Pow2(depth), index)
    {
      r := index;
      while r < treeSize / 2
        invariant r >= 1 && LastLevelIndex(Pow2(depth), r) == LastLevelIndex(Pow2(depth), index)
      {
        r := r * 2;
      }
    }

    method FindContiguousRecursively(curr: nat, order: nat) returns (r: Option<nat>)
      requires Sized() && 1 <= curr < treeSize
      ensures r == FindContiguous(tree.bits, Pow2(depth), curr, order)
      decreases treeSize - curr
    {
      if curr >= treeSize / Pow2(order + 1) {
        var empty := CheckAllEmpty(curr);
        if !empty { return None; }
        var first := GetLastLevelIndex(curr);
        return Some(first);
      }
      DivBelow(treeSize, Pow2(order + 1), curr);
      var right := tree.Get(2 * curr + 1);
      if !right {
        r := FindContiguousRecursively(2 * curr + 1, order);
        if r.Some? { return r; }
      }
      r := FindContiguousRecursively(2 * curr, order);
    }

    /** The search for `n` pages in a row; `None` is the out-of-memory panic. */
    method FindContiguousHigh(n: nat) returns (r: Option<nat>)
      requires Ledger() && n <= 0x8000_0000_0000_0000
      ensures r == BestRun(depth, Used(), n)
    {
      if n == 0 { return Some(treeSize / 2); }
      var order := Log2RoundedUp(n);
      Log2RoundedUpIsCeiling(n, depth);
      r := FindContiguousRecursively(1, order);
      if n > Pow2(depth) {
        TooLarge(order);
      } else {
        SearchIsHighestRun(order);
      }
    }

    lemma SearchIsHighestRun(order: nat)
      requires Ledger() && order <= depth
      ensures FindContiguous(tree.bits, Pow2(depth), 1, order) == HighestRun(depth, Used(), Pow2(order), 2 * Pow2(depth))
    {
      SearchFromRoot(tree.bits, depth, order);
      forall i: nat ensures FreeRun(depth, Used(), i, Pow2(order)) <==>
          Pow2(depth) <= i && i + Pow2(order) <= 2 * Pow2(depth) && Free(tree.bits, i, Pow2(order)) {
        FreeRunIsFree(i, Pow2(order));
      }
      HighestRunUnique(depth, Used(), Pow2(order), FindContiguous(tree.bits, Pow2(depth), 1, order));
    }

    /** A request beyond the whole tree is refused exactly if any page is in use. */
    lemma TooLarge(order: nat)
      requires Ledger() && order > depth
      ensures FindContiguous(tree.bits, Pow2(depth), 1, order) == if Used() == {} then Some(Pow2(depth)) else None
    {
      var leaves := Pow2(depth);
      SearchTooLarge(tree.bits, depth, order);
      assert forall i :: i in Taken(tree.bits, leaves) <==> leaves <= i < 2 * leaves && tree.bits[i];
      if Used() != {} {
        var i :| i in Used();
        assert tree.bits[i];
      }
    }

    lemma FreeRunIsFree(i: nat, w: nat)
      requires Ledger() && w > 0
      ensures FreeRun(depth, Used(), i, w) <==> Pow2(depth) <= i && i + w <= 2 * Pow2(depth) && Free(tree.bits, i, w)
    {
      var t, leaves := tree.bits, Pow2(depth);
      if FreeRun(depth, Used(), i, w) {
        assert IsFree(depth, Used(), i) && IsFree(depth, Used(), i + w - 1);
        forall j | i <= j < i + w ensures !t[j] { assert IsFree(depth, Used(), j); assert j !in Taken(t, leaves); }
      }
      if leaves <= i && i + w <= 2 * leaves && Free(t, i, w) {
        forall j: nat | i <= j < i + w ensures IsFree(depth, Used(), j) { assert !t[j]; assert j !in Taken(t, leaves); }
      }
    }

    /** Hand out `n` pages in a row, by leaf. With `overrun` the code goes on to mark pages behind the
        tree; the model stops there. */
    method AllocateRun(n: nat) returns (r: Option<nat>, overrun: bool)
      requires Valid() && n <= 0x8000_0000_0000_0000
      modifies this`allocatedPages, this`owned, tree, tree.bytes
      ensures r == BestRun(depth, old(Used()), n)
      ensures overrun <==> old(Used()) == {} && n > Pow2(depth)
      ensures r.Some? && !overrun ==> Valid() && Pow2(depth) <= r.value && FreeRun(depth, old(Used()), r.value, n)
      ensures r.Some? && !overrun ==> forall j :: j in owned <==> j in old(owned) || r.value <= j < r.value + n
    {
      r := FindContiguousHigh(n);
      overrun := r.Some? && n > treeSize / 2;
      if r.None? || overrun { return; }
      if n > 0 {
        Log2RoundedUpIsCeiling(n, Log2RoundedUp(n));
        HighestRunIsHighest(depth, Used(), Pow2(Log2RoundedUp(n)), 2 * Pow2(depth), 0);
      }
      TakeRun(r.value, n);
      allocatedPages := allocatedPages + n;
    }

    /** Hand out `n` pages in a row. */
    method AllocateContiguous(n: nat) returns (r: Option<nat>, overrun: bool, ghost leaf: Option<nat>)
      requires Valid() && n <= 0x8000_0000_0000_0000
      modifies this`allocatedPages, this`owned, tree, tree.bytes
      ensures IsAddress(r, leaf)
      ensures leaf == BestRun(depth, old(Used()), n)
      ensures overrun <==> old(Used()) == {} && n > Pow2(depth)
      ensures leaf.Some? && !overrun ==> Valid() && FreeRun(depth, old(Used()), leaf.value, n)
      ensures leaf.Some? && !overrun ==> forall j :: j in owned <==> j in old(owned) || leaf.value <= j < leaf.value + n
    {
      var index;
      index, overrun := AllocateRun(n);
      leaf := index;
      if index.None? { return None, overrun, leaf; }
      var addr := AddressOf(index.value, treeSize);
      r := Some(addr);
    }

    static method AddressOf(leaf: nat, treeSize: nat) returns (addr: nat)
      requires leaf >= treeSize / 2
      ensures addr == (leaf - treeSize / 2) * 4096
    {
      addr := (leaf - treeSize / 2) * 4096;
    }

    method TakeRun(index: nat, n: nat)
      requires Ledger() && FreeRun(depth, Used(), index, n)
      modifies this`owned, tree, tree.bytes
      ensures Ledger() && |owned| == old(|owned|) + n
      ensures forall j :: j in owned <==> j in old(owned) || index <= j < index + n
    {
      var i := index;
      while i < index + n
        invariant index <= i <= index + n && Ledger()
        invariant forall j :: j in owned <==> j in old(owned) || index <= j < i
        invariant |owned| == old(|owned|) + (i - index)
      {
        assert IsFree(depth, old(Used()), i);
        Take(i);
        i := i + 1;
      }
    }

    // -------------------------------------------------------------- giving back

    method DeallocateFrame(addr: nat)
      requires Valid() && addr % 4096 == 0 && LeafOf(addr) in owned
      modifies this`allocatedPages, this`owned, tree, tree.bytes
      ensures Valid() && owned == old(owned) - {LeafOf(addr)}
    {
      ReleaseLeaf(addr / 4096 + treeSize / 2);
    }

    method ReleaseLeaf(index: nat)
      requires Valid() && index in owned
      modifies this`allocatedPages, this`owned, tree, tree.bytes
      ensures Valid() && owned == old(owned) - {index}
    {
      assert index in Taken(tree.bits, Pow2(depth));
      LedgerSets(reserved, owned, index);
      MarkIndex(index, false);
      TakenChanged(old(tree.bits), tree.bits, Pow2(depth), index, false);
      owned := owned - {index};
      allocatedPages := allocatedPages - 1;
    }

    /** Give back a range that was handed out. A range at address 0 is ignored, whatever its length. */
    method Deallocate(start: nat, n: nat)
      requires Valid() && start % 4096 == 0
      requires start != 0 ==> Pages(LeafOf(start), n) <= owned
      modifies this`allocatedPages, this`owned, tree, tree.bytes
      ensures Valid() && owned == if start == 0 then old(owned) else old(owned) - Pages(LeafOf(start), n)
    {
      if n == 0 || start == 0 { return; }
      assert forall j :: LeafOf(start) <= j < LeafOf(start) + n ==> j in Pages(LeafOf(start), n);
      DeallocatePages(start, n);
    }

    method DeallocatePages(start: nat, n: nat)
      requires Valid() && start % 4096 == 0
      requires forall j :: LeafOf(start) <= j < LeafOf(start) + n ==> j in owned
      modifies this`allocatedPages, this`owned, tree, tree.bytes
      ensures Valid() && forall j :: j in owned <==> j in old(owned) && !(LeafOf(start) <= j < LeafOf(start) + n)
    {
      ghost var first := LeafOf(start);
      var i := 0;
      while i < n
        invariant 0 <= i <= n && Valid()
        invariant forall j :: j in owned <==> j in old(owned) && !(first <= j < first + i)
      {
        DeallocateNth(start, i);
        i := i + 1;
      }
    }

    method DeallocateNth(start: nat, i: nat)
      requires Valid() && start % 4096 == 0 && LeafOf(start) + i in owned
      modifies this`allocatedPages, this`owned, tree, tree.bytes
      ensures Valid() && owned == old(owned) - {LeafOf(start) + i}
    {
      PageAddress(start, i);
      DeallocateFrame(start + i * 4096);
    }
  }

  lemma FewUsable(usable: seq<nat>, ramPages: nat)
    requires Distinct(usable) && forall i :: 0 <= i < |usable| ==> usable[i] < ramPages
    ensures |usable| <= ramPages
  {
    DistinctSize(usable);
    BelowSize(Elements(usable), ramPages);
  }

  lemma TreeSizes(ramPages: nat)
    requires 5 <= ramPages <= 0x8000_0000_0000_0000
    ensures var d := Log2RoundedUp(ramPages); d >= 3 && ramPages <= Pow2(d) && 8 * (Pow2(d) / 8 * 2) == 2 * Pow2(d)
  {
    var d := Log2RoundedUp(ramPages);
    Log2RoundedUpIsCeiling(ramPages, d);
    Log2RoundedUpIsCeiling(ramPages, 2);
    EightDivides(d - 3);
    EightTimes(Pow2(d), Pow2(d - 3));
  }

  lemma EightTimes(p: nat, q: nat)
    requires p == 8 * q
    ensures 8 * (p / 8 * 2) == 2 * p
  {
  }

  lemma EightDivides(d: nat)
    ensures Pow2(d + 3) == 8 * Pow2(d) && Pow2(2) == 4
  {
    assert Pow2(d + 3) == 2 * Pow2(d + 2) && Pow2(d + 2) == 2 * Pow2(d + 1);
    assert Pow2(2) == 2 * Pow2(1) && Pow2(1) == 2 * Pow2(0);
  }

  lemma {:induction false} PagesSize(first: nat, n: nat)
    ensures |Pages(first, n)| == n
  {
    if n == 0 {
      assert Pages(first, 0) == {};
    } else {
      PagesSize(first, n - 1);
      assert Pages(first, n) == Pages(first, n - 1) + {first + n - 1};
    }
  }

  lemma SubsetFull(a: set<nat>, b: set<nat>)
    requires a <= b && |a| >= |b|
    ensures a == b
  {
    assert |b - a| == |b| - |a|;
  }

  lemma PageAddress(start: nat, i: nat)
    requires start % 4096 == 0
    ensures (start + i * 4096) % 4096 == 0 && (start + i * 4096) / 4096 == start / 4096 + i
  {
  }

  lemma LedgerSets(reserved: set<nat>, owned: set<nat>, leaf: nat)
    requires reserved !! owned
    ensures (reserved + owned) + {leaf} == reserved + (owned + {leaf})
    ensures leaf in owned ==> (reserved + owned) - {leaf} == reserved + (owned - {leaf})
  {
  }
}
