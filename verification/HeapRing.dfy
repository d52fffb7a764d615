/**
 One size class of the kernel heap: a circular list of free blocks threaded through the blocks
 themselves, with a header at the start of every page.

 `blocks` is the raw memory seen as list nodes, that of live blocks included; `pages` are the page
 headers. The queue of free blocks that the links spell out is given beside the state, as a sequence.
 The forward links and the back link of the first block are what the code relies on; the other back
 links can be wrong.
 */
module HeapRing {
  import opened Collections
  import opened Log2

  type Addr = nat

  datatype Block = Block(prev: Addr, next: Addr)

  datatype Header = Header(allocations: nat, max: nat, first: Addr, last: Addr)

  datatype Class = Class(order: nat, freeObjects: nat, first: Addr, blocks: map<Addr, Block>, pages: map<Addr, Header>)

  /** The orders of the seven size classes. */
  predicate IsOrder(order: nat) { 4 <= order <= 10 }

  function Size(order: nat): nat
    requires IsOrder(order)
  {
    if order == 4 then 16 else if order == 5 then 32 else if order == 6 then 64 else if order == 7 then 128
    else if order == 8 then 256 else if order == 9 then 512 else 1024
  }

  /** How many blocks fit behind the 24 bytes of the header; see `Layout`. */
  function MaxBlocks(order: nat): nat
    requires IsOrder(order)
  {
    if order == 4 then 254 else if order == 5 then 127 else if order == 6 then 63 else if order == 7 then 31
    else if order == 8 then 15 else if order == 9 then 7 else 3
  }

  /** Where the first block starts, so that the last one ends with the page; see `Layout`. */
  function FirstOffset(order: nat): nat
    requires IsOrder(order)
  {
    if order == 4 then 32 else Size(order)
  }

  function PageOf(a: Addr): Addr { a - a % 4096 }

  function Chain(a: Addr, size: nat, n: nat): seq<Addr>
    decreases n
  {
    if n == 0 then [] else [a] + Chain(a + size, size, n - 1)
  }

  /** The blocks of a page, from its first block to its end. */
  function PageBlocks(page: Addr, order: nat): seq<Addr>
    requires IsOrder(order)
  {
    Chain(page + FirstOffset(order), Size(order), MaxBlocks(order))
  }

  function Read(blocks: map<Addr, Block>, a: Addr): Block {
    if a in blocks then blocks[a] else Block(0, 0)
  }

  function ReadHeader(pages: map<Addr, Header>, page: Addr): Header {
    if page in pages then pages[page] else Header(0, 0, 0, 0)
  }

  // ---------------------------------------------------------------- page layout

  lemma SizeIsPower(order: nat)
    requires IsOrder(order)
    ensures Size(order) == Pow2(order)
  {
    assert Pow2(4) == 16;
    assert Pow2(6) == 2 * Pow2(5) && Pow2(5) == 2 * Pow2(4);
    assert Pow2(8) == 2 * Pow2(7) && Pow2(7) == 2 * Pow2(6);
    assert Pow2(10) == 2 * Pow2(9) && Pow2(9) == 2 * Pow2(8);
  }

  lemma Layout(order: nat)
    requires IsOrder(order)
    ensures MaxBlocks(order) == (4096 - 24) / Size(order)
    ensures 3 <= MaxBlocks(order) < 256
    ensures 24 <= FirstOffset(order) == 4096 - Size(order) * MaxBlocks(order)
    ensures FirstOffset(order) % Size(order) == 0 && 4096 % Size(order) == 0
  {
  }

  /** Where the chain ends. */
  function EndOf(a: Addr, size: nat, n: nat): Addr
    decreases n
  {
    if n == 0 then a else EndOf(a + size, size, n - 1)
  }

  lemma {:induction false} EndIsProduct(a: Addr, size: nat, n: nat)
    ensures EndOf(a, size, n) == a + size * n
    decreases n
  {
    if n == 0 {
    } else {
      EndIsProduct(a + size, size, n - 1);
      assert size * n == size + size * (n - 1);
    }
  }

  predicate Adjacent(chain: seq<Addr>, size: nat, i: nat) {
    0 < i < |chain| ==> chain[i] == chain[i - 1] + size
  }

  lemma {:induction false} ChainSteps(a: Addr, size: nat, n: nat)
    requires n > 0
    ensures var chain := Chain(a, size, n);
            && |chain| == n && chain[0] == a && chain[n - 1] + size == EndOf(a, size, n)
            && forall i :: Adjacent(chain, size, i)
    decreases n
  {
    if n > 1 {
      ChainSteps(a + size, size, n - 1);
      var chain, rest := Chain(a, size, n), Chain(a + size, size, n - 1);
      forall i: nat ensures Adjacent(chain, size, i) {
        if 1 < i < n { assert Adjacent(rest, size, i - 1); }
      }
    }
  }

  lemma {:induction false} ChainBounds(a: Addr, size: nat, n: nat)
    requires size > 0
    ensures |Chain(a, size, n)| == n && Distinct(Chain(a, size, n))
    ensures a <= EndOf(a, size, n)
    ensures forall x :: x in Chain(a, size, n) ==> a <= x && x + size <= EndOf(a, size, n)
    ensures a % size == 0 ==> forall x :: x in Chain(a, size, n) ==> x % size == 0
    decreases n
  {
    if n == 0 {
    } else {
      ChainBounds(a + size, size, n - 1);
      var rest := Chain(a + size, size, n - 1);
      assert forall i :: 0 <= i < |rest| ==> rest[i] in rest;
      if a % size == 0 { NextMultiple(a, size); }
    }
  }

  lemma NextMultiple(a: nat, n: nat)
    requires n > 0 && a % n == 0
    ensures (a + n) % n == 0
  {
    DivUnique(a + n, n, a / n + 1, 0);
  }

  /** A block is naturally aligned, clear of the header and inside its page. */
  predicate Placed(x: Addr, page: Addr, size: nat)
    requires size > 0
  {
    x % size == 0 && page + 24 <= x && x + size <= page + 4096 && PageOf(x) == page
  }

  lemma PageBlocksPlacement(page: Addr, order: nat)
    requires IsOrder(order) && page % 4096 == 0
    ensures |PageBlocks(page, order)| == MaxBlocks(order) && Distinct(PageBlocks(page, order))
    ensures forall x :: x in PageBlocks(page, order) ==> Placed(x, page, Size(order))
  {
    Layout(order);
    PageMultiple(page, order);
    ChainPlacement(page, FirstOffset(order), Size(order), MaxBlocks(order), PageBlocks(page, order));
  }

  lemma ChainPlacement(page: Addr, offset: nat, size: nat, n: nat, chain: seq<Addr>)
    requires size > 0 && offset + size * n == 4096 && offset >= 24
    requires page % 4096 == 0 && (page + offset) % size == 0 && chain == Chain(page + offset, size, n)
    ensures |chain| == n && Distinct(chain)
    ensures forall x :: x in chain ==> Placed(x, page, size)
  {
    EndIsProduct(page + offset, size, n);
    ChainBounds(page + offset, size, n);
    forall x | x in chain ensures Placed(x, page, size) {
      SamePage(page, x);
    }
  }

  lemma SamePage(page: Addr, x: Addr)
    requires page % 4096 == 0 && page <= x < page + 4096
    ensures PageOf(x) == page
  {
  }

  lemma PageMultiple(page: Addr, order: nat)
    requires IsOrder(order) && page % 4096 == 0
    ensures (page + FirstOffset(order)) % Size(order) == 0
  {
    Layout(order);
    MultipleSum(page, FirstOffset(order), Size(order));
  }

  lemma MultipleSum(page: nat, offset: nat, size: nat)
    requires size > 0 && page % 4096 == 0 && 4096 % size == 0 && offset % size == 0
    ensures (page + offset) % size == 0
  {
    var q, r, t := page / 4096, 4096 / size, offset / size;
    assert page == (size * r) * q == size * (r * q);
    assert page + offset == size * (r * q + t);
    DivUnique(page + offset, size, r * q + t, 0);
  }

  // ---------------------------------------------------------------- the ring

  function Before(i: nat, n: nat): nat
    requires i < n
  {
    if i == 0 then n - 1 else i - 1
  }

  function After(i: nat, n: nat): nat
    requires i < n
  {
    if i == n - 1 then 0 else i + 1
  }

  /** The memory links these blocks, in this order, into one circle, `prev` being the inverse of `next`. */
  ghost predicate Ring(blocks: map<Addr, Block>, free: seq<Addr>) {
    Distinct(free) && forall i :: 0 <= i < |free| ==> Linked(blocks, free, i)
  }

  predicate Linked(blocks: map<Addr, Block>, free: seq<Addr>, i: nat)
    requires i < |free|
  {
    free[i] in blocks && blocks[free[i]] == Block(free[Before(i, |free|)], free[After(i, |free|)])
  }

  /** In a ring, `next` and `prev` are inverse to each other. */
  lemma RingWalk(blocks: map<Addr, Block>, free: seq<Addr>, i: nat)
    requires Ring(blocks, free) && i < |free|
    ensures var b := Read(blocks, free[i]);
            Read(blocks, b.next).prev == free[i] && Read(blocks, b.prev).next == free[i]
  {
    var j, k := After(i, |free|), Before(i, |free|);
    assert Linked(blocks, free, i) && Linked(blocks, free, j) && Linked(blocks, free, k);
  }

  /** The forward links, and the back link of the first block, are those of the circle. */
  ghost predicate Spelled(blocks: map<Addr, Block>, free: seq<Addr>) {
    && Distinct(free)
    && (forall i :: 0 <= i < |free| ==> NextIs(blocks, free, i))
    && (free != [] ==> Read(blocks, free[0]).prev == free[|free| - 1])
  }

  predicate NextIs(blocks: map<Addr, Block>, free: seq<Addr>, i: nat)
    requires i < |free|
  {
    free[i] in blocks && blocks[free[i]].next == free[After(i, |free|)]
  }

  lemma RingIsSpelled(blocks: map<Addr, Block>, free: seq<Addr>)
    requires Ring(blocks, free)
    ensures Spelled(blocks, free)
  {
    forall i | 0 <= i < |free| ensures NextIs(blocks, free, i) { assert Linked(blocks, free, i); }
    if free != [] { assert Linked(blocks, free, 0); }
  }

  // ---------------------------------------------------------------- the operations, on values

  /** The links of a fresh page. */
  function Populated(blocks: map<Addr, Block>, page: Addr, order: nat): map<Addr, Block>
    requires IsOrder(order)
  {
    Threaded(blocks, PageBlocks(page, order), Size(order), page + FirstOffset(order), page + 4096 - Size(order))
  }

  /** Link every block to its neighbours in memory, and the two ends to each other. */
  function Threaded(blocks: map<Addr, Block>, chain: seq<Addr>, size: nat, first: Addr, last: Addr): map<Addr, Block> {
    map a | a in blocks.Keys + Elements(chain) ::
      if a in chain then
        Block(if a == first then last else if a >= size then a - size else 0, if a == last then first else a + size)
      else blocks[a]
  }

  function NewPage(c: Class, page: Addr): Class
    requires IsOrder(c.order)
  {
    var first := page + FirstOffset(c.order);
    c.(freeObjects := MaxBlocks(c.order),
       first := first,
       blocks := Populated(c.blocks, page, c.order),
       pages := c.pages[page := Header(0, MaxBlocks(c.order), first, page + 4096 - Size(c.order))])
  }

  /** Make two blocks neighbours, one write after the other. */
  function Join(blocks: map<Addr, Block>, before: Addr, after: Addr): map<Addr, Block> {
    var once := blocks[before := Read(blocks, before).(next := after)];
    once[after := Read(once, after).(prev := before)]
  }

  function TakeFirst(c: Class): Class
    requires c.freeObjects > 0
  {
    var a, page := c.first, PageOf(c.first);
    var b, h := Read(c.blocks, a), ReadHeader(c.pages, page);
    var h' := h.(allocations := h.allocations + 1);
    var c' := c.(freeObjects := c.freeObjects - 1,
                 pages := c.pages[page := if h'.allocations < h'.max then h'.(first := b.next) else h']);
    if c'.freeObjects > 0 then c'.(first := b.next, blocks := Join(c.blocks, b.prev, b.next)) else c'
  }

  /** Hand out the first free block; `page` is the page the class gets if it has none left. */
  function Allocate(c: Class, page: Addr): (Class, Addr)
    requires IsOrder(c.order)
  {
    Layout(c.order);
    var c' := if c.freeObjects == 0 then NewPage(c, page) else c;
    (TakeFirst(c'), c'.first)
  }

  /** The three writes that append a block behind `last` and before `past`. */
  function Append(blocks: map<Addr, Block>, a: Addr, prev: Addr, last: Addr, past: Addr): map<Addr, Block> {
    var linked := blocks[a := Block(prev, Read(blocks, last).next)];
    var once := linked[last := Read(linked, last).(next := a)];
    once[past := Read(once, past).(prev := a)]
  }

  function OneLess(n: nat): nat { if n == 0 then 0 else n - 1 }

  predicate FullPage(c: Class, a: Addr) {
    var h := ReadHeader(c.pages, PageOf(a));
    h.max == h.allocations
  }

  function Deallocate(c: Class, a: Addr): Class {
    var page := PageOf(a);
    var h := ReadHeader(c.pages, page);
    if c.freeObjects == 0 then
      c.(freeObjects := 1,
         first := a,
         blocks := c.blocks[a := Block(a, a)],
         pages := c.pages[page := h.(allocations := OneLess(h.allocations), first := a, last := a)])
    else
      var last := if FullPage(c, a) then Read(c.blocks, c.first).prev else h.last;
      var past := if FullPage(c, a) then c.first else Read(c.blocks, h.last).next;
      c.(freeObjects := c.freeObjects + 1,
         blocks := Append(c.blocks, a, h.last, last, past),
         pages := c.pages[page := h.(allocations := OneLess(h.allocations), last := a)])
  }

  // ---------------------------------------------------------------- the invariant

  /** `a` is a block of one of the pages of the class. */
  ghost predicate IsBlock(c: Class, a: Addr)
    requires IsOrder(c.order)
  {
    PageOf(a) in c.pages && a in PageBlocks(PageOf(a), c.order)
  }

  /** The free blocks of a page. */
  ghost function FreeIn(free: seq<Addr>, page: Addr): set<Addr> { set x | x in free && PageOf(x) == page }

  /** Block `k` of the queue is not followed by one of the same page. */
  predicate EndsPage(free: seq<Addr>, k: nat) {
    k < |free| && (k == |free| - 1 || PageOf(free[k + 1]) != PageOf(free[k]))
  }

  /** The header counts the blocks in use, and its last pointer is at the end of the only stretch of
      the queue that lies in the page. */
  ghost predicate HeaderOk(c: Class, free: seq<Addr>, page: Addr)
    requires IsOrder(c.order) && page in c.pages
  {
    var h := c.pages[page];
    && page % 4096 == 0
    && h.max == MaxBlocks(c.order)
    && h.allocations + |FreeIn(free, page)| == h.max
    && PageOf(h.last) == page
    && LastIs(free, page, h.last)
  }

  ghost predicate LastIs(free: seq<Addr>, page: Addr, last: Addr) {
    forall k: nat :: EndsPage(free, k) && PageOf(free[k]) == page ==> last == free[k]
  }

  /** `free` is the queue of free blocks: the links spell it out, and the counters of the class and of
      every page agree with it. */
  ghost predicate Valid(c: Class, free: seq<Addr>) {
    && IsOrder(c.order)
    && c.freeObjects == |free|
    && (free != [] ==> c.first == free[0])
    && Spelled(c.blocks, free)
    && (forall i :: 0 <= i < |free| ==> IsBlock(c, free[i]))
    && (forall page :: page in c.pages ==> HeaderOk(c, free, page))
  }

  lemma PopulatedRing(blocks: map<Addr, Block>, page: Addr, order: nat, chain: seq<Addr>, after: map<Addr, Block>)
    requires IsOrder(order) && page % 4096 == 0
    requires chain == PageBlocks(page, order) && after == Populated(blocks, page, order)
    ensures Ring(after, chain)
  {
    PageEnd(page, order);
    ThreadedRing(blocks, page + FirstOffset(order), Size(order), MaxBlocks(order), page + 4096 - Size(order), chain, after);
  }

  lemma PageEnd(page: Addr, order: nat)
    requires IsOrder(order)
    ensures EndOf(page + FirstOffset(order), Size(order), MaxBlocks(order)) == page + 4096
    ensures MaxBlocks(order) > 0 && 0 < Size(order) <= 4096
  {
    Layout(order);
    EndIsProduct(page + FirstOffset(order), Size(order), MaxBlocks(order));
  }

  lemma ThreadedRing(blocks: map<Addr, Block>, a: Addr, size: nat, n: nat, last: nat, chain: seq<Addr>, after: map<Addr, Block>)
    requires n > 0 && size > 0 && last + size == EndOf(a, size, n)
    requires chain == Chain(a, size, n) && after == Threaded(blocks, chain, size, a, last)
    ensures Ring(after, chain)
  {
    ChainBounds(a, size, n);
    ChainSteps(a, size, n);
    forall i: nat | i < n ensures Linked(after, chain, i) {
      assert chain[i] in Elements(chain);
      assert chain[i] == chain[0] <==> i == 0;
      assert chain[i] == chain[n - 1] <==> i == n - 1;
      assert Adjacent(chain, size, i) && Adjacent(chain, size, i + 1);
    }
  }

  // ---------------------------------------------------------------- taking and giving back

  lemma SpelledTail(blocks: map<Addr, Block>, free: seq<Addr>, rest: seq<Addr>, after: map<Addr, Block>)
    requires Spelled(blocks, free) && |free| >= 2 && rest == free[1..] && after == Join(blocks, free[|free| - 1], free[1])
    ensures Spelled(after, rest)
  {
    var n := |free|;
    assert NextIs(blocks, free, n - 1) && NextIs(blocks, free, 1);
    forall i: nat | i < |rest| ensures NextIs(after, rest, i) {
      assert NextIs(blocks, free, i + 1);
      assert free[i + 1] == free[1] <==> i == 0;
      assert free[i + 1] == free[n - 1] <==> i == n - 2;
    }
  }

  /** The queue with a block put behind block `k`. */
  function InsertedAfter(free: seq<Addr>, k: nat, a: Addr): seq<Addr>
    requires k < |free|
  {
    free[..k + 1] + [a] + free[k + 1..]
  }

  lemma InsertedIndex(free: seq<Addr>, k: nat, a: Addr, more: seq<Addr>)
    requires k < |free| && more == InsertedAfter(free, k, a)
    ensures |more| == |free| + 1
    ensures forall i :: 0 <= i < |more| ==> more[i] == if i <= k then free[i] else if i == k + 1 then a else free[i - 1]
    ensures forall x :: x in more <==> x in free || x == a
    ensures Distinct(free) && a !in free ==> Distinct(more)
  {
    forall x | x in free ensures x in more {
      var i :| 0 <= i < |free| && free[i] == x;
      assert more[if i <= k then i else i + 1] == x;
    }
    assert more[k + 1] == a;
  }

  /** What the three writes do to a block. */
  lemma Appended(blocks: map<Addr, Block>, a: Addr, prev: Addr, last: Addr, past: Addr, x: Addr)
    requires last in blocks && past in blocks && a != last && a != past && (x in blocks || x == a)
    ensures var after := Append(blocks, a, prev, last, past);
            && x in after
            && after[x] == if x == a then Block(prev, blocks[last].next)
                           else Block(if x == past then a else blocks[x].prev, if x == last then a else blocks[x].next)
  {
  }

  /** The three writes, whatever they store as the new block's back link, put the block into the queue. */
  lemma SpelledInsert(blocks: map<Addr, Block>, free: seq<Addr>, k: nat, a: Addr, prev: Addr, after: map<Addr, Block>, more: seq<Addr>)
    requires Spelled(blocks, free) && k < |free| && a !in free && more == InsertedAfter(free, k, a)
    requires after == Append(blocks, a, prev, free[k], free[After(k, |free|)])
    ensures Spelled(after, more)
  {
    InsertedIndex(free, k, a, more);
    var last, past := free[k], free[After(k, |free|)];
    assert NextIs(blocks, free, k) && NextIs(blocks, free, After(k, |free|)) && NextIs(blocks, free, 0);
    Appended(blocks, a, prev, last, past, free[0]);
    forall i: nat | i < |more| ensures NextIs(after, more, i) {
      var j := if i <= k then i else i - 1;
      assert NextIs(blocks, free, j) && (free[j] == last <==> j == k);
      Appended(blocks, a, prev, last, past, more[i]);
    }
  }

  lemma RingInsert(blocks: map<Addr, Block>, free: seq<Addr>, k: nat, a: Addr, after: map<Addr, Block>, more: seq<Addr>)
    requires Ring(blocks, free) && k < |free| && a !in free && more == InsertedAfter(free, k, a)
    requires after == Append(blocks, a, free[k], free[k], free[After(k, |free|)])
    ensures Ring(after, more)
  {
    InsertedIndex(free, k, a, more);
    forall i: nat | i < |more| ensures Linked(after, more, i) {
      if i == k + 1 {
        InsertedLinked(blocks, free, k, a, after, more);
      } else {
        OtherLinked(blocks, free, k, a, after, more, i, if i <= k then i else i - 1);
      }
    }
  }

  lemma InsertedLinked(blocks: map<Addr, Block>, free: seq<Addr>, k: nat, a: Addr, after: map<Addr, Block>, more: seq<Addr>)
    requires k < |free| && a !in free && Linked(blocks, free, k) && Linked(blocks, free, After(k, |free|))
    requires more == InsertedAfter(free, k, a) && after == Append(blocks, a, free[k], free[k], free[After(k, |free|)])
    ensures |more| == |free| + 1 && Linked(after, more, k + 1)
  {
    InsertedIndex(free, k, a, more);
    Appended(blocks, a, free[k], free[k], free[After(k, |free|)], a);
  }

  lemma OtherLinked(blocks: map<Addr, Block>, free: seq<Addr>, k: nat, a: Addr, after: map<Addr, Block>, more: seq<Addr>, i: nat, j: nat)
    requires Ring(blocks, free) && k < |free| && a !in free && i <= |free| && i != k + 1 && j == if i <= k then i else i - 1
    requires more == InsertedAfter(free, k, a) && after == Append(blocks, a, free[k], free[k], free[After(k, |free|)])
    ensures |more| == |free| + 1 && Linked(after, more, i)
  {
    var p := After(k, |free|);
    InsertedNeighbours(free, k, a, more, i, j);
    assert Linked(blocks, free, j) && Linked(blocks, free, k) && Linked(blocks, free, p);
    assert (free[j] == free[k] <==> j == k) && (free[j] == free[p] <==> j == p);
    Appended(blocks, a, free[k], free[k], free[p], free[j]);
  }

  lemma InsertedNeighbours(free: seq<Addr>, k: nat, a: Addr, more: seq<Addr>, i: nat, j: nat)
    requires k < |free| && more == InsertedAfter(free, k, a) && i < |more| && i != k + 1 && j == if i <= k then i else i - 1
    ensures |more| == |free| + 1 && j < |free| && more[i] == free[j]
    ensures more[Before(i, |more|)] == if j == After(k, |free|) then a else free[Before(j, |free|)]
    ensures more[After(i, |more|)] == if j == k then a else free[After(j, |free|)]
  {
  }

  lemma RingTail(blocks: map<Addr, Block>, free: seq<Addr>, rest: seq<Addr>, after: map<Addr, Block>)
    requires Ring(blocks, free) && |free| >= 2 && rest == free[1..] && after == Join(blocks, free[|free| - 1], free[1])
    ensures Ring(after, rest)
  {
    var n := |free|;
    assert Linked(blocks, free, n - 1) && Linked(blocks, free, 1);
    forall i: nat | i < |rest| ensures Linked(after, rest, i) {
      assert Linked(blocks, free, i + 1);
      assert free[i + 1] == free[1] <==> i == 0;
      assert free[i + 1] == free[n - 1] <==> i == n - 2;
    }
  }

  lemma NewPageValid(c: Class, page: Addr)
    requires Valid(c, []) && page % 4096 == 0 && page !in c.pages
    ensures Valid(NewPage(c, page), PageBlocks(page, c.order))
  {
    NewPageOk(c, page, NewPage(c, page), PageBlocks(page, c.order), Size(c.order));
  }

  /** Distinct blocks one behind the other, from `first` to `last`. */
  ghost predicate IsChain(chain: seq<Addr>, size: nat, first: Addr, last: Addr) {
    && size > 0 && chain != [] && chain[0] == first && chain[|chain| - 1] == last
    && Distinct(chain) && (forall i :: Adjacent(chain, size, i))
    && (forall i :: 0 <= i < |chain| ==> chain[i] <= last)
  }

  /** The blocks of a page as a chain in memory. */
  lemma PageChain(page: Addr, order: nat, chain: seq<Addr>, size: nat)
    requires IsOrder(order) && chain == PageBlocks(page, order) && size == Size(order)
    ensures size <= 4096 && |chain| == MaxBlocks(order)
    ensures IsChain(chain, size, page + FirstOffset(order), page + 4096 - size)
  {
    PageEnd(page, order);
    ChainSteps(page + FirstOffset(order), size, MaxBlocks(order));
    ChainBounds(page + FirstOffset(order), size, MaxBlocks(order));
    assert forall i :: 0 <= i < |chain| ==> chain[i] in chain;
  }

  lemma InPage(page: Addr, order: nat, chain: seq<Addr>)
    requires IsOrder(order) && page % 4096 == 0 && chain == PageBlocks(page, order)
    ensures forall i :: 0 <= i < |chain| ==> PageOf(chain[i]) == page
  {
    PageBlocksPlacement(page, order);
    forall i | 0 <= i < |chain| ensures PageOf(chain[i]) == page {
      assert Placed(chain[i], page, Size(order));
    }
  }

  lemma NewPageOk(c: Class, page: Addr, c': Class, free: seq<Addr>, size: nat)
    requires Valid(c, []) && page % 4096 == 0 && page !in c.pages
    requires c' == NewPage(c, page) && free == PageBlocks(page, c.order) && size == Size(c.order)
    ensures Valid(c', free)
  {
    PageChain(page, c.order, free, size);
    InPage(page, c.order, free);
    PopulatedRing(c.blocks, page, c.order, free, c'.blocks);
    RingIsSpelled(c'.blocks, free);
    DistinctSize(free);
    forall p | p in c'.pages ensures HeaderOk(c', free, p) {
      NewPageHeader(c, page, c', free, p);
    }
  }

  lemma NewPageHeader(c: Class, page: Addr, c': Class, free: seq<Addr>, p: Addr)
    requires Valid(c, []) && page % 4096 == 0 && page !in c.pages && c' == NewPage(c, page) && p in c'.pages
    requires (forall i :: 0 <= i < |free| ==> PageOf(free[i]) == page) && |Elements(free)| == |free| == MaxBlocks(c.order) > 0
    requires Size(c.order) <= 4096 && free[|free| - 1] == page + 4096 - Size(c.order)
    ensures HeaderOk(c', free, p)
  {
    if p == page {
      assert FreeIn(free, p) == Elements(free);
    } else {
      assert HeaderOk(c, [], p);
      assert FreeIn(free, p) == {} == FreeIn([], p);
    }
  }

  /** Allocation hands out the head of the queue. */
  lemma TakeFirstValid(c: Class, free: seq<Addr>)
    requires Valid(c, free) && free != []
    ensures Valid(TakeFirst(c), free[1..])
  {
    var c', rest, n := TakeFirst(c), free[1..], |free|;
    assert NextIs(c.blocks, free, 0) && IsBlock(c, free[0]);
    if n >= 2 { SpelledTail(c.blocks, free, rest, c'.blocks); }
    forall p | p in c'.pages ensures HeaderOk(c', rest, p) { TakenHeader(c, free, c', rest, p); }
    forall i | 0 <= i < |rest| ensures IsBlock(c', rest[i]) { assert rest[i] == free[i + 1] && IsBlock(c, free[i + 1]); }
  }

  lemma TakenHeader(c: Class, free: seq<Addr>, c': Class, rest: seq<Addr>, p: Addr)
    requires Valid(c, free) && free != [] && c' == TakeFirst(c) && rest == free[1..] && p in c'.pages && PageOf(free[0]) in c.pages
    ensures HeaderOk(c', rest, p)
  {
    assert HeaderOk(c, free, p);
    assert forall x :: x in free <==> x == free[0] || x in rest;
    assert free[0] !in rest;
    DifferInOne(FreeIn(free, p), FreeIn(rest, p), free[0]);
    forall k: nat | EndsPage(rest, k) && PageOf(rest[k]) == p ensures c'.pages[p].last == rest[k] {
      assert EndsPage(free, k + 1) && free[k + 1] == rest[k];
    }
  }

  /** A block that is not in the queue is one more of its page than the queue has. */
  lemma RoomLeft(c: Class, free: seq<Addr>, a: Addr)
    requires Valid(c, free) && IsBlock(c, a) && a !in free
    ensures ReadHeader(c.pages, PageOf(a)).allocations >= 1
  {
    var page := PageOf(a);
    assert HeaderOk(c, free, page);
    PageBlocksPlacement(page, c.order);
    var blocks := PageBlocks(page, c.order);
    forall x | x in FreeIn(free, page) ensures x in Elements(blocks) - {a} {
      var i :| 0 <= i < |free| && free[i] == x;
      assert IsBlock(c, free[i]);
    }
    DistinctSize(blocks);
    DifferInOne(Elements(blocks), Elements(blocks) - {a}, a);
    SubsetSize(FreeIn(free, page), Elements(blocks) - {a});
  }

  lemma SubsetSize(a: set<Addr>, b: set<Addr>)
    requires a <= b
    ensures |a| <= |b|
  {
    assert |b - a| == |b| - |a|;
  }

  /** The last block of the queue that lies in a page. */
  ghost predicate LastOfPage(free: seq<Addr>, page: Addr, k: nat) {
    k < |free| && PageOf(free[k]) == page && forall i :: k < i < |free| ==> PageOf(free[i]) != page
  }

  lemma {:induction false} LastOfPageExists(free: seq<Addr>, page: Addr, x: Addr)
    requires x in free && PageOf(x) == page
    ensures exists k: nat :: LastOfPage(free, page, k)
  {
    var n := |free| - 1;
    if PageOf(free[n]) == page {
      assert LastOfPage(free, page, n);
    } else {
      assert free == free[..n] + [free[n]];
      LastOfPageExists(free[..n], page, x);
      var k: nat :| LastOfPage(free[..n], page, k);
      assert LastOfPage(free, page, k);
    }
  }

  /** Where a returned block goes: behind the free blocks of its page, or to the end of the queue if
      its page has none. */
  ghost function Returned(free: seq<Addr>, a: Addr): seq<Addr> {
    if k: nat :| LastOfPage(free, PageOf(a), k) then InsertedAfter(free, k, a) else free + [a]
  }

  lemma NoneFree(free: seq<Addr>, page: Addr)
    ensures |FreeIn(free, page)| == 0 <==> forall x :: x in free ==> PageOf(x) != page
  {
    if |FreeIn(free, page)| == 0 {
      forall x | x in free ensures PageOf(x) != page { assert x in FreeIn(free, page) <==> PageOf(x) == page; }
    }
  }

  /** A page is full exactly when it has no free block. */
  lemma FullMeansNone(c: Class, free: seq<Addr>, a: Addr)
    requires IsOrder(c.order) && PageOf(a) in c.pages && HeaderOk(c, free, PageOf(a))
    ensures FullPage(c, a) <==> forall x :: x in free ==> PageOf(x) != PageOf(a)
  {
    NoneFree(free, PageOf(a));
  }

  /** A page's last pointer is at its last free block. */
  lemma PlaceInPage(free: seq<Addr>, page: Addr, last: Addr, x: Addr) returns (k: nat)
    requires Distinct(free) && LastIs(free, page, last) && x in free && PageOf(x) == page
    ensures LastOfPage(free, page, k) && free[k] == last
    ensures forall i: nat :: EndsPage(free, i) && PageOf(free[i]) == page ==> i == k
  {
    LastOfPageExists(free, page, x);
    k :| LastOfPage(free, page, k);
    assert EndsPage(free, k);
  }

  lemma ReturnedIs(free: seq<Addr>, a: Addr, k: nat)
    requires k < |free|
    requires LastOfPage(free, PageOf(a), k) || (k == |free| - 1 && forall x :: x in free ==> PageOf(x) != PageOf(a))
    ensures Returned(free, a) == InsertedAfter(free, k, a)
  {
    if LastOfPage(free, PageOf(a), k) {
      assert forall j: nat :: LastOfPage(free, PageOf(a), j) ==> j == k;
    } else {
      forall j: nat | j < |free| ensures !LastOfPage(free, PageOf(a), j) { assert free[j] in free; }
      assert InsertedAfter(free, k, a) == free + [a];
    }
  }

  /** Block `k` of the queue is where the code inserts: the last free block of the page, or the end of
      the queue if the page has none. */
  ghost predicate InsertsAt(c: Class, free: seq<Addr>, a: Addr, k: nat) {
    && k < |free|
    && (LastOfPage(free, PageOf(a), k) || (k == |free| - 1 && forall x :: x in free ==> PageOf(x) != PageOf(a)))
    && (forall i: nat :: EndsPage(free, i) && PageOf(free[i]) == PageOf(a) ==> i == k)
    && (FullPage(c, a) <==> forall x :: x in free ==> PageOf(x) != PageOf(a))
    && (!FullPage(c, a) ==> ReadHeader(c.pages, PageOf(a)).last == free[k])
  }

  lemma InsertionPoint(c: Class, free: seq<Addr>, a: Addr) returns (k: nat)
    requires IsOrder(c.order) && PageOf(a) in c.pages && HeaderOk(c, free, PageOf(a)) && Distinct(free) && free != []
    ensures InsertsAt(c, free, a, k)
  {
    FullMeansNone(c, free, a);
    if FullPage(c, a) {
      k := |free| - 1;
      forall i: nat | EndsPage(free, i) ensures PageOf(free[i]) != PageOf(a) { assert free[i] in free; }
    } else {
      var x :| x in free && PageOf(x) == PageOf(a);
      k := PlaceInPage(free, PageOf(a), c.pages[PageOf(a)].last, x);
    }
  }

  lemma WritesAt(c: Class, free: seq<Addr>, a: Addr, k: nat)
    requires Spelled(c.blocks, free) && c.freeObjects == |free| > 0 && c.first == free[0] && InsertsAt(c, free, a, k)
    ensures Deallocate(c, a).blocks ==
            Append(c.blocks, a, ReadHeader(c.pages, PageOf(a)).last, free[k], free[After(k, |free|)])
  {
    assert NextIs(c.blocks, free, k);
    if LastOfPage(free, PageOf(a), k) { assert free[k] in free; }
  }

  /** Returning a live block puts it into the queue and keeps everything else as it is, whichever page
      it comes from and whatever else is free. */
  lemma DeallocateValid(c: Class, free: seq<Addr>, a: Addr)
    requires Valid(c, free) && IsBlock(c, a) && a !in free
    ensures Valid(Deallocate(c, a), Returned(free, a))
  {
    RoomLeft(c, free, a);
    assert HeaderOk(c, free, PageOf(a));
    if free == [] {
      ReturnedToEmpty(c, a, Deallocate(c, a));
      assert Returned(free, a) == [a];
    } else {
      var k := InsertionPoint(c, free, a);
      ReturnedIs(free, a, k);
      ReturnedInto(c, free, a, k, Deallocate(c, a), Returned(free, a));
    }
  }

  lemma ReturnedToEmpty(c: Class, a: Addr, c': Class)
    requires Valid(c, []) && IsBlock(c, a) && c' == Deallocate(c, a) && ReadHeader(c.pages, PageOf(a)).allocations >= 1
    ensures Valid(c', [a])
  {
    assert NextIs(c'.blocks, [a], 0);
    forall p | p in c'.pages ensures HeaderOk(c', [a], p) {
      assert HeaderOk(c, [], p);
      DifferInOne(FreeIn([], p), FreeIn([a], p), a);
    }
    assert IsBlock(c', a);
  }

  lemma ReturnedInto(c: Class, free: seq<Addr>, a: Addr, k: nat, c': Class, more: seq<Addr>)
    requires Valid(c, free) && IsBlock(c, a) && a !in free && free != [] && c' == Deallocate(c, a)
    requires InsertsAt(c, free, a, k) && more == InsertedAfter(free, k, a)
    requires ReadHeader(c.pages, PageOf(a)).allocations >= 1
    ensures Valid(c', more)
  {
    InsertedIndex(free, k, a, more);
    WritesAt(c, free, a, k);
    SpelledInsert(c.blocks, free, k, a, ReadHeader(c.pages, PageOf(a)).last, c'.blocks, more);
    forall p | p in c'.pages ensures HeaderOk(c', more, p) {
      assert HeaderOk(c, free, p);
      ReturnedHeader(c, free, a, k, c', more, p);
    }
    forall i | 0 <= i < |more| ensures IsBlock(c', more[i]) {
      if more[i] != a { FreeIsBlock(c, free, more[i]); }
    }
  }

  lemma FreeIsBlock(c: Class, free: seq<Addr>, x: Addr)
    requires IsOrder(c.order) && (forall i :: 0 <= i < |free| ==> IsBlock(c, free[i])) && x in free
    ensures IsBlock(c, x)
  {
    var j :| 0 <= j < |free| && free[j] == x;
  }

  lemma ReturnedHeader(c: Class, free: seq<Addr>, a: Addr, k: nat, c': Class, more: seq<Addr>, p: Addr)
    requires IsOrder(c.order) && c' == Deallocate(c, a) && c.freeObjects > 0 && p in c.pages && PageOf(a) in c.pages
    requires HeaderOk(c, free, p) && ReadHeader(c.pages, PageOf(a)).allocations >= 1
    requires InsertsAt(c, free, a, k) && a !in free && more == InsertedAfter(free, k, a)
    ensures HeaderOk(c', more, p)
  {
    InsertedIndex(free, k, a, more);
    DifferInOne(FreeIn(free, p), FreeIn(more, p), a);
    forall j: nat | EndsPage(more, j) && PageOf(more[j]) == p ensures c'.pages[p].last == more[j] {
      EndsAfterInsert(free, k, a, more, j);
    }
  }

  /** The stretches of the other pages end where they did, and that of the block's page at the block. */
  lemma EndsAfterInsert(free: seq<Addr>, k: nat, a: Addr, more: seq<Addr>, j: nat)
    requires k < |free| && more == InsertedAfter(free, k, a) && EndsPage(more, j)
    requires LastOfPage(free, PageOf(a), k) || (k == |free| - 1 && forall x :: x in free ==> PageOf(x) != PageOf(a))
    requires forall i: nat :: EndsPage(free, i) && PageOf(free[i]) == PageOf(a) ==> i == k
    ensures more[j] == a || (PageOf(more[j]) != PageOf(a) && exists i: nat :: EndsPage(free, i) && free[i] == more[j])
  {
    InsertedIndex(free, k, a, more);
    if j < k {
      assert EndsPage(free, j) && more[j] == free[j] && free[j + 1] == more[j + 1];
    } else if j == k {
      assert more[j] == free[k] && more[j + 1] == a;
      assert EndsPage(free, k);
    } else if j > k + 1 {
      assert more[j] == free[j - 1] && EndsPage(free, j - 1);
    }
  }

  // ---------------------------------------------------------------- the back links

  /** Where all links are right, they stay right if and only if the class had no free block or the
      block's page was not full: otherwise the new node points back into its own page, and no order of
      the free blocks is a ring any more. `DeallocateValid` says that this does no harm. */
  lemma BackLinksExact(c: Class, free: seq<Addr>, a: Addr)
    requires Valid(c, free) && Ring(c.blocks, free) && IsBlock(c, a) && a !in free
    ensures (exists order: seq<Addr> :: Elements(order) == Elements(free) + {a} && Ring(Deallocate(c, a).blocks, order))
            <==> free == [] || !FullPage(c, a)
  {
    var c' := Deallocate(c, a);
    if free == [] {
      assert Linked(c'.blocks, [a], 0);
      assert Ring(c'.blocks, [a]) && Elements([a]) == Elements(free) + {a};
    } else {
      assert HeaderOk(c, free, PageOf(a));
      var k := InsertionPoint(c, free, a);
      if FullPage(c, a) {
        forall order: seq<Addr> | Elements(order) == Elements(free) + {a} ensures !Ring(c'.blocks, order) {
          FullPageBreaksRing(c, free, a, order);
        }
      } else {
        RingKept(c, free, a, k);
      }
    }
  }

  lemma RingKept(c: Class, free: seq<Addr>, a: Addr, k: nat)
    requires Ring(c.blocks, free) && c.freeObjects == |free| > 0 && c.first == free[0] && a !in free
    requires InsertsAt(c, free, a, k) && !FullPage(c, a)
    ensures Elements(InsertedAfter(free, k, a)) == Elements(free) + {a}
    ensures Ring(Deallocate(c, a).blocks, InsertedAfter(free, k, a))
  {
    InsertedElements(free, k, a);
    WritesBehind(c, free, a, k);
    RingInsert(c.blocks, free, k, a, Deallocate(c, a).blocks, InsertedAfter(free, k, a));
  }

  lemma InsertedElements(free: seq<Addr>, k: nat, a: Addr)
    requires k < |free|
    ensures Elements(InsertedAfter(free, k, a)) == Elements(free) + {a}
  {
    InsertedIndex(free, k, a, InsertedAfter(free, k, a));
  }

  lemma WritesBehind(c: Class, free: seq<Addr>, a: Addr, k: nat)
    requires Ring(c.blocks, free) && c.freeObjects == |free| > 0 && c.first == free[0]
    requires InsertsAt(c, free, a, k) && !FullPage(c, a)
    ensures Deallocate(c, a).blocks == Append(c.blocks, a, free[k], free[k], free[After(k, |free|)])
  {
    RingIsSpelled(c.blocks, free);
    WritesAt(c, free, a, k);
  }

  lemma FullPageBreaksRing(c: Class, free: seq<Addr>, a: Addr, order: seq<Addr>)
    requires Valid(c, free) && IsBlock(c, a) && a !in free && free != [] && FullPage(c, a)
    requires Elements(order) == Elements(free) + {a}
    ensures !Ring(Deallocate(c, a).blocks, order)
  {
    var c', page := Deallocate(c, a), PageOf(a);
    assert HeaderOk(c, free, page);
    var k := InsertionPoint(c, free, a);
    WritesAt(c, free, a, k);
    assert free[0] in free && free[k] in free && free[After(k, |free|)] in free;
    assert c'.blocks[a].prev == c.pages[page].last && PageOf(c.pages[page].last) == page;
    assert a in Elements(order) && free[0] in Elements(order);
    if Ring(c'.blocks, order) {
      PrevInRing(c'.blocks, order, a, free[0]);
      assert false;
    }
  }

  /** In a ring of at least two blocks, the previous block is another block of the ring. */
  lemma PrevInRing(blocks: map<Addr, Block>, order: seq<Addr>, a: Addr, b: Addr)
    requires Ring(blocks, order) && a in order && b in order && a != b
    ensures a in blocks && blocks[a].prev in Elements(order) && blocks[a].prev != a
  {
    var i :| 0 <= i < |order| && order[i] == a;
    var j :| 0 <= j < |order| && order[j] == b;
    assert Linked(blocks, order, i);
    assert order[Before(i, |order|)] in Elements(order);
  }

  // ---------------------------------------------------------------- whole runs

  /** The class as the code has it, beside the queue of free blocks and the set of live blocks that
      a reader of the code would keep in mind. */
  datatype Heap = Heap(code: Class, free: seq<Addr>, live: set<Addr>)

  /** Besides allocating and returning, a client writes into a block it holds. */
  datatype Op = Alloc(page: Addr) | Free(a: Addr) | Write(a: Addr, content: Block)

  /** A page the heap gets is fresh; a block that is returned or written into is live. */
  ghost predicate Allowed(h: Heap, op: Op) {
    match op
    case Alloc(page) => h.free == [] ==> page % 4096 == 0 && page !in h.code.pages
    case Free(a) => a in h.live
    case Write(a, _) => a in h.live
  }

  ghost function Step(h: Heap, op: Op): (r: Heap)
    requires IsOrder(h.code.order)
    ensures r.code.order == h.code.order
  {
    match op
    case Alloc(page) =>
      Layout(h.code.order);
      var q := if h.free == [] then PageBlocks(page, h.code.order) else h.free;
      if q == [] then h
      else Heap(Allocate(h.code, page).0, q[1..], h.live + {q[0]})
    case Free(a) => Heap(Deallocate(h.code, a), Returned(h.free, a), h.live - {a})
    case Write(a, content) => h.(code := h.code.(blocks := h.code.blocks[a := content]))
  }

  ghost predicate Inv(h: Heap) {
    && Valid(h.code, h.free)
    && (forall a :: a in h.live ==> a !in h.free)
    && (forall a :: IsBlock(h.code, a) <==> a in h.live || a in h.free)
  }

  lemma NewPageKeeps(h: Heap, page: Addr, h': Heap)
    requires Inv(h) && h.free == [] && Allowed(h, Alloc(page))
    requires h' == Heap(NewPage(h.code, page), PageBlocks(page, h.code.order), h.live)
    ensures Inv(h') && h'.free != [] && h'.free[0] == page + FirstOffset(h.code.order)
  {
    NewPageValid(h.code, page);
    PageBlocksPlacement(page, h.code.order);
    forall a | a in h'.free ensures a !in h.live {
      assert Placed(a, page, Size(h.code.order));
      assert !IsBlock(h.code, a);
    }
    forall a ensures IsBlock(h'.code, a) <==> a in h'.live || a in h'.free {
      assert IsBlock(h.code, a) <==> a in h.live;
    }
  }

  lemma TakeKeeps(h: Heap, h': Heap)
    requires Inv(h) && h.free != []
    requires h' == Heap(TakeFirst(h.code), h.free[1..], h.live + {h.free[0]})
    ensures Inv(h')
  {
    TakeFirstValid(h.code, h.free);
    SamePages(h.code, h.free);
    assert forall a :: a in h.free <==> a == h.free[0] || a in h.free[1..];
    assert h.free[0] in h.free && h.free[0] !in h.free[1..];
  }

  lemma SamePages(c: Class, free: seq<Addr>)
    requires Valid(c, free) && free != []
    ensures TakeFirst(c).order == c.order && forall a :: IsBlock(TakeFirst(c), a) <==> IsBlock(c, a)
  {
    assert IsBlock(c, free[0]);
    assert TakeFirst(c).pages.Keys == c.pages.Keys;
  }

  /** An allocation hands out a block that was not live: the head of the queue, or the first block
      of the new page. */
  lemma AllocKeeps(h: Heap, page: Addr)
    requires Inv(h) && Allowed(h, Alloc(page))
    ensures Inv(Step(h, Alloc(page)))
    ensures var a := Allocate(h.code, page).1;
            && a !in h.live
            && a == (if h.free == [] then page + FirstOffset(h.code.order) else h.free[0])
            && Step(h, Alloc(page)).live == h.live + {a}
  {
    var h1 := h;
    if h.free == [] {
      h1 := Heap(NewPage(h.code, page), PageBlocks(page, h.code.order), h.live);
      NewPageKeeps(h, page, h1);
    }
    TakeKeeps(h1, Step(h, Alloc(page)));
    assert h1.free[0] in h1.free;
  }

  lemma FreeKeeps(h: Heap, a: Addr)
    requires Inv(h) && Allowed(h, Free(a))
    ensures Inv(Step(h, Free(a)))
    ensures forall x :: x in Step(h, Free(a)).free <==> x in h.free || x == a
  {
    assert IsBlock(h.code, a);
    DeallocateValid(h.code, h.free, a);
    var h' := Step(h, Free(a));
    ReturnedMembers(h.code, h.free, a);
    assert h'.code.pages.Keys == h.code.pages.Keys;
    forall x ensures IsBlock(h'.code, x) <==> x in h'.live || x in h'.free {
      assert IsBlock(h'.code, x) <==> IsBlock(h.code, x);
    }
  }

  lemma ReturnedMembers(c: Class, free: seq<Addr>, a: Addr)
    requires Valid(c, free) && IsBlock(c, a) && a !in free
    ensures forall x :: x in Returned(free, a) <==> x in free || x == a
  {
    if free != [] {
      assert HeaderOk(c, free, PageOf(a));
      var k := InsertionPoint(c, free, a);
      ReturnedIs(free, a, k);
      InsertedIndex(free, k, a, Returned(free, a));
    }
  }

  lemma WriteKeeps(h: Heap, a: Addr, content: Block)
    requires Inv(h) && Allowed(h, Write(a, content))
    ensures Inv(Step(h, Write(a, content)))
  {
    var h' := Step(h, Write(a, content));
    forall i | 0 <= i < |h.free| ensures NextIs(h'.code.blocks, h.free, i) {
      assert h.free[i] in h.free && NextIs(h.code.blocks, h.free, i);
    }
    if h.free != [] { assert h.free[0] in h.free && NextIs(h.code.blocks, h.free, 0); }
    forall p | p in h'.code.pages ensures HeaderOk(h'.code, h.free, p) { assert HeaderOk(h.code, h.free, p); }
    forall x ensures IsBlock(h'.code, x) <==> IsBlock(h.code, x) {
    }
  }

  lemma StepKeeps(h: Heap, op: Op)
    requires Inv(h) && Allowed(h, op)
    ensures Inv(Step(h, op))
  {
    match op
    case Alloc(page) => AllocKeeps(h, page);
    case Free(a) => FreeKeeps(h, a);
    case Write(a, content) => WriteKeeps(h, a, content);
  }

  // ---------------------------------------------------------------- the memory of live blocks

  /** Nothing but its holder writes into a live block: what another block's allocation or return writes
      goes into free blocks, the returned block and a fresh page. */
  lemma LiveUntouched(h: Heap, op: Op, x: Addr)
    requires Inv(h) && Allowed(h, op) && x in h.live && (op.Alloc? || op.a != x)
    ensures Read(Step(h, op).code.blocks, x) == Read(h.code.blocks, x)
  {
    match op
    case Alloc(page) => AllocTouches(h, page, x);
    case Free(a) =>
      if h.free != [] {
        assert IsBlock(h.code, a) && HeaderOk(h.code, h.free, PageOf(a));
        var k := InsertionPoint(h.code, h.free, a);
        WritesAt(h.code, h.free, a, k);
        assert h.free[k] in h.free && h.free[After(k, |h.free|)] in h.free;
      }
    case Write(a, content) =>
  }

  /** What a client writes into its block is what it reads there. */
  lemma WrittenIsRead(h: Heap, a: Addr, content: Block)
    requires IsOrder(h.code.order)
    ensures Read(Step(h, Write(a, content)).code.blocks, a) == content
  {
  }

  lemma AllocTouches(h: Heap, page: Addr, x: Addr)
    requires Inv(h) && Allowed(h, Alloc(page)) && x in h.live
    ensures Read(Step(h, Alloc(page)).code.blocks, x) == Read(h.code.blocks, x)
  {
    var h1 := h;
    if h.free == [] {
      h1 := Heap(NewPage(h.code, page), PageBlocks(page, h.code.order), h.live);
      NewPageKeeps(h, page, h1);
      assert x !in h1.free;
      assert Read(h1.code.blocks, x) == Read(h.code.blocks, x);
    }
    TakeTouches(h1.code, h1.free, x);
  }

  lemma TakeTouches(c: Class, free: seq<Addr>, x: Addr)
    requires Valid(c, free) && free != [] && x !in free
    ensures Read(TakeFirst(c).blocks, x) == Read(c.blocks, x)
  {
    assert NextIs(c.blocks, free, 0);
    if |free| >= 2 { assert free[|free| - 1] in free && free[1] in free; }
  }

  ghost predicate AllAllowed(h: Heap, ops: seq<Op>)
    requires IsOrder(h.code.order)
    decreases |ops|
  {
    ops != [] ==> Allowed(h, ops[0]) && AllAllowed(Step(h, ops[0]), ops[1..])
  }

  ghost function Run(h: Heap, ops: seq<Op>): (r: Heap)
    requires IsOrder(h.code.order)
    ensures r.code.order == h.code.order
    decreases |ops|
  {
    if ops == [] then h else Run(Step(h, ops[0]), ops[1..])
  }

  function Empty(order: nat): Heap { Heap(Class(order, 0, 0, map[], map[]), [], {}) }

  lemma {:induction false} RunKeeps(h: Heap, ops: seq<Op>)
    requires Inv(h) && AllAllowed(h, ops)
    ensures Inv(Run(h, ops))
    decreases |ops|
  {
    if ops == [] {
    } else {
      StepKeeps(h, ops[0]);
      RunKeeps(Step(h, ops[0]), ops[1..]);
    }
  }

  lemma EmptyInv(order: nat)
    requires IsOrder(order)
    ensures Inv(Empty(order))
  {
  }

  /** After any run of a size class, over any number of pages and in any order of returns: the forward
      links spell out exactly the queue of free blocks, every block is either free or live and never
      both, and the next allocation hands out the head of the queue, which is not live. */
  lemma EveryRun(order: nat, ops: seq<Op>, page: Addr)
    requires IsOrder(order) && AllAllowed(Empty(order), ops) && Allowed(Run(Empty(order), ops), Alloc(page))
    ensures var h := Run(Empty(order), ops);
            && Spelled(h.code.blocks, h.free) && h.code.freeObjects == |h.free|
            && (forall a :: IsBlock(h.code, a) <==> a in h.live || a in h.free)
            && (forall a :: a in h.live ==> a !in h.free)
            && Allocate(h.code, page).1 !in h.live
            && (h.free != [] ==> Allocate(h.code, page).1 == h.free[0])
  {
    EmptyInv(order);
    RunKeeps(Empty(order), ops);
    AllocKeeps(Run(Empty(order), ops), page);
  }

  predicate LeavesAlone(ops: seq<Op>, x: Addr) {
    forall i :: 0 <= i < |ops| ==> ops[i].Alloc? || ops[i].a != x
  }

  /** What a client has written into a block it holds stays there through any run in which it neither
      writes into the block again nor returns it. */
  lemma {:induction false} ContentKept(h: Heap, ops: seq<Op>, x: Addr)
    requires Inv(h) && AllAllowed(h, ops) && x in h.live && LeavesAlone(ops, x)
    ensures x in Run(h, ops).live && Read(Run(h, ops).code.blocks, x) == Read(h.code.blocks, x)
    decreases |ops|
  {
    if ops == [] {
    } else {
      LiveUntouched(h, ops[0], x);
      StepKeeps(h, ops[0]);
      ContentKept(Step(h, ops[0]), ops[1..], x);
    }
  }

  /** While all free blocks lie in one page, returned blocks are handed out first in, first out. */
  lemma OnePageIsFifo(free: seq<Addr>, a: Addr)
    requires forall x :: x in free ==> PageOf(x) == PageOf(a)
    ensures Returned(free, a) == free + [a]
  {
    if k: nat :| LastOfPage(free, PageOf(a), k) {
      assert free[|free| - 1] in free;
      assert k == |free| - 1;
      assert InsertedAfter(free, k, a) == free + [a];
    }
  }

  // ---------------------------------------------------------------- runs with a wrong back link

  function Allocs(page: Addr, n: nat): seq<Op> { if n == 0 then [] else [Alloc(page)] + Allocs(page, n - 1) }

  /** As many allocations as there are free blocks leave none. */
  lemma {:induction false} Drain(h: Heap, page: Addr, n: nat)
    requires Inv(h) && |h.free| == n
    ensures AllAllowed(h, Allocs(page, n)) && Inv(Run(h, Allocs(page, n)))
    ensures Run(h, Allocs(page, n)).free == [] && h.live <= Run(h, Allocs(page, n)).live
    ensures Run(h, Allocs(page, n)).code.pages.Keys == h.code.pages.Keys
    decreases n
  {
    if n == 0 {
    } else {
      AllocKeeps(h, page);
      AllocPages(h, page);
      Drain(Step(h, Alloc(page)), page, n - 1);
      assert Allocs(page, n)[1..] == Allocs(page, n - 1);
    }
  }

  lemma AllocPages(h: Heap, page: Addr)
    requires Inv(h) && Allowed(h, Alloc(page))
    ensures Step(h, Alloc(page)).code.pages.Keys == h.code.pages.Keys + (if h.free == [] then {page} else {})
  {
    var h1 := h;
    if h.free == [] {
      h1 := Heap(NewPage(h.code, page), PageBlocks(page, h.code.order), h.live);
      NewPageKeeps(h, page, h1);
    }
    assert IsBlock(h1.code, h1.free[0]);
  }

  /** When an allocation gets a new page, all links among its free blocks are right. */
  lemma FreshLinks(h: Heap, page: Addr, h': Heap)
    requires Inv(h) && h.free == [] && Allowed(h, Alloc(page)) && h' == Step(h, Alloc(page))
    ensures Inv(h') && h'.free != [] && Ring(h'.code.blocks, h'.free) && forall x :: x in h'.free ==> PageOf(x) == page
  {
    var c, blocks := NewPage(h.code, page), PageBlocks(page, h.code.order);
    AllocKeeps(h, page);
    InPage(page, h.code.order, blocks);
    PopulatedRing(h.code.blocks, page, h.code.order, blocks, c.blocks);
    FirstOfPage(page, h.code.order, blocks);
    TakeFirstRing(c, blocks);
    assert forall x :: x in blocks[1..] ==> x in blocks;
  }

  lemma TakeFirstRing(c: Class, free: seq<Addr>)
    requires Ring(c.blocks, free) && |free| >= 2 && c.first == free[0] && c.freeObjects == |free|
    ensures Ring(TakeFirst(c).blocks, free[1..])
  {
    assert Linked(c.blocks, free, 0);
    RingTail(c.blocks, free, free[1..], Join(c.blocks, free[|free| - 1], free[1]));
  }

  lemma FirstOfPage(page: Addr, order: nat, blocks: seq<Addr>)
    requires IsOrder(order) && blocks == PageBlocks(page, order)
    ensures |blocks| == MaxBlocks(order) >= 3 && blocks[0] == page + FirstOffset(order)
  {
    PageChain(page, order, blocks, Size(order));
  }

  /** So whenever a class that has run out gets a new page, the return of any block it held before
      leaves a wrong back link. */
  lemma WrongLink(h: Heap, page: Addr, a: Addr, h': Heap)
    requires Inv(h) && h.free == [] && Allowed(h, Alloc(page)) && a in h.live && h' == Step(h, Alloc(page))
    ensures Inv(h') && a in h'.live && Ring(h'.code.blocks, h'.free)
    ensures forall order: seq<Addr> ::
              Elements(order) == Elements(h'.free) + {a} ==> !Ring(Deallocate(h'.code, a).blocks, order)
  {
    FreshLinks(h, page, h');
    assert IsBlock(h.code, a);
    AllocPages(h, page);
    assert PageOf(a) != page || h.free != [];
    assert IsBlock(h'.code, a) && HeaderOk(h'.code, h'.free, PageOf(a));
    FullMeansNone(h'.code, h'.free, a);
    BackLinksExact(h'.code, h'.free, a);
  }

  /** And a class of any order runs out: all blocks of its first page are allocated. */
  lemma RunsOut(order: nat, page: Addr, ops: seq<Op>)
    requires IsOrder(order) && page % 4096 == 0 && ops == Allocs(page, MaxBlocks(order))
    ensures AllAllowed(Empty(order), ops)
    ensures var h := Run(Empty(order), ops);
            Inv(h) && h.free == [] && page + FirstOffset(order) in h.live && h.code.pages.Keys == {page}
  {
    var h0, blocks := Empty(order), PageBlocks(page, order);
    EmptyInv(order);
    AllocKeeps(h0, page);
    AllocPages(h0, page);
    FirstOfPage(page, order, blocks);
    PageBlocksPlacement(page, order);
    Drain(Step(h0, Alloc(page)), page, MaxBlocks(order) - 1);
    assert ops[1..] == Allocs(page, MaxBlocks(order) - 1);
  }

  // ---------------------------------------------------------------- the choice of a class

  /** The class that serves a small request. */
  function ClassIndex(size: nat): nat
    requires 1 <= size <= 1024
  {
    var order := Log2RoundedUp(size);
    (if order > 4 then order else 4) - 4
  }

  /** A small request goes to the smallest class whose blocks are large enough. */
  lemma ClassIsTightest(size: nat, k: nat)
    requires 1 <= size <= 1024 && k <= 6
    ensures ClassIndex(size) <= 6
    ensures size <= Size(k + 4) <==> ClassIndex(size) <= k
  {
    SizeIsPower(k + 4);
    SizeIsPower(10);
    Log2RoundedUpIsCeiling(size, k + 4);
    Log2RoundedUpIsCeiling(size, 10);
  }

  /** A request of at most 1024 bytes whose alignment, a power of two, is not above its size gets
      an address of that alignment. */
  lemma AlignedForLayout(size: nat, k: nat, page: Addr, a: Addr)
    requires 1 <= size <= 1024 && Pow2(k) <= size && page % 4096 == 0
    requires ClassIndex(size) <= 6 && a in PageBlocks(page, ClassIndex(size) + 4)
    ensures a % Pow2(k) == 0 && size <= Size(ClassIndex(size) + 4)
  {
    var order := ClassIndex(size) + 4;
    ClassIsTightest(size, ClassIndex(size));
    PageBlocksPlacement(page, order);
    assert Placed(a, page, Size(order));
    SizeIsPower(order);
    if k > order { Pow2Monotone(order + 1, k); }
    PowerDivides(a, k, order);
  }

  lemma {:induction false} PowerDivides(a: nat, k: nat, order: nat)
    requires k <= order && a % Pow2(order) == 0
    ensures a % Pow2(k) == 0
    decreases order
  {
    if k >= order {
    } else {
      HalfDivides(a, Pow2(order - 1));
      PowerDivides(a, k, order - 1);
    }
  }

  lemma HalfDivides(a: nat, n: nat)
    requires n > 0 && a % (2 * n) == 0
    ensures a % n == 0
  {
    var q := a / (2 * n);
    assert a == (2 * n) * q == n * (2 * q);
    DivUnique(a, n, 2 * q, 0);
  }
}
