/**
 Whole runs of a size class in which the back links stay right: exactly which runs these are, and the
 order in which they hand out blocks. A class that owns one page is always in such a run.
 */
module HeapRuns {
  import opened Collections
  import opened HeapRing

  /** A return after which all links are right: the class has no free block, or the page is not full. */
  ghost predicate Gentle(h: Heap, op: Op) { op.Free? ==> h.free == [] || !FullPage(h.code, op.a) }

  ghost predicate AllGentle(h: Heap, ops: seq<Op>)
    requires IsOrder(h.code.order)
    decreases |ops|
  {
    ops != [] ==> Gentle(h, ops[0]) && AllGentle(Step(h, ops[0]), ops[1..])
  }

  /** After every step, the free blocks are one doubly linked ring in the order of the queue. */
  ghost predicate RingThroughout(h: Heap, ops: seq<Op>)
    requires IsOrder(h.code.order)
    decreases |ops|
  {
    Ring(h.code.blocks, h.free) && (ops != [] ==> RingThroughout(Step(h, ops[0]), ops[1..]))
  }

  // ---------------------------------------------------------------- the ring

  lemma AllocRing(h: Heap, page: Addr)
    requires Inv(h) && Ring(h.code.blocks, h.free) && Allowed(h, Alloc(page))
    ensures var h' := Step(h, Alloc(page)); Ring(h'.code.blocks, h'.free)
  {
    if h.free == [] {
      FreshLinks(h, page, Step(h, Alloc(page)));
    } else if |h.free| >= 2 {
      TakeFirstRing(h.code, h.free);
    }
  }

  lemma ReturnRing(c: Class, free: seq<Addr>, a: Addr)
    requires Valid(c, free) && Ring(c.blocks, free) && IsBlock(c, a) && a !in free && free != [] && !FullPage(c, a)
    ensures Ring(Deallocate(c, a).blocks, Returned(free, a))
  {
    assert HeaderOk(c, free, PageOf(a));
    var k := InsertionPoint(c, free, a);
    ReturnedIs(free, a, k);
    RingKept(c, free, a, k);
  }

  lemma ReturnNoRing(c: Class, free: seq<Addr>, a: Addr)
    requires Valid(c, free) && IsBlock(c, a) && a !in free && free != [] && FullPage(c, a)
    ensures !Ring(Deallocate(c, a).blocks, Returned(free, a))
  {
    ReturnedMembers(c, free, a);
    FullPageBreaksRing(c, free, a, Returned(free, a));
  }

  lemma ReturnToEmptyRing(c: Class, a: Addr)
    requires c.freeObjects == 0
    ensures Ring(Deallocate(c, a).blocks, Returned([], a))
  {
    assert Returned([], a) == [a] && Linked(Deallocate(c, a).blocks, [a], 0);
  }

  lemma FreeRing(h: Heap, a: Addr)
    requires Inv(h) && Ring(h.code.blocks, h.free) && Allowed(h, Free(a))
    ensures var h' := Step(h, Free(a)); Ring(h'.code.blocks, h'.free) <==> Gentle(h, Free(a))
  {
    assert IsBlock(h.code, a);
    if h.free == [] {
      ReturnToEmptyRing(h.code, a);
    } else if FullPage(h.code, a) {
      ReturnNoRing(h.code, h.free, a);
    } else {
      ReturnRing(h.code, h.free, a);
    }
  }

  lemma WriteRing(h: Heap, a: Addr, content: Block)
    requires Inv(h) && Ring(h.code.blocks, h.free) && Allowed(h, Write(a, content))
    ensures Ring(Step(h, Write(a, content)).code.blocks, h.free)
  {
    forall i | 0 <= i < |h.free| ensures Linked(Step(h, Write(a, content)).code.blocks, h.free, i) {
      assert Linked(h.code.blocks, h.free, i) && h.free[i] in h.free;
    }
  }

  lemma StepRing(h: Heap, op: Op)
    requires Inv(h) && Ring(h.code.blocks, h.free) && Allowed(h, op)
    ensures var h' := Step(h, op); Ring(h'.code.blocks, h'.free) <==> Gentle(h, op)
  {
    match op
    case Alloc(page) => AllocRing(h, page);
    case Free(a) => FreeRing(h, a);
    case Write(a, content) => WriteRing(h, a, content);
  }

  /** The free blocks form one doubly linked ring throughout a run if and only if every return finds
      the class without a free block or the page of the block not full. */
  lemma {:induction false} RingExact(h: Heap, ops: seq<Op>)
    requires Inv(h) && Ring(h.code.blocks, h.free) && AllAllowed(h, ops)
    ensures RingThroughout(h, ops) <==> AllGentle(h, ops)
    ensures AllGentle(h, ops) ==> Ring(Run(h, ops).code.blocks, Run(h, ops).free)
    decreases |ops|
  {
    if ops == [] {
    } else {
      StepKeeps(h, ops[0]);
      StepRing(h, ops[0]);
      if Gentle(h, ops[0]) { RingExact(Step(h, ops[0]), ops[1..]); }
    }
  }

  // ---------------------------------------------------------------- the order

  ghost predicate OnePage(free: seq<Addr>, page: Addr) { forall x :: x in free ==> PageOf(x) == page }

  ghost predicate InOnePage(free: seq<Addr>) { exists page :: OnePage(free, page) }

  /** The blocks that the allocations of a run return, in order. */
  ghost function HandedOut(h: Heap, ops: seq<Op>): seq<Addr>
    requires IsOrder(h.code.order)
    decreases |ops|
  {
    if ops == [] then [] else HandedOutBy(h, ops[0]) + HandedOut(Step(h, ops[0]), ops[1..])
  }

  ghost function HandedOutBy(h: Heap, op: Op): seq<Addr>
    requires IsOrder(h.code.order)
  {
    if op.Alloc? then [Allocate(h.code, op.page).1] else []
  }

  /** The blocks that become free in a run, in order: those of each new page, and each returned block. */
  ghost function Supplied(h: Heap, ops: seq<Op>): seq<Addr>
    requires IsOrder(h.code.order)
    decreases |ops|
  {
    if ops == [] then [] else SuppliedBy(h, ops[0]) + Supplied(Step(h, ops[0]), ops[1..])
  }

  ghost function SuppliedBy(h: Heap, op: Op): seq<Addr>
    requires IsOrder(h.code.order)
  {
    match op
    case Alloc(page) => if h.free == [] then PageBlocks(page, h.code.order) else []
    case Free(a) => [a]
    case Write(_, _) => []
  }

  lemma AllocInOrder(h: Heap, page: Addr)
    requires Inv(h) && Allowed(h, Alloc(page)) && InOnePage(h.free)
    ensures InOnePage(Step(h, Alloc(page)).free)
    ensures [Allocate(h.code, page).1] + Step(h, Alloc(page)).free == h.free + SuppliedBy(h, Alloc(page))
  {
    AllocKeeps(h, page);
    if h.free == [] {
      var blocks := PageBlocks(page, h.code.order);
      InPage(page, h.code.order, blocks);
      FirstOfPage(page, h.code.order, blocks);
      TailInPage(blocks, page);
    } else {
      var p :| OnePage(h.free, p);
      TailInPage(h.free, p);
    }
  }

  lemma TailInPage(free: seq<Addr>, page: Addr)
    requires OnePage(free, page) && free != []
    ensures InOnePage(free[1..])
  {
    assert OnePage(free[1..], page);
  }

  lemma FreeInOrder(c: Class, free: seq<Addr>, a: Addr)
    requires Valid(c, free) && IsBlock(c, a) && InOnePage(free) && (free == [] || !FullPage(c, a))
    ensures Returned(free, a) == free + [a] && InOnePage(free + [a])
  {
    assert HeaderOk(c, free, PageOf(a));
    FullMeansNone(c, free, a);
    OnePageIsFifo(free, a);
    assert OnePage(free + [a], PageOf(a));
  }

  lemma StepInOrder(h: Heap, op: Op)
    requires Inv(h) && Allowed(h, op) && Gentle(h, op) && InOnePage(h.free)
    ensures InOnePage(Step(h, op).free)
    ensures HandedOutBy(h, op) + Step(h, op).free == h.free + SuppliedBy(h, op)
  {
    match op
    case Alloc(page) => AllocInOrder(h, page);
    case Free(a) =>
      assert IsBlock(h.code, a);
      FreeInOrder(h.code, h.free, a);
    case Write(_, _) =>
  }

  lemma Regroup(out: seq<Addr>, more: seq<Addr>, left: seq<Addr>, free: seq<Addr>, free': seq<Addr>, now: seq<Addr>, later: seq<Addr>)
    requires out + free' == free + now && more + left == free' + later
    ensures (out + more) + left == free + (now + later)
  {
    calc {
      (out + more) + left;
      out + (more + left);
      (out + free') + later;
      free + (now + later);
    }
  }

  /** In a run in which the back links stay right, the blocks handed out, followed by those still free,
      are the blocks that were free, followed by those that became free: first in, first out. */
  lemma {:induction false} HandOutOrder(h: Heap, ops: seq<Op>)
    requires Inv(h) && AllAllowed(h, ops) && AllGentle(h, ops) && InOnePage(h.free)
    ensures InOnePage(Run(h, ops).free)
    ensures HandedOut(h, ops) + Run(h, ops).free == h.free + Supplied(h, ops)
    decreases |ops|
  {
    if ops == [] {
    } else {
      var op, rest, h' := ops[0], ops[1..], Step(h, ops[0]);
      StepKeeps(h, op);
      StepInOrder(h, op);
      HandOutOrder(h', rest);
      Regroup(HandedOutBy(h, op), HandedOut(h', rest), Run(h', rest).free, h.free, h'.free, SuppliedBy(h, op), Supplied(h', rest));
    }
  }

  // ---------------------------------------------------------------- one page

  lemma StepPages(h: Heap, op: Op)
    requires Inv(h) && Allowed(h, op)
    ensures Step(h, op).code.pages.Keys == h.code.pages.Keys + (if op.Alloc? && h.free == [] then {op.page} else {})
  {
    match op
    case Alloc(page) => AllocPages(h, page);
    case Free(a) => assert IsBlock(h.code, a);
    case Write(_, _) =>
  }

  lemma {:induction false} PagesGrow(h: Heap, ops: seq<Op>)
    requires Inv(h) && AllAllowed(h, ops)
    ensures h.code.pages.Keys <= Run(h, ops).code.pages.Keys
    decreases |ops|
  {
    if ops == [] {
    } else {
      StepKeeps(h, ops[0]);
      StepPages(h, ops[0]);
      PagesGrow(Step(h, ops[0]), ops[1..]);
    }
  }

  lemma OnePageGentle(h: Heap, page: Addr, op: Op)
    requires Inv(h) && Allowed(h, op) && h.code.pages.Keys <= {page}
    ensures Gentle(h, op)
  {
    if op.Free? && h.free != [] {
      assert IsBlock(h.code, op.a) && IsBlock(h.code, h.free[0]);
      assert PageOf(op.a) in h.code.pages.Keys && PageOf(h.free[0]) in h.code.pages.Keys;
      assert HeaderOk(h.code, h.free, PageOf(op.a));
      FullMeansNone(h.code, h.free, op.a);
      assert h.free[0] in h.free;
    }
  }

  lemma {:induction false} OnePageAllGentle(h: Heap, page: Addr, ops: seq<Op>)
    requires Inv(h) && AllAllowed(h, ops) && Run(h, ops).code.pages.Keys <= {page}
    ensures AllGentle(h, ops)
    decreases |ops|
  {
    if ops == [] {
    } else {
      PagesGrow(h, ops);
      OnePageGentle(h, page, ops[0]);
      StepKeeps(h, ops[0]);
      OnePageAllGentle(Step(h, ops[0]), page, ops[1..]);
    }
  }

  /** The blocks returned in a run, in order of return. */
  function Returns(ops: seq<Op>): seq<Addr> {
    if ops == [] then [] else (if ops[0].Free? then [ops[0].a] else []) + Returns(ops[1..])
  }

  lemma NoNewPage(h: Heap, page: Addr, op: Op, h': Heap)
    requires Allowed(h, op) && h.code.pages.Keys == {page} && h'.code.pages.Keys <= {page}
    requires h'.code.pages.Keys == h.code.pages.Keys + (if op.Alloc? && h.free == [] then {op.page} else {})
    ensures !(op.Alloc? && h.free == [])
  {
  }

  /** A class that has its one page gets free blocks by returns alone. */
  lemma {:induction false} OnePageSupplied(h: Heap, page: Addr, ops: seq<Op>)
    requires Inv(h) && AllAllowed(h, ops) && h.code.pages.Keys == {page} == Run(h, ops).code.pages.Keys
    ensures Supplied(h, ops) == Returns(ops)
    decreases |ops|
  {
    if ops == [] {
    } else {
      var h' := Step(h, ops[0]);
      StepKeeps(h, ops[0]);
      StepPages(h, ops[0]);
      PagesGrow(h', ops[1..]);
      NoNewPage(h, page, ops[0], h');
      OnePageSupplied(h', page, ops[1..]);
    }
  }

  lemma OnlyPage(p: Addr, page: Addr, keys: set<Addr>, all: set<Addr>)
    requires keys == {} + {p} && keys <= all <= {page}
    ensures p == page && keys == {page} == all
  {
    assert p in all;
  }

  /** An operation that gets the first page gets the only one. */
  lemma FirstPage(h: Heap, page: Addr, op: Op, rest: seq<Op>)
    requires Inv(h) && h.code.pages.Keys == {} && Allowed(h, op) && AllAllowed(Step(h, op), rest)
    requires Run(Step(h, op), rest).code.pages.Keys <= {page}
    ensures op.Alloc? && h.free == [] ==> op.page == page && Supplied(Step(h, op), rest) == Returns(rest)
  {
    StepKeeps(h, op);
    StepPages(h, op);
    PagesGrow(Step(h, op), rest);
    if op.Alloc? && h.free == [] {
      OnlyPage(op.page, page, Step(h, op).code.pages.Keys, Run(Step(h, op), rest).code.pages.Keys);
      OnePageSupplied(Step(h, op), page, rest);
    }
  }

  lemma SuppliedSplit(h: Heap, ops: seq<Op>)
    requires IsOrder(h.code.order) && ops != []
    ensures Supplied(h, ops) == SuppliedBy(h, ops[0]) + Supplied(Step(h, ops[0]), ops[1..])
    ensures ops[0].Alloc? ==> Returns(ops) == Returns(ops[1..])
  {
    assert ops[0].Alloc? ==> Returns(ops) == [] + Returns(ops[1..]);
  }

  /** `next` and `prev` lead back. */
  predicate BothWays(blocks: map<Addr, Block>, a: Addr) {
    var b := Read(blocks, a);
    Read(blocks, b.next).prev == a && Read(blocks, b.prev).next == a
  }

  /** After any run in which a class has owned one page, the free blocks form one doubly linked ring,
      `next` and `prev` being inverse, and the blocks handed out followed by those free are the blocks
      of the page followed by the returned blocks in order of return. */
  lemma OnePageRun(order: nat, page: Addr, ops: seq<Op>)
    requires IsOrder(order) && ops != [] && AllAllowed(Empty(order), ops)
    requires Run(Empty(order), ops).code.pages.Keys <= {page}
    ensures var h := Run(Empty(order), ops);
            && Ring(h.code.blocks, h.free)
            && (forall a :: a in h.free ==> BothWays(h.code.blocks, a))
            && HandedOut(Empty(order), ops) + h.free == PageBlocks(page, order) + Returns(ops)
  {
    var h0, h := Empty(order), Run(Empty(order), ops);
    EmptyInv(order);
    OnePageAllGentle(h0, page, ops);
    RingExact(h0, ops);
    forall a | a in h.free ensures BothWays(h.code.blocks, a) {
      var i :| 0 <= i < |h.free| && h.free[i] == a;
      RingWalk(h.code.blocks, h.free, i);
    }
    assert OnePage(h0.free, page);
    HandOutOrder(h0, ops);
    assert ops[0].Alloc?;
    FirstPage(h0, page, ops[0], ops[1..]);
    SuppliedSplit(h0, ops);
    assert SuppliedBy(h0, Alloc(page)) == PageBlocks(page, order);
  }
}
