/** A size class of the heap as the kernel changes it: links and headers written in place. */
module HeapAllocation {
  import opened Collections
  import opened HeapRing

  class SizeClass {
    var order: nat
    var freeObjects: nat
    var ptrToFirst: Addr
    var blocks: map<Addr, Block>
    var pages: map<Addr, Header>

    function Value(): Class
      reads this
    {
      Class(order, freeObjects, ptrToFirst, blocks, pages)
    }

    constructor (order: nat)
      requires IsOrder(order)
      ensures Value() == Empty(order).code
    {
      this.order := order;
      freeObjects, ptrToFirst, blocks, pages := 0, 0, map[], map[];
    }

    /** Thread the blocks of a fresh page into a ring. */
    method Populate(page: Addr)
      requires IsOrder(order)
      modifies this`blocks
      ensures blocks == Populated(old(blocks), page, order)
    {
      var size := Size(order);
      ghost var chain := PageBlocks(page, order);
      PageChain(page, order, chain, size);
      Thread(page + FirstOffset(order), page + 4096 - size, size, chain);
    }

    /** Link every block to its neighbours in memory, then close the circle. */
    method Thread(first: Addr, last: Addr, size: nat, ghost chain: seq<Addr>)
      requires IsChain(chain, size, first, last)
      modifies this`blocks
      ensures blocks == Threaded(old(blocks), chain, size, first, last)
    {
      LinkNeighbours(first, last, size, chain);
      assert first in Elements(chain) && last in Elements(chain);
      blocks := blocks[first := blocks[first].(prev := last)];
      blocks := blocks[last := blocks[last].(next := first)];
    }

    method LinkNeighbours(first: Addr, last: Addr, size: nat, ghost chain: seq<Addr>)
      requires IsChain(chain, size, first, last)
      modifies this`blocks
      ensures blocks.Keys == old(blocks).Keys + Elements(chain)
      ensures forall a :: a in blocks ==>
        blocks[a] == if a in chain then Block(if a >= size then a - size else 0, a + size) else old(blocks)[a]
    {
      var i := first;
      ghost var k := 0;
      while i < last + size
        invariant 0 <= k <= |chain|
        invariant i == (if k < |chain| then chain[k] else last + size)
        invariant blocks.Keys == old(blocks).Keys + Elements(chain[..k])
        invariant forall a :: a in blocks ==>
          blocks[a] == if a in chain[..k] then Block(if a >= size then a - size else 0, a + size) else old(blocks)[a]
        decreases |chain| - k
      {
        blocks := blocks[i := Block(if i >= size then i - size else 0, i + size)];
        assert chain[..k + 1] == chain[..k] + [chain[k]];
        assert Adjacent(chain, size, k + 1);
        i := i + size;
        k := k + 1;
      }
      assert chain[..k] == chain;
    }

    method AddPage(page: Addr)
      requires IsOrder(order)
      modifies this
      ensures Value() == NewPage(old(Value()), page)
    {
      var first := page + FirstOffset(order);
      Populate(page);
      pages := pages[page := Header(0, MaxBlocks(order), first, page + 4096 - Size(order))];
      freeObjects := MaxBlocks(order);
      ptrToFirst := first;
    }

    /** Hand out the first free block; `newPage` is the page the class gets if it has none left. */
    method Allocate(newPage: Addr) returns (a: Addr)
      requires IsOrder(order)
      modifies this
      ensures (Value(), a) == HeapRing.Allocate(old(Value()), newPage)
    {
      if freeObjects == 0 { AddPage(newPage); }
      Layout(order);
      a := UnlinkFirst();
    }

    method UnlinkFirst() returns (a: Addr)
      requires freeObjects > 0
      modifies this
      ensures Value() == TakeFirst(old(Value())) && a == old(ptrToFirst)
    {
      a := ptrToFirst;
      var page, block := PageOf(a), Read(blocks, a);
      var header := ReadHeader(pages, page);
      header := header.(allocations := header.allocations + 1);
      freeObjects := freeObjects - 1;
      if header.allocations < header.max {
        header := header.(first := block.next);
      }
      pages := pages[page := header];
      if freeObjects > 0 {
        ptrToFirst := block.next;
        blocks := blocks[block.prev := Read(blocks, block.prev).(next := block.next)];
        blocks := blocks[block.next := Read(blocks, block.next).(prev := block.prev)];
      }
    }

    method Deallocate(a: Addr)
      modifies this
      ensures Value() == HeapRing.Deallocate(old(Value()), a)
    {
      var page := PageOf(a);
      var header := ReadHeader(pages, page);
      var noEmptyCells, fullFrame := freeObjects == 0, header.max == header.allocations;
      if noEmptyCells {
        ptrToFirst := a;
        blocks := blocks[a := Block(a, a)];
        pages := pages[page := header.(first := a, last := a, allocations := OneLess(header.allocations))];
        freeObjects := freeObjects + 1;
        return;
      }
      var last, past;
      if fullFrame {
        past := ptrToFirst;
        last := Read(blocks, past).prev;
      } else {
        last := header.last;
        past := Read(blocks, last).next;
      }
      freeObjects := freeObjects + 1;
      blocks := blocks[a := Block(header.last, Read(blocks, last).next)];
      blocks := blocks[last := Read(blocks, last).(next := a)];
      blocks := blocks[past := Read(blocks, past).(prev := a)];
      pages := pages[page := header.(allocations := OneLess(header.allocations), last := a)];
    }
  }
}
