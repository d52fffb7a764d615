/** The allocator of virtual address ranges, as the object that is updated in place. */
module AreaAllocator {
  import opened Collections
  import opened AreaAllocation

  /** What a set ordered by address is: no two areas start at the same page. */
  ghost predicate OnePerStart(s: set<Area>) {
    forall a, b :: a in s && b in s && a.start == b.start ==> a == b
  }

  method FirstFit(s: set<Area>, n: nat) returns (r: Option<Area>)
    ensures r == BestFit(s, n)
  {
    if x :| x in s && x.n >= n {
      BestFitExists(s, n, x);
      var a :| a in s && IsBestFit(s, n, a);
      return Some(a);
    }
    return None;
  }

  method FindStart(s: set<Area>, p: nat) returns (r: Option<Area>)
    requires OnePerStart(s)
    ensures r == StartingAt(s, p)
  {
    if a :| a in s && a.start == p { return Some(a); }
    return None;
  }

  method FindLast(s: set<Area>, p: nat) returns (r: Option<Area>)
    requires OnePerStart(s)
    ensures r == LastBefore(s, p)
  {
    if x :| x in s && x.start < p {
      LastBeforeExists(s, p, x);
      var a :| a in s && IsLastBefore(s, p, a);
      return Some(a);
    }
    return None;
  }

  method Without(s: set<Area>, e: Area) returns (s': set<Area>)
    ensures s' == Remove(s, {e})
  {
    s' := set b | b in s && b.start != e.start;
  }

  method With(s: set<Area>, a: Area) returns (s': set<Area>)
    requires OnePerStart(s)
    ensures s' == Insert(s, a) && OnePerStart(s')
  {
    var taken := FindStart(s, a.start);
    s' := if taken.Some? then s else s + {a};
  }

  /** Looking for the area in front after the area behind has been removed finds the same area. */
  lemma PrevAfterNext(s: set<Area>, a: Area, s1: set<Area>)
    requires OnePerStart(s) && s1 == (if Next(s, a).Some? then Remove(s, {Next(s, a).value}) else s)
    ensures OnePerStart(s1) && LastBefore(s1, a.start) == LastBefore(s, a.start)
  {
    var x, y := LastBefore(s, a.start), LastBefore(s1, a.start);
    if x.Some? { assert x.value in s1; }
  }

  lemma RemovedBoth(s: set<Area>, a: Area, s1: set<Area>, s2: set<Area>)
    requires s1 == (if Next(s, a).Some? then Remove(s, {Next(s, a).value}) else s)
    requires s2 == (if Prev(s, a).Some? then Remove(s1, {Prev(s, a).value}) else s1)
    ensures s2 == Remove(s, Neighbours(s, a))
  {
  }

  /** Takes the neighbours of an area out of a set and joins them to the area. */
  method MergeNeighbours(s: set<Area>, a: Area) returns (s': set<Area>, m: Area, gone: set<Area>)
    requires OnePerStart(s)
    ensures OnePerStart(s') && s' == Remove(s, Neighbours(s, a)) && m == Merged(s, a) && gone == Neighbours(s, a)
  {
    s', m, gone := s, a, {};
    var next := FindStart(s', a.End());
    if next.Some? {
      m, gone := Area(m.start, m.n + next.value.n), {next.value};
      s' := Without(s', next.value);
    }
    ghost var s1 := s';
    PrevAfterNext(s, a, s1);
    var prev := FindLast(s', a.start);
    if prev.Some? && prev.value.End() == a.start {
      m, gone := Area(prev.value.start, m.n + prev.value.n), gone + {prev.value};
      s' := Without(s', prev.value);
    }
    RemovedBoth(s, a, s1, s');
  }

  class AllocationInfo {
    var freeBySize: set<Area>
    var freeByAddr: set<Area>
    var used: set<Area>

    ghost function Value(): Info reads this { Info(freeBySize, freeByAddr, used) }

    ghost predicate Valid() reads this { OnePerStart(freeByAddr) && OnePerStart(used) }

    constructor (free: set<Area>)
      requires OnePerStart(free)
      ensures Valid() && Value() == Info(free, free, {})
    {
      freeBySize, freeByAddr, used := free, free, {};
    }

    method AllocateArea(n: nat, merge: bool) returns (r: Option<nat>)
      requires Valid()
      modifies this
      ensures Valid() && (Value(), r) == AreaAllocation.AllocateArea(old(Value()), n, merge)
    {
      var entry := FirstFit(freeBySize, n);
      if entry.None? { return None; }
      var e := entry.value;
      freeBySize := freeBySize - {e};
      freeByAddr := Without(freeByAddr, e);
      var rest := Area(e.start + n, e.n - n);
      if rest.n > 0 {
        freeByAddr := With(freeByAddr, rest);
        freeBySize := freeBySize + {rest};
      }
      AddUsed(Area(e.start, n), merge);
      return Some(e.start);
    }

    method AddUsed(a: Area, merge: bool)
      requires Valid()
      modifies this`used
      ensures Valid()
      ensures used == if merge then Insert(Remove(old(used), Neighbours(old(used), a)), Merged(old(used), a))
                      else Insert(old(used), a)
    {
      var m := a;
      if merge {
        var gone;
        used, m, gone := MergeNeighbours(used, a);
      }
      used := With(used, m);
    }

    method FreeArea(page: nat, count: Option<nat>)
      requires Valid()
      modifies this
      ensures Valid() && Value() == AreaAllocation.FreeArea(old(Value()), page, count)
    {
      var entry := FindEnclosing(page);
      if entry.None? { return; }
      var e := entry.value;
      var n := Amount(e, page, count);
      Release(e, Area(page, n));
    }

    method Amount(e: Area, page: nat, count: Option<nat>) returns (n: nat)
      requires e.Covers(page)
      ensures n == Count(e, page, count) && page + n <= e.End()
    {
      var left := e.End() - page;
      n := if count.Some? && count.value < left then count.value else left;
    }

    method FindEnclosing(page: nat) returns (r: Option<Area>)
      requires Valid()
      ensures r == Enclosing(Value(), page) && (r.Some? ==> r.value.Covers(page))
    {
      var entry := FindLast(used, page + 1);
      return if entry.None? || entry.value.End() <= page then None else entry;
    }

    method Release(e: Area, a: Area)
      requires Valid() && e.start <= a.start && a.End() <= e.End()
      modifies this
      ensures Valid() && Value() == AreaAllocation.Release(old(Value()), e, a)
    {
      CutUsed(e, a);
      AddFree(a);
    }

    method AddFree(a: Area)
      requires Valid()
      modifies this`freeBySize, this`freeByAddr
      ensures Valid()
      ensures freeBySize == old(freeBySize) - Neighbours(old(freeByAddr), a) + {Merged(old(freeByAddr), a)}
      ensures freeByAddr == Insert(Remove(old(freeByAddr), Neighbours(old(freeByAddr), a)), Merged(old(freeByAddr), a))
    {
      var m, gone;
      freeByAddr, m, gone := MergeNeighbours(freeByAddr, a);
      freeBySize := freeBySize - gone;
      freeByAddr := With(freeByAddr, m);
      freeBySize := freeBySize + {m};
    }

    method CutUsed(e: Area, a: Area)
      requires Valid() && e.start <= a.start && a.End() <= e.End()
      modifies this`used
      ensures Valid() && used == Kept(old(used), e, a)
    {
      used := Without(used, e);
      var front := (a.start - e.start) / 0x1000;
      var after := e.n - front - a.n;
      if front > 0 { used := With(used, Area(e.start, front)); }
      if after > 0 { used := With(used, Area(a.End(), after)); }
    }
  }
}
