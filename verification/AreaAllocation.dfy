/**
 The allocator of virtual address ranges: free areas indexed by size and by address, and used areas.

 Areas are ranges of page numbers. The three collections are ordered sets; what matters of their
 order is what the code asks of them: the least free area that is large enough, by size and then
 by address; the area that starts at a page; and the last area before a page. The two sets ordered
 by address hold at most one area per start page.
 */
module AreaAllocation {
  import opened Collections

  datatype Area = Area(start: nat, n: nat) {
    function End(): nat { start + n }
    predicate Covers(p: nat) { start <= p < start + n }
  }

  datatype Info = Info(freeBySize: set<Area>, freeByAddr: set<Area>, used: set<Area>)

  /** The comparison of two used areas' flags: six bits taken from below a shift by 48. */
  function FlagsOf(inner: bv64): bv64 { (inner << 48) & 0x3F }

  /** Those bits are always zero, so any two areas compare equal, whatever their flags. */
  lemma FlagsCompareEqual(a: bv64, b: bv64)
    ensures FlagsOf(a) == FlagsOf(b) == 0
  {
  }

  // ---------------------------------------------------------------- ordered sets

  predicate IsBestFit(s: set<Area>, n: nat, a: Area) {
    && a in s && a.n >= n
    && forall b :: b in s && b.n >= n ==> a.n < b.n || (a.n == b.n && a.start <= b.start)
  }

  lemma {:induction false} BestFitExists(s: set<Area>, n: nat, x: Area)
    requires x in s && x.n >= n
    ensures exists a :: IsBestFit(s, n, a)
    decreases |s|
  {
    if !IsBestFit(s, n, x) {
      var b :| b in s && b.n >= n && !(x.n < b.n || (x.n == b.n && x.start <= b.start));
      BestFitExists(s - {x}, n, b);
      var a :| IsBestFit(s - {x}, n, a);
      assert IsBestFit(s, n, a);
    }
  }

  /** The first area at or above `n` pages in the order by size and address. */
  ghost function BestFit(s: set<Area>, n: nat): (r: Option<Area>)
    ensures r.Some? ==> IsBestFit(s, n, r.value)
    ensures r.None? ==> forall a :: a in s ==> a.n < n
  {
    if x :| x in s && x.n >= n then
      BestFitExists(s, n, x);
      var a :| IsBestFit(s, n, a);
      Some(a)
    else None
  }

  predicate IsLastBefore(s: set<Area>, p: nat, a: Area) {
    a in s && a.start < p && forall b :: b in s && b.start < p ==> b.start <= a.start
  }

  lemma {:induction false} LastBeforeExists(s: set<Area>, p: nat, x: Area)
    requires x in s && x.start < p
    ensures exists a :: IsLastBefore(s, p, a)
    decreases |s|
  {
    if !IsLastBefore(s, p, x) {
      var b :| b in s && b.start < p && b.start > x.start;
      LastBeforeExists(s - {x}, p, b);
      var a :| IsLastBefore(s - {x}, p, a);
      assert IsLastBefore(s, p, a);
    }
  }

  /** The last area that starts before page `p`. */
  ghost function LastBefore(s: set<Area>, p: nat): (r: Option<Area>)
    ensures r.Some? ==> IsLastBefore(s, p, r.value)
    ensures r.None? ==> forall a :: a in s ==> a.start >= p
  {
    if x :| x in s && x.start < p then
      LastBeforeExists(s, p, x);
      var a :| IsLastBefore(s, p, a);
      Some(a)
    else None
  }

  /** The area that starts at page `p`. */
  ghost function StartingAt(s: set<Area>, p: nat): (r: Option<Area>)
    ensures r.Some? ==> r.value in s && r.value.start == p
    ensures r.None? ==> forall a :: a in s ==> a.start != p
  {
    if a :| a in s && a.start == p then Some(a) else None
  }

  /** Insertion into a set ordered by address does nothing if the start page is taken. */
  ghost function Insert(s: set<Area>, a: Area): set<Area> {
    if StartingAt(s, a.start).Some? then s else s + {a}
  }

  /** Removal from a set ordered by address goes by the start page. */
  ghost function Remove(s: set<Area>, gone: set<Area>): set<Area> {
    set b | b in s && forall g :: g in gone ==> b.start != g.start
  }

  // ---------------------------------------------------------------- the operations, on values

  /** The neighbours of an area: the one that starts where it ends, and the one that ends where it starts. */
  ghost function Next(s: set<Area>, a: Area): Option<Area> { StartingAt(s, a.End()) }

  ghost function Prev(s: set<Area>, a: Area): Option<Area> {
    var x := LastBefore(s, a.start);
    if x.Some? && x.value.End() == a.start then x else None
  }

  ghost function Neighbours(s: set<Area>, a: Area): set<Area> {
    (if Next(s, a).Some? then {Next(s, a).value} else {}) + (if Prev(s, a).Some? then {Prev(s, a).value} else {})
  }

  /** The area together with its neighbours. */
  ghost function Merged(s: set<Area>, a: Area): Area {
    var n := a.n + (if Next(s, a).Some? then Next(s, a).value.n else 0);
    if Prev(s, a).Some? then Area(Prev(s, a).value.start, n + Prev(s, a).value.n) else Area(a.start, n)
  }

  ghost function AllocateArea(i: Info, n: nat, merge: bool): (Info, Option<nat>) {
    var fit := BestFit(i.freeBySize, n);
    if fit.None? then (i, None)
    else
      var e := fit.value;
      var rest := Area(e.start + n, e.n - n);
      var bySize := i.freeBySize - {e};
      var byAddr := Remove(i.freeByAddr, {e});
      var a := Area(e.start, n);
      (Info(if rest.n > 0 then bySize + {rest} else bySize,
            if rest.n > 0 then Insert(byAddr, rest) else byAddr,
            if merge then Insert(Remove(i.used, Neighbours(i.used, a)), Merged(i.used, a)) else Insert(i.used, a)),
       Some(e.start))
  }

  /** The used area that is freed from, if the page is in one. */
  ghost function Enclosing(i: Info, page: nat): Option<Area> {
    var e := LastBefore(i.used, page + 1);
    if e.Some? && page < e.value.End() then e else None
  }

  /** How many pages a call gives back: those it names, up to the end of the area. */
  ghost function Count(e: Area, page: nat, count: Option<nat>): nat
    requires e.Covers(page)
  {
    if count.Some? && count.value < e.End() - page then count.value else e.End() - page
  }

  ghost function FreeArea(i: Info, page: nat, count: Option<nat>): Info {
    if Enclosing(i, page).None? then i
    else
      var e := Enclosing(i, page).value;
      Release(i, e, Area(page, Count(e, page, count)))
  }

  ghost function Release(i: Info, e: Area, a: Area): Info
    requires e.start <= a.start && a.End() <= e.End()
  {
    var gone, m := Neighbours(i.freeByAddr, a), Merged(i.freeByAddr, a);
    Info(i.freeBySize - gone + {m}, Insert(Remove(i.freeByAddr, gone), m), Kept(i.used, e, a))
  }

  /** How many pages are kept in front of a freed part. The difference of page numbers is divided by
      the page size once more, so these are far fewer than there are. */
  function Front(e: Area, a: Area): nat
    requires e.start <= a.start
  {
    (a.start - e.start) / 0x1000
  }

  /** The used areas without the freed part of one of them. */
  ghost function Kept(used: set<Area>, e: Area, a: Area): set<Area>
    requires e.start <= a.start && a.End() <= e.End()
  {
    var front := Front(e, a);
    var after := e.n - front - a.n;
    var rest := Remove(used, {e});
    var rest' := if front > 0 then Insert(rest, Area(e.start, front)) else rest;
    if after > 0 then Insert(rest', Area(a.End(), after)) else rest'
  }

  // ---------------------------------------------------------------- the invariant

  /** The areas are not empty and do not overlap. */
  ghost predicate Apart(s: set<Area>) {
    && (forall a :: a in s ==> a.n > 0)
    && (forall a, b :: a in s && b in s && a != b ==> a.End() <= b.start || b.End() <= a.start)
  }

  /** No two areas touch: whatever could be merged has been merged. */
  ghost predicate Coalesced(s: set<Area>) {
    forall a, b :: a in s && b in s && a != b ==> a.End() < b.start || b.End() < a.start
  }

  ghost predicate ApartFrom(s: set<Area>, a: Area) {
    forall b :: b in s ==> a.End() <= b.start || b.End() <= a.start
  }

  ghost predicate Has(s: set<Area>, p: nat) {
    exists a :: a in s && a.Covers(p)
  }

  /** The two indexes hold the same free areas; free and used areas are apart, no page is both, and
      free areas are merged as far as they can be. */
  ghost predicate Inv(i: Info) {
    && i.freeBySize == i.freeByAddr
    && Apart(i.freeByAddr) && Coalesced(i.freeByAddr)
    && Apart(i.used)
    && forall p :: !(Has(i.freeByAddr, p) && Has(i.used, p))
  }

  /** Exactly these pages have moved from free to used, or back. */
  ghost predicate Moved(from: set<Area>, from': set<Area>, to: set<Area>, to': set<Area>, a: Area) {
    forall p :: && (Has(from', p) <==> Has(from, p) && !a.Covers(p))
                && (Has(to', p) <==> Has(to, p) || a.Covers(p))
  }

  // ---------------------------------------------------------------- merging

  lemma RestWithoutNeighbours(s: set<Area>, a: Area, gone: set<Area>)
    requires Apart(s) && gone <= s
    ensures Remove(s, gone) == s - gone
  {
    forall b | b in s && b !in gone ensures b in Remove(s, gone) {
      forall g | g in gone ensures b.start != g.start { assert g in s && g != b; }
    }
  }

  /** The merged area covers the area and its neighbours. */
  lemma MergedCovers(s: set<Area>, a: Area, m: Area, gone: set<Area>, p: nat)
    requires Apart(s) && ApartFrom(s, a) && a.n > 0 && m == Merged(s, a) && gone == Neighbours(s, a)
    ensures m.n > 0 && gone <= s && (m.Covers(p) <==> a.Covers(p) || Has(gone, p))
  {
    var next, prev := Next(s, a), Prev(s, a);
    assert next.Some? ==> next.value in gone;
    assert prev.Some? ==> prev.value in gone;
    if Has(gone, p) {
      var g :| g in gone && g.Covers(p);
      assert (next.Some? && g == next.value) || (prev.Some? && g == prev.value);
    }
    assert next.Some? && next.value.Covers(p) ==> Has(gone, p);
    assert prev.Some? && prev.value.Covers(p) ==> Has(gone, p);
  }

  /** What is not a neighbour stays apart from the merged area, and does not touch it if nothing
      touched anything before. */
  lemma NotNeighbour(s: set<Area>, a: Area, m: Area, b: Area)
    requires Apart(s) && ApartFrom(s, a) && a.n > 0 && m == Merged(s, a)
    requires b in s && b !in Neighbours(s, a)
    ensures m.End() <= b.start || b.End() <= m.start
    ensures Coalesced(s) ==> m.End() < b.start || b.End() < m.start
  {
    var next, prev := Next(s, a), Prev(s, a);
    assert a.End() <= b.start || b.End() <= a.start;
    if next.Some? { assert next.value in s; }
    if prev.Some? { assert prev.value in s; }
  }

  lemma MergedShape(s: set<Area>, a: Area, s': set<Area>, m: Area, gone: set<Area>)
    requires Apart(s) && ApartFrom(s, a) && a.n > 0 && m == Merged(s, a) && gone == Neighbours(s, a)
    requires s' == Insert(Remove(s, gone), m)
    ensures gone <= s && m.n > 0 && s' == s - gone + {m}
    ensures forall b :: b in s - gone ==> m.End() <= b.start || b.End() <= m.start
    ensures Coalesced(s) ==> forall b :: b in s - gone ==> m.End() < b.start || b.End() < m.start
  {
    MergedCovers(s, a, m, gone, 0);
    RestWithoutNeighbours(s, a, gone);
    forall b | b in s - gone
      ensures m.End() <= b.start || b.End() <= m.start
      ensures Coalesced(s) ==> m.End() < b.start || b.End() < m.start
    {
      NotNeighbour(s, a, m, b);
    }
  }

  lemma ReplacedPages(s: set<Area>, s': set<Area>, gone: set<Area>, m: Area, a: Area, p: nat)
    requires gone <= s && s' == s - gone + {m} && (m.Covers(p) <==> a.Covers(p) || Has(gone, p))
    ensures Has(s', p) <==> Has(s, p) || a.Covers(p)
  {
    if Has(s, p) {
      var b :| b in s && b.Covers(p);
      if b in gone { assert m in s' && m.Covers(p); } else { assert b in s'; }
    }
    if Has(s', p) {
      var b :| b in s' && b.Covers(p);
      if b != m {
        assert b in s;
      } else if !a.Covers(p) {
        var g :| g in gone && g.Covers(p);
        assert g in s;
      }
    }
    if a.Covers(p) { assert m in s' && m.Covers(p); }
  }

  lemma StaysApart(s: set<Area>, s': set<Area>, gone: set<Area>, m: Area)
    requires Apart(s) && m.n > 0 && s' == s - gone + {m}
    requires forall b :: b in s - gone ==> m.End() <= b.start || b.End() <= m.start
    ensures Apart(s')
  {
  }

  lemma StaysCoalesced(s: set<Area>, s': set<Area>, gone: set<Area>, m: Area)
    requires Coalesced(s) && s' == s - gone + {m}
    requires forall b :: b in s - gone ==> m.End() < b.start || b.End() < m.start
    ensures Coalesced(s')
  {
  }

  /** Merging an area into a set it does not overlap adds its pages and keeps the areas apart, and
      keeps them from touching if none touched before. */
  lemma MergeIn(s: set<Area>, a: Area, s': set<Area>, m: Area, gone: set<Area>)
    requires Apart(s) && ApartFrom(s, a) && a.n > 0 && m == Merged(s, a) && gone == Neighbours(s, a)
    requires s' == Insert(Remove(s, gone), m)
    ensures gone <= s && s' == s - gone + {m} && Apart(s') && (Coalesced(s) ==> Coalesced(s'))
    ensures forall p :: Has(s', p) <==> Has(s, p) || a.Covers(p)
  {
    MergedShape(s, a, s', m, gone);
    StaysApart(s, s', gone, m);
    if Coalesced(s) { StaysCoalesced(s, s', gone, m); }
    MergePages(s, a, s', m, gone);
  }

  lemma MergePages(s: set<Area>, a: Area, s': set<Area>, m: Area, gone: set<Area>)
    requires Apart(s) && ApartFrom(s, a) && a.n > 0 && m == Merged(s, a) && gone == Neighbours(s, a)
    requires gone <= s && s' == s - gone + {m}
    ensures forall p :: Has(s', p) <==> Has(s, p) || a.Covers(p)
  {
    forall p ensures Has(s', p) <==> Has(s, p) || a.Covers(p) {
      MergedCovers(s, a, m, gone, p);
      ReplacedPages(s, s', gone, m, a, p);
    }
  }

  // ---------------------------------------------------------------- what the operations do

  /** An area whose pages no area of the set has is apart from them all. */
  lemma ApartByPages(s: set<Area>, a: Area)
    requires Apart(s) && a.n > 0 && forall p :: a.Covers(p) ==> !Has(s, p)
    ensures ApartFrom(s, a)
  {
    forall b | b in s ensures a.End() <= b.start || b.End() <= a.start {
      var p := if a.start < b.start then b.start else a.start;
      if b.Covers(p) { assert Has(s, p); }
    }
  }

  /** The set with one area replaced by what is left of it. */
  ghost function CutTo(s: set<Area>, e: Area, rest: Area): set<Area> {
    if rest.n > 0 then s - {e} + {rest} else s - {e}
  }

  lemma CutPages(s: set<Area>, e: Area, rest: Area, a: Area, s': set<Area>)
    requires Apart(s) && e in s && e.start == a.start && e.n == a.n + rest.n && rest.start == a.End()
    requires s' == CutTo(s, e, rest)
    ensures Apart(s') && (Coalesced(s) ==> Coalesced(s'))
    ensures forall p :: Has(s', p) <==> Has(s, p) && !a.Covers(p)
  {
    forall p ensures Has(s', p) <==> Has(s, p) && !a.Covers(p) {
      CutPage(s, e, rest, a, s', p);
    }
  }

  lemma CutPage(s: set<Area>, e: Area, rest: Area, a: Area, s': set<Area>, p: nat)
    requires Apart(s) && e in s && e.start == a.start && e.n == a.n + rest.n && rest.start == a.End()
    requires s' == CutTo(s, e, rest)
    ensures Has(s', p) <==> Has(s, p) && !a.Covers(p)
  {
    if Has(s', p) {
      var b :| b in s' && b.Covers(p);
      if b == rest && rest.n > 0 { assert e.Covers(p); } else { assert b in s && b != e; }
    }
    if Has(s, p) && !a.Covers(p) {
      var b :| b in s && b.Covers(p);
      if b == e { assert rest in s' && rest.Covers(p); } else { assert b in s'; }
    }
  }

  lemma RemoveOne(s: set<Area>, e: Area)
    requires Apart(s) && e in s
    ensures Remove(s, {e}) == s - {e}
  {
    RestWithoutNeighbours(s, e, {e});
  }

  lemma FreeSideOfAllocate(s: set<Area>, e: Area, n: nat, s': set<Area>)
    requires Apart(s) && e in s && 0 < n <= e.n
    requires var rest := Area(e.start + n, e.n - n);
             s' == if rest.n > 0 then Insert(Remove(s, {e}), rest) else Remove(s, {e})
    ensures s' == CutTo(s, e, Area(e.start + n, e.n - n))
  {
    RemoveOne(s, e);
    if e.n > n {
      assert forall b :: b in s - {e} ==> b.start != e.start + n;
    }
  }

  lemma UsedSideOfAllocate(used: set<Area>, a: Area, merge: bool, used': set<Area>)
    requires Apart(used) && ApartFrom(used, a) && a.n > 0
    requires used' == if merge then Insert(Remove(used, Neighbours(used, a)), Merged(used, a)) else Insert(used, a)
    ensures Apart(used') && forall p :: Has(used', p) <==> Has(used, p) || a.Covers(p)
  {
    if merge {
      MergeIn(used, a, used', Merged(used, a), Neighbours(used, a));
    } else {
      assert used' == used - {} + {a};
      StaysApart(used, used', {}, a);
      forall p ensures Has(used', p) <==> Has(used, p) || a.Covers(p) {
        ReplacedPages(used, used', {}, a, a, p);
      }
    }
  }

  /** Allocation is best-fit with the lowest address on ties, fails only when no free area is large
      enough, moves exactly the pages it returns from free to used, and keeps the invariant. */
  lemma AllocateKeeps(i: Info, n: nat, merge: bool)
    requires Inv(i) && n > 0
    ensures var (i', r) := AllocateArea(i, n, merge);
            && (r.None? <==> forall a :: a in i.freeByAddr ==> a.n < n)
            && (r.None? ==> i' == i)
            && (r.Some? ==>
                  && Inv(i')
                  && (exists e :: IsBestFit(i.freeByAddr, n, e) && e.start == r.value)
                  && Moved(i.freeByAddr, i'.freeByAddr, i.used, i'.used, Area(r.value, n)))
  {
    var (i', r) := AllocateArea(i, n, merge);
    if r.Some? {
      var e := BestFit(i.freeBySize, n).value;
      var a, rest := Area(e.start, n), Area(e.start + n, e.n - n);
      FreeSideOfAllocate(i.freeByAddr, e, n, i'.freeByAddr);
      CutPages(i.freeByAddr, e, rest, a, i'.freeByAddr);
      forall p | a.Covers(p) ensures !Has(i.used, p) { assert e.Covers(p); }
      ApartByPages(i.used, a);
      UsedSideOfAllocate(i.used, a, merge, i'.used);
    }
  }

  /** The pages a call gives back. */
  ghost function Freed(i: Info, page: nat, count: Option<nat>): Area
    requires Enclosing(i, page).Some?
  {
    Area(page, Count(Enclosing(i, page).value, page, count))
  }

  /** These are the pages from the one named on, as many as are named, that lie in the used area; all of
      them if no number is named. */
  lemma FreedPages(i: Info, page: nat, count: Option<nat>, p: nat)
    requires Enclosing(i, page).Some?
    ensures Freed(i, page, count).Covers(p) <==>
            Enclosing(i, page).value.Covers(p) && page <= p && (count.Some? ==> p < page + count.value)
  {
  }

  /** The used area is the one that has the page. */
  lemma EnclosingExact(i: Info, page: nat, e: Area)
    requires Apart(i.used)
    ensures Enclosing(i, page) == Some(e) <==> e in i.used && e.Covers(page)
    ensures Enclosing(i, page).None? <==> !Has(i.used, page)
  {
    var x := LastBefore(i.used, page + 1);
    if x.Some? && page < x.value.End() { assert x.value in i.used && x.value.Covers(page); }
    forall b | b in i.used && b.Covers(page) ensures Enclosing(i, page) == Some(b) { EnclosingIs(i, b, page); }
  }

  lemma FreeSideOfFree(i: Info, page: nat, count: Option<nat>, i': Info, e: Area, a: Area)
    requires Inv(i) && i' == FreeArea(i, page, count) && Enclosing(i, page) == Some(e) && a == Freed(i, page, count)
    requires count != Some(0)
    ensures i'.freeBySize == i'.freeByAddr && Apart(i'.freeByAddr) && Coalesced(i'.freeByAddr)
    ensures forall p :: Has(i'.freeByAddr, p) <==> Has(i.freeByAddr, p) || a.Covers(p)
  {
    forall p | a.Covers(p) ensures !Has(i.freeByAddr, p) { assert e in i.used && e.Covers(p); }
    ApartByPages(i.freeByAddr, a);
    MergeIn(i.freeByAddr, a, i'.freeByAddr, Merged(i.freeByAddr, a), Neighbours(i.freeByAddr, a));
  }

  /** A call at the start of a used area moves exactly the pages it names from used to free, up to
      the end of the area, and keeps the invariant; the freed pages are merged with what is free
      on either side. A call outside all used areas does nothing. */
  lemma FreeKeeps(i: Info, page: nat, count: Option<nat>)
    requires Inv(i) && count != Some(0)
    requires Enclosing(i, page).Some? ==> Enclosing(i, page).value.start == page
    ensures var i', e := FreeArea(i, page, count), Enclosing(i, page);
            && Inv(i')
            && (e.None? ==> i' == i)
            && (e.Some? ==> Moved(i.used, i'.used, i.freeByAddr, i'.freeByAddr, Freed(i, page, count)))
  {
    if Enclosing(i, page).Some? {
      var i', e, a := FreeArea(i, page, count), Enclosing(i, page).value, Freed(i, page, count);
      FreeSideOfFree(i, page, count, i', e, a);
      UsedSideOfFree(i.used, e, a, i'.used);
    }
  }

  lemma UsedSideOfFree(used: set<Area>, e: Area, a: Area, used': set<Area>)
    requires Apart(used) && e in used && e.start == a.start && 0 < a.n <= e.n && used' == Kept(used, e, a)
    ensures Apart(used') && forall p :: Has(used', p) <==> Has(used, p) && !a.Covers(p)
  {
    FreeSideOfAllocate(used, e, a.n, used');
    CutPages(used, e, Area(a.End(), e.n - a.n), a, used');
  }

  /** Pages in front of the freed part that are dropped. */
  predicate Dropped(e: Area, a: Area, p: nat)
    requires e.start <= a.start
  {
    e.start + Front(e, a) <= p < a.start
  }

  /** As many pages behind the area, which are recorded in their place. */
  predicate Behind(e: Area, a: Area, p: nat)
    requires e.start <= a.start
  {
    e.End() <= p < e.End() + (a.start - e.start) - Front(e, a)
  }

  lemma KeptIs(used: set<Area>, e: Area, a: Area, used': set<Area>)
    requires Apart(used) && e in used && e.start < a.start && a.End() <= e.End() && used' == Kept(used, e, a)
    ensures var front := Front(e, a);
            && front < a.start - e.start
            && (StartingAt(used, a.End()).Some? ==> a.End() == e.End())
            && used' == used - {e} + (if front > 0 then {Area(e.start, front)} else {})
                        + (if StartingAt(used, a.End()).None? then {Area(a.End(), e.n - front - a.n)} else {})
  {
    RemoveOne(used, e);
    assert forall b :: b in used - {e} ==> b.start != e.start;
    var next := StartingAt(used, a.End());
    if next.Some? { assert next.value in used && next.value != e; }
  }

  /** What a freed part that does not start its area does to the used pages, exactly: the pages in front
      of it are dropped but for one in 4096, and as many pages behind the area are recorded as used,
      unless a used area starts right behind the freed part. */
  lemma InteriorFree(used: set<Area>, e: Area, a: Area, used': set<Area>, p: nat)
    requires Apart(used) && e in used && e.start < a.start && a.End() <= e.End() && used' == Kept(used, e, a)
    ensures Has(used', p) <==> || (Has(used, p) && !a.Covers(p) && !Dropped(e, a, p))
                               || (StartingAt(used, a.End()).None? && Behind(e, a, p))
  {
    KeptIs(used, e, a, used');
    var front := Area(e.start, Front(e, a));
    var back := Area(a.End(), e.n - Front(e, a) - a.n);
    var none := StartingAt(used, a.End()).None?;
    assert front.Covers(p) ==> front in used';
    assert none ==> back in used';
    assert Has(used', p) <==> Has(used - {e}, p) || front.Covers(p) || (none && back.Covers(p)) by {
      forall b | b in used - {e} && b.Covers(p) ensures Has(used', p) { assert b in used'; }
    }
    assert Has(used, p) <==> Has(used - {e}, p) || e.Covers(p) by {
      forall b | b in used && b.Covers(p) ensures Has(used - {e}, p) || e.Covers(p) { assert b != e ==> b in used - {e}; }
    }
    assert e.Covers(p) ==> !Has(used - {e}, p);
  }

  /** So the page behind what is kept in front is lost. */
  lemma PageLost(used: set<Area>, e: Area, a: Area, used': set<Area>) returns (lost: nat)
    requires Apart(used) && e in used && e.start < a.start && a.End() <= e.End() && used' == Kept(used, e, a)
    ensures Has(used, lost) && !a.Covers(lost) && !Has(used', lost)
  {
    lost := e.start + Front(e, a);
    assert e.Covers(lost);
    InteriorFree(used, e, a, used', lost);
  }

  /** And used and free areas overlap afterwards if and only if one of the pages recorded behind the area
      was free. */
  lemma OverlapExact(i: Info, page: nat, count: Option<nat>, i': Info, e: Area, a: Area)
    requires Inv(i) && i' == FreeArea(i, page, count) && Enclosing(i, page) == Some(e) && a == Freed(i, page, count)
    requires e.start < page && count != Some(0)
    ensures (exists p :: Has(i'.freeByAddr, p) && Has(i'.used, p)) <==>
            StartingAt(i.used, a.End()).None? && exists p :: Behind(e, a, p) && Has(i.freeByAddr, p)
  {
    FreeSideOfFree(i, page, count, i', e, a);
    forall p ensures Has(i'.freeByAddr, p) && Has(i'.used, p)
                     <==> StartingAt(i.used, a.End()).None? && Behind(e, a, p) && Has(i.freeByAddr, p) {
      InteriorFree(i.used, e, a, i'.used, p);
    }
    if exists p :: Behind(e, a, p) && Has(i.freeByAddr, p) {
      var p :| Behind(e, a, p) && Has(i.freeByAddr, p);
    }
  }

  /** The pages that are given back, and no others, move from used to free. */
  ghost predicate FreesExactly(i: Info, page: nat, count: Option<nat>)
    requires Enclosing(i, page).Some?
  {
    var i' := FreeArea(i, page, count);
    Moved(i.used, i'.used, i.freeByAddr, i'.freeByAddr, Freed(i, page, count))
  }

  /** The condition is exact: a call moves exactly its pages if and only if it is made at the start
      of the used area. */
  lemma FreeExact(i: Info, page: nat, count: Option<nat>)
    requires Inv(i) && Enclosing(i, page).Some?
    ensures FreesExactly(i, page, count) <==> Enclosing(i, page).value.start == page
  {
    var e, i' := Enclosing(i, page).value, FreeArea(i, page, count);
    if e.start == page && count == Some(0) {
      EmptyFreeExact(i, page, e, i');
    } else if e.start == page {
      FreeKeeps(i, page, count);
    } else {
      var lost := PageLost(i.used, e, Freed(i, page, count), i'.used);
    }
  }

  // ---------------------------------------------------------------- whole runs

  datatype Op = Allocate(n: nat, merge: bool) | Free(page: nat, count: Option<nat>)

  /** Requests are for at least one page; a page that is freed is outside the used areas or starts one. */
  ghost predicate Allowed(i: Info, op: Op) {
    match op
    case Allocate(n, _) => n > 0
    case Free(page, count) =>
      count != Some(0) && (Enclosing(i, page).Some? ==> Enclosing(i, page).value.start == page)
  }

  ghost function Step(i: Info, op: Op): Info {
    match op
    case Allocate(n, merge) => AllocateArea(i, n, merge).0
    case Free(page, count) => FreeArea(i, page, count)
  }

  ghost function Run(i: Info, ops: seq<Op>): Info
    decreases |ops|
  {
    if ops == [] then i else Run(Step(i, ops[0]), ops[1..])
  }

  ghost predicate AllAllowed(i: Info, ops: seq<Op>)
    decreases |ops|
  {
    ops != [] ==> Allowed(i, ops[0]) && AllAllowed(Step(i, ops[0]), ops[1..])
  }

  /** After any allowed run the indexes agree, the areas are apart and merged, and free and used
      areas together still cover exactly the pages there were at the start. */
  lemma {:induction false} RunKeeps(i: Info, ops: seq<Op>)
    requires Inv(i) && AllAllowed(i, ops)
    ensures var i' := Run(i, ops);
            Inv(i') && forall p :: Has(i'.freeByAddr, p) || Has(i'.used, p) <==> Has(i.freeByAddr, p) || Has(i.used, p)
    decreases |ops|
  {
    if ops == [] {
    } else {
      var i1 := Step(i, ops[0]);
      StepKeeps(i, ops[0], i1);
      RunKeeps(i1, ops[1..]);
    }
  }

  lemma StepKeeps(i: Info, op: Op, i': Info)
    requires Inv(i) && Allowed(i, op) && i' == Step(i, op)
    ensures Inv(i') && forall p :: Has(i'.freeByAddr, p) || Has(i'.used, p) <==> Has(i.freeByAddr, p) || Has(i.used, p)
  {
    match op
    case Allocate(n, merge) =>
      AllocateKeeps(i, n, merge);
      var r := AllocateArea(i, n, merge).1;
      if r.Some? {
        var e :| IsBestFit(i.freeByAddr, n, e) && e.start == r.value;
        MovedKeepsAll(i.freeByAddr, i'.freeByAddr, i.used, i'.used, Area(r.value, n), e);
      }
    case Free(page, count) =>
      FreeKeeps(i, page, count);
      if Enclosing(i, page).Some? {
        var e := Enclosing(i, page).value;
        MovedKeepsAll(i.used, i'.used, i.freeByAddr, i'.freeByAddr, Freed(i, page, count), e);
      }
  }

  /** Moving part of an area from one side to the other loses and adds no page. */
  lemma MovedKeepsAll(from: set<Area>, from': set<Area>, to: set<Area>, to': set<Area>, a: Area, e: Area)
    requires Moved(from, from', to, to', a) && e in from && e.start <= a.start && a.End() <= e.End()
    ensures forall p :: Has(from', p) || Has(to', p) <==> Has(from, p) || Has(to, p)
  {
    assert forall p :: a.Covers(p) ==> e.Covers(p);
  }

  // ---------------------------------------------------------------- an ordinary run that fails

  lemma EnclosingIs(i: Info, a: Area, p: nat)
    requires Apart(i.used) && a in i.used && a.Covers(p)
    ensures Enclosing(i, p) == Some(a)
  {
  }

  lemma PrevIs(s: set<Area>, u: Area, a: Area)
    requires Apart(s) && u in s && u.End() == a.start
    ensures Prev(s, a) == Some(u)
  {
  }

  /** A merging request that gets the pages behind a used page is recorded in an area that starts
      before them, whatever the flags of either. */
  lemma MergedWithPrevious(i: Info, n: nat, i': Info, r: nat)
    requires Inv(i) && n > 0 && AllocateArea(i, n, true) == (i', Some(r)) && r > 0 && Has(i.used, r - 1)
    ensures Inv(i') && Enclosing(i', r).Some? && Enclosing(i', r).value.start < r
  {
    AllocateKeeps(i, n, true);
    var u := EndsThere(i, n, r);
    var a := Area(r, n);
    PrevIs(i.used, u, a);
    MergedIsUsed(i, n, i', r, a);
    EnclosingIs(i', Merged(i.used, a), r);
  }

  lemma EndsThere(i: Info, n: nat, r: nat) returns (u: Area)
    requires Inv(i) && n > 0 && r > 0 && Has(i.used, r - 1) && exists e :: IsBestFit(i.freeByAddr, n, e) && e.start == r
    ensures u in i.used && u.n > 0 && u.End() == r
  {
    var e :| IsBestFit(i.freeByAddr, n, e) && e.start == r;
    assert e.Covers(r) && Has(i.freeByAddr, r);
    u :| u in i.used && u.Covers(r - 1);
    assert !Has(i.used, r);
  }

  lemma MergedIsUsed(i: Info, n: nat, i': Info, r: nat, a: Area)
    requires Inv(i) && n > 0 && AllocateArea(i, n, true) == (i', Some(r)) && a == Area(r, n)
    ensures Merged(i.used, a) in i'.used
  {
    var e := BestFit(i.freeBySize, n).value;
    forall p | a.Covers(p) ensures !Has(i.used, p) { assert e.Covers(p); }
    ApartByPages(i.used, a);
    MergeIn(i.used, a, i'.used, Merged(i.used, a), Neighbours(i.used, a));
  }

  /** Whenever a merging request gets the pages behind a used page, giving them back does not free
      exactly those pages. */
  lemma BehindUsedPage(i: Info, n: nat, i': Info, r: nat)
    requires Inv(i) && n > 0 && AllocateArea(i, n, true) == (i', Some(r)) && r > 0 && Has(i.used, r - 1)
    ensures Enclosing(i', r).Some? && !FreesExactly(i', r, Some(n))
  {
    MergedWithPrevious(i, n, i', r);
    FreeExact(i', r, Some(n));
  }

  /** Two requests for one page each, out of three free pages, come to that. */
  lemma TwoPagesGetMerged(i: Info, i1: Info)
    requires i.used == {} && i.freeByAddr == {Area(0, 3)} && i.freeBySize == i.freeByAddr
    requires i1 == AllocateArea(i, 1, true).0
    ensures Inv(i) && Inv(i1) && Has(i1.used, 0) && AllocateArea(i1, 1, true).1 == Some(1)
  {
    assert Area(0, 3) in i.freeByAddr;
    AllocateKeeps(i, 1, true);
    assert Area(0, 1).Covers(0);
    assert forall p: nat :: Area(0, 3).Covers(p) <==> p < 3;
    FirstOfTwo(i1);
  }

  lemma FirstOfTwo(i: Info)
    requires Inv(i) && forall p: nat :: Has(i.freeByAddr, p) <==> 1 <= p < 3
    ensures AllocateArea(i, 1, true).1 == Some(1)
  {
    assert Has(i.freeByAddr, 1);
    var r := BestFit(i.freeByAddr, 1);
    OneAreaStart(i.freeByAddr, r.value);
  }

  lemma OneAreaStart(s: set<Area>, e: Area)
    requires Apart(s) && Coalesced(s) && forall p: nat :: Has(s, p) <==> 1 <= p < 3
    requires e in s
    ensures e.start == 1
  {
    assert e.Covers(e.start) && Has(s, e.start);
    assert Has(s, 1);
    var b :| b in s && b.Covers(1);
    assert b.Covers(b.start) && Has(s, b.start);
  }

  // ---------------------------------------------------------------- requests for no pages

  /** Merging an empty area where no area starts: it is absorbed by one that ends there, or left as it is. */
  lemma MergeEmpty(s: set<Area>, a: Area, s': set<Area>)
    requires Apart(s) && a.n == 0 && StartingAt(s, a.start).None?
    requires s' == Insert(Remove(s, Neighbours(s, a)), Merged(s, a))
    ensures if Prev(s, a).Some? then s' == s else a in s'
    ensures forall p :: Has(s', p) <==> Has(s, p)
  {
    if Prev(s, a).Some? {
      RemoveOne(s, Prev(s, a).value);
      assert Neighbours(s, a) == {Prev(s, a).value};
    } else {
      assert s' == s + {a};
      forall p | Has(s, p) ensures Has(s', p) { var b :| b in s && b.Covers(p); assert b in s'; }
    }
  }

  lemma KeptWhole(used: set<Area>, e: Area)
    requires Apart(used) && e in used
    ensures Kept(used, e, Area(e.start, 0)) == used
  {
    RemoveOne(used, e);
  }

  lemma FreeStartNotUsed(i: Info, e: Area)
    requires Inv(i) && e in i.freeByAddr
    ensures StartingAt(i.used, e.start).None?
  {
    assert e.Covers(e.start) && Has(i.freeByAddr, e.start);
    var x := StartingAt(i.used, e.start);
    assert x.Some? ==> x.value.Covers(e.start);
    assert x.Some? ==> Has(i.used, e.start);
  }

  /** A request for no pages leaves an empty used area, and so breaks the invariant, unless it is
      merged into a used area that ends where the free area begins. */
  lemma EmptyRequestExact(i: Info, merge: bool, i': Info, r: nat)
    requires Inv(i) && AllocateArea(i, 0, merge) == (i', Some(r))
    ensures Inv(i') <==> merge && Prev(i.used, Area(r, 0)).Some?
  {
    var e := BestFit(i.freeBySize, 0).value;
    FreeStartNotUsed(i, e);
    RemoveOne(i.freeByAddr, e);
    assert i'.freeByAddr == i.freeByAddr && i'.freeBySize == i.freeBySize;
    if merge {
      MergeEmpty(i.used, Area(r, 0), i'.used);
    } else {
      assert Area(r, 0) in i'.used;
    }
  }

  /** Giving back no pages at the start of a used area moves none, but leaves an empty free area, and
      so breaks the invariant, unless a free area ends there. */
  lemma EmptyFreeExact(i: Info, page: nat, e: Area, i': Info)
    requires Inv(i) && Enclosing(i, page) == Some(e) && e.start == page && i' == FreeArea(i, page, Some(0))
    ensures FreesExactly(i, page, Some(0))
    ensures Inv(i') <==> Prev(i.freeByAddr, Area(page, 0)).Some?
  {
    var a := Area(page, 0);
    KeptWhole(i.used, e);
    assert e.Covers(page) && Has(i.used, page);
    var x := StartingAt(i.freeByAddr, page);
    assert x.Some? ==> x.value.Covers(page);
    assert x.Some? ==> Has(i.freeByAddr, page);
    MergeEmpty(i.freeByAddr, a, i'.freeByAddr);
  }
}
