/**
 Whole runs of the physical page allocator: any sequence of requests and returns, what it hands out
 and where it ends. A run is defined on values, as the ranges handed out so far; `Perform` carries it
 out on the bitmap.
 */
module BuddyRuns {
  import opened Collections
  import opened Log2
  import opened BuddyAllocation

  datatype Command = Frame | FrameLow | Contiguous(n: nat) | GiveBack(k: nat)

  /** The largest number of pages a request may name; beyond it the order does not fit. */
  predicate Sane(c: Command) { c.Contiguous? ==> c.n <= 0x8000_0000_0000_0000 }

  /** A range that was handed out: its first page and its number of pages. */
  datatype Allocation = Allocation(page: nat, n: nat)

  function Leaves(first: nat, a: Allocation): set<nat> { Pages(a.page + first, a.n) }

  ghost predicate InRange(first: nat, ranges: seq<Allocation>, j: nat) {
    exists k :: 0 <= k < |ranges| && j in Leaves(first, ranges[k])
  }

  /** The ranges do not overlap one another, and together they are exactly the pages handed out. */
  ghost predicate Outstanding(first: nat, ranges: seq<Allocation>, owned: set<nat>) {
    && (forall j, k :: 0 <= j < k < |ranges| ==> Leaves(first, ranges[j]) !! Leaves(first, ranges[k]))
    && (forall j: nat :: j in owned <==> InRange(first, ranges, j))
  }

  lemma OneMore(first: nat, ranges: seq<Allocation>, owned: set<nat>, owned': set<nat>, a: Allocation, ranges': seq<Allocation>)
    requires Outstanding(first, ranges, owned) && Leaves(first, a) !! owned && ranges' == [a] + ranges
    requires forall j :: j in owned' <==> j in owned || j in Leaves(first, a)
    ensures Outstanding(first, ranges', owned')
  {
    forall j: nat ensures InRange(first, ranges', j) <==> j in Leaves(first, a) || InRange(first, ranges, j) {
      assert ranges'[0] == a;
      if InRange(first, ranges, j) {
        var k :| 0 <= k < |ranges| && j in Leaves(first, ranges[k]);
        assert ranges'[k + 1] == ranges[k];
      }
    }
    forall k | 0 <= k < |ranges| ensures Leaves(first, a) !! Leaves(first, ranges[k]) {
      assert forall j :: j in Leaves(first, ranges[k]) ==> InRange(first, ranges, j);
    }
  }

  lemma OneLess(first: nat, ranges: seq<Allocation>, owned: set<nat>, k: nat, ranges': seq<Allocation>)
    requires Outstanding(first, ranges, owned) && k < |ranges| && ranges' == ranges[..k] + ranges[k + 1..]
    ensures Leaves(first, ranges[k]) <= owned && Outstanding(first, ranges', owned - Leaves(first, ranges[k]))
  {
    assert forall i :: 0 <= i < |ranges'| ==> ranges'[i] == if i < k then ranges[i] else ranges[i + 1];
    forall j: nat ensures InRange(first, ranges', j) <==> InRange(first, ranges, j) && j !in Leaves(first, ranges[k]) {
      InRangeWithout(first, ranges, k, ranges', j);
    }
    forall j | j in Leaves(first, ranges[k]) ensures j in owned { assert InRange(first, ranges, j); }
  }

  lemma InRangeWithout(first: nat, ranges: seq<Allocation>, k: nat, ranges': seq<Allocation>, j: nat)
    requires forall i, i' :: 0 <= i < i' < |ranges| ==> Leaves(first, ranges[i]) !! Leaves(first, ranges[i'])
    requires k < |ranges| && ranges' == ranges[..k] + ranges[k + 1..]
    ensures InRange(first, ranges', j) <==> InRange(first, ranges, j) && j !in Leaves(first, ranges[k])
  {
    if InRange(first, ranges', j) {
      var i :| 0 <= i < |ranges'| && j in Leaves(first, ranges'[i]);
      assert ranges'[i] == ranges[if i < k then i else i + 1];
    }
    if InRange(first, ranges, j) && j !in Leaves(first, ranges[k]) {
      var i :| 0 <= i < |ranges| && j in Leaves(first, ranges[i]);
      assert ranges'[if i < k then i else i - 1] == ranges[i];
    }
  }

  // ---------------------------------------------------------------- which pages a request gets

  /** Scan up from page `i` for a free page. */
  ghost function LowestFree(d: nat, used: set<nat>, i: nat): Option<nat>
    decreases 2 * Pow2(d) - i
  {
    if i >= 2 * Pow2(d) then None else if IsFree(d, used, i) then Some(i) else LowestFree(d, used, i + 1)
  }

  lemma {:induction false} LowestFreeIsLowest(d: nat, used: set<nat>, i: nat, j: nat)
    ensures var r := LowestFree(d, used, i);
            && (r.Some? ==> i <= r.value && IsFree(d, used, r.value))
            && (i <= j && IsFree(d, used, j) ==> r.Some? && r.value <= j)
    decreases 2 * Pow2(d) - i
  {
    if i >= 2 * Pow2(d) || IsFree(d, used, i) {
    } else {
      LowestFreeIsLowest(d, used, i + 1, j);
    }
  }

  lemma BestRunInTree(d: nat, used: set<nat>, n: nat)
    requires n <= 0x8000_0000_0000_0000
    ensures var r := BestRun(d, used, n); r.Some? ==> r.value >= Pow2(d)
  {
    if 0 < n <= Pow2(d) { HighestRunIsHighest(d, used, Pow2(Log2RoundedUp(n)), 2 * Pow2(d), 0); }
  }

  /** The first page of the range that answers a request, or `None` for a panic or an overrun. */
  ghost function Choice(d: nat, used: set<nat>, c: Command): (r: Option<nat>)
    requires !c.GiveBack? && Sane(c)
    ensures r.Some? ==> r.value >= Pow2(d)
  {
    match c
    case Frame =>
      HighestRunIsHighest(d, used, 1, 2 * Pow2(d), 0);
      HighestRun(d, used, 1, 2 * Pow2(d))
    case FrameLow =>
      LowestFreeIsLowest(d, used, 0, 0);
      LowestFree(d, used, 0)
    case Contiguous(n) =>
      BestRunInTree(d, used, n);
      if n > Pow2(d) then None else BestRun(d, used, n)
  }

  function Wanted(c: Command): nat { if c.Contiguous? then c.n else 1 }

  /** Why a request is not answered: no page is free; no free run is long enough and starts at a
      multiple of the length rounded up; or there are not so many pages. */
  ghost predicate Refused(d: nat, used: set<nat>, c: Command)
    requires !c.GiveBack? && Sane(c)
  {
    match c
    case Frame => Full(d, used)
    case FrameLow => Full(d, used)
    case Contiguous(n) => n > Pow2(d) || (n > 0 && NoRun(d, used, Pow2(Log2RoundedUp(n))))
  }

  ghost predicate NoRun(d: nat, used: set<nat>, w: nat)
    requires w > 0
  {
    forall i: nat :: i % w == 0 ==> !FreeRun(d, used, i, w)
  }

  lemma OneIsFree(d: nat, used: set<nat>, i: nat)
    ensures FreeRun(d, used, i, 1) <==> IsFree(d, used, i)
  {
  }

  /** A request is answered with free pages, unless it is refused. */
  lemma ChoiceExact(d: nat, used: set<nat>, c: Command)
    requires !c.GiveBack? && Sane(c)
    ensures var r := Choice(d, used, c);
            (r.None? <==> Refused(d, used, c)) && (r.Some? ==> FreeRun(d, used, r.value, Wanted(c)))
  {
    match c
    case Frame =>
      HighestRunIsHighest(d, used, 1, 2 * Pow2(d), 0);
      forall i: nat ensures IsFree(d, used, i) ==> Choice(d, used, c).Some? {
        HighestRunIsHighest(d, used, 1, 2 * Pow2(d), i);
        OneIsFree(d, used, i);
      }
      if Choice(d, used, c).Some? { OneIsFree(d, used, Choice(d, used, c).value); }
    case FrameLow =>
      forall i: nat ensures IsFree(d, used, i) ==> Choice(d, used, c).Some? { LowestFreeIsLowest(d, used, 0, i); }
      LowestFreeIsLowest(d, used, 0, 0);
    case Contiguous(n) => if 0 < n <= Pow2(d) { RunExact(d, used, n); }
  }

  lemma RunExact(d: nat, used: set<nat>, n: nat)
    requires 0 < n <= 0x8000_0000_0000_0000
    ensures var w := Pow2(Log2RoundedUp(n));
            var r := HighestRun(d, used, w, 2 * Pow2(d));
            (r.None? <==> NoRun(d, used, w)) && (r.Some? ==> FreeRun(d, used, r.value, n))
  {
    var w := Pow2(Log2RoundedUp(n));
    Log2RoundedUpIsCeiling(n, Log2RoundedUp(n));
    HighestRunIsHighest(d, used, w, 2 * Pow2(d), 0);
    forall i: nat ensures i % w == 0 && FreeRun(d, used, i, w) ==> HighestRun(d, used, w, 2 * Pow2(d)).Some? {
      if FreeRun(d, used, i, w) { assert IsFree(d, used, i); }
      HighestRunIsHighest(d, used, w, 2 * Pow2(d), i);
    }
  }

  /** No other choice is better: the page is the highest or the lowest free one, or the run starts at a
      multiple of its length rounded up and is the highest such run. */
  ghost predicate NoneBetter(d: nat, used: set<nat>, c: Command, leaf: nat, i: nat)
    requires !c.GiveBack? && Sane(c)
  {
    match c
    case Frame => IsFree(d, used, i) ==> i <= leaf
    case FrameLow => IsFree(d, used, i) ==> leaf <= i
    case Contiguous(n) =>
      n > 0 ==> var w := Pow2(Log2RoundedUp(n)); leaf % w == 0 && (i % w == 0 && FreeRun(d, used, i, w) ==> i <= leaf)
  }

  lemma ChoiceIsBest(d: nat, used: set<nat>, c: Command, i: nat)
    requires !c.GiveBack? && Sane(c) && Choice(d, used, c).Some?
    ensures NoneBetter(d, used, c, Choice(d, used, c).value, i)
  {
    match c
    case Frame =>
      HighestRunIsHighest(d, used, 1, 2 * Pow2(d), i);
      OneIsFree(d, used, i);
    case FrameLow => LowestFreeIsLowest(d, used, 0, i);
    case Contiguous(n) =>
      if n > 0 {
        var w := Pow2(Log2RoundedUp(n));
        if FreeRun(d, used, i, w) { assert IsFree(d, used, i); }
        HighestRunIsHighest(d, used, w, 2 * Pow2(d), i);
      }
  }

  /** A page that is free with none free above it is the one a request for a frame gets. */
  lemma HighestIsChoice(d: nat, used: set<nat>, leaf: Option<nat>)
    requires leaf.None? <==> Full(d, used)
    requires leaf.Some? ==> IsFree(d, used, leaf.value) && forall i :: leaf.value < i ==> !IsFree(d, used, i)
    ensures leaf == Choice(d, used, Frame)
  {
    forall i: nat ensures FreeRun(d, used, i, 1) <==> IsFree(d, used, i) { OneIsFree(d, used, i); }
    HighestRunUnique(d, used, 1, leaf);
  }

  lemma LowestIsChoice(d: nat, used: set<nat>, leaf: Option<nat>)
    requires leaf.None? <==> Full(d, used)
    requires leaf.Some? ==> IsFree(d, used, leaf.value) && forall i: nat :: i < leaf.value ==> !IsFree(d, used, i)
    ensures leaf == Choice(d, used, FrameLow)
  {
    LowestFreeIsLowest(d, used, 0, if leaf.Some? then leaf.value else 0);
  }

  // ---------------------------------------------------------------- runs on values

  /** The pages of all ranges. */
  ghost function OwnedBy(first: nat, ranges: seq<Allocation>): set<nat> {
    set k, j | 0 <= k < |ranges| && j in Leaves(first, ranges[k]) :: j
  }

  /** The ranges handed out after a command; `None` if it is refused. A range at page 0 cannot be given
      back. */
  ghost function After(d: nat, reserved: set<nat>, ranges: seq<Allocation>, c: Command): Option<seq<Allocation>>
    requires Sane(c)
  {
    if c.GiveBack? then
      Some(if c.k < |ranges| && ranges[c.k].page != 0 then ranges[..c.k] + ranges[c.k + 1..] else ranges)
    else
      match Choice(d, reserved + OwnedBy(Pow2(d), ranges), c)
      case None => None
      case Some(leaf) => Some([Allocation(leaf - Pow2(d), Wanted(c))] + ranges)
  }

  /** The command is a request that is refused. */
  ghost predicate Stops(d: nat, reserved: set<nat>, ranges: seq<Allocation>, c: Command)
    requires Sane(c)
  {
    !c.GiveBack? && Refused(d, reserved + OwnedBy(Pow2(d), ranges), c)
  }

  lemma StopsExact(d: nat, reserved: set<nat>, ranges: seq<Allocation>, c: Command)
    requires Sane(c)
    ensures After(d, reserved, ranges, c).None? <==> Stops(d, reserved, ranges, c)
  {
    if !c.GiveBack? { ChoiceExact(d, reserved + OwnedBy(Pow2(d), ranges), c); }
  }

  /** The number of commands performed before one is refused, and the ranges that are then handed out. */
  ghost function Replay(d: nat, reserved: set<nat>, commands: seq<Command>, i: nat, ranges: seq<Allocation>): (nat, seq<Allocation>)
    requires i <= |commands| && forall k :: 0 <= k < |commands| ==> Sane(commands[k])
    decreases |commands| - i
  {
    if i == |commands| then (i, ranges)
    else
      match After(d, reserved, ranges, commands[i])
      case None => (i, ranges)
      case Some(more) => Replay(d, reserved, commands, i + 1, more)
  }

  // ---------------------------------------------------------------- runs of the allocator

  lemma OwnedIs(first: nat, ranges: seq<Allocation>, owned: set<nat>)
    requires Outstanding(first, ranges, owned)
    ensures owned == OwnedBy(first, ranges)
  {
    forall j: nat ensures j in owned <==> j in OwnedBy(first, ranges) {
      assert j in OwnedBy(first, ranges) <==> InRange(first, ranges, j);
    }
  }

  /** The pages in use after a command: a request adds free pages, none of which is reserved or handed out,
      and a return takes away exactly the pages of the range it names, unless that is at page 0. */
  lemma PagesAfter(d: nat, reserved: set<nat>, ranges: seq<Allocation>, c: Command, owned: set<nat>)
    requires Sane(c) && Outstanding(Pow2(d), ranges, owned) && After(d, reserved, ranges, c).Some?
    ensures var more := After(d, reserved, ranges, c).value;
            if !c.GiveBack? then
              && |more| == |ranges| + 1 && more[1..] == ranges && more[0].n == Wanted(c)
              && Leaves(Pow2(d), more[0]) !! reserved + owned && Outstanding(Pow2(d), more, owned + Leaves(Pow2(d), more[0]))
            else if c.k < |ranges| && ranges[c.k].page != 0 then
              Outstanding(Pow2(d), more, owned - Leaves(Pow2(d), ranges[c.k]))
            else more == ranges
  {
    if c.GiveBack? {
      if c.k < |ranges| { OneLess(Pow2(d), ranges, owned, c.k, ranges[..c.k] + ranges[c.k + 1..]); }
    } else {
      OwnedIs(Pow2(d), ranges, owned);
      ChoiceExact(d, reserved + owned, c);
      AddedRange(d, reserved, ranges, c, owned, After(d, reserved, ranges, c).value);
    }
  }

  lemma AddedRange(d: nat, reserved: set<nat>, ranges: seq<Allocation>, c: Command, owned: set<nat>, more: seq<Allocation>)
    requires !c.GiveBack? && Sane(c) && Outstanding(Pow2(d), ranges, owned)
    requires Choice(d, reserved + owned, c).Some? && FreeRun(d, reserved + owned, Choice(d, reserved + owned, c).value, Wanted(c))
    requires more == [Allocation(Choice(d, reserved + owned, c).value - Pow2(d), Wanted(c))] + ranges
    ensures Leaves(Pow2(d), more[0]) !! reserved + owned && Outstanding(Pow2(d), more, owned + Leaves(Pow2(d), more[0]))
  {
    forall j | j in Leaves(Pow2(d), more[0]) ensures j !in reserved + owned { assert IsFree(d, reserved + owned, j); }
    OneMore(Pow2(d), ranges, owned, owned + Leaves(Pow2(d), more[0]), more[0], more);
  }

  /** The range that answers a request. */
  ghost function Answer(d: nat, used: set<nat>, c: Command): Option<Allocation>
    requires !c.GiveBack? && Sane(c)
  {
    match Choice(d, used, c)
    case None => None
    case Some(leaf) => Some(Allocation(leaf - Pow2(d), Wanted(c)))
  }

  lemma AnswerIs(d: nat, used: set<nat>, c: Command, leaf: nat, addr: nat, a: Allocation)
    requires !c.GiveBack? && Sane(c) && Choice(d, used, c) == Some(leaf) && addr == (leaf - Pow2(d)) * 4096
    requires a == Allocation(addr / 4096, Wanted(c))
    ensures Some(a) == Answer(d, used, c)
  {
    PageAddress(0, leaf - Pow2(d));
  }

  /** A request for contiguous pages; `None` is a panic, or pages marked behind the tree. */
  method GrantContiguous(a: BuddyAllocator, n: nat) returns (r: Option<Allocation>)
    requires a.Valid() && n <= 0x8000_0000_0000_0000
    modifies a`allocatedPages, a`owned, a.tree, a.tree.bytes
    ensures r == Answer(a.depth, old(a.Used()), Contiguous(n))
    ensures r.Some? ==> Granted(a.depth, old(a.owned), a.owned, r.value) && a.Valid()
  {
    ghost var used := a.Used();
    var addr, overrun, leaf := a.AllocateContiguous(n);
    if addr.None? || overrun { return None; }
    r := Some(Allocation(addr.value / 4096, n));
    AnswerIs(a.depth, used, Contiguous(n), leaf.value, addr.value, r.value);
    FreshRange(a.depth, old(a.owned), a.owned, a.reserved, leaf.value, addr.value, r.value);
  }

  /** A request for one page, the highest or the lowest; `None` is a panic. */
  method GrantFrame(a: BuddyAllocator, low: bool) returns (r: Option<Allocation>)
    requires a.Valid()
    modifies a`allocatedPages, a`owned, a.tree, a.tree.bytes
    ensures r == Answer(a.depth, old(a.Used()), if low then FrameLow else Frame)
    ensures r.Some? ==> Granted(a.depth, old(a.owned), a.owned, r.value) && a.Valid()
  {
    ghost var used := a.Used();
    var addr; ghost var leaf;
    if low {
      addr, leaf := a.AllocateFrameLow();
      LowestIsChoice(a.depth, used, leaf);
    } else {
      addr, leaf := a.AllocateFrame();
      HighestIsChoice(a.depth, used, leaf);
    }
    if addr.None? { return None; }
    r := Some(Allocation(addr.value / 4096, 1));
    AnswerIs(a.depth, used, if low then FrameLow else Frame, leaf.value, addr.value, r.value);
    FreshFrame(a.depth, old(a.owned), a.owned, a.reserved, leaf.value, addr.value, r.value);
  }

  lemma FreshFrame(d: nat, owned: set<nat>, owned': set<nat>, reserved: set<nat>, leaf: nat, addr: nat, a: Allocation)
    requires IsFree(d, reserved + owned, leaf) && addr == (leaf - Pow2(d)) * 4096
    requires a == Allocation(addr / 4096, 1) && owned' == owned + {leaf}
    ensures Granted(d, owned, owned', a)
  {
    FreshRange(d, owned, owned', reserved, leaf, addr, a);
  }

  /** Exactly the pages of a range, none of which was in use, have been handed out. */
  ghost predicate Granted(d: nat, owned: set<nat>, owned': set<nat>, a: Allocation) {
    Leaves(Pow2(d), a) !! owned && forall j :: j in owned' <==> j in owned || j in Leaves(Pow2(d), a)
  }

  lemma FreshRange(d: nat, owned: set<nat>, owned': set<nat>, reserved: set<nat>, leaf: nat, addr: nat, a: Allocation)
    requires leaf >= Pow2(d) && addr == (leaf - Pow2(d)) * 4096 && FreeRun(d, reserved + owned, leaf, a.n)
    requires a.page == addr / 4096 && forall j :: j in owned' <==> j in owned || leaf <= j < leaf + a.n
    ensures Granted(d, owned, owned', a)
  {
    PageAddress(0, leaf - Pow2(d));
    forall j | j in Leaves(Pow2(d), a) ensures j !in owned { assert IsFree(d, reserved + owned, j); }
  }

  /** A range that is not at page 0 is given back. */
  method Return(a: BuddyAllocator, range: Allocation)
    requires a.Valid() && range.page != 0 && Leaves(Pow2(a.depth), range) <= a.owned
    modifies a`allocatedPages, a`owned, a.tree, a.tree.bytes
    ensures a.Valid() && a.owned == old(a.owned) - Leaves(Pow2(a.depth), range)
  {
    RangeAtAddress(Pow2(a.depth), range);
    a.Deallocate(range.page * 4096, range.n);
  }

  lemma RangeAtAddress(first: nat, range: Allocation)
    ensures (range.page * 4096) % 4096 == 0 && Pages(range.page * 4096 / 4096 + first, range.n) == Leaves(first, range)
  {
    PageAddress(0, range.page);
  }

  method ReturnNth(a: BuddyAllocator, ranges: seq<Allocation>, k: nat) returns (rest: seq<Allocation>)
    requires a.Valid() && Outstanding(Pow2(a.depth), ranges, a.owned) && k < |ranges| && ranges[k].page != 0
    modifies a`allocatedPages, a`owned, a.tree, a.tree.bytes
    ensures a.Valid() && Outstanding(Pow2(a.depth), rest, a.owned) && rest == ranges[..k] + ranges[k + 1..]
  {
    rest := ranges[..k] + ranges[k + 1..];
    OneLess(Pow2(a.depth), ranges, a.owned, k, rest);
    Return(a, ranges[k]);
  }

  method Request(a: BuddyAllocator, c: Command) returns (r: Option<Allocation>)
    requires a.Valid() && !c.GiveBack? && Sane(c)
    modifies a`allocatedPages, a`owned, a.tree, a.tree.bytes
    ensures r == Answer(a.depth, old(a.Used()), c)
    ensures r.Some? ==> Granted(a.depth, old(a.owned), a.owned, r.value) && a.Valid()
  {
    if c.Contiguous? {
      r := GrantContiguous(a, c.n);
    } else {
      r := GrantFrame(a, c.FrameLow?);
    }
  }

  lemma AfterRequest(d: nat, reserved: set<nat>, ranges: seq<Allocation>, owned: set<nat>, owned': set<nat>, c: Command, r: Option<Allocation>)
    requires !c.GiveBack? && Sane(c) && Outstanding(Pow2(d), ranges, owned) && r == Answer(d, reserved + owned, c)
    requires r.Some? ==> Granted(d, owned, owned', r.value)
    ensures After(d, reserved, ranges, c) == if r.None? then None else Some([r.value] + ranges)
    ensures r.Some? ==> Outstanding(Pow2(d), [r.value] + ranges, owned')
  {
    OwnedIs(Pow2(d), ranges, owned);
    if r.Some? { OneMore(Pow2(d), ranges, owned, owned', r.value, [r.value] + ranges); }
  }

  /** A request on top of the ranges handed out so far. */
  method ServeRequest(a: BuddyAllocator, c: Command, ranges: seq<Allocation>) returns (more: Option<seq<Allocation>>)
    requires a.Valid() && !c.GiveBack? && Sane(c) && Outstanding(Pow2(a.depth), ranges, a.owned)
    modifies a`allocatedPages, a`owned, a.tree, a.tree.bytes
    ensures more == After(a.depth, a.reserved, ranges, c)
    ensures more.Some? ==> a.Valid() && Outstanding(Pow2(a.depth), more.value, a.owned)
  {
    ghost var owned := a.owned;
    var r := Request(a, c);
    AfterRequest(a.depth, a.reserved, ranges, owned, a.owned, c, r);
    more := if r.None? then None else Some([r.value] + ranges);
  }

  method Serve(a: BuddyAllocator, c: Command, ranges: seq<Allocation>) returns (more: Option<seq<Allocation>>)
    requires a.Valid() && Sane(c) && Outstanding(Pow2(a.depth), ranges, a.owned)
    modifies a`allocatedPages, a`owned, a.tree, a.tree.bytes
    ensures more == After(a.depth, a.reserved, ranges, c)
    ensures more.Some? ==> a.Valid() && Outstanding(Pow2(a.depth), more.value, a.owned)
  {
    if !c.GiveBack? {
      more := ServeRequest(a, c, ranges);
    } else if c.k < |ranges| && ranges[c.k].page != 0 {
      var rest := ReturnNth(a, ranges, c.k);
      more := Some(rest);
    } else {
      more := Some(ranges);
    }
  }

  /** Any run of requests and returns: which commands are performed and which ranges are handed out
      then. The ranges do not overlap one another or the reserved pages, and together they are exactly
      the pages counted as allocated. The run ends early only at a request that is refused. */
  method Perform(a: BuddyAllocator, commands: seq<Command>) returns (done: nat, ranges: seq<Allocation>)
    requires a.owned == {} && a.Valid()
    requires forall i :: 0 <= i < |commands| ==> Sane(commands[i])
    modifies a`allocatedPages, a`owned, a.tree, a.tree.bytes
    ensures (done, ranges) == Replay(a.depth, a.reserved, commands, 0, [])
    ensures Outstanding(Pow2(a.depth), ranges, OwnedBy(Pow2(a.depth), ranges))
    ensures OwnedBy(Pow2(a.depth), ranges) !! a.reserved
    ensures done == |commands| ==> a.Valid() && a.owned == OwnedBy(Pow2(a.depth), ranges)
    ensures done < |commands| ==> Stops(a.depth, a.reserved, ranges, commands[done])
  {
    done, ranges := 0, [];
    while done < |commands|
      invariant done <= |commands| && a.Valid() && Outstanding(Pow2(a.depth), ranges, a.owned)
      invariant Replay(a.depth, a.reserved, commands, 0, []) == Replay(a.depth, a.reserved, commands, done, ranges)
    {
      OwnedIs(Pow2(a.depth), ranges, a.owned);
      StopsExact(a.depth, a.reserved, ranges, commands[done]);
      var more := Serve(a, commands[done], ranges);
      if more.None? { return; }
      ranges := more.value;
      done := done + 1;
    }
    OwnedIs(Pow2(a.depth), ranges, a.owned);
  }
}
