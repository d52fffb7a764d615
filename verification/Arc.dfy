/**
 The reference-counting protocol of `Arc` and `Weak`.

 One control block holds two atomic counters. Every operation is cut into the single atomic
 operations it performs, and any number of threads run their operations interleaved in any order.
 Handles are named by natural numbers; an operation that takes `&self` borrows its handle, so the
 handle cannot be dropped until the operation is over, but any number of operations may borrow
 the same handle at once.
 */
module ArcProtocol {
  import opened Collections

  type Thread = nat
  type Handle = nat

  /** Where a thread is inside an operation; a thread not in the map is outside all of them. */
  datatype Pc =
    | Cloning(source: Handle)                   // `all` is up, `strong` not yet
    | Upgrading(source: Handle, current: nat)   // holds the strong count it read last
    | Bumped(source: Handle)                    // `strong` is up, `all` not yet
    | MustDrop                                  // took `strong` from 1 to 0, data not yet touched
    | Dropping                                  // inside the destructor of the data
    | Releasing                                 // `strong` is down, `all` not yet
    | MustFree                                  // took `all` from 1 to 0

  /** The program point alone, without what the thread holds there. */
  datatype Point = AtCloning | AtUpgrading | AtBumped | AtMustDrop | AtDropping | AtReleasing | AtMustFree

  function PointOf(p: Pc): Point {
    match p
    case Cloning(_) => AtCloning
    case Upgrading(_, _) => AtUpgrading
    case Bumped(_) => AtBumped
    case MustDrop => AtMustDrop
    case Dropping => AtDropping
    case Releasing => AtReleasing
    case MustFree => AtMustFree
  }

  /** The control block, the live handles, the threads, and a count of what was done to the block. */
  datatype State = State(
    strong: int,
    all: int,
    arcs: set<Handle>,
    weaks: set<Handle>,
    threads: map<Thread, Pc>,
    dropStarts: nat,
    dropEnds: nat,
    frees: nat)

  datatype Action =
    | CloneAll(t: Thread, h: Handle)
    | CloneStrong(t: Thread, fresh': Handle)
    | Downgrade(t: Thread, h: Handle, fresh': Handle)
    | CloneWeak(t: Thread, h: Handle, fresh': Handle)
    | UpgradeLoad(t: Thread, h: Handle)
    | UpgradeExchange(t: Thread)
    | UpgradeAll(t: Thread, fresh': Handle)
    | Deref(t: Thread, h: Handle)
    | DropArc(t: Thread, h: Handle)
    | DropBegin(t: Thread)
    | DropEnd(t: Thread)
    | Release(t: Thread)
    | DropWeak(t: Thread, h: Handle)
    | Free(t: Thread)

  function Init(h: Handle): State {
    State(1, 1, {h}, {}, map[], 0, 0, 0)
  }

  predicate Borrows(p: Pc, h: Handle) {
    (p.Cloning? || p.Upgrading? || p.Bumped?) && p.source == h
  }

  predicate Borrowed(s: State, h: Handle) {
    exists t :: t in s.threads && Borrows(s.threads[t], h)
  }

  predicate Unused(s: State, h: Handle) {
    h !in s.arcs && h !in s.weaks
  }

  predicate Enabled(s: State, a: Action) {
    match a
    case CloneAll(t, h) => t !in s.threads && h in s.arcs
    case CloneStrong(t, n) => t in s.threads && s.threads[t].Cloning? && Unused(s, n)
    case Downgrade(t, h, n) => t !in s.threads && h in s.arcs && Unused(s, n)
    case CloneWeak(t, h, n) => t !in s.threads && h in s.weaks && Unused(s, n)
    case UpgradeLoad(t, h) => t !in s.threads && h in s.weaks
    case UpgradeExchange(t) => t in s.threads && s.threads[t].Upgrading?
    case UpgradeAll(t, n) => t in s.threads && s.threads[t].Bumped? && Unused(s, n)
    case Deref(t, h) => t !in s.threads && h in s.arcs
    case DropArc(t, h) => t !in s.threads && h in s.arcs && !Borrowed(s, h)
    case DropBegin(t) => t in s.threads && s.threads[t].MustDrop?
    case DropEnd(t) => t in s.threads && s.threads[t].Dropping?
    case Release(t) => t in s.threads && s.threads[t].Releasing?
    case DropWeak(t, h) => t !in s.threads && h in s.weaks && !Borrowed(s, h)
    case Free(t) => t in s.threads && s.threads[t].MustFree?
  }

  /** `all_ref_count.fetch_sub(1)`: the thread that saw 1 must free the block. */
  function ReleaseOne(s: State, t: Thread): State {
    s.(all := s.all - 1, threads := if s.all == 1 then s.threads[t := MustFree] else s.threads - {t})
  }

  /** Continue an upgrade with the strong count it has just read; zero means it returns `None`. */
  function WithCurrent(s: State, t: Thread, h: Handle): State {
    if s.strong <= 0 then s.(threads := s.threads - {t})
    else s.(threads := s.threads[t := Upgrading(h, s.strong)])
  }

  function Next(s: State, a: Action): State
    requires Enabled(s, a)
  {
    match a
    case CloneAll(t, h) => s.(all := s.all + 1, threads := s.threads[t := Cloning(h)])
    case CloneStrong(t, n) => s.(strong := s.strong + 1, arcs := s.arcs + {n}, threads := s.threads - {t})
    case Downgrade(t, h, n) => s.(all := s.all + 1, weaks := s.weaks + {n})
    case CloneWeak(t, h, n) => s.(all := s.all + 1, weaks := s.weaks + {n})
    case UpgradeLoad(t, h) => WithCurrent(s, t, h)
    case UpgradeExchange(t) =>
      var p := s.threads[t];
      if s.strong == p.current then s.(strong := s.strong + 1, threads := s.threads[t := Bumped(p.source)])
      else WithCurrent(s, t, p.source)
    case UpgradeAll(t, n) => s.(all := s.all + 1, arcs := s.arcs + {n}, threads := s.threads - {t})
    case Deref(t, h) => s
    case DropArc(t, h) =>
      s.(strong := s.strong - 1, arcs := s.arcs - {h},
         threads := s.threads[t := if s.strong == 1 then MustDrop else Releasing])
    case DropBegin(t) => s.(dropStarts := s.dropStarts + 1, threads := s.threads[t := Dropping])
    case DropEnd(t) => s.(dropEnds := s.dropEnds + 1, threads := s.threads[t := Releasing])
    case Release(t) => ReleaseOne(s, t)
    case DropWeak(t, h) => ReleaseOne(s.(weaks := s.weaks - {h}), t)
    case Free(t) => s.(frees := s.frees + 1, threads := s.threads - {t})
  }

  /** An action that is not possible in the current state is skipped, so that every sequence of
      actions is a schedule. */
  function Step(s: State, a: Action): State {
    if Enabled(s, a) then Next(s, a) else s
  }

  function Run(s: State, actions: seq<Action>): State
    decreases |actions|
  {
    if actions == [] then s else Run(Step(s, actions[0]), actions[1..])
  }

  // ---------------------------------------------------------------- the invariant

  predicate IsAt(s: State, t: Thread, p: Point) {
    t in s.threads && PointOf(s.threads[t]) == p
  }

  /** The threads at a program point. */
  ghost function At(s: State, p: Point): set<Thread> {
    set t | t in s.threads && IsAt(s, t, p)
  }

  ghost function Count(s: State, p: Point): nat {
    |At(s, p)|
  }

  /** Every live strong handle and every half-finished upgrade is counted once in `strong`. */
  ghost predicate CountsStrong(s: State) {
    s.strong == |s.arcs| + Count(s, AtBumped)
  }

  /** The thread stands for one unit of `all` that no handle stands for. */
  predicate OwnsUnit(s: State, t: Thread) {
    t in s.threads && var p := s.threads[t]; p.Cloning? || p.MustDrop? || p.Dropping? || p.Releasing?
  }

  ghost function UnitOwners(s: State): set<Thread> {
    set t | t in s.threads && OwnsUnit(s, t)
  }

  /** Every live handle, half-finished clone and half-finished drop is counted once in `all`. */
  ghost predicate CountsAll(s: State) {
    s.all == |s.arcs| + |s.weaks| + |UnitOwners(s)|
  }

  ghost predicate BorrowsLive(s: State) {
    forall t :: t in s.threads ==>
      && (s.threads[t].Cloning? ==> s.threads[t].source in s.arcs)
      && (s.threads[t].Upgrading? ==> s.threads[t].source in s.weaks && s.threads[t].current > 0)
      && (s.threads[t].Bumped? ==> s.threads[t].source in s.weaks)
  }

  /** The destructor is owed, running or done exactly when the strong count is zero. */
  ghost predicate DropLedger(s: State) {
    && Count(s, AtMustDrop) + s.dropStarts == (if s.strong == 0 then 1 else 0)
    && Count(s, AtDropping) + s.dropEnds == s.dropStarts
  }

  /** The free is owed or done exactly when the total count is zero. */
  ghost predicate FreeLedger(s: State) {
    Count(s, AtMustFree) + s.frees == (if s.all == 0 then 1 else 0)
  }

  ghost predicate Inv(s: State) {
    && CountsStrong(s) && CountsAll(s) && BorrowsLive(s)
    && DropLedger(s) && FreeLedger(s)
  }

  /** Only thread `t` is elsewhere in `s'`. */
  ghost predicate OnlyMoves(s: State, s': State, t: Thread) {
    forall u :: u != t ==>
      && (u in s.threads <==> u in s'.threads)
      && (u in s.threads ==> s.threads[u] == s'.threads[u])
  }

  lemma CountChanges(s: State, s': State, t: Thread, p: Point)
    requires OnlyMoves(s, s', t)
    ensures Count(s', p) == Count(s, p) - One(IsAt(s, t, p)) + One(IsAt(s', t, p))
  {
    forall u | u != t ensures u in At(s, p) <==> u in At(s', p) {
    }
    DifferInOne(At(s, p), At(s', p), t);
  }

  lemma StepKeepsBorrows(s: State, a: Action)
    requires Enabled(s, a) && BorrowsLive(s)
    ensures BorrowsLive(Next(s, a))
  {
    if a.DropArc? || a.DropWeak? {
      assert forall t :: t in s.threads ==> !Borrows(s.threads[t], a.h);
    }
  }

  lemma StepMoves(s: State, a: Action)
    requires Enabled(s, a)
    ensures OnlyMoves(s, Next(s, a), a.t)
  {
  }

  /** A clone or upgrade that ends adds one strong handle, and a drop begins by removing one. */
  lemma ArcsChange(s: State, a: Action)
    requires Enabled(s, a)
    ensures |Next(s, a).arcs| == |s.arcs| + One(a.CloneStrong? || a.UpgradeAll?) - One(a.DropArc?)
  {
  }

  lemma WeaksChange(s: State, a: Action)
    requires Enabled(s, a)
    ensures |Next(s, a).weaks| == |s.weaks| + One(a.Downgrade? || a.CloneWeak?) - One(a.DropWeak?)
  {
  }

  lemma StepKeepsStrong(s: State, a: Action)
    requires Enabled(s, a) && CountsStrong(s)
    ensures CountsStrong(Next(s, a))
  {
    StepMoves(s, a);
    CountChanges(s, Next(s, a), a.t, AtBumped);
    ArcsChange(s, a);
    StrongChange(s, a, Next(s, a));
  }

  /** The strong count changes as the strong handles and the half-finished upgrades do. */
  lemma StrongChange(s: State, a: Action, s': State)
    requires Enabled(s, a) && s' == Next(s, a)
    ensures s'.strong - s.strong == One(a.CloneStrong? || a.UpgradeAll?) - One(a.DropArc?)
                                    + One(IsAt(s', a.t, AtBumped)) - One(IsAt(s, a.t, AtBumped))
  {
  }

  lemma OwnersChange(s: State, s': State, t: Thread)
    requires OnlyMoves(s, s', t)
    ensures |UnitOwners(s')| == |UnitOwners(s)| - One(OwnsUnit(s, t)) + One(OwnsUnit(s', t))
  {
    forall u | u != t ensures u in UnitOwners(s) <==> u in UnitOwners(s') {
    }
    DifferInOne(UnitOwners(s), UnitOwners(s'), t);
  }

  lemma StepKeepsAll(s: State, a: Action)
    requires Enabled(s, a) && CountsAll(s)
    ensures CountsAll(Next(s, a))
  {
    var s' := Next(s, a);
    StepMoves(s, a);
    OwnersChange(s, s', a.t);
    ArcsChange(s, a);
    WeaksChange(s, a);
    AllChange(s, a, s');
  }

  /** The total count changes as the handles and the unfinished operations do. */
  lemma AllChange(s: State, a: Action, s': State)
    requires Enabled(s, a) && s' == Next(s, a)
    ensures s'.all - s.all == One(a.CloneStrong? || a.UpgradeAll?) - One(a.DropArc?)
                              + One(a.Downgrade? || a.CloneWeak?) - One(a.DropWeak?)
                              + One(OwnsUnit(s', a.t)) - One(OwnsUnit(s, a.t))
  {
  }

  lemma StepKeepsDropLedger(s: State, a: Action)
    requires Enabled(s, a) && Inv(s)
    ensures DropLedger(Next(s, a))
  {
    var s' := Next(s, a);
    StepMoves(s, a);
    CountChanges(s, s', a.t, AtMustDrop);
    CountChanges(s, s', a.t, AtDropping);
    DropPoints(s, a, s');
    StrongStaysZero(s, a, s');
  }

  /** The drop that brings the strong count to zero owes the destructor, which begins and ends later. */
  lemma DropPoints(s: State, a: Action, s': State)
    requires Enabled(s, a) && s' == Next(s, a)
    ensures One(IsAt(s', a.t, AtMustDrop)) - One(IsAt(s, a.t, AtMustDrop))
            == One(a.DropArc? && s.strong == 1) - One(a.DropBegin?)
    ensures One(IsAt(s', a.t, AtDropping)) - One(IsAt(s, a.t, AtDropping)) == One(a.DropBegin?) - One(a.DropEnd?)
    ensures s'.dropStarts == s.dropStarts + One(a.DropBegin?) && s'.dropEnds == s.dropEnds + One(a.DropEnd?)
  {
  }

  /** Only a drop reaches zero, and nothing leaves it. */
  lemma StrongStaysZero(s: State, a: Action, s': State)
    requires Enabled(s, a) && s' == Next(s, a) && BorrowsLive(s) && CountsStrong(s)
    ensures s'.strong == 0 <==> s.strong == 0 || (a.DropArc? && s.strong == 1)
  {
    assert a.CloneStrong? ==> s.threads[a.t].source in s.arcs;
  }

  lemma StepKeepsFreeLedger(s: State, a: Action)
    requires Enabled(s, a) && Inv(s)
    ensures FreeLedger(Next(s, a))
  {
    StepMoves(s, a);
    CountChanges(s, Next(s, a), a.t, AtMustFree);
    assert a.UpgradeAll? ==> s.threads[a.t].source in s.weaks;
    assert a.Release? ==> a.t in UnitOwners(s);
  }

  lemma StepInv(s: State, a: Action)
    requires Inv(s)
    ensures Inv(Step(s, a))
  {
    if Enabled(s, a) {
      StepKeepsBorrows(s, a);
      StepKeepsStrong(s, a);
      StepKeepsAll(s, a);
      StepKeepsDropLedger(s, a);
      StepKeepsFreeLedger(s, a);
    }
  }

  lemma {:induction false} RunInv(s: State, actions: seq<Action>)
    requires Inv(s)
    ensures Inv(Run(s, actions))
    decreases |actions|
  {
    if actions == [] {
    } else {
      StepInv(s, actions[0]);
      RunInv(Step(s, actions[0]), actions[1..]);
    }
  }

  // ---------------------------------------------------------------- what every schedule satisfies

  /** The data is dropped at most once, and the drop has begun or is owed exactly when the strong
      count has reached zero. The block is freed at most once, and only after the drop has ended. */
  lemma DroppedThenFreedOnce(h: Handle, actions: seq<Action>)
    ensures var s := Run(Init(h), actions);
            && s.dropEnds <= s.dropStarts <= 1
            && s.frees <= 1
            && (s.dropStarts == 1 ==> s.strong == 0)
            && (s.frees == 1 ==> s.dropEnds == 1)
            && (s.strong == 0 ==> s.dropStarts == 1 || exists t :: t in s.threads && s.threads[t] == MustDrop)
  {
    var s := Run(Init(h), actions);
    RunInv(Init(h), actions);
    if s.frees == 1 { FreedMeansQuiet(s); }
    if s.strong == 0 && s.dropStarts == 0 {
      var t :| t in At(s, AtMustDrop);
      assert s.threads[t] == MustDrop;
    }
  }

  /** Once the block is freed there is no handle left and no thread is inside an operation. */
  lemma FreedMeansQuiet(s: State)
    requires Inv(s) && s.frees == 1
    ensures s.arcs == {} && s.weaks == {} && s.threads == map[] && s.strong == 0 && s.dropEnds == 1
  {
    assert s.all == 0;
    assert UnitOwners(s) == {} && At(s, AtMustFree) == {};
    forall t ensures t !in s.threads {
      assert t !in UnitOwners(s) && t !in At(s, AtMustFree);
    }
    assert At(s, AtBumped) == {} && At(s, AtMustDrop) == {} && At(s, AtDropping) == {};
  }

  /** No step of any operation is possible on a freed block, so nothing ever touches it again. */
  lemma NothingTouchesFreedBlock(h: Handle, actions: seq<Action>, a: Action)
    requires Run(Init(h), actions).frees == 1
    ensures !Enabled(Run(Init(h), actions), a)
  {
    var s := Run(Init(h), actions);
    RunInv(Init(h), actions);
    FreedMeansQuiet(s);
    assert a.t !in s.threads;
  }

  /** Whoever can reach the data finds it alive: no destructor has begun while a strong handle exists. */
  lemma DataAliveWhileHeld(h: Handle, actions: seq<Action>, held: Handle)
    requires held in Run(Init(h), actions).arcs
    ensures Run(Init(h), actions).dropStarts == 0 && Run(Init(h), actions).frees == 0
  {
    RunInv(Init(h), actions);
  }

  /** A dead count stays dead: no continuation produces a strong handle again. */
  lemma {:induction false} NoUpgradeAfterZero(s: State, actions: seq<Action>)
    requires Inv(s) && s.strong == 0
    ensures Run(s, actions).arcs == {} && Run(s, actions).strong == 0
    ensures forall t :: t in Run(s, actions).threads ==> !Run(s, actions).threads[t].Bumped?
    decreases |actions|
  {
    if actions == [] {
      assert s.arcs == {} && At(s, AtBumped) == {};
      forall t | t in s.threads ensures !s.threads[t].Bumped? {
        assert t !in At(s, AtBumped);
      }
    } else {
      StepInv(s, actions[0]);
      NoUpgradeAfterZero(Step(s, actions[0]), actions[1..]);
    }
  }

  /** Nothing leaks: when the last handle is gone and every operation has finished, the data has
      been dropped and the block freed, each exactly once. */
  lemma NothingLeaks(h: Handle, actions: seq<Action>)
    ensures var s := Run(Init(h), actions);
            s.arcs == {} && s.weaks == {} && s.threads == map[] ==> s.dropEnds == 1 && s.frees == 1
  {
    var s := Run(Init(h), actions);
    RunInv(Init(h), actions);
    if s.arcs == {} && s.weaks == {} && s.threads == map[] {
      assert UnitOwners(s) == {} && At(s, AtBumped) == {} && At(s, AtMustDrop) == {};
      assert At(s, AtDropping) == {} && At(s, AtMustFree) == {};
    }
  }
}
