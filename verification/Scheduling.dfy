/**
 The process scheduler on values: what its lists hold in every run, and how long a ready process waits.

 A process is registered with its sleeping flag; the three lists hold process numbers. Whether a
 process is put to sleep is decided by the flag when it gives up its processor.
 */
module Scheduling {
  import opened Collections
  import opened Vectors

  type Pid = nat

  datatype Sched = Sched(tasks: map<Pid, bool>, sleeping: seq<Pid>, active: seq<(Pid, nat)>, ready: seq<Pid>)

  const EMPTY := Sched(map[], [], [], [])

  // ---------------------------------------------------------------- the operations

  function Accept(s: Sched, pid: Pid): Sched {
    s.(tasks := s.tasks[pid := false], ready := s.ready + [pid])
  }

  function Wake(s: Sched, pid: Pid): Sched {
    var registered := pid in s.tasks;
    var s1 := if registered then s.(tasks := s.tasks[pid := false]) else s;
    if pid !in s.sleeping then s1
    else
      var s2 := s1.(sleeping := Discard(s.sleeping, pid));
      if registered then s2.(ready := s.ready + [pid]) else Remove(s2, pid)
  }

  function Schedule(s: Sched, cpu: nat): (Sched, Option<Pid>) {
    if s.ready == [] then (s, None)
    else
      var pid := s.ready[0];
      var s1 := s.(ready := s.ready[1..]);
      if pid in s.tasks then (s1.(active := s.active + [(pid, cpu)]), Some(pid)) else (s1, None)
  }

  function Remove(s: Sched, pid: Pid): Sched {
    s.(tasks := s.tasks - {pid}, sleeping := Discard(s.sleeping, pid), ready := Discard(s.ready, pid))
  }

  function Release(s: Sched, pid: Pid): Sched {
    var pos := Position(s.active, pid);
    var s1 := if pos < |s.active| then s.(active := SwapRemove(s.active, pos)) else Remove(s, pid);
    if pid !in s1.tasks then s1
    else if s1.tasks[pid] then s1.(sleeping := s1.sleeping + [pid])
    else s1.(ready := s1.ready + [pid])
  }

  /** A process that is still registered is marked as sleeping. */
  function Mark(s: Sched, pid: Pid): Sched {
    if pid in s.tasks then s.(tasks := s.tasks[pid := true]) else s
  }

  // ---------------------------------------------------------------- runs

  datatype Op =
    | AcceptOp(pid: Pid)
    | WakeOp(pid: Pid)
    | ScheduleOp(cpu: nat)
    | KillOp(pid: Pid)
    | ReleaseOp(pid: Pid)
    | MarkOp(pid: Pid)

  function Step(s: Sched, op: Op): Sched {
    match op
    case AcceptOp(pid) => Accept(s, pid)
    case WakeOp(pid) => Wake(s, pid)
    case ScheduleOp(cpu) => Schedule(s, cpu).0
    case KillOp(pid) => Remove(s, pid)
    case ReleaseOp(pid) => Release(s, pid)
    case MarkOp(pid) => Mark(s, pid)
  }

  predicate Active(s: Sched, pid: Pid) { Lookup(s.active, pid).Some? }

  /** A new process has a number that is not in use, and only a running process is marked as sleeping. */
  predicate Allowed(s: Sched, op: Op) {
    match op
    case AcceptOp(pid) => pid !in s.tasks && !Active(s, pid)
    case MarkOp(pid) => Active(s, pid)
    case _ => true
  }

  function Run(s: Sched, ops: seq<Op>): Sched
    decreases |ops|
  {
    if ops == [] then s else Run(Step(s, ops[0]), ops[1..])
  }

  predicate AllAllowed(s: Sched, ops: seq<Op>)
    decreases |ops|
  {
    ops != [] ==> Allowed(s, ops[0]) && AllAllowed(Step(s, ops[0]), ops[1..])
  }

  // ---------------------------------------------------------------- the invariant

  /** The lists have no duplicates and are pairwise disjoint; a registered process is in one of them;
      a process that is not registered can only be running; the flag is what the list says. */
  ghost predicate Inv(s: Sched) {
    && Distinct(s.sleeping) && Distinct(s.ready) && Unique(s.active)
    && forall pid: Pid :: Placed(s, pid)
  }

  ghost predicate Placed(s: Sched, pid: Pid) {
    && !(pid in s.sleeping && pid in s.ready)
    && !(pid in s.sleeping && Active(s, pid))
    && !(pid in s.ready && Active(s, pid))
    && (pid in s.tasks ==> pid in s.sleeping || pid in s.ready || Active(s, pid))
    && (pid in s.sleeping ==> pid in s.tasks && s.tasks[pid])
    && (pid in s.ready ==> pid in s.tasks && !s.tasks[pid])
  }

  lemma WakeInv(s: Sched, pid: Pid)
    requires Inv(s)
    ensures Inv(Wake(s, pid))
  {
    var s' := Wake(s, pid);
    assert Placed(s, pid);
    if pid in s.sleeping {
      DiscardMembers(s.sleeping, pid);
      PushDistinct(s.ready, pid);
    }
    forall q: Pid ensures Placed(s', q) { assert Placed(s, q); }
  }

  lemma ScheduleInv(s: Sched, cpu: nat)
    requires Inv(s)
    ensures Inv(Schedule(s, cpu).0)
  {
    if s.ready != [] {
      var pid, s' := s.ready[0], Schedule(s, cpu).0;
      assert Placed(s, pid) && pid in s.ready;
      assert forall q :: q in s.ready <==> q == pid || q in s.ready[1..];
      LookupPush(s.active, pid, cpu, pid);
      forall q: Pid ensures Placed(s', q) {
        assert Placed(s, q);
        LookupPush(s.active, pid, cpu, q);
      }
    }
  }

  lemma RemoveInv(s: Sched, pid: Pid)
    requires Inv(s)
    ensures Inv(Remove(s, pid))
  {
    var s' := Remove(s, pid);
    DiscardMembers(s.sleeping, pid);
    DiscardMembers(s.ready, pid);
    forall q: Pid ensures Placed(s', q) { assert Placed(s, q); }
  }

  lemma ReleaseInv(s: Sched, pid: Pid)
    requires Inv(s)
    ensures Inv(Release(s, pid))
  {
    var s', pos := Release(s, pid), Position(s.active, pid);
    assert Placed(s, pid);
    if pos < |s.active| {
      LookupSwapRemove(s.active, pos, pid);
      PushDistinct(s.sleeping, pid);
      PushDistinct(s.ready, pid);
      forall q: Pid ensures Placed(s', q) {
        assert Placed(s, q);
        LookupSwapRemove(s.active, pos, q);
      }
    } else {
      RemoveInv(s, pid);
    }
  }

  lemma StepInv(s: Sched, op: Op)
    requires Inv(s) && Allowed(s, op)
    ensures Inv(Step(s, op))
  {
    match op
    case AcceptOp(pid) =>
      assert Placed(s, pid);
      PushDistinct(s.ready, pid);
      forall q: Pid ensures Placed(Step(s, op), q) { assert Placed(s, q); }
    case WakeOp(pid) => WakeInv(s, pid);
    case ScheduleOp(cpu) => ScheduleInv(s, cpu);
    case KillOp(pid) => RemoveInv(s, pid);
    case ReleaseOp(pid) => ReleaseInv(s, pid);
    case MarkOp(pid) =>
      forall q: Pid ensures Placed(Step(s, op), q) { assert Placed(s, q) && Placed(s, pid); }
  }

  lemma {:induction false} RunInv(s: Sched, ops: seq<Op>)
    requires Inv(s) && AllAllowed(s, ops)
    ensures Inv(Run(s, ops))
    decreases |ops|
  {
    if ops == [] {
    } else {
      StepInv(s, ops[0]);
      RunInv(Step(s, ops[0]), ops[1..]);
    }
  }

  /** In every run from the empty scheduler a registered process is in exactly one list, and a
      process that is in a list without being registered is running and was killed. */
  lemma EveryRun(ops: seq<Op>, pid: Pid)
    requires AllAllowed(EMPTY, ops)
    ensures var s := Run(EMPTY, ops);
            && Distinct(s.sleeping) && Distinct(s.ready) && Unique(s.active)
            && (pid in s.tasks ==> One(pid in s.sleeping) + One(pid in s.ready) + One(Active(s, pid)) == 1)
            && (pid !in s.tasks ==> pid !in s.sleeping && pid !in s.ready)
            && (pid !in s.tasks && Active(s, pid) ==> KillOp(pid) in ops)
  {
    RunInv(EMPTY, ops);
    if KillOp(pid) !in ops { ActiveUnlessKilled(EMPTY, ops, pid); }
    assert Placed(Run(EMPTY, ops), pid);
  }

  /** Only a kill makes a running process one that is not registered. */
  lemma {:induction false} ActiveUnlessKilled(s: Sched, ops: seq<Op>, pid: Pid)
    requires Inv(s) && AllAllowed(s, ops) && (Active(s, pid) ==> pid in s.tasks)
    requires KillOp(pid) !in ops
    ensures var s' := Run(s, ops); Active(s', pid) ==> pid in s'.tasks
    decreases |ops|
  {
    if ops == [] {
    } else {
      StepInv(s, ops[0]);
      assert ops[0] != KillOp(pid) && Placed(s, pid);
      match ops[0] {
        case ScheduleOp(cpu) => if s.ready != [] { LookupPush(s.active, s.ready[0], cpu, pid); }
        case ReleaseOp(q) =>
          if Position(s.active, q) < |s.active| { LookupSwapRemove(s.active, Position(s.active, q), pid); }
        case _ =>
      }
      ActiveUnlessKilled(Step(s, ops[0]), ops[1..], pid);
    }
  }

  // ---------------------------------------------------------------- sleeping and waking

  /** The flag of a running process stays as it is until somebody marks, wakes, kills or releases it. */
  predicate LeavesFlag(ops: seq<Op>, pid: Pid) {
    forall i :: 0 <= i < |ops| ==> ops[i] !in {MarkOp(pid), WakeOp(pid), KillOp(pid), ReleaseOp(pid)}
  }

  lemma {:induction false} FlagKept(s: Sched, ops: seq<Op>, pid: Pid)
    requires Inv(s) && AllAllowed(s, ops) && Active(s, pid) && pid in s.tasks && LeavesFlag(ops, pid)
    ensures var s' := Run(s, ops); Active(s', pid) && pid in s'.tasks && s'.tasks[pid] == s.tasks[pid]
    decreases |ops|
  {
    if ops == [] {
    } else {
      var s' := Step(s, ops[0]);
      StepInv(s, ops[0]);
      assert ops[0] !in {MarkOp(pid), WakeOp(pid), KillOp(pid), ReleaseOp(pid)};
      assert Placed(s, pid);
      match ops[0] {
        case ScheduleOp(cpu) => if s.ready != [] { LookupPush(s.active, s.ready[0], cpu, pid); }
        case ReleaseOp(q) =>
          if Position(s.active, q) < |s.active| { LookupSwapRemove(s.active, Position(s.active, q), pid); }
        case _ =>
      }
      FlagKept(s', ops[1..], pid);
    }
  }

  /** A wake that comes while the process is still running is not lost: when it gives up its
      processor it goes to the end of the ready list, even if it was marked as sleeping before. */
  lemma WakeWhileActive(s: Sched, ops: seq<Op>, pid: Pid)
    requires Inv(s) && Active(s, pid) && pid in s.tasks
    requires AllAllowed(Wake(s, pid), ops) && LeavesFlag(ops, pid)
    ensures var s' := Run(Wake(s, pid), ops);
            Release(s', pid).ready == s'.ready + [pid] && pid !in Release(s', pid).sleeping
  {
    assert Placed(s, pid);
    WakeInv(s, pid);
    FlagKept(Wake(s, pid), ops, pid);
    RunInv(Wake(s, pid), ops);
    assert Placed(Run(Wake(s, pid), ops), pid);
  }

  /** Without a wake the marked process sleeps, and a later wake makes it ready. */
  lemma MarkThenSleep(s: Sched, ops: seq<Op>, pid: Pid)
    requires Inv(s) && Active(s, pid) && pid in s.tasks
    requires AllAllowed(Mark(s, pid), ops) && LeavesFlag(ops, pid)
    ensures var s' := Release(Run(Mark(s, pid), ops), pid);
            pid in s'.sleeping && pid !in s'.ready && pid in Wake(s', pid).ready && pid !in Wake(s', pid).sleeping
  {
    StepInv(s, MarkOp(pid));
    FlagKept(Mark(s, pid), ops, pid);
    var s1 := Run(Mark(s, pid), ops);
    RunInv(Mark(s, pid), ops);
    ReleaseInv(s1, pid);
    var s2 := Release(s1, pid);
    assert Placed(s2, pid);
    WakeInv(s2, pid);
    assert Placed(Wake(s2, pid), pid);
  }

  // ---------------------------------------------------------------- bounded waiting

  datatype Fate = StillReady | Dispatched | Killed

  /** The operation takes a ready process out of the scheduler: it is killed, or it is released although
      it does not run. */
  predicate Kills(op: Op, pid: Pid) { op == KillOp(pid) || op == ReleaseOp(pid) }

  /** What becomes of a ready process in a run: the first of being dispatched and being killed. */
  function FateOf(s: Sched, ops: seq<Op>, pid: Pid): Fate
    decreases |ops|
  {
    if ops == [] then StillReady
    else if ops[0].ScheduleOp? && Schedule(s, ops[0].cpu).1 == Some(pid) then Dispatched
    else if Kills(ops[0], pid) then Killed
    else FateOf(Step(s, ops[0]), ops[1..], pid)
  }

  function Calls(ops: seq<Op>): nat {
    if ops == [] then 0 else One(ops[0].ScheduleOp?) + Calls(ops[1..])
  }

  /** A ready process that is neither dispatched nor killed by a step does not move towards the end,
      and every call of the scheduler moves it forward. */
  lemma StepIndex(s: Sched, op: Op, pid: Pid, k: nat) returns (k': nat)
    requires Inv(s) && Allowed(s, op) && k < |s.ready| && s.ready[k] == pid
    requires !(op.ScheduleOp? && Schedule(s, op.cpu).1 == Some(pid)) && !Kills(op, pid)
    ensures k' + One(op.ScheduleOp?) <= k && k' < |Step(s, op).ready| && Step(s, op).ready[k'] == pid
  {
    assert Placed(s, pid);
    k' := k;
    match op
    case ScheduleOp(cpu) =>
      assert Placed(s, s.ready[0]) && s.ready[0] in s.ready;
      k' := k - 1;
    case WakeOp(q) => assert Placed(s, q);
    case KillOp(q) => k' := DiscardIndex(s.ready, q, k);
    case ReleaseOp(q) => if !Active(s, q) { k' := DiscardIndex(s.ready, q, k); }
    case _ =>
  }

  /** A process at index `k` of the ready list is dispatched within `k + 1` calls of the scheduler,
      whatever else happens, unless it is killed before. */
  lemma {:induction false} BoundedWaiting(s: Sched, ops: seq<Op>, pid: Pid, k: nat)
    requires Inv(s) && AllAllowed(s, ops) && k < |s.ready| && s.ready[k] == pid && Calls(ops) > k
    ensures FateOf(s, ops, pid) != StillReady
    decreases |ops|
  {
    var s' := Step(s, ops[0]);
    if !(ops[0].ScheduleOp? && Schedule(s, ops[0].cpu).1 == Some(pid)) && !Kills(ops[0], pid) {
      var k' := StepIndex(s, ops[0], pid, k);
      StepInv(s, ops[0]);
      BoundedWaiting(s', ops[1..], pid, k');
    }
  }

  /** A call of the scheduler returns a process exactly when one is ready. */
  lemma SchedulesIffReady(s: Sched, cpu: nat)
    requires Inv(s)
    ensures Schedule(s, cpu).1.Some? <==> exists pid: Pid :: pid in s.tasks && !s.tasks[pid] && !Active(s, pid)
  {
    if s.ready != [] {
      assert Placed(s, s.ready[0]) && s.ready[0] in s.ready;
    }
    if pid: Pid :| pid in s.tasks && !s.tasks[pid] && !Active(s, pid) { assert Placed(s, pid); }
  }
}
