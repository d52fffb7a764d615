/**
 The scheduler seen by one process: where each operation takes it, and that operations on other
 processes leave it where it is. The order in which ready processes are dispatched is first come, first
 served, except that the last one takes the place of one that is removed.
 */
module ProcessMoves {
  import opened Collections
  import opened Vectors
  import opened Scheduling

  /** Where a process is. One that was killed while it ran is no longer registered. */
  datatype Place = Absent | IsReady | IsSleeping | Runs(cpu: nat, registered: bool, marked: bool)

  function PlaceOf(s: Sched, q: Pid): Place {
    if Active(s, q) then Runs(Lookup(s.active, q).value, q in s.tasks, q in s.tasks && s.tasks[q])
    else if q in s.ready then IsReady
    else if q in s.sleeping then IsSleeping
    else Absent
  }

  /** The operation is about this process. */
  predicate Names(op: Op, q: Pid) { !op.ScheduleOp? && op.pid == q }

  /** Where an operation about a process takes it. */
  function Taken(p: Place, op: Op): Place {
    match op
    case AcceptOp(_) => IsReady
    case WakeOp(_) => if p.IsSleeping? then IsReady else if p.Runs? then p.(marked := false) else p
    case ScheduleOp(cpu) => Runs(cpu, true, false)
    case KillOp(_) => if p.Runs? then p.(registered := false, marked := false) else Absent
    case ReleaseOp(_) => if p.Runs? && p.registered then (if p.marked then IsSleeping else IsReady) else Absent
    case MarkOp(_) => if p.Runs? then p.(marked := p.registered) else p
  }

  /** A call of the scheduler is about the first ready process. */
  predicate Concerns(s: Sched, op: Op, q: Pid) {
    Names(op, q) || (op.ScheduleOp? && s.ready != [] && s.ready[0] == q)
  }

  ghost predicate Moves(s: Sched, op: Op, s': Sched, q: Pid) {
    PlaceOf(s', q) == if Concerns(s, op, q) then Taken(PlaceOf(s, q), op) else PlaceOf(s, q)
  }

  lemma WakeMoves(s: Sched, pid: Pid, q: Pid)
    requires Inv(s)
    ensures Moves(s, WakeOp(pid), Wake(s, pid), q)
  {
    assert Placed(s, pid) && Placed(s, q);
    DiscardMembers(s.sleeping, pid);
  }

  lemma ScheduleMoves(s: Sched, cpu: nat, q: Pid)
    requires Inv(s)
    ensures Moves(s, ScheduleOp(cpu), Schedule(s, cpu).0, q)
  {
    assert Placed(s, q);
    if s.ready != [] {
      var pid := s.ready[0];
      assert Placed(s, pid) && pid in s.ready;
      assert q in s.ready <==> q == pid || q in s.ready[1..];
      LookupPush(s.active, pid, cpu, q);
    }
  }

  lemma RemoveMoves(s: Sched, pid: Pid, q: Pid)
    requires Inv(s)
    ensures Moves(s, KillOp(pid), Remove(s, pid), q)
  {
    assert Placed(s, pid) && Placed(s, q);
    DiscardMembers(s.sleeping, pid);
    DiscardMembers(s.ready, pid);
  }

  lemma ReleaseMoves(s: Sched, pid: Pid, q: Pid)
    requires Inv(s)
    ensures Moves(s, ReleaseOp(pid), Release(s, pid), q)
  {
    var pos := Position(s.active, pid);
    assert Placed(s, pid) && Placed(s, q);
    if pos < |s.active| {
      LookupSwapRemove(s.active, pos, pid);
      LookupSwapRemove(s.active, pos, q);
    } else {
      RemoveMoves(s, pid, q);
      RemoveMoves(s, pid, pid);
    }
  }

  /** One operation moves the process it is about as it should, and no other process. */
  lemma StepMoves(s: Sched, op: Op, q: Pid)
    requires Inv(s) && Allowed(s, op)
    ensures Moves(s, op, Step(s, op), q)
  {
    assert Placed(s, q);
    match op
    case AcceptOp(pid) => assert Placed(s, pid);
    case WakeOp(pid) => WakeMoves(s, pid, q);
    case ScheduleOp(cpu) => ScheduleMoves(s, cpu, q);
    case KillOp(pid) => RemoveMoves(s, pid, q);
    case ReleaseOp(pid) => ReleaseMoves(s, pid, q);
    case MarkOp(pid) =>
  }

  /** A process is registered unless it is absent or was killed while it ran, and its flag is set while it
      sleeps or is marked. */
  lemma PlaceSaysAll(s: Sched, q: Pid)
    requires Inv(s)
    ensures var p := PlaceOf(s, q);
            && (q in s.tasks <==> !p.Absent? && (p.Runs? ==> p.registered))
            && (q in s.tasks ==> (s.tasks[q] <==> p.IsSleeping? || (p.Runs? && p.marked)))
  {
    assert Placed(s, q);
  }

  /** No operation of the run names the process. */
  predicate Spares(ops: seq<Op>, q: Pid) { forall i :: 0 <= i < |ops| ==> !Names(ops[i], q) }

  /** A process that is not ready stays where it is in every run that does not name it. */
  lemma {:induction false} Untouched(s: Sched, ops: seq<Op>, q: Pid)
    requires Inv(s) && AllAllowed(s, ops) && Spares(ops, q) && PlaceOf(s, q) != IsReady
    ensures PlaceOf(Run(s, ops), q) == PlaceOf(s, q)
    decreases |ops|
  {
    if ops == [] {
    } else {
      StepMoves(s, ops[0], q);
      StepInv(s, ops[0]);
      assert Placed(s, q);
      assert s.ready != [] ==> s.ready[0] in s.ready;
      assert Spares(ops[1..], q);
      Untouched(Step(s, ops[0]), ops[1..], q);
    }
  }

  // ---------------------------------------------------------------- the order of dispatch

  /** The operation takes no process out of the ready list but by dispatching it. */
  predicate Orderly(s: Sched, op: Op) {
    op.KillOp? || op.ReleaseOp? ==> PlaceOf(s, op.pid) != IsReady
  }

  predicate AllOrderly(s: Sched, ops: seq<Op>)
    decreases |ops|
  {
    ops != [] ==> Orderly(s, ops[0]) && AllOrderly(Step(s, ops[0]), ops[1..])
  }

  function DispatchedBy(s: Sched, op: Op): seq<Pid> {
    if op.ScheduleOp? && Schedule(s, op.cpu).1.Some? then [Schedule(s, op.cpu).1.value] else []
  }

  /** The processes that a run dispatches, in order. */
  function Dispatches(s: Sched, ops: seq<Op>): seq<Pid>
    decreases |ops|
  {
    if ops == [] then [] else DispatchedBy(s, ops[0]) + Dispatches(Step(s, ops[0]), ops[1..])
  }

  /** The process that an operation makes ready. */
  function EntersBy(s: Sched, op: Op): seq<Pid> {
    if op.ScheduleOp? || PlaceOf(s, op.pid) == IsReady || Taken(PlaceOf(s, op.pid), op) != IsReady then [] else [op.pid]
  }

  /** The processes that become ready in a run, in order. */
  function Entries(s: Sched, ops: seq<Op>): seq<Pid>
    decreases |ops|
  {
    if ops == [] then [] else EntersBy(s, ops[0]) + Entries(Step(s, ops[0]), ops[1..])
  }

  lemma NotListed(s: seq<Pid>, x: Pid)
    requires x !in s
    ensures Discard(s, x) == s
  {
  }

  lemma StepInOrder(s: Sched, op: Op)
    requires Inv(s) && Allowed(s, op) && Orderly(s, op)
    ensures DispatchedBy(s, op) + Step(s, op).ready == s.ready + EntersBy(s, op)
  {
    match op
    case AcceptOp(pid) => assert Placed(s, pid);
    case WakeOp(pid) => assert Placed(s, pid);
    case ScheduleOp(cpu) => if s.ready != [] { assert Placed(s, s.ready[0]) && s.ready[0] in s.ready; }
    case KillOp(pid) =>
      assert Placed(s, pid);
      NotListed(s.ready, pid);
    case ReleaseOp(pid) =>
      assert Placed(s, pid);
      NotListed(s.ready, pid);
    case MarkOp(pid) =>
  }

  lemma Regroup(out: seq<Pid>, more: seq<Pid>, left: seq<Pid>, ready: seq<Pid>, ready': seq<Pid>, now: seq<Pid>, later: seq<Pid>)
    requires out + ready' == ready + now && more + left == ready' + later
    ensures (out + more) + left == ready + (now + later)
  {
    calc {
      (out + more) + left;
      out + (more + left);
      (out + ready') + later;
      ready + (now + later);
    }
  }

  /** First come, first served: unless a ready process is removed, the processes dispatched in a run,
      followed by those still ready, are those that were ready, followed by those that became ready. */
  lemma {:induction false} FirstComeFirstServed(s: Sched, ops: seq<Op>)
    requires Inv(s) && AllAllowed(s, ops) && AllOrderly(s, ops)
    ensures Dispatches(s, ops) + Run(s, ops).ready == s.ready + Entries(s, ops)
    decreases |ops|
  {
    if ops == [] {
    } else {
      var op, rest, s' := ops[0], ops[1..], Step(s, ops[0]);
      StepInOrder(s, op);
      StepInv(s, op);
      FirstComeFirstServed(s', rest);
      Regroup(DispatchedBy(s, op), Dispatches(s', rest), Run(s', rest).ready, s.ready, s'.ready, EntersBy(s, op), Entries(s', rest));
    }
  }

  /** When a ready process is removed, the last one takes its place and so overtakes those between. */
  lemma RemovalReorders(s: Sched, k: nat)
    requires Inv(s) && k < |s.ready|
    ensures var n := |s.ready| - 1;
            Remove(s, s.ready[k]).ready == if k == n then s.ready[..n] else s.ready[..k] + [s.ready[n]] + s.ready[k + 1..n]
  {
    assert IndexOf(s.ready, s.ready[k]) == k;
  }
}
