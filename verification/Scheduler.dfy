/** The process scheduler as the object that is updated in place. */
module ProcessScheduler {
  import opened Collections
  import opened Vectors
  import opened Scheduling
  import opened ProcessMoves

  /** The process named has moved as it should, and no other has. */
  ghost predicate AllMove(s: Sched, op: Op, s': Sched) { forall q: Pid :: Moves(s, op, s', q) }

  /** What an operation leaves, if the lists were in order before. */
  lemma Keeps(s: Sched, op: Op)
    ensures Inv(s) && Allowed(s, op) ==> Inv(Step(s, op)) && Leaves(s, op) && AllMove(s, op, Step(s, op))
  {
    if Inv(s) && Allowed(s, op) {
      StepInv(s, op);
      forall q: Pid ensures Moves(s, op, Step(s, op), q) { StepMoves(s, op, q); }
      LeavesList(s, op);
    }
  }

  /** Where the process is afterwards. */
  ghost predicate Leaves(s: Sched, op: Op) {
    match op
    case AcceptOp(pid) => pid in Accept(s, pid).ready
    case WakeOp(pid) => pid !in Wake(s, pid).sleeping
    case ScheduleOp(cpu) => Schedule(s, cpu).1.None? <==> s.ready == []
    case KillOp(pid) => pid !in Remove(s, pid).sleeping && pid !in Remove(s, pid).ready
    case ReleaseOp(pid) => !Active(Release(s, pid), pid)
    case MarkOp(pid) => true
  }

  lemma LeavesList(s: Sched, op: Op)
    requires Inv(s)
    ensures Leaves(s, op)
  {
    match op
    case WakeOp(pid) => DiscardMembers(s.sleeping, pid);
    case ScheduleOp(cpu) => if s.ready != [] { assert Placed(s, s.ready[0]) && s.ready[0] in s.ready; }
    case KillOp(pid) =>
      DiscardMembers(s.sleeping, pid);
      DiscardMembers(s.ready, pid);
    case ReleaseOp(pid) =>
      if Position(s.active, pid) < |s.active| { LookupSwapRemove(s.active, Position(s.active, pid), pid); }
    case _ =>
  }

  class Scheduler {
    var tasks: map<Pid, bool>
    var sleeping: seq<Pid>
    var active: seq<(Pid, nat)>
    var ready: seq<Pid>

    ghost function Value(): Sched reads this { Sched(tasks, sleeping, active, ready) }

    constructor ()
      ensures Value() == EMPTY
    {
      tasks, sleeping, active, ready := map[], [], [], [];
    }

    method AcceptNewProcess(pid: Pid)
      modifies this
      ensures Value() == Accept(old(Value()), pid)
      ensures Inv(old(Value())) && Allowed(old(Value()), AcceptOp(pid)) ==> Inv(Value()) && pid in ready
      ensures Inv(old(Value())) && Allowed(old(Value()), AcceptOp(pid)) ==> AllMove(old(Value()), AcceptOp(pid), Value())
    {
      Keeps(Value(), AcceptOp(pid));
      tasks := tasks[pid := false];
      ready := ready + [pid];
    }

    method WakeProc(pid: Pid)
      modifies this
      ensures Value() == Wake(old(Value()), pid)
      ensures Inv(old(Value())) ==> Inv(Value()) && pid !in sleeping
      ensures Inv(old(Value())) ==> AllMove(old(Value()), WakeOp(pid), Value())
    {
      Keeps(Value(), WakeOp(pid));
      var registered := pid in tasks;
      if registered { tasks := tasks[pid := false]; }
      var pos := FindIndex(sleeping, pid);
      if pos.Some? {
        sleeping := SwapRemove(sleeping, pos.value);
        if registered {
          ready := ready + [pid];
        } else {
          var _ := RemoveProcess(pid);
        }
      }
    }

    method ScheduleNext(cpu: nat) returns (r: Option<Pid>)
      modifies this
      ensures (Value(), r) == Schedule(old(Value()), cpu)
      ensures Inv(old(Value())) ==> Inv(Value()) && (r.None? <==> old(ready) == [])
      ensures Inv(old(Value())) ==> AllMove(old(Value()), ScheduleOp(cpu), Value())
    {
      Keeps(Value(), ScheduleOp(cpu));
      if ready == [] { return None; }
      var pid := ready[0];
      ready := ready[1..];
      if pid in tasks {
        active := active + [(pid, cpu)];
        return Some(pid);
      }
      return None;
    }

    method RemoveProcess(pid: Pid) returns (removed: bool)
      modifies this
      ensures Value() == Remove(old(Value()), pid) && removed == (pid in old(tasks))
      ensures Inv(old(Value())) ==> Inv(Value()) && pid !in sleeping && pid !in ready
      ensures Inv(old(Value())) ==> AllMove(old(Value()), KillOp(pid), Value())
    {
      Keeps(Value(), KillOp(pid));
      var pos := FindIndex(sleeping, pid);
      if pos.Some? { sleeping := SwapRemove(sleeping, pos.value); }
      pos := FindIndex(ready, pid);
      if pos.Some? { ready := SwapRemove(ready, pos.value); }
      removed := pid in tasks;
      tasks := tasks - {pid};
    }

    method ReleaseProcess(pid: Pid)
      modifies this
      ensures Value() == Release(old(Value()), pid)
      ensures Inv(old(Value())) ==> Inv(Value()) && !Active(Value(), pid)
      ensures Inv(old(Value())) ==> AllMove(old(Value()), ReleaseOp(pid), Value())
    {
      Keeps(Value(), ReleaseOp(pid));
      var pos := FindPosition(active, pid);
      if pos.Some? {
        active := SwapRemove(active, pos.value);
      } else {
        var _ := RemoveProcess(pid);
      }
      if pid in tasks {
        if tasks[pid] {
          sleeping := sleeping + [pid];
        } else {
          ready := ready + [pid];
        }
      }
    }

    /** Any run of the scheduler's operations on the object goes as it does on values. */
    method Perform(ops: seq<Op>)
      requires Inv(Value()) && AllAllowed(Value(), ops)
      modifies this
      ensures Value() == Run(old(Value()), ops) && Inv(Value())
    {
      ghost var start := Value();
      var i := 0;
      while i < |ops|
        invariant 0 <= i <= |ops| && Inv(Value())
        invariant AllAllowed(Value(), ops[i..]) && Run(start, ops) == Run(Value(), ops[i..])
      {
        StepInv(Value(), ops[i]);
        match ops[i] {
          case AcceptOp(pid) => AcceptNewProcess(pid);
          case WakeOp(pid) => WakeProc(pid);
          case ScheduleOp(cpu) => var _ := ScheduleNext(cpu);
          case KillOp(pid) => var _ := RemoveProcess(pid);
          case ReleaseOp(pid) => ReleaseProcess(pid);
          case MarkOp(pid) => if pid in tasks { tasks := tasks[pid := true]; }
        }
        assert ops[i..][1..] == ops[i + 1..];
        i := i + 1;
      }
      assert ops[i..] == [];
    }
  }
}
