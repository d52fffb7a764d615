/**
 The task runner seen by one task: where each step takes it, that a finished task is never polled again,
 and that tasks are polled in the order in which they were queued.
 */
module TaskMoves {
  import opened Collections
  import opened Vectors
  import opened TaskRunning

  datatype Spot = Unknown | IsAdding | IsQueued | IsWaiting | IsChecked | IsPolled | IsGone

  function SpotOf(s: State, id: Id): Spot {
    if id in s.adding then IsAdding
    else if id in s.queue then IsQueued
    else if id in s.waiting then IsWaiting
    else if s.phase == Checking(id) then IsChecked
    else if s.phase == Polling(id) then IsPolled
    else if id in s.gone then IsGone
    else Unknown
  }

  /** Where a step takes a task; every step that is not listed leaves it where it is. */
  function Target(s: State, a: Action, id: Id): Spot {
    var here := SpotOf(s, id);
    match a
    case Number(_) => if id == s.counter then IsAdding else here
    case Enqueue(x) => if x == id && here == IsAdding && !s.phase.Moving? then IsQueued else here
    case Move => if here == IsWaiting && s.phase.Moving? && s.phase.list != [] && s.phase.list[0] == id then IsQueued else here
    case Pop => if s.phase.Running? && s.queue != [] && s.queue[0] == id then IsChecked else here
    case Check => if here == IsChecked then (if Dead(s, id) then IsGone else IsPolled) else here
    case Return(ready) => if here == IsPolled then (if ready then IsGone else IsWaiting) else here
    case _ => here
  }

  lemma MovedSpot(s: State, next: Id, id: Id, s': State)
    requires Distinct(s.waiting) && Placed(s, id) && s.phase.Moving? && s' == MoveOne(s, next)
    ensures SpotOf(s', id) == if SpotOf(s, id) == IsWaiting && id == next then IsQueued else SpotOf(s, id)
  {
    if next in s.waiting { ExtractMembers(s.waiting, next); }
  }

  lemma MoveTarget(s: State, id: Id)
    requires Inv(s)
    ensures SpotOf(Step(s, Move), id) == Target(s, Move, id)
  {
    assert Placed(s, id);
    if s.phase.Moving? && s.phase.list != [] {
      var s1 := MoveOne(s, s.phase.list[0]);
      MovedSpot(s, s.phase.list[0], id, s1);
      assert SpotOf(s1.(phase := Moving(s.phase.list[1..])), id) == SpotOf(s1, id);
    }
  }

  lemma PopTarget(s: State, id: Id)
    requires Inv(s)
    ensures SpotOf(Step(s, Pop), id) == Target(s, Pop, id)
  {
    assert Placed(s, id);
    if s.phase.Running? && s.queue != [] {
      assert id in s.queue <==> id == s.queue[0] || id in s.queue[1..];
      assert s.queue[0] !in s.queue[1..];
    }
  }

  lemma CheckTarget(s: State, id: Id)
    requires Inv(s)
    ensures SpotOf(Step(s, Check), id) == Target(s, Check, id)
  {
    assert Placed(s, id);
  }

  lemma ReturnTarget(s: State, ready: bool, id: Id)
    requires Inv(s)
    ensures SpotOf(Step(s, Return(ready)), id) == Target(s, Return(ready), id)
  {
    assert Placed(s, id);
  }

  /** One step moves every task as it should: a task that is finished, or whose process is dead, is gone;
      one that is not finished waits; one that is woken is queued again; and no other task moves. */
  lemma StepMoves(s: State, a: Action, id: Id)
    requires Inv(s)
    ensures SpotOf(Step(s, a), id) == Target(s, a, id)
  {
    assert Placed(s, id);
    match a
    case Move => MoveTarget(s, id);
    case Pop => PopTarget(s, id);
    case Number(_) => assert Placed(s, s.counter);
    case Enqueue(_) =>
    case Check => CheckTarget(s, id);
    case Return(ready) => ReturnTarget(s, ready, id);
    case _ => OtherMovesNothing(s, a, Step(s, a));
  }

  // ---------------------------------------------------------------- finished tasks

  lemma GoneStep(s: State, a: Action, id: Id)
    requires Inv(s) && id in s.gone
    ensures Inv(Step(s, a)) && id in Step(s, a).gone && (id in Step(s, a).polled ==> id in s.polled)
  {
    assert Placed(s, id);
    StepInv(s, a);
    StepMoves(s, a, id);
  }

  /** A task that is gone stays gone and is not polled again, in every run. */
  lemma {:induction false} GoneForGood(s: State, acts: seq<Action>, id: Id)
    requires Inv(s) && id in s.gone
    ensures var s' := Run(s, acts);
            && id in s'.gone && !InHand(s', id) && id !in s'.queue && id !in s'.waiting
            && (id in s'.polled ==> id in s.polled)
    decreases |acts|
  {
    if acts == [] {
      assert Placed(s, id);
    } else {
      GoneStep(s, acts[0], id);
      GoneForGood(Step(s, acts[0]), acts[1..], id);
    }
  }

  /** A task whose poll says that it is finished is gone at once and is polled by no later call. */
  lemma FinishedStaysGone(s: State, id: Id, acts: seq<Action>, later: seq<Action>)
    requires Inv(s) && s.phase == Polling(id)
    requires Run(Step(s, Return(true)), acts).phase.Idle?
    ensures id in Step(s, Return(true)).gone
    ensures var s' := Run(Step(Run(Step(s, Return(true)), acts), Begin), later);
            id in s'.gone && id !in s'.polled && !InHand(s', id) && id !in s'.waiting
  {
    var s1 := Step(s, Return(true));
    StepInv(s, Return(true));
    StepMoves(s, Return(true), id);
    assert Placed(s, id) && Placed(s1, id);
    var s2 := Run(s1, acts);
    GoneForGood(s1, acts, id);
    RunInv(s1, acts);
    StepInv(s2, Begin);
    GoneForGood(Step(s2, Begin), later, id);
  }

  // ---------------------------------------------------------------- wakes

  /** A wake is recorded behind the others and sets the flag, and does nothing else. */
  lemma WakeEffect(s: State, id: Id)
    requires !s.waking
    ensures Step(Step(s, RecordWake(id)), SetFlag) == s.(toWake := s.toWake + [id], flag := true)
  {
  }

  /** A call begins by clearing the flag and then takes all wakes recorded until then. */
  lemma CallTakesWakes(s: State)
    requires s.phase.Idle? && !s.waking
    ensures Step(Step(s, Begin), Take) == s.(flag := false, polled := {}, phase := Moving(s.toWake), toWake := [])
  {
  }

  /** A task that is added gets the next number and belongs to the process named, and the tasks whose
      process has died are exactly those of the processes killed. */
  lemma OwnersAndDeaths(s: State, pid: Pid, owner: Option<Pid>, id: Id)
    requires Inv(s)
    ensures var s' := Step(s, Number(owner));
            s'.counter == s.counter + 1 && s'.owner == s.owner[s.counter := owner] && s'.dead == s.dead
    ensures var s' := Step(s, Kill(pid)); Dead(s', id) <==> Dead(s, id) || (id in s.owner && s.owner[id] == Some(pid))
  {
  }

  // ---------------------------------------------------------------- every call can end

  function Rank(p: Phase): nat { if p.Begun? then 2 else if p.Moving? then 1 else 0 }

  function ListLength(p: Phase): nat { if p.Moving? then |p.list| else 0 }

  function InHandRank(p: Phase): nat { if p.Checking? then 2 else if p.Polling? then 1 else 0 }

  /** The next step of the call itself. */
  function NextStep(s: State): Action {
    match s.phase
    case Idle => Begin
    case Begun => Take
    case Moving(list) => if list == [] then Moved else Move
    case Running => if s.queue == [] then Finish else Pop
    case Checking(_) => Check
    case Polling(_) => Return(true)
  }

  /** From every state inside a call, once a wake under way has set its flag, the steps of the call alone
      bring it to its end if the tasks finish. */
  lemma {:induction false} CallCanEnd(s: State) returns (acts: seq<Action>)
    requires Inv(s) && !s.waking
    ensures Run(s, acts).phase.Idle?
    decreases Rank(s.phase), ListLength(s.phase), |s.queue|, InHandRank(s.phase), !s.phase.Idle?
  {
    if s.phase.Idle? {
      acts := [];
    } else {
      var a := NextStep(s);
      StepInv(s, a);
      var rest := CallCanEnd(Step(s, a));
      acts := [a] + rest;
      assert acts[0] == a && acts[1..] == rest;
    }
  }

  // ---------------------------------------------------------------- the order of polls

  function PoppedBy(s: State, a: Action): seq<Id> {
    if a.Pop? && s.phase.Running? && s.queue != [] then [s.queue[0]] else []
  }

  /** The tasks taken out of the queue in a run, in order. */
  function Popped(s: State, acts: seq<Action>): seq<Id>
    decreases |acts|
  {
    if acts == [] then [] else PoppedBy(s, acts[0]) + Popped(Step(s, acts[0]), acts[1..])
  }

  /** The task that a step puts into the queue. */
  function QueuedBy(s: State, a: Action): seq<Id> {
    match a
    case Enqueue(id) => if SpotOf(s, id) != IsQueued && Target(s, a, id) == IsQueued then [id] else []
    case Move =>
      if s.phase.Moving? && s.phase.list != [] && SpotOf(s, s.phase.list[0]) == IsWaiting then [s.phase.list[0]] else []
    case _ => []
  }

  /** The tasks put into the queue in a run, in order. */
  function QueuedIn(s: State, acts: seq<Action>): seq<Id>
    decreases |acts|
  {
    if acts == [] then [] else QueuedBy(s, acts[0]) + QueuedIn(Step(s, acts[0]), acts[1..])
  }

  lemma EnqueueInOrder(s: State, id: Id)
    requires Inv(s)
    ensures Step(s, Enqueue(id)).queue == s.queue + QueuedBy(s, Enqueue(id))
  {
    assert Placed(s, id);
  }

  lemma MoveInOrder(s: State)
    requires Inv(s)
    ensures Step(s, Move).queue == s.queue + QueuedBy(s, Move)
  {
    if s.phase.Moving? && s.phase.list != [] { assert Placed(s, s.phase.list[0]); }
  }

  lemma StepInOrder(s: State, a: Action)
    requires Inv(s)
    ensures PoppedBy(s, a) + Step(s, a).queue == s.queue + QueuedBy(s, a)
  {
    match a
    case Enqueue(id) => EnqueueInOrder(s, id);
    case Move => MoveInOrder(s);
    case Pop | Number(_) | Check | Return(_) =>
    case _ => OtherMovesNothing(s, a, Step(s, a));
  }

  lemma Regroup(out: seq<Id>, more: seq<Id>, left: seq<Id>, queue: seq<Id>, queue': seq<Id>, now: seq<Id>, later: seq<Id>)
    requires out + queue' == queue + now && more + left == queue' + later
    ensures (out + more) + left == queue + (now + later)
  {
    calc {
      (out + more) + left;
      out + (more + left);
      (out + queue') + later;
      queue + (now + later);
    }
  }

  /** In every run the tasks are taken from the queue in the order in which they were put there. */
  lemma {:induction false} PolledInOrder(s: State, acts: seq<Action>)
    requires Inv(s)
    ensures Popped(s, acts) + Run(s, acts).queue == s.queue + QueuedIn(s, acts)
    decreases |acts|
  {
    if acts == [] {
    } else {
      var a, rest, s' := acts[0], acts[1..], Step(s, acts[0]);
      StepInOrder(s, a);
      StepInv(s, a);
      PolledInOrder(s', rest);
      Regroup(PoppedBy(s, a), Popped(s', rest), Run(s', rest).queue, s.queue, s'.queue, QueuedBy(s, a), QueuedIn(s', rest));
    }
  }
}
