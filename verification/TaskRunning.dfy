/**
 The runner of asynchronous tasks, as a transition system.

 One processor runs its own tasks; tasks are added and woken, and processes killed, at any moment,
 by interrupts or by the task that is being polled. Each action is one step under one lock. A wake
 holds the lock of the wake list while it records the task and then sets the flag, and the lock of
 the queue is held while woken tasks are moved to it.
 */
module TaskRunning {
  import opened Collections
  import opened Vectors

  type Id = nat
  type Pid = nat

  /** Where the call that runs the tasks is. */
  datatype Phase = Idle | Begun | Moving(list: seq<Id>) | Running | Checking(id: Id) | Polling(id: Id)

  datatype State = State(
    counter: nat,
    owner: map<Id, Option<Pid>>,
    adding: set<Id>,          // numbered but not yet queued
    queue: seq<Id>,
    waiting: seq<Id>,
    gone: set<Id>,            // finished, or dropped because the process is dead
    toWake: seq<Id>,
    waking: bool,             // a wake is recorded and about to set the flag
    flag: bool,
    phase: Phase,
    polled: set<Id>,          // the tasks polled by the current or, when idle, the last call
    dead: set<Pid>)

  datatype Action =
    | Number(owner: Option<Pid>)
    | Enqueue(id: Id)
    | RecordWake(id: Id)
    | SetFlag
    | Kill(pid: Pid)
    | Begin
    | Take
    | Move
    | Moved
    | Pop
    | Check
    | Return(ready: bool)
    | Finish

  const START := State(0, map[], {}, [], [], {}, [], false, false, Idle, {}, {})

  /** `Vec::remove` of the first occurrence. */
  function Extract(s: seq<Id>, x: Id): seq<Id> {
    var i := IndexOf(s, x);
    if i < |s| then s[..i] + s[i + 1..] else s
  }

  /** One woken task: from the waiting tasks, if it is there, to the queue. */
  function MoveOne(s: State, id: Id): State {
    if id in s.waiting then s.(waiting := Extract(s.waiting, id), queue := s.queue + [id]) else s
  }

  predicate Dead(s: State, id: Id) {
    id in s.owner && s.owner[id].Some? && s.owner[id].value in s.dead
  }

  /** The environment's actions, which come at any moment. */
  function Outside(s: State, a: Action): State {
    match a
    case Number(pid) =>
      s.(counter := s.counter + 1, owner := s.owner[s.counter := pid], adding := s.adding + {s.counter})
    case Enqueue(id) =>
      if id in s.adding && !s.phase.Moving? then s.(adding := s.adding - {id}, queue := s.queue + [id]) else s
    case RecordWake(id) => if s.waking then s else s.(toWake := s.toWake + [id], waking := true)
    case SetFlag => if s.waking then s.(flag := true, waking := false) else s
    case Kill(pid) => s.(dead := s.dead + {pid})
    case _ => s
  }

  /** One step; an action that is not enabled changes nothing. */
  function Step(s: State, a: Action): State {
    match (a, s.phase)
    case (Begin, Idle) => s.(flag := false, phase := Begun, polled := {})
    case (Take, Begun) => if s.waking then s else s.(phase := Moving(s.toWake), toWake := [])
    case (Move, Moving(list)) =>
      if list != [] then MoveOne(s, list[0]).(phase := Moving(list[1..])) else s
    case (Moved, Moving(list)) => if list == [] then s.(phase := Running) else s
    case (Pop, Running) =>
      if s.queue != [] then s.(phase := Checking(s.queue[0]), queue := s.queue[1..]) else s
    case (Check, Checking(id)) =>
      if Dead(s, id) then s.(phase := Running, gone := s.gone + {id})
      else s.(phase := Polling(id), polled := s.polled + {id})
    case (Return(ready), Polling(id)) =>
      if ready then s.(phase := Running, gone := s.gone + {id})
      else s.(phase := Running, waiting := s.waiting + [id])
    case (Finish, Running) => if s.queue == [] then s.(phase := Idle) else s
    case _ => Outside(s, a)
  }

  function Run(s: State, acts: seq<Action>): State
    decreases |acts|
  {
    if acts == [] then s else Run(Step(s, acts[0]), acts[1..])
  }

  // ---------------------------------------------------------------- the invariant

  predicate InHand(s: State, id: Id) {
    (s.phase.Checking? || s.phase.Polling?) && s.phase.id == id
  }

  /** A task that has been numbered is in exactly one place. */
  predicate Placed(s: State, id: Id) {
    One(id in s.adding) + One(id in s.queue) + One(id in s.waiting) + One(InHand(s, id)) + One(id in s.gone)
    == One(id < s.counter)
  }

  /** A task that this call has polled is not polled again by it. */
  predicate Once(s: State, id: Id) {
    id in s.polled ==>
      && id < s.counter && id !in s.adding && id !in s.queue && s.phase != Checking(id)
      && !s.phase.Begun? && !s.phase.Moving?
  }

  ghost predicate Inv(s: State) {
    && Distinct(s.queue) && Distinct(s.waiting)
    && (forall id: Id :: Placed(s, id))
    && (forall id: Id :: Once(s, id))
    && (forall id: Id :: id in s.owner <==> id < s.counter)
    && (s.toWake != [] ==> s.flag || s.waking || s.phase.Begun?)
  }

  lemma ExtractMembers(s: seq<Id>, x: Id)
    requires Distinct(s)
    ensures Distinct(Extract(s, x)) && forall y :: y in Extract(s, x) <==> y in s && y != x
  {
    var i, s' := IndexOf(s, x), Extract(s, x);
    if i < |s| {
      assert forall j :: 0 <= j < |s'| ==> s'[j] == if j < i then s[j] else s[j + 1];
      forall y | y in s && y != x ensures y in s' {
        var j :| 0 <= j < |s| && s[j] == y;
        assert s'[if j < i then j else j - 1] == y;
      }
    }
  }

  lemma MoveOneInv(s: State, id: Id, s': State)
    requires Inv(s) && s.phase.Moving? && id in s.waiting && s' == MoveOne(s, id)
    ensures Inv(s')
  {
    assert Placed(s, id);
    ExtractMembers(s.waiting, id);
    PushDistinct(s.queue, id);
    forall q: Id ensures Placed(s', q) && Once(s', q) { assert Placed(s, q) && Once(s, q); }
  }

  lemma MoveInv(s: State, s': State)
    requires Inv(s) && s' == Step(s, Move)
    ensures Inv(s')
  {
    if s.phase.Moving? && s.phase.list != [] {
      var id := s.phase.list[0];
      var s1 := MoveOne(s, id);
      if id in s.waiting { MoveOneInv(s, id, s1); }
      ShorterListInv(s1, s');
    }
  }

  lemma ShorterListInv(s: State, s': State)
    requires Inv(s) && s.phase.Moving? && s.phase.list != [] && s' == s.(phase := Moving(s.phase.list[1..]))
    ensures Inv(s')
  {
    forall q: Id ensures Placed(s', q) && Once(s', q) { assert Placed(s, q) && Once(s, q); }
  }

  lemma PopInv(s: State, s': State)
    requires Inv(s) && s' == Step(s, Pop)
    ensures Inv(s')
  {
    if s.phase.Running? && s.queue != [] {
      assert forall q :: q in s.queue <==> q == s.queue[0] || q in s.queue[1..];
      forall q: Id ensures Placed(s', q) && Once(s', q) { assert Placed(s, q) && Once(s, q); }
    }
  }

  lemma ReturnInv(s: State, ready: bool, s': State)
    requires Inv(s) && s' == Step(s, Return(ready))
    ensures Inv(s')
  {
    if s.phase.Polling? {
      assert Placed(s, s.phase.id);
      PushDistinct(s.waiting, s.phase.id);
      forall q: Id ensures Placed(s', q) && Once(s', q) { assert Placed(s, q) && Once(s, q); }
    }
  }

  lemma EnqueueInv(s: State, id: Id, s': State)
    requires Inv(s) && s' == Step(s, Enqueue(id))
    ensures Inv(s')
  {
    if id in s.adding && !s.phase.Moving? { QueuedInv(s, id, s'); }
  }

  lemma QueuedInv(s: State, id: Id, s': State)
    requires Inv(s) && id in s.adding && s' == s.(adding := s.adding - {id}, queue := s.queue + [id])
    ensures Inv(s')
  {
    assert Placed(s, id);
    PushDistinct(s.queue, id);
    forall q: Id ensures Placed(s', q) && Once(s', q) { assert Placed(s, q) && Once(s, q); }
  }

  lemma NumberInv(s: State, owner: Option<Pid>, s': State)
    requires Inv(s) && s' == Step(s, Number(owner))
    ensures Inv(s')
  {
    assert Placed(s, s.counter);
    forall q: Id ensures Placed(s', q) && Once(s', q) { assert Placed(s, q) && Once(s, q); }
  }

  lemma CheckInv(s: State, s': State)
    requires Inv(s) && s' == Step(s, Check)
    ensures Inv(s')
  {
    forall q: Id ensures Placed(s', q) && Once(s', q) { assert Placed(s, q) && Once(s, q); }
  }

  /** The remaining actions move no task. */
  lemma OtherInv(s: State, a: Action, s': State)
    requires Inv(s) && s' == Step(s, a)
    requires a.RecordWake? || a.SetFlag? || a.Kill? || a.Begin? || a.Take? || a.Moved? || a.Finish?
    ensures Inv(s')
  {
    OtherMovesNothing(s, a, s');
    forall q: Id ensures Placed(s', q) && Once(s', q) { assert Placed(s, q) && Once(s, q); }
  }

  lemma OtherMovesNothing(s: State, a: Action, s': State)
    requires s' == Step(s, a)
    requires a.RecordWake? || a.SetFlag? || a.Kill? || a.Begin? || a.Take? || a.Moved? || a.Finish?
    ensures s'.counter == s.counter && s'.owner == s.owner && s'.adding == s.adding && s'.queue == s.queue
    ensures s'.waiting == s.waiting && s'.gone == s.gone && (forall id :: InHand(s', id) <==> InHand(s, id))
    ensures s'.polled == {} || s'.polled == s.polled
    ensures s.phase.Idle? && s'.phase.Begun? ==> {} == s'.polled
  {
  }

  lemma StepInv(s: State, a: Action)
    requires Inv(s)
    ensures Inv(Step(s, a))
  {
    var s' := Step(s, a);
    match a
    case Number(owner) => NumberInv(s, owner, s');
    case Enqueue(id) => EnqueueInv(s, id, s');
    case Move => MoveInv(s, s');
    case Pop => PopInv(s, s');
    case Check => CheckInv(s, s');
    case Return(ready) => ReturnInv(s, ready, s');
    case _ => OtherInv(s, a, s');
  }

  lemma {:induction false} RunInv(s: State, acts: seq<Action>)
    requires Inv(s)
    ensures Inv(Run(s, acts))
    decreases |acts|
  {
    if acts == [] {
    } else {
      StepInv(s, acts[0]);
      RunInv(Step(s, acts[0]), acts[1..]);
    }
  }

  /** In every run a task is at all times in exactly one place, a task that is about to be polled has
      not been polled by the same call, and while a wake is recorded that no call is about to take,
      the flag is set or about to be set. */
  lemma EveryRun(acts: seq<Action>, id: Id)
    ensures var s := Run(START, acts);
            && One(id in s.adding) + One(id in s.queue) + One(id in s.waiting) + One(InHand(s, id)) + One(id in s.gone)
               == One(id < s.counter)
            && (s.phase == Checking(id) ==> id !in s.polled)
            && (s.toWake != [] && !s.phase.Begun? ==> s.flag || s.waking)
  {
    RunInv(START, acts);
    assert Placed(Run(START, acts), id) && Once(Run(START, acts), id);
  }

  // ---------------------------------------------------------------- no lost wake-ups

  /** The current call is going to poll this task, or find that its process is dead. */
  predicate Due(s: State, id: Id) {
    || (s.phase.Begun? && id in s.toWake && id in s.waiting)
    || (s.phase.Moving? && id in s.phase.list && id in s.waiting)
    || (!s.phase.Idle? && id in s.queue)
    || s.phase == Checking(id)
  }

  predicate Settled(s: State, id: Id) { Due(s, id) || id in s.polled || Dead(s, id) }

  lemma MoveSettled(s: State, id: Id, s': State)
    requires Inv(s) && Settled(s, id) && s' == Step(s, Move)
    ensures Settled(s', id)
  {
    if s.phase.Moving? && s.phase.list != [] {
      var next := s.phase.list[0];
      ExtractMembers(s.waiting, next);
      if id in s.phase.list && id != next { assert id in s.phase.list[1..]; }
    }
  }

  lemma StepSettled(s: State, a: Action, id: Id)
    requires Inv(s) && id in s.owner && Settled(s, id) && (s.phase.Idle? ==> a != Begin)
    ensures Settled(Step(s, a), id)
  {
    match a
    case Move => MoveSettled(s, id, Step(s, a));
    case Number(_) => assert s.counter !in s.owner;
    case Pop => if s.queue != [] && id in s.queue && id != s.queue[0] { assert id in s.queue[1..]; }
    case Take | Check | Return(_) =>
    case _ => OtherSettled(s, a, id, Step(s, a));
  }

  lemma OtherSettled(s: State, a: Action, id: Id, s': State)
    requires Settled(s, id) && s' == Step(s, a)
    requires a.Enqueue? || a.RecordWake? || a.SetFlag? || a.Kill? || a.Moved? || a.Finish? || (a.Begin? && !s.phase.Idle?)
    ensures Settled(s', id)
  {
  }

  lemma {:induction false} RunSettled(s: State, acts: seq<Action>, id: Id)
    requires Inv(s) && id in s.owner && Settled(s, id) && OneCall(s, acts)
    ensures Settled(Run(s, acts), id)
    decreases |acts|
  {
    if acts == [] {
    } else {
      StepSettled(s, acts[0], id);
      StepInv(s, acts[0]);
      OwnerKept(s, acts[0], id);
      RunSettled(Step(s, acts[0]), acts[1..], id);
    }
  }

  lemma OwnerKept(s: State, a: Action, id: Id)
    requires Inv(s) && id in s.owner
    ensures id in Step(s, a).owner && Step(s, a).owner[id] == s.owner[id]
  {
  }

  /** No further call begins. */
  predicate OneCall(s: State, acts: seq<Action>)
    decreases |acts|
  {
    acts != [] ==> !(s.phase.Idle? && acts[0] == Begin) && OneCall(Step(s, acts[0]), acts[1..])
  }

  lemma {:induction false} RunAppend(s: State, acts: seq<Action>, a: Action)
    requires OneCall(s, acts) && !(Run(s, acts).phase.Idle? && a == Begin)
    ensures Run(s, acts + [a]) == Step(Run(s, acts), a) && OneCall(s, acts + [a])
    decreases |acts|
  {
    if acts == [] {
    } else {
      assert (acts + [a])[1..] == acts[1..] + [a];
      RunAppend(Step(s, acts[0]), acts[1..], a);
    }
  }

  /** A wake that is recorded before a call, of a task that is waiting or queued, is answered before
      that call ends, whatever happens during the call: the task has been polled by it, or its
      process is dead. A queued task is polled even without a wake. */
  lemma WokenIsPolled(s: State, acts: seq<Action>, id: Id)
    requires Inv(s) && s.phase.Idle? && ((id in s.toWake && id in s.waiting) || id in s.queue)
    requires OneCall(Step(s, Begin), acts) && Run(Step(s, Begin), acts).phase.Idle?
    ensures var s' := Run(Step(s, Begin), acts); id in s'.polled || Dead(s', id)
  {
    assert Placed(s, id);
    StepInv(s, Begin);
    RunSettled(Step(s, Begin), acts, id);
  }

  lemma AllAnswered(s: State, acts: seq<Action>, s': State)
    requires Inv(s) && s.phase.Idle? && OneCall(Step(s, Begin), acts)
    requires s' == Run(Step(s, Begin), acts) && s'.phase.Idle?
    ensures forall id :: (id in s.toWake && id in s.waiting) || id in s.queue ==> id in s'.polled || Dead(s', id)
  {
    forall id | (id in s.toWake && id in s.waiting) || id in s.queue ensures id in s'.polled || Dead(s', id) {
      WokenIsPolled(s, acts, id);
    }
  }

  /** A recorded wake stays recorded until the next call takes it. */
  lemma {:induction false} WakeKept(s: State, acts: seq<Action>, id: Id)
    requires id in s.toWake && !s.phase.Begun? && OneCall(s, acts)
    ensures id in Run(s, acts).toWake && !Run(s, acts).phase.Begun?
    decreases |acts|
  {
    if acts == [] {
    } else {
      WakeKept(Step(s, acts[0]), acts[1..], id);
    }
  }

  /** Nothing but a call takes a task out of the waiting tasks. */
  lemma {:induction false} WaitingKept(s: State, acts: seq<Action>, id: Id)
    requires id in s.waiting && !s.phase.Begun? && !s.phase.Moving? && OneCall(s, acts)
    ensures id in Run(s, acts).waiting
    decreases |acts|
  {
    if acts == [] {
    } else {
      WaitingKept(Step(s, acts[0]), acts[1..], id);
    }
  }

  /** A wake that comes while the task is being polled is not lost when the task then goes to sleep:
      at the end of that call it is still recorded and the flag is set or about to be, and the next
      call polls the task, or finds its process dead, before it ends. */
  lemma WakeDuringPoll(s: State, before: seq<Action>, after: seq<Action>, next: seq<Action>, id: Id, s1: State, s2: State)
    requires Inv(s) && s.phase == Polling(id) && id in s.toWake
    requires OneCall(s, before) && Run(s, before).phase == Polling(id)
    requires s1 == Step(Run(s, before), Return(false)) && OneCall(s1, after)
    requires s2 == Run(s1, after) && s2.phase.Idle?
    requires OneCall(Step(s2, Begin), next) && Run(Step(s2, Begin), next).phase.Idle?
    ensures id in s2.toWake && (s2.flag || s2.waking)
    ensures var s' := Run(Step(s2, Begin), next); id in s'.polled || Dead(s', id)
  {
    WakeKept(s, before, id);
    RunInv(s, before);
    StepInv(Run(s, before), Return(false));
    RunInv(s1, after);
    WakeKept(s1, after, id);
    WaitingKept(s1, after, id);
    WokenIsPolled(s2, next, id);
  }
}
