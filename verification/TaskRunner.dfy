/**
 The task data of a processor and the loop that runs its tasks, updated in place.

 What happens while a task is polled is given as a list of effects. Ghost fields follow the
 transition system: `model` is its state, reached from `start` by `acts`.
 */
module TaskRunner {
  import opened Collections
  import opened Vectors
  import opened TaskRunning
  import opened TaskMoves

  datatype Event = Add(owner: Option<Pid>) | Wake(id: Id) | Exit(pid: Pid)

  /** What one poll does: the events during it, and whether the task is finished. */
  datatype Effect = Effect(events: seq<Event>, ready: bool)

  // ---------------------------------------------------------------- a call on values

  function AfterEvent(s: State, e: Event): (s': State)
    requires s.phase.Polling?
    ensures s'.phase == s.phase
  {
    match e
    case Add(pid) => Step(Step(s, Number(pid)), Enqueue(s.counter))
    case Wake(id) => Step(Step(s, RecordWake(id)), SetFlag)
    case Exit(pid) => Step(s, Kill(pid))
  }

  function AfterEvents(s: State, events: seq<Event>): (s': State)
    requires s.phase.Polling?
    ensures s'.phase == s.phase
    decreases |events|
  {
    if events == [] then s else AfterEvents(AfterEvent(s, events[0]), events[1..])
  }

  function AfterPoll(s: State, e: Effect): (s': State)
    requires s.phase.Polling?
    ensures s'.phase.Running?
    ensures e.events == [] ==> s'.queue == s.queue
  {
    Step(AfterEvents(s, e.events), Return(e.ready))
  }

  /** The recorded wakes are taken and the tasks moved, one by one. */
  function AfterMoves(s: State): (s': State)
    requires s.phase.Moving?
    ensures s'.phase.Running?
    decreases |s.phase.list|
  {
    if s.phase.list == [] then Step(s, Moved) else AfterMoves(Step(s, Move))
  }

  /** The tasks are taken from the queue and polled until it is empty. When no more polls are given, the
      tasks are finished at once. */
  function AfterQueue(s: State, polls: seq<Effect>): (s': State)
    requires s.phase.Running?
    ensures s'.phase.Running? && s'.queue == []
    decreases |polls|, |s.queue|
  {
    if s.queue == [] then s
    else
      var s1 := Step(Step(s, Pop), Check);
      if s1.phase.Running? then AfterQueue(s1, polls)
      else if polls == [] then AfterQueue(AfterPoll(s1, Effect([], true)), [])
      else AfterQueue(AfterPoll(s1, polls[0]), polls[1..])
  }

  /** A whole call. */
  function AfterCall(s: State, polls: seq<Effect>): State
    requires s.phase.Idle? && !s.waking
  {
    Step(AfterQueue(AfterMoves(Step(Step(s, Begin), Take)), polls), Finish)
  }

  /** The end of a poll: a finished task is gone and does not wait, another waits and is not gone. */
  lemma Returned(s: State, id: Id, ready: bool)
    requires Inv(s) && s.phase == Polling(id)
    ensures var s' := Step(s, Return(ready)); (id in s'.gone <==> ready) && (id in s'.waiting <==> !ready)
  {
    StepInv(s, Return(ready));
    StepMoves(s, Return(ready), id);
    assert Placed(Step(s, Return(ready)), id);
  }

  class AsyncTaskData {
    var counter: nat
    var owner: map<Id, Option<Pid>>
    var queue: seq<Id>
    var waiting: seq<Id>
    var toWake: seq<Id>
    var flag: bool
    var dead: set<Pid>
    ghost var model: State
    ghost var start: State
    ghost var acts: seq<Action>

    ghost predicate Follows()
      reads this
    {
      Inv(model) && model == Run(start, acts) && OneCall(start, acts)
    }

    ghost predicate Valid()
      reads this
    {
      && model.counter == counter && model.owner == owner && model.dead == dead
      && model.queue == queue && model.waiting == waiting && model.toWake == toWake && model.flag == flag
      && model.adding == {} && !model.waking
      && Follows()
    }

    constructor ()
      ensures Valid() && model == START
    {
      counter, owner, queue, waiting, toWake, flag, dead := 0, map[], [], [], [], false, {};
      model, start, acts := START, START, [];
    }

    ghost method Record(a: Action)
      requires Follows() && !(model.phase.Idle? && a == Begin)
      modifies `model, `acts
      ensures Follows() && model == Step(old(model), a)
    {
      RunAppend(start, acts, a);
      StepInv(model, a);
      model, acts := Step(model, a), acts + [a];
    }

    method AddTask(pid: Option<Pid>)
      requires Valid() && !model.phase.Moving?
      modifies this
      ensures Valid() && start == old(start) && model.phase == old(model.phase)
      ensures model == Step(Step(old(model), Number(pid)), Enqueue(old(counter)))
      ensures queue == old(queue) + [old(counter)] && waiting == old(waiting)
    {
      var id := counter;
      counter := counter + 1;
      owner := owner[id := pid];
      Record(Number(pid));
      queue := queue + [id];
      Record(Enqueue(id));
      assert model.adding == {};
    }

    method WakeTask(id: Id)
      requires Valid()
      modifies this
      ensures Valid() && start == old(start) && model.phase == old(model.phase)
      ensures model == Step(Step(old(model), RecordWake(id)), SetFlag)
      ensures toWake == old(toWake) + [id] && flag && queue == old(queue) && waiting == old(waiting)
    {
      toWake := toWake + [id];
      Record(RecordWake(id));
      flag := true;
      Record(SetFlag);
    }

    method WakeTasksInList()
      requires Valid() && model.phase.Begun?
      modifies this
      ensures Valid() && start == old(start) && model.phase.Running? && toWake == []
      ensures model == AfterMoves(Step(old(model), Take))
      ensures forall id :: id in waiting <==> id in old(waiting) && id !in old(toWake)
      ensures old(queue) <= queue
      ensures forall id :: id in queue <==> id in old(queue) || (id in old(waiting) && id in old(toWake))
    {
      var list := TakeList();
      var i := 0;
      while i < |list|
        invariant 0 <= i <= |list|
        invariant Valid() && start == old(start) && model.phase == Moving(list[i..]) && toWake == []
        invariant AfterMoves(Step(old(model), Take)) == AfterMoves(model)
        invariant old(queue) <= queue
        invariant forall id :: id in waiting <==> id in old(waiting) && id !in list[..i]
        invariant forall id :: id in queue <==> id in old(queue) || (id in old(waiting) && id in list[..i])
      {
        assert list[..i + 1] == list[..i] + [list[i]];
        assert list[i..][0] == list[i] && list[i..][1..] == list[i + 1..];
        MoveTask(list[i], list[i..]);
        i := i + 1;
      }
      EndMoving();
    }

    method TakeList() returns (list: seq<Id>)
      requires Valid() && model.phase.Begun?
      modifies this
      ensures Valid() && start == old(start) && model.phase == Moving(list) && list == old(toWake) && toWake == []
      ensures model == Step(old(model), Take)
      ensures queue == old(queue) && waiting == old(waiting)
    {
      list := toWake;
      toWake := [];
      Record(Take);
    }

    ghost method EndMoving()
      requires Valid() && model.phase == Moving([])
      modifies `model, `acts
      ensures Valid() && model.phase.Running? && model == Step(old(model), Moved)
    {
      Record(Moved);
    }

    method MoveTask(id: Id, ghost list: seq<Id>)
      requires Valid() && list != [] && list[0] == id && model.phase == Moving(list)
      modifies this
      ensures Valid() && start == old(start) && model == Step(old(model), Move) && toWake == old(toWake)
      ensures queue == old(queue) + if id in old(waiting) then [id] else []
      ensures forall x :: x in waiting <==> x in old(waiting) && x != id
    {
      ExtractMembers(waiting, id);
      var pos := FindIndex(waiting, id);
      if pos.Some? {
        waiting := waiting[..pos.value] + waiting[pos.value + 1..];
        queue := queue + [id];
      }
      Record(Move);
    }

    method SleepTask(id: Id)
      requires Valid() && model.phase == Polling(id)
      modifies this
      ensures Valid() && start == old(start) && model == Step(old(model), Return(false)) && queue == old(queue)
      ensures waiting == old(waiting) + [id]
    {
      waiting := waiting + [id];
      Record(Return(false));
    }

    method HappenOne(event: Event)
      requires Valid() && model.phase.Polling?
      modifies this
      ensures Valid() && start == old(start) && model == AfterEvent(old(model), event)
      ensures old(queue) <= queue && waiting == old(waiting)
    {
      match event
      case Add(pid) => AddTask(pid);
      case Wake(id) => WakeTask(id);
      case Exit(pid) =>
        dead := dead + {pid};
        Record(Kill(pid));
    }

    method Happen(events: seq<Event>)
      requires Valid() && model.phase.Polling?
      modifies this
      ensures Valid() && start == old(start) && model.phase == old(model.phase)
      ensures events == [] ==> queue == old(queue)
      ensures old(queue) <= queue && waiting == old(waiting)
      ensures model == AfterEvents(old(model), events)
    {
      var i := 0;
      while i < |events|
        invariant 0 <= i <= |events| && Valid() && start == old(start) && model.phase == old(model.phase)
        invariant i == 0 ==> queue == old(queue)
        invariant old(queue) <= queue && waiting == old(waiting)
        invariant AfterEvents(old(model), events) == AfterEvents(model, events[i..])
      {
        assert events[i..][0] == events[i] && events[i..][1..] == events[i + 1..];
        HappenOne(events[i]);
        i := i + 1;
      }
    }

    method ProcessSingleTask(id: Id, effect: Effect)
      requires Valid() && model.phase == Polling(id)
      modifies this
      ensures Valid() && start == old(start) && model.phase.Running?
      ensures effect.events == [] ==> queue == old(queue)
      ensures effect.ready ==> id !in waiting && id in model.gone && waiting == old(waiting)
      ensures !effect.ready ==> waiting == old(waiting) + [id] && id !in model.gone
      ensures model == AfterPoll(old(model), effect)
      ensures old(queue) <= queue
    {
      Happen(effect.events);
      Returned(model, id, effect.ready);
      if effect.ready {
        Record(Return(true));
      } else {
        SleepTask(id);
      }
    }

    /** Takes the first task; it is dropped if its process is dead. */
    method NextTask() returns (id: Id, alive: bool)
      requires Valid() && model.phase.Running? && queue != []
      modifies this
      ensures Valid() && start == old(start) && queue == old(queue)[1..]
      ensures model.phase == if alive then Polling(id) else Running
      ensures id == old(queue)[0] && id in owner && waiting == old(waiting)
      ensures alive <==> owner[id].None? || owner[id].value !in dead
      ensures !alive ==> id in model.gone
      ensures model == Step(Step(old(model), Pop), Check)
    {
      id := PopTask();
      var pid := owner[id];
      alive := pid.None? || pid.value !in dead;
      Record(Check);
    }

    method PopTask() returns (id: Id)
      requires Valid() && model.phase.Running? && queue != []
      modifies this
      ensures Valid() && start == old(start) && queue == old(queue)[1..]
      ensures model.phase == Checking(id) && id in owner && id == old(queue)[0] && model == Step(old(model), Pop)
      ensures waiting == old(waiting) && owner == old(owner) && dead == old(dead)
    {
      id := queue[0];
      queue := queue[1..];
      Record(Pop);
      assert Placed(model, id);
    }

    /** A call ends with every task that was queued, or was waiting and had been woken, polled once, or
        with its process dead; it is a run of the transition system. */
    method ProcessTasks(polls: seq<Effect>)
      requires Valid() && model.phase.Idle?
      modifies this
      ensures Valid() && model.phase.Idle? && start == Step(old(model), Begin) && queue == []
      ensures forall id :: (id in old(toWake) && id in old(waiting)) || id in old(queue) ==>
                id in model.polled || Dead(model, id)
      ensures model == AfterCall(old(model), polls)
    {
      BeginCall();
      WakeTasksInList();
      RunQueue(polls);
      EndCall();
      AllAnswered(old(model), acts, model);
    }

    method BeginCall()
      requires Valid() && model.phase.Idle?
      modifies this
      ensures Valid() && model.phase.Begun? && start == Step(old(model), Begin) == model
    {
      flag := false;
      StepInv(model, Begin);
      model := Step(model, Begin);
      start, acts := model, [];
    }

    ghost method EndCall()
      requires Valid() && model.phase.Running? && queue == []
      modifies `model, `acts
      ensures Valid() && model.phase.Idle? && model == Step(old(model), Finish)
    {
      Record(Finish);
    }

    method RunQueue(polls: seq<Effect>)
      requires Valid() && model.phase.Running?
      modifies this
      ensures Valid() && start == old(start) && model.phase.Running? && queue == []
      ensures model == AfterQueue(old(model), polls)
    {
      var i := 0;
      while queue != []
        invariant Valid() && start == old(start) && model.phase.Running? && 0 <= i <= |polls|
        invariant AfterQueue(old(model), polls) == AfterQueue(model, polls[i..])
        decreases |polls| - i, |queue|
      {
        var id, alive := NextTask();
        if alive {
          var effect := Effect([], true);
          if i < |polls| {
            assert polls[i..][0] == polls[i] && polls[i..][1..] == polls[i + 1..];
            effect := polls[i];
            i := i + 1;
          }
          ProcessSingleTask(id, effect);
        }
      }
    }
  }
}
