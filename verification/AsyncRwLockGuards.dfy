/**
 What the operations of the asynchronous lock achieve. `AsyncRwLockProtocol` says which guards never
 exist together; here is when a poll gets its guard, what upgrading, downgrading and dropping leave
 behind, and which pending writers can ever be served.
 */
module AsyncRwLockGuards {
  import opened Collections
  import opened AsyncRwLockProtocol

  lemma RunOne(s: State, a: Action)
    ensures Run(s, [a]) == Step(s, a)
  {
    assert [a][1..] == [];
  }

  lemma RunCons(s: State, a: Action, rest: seq<Action>)
    ensures Run(s, [a] + rest) == Run(Step(s, a), rest)
  {
    assert ([a] + rest)[0] == a && ([a] + rest)[1..] == rest;
  }

  /** No writer is pending or holding exactly when the word says so. */
  lemma BitExact(s: State)
    requires Inv(s)
    ensures HasWriteBit(s.word) <==> Writers(s) != {}
    ensures s.word == 0 <==> Writers(s) == {} && Readers(s) == {}
    ensures Writers(s) == {} ==> s.word == |Readers(s)| < WRITE_BIT
  {
    if t :| t in Writers(s) { WriterSeesBit(s, t); }
  }

  // ---------------------------------------------------------------- polls

  /** A read poll that runs undisturbed gets its guard exactly if no writer is pending or holding, and
      changes nothing otherwise. */
  lemma ReadPollExact(s: State, t: Task)
    requires Inv(s) && t !in s.tasks
    ensures var s' := Run(s, [ReadLoad(t), ReadExchange(t)]);
            && (Writers(s) == {} ==> HoldsRead(s', t) && s' == State(s.word + 1, s.tasks[t := Reading]))
            && (Writers(s) != {} ==> s' == s)
  {
    BitExact(s);
    RunTwo(s, ReadLoad(t), ReadExchange(t));
    if Writers(s) == {} {
      OneMoreReader(s, t);
    } else {
      assert s.tasks - {t} == s.tasks;
    }
  }

  /** An exchange fails only if the word has changed since it was loaded, and then the task can poll again. */
  lemma ExchangeExact(s: State, a: Action)
    requires Inv(s) && Enabled(s, a) && (a.ReadExchange? || a.WriteExchange?)
    ensures var s' := Step(s, a);
            var gets := if a.ReadExchange? then HoldsRead(s', a.t) else OwnsBit(s', a.t);
            && (gets <==> s.word == s.tasks[a.t].word)
            && (!gets ==> s'.word == s.word && (HoldsRead(s', a.t) <==> HoldsRead(s, a.t)))
            && (!gets ==> Enabled(s', if HoldsRead(s, a.t) then UpgradeLoad(a.t) else if a.ReadExchange? then ReadLoad(a.t) else WriteLoad(a.t)))
  {
  }

  function WritePoll(t: Task): seq<Action> { [WriteLoad(t)] + ([WriteExchange(t)] + [DrainPoll(t)]) }

  /** A write poll that runs undisturbed gets its guard exactly if there is no guard at all. If there are
      only readers it becomes the pending writer. Otherwise it changes nothing. */
  lemma WritePollExact(s: State, t: Task)
    requires Inv(s) && t !in s.tasks
    ensures var s' := Run(s, WritePoll(t));
            && (Writers(s) == {} && Readers(s) == {} ==> s' == State(0x8000, s.tasks[t := Writing]))
            && (Writers(s) == {} && Readers(s) != {} ==> s' == State(s.word + 0x8000, s.tasks[t := Draining(false)]))
            && (Writers(s) != {} ==> s' == s)
  {
    BitExact(s);
    var s1 := Step(s, WriteLoad(t));
    var s2 := Step(s1, WriteExchange(t));
    RunCons(s, WriteLoad(t), [WriteExchange(t)] + [DrainPoll(t)]);
    RunCons(s1, WriteExchange(t), [DrainPoll(t)]);
    RunOne(s2, DrainPoll(t));
    assert s.tasks - {t} == s.tasks;
    if Writers(s) == {} {
      assert s2 == State(s.word + 0x8000, s.tasks[t := Draining(false)]);
      assert s2.tasks[t := Writing] == s.tasks[t := Writing];
    }
  }

  /** A pending writer gets its guard exactly when the only read guard left is its own, if it has one. */
  lemma DrainExact(s: State, t: Task)
    requires Inv(s) && t in s.tasks && s.tasks[t].Draining?
    ensures var s' := Step(s, DrainPoll(t));
            && (HoldsWrite(s', t) <==> Readers(s) == if HoldsRead(s, t) then {t} else {})
            && (HoldsWrite(s', t) ==> s' == s.(tasks := s.tasks[t := if HoldsRead(s, t) then Upgraded else Writing]))
            && (!HoldsWrite(s', t) ==> s' == s)
  {
    WriterSeesBit(s, t);
    var own := if HoldsRead(s, t) then {t} else {};
    assert own <= Readers(s);
    if |Readers(s)| == |own| { SameSize(own, Readers(s)); }
  }

  lemma SameSize(a: set<Task>, b: set<Task>)
    requires a <= b && |a| == |b|
    ensures a == b
  {
    assert |b - a| == |b| - |a|;
  }

  // ---------------------------------------------------------------- upgrade, downgrade and drop

  function UpgradePoll(t: Task): seq<Action> {
    [StartUpgrade(t)] + ([UpgradeLoad(t)] + ([WriteExchange(t)] + [DrainPoll(t)]))
  }

  function DropGuard(t: Task): seq<Action> { [DropLoad(t), DropStore(t)] }

  lemma UpgradeRun(s: State, t: Task, s1: State, s2: State, s3: State)
    requires s1 == Step(s, StartUpgrade(t)) && s2 == Step(s1, UpgradeLoad(t)) && s3 == Step(s2, WriteExchange(t))
    ensures Run(s, UpgradePoll(t)) == Step(s3, DrainPoll(t))
  {
    RunCons(s, StartUpgrade(t), [UpgradeLoad(t)] + ([WriteExchange(t)] + [DrainPoll(t)]));
    RunCons(s1, UpgradeLoad(t), [WriteExchange(t)] + [DrainPoll(t)]);
    RunCons(s2, WriteExchange(t), [DrainPoll(t)]);
    RunOne(s3, DrainPoll(t));
  }

  lemma UpgradeLoads(s: State, t: Task, s2: State)
    requires Is(s, t, Reading) && s2 == Step(Step(s, StartUpgrade(t)), UpgradeLoad(t))
    ensures s2 == s.(tasks := s.tasks[t := if HasWriteBit(s.word) then Upgrading else WriteLoaded(s.word, true)])
  {
  }

  lemma UpgradeSets(s: State, t: Task, s2: State)
    requires s2 == s.(tasks := s.tasks[t := if HasWriteBit(s.word) then Upgrading else WriteLoaded(s.word, true)])
    ensures Step(s2, WriteExchange(t)) == if HasWriteBit(s.word) then s.(tasks := s.tasks[t := Upgrading])
                                          else State(s.word + 0x8000, s.tasks[t := Draining(true)])
  {
  }

  lemma UpgradeSteps(s: State, t: Task) returns (s3: State)
    requires Is(s, t, Reading)
    ensures Run(s, UpgradePoll(t)) == Step(s3, DrainPoll(t))
    ensures s3 == if HasWriteBit(s.word) then s.(tasks := s.tasks[t := Upgrading])
                  else State(s.word + 0x8000, s.tasks[t := Draining(true)])
  {
    var s1 := Step(s, StartUpgrade(t));
    var s2 := Step(s1, UpgradeLoad(t));
    s3 := Step(s2, WriteExchange(t));
    UpgradeRun(s, t, s1, s2, s3);
    UpgradeLoads(s, t, s2);
    UpgradeSets(s, t, s2);
  }

  /** An upgrade that runs undisturbed gets the write guard exactly if its read guard is the only guard. */
  lemma UpgradePollExact(s: State, t: Task)
    requires Inv(s) && Is(s, t, Reading)
    ensures var s' := Run(s, UpgradePoll(t));
            && (Writers(s) == {} && Readers(s) == {t} ==> s' == State(0x8001, s.tasks[t := Upgraded]))
            && (Writers(s) == {} && Readers(s) != {t} ==> s' == State(s.word + 0x8000, s.tasks[t := Draining(true)]))
            && (Writers(s) != {} ==> s' == s.(tasks := s.tasks[t := Upgrading]))
  {
    BitExact(s);
    var s3 := UpgradeSteps(s, t);
    assert {t} <= Readers(s);
    if |Readers(s)| == 1 { SameSize({t}, Readers(s)); }
    assert s.tasks[t := Draining(true)][t := Upgraded] == s.tasks[t := Upgraded];
  }

  /** A task with the only guard upgrades and drops its read guard: it ends as the sole writer. */
  lemma UpgradeAlone(s: State, t: Task)
    requires Inv(s) && Is(s, t, Reading) && Writers(s) == {} && Readers(s) == {t}
    ensures Run(Run(s, UpgradePoll(t)), DropGuard(t)) == State(0x8000, s.tasks[t := Writing])
    ensures var s' := State(0x8000, s.tasks[t := Writing]); Writers(s') == {t} && Readers(s') == {}
  {
    UpgradePollExact(s, t);
    var s1 := State(0x8001, s.tasks[t := Upgraded]);
    RunTwo(s1, DropLoad(t), DropStore(t));
    var s2 := State(0x8000, s.tasks[t := Writing]);
    assert s2.tasks == Step(Step(s1, DropLoad(t)), DropStore(t)).tasks;
    forall u | u != t ensures u !in Writers(s2) && u !in Readers(s2) { assert u !in Writers(s) && u !in Readers(s); }
  }

  /** After a downgrade the task has the only guard, a read guard. */
  lemma DowngradeExact(s: State, t: Task)
    requires Inv(s) && Is(s, t, Writing)
    ensures var s' := Step(s, Downgrade(t));
            && s'.word == 1 && Is(s', t, Reading) && Writers(s') == {} && Readers(s') == {t}
            && forall u :: u != t ==> (u in s'.tasks <==> u in s.tasks) && (u in s.tasks ==> s'.tasks[u] == s.tasks[u])
  {
    var s' := Step(s, Downgrade(t));
    WriterSeesBit(s, t);
    InvExclusive(s);
    assert HoldsWrite(s, t);
    forall u | u != t ensures u !in Writers(s') && u !in Readers(s') {
      assert u !in Writers(s);
      assert !HoldsRead(s, u);
    }
  }

  lemma ReaderDrops(s: State, t: Task)
    requires Inv(s) && t in s.tasks && (s.tasks[t].Reading? || s.tasks[t].ReadDropping?)
    ensures var s' := Run(s, DropGuard(t)); s'.word + 1 == s.word && s'.tasks == s.tasks - {t}
  {
    RunTwo(s, DropLoad(t), DropStore(t));
    assert t in Readers(s) && |Readers(s)| >= 1;
    if u :| u in Writers(s) { WriterSeesBit(s, u); }
    assert s.word != 0x8000;
    assert s.tasks[t := ReadDropping(s.word)] - {t} == s.tasks - {t};
  }

  lemma WriterDrops(s: State, t: Task)
    requires Inv(s) && (Is(s, t, Writing) || Is(s, t, Upgraded))
    ensures var s' := Run(s, DropGuard(t));
            s' == if Is(s, t, Writing) then State(0, s.tasks - {t}) else State(0x8000, s.tasks[t := Writing])
  {
    RunTwo(s, DropLoad(t), DropStore(t));
    WriterSeesBit(s, t);
    assert HoldsWrite(s, t);
    assert s.tasks[t := WriteDropping(s.word)] - {t} == s.tasks - {t};
    assert s.tasks[t := UpgradeDropping(s.word)][t := Writing] == s.tasks[t := Writing];
  }

  /** A guard that is dropped undisturbed is gone, and the word counts what is left. The read guard of
      an upgrade leaves the write guard behind. */
  lemma DropExact(s: State, t: Task)
    requires Inv(s) && (Is(s, t, Reading) || Is(s, t, Writing) || Is(s, t, Upgraded))
    ensures var s' := Run(s, DropGuard(t));
            && (Is(s, t, Reading) ==> s'.word + 1 == s.word && s'.tasks == s.tasks - {t})
            && (Is(s, t, Writing) ==> s' == State(0, s.tasks - {t}))
            && (Is(s, t, Upgraded) ==> s' == State(0x8000, s.tasks[t := Writing]))
  {
    if Is(s, t, Reading) { ReaderDrops(s, t); } else { WriterDrops(s, t); }
  }

  // ---------------------------------------------------------------- which pending writers can be served

  /** The task holds a read guard and waits to set the bit. */
  predicate WantsUpgrade(s: State, t: Task) {
    t in s.tasks && (s.tasks[t].Upgrading? || (s.tasks[t].WriteLoaded? && s.tasks[t].upgrading))
  }

  lemma StillWaiting(s: State, t: Task, u: Task, a: Action)
    requires Inv(s) && t != u && t in s.tasks && s.tasks[t].Draining? && WantsUpgrade(s, u)
    ensures var s' := Step(s, a); t in s'.tasks && s'.tasks[t] == s.tasks[t] && WantsUpgrade(s', u)
  {
    WriterSeesBit(s, t);
    assert u in Readers(s);
    if a == DrainPoll(t) { DrainExact(s, t); }
  }

  /** While another task wants to upgrade, a pending writer stays pending in every schedule: it waits for
      the other's read guard to go, and the other for the bit to be cleared. */
  lemma {:induction false} UpgradesBlock(s: State, t: Task, u: Task, actions: seq<Action>)
    requires Inv(s) && StaysWithin(s, actions)
    requires t != u && t in s.tasks && s.tasks[t].Draining? && WantsUpgrade(s, u)
    ensures var s' := Run(s, actions); t in s'.tasks && s'.tasks[t] == s.tasks[t] && WantsUpgrade(s', u)
    decreases |actions|
  {
    if actions == [] {
    } else {
      StillWaiting(s, t, u, actions[0]);
      StepInv(s, actions[0]);
      UpgradesBlock(Step(s, actions[0]), t, u, actions[1..]);
    }
  }

  lemma {:induction false} WithinAppend(s: State, a: seq<Action>, b: seq<Action>)
    requires StaysWithin(s, a) && StaysWithin(Run(s, a), b)
    ensures StaysWithin(s, a + b)
    decreases |a|
  {
    if a == [] {
      assert a + b == b;
    } else {
      assert (a + b)[0] == a[0] && (a + b)[1..] == a[1..] + b;
      WithinAppend(Step(s, a[0]), a[1..], b);
    }
  }

  lemma DropStaysWithin(s: State, t: Task)
    requires Inv(s)
    ensures StaysWithin(s, DropGuard(t)) && Inv(Run(s, DropGuard(t)))
  {
    var s1 := Step(s, DropLoad(t));
    var s2 := Step(s1, DropStore(t));
    if Enabled(s, DropLoad(t)) { Census(s, DropLoad(t)); }
    StepInv(s, DropLoad(t));
    if Enabled(s1, DropStore(t)) { Census(s1, DropStore(t)); }
    StepInv(s1, DropStore(t));
    RunTwo(s, DropLoad(t), DropStore(t));
    assert DropGuard(t)[1..] == [DropStore(t)] && [DropStore(t)][1..] == [];
    assert StaysWithin(s1, [DropStore(t)]) by { assert StaysWithin(s2, []); }
  }

  lemma OneStepWithin(s: State, a: Action)
    requires Inv(s) && a.DrainPoll?
    ensures StaysWithin(s, [a])
  {
    if Enabled(s, a) { Census(s, a); }
    assert [a][1..] == [] && StaysWithin(Step(s, a), []);
  }

  /** A pending writer that has to wait waits for a task that is reading or about to drop its guard. */
  lemma WaitedFor(s: State, t: Task) returns (u: Task)
    requires Inv(s) && t in s.tasks && s.tasks[t].Draining? && forall x :: x != t ==> !WantsUpgrade(s, x)
    requires Readers(s) != if HoldsRead(s, t) then {t} else {}
    ensures u != t && u in s.tasks && (s.tasks[u].Reading? || s.tasks[u].ReadDropping?)
  {
    var own := if HoldsRead(s, t) then {t} else {};
    assert own <= Readers(s);
    assert Readers(s) == own + (Readers(s) - own);
    u :| u in Readers(s) - own;
    WriterSeesBit(s, t);
    assert u !in Writers(s) && !WantsUpgrade(s, u);
  }

  lemma OneReaderLess(s: State, t: Task, u: Task, s': State)
    requires u != t && u in s.tasks && HoldsRead(s, u) && s'.tasks == s.tasks - {u}
    requires forall x :: x != t ==> !WantsUpgrade(s, x)
    ensures |Readers(s')| < |Readers(s)| && forall x :: x != t ==> !WantsUpgrade(s', x)
  {
    DifferInOne(Readers(s), Readers(s'), u);
    forall x | x != t ensures !WantsUpgrade(s', x) { assert !WantsUpgrade(s, x); }
  }

  /** If no other task wants to upgrade, the readers can drop their guards and the writer is served. */
  lemma {:induction false} CanBeServed(s: State, t: Task) returns (actions: seq<Action>)
    requires Inv(s) && t in s.tasks && s.tasks[t].Draining? && forall u :: u != t ==> !WantsUpgrade(s, u)
    ensures StaysWithin(s, actions) && HoldsWrite(Run(s, actions), t)
    decreases |Readers(s)|
  {
    if Readers(s) == if HoldsRead(s, t) then {t} else {} {
      DrainExact(s, t);
      RunOne(s, DrainPoll(t));
      actions := [DrainPoll(t)];
      OneStepWithin(s, DrainPoll(t));
    } else {
      var u := WaitedFor(s, t);
      ReaderDrops(s, u);
      DropStaysWithin(s, u);
      var s' := Run(s, DropGuard(u));
      OneReaderLess(s, t, u, s');
      var rest := CanBeServed(s', t);
      actions := DropGuard(u) + rest;
      RunAppend(s, DropGuard(u), rest);
      WithinAppend(s, DropGuard(u), rest);
    }
  }

  ghost predicate Serves(s: State, t: Task, actions: seq<Action>) {
    StaysWithin(s, actions) && HoldsWrite(Run(s, actions), t)
  }

  /** A pending writer can be served if and only if no other task that holds a read guard wants to
      upgrade. */
  lemma ServedExact(s: State, t: Task)
    requires Inv(s) && t in s.tasks && s.tasks[t].Draining?
    ensures (exists actions :: Serves(s, t, actions)) <==> forall u :: u != t ==> !WantsUpgrade(s, u)
  {
    if forall u :: u != t ==> !WantsUpgrade(s, u) {
      var actions := CanBeServed(s, t);
      assert Serves(s, t, actions);
    } else {
      var u :| u != t && WantsUpgrade(s, u);
      forall actions ensures !Serves(s, t, actions) {
        if StaysWithin(s, actions) { UpgradesBlock(s, t, u, actions); }
      }
    }
  }

  const STUCK: State := State(0x8002, map[0 := Draining(true), 1 := Upgrading])

  function BothRead(): seq<Action> { [ReadLoad(0), ReadExchange(0)] + [ReadLoad(1), ReadExchange(1)] }

  function BothUpgrade(): seq<Action> { UpgradePoll(0) + [StartUpgrade(1)] }

  lemma BothReading()
    ensures Run(Init(), BothRead()) == State(2, map[0 := Reading, 1 := Reading])
  {
    RunAppend(Init(), [ReadLoad(0), ReadExchange(0)], [ReadLoad(1), ReadExchange(1)]);
    OneMoreReader(Init(), 0);
    OneMoreReader(State(1, map[0 := Reading]), 1);
  }

  lemma FirstUpgrading(s: State, s1: State)
    requires s == State(2, map[0 := Reading, 1 := Reading]) && s1 == State(0x8002, map[0 := Draining(true), 1 := Reading])
    ensures Run(s, UpgradePoll(0)) == s1
  {
    var s3 := UpgradeSteps(s, 0);
    assert s.tasks[0 := Draining(true)] == s1.tasks;
  }

  lemma BothUpgrading(s: State)
    requires s == State(2, map[0 := Reading, 1 := Reading])
    ensures Run(s, BothUpgrade()) == STUCK
  {
    var s1 := State(0x8002, map[0 := Draining(true), 1 := Reading]);
    FirstUpgrading(s, s1);
    assert s1.tasks[1 := Upgrading] == STUCK.tasks;
    RunAppend(s, UpgradePoll(0), [StartUpgrade(1)]);
    RunOne(s1, StartUpgrade(1));
  }

  lemma StuckInv()
    ensures Inv(STUCK)
  {
    assert Readers(STUCK) == {0, 1} && Writers(STUCK) == {0};
  }

  /** Two tasks that read and then upgrade wait for each other for ever. */
  lemma BothUpgradeStuck(more: seq<Action>)
    requires StaysWithin(STUCK, more)
    ensures Run(Run(Init(), BothRead()), BothUpgrade()) == STUCK
    ensures !HoldsWrite(Run(STUCK, more), 0) && !HoldsWrite(Run(STUCK, more), 1)
  {
    BothReading();
    BothUpgrading(State(2, map[0 := Reading, 1 := Reading]));
    StuckInv();
    UpgradesBlock(STUCK, 0, 1, more);
  }
}
