/**
 What the operations of `Arc` and `Weak` achieve. `ArcProtocol` says what no schedule does; here is what
 an operation does: an upgrade fails only on a dead count, every operation that runs undisturbed ends
 with the handles it should, and a thread inside an operation can always finish it by itself.
 */
module ArcOperations {
  import opened Collections
  import opened ArcProtocol

  // ---------------------------------------------------------------- when an upgrade fails

  /** In every schedule, a thread leaves an upgrade without a handle exactly in a step that it takes
      while the strong count is zero. */
  lemma UpgradeFailsExactly(h: Handle, actions: seq<Action>, a: Action)
    requires Enabled(Run(Init(h), actions), a) && (a.UpgradeLoad? || a.UpgradeExchange?)
    ensures var s := Run(Init(h), actions); a.t !in Step(s, a).threads <==> s.strong == 0
  {
    RunInv(Init(h), actions);
  }

  /** The strong count a thread in an upgrade has read last, or zero. */
  function LastRead(s: State, t: Thread): nat {
    if t in s.threads && s.threads[t].Upgrading? then s.threads[t].current else 0
  }

  /** An exchange that neither ends the upgrade nor gets its unit has found another count than it had
      read, and has read that one: only another thread's success makes a thread try again. */
  lemma RetryMeansChanged(h: Handle, actions: seq<Action>, t: Thread)
    requires Enabled(Run(Init(h), actions), UpgradeExchange(t))
    ensures var s := Run(Init(h), actions);
            var s' := Step(s, UpgradeExchange(t));
            && (s.strong == LastRead(s, t) ==> s' == s.(strong := s.strong + 1, threads := s'.threads) && IsAt(s', t, AtBumped))
            && (s.strong != LastRead(s, t) ==> s' == s.(threads := s'.threads) && LastRead(s', t) == s.strong)
  {
    RunInv(Init(h), actions);
  }

  // ---------------------------------------------------------------- operations that run undisturbed

  lemma RunOne(s: State, a: Action)
    ensures Run(s, [a]) == Step(s, a)
  {
    assert [a][1..] == [];
  }

  lemma RunCons(s: State, a: Action, rest: seq<Action>)
    ensures Run(s, [a] + rest) == Run(Step(s, a), rest)
  {
    assert ([a] + rest)[0] == a && ([a] + rest)[1..] == rest;
  }

  /** The handles and the counters, and nothing of what the threads do. */
  predicate Holds(s: State, arcs: set<Handle>, weaks: set<Handle>, strong: int, all: int) {
    s.arcs == arcs && s.weaks == weaks && s.strong == strong && s.all == all
  }

  predicate SameLedger(s: State, s': State) {
    s'.dropStarts == s.dropStarts && s'.dropEnds == s.dropEnds && s'.frees == s.frees
  }

  /** A clone of a strong handle gives one more. */
  lemma CloneAlone(s: State, t: Thread, h: Handle, n: Handle)
    requires t !in s.threads && h in s.arcs && Unused(s, n)
    ensures var s' := Run(s, [CloneAll(t, h)] + [CloneStrong(t, n)]);
            && Holds(s', s.arcs + {n}, s.weaks, s.strong + 1, s.all + 1)
            && s'.threads == s.threads && SameLedger(s, s')
  {
    RunCons(s, CloneAll(t, h), [CloneStrong(t, n)]);
    RunOne(Step(s, CloneAll(t, h)), CloneStrong(t, n));
    assert s.threads[t := Cloning(h)] - {t} == s.threads;
  }

  /** A downgrade, and the clone of a weak handle, give one more weak handle. */
  lemma NewWeakAlone(s: State, a: Action)
    requires Enabled(s, a) && (a.Downgrade? || a.CloneWeak?)
    ensures var s' := Step(s, a);
            && Holds(s', s.arcs, s.weaks + {a.fresh'}, s.strong, s.all + 1)
            && s'.threads == s.threads && SameLedger(s, s')
  {
  }

  /** An upgrade on a live count gives a strong handle, whatever the count is. */
  lemma UpgradeAlone(s: State, t: Thread, h: Handle, n: Handle)
    requires s.strong > 0 && t !in s.threads && h in s.weaks && Unused(s, n)
    ensures var s' := Run(s, [UpgradeLoad(t, h)] + ([UpgradeExchange(t)] + [UpgradeAll(t, n)]));
            && Holds(s', s.arcs + {n}, s.weaks, s.strong + 1, s.all + 1)
            && s'.threads == s.threads && SameLedger(s, s')
  {
    var s1 := Step(s, UpgradeLoad(t, h));
    var s2 := Step(s1, UpgradeExchange(t));
    RunCons(s, UpgradeLoad(t, h), [UpgradeExchange(t)] + [UpgradeAll(t, n)]);
    RunCons(s1, UpgradeExchange(t), [UpgradeAll(t, n)]);
    RunOne(s2, UpgradeAll(t, n));
    assert s2 == s.(strong := s.strong + 1, threads := s.threads[t := Bumped(h)]);
    assert s.threads[t := Bumped(h)] - {t} == s.threads;
  }

  /** An upgrade on a dead count changes nothing. */
  lemma UpgradeOfDead(s: State, t: Thread, h: Handle)
    requires s.strong == 0 && t !in s.threads
    ensures Step(s, UpgradeLoad(t, h)) == s
  {
    assert s.threads - {t} == s.threads;
  }

  /** The steps of a drop from the first decrement on; those that do not apply are skipped. */
  function Ending(t: Thread): seq<Action> { [DropBegin(t)] + ([DropEnd(t)] + Letting(t)) }

  function Letting(t: Thread): seq<Action> { [Release(t)] + [Free(t)] }

  lemma LettingAlone(s: State, t: Thread)
    requires t in s.threads && s.threads[t] == Releasing
    ensures var s' := Run(s, Letting(t));
            && Holds(s', s.arcs, s.weaks, s.strong, s.all - 1) && s'.threads == s.threads - {t}
            && s'.dropStarts == s.dropStarts && s'.dropEnds == s.dropEnds
            && s'.frees == s.frees + One(s.all == 1)
  {
    RunCons(s, Release(t), [Free(t)]);
    RunOne(Step(s, Release(t)), Free(t));
    assert s.threads[t := MustFree] - {t} == s.threads - {t};
  }

  lemma EndingAlone(s: State, t: Thread)
    requires t in s.threads && (s.threads[t] == MustDrop || s.threads[t] == Releasing)
    ensures var s' := Run(s, Ending(t));
            var last := One(s.threads[t] == MustDrop);
            && Holds(s', s.arcs, s.weaks, s.strong, s.all - 1) && s'.threads == s.threads - {t}
            && s'.dropStarts == s.dropStarts + last && s'.dropEnds == s.dropEnds + last
            && s'.frees == s.frees + One(s.all == 1)
  {
    var s1 := Step(s, DropBegin(t));
    var s2 := Step(s1, DropEnd(t));
    RunCons(s, DropBegin(t), [DropEnd(t)] + Letting(t));
    RunCons(s1, DropEnd(t), Letting(t));
    assert s2.threads == s.threads[t := Releasing];
    LettingAlone(s2, t);
    assert s2.threads - {t} == s.threads - {t};
  }

  /** Dropping a strong handle takes it away and lowers both counters. The data is dropped exactly if the
      handle was the last strong one, and the block freed exactly if it was the last of all. */
  lemma DropArcAlone(s: State, t: Thread, h: Handle)
    requires t !in s.threads && h in s.arcs && !Borrowed(s, h)
    ensures var s' := Run(s, [DropArc(t, h)] + Ending(t));
            && Holds(s', s.arcs - {h}, s.weaks, s.strong - 1, s.all - 1) && s'.threads == s.threads
            && s'.dropStarts == s.dropStarts + One(s.strong == 1) && s'.dropEnds == s.dropEnds + One(s.strong == 1)
            && s'.frees == s.frees + One(s.all == 1)
  {
    var s1 := Step(s, DropArc(t, h));
    RunCons(s, DropArc(t, h), Ending(t));
    EndingAlone(s1, t);
    assert s1.threads - {t} == s.threads;
  }

  /** Dropping a weak handle takes it away, and frees the block exactly if it was the last of all. */
  lemma DropWeakAlone(s: State, t: Thread, h: Handle)
    requires t !in s.threads && h in s.weaks && !Borrowed(s, h)
    ensures var s' := Run(s, [DropWeak(t, h)] + [Free(t)]);
            && Holds(s', s.arcs, s.weaks - {h}, s.strong, s.all - 1) && s'.threads == s.threads
            && s'.dropStarts == s.dropStarts && s'.dropEnds == s.dropEnds
            && s'.frees == s.frees + One(s.all == 1)
  {
    RunCons(s, DropWeak(t, h), [Free(t)]);
    RunOne(Step(s, DropWeak(t, h)), Free(t));
    assert s.threads - {t} == s.threads && s.threads[t := MustFree] - {t} == s.threads;
  }

  // ---------------------------------------------------------------- every operation can be finished

  predicate AllBy(actions: seq<Action>, t: Thread) { forall i :: 0 <= i < |actions| ==> actions[i].t == t }

  /** The steps that finish whatever a thread is doing; those that do not apply are skipped. */
  function Finish(t: Thread, n: Handle): seq<Action> {
    [UpgradeExchange(t)] + ([UpgradeExchange(t)] + ([UpgradeAll(t, n)] + ([CloneStrong(t, n)] + Ending(t))))
  }

  lemma FinishIsOwn(t: Thread, n: Handle)
    ensures AllBy(Finish(t, n), t) && |Finish(t, n)| == 8
  {
  }

  /** From every state, a thread inside an operation ends it with at most eight steps of its own if it is
      left undisturbed, so no thread has to wait for another. */
  lemma CanFinish(s: State, t: Thread, n: Handle)
    requires Unused(s, n)
    ensures AllBy(Finish(t, n), t) && |Finish(t, n)| == 8 && t !in Run(s, Finish(t, n)).threads
  {
    var rest := [UpgradeAll(t, n)] + ([CloneStrong(t, n)] + Ending(t));
    var s1 := Step(s, UpgradeExchange(t));
    var s2 := Step(s1, UpgradeExchange(t));
    FinishIsOwn(t, n);
    RunCons(s, UpgradeExchange(t), [UpgradeExchange(t)] + rest);
    RunCons(s1, UpgradeExchange(t), rest);
    ExchangeSettles(s, t, s1, s2);
    FinishRest(s2, t, n);
  }

  /** A second exchange without a step of another thread in between settles an upgrade. */
  lemma ExchangeSettles(s: State, t: Thread, s1: State, s2: State)
    requires s1 == Step(s, UpgradeExchange(t)) && s2 == Step(s1, UpgradeExchange(t))
    ensures !IsAt(s2, t, AtUpgrading) && s2.arcs == s.arcs && s2.weaks == s.weaks
  {
  }

  lemma FinishRest(s: State, t: Thread, n: Handle)
    requires !IsAt(s, t, AtUpgrading) && Unused(s, n)
    ensures t !in Run(s, [UpgradeAll(t, n)] + ([CloneStrong(t, n)] + Ending(t))).threads
  {
    var s1 := Step(s, UpgradeAll(t, n));
    var s2 := Step(s1, CloneStrong(t, n));
    RunCons(s, UpgradeAll(t, n), [CloneStrong(t, n)] + Ending(t));
    RunCons(s1, CloneStrong(t, n), Ending(t));
    FinishDrop(s2, t);
  }

  lemma FinishDrop(s: State, t: Thread)
    requires t in s.threads ==> s.threads[t].MustDrop? || s.threads[t].Dropping? || s.threads[t].Releasing? || s.threads[t].MustFree?
    ensures t !in Run(s, Ending(t)).threads
  {
    var s1 := Step(s, DropBegin(t));
    var s2 := Step(s1, DropEnd(t));
    var s3 := Step(s2, Release(t));
    RunCons(s, DropBegin(t), [DropEnd(t)] + Letting(t));
    RunCons(s1, DropEnd(t), Letting(t));
    RunCons(s2, Release(t), [Free(t)]);
    RunOne(s3, Free(t));
  }
}
