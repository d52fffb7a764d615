/**
 The bounded queue of tasks and packets on values: its items, and the count of nodes that is kept
 beside them and compared with the limit.
 */
module DataQueue {
  import opened Collections

  // ---------------------------------------------------------------- the queue on values

  datatype Queue<T> = Queue(items: seq<T>, max: nat, count: nat)

  function New<T>(max: nat): Queue<T> { Queue([], max, 0) }

  /** Taking the first node does not lower the count. */
  function GetFirst<T>(q: Queue<T>): (Queue<T>, Option<T>) {
    if q.items == [] then (q, None) else (q.(items := q.items[1..]), Some(q.items[0]))
  }

  predicate Full<T>(q: Queue<T>) { q.count >= q.max }

  /** The queue after so many rounds of dropping the oldest node. */
  function Drops<T>(q: Queue<T>, rounds: nat): Queue<T> {
    if rounds == 0 then q else GetFirst(Drops(q, rounds - 1)).0
  }

  /** A push first drops nodes until the queue is not full. That loop ends only if it does not start:
      once the count has reached the limit a push never returns. */
  lemma PushReturnsExact<T>(q: Queue<T>)
    ensures (exists rounds :: !Full(Drops(q, rounds))) <==> q.count < q.max
  {
    if q.count < q.max { assert !Full(Drops(q, 0)); }
    forall rounds ensures Drops(q, rounds).count == q.count && Drops(q, rounds).max == q.max {
      DropsCount(q, rounds);
    }
  }

  lemma {:induction false} DropsCount<T>(q: Queue<T>, rounds: nat)
    ensures Drops(q, rounds).count == q.count && Drops(q, rounds).max == q.max
  {
    if rounds == 0 {
    } else {
      DropsCount(q, rounds - 1);
    }
  }

  /** A push that returns. */
  function Push<T>(q: Queue<T>, x: T): Queue<T>
    requires !Full(q)
  {
    if q.items == [] then q.(items := [x], count := 1) else q.(items := q.items + [x], count := q.count + 1)
  }

  // ---------------------------------------------------------------- runs

  datatype Op<T> = PushOp(item: T) | GetOp

  datatype Ran<T> = Ran(q: Queue<T>, taken: seq<T>)

  function Step<T>(r: Ran<T>, op: Op<T>): Option<Ran<T>> {
    match op
    case PushOp(x) => if Full(r.q) then None else Some(r.(q := Push(r.q, x)))
    case GetOp =>
      var (q, x) := GetFirst(r.q);
      Some(Ran(q, if x.Some? then r.taken + [x.value] else r.taken))
  }

  /** A run from the empty queue, and what was taken out in it; `None` if a push does not return. */
  function Run<T>(max: nat, ops: seq<Op<T>>): Option<Ran<T>>
    decreases |ops|
  {
    if ops == [] then Some(Ran(New(max), []))
    else
      var r := Run(max, ops[..|ops| - 1]);
      if r.None? then None else Step(r.value, ops[|ops| - 1])
  }

  /** What the operations themselves say: the items pushed, in order, and how many of them no get has
      taken out again. */
  function Pushed<T>(ops: seq<Op<T>>): seq<T>
    decreases |ops|
  {
    if ops == [] then []
    else
      var front, op := ops[..|ops| - 1], ops[|ops| - 1];
      if op.PushOp? then Pushed(front) + [op.item] else Pushed(front)
  }

  function Left<T>(ops: seq<Op<T>>): (n: nat)
    ensures n <= |Pushed(ops)|
    decreases |ops|
  {
    if ops == [] then 0
    else
      var n := Left(ops[..|ops| - 1]);
      if ops[|ops| - 1].PushOp? then n + 1 else if n == 0 then 0 else n - 1
  }

  /** A push that finds the queue empty. */
  predicate Refills<T>(ops: seq<Op<T>>, k: nat) {
    k < |ops| && ops[k].PushOp? && Left(ops[..k]) == 0
  }

  /** Operation `k` is the last push that found the queue empty. */
  ghost predicate LastRefill<T>(ops: seq<Op<T>>, k: nat) {
    Refills(ops, k) && forall j: nat :: Refills(ops, j) ==> j <= k
  }

  lemma RefillsPrefix<T>(ops: seq<Op<T>>, n: nat, k: nat)
    requires k < n <= |ops|
    ensures Refills(ops[..n], k) <==> Refills(ops, k)
  {
    assert ops[..n][..k] == ops[..k];
  }

  lemma {:induction false} FirstRefill<T>(ops: seq<Op<T>>)
    requires Pushed(ops) != []
    ensures exists k: nat :: LastRefill(ops, k)
    decreases |ops|
  {
    var n := |ops| - 1;
    var front := ops[..n];
    assert forall k: nat :: k < n ==> (Refills(front, k) <==> Refills(ops, k)) by {
      forall k: nat | k < n ensures Refills(front, k) <==> Refills(ops, k) { RefillsPrefix(ops, n, k); }
    }
    if Refills(ops, n) {
      assert LastRefill(ops, n);
    } else {
      FirstRefill(front);
      var k: nat :| LastRefill(front, k);
      assert LastRefill(ops, k);
    }
  }

  /** The state after a run that went through, in terms of its operations. */
  ghost predicate Agrees<T>(ops: seq<Op<T>>, r: Ran<T>) { ItemsAgree(ops, r) && CountAgrees(ops, r.q.count) }

  ghost predicate ItemsAgree<T>(ops: seq<Op<T>>, r: Ran<T>) {
    var taken := |Pushed(ops)| - Left(ops);
    r.taken == Pushed(ops)[..taken] && r.q.items == Pushed(ops)[taken..]
  }

  ghost predicate CountAgrees<T>(ops: seq<Op<T>>, count: nat) {
    && (Pushed(ops) == [] ==> count == 0)
    && (forall k: nat :: LastRefill(ops, k) ==> count == |Pushed(ops[k..])|)
  }

  lemma PushedSince<T>(ops: seq<Op<T>>, k: nat)
    requires k < |ops|
    ensures |Pushed(ops[k..])| == |Pushed(ops[k..|ops| - 1])| + One(ops[|ops| - 1].PushOp?)
  {
    assert ops[k..][..|ops| - k - 1] == ops[k..|ops| - 1];
  }

  lemma RefillBefore<T>(ops: seq<Op<T>>, n: nat, k: nat)
    requires n == |ops| - 1 && LastRefill(ops, k) && k < n
    ensures LastRefill(ops[..n], k) && !Refills(ops, n)
  {
    forall j: nat | Refills(ops[..n], j) ensures j <= k { RefillsPrefix(ops, n, j); }
    RefillsPrefix(ops, n, k);
  }

  lemma StepCounts<T>(ops: seq<Op<T>>, n: nat, count: nat, count': nat)
    requires n == |ops| - 1 >= 0 && CountAgrees(ops[..n], count)
    requires count' == if ops[n].GetOp? then count else if Left(ops[..n]) == 0 then 1 else count + 1
    ensures CountAgrees(ops, count')
  {
    forall k: nat | LastRefill(ops, k) ensures count' == |Pushed(ops[k..])| {
      PushedSince(ops, k);
      if k == n {
        assert ops[k..n] == [];
      } else {
        RefillBefore(ops, n, k);
        assert ops[..n][k..] == ops[k..n];
      }
    }
  }

  lemma StepItems<T>(ops: seq<Op<T>>, r: Ran<T>, r': Ran<T>)
    requires ops != [] && ItemsAgree(ops[..|ops| - 1], r) && Step(r, ops[|ops| - 1]) == Some(r')
    ensures ItemsAgree(ops, r')
  {
  }

  /** In every run that goes through, the items come out in the order they were pushed and the rest is
      still there, and the count is the number of pushes since one last found the queue empty, however
      many items have been taken out since. */
  lemma {:induction false} FirstInFirstOut<T>(max: nat, ops: seq<Op<T>>)
    requires Run(max, ops).Some?
    ensures Agrees(ops, Run(max, ops).value) && Run(max, ops).value.q.max == max
    decreases |ops|
  {
    if ops == [] {
    } else {
      var front := ops[..|ops| - 1];
      FirstInFirstOut(max, front);
      StepItems(ops, Run(max, front).value, Run(max, ops).value);
      StepCounts(ops, |ops| - 1, Run(max, front).value.q.count, Run(max, ops).value.q.count);
    }
  }

  /** The pushes since the queue was last found empty are as many as the limit allows. */
  ghost predicate Exhausted<T>(ops: seq<Op<T>>, max: nat) {
    max == 0 || exists k: nat :: LastRefill(ops, k) && |Pushed(ops[k..])| >= max
  }

  /** A run gets stuck exactly at the first push that comes when the limit is exhausted in this sense. */
  lemma StuckExact<T>(max: nat, ops: seq<Op<T>>, x: T)
    requires Run(max, ops).Some?
    ensures Run(max, ops + [PushOp(x)]).None? <==> Exhausted(ops, max)
  {
    var r := Run(max, ops).value;
    FirstInFirstOut(max, ops);
    assert (ops + [PushOp(x)])[..|ops|] == ops;
    if Pushed(ops) != [] {
      FirstRefill(ops);
      var k: nat :| LastRefill(ops, k);
    } else {
      forall k: nat | LastRefill(ops, k) ensures |Pushed(ops[k..])| == 0 { assert r.q.count == 0; }
    }
  }

  /** One item after another goes through a queue that never holds more than two. */
  function Churn<T>(n: nat, x: T): seq<Op<T>> {
    if n == 0 then [PushOp(x)] else Churn(n - 1, x) + [PushOp(x)] + [GetOp]
  }

  lemma {:induction false} ChurnCounts<T>(max: nat, n: nat, x: T)
    requires n < max
    ensures var r := Run(max, Churn(n, x)); r.Some? && r.value.q == Queue([x], max, n + 1)
  {
    var ops := Churn(n, x);
    if n == 0 {
      assert ops[..0] == [];
      assert Run(max, ops) == Step(Ran(New(max), []), PushOp(x));
    } else {
      ChurnCounts(max, n - 1, x);
      var more := Churn(n - 1, x) + [PushOp(x)];
      assert more[..|more| - 1] == Churn(n - 1, x);
      assert ops[..|ops| - 1] == more;
      assert Run(max, more).value.q == Queue([x, x], max, n + 1);
    }
  }

  /** A queue with any limit can be brought to hold a single item and be full, so that a push never
      returns. */
  lemma StuckWithOneItem<T>(max: nat, x: T)
    requires max > 0
    ensures var r := Run(max, Churn(max - 1, x));
            && r.Some? && r.value.q.items == [x] && Full(r.value.q)
            && Run(max, Churn(max - 1, x) + [PushOp(x)]).None?
  {
    ChurnCounts(max, max - 1, x);
    var ops := Churn(max - 1, x);
    assert (ops + [PushOp(x)])[..|ops|] == ops;
  }

  lemma {:induction false} PrefixRuns<T>(max: nat, ops: seq<Op<T>>, n: nat)
    requires Run(max, ops).Some? && n <= |ops|
    ensures Run(max, ops[..n]).Some?
    decreases |ops|
  {
    if n == |ops| {
      assert ops[..n] == ops;
    } else {
      var front := ops[..|ops| - 1];
      assert front[..n] == ops[..n];
      PrefixRuns(max, front, n);
    }
  }
}
