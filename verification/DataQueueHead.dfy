/** The bounded queue as a list of nodes, with a pointer to the last one, changed in place. */
module DataQueueList {
  import opened Collections
  import DataQueue

  class Node<T> {
    const data: T
    var next: Node?<T>

    constructor (data: T)
      ensures this.data == data && next == null
    {
      this.data, next := data, null;
    }
  }

  class DataQueueHead<T> {
    var first: Node?<T>
    var last: Node?<T>
    const max: nat
    var count: nat
    ghost var spine: seq<Node<T>>

    /** The nodes from the first on are those of `spine`, each once, and the last pointer is at its end. */
    ghost predicate Valid()
      reads this, spine
    {
      && Distinct(spine)
      && (forall i :: 0 <= i < |spine| ==> Follows(spine, i))
      && first == (if spine == [] then null else spine[0])
      && last == (if spine == [] then null else spine[|spine| - 1])
    }

    static ghost predicate Follows(spine: seq<Node<T>>, i: nat)
      requires i < |spine|
      reads spine
    {
      spine[i].next == if i == |spine| - 1 then null else spine[i + 1]
    }

    static ghost function Data(spine: seq<Node<T>>): seq<T> {
      seq(|spine|, i requires 0 <= i < |spine| => spine[i].data)
    }

    ghost function Value(): DataQueue.Queue<T>
      reads this
    {
      DataQueue.Queue(Data(spine), max, count)
    }

    constructor (max: nat)
      ensures Valid() && spine == [] && Value() == DataQueue.New(max)
    {
      first, last, this.max, count, spine := null, null, max, 0, [];
    }

    /** A push that returns, that is, one whose loop does not start; see `PushReturnsExact`. */
    method Push(data: T)
      requires Valid() && !DataQueue.Full(Value())
      modifies this, last
      ensures Valid() && Value() == DataQueue.Push(old(Value()), data)
      ensures |spine| > 0 && fresh(spine[|spine| - 1]) && spine[..|spine| - 1] == old(spine)
      ensures forall node :: node in spine ==> node in old(spine) || fresh(node)
    {
      var node := new Node(data);
      if last == null {
        first, last, count := node, node, 1;
      } else {
        last.next := node;
        last, count := node, count + 1;
      }
      spine := spine + [node];
      assert Data(spine) == Data(old(spine)) + [data];
      forall i | 0 <= i < |spine| ensures Follows(spine, i) {
        if i < |spine| - 1 { assert old(Follows(spine, i)); }
      }
    }

    method GetFirst() returns (r: Option<T>)
      requires Valid()
      modifies this, first
      ensures Valid() && (Value(), r) == DataQueue.GetFirst(old(Value()))
      ensures spine == if old(spine) == [] then [] else old(spine)[1..]
    {
      if first == null { return None; }
      var node := first;
      first, node.next := node.next, null;
      if first == null { last := null; }
      spine := spine[1..];
      assert Data(spine) == Data(old(spine))[1..];
      forall i | 0 <= i < |spine| ensures Follows(spine, i) { assert old(Follows(spine, i + 1)); }
      assert old(Follows(spine, 0));
      return Some(node.data);
    }
  }

  /** One operation on the list of nodes. */
  method Apply<T>(head: DataQueueHead<T>, op: DataQueue.Op<T>, taken: seq<T>) returns (taken': seq<T>)
    requires head.Valid() && (op.PushOp? ==> !DataQueue.Full(head.Value()))
    modifies head, head.first, head.last
    ensures head.Valid() && forall node :: node in head.spine ==> node in old(head.spine) || fresh(node)
    ensures DataQueue.Step(DataQueue.Ran(old(head.Value()), taken), op) == Some(DataQueue.Ran(head.Value(), taken'))
  {
    taken' := taken;
    match op
    case PushOp(x) => head.Push(x);
    case GetOp =>
      var r := head.GetFirst();
      if r.Some? { taken' := taken + [r.value]; }
  }

  /** Any run that goes through, on the list of nodes, takes out what the run on values takes out. */
  method Perform<T>(max: nat, ops: seq<DataQueue.Op<T>>) returns (taken: seq<T>)
    requires DataQueue.Run(max, ops).Some?
    ensures taken == DataQueue.Run(max, ops).value.taken
  {
    var head := new DataQueueHead(max);
    taken := [];
    for i := 0 to |ops|
      invariant head.Valid() && fresh(head) && forall node :: node in head.spine ==> fresh(node)
      invariant DataQueue.Run(max, ops[..i]) == Some(DataQueue.Ran(head.Value(), taken))
    {
      assert ops[..i + 1][..i] == ops[..i];
      DataQueue.PrefixRuns(max, ops, i + 1);
      assert head.spine != [] ==> head.first in head.spine && head.last in head.spine;
      taken := Apply(head, ops[i], taken);
    }
    assert ops[..|ops|] == ops;
  }
}
