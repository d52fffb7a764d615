/**
 The ring buffer of input events: 64 slots, of which one stays empty, and a queue of up to 63 events.
 */
module InputEvents {
  import opened Collections

  /** The slot at a distance from another. */
  function Slot(from: nat, distance: nat): nat { (from + distance) % 64 }

  function Length(firstValid: nat, firstEmpty: nat): nat
    requires firstValid < 64 && firstEmpty < 64
  {
    if firstValid <= firstEmpty then firstEmpty - firstValid else firstEmpty + 64 - firstValid
  }

  /** Less than a turn apart, different distances lead to different slots. */
  lemma SlotsDiffer(from: nat, i: nat, j: nat)
    requires i < j < i + 64
    ensures Slot(from, i) != Slot(from, j)
  {
  }

  lemma SlotOfSlot(from: nat, i: nat, j: nat)
    ensures Slot(Slot(from, i), j) == Slot(from, i + j)
  {
  }

  /** Whole turns lead nowhere. */
  lemma SlotTurns(from: nat, turns: nat, k: nat)
    ensures Slot(from, 64 * turns + k) == Slot(from, k)
  {
  }

  lemma LengthReaches(firstValid: nat, firstEmpty: nat)
    requires firstValid < 64 && firstEmpty < 64
    ensures Slot(firstValid, Length(firstValid, firstEmpty)) == firstEmpty && Length(firstValid, firstEmpty) < 64
  {
  }

  lemma LengthUnique(firstValid: nat, n: nat)
    requires firstValid < 64 && n < 64
    ensures Length(firstValid, Slot(firstValid, n)) == n
  {
  }

  // ---------------------------------------------------------------- the queue on values

  /** The queue that is meant: as many events as fit into 63 are appended. */
  function Appended<T>(queue: seq<T>, events: seq<T>): seq<T>
    requires |queue| <= 63
  {
    if |events| <= 63 - |queue| then queue + events else queue + events[..63 - |queue|]
  }

  /** How many events the code adds. Of an empty buffer it thinks that there is no end of space: the
      distance between the indexes is zero, and one less than that, as an unsigned number, is huge. */
  function Taken(length: nat, n: nat): nat
    requires length <= 63
  {
    if length == 0 || n <= 63 - length then n else 63 - length
  }

  /** What the buffer then holds. */
  function Held<T>(queue: seq<T>, events: seq<T>): seq<T>
    requires |queue| <= 63
  {
    if queue == [] then events[|events| - |events| % 64..] else Appended(queue, events)
  }

  /** How many events a read into `n` places gets. */
  function Available<T>(queue: seq<T>, n: nat): nat { if n <= |queue| then n else |queue| }

  lemma SmallBatch<T>(queue: seq<T>, events: seq<T>)
    requires |queue| <= 63 && |events| <= 63
    ensures Held(queue, events) == Appended(queue, events)
  {
  }

  /** A batch is handled as it should be, unless it is of 64 or more events and finds the buffer
      empty; then only by the accident that the end of the batch repeats its beginning. */
  lemma BatchExact<T>(queue: seq<T>, events: seq<T>)
    requires |queue| <= 63
    ensures Held(queue, events) == Appended(queue, events) <==>
            || queue != [] || |events| <= 63
            || (|events| % 64 == 63 && events[|events| - 63..] == events[..63])
  {
    if queue == [] && |events| > 63 {
      assert |Held(queue, events)| == |events| % 64 && |Appended(queue, events)| == 63;
      assert Appended(queue, events) == events[..63];
    }
  }

  /** A batch of 64 events is lost altogether. */
  lemma FullTurnLost<T>(events: seq<T>)
    requires |events| == 64
    ensures Held([], events) == [] && Appended([], events) == events[..63]
  {
  }

  // ---------------------------------------------------------------- the buffer

  class EventBuffer<T> {
    const queue: array<T>
    var firstValid: nat
    var firstEmpty: nat

    ghost predicate Valid()
      reads this
    {
      queue.Length == 64 && firstValid < 64 && firstEmpty < 64
    }

    ghost function Contents(): (r: seq<T>)
      requires Valid()
      reads this, queue
      ensures |r| == Length(firstValid, firstEmpty) <= 63
    {
      seq(Length(firstValid, firstEmpty), k requires 0 <= k && Valid() reads this, queue => queue[Slot(firstValid, k)])
    }

    constructor (none: T)
      ensures Valid() && Contents() == [] && fresh(queue)
    {
      queue := new T[64](_ => none);
      firstValid, firstEmpty := 0, 0;
    }

    /** Writes events from the first empty slot on, round and round. The last 64 of them stay. */
    method Write(events: seq<T>, n: nat)
      requires Valid() && n <= |events|
      modifies queue
      ensures forall j :: 0 <= j < n && n - 64 <= j ==> queue[Slot(firstEmpty, j)] == events[j]
      ensures forall j :: n <= j < 64 ==> queue[Slot(firstEmpty, j)] == old(queue[Slot(firstEmpty, j)])
    {
      for i := 0 to n
        invariant forall j :: 0 <= j < i && i - 64 <= j ==> queue[Slot(firstEmpty, j)] == events[j]
        invariant forall j :: i <= j < 64 ==> queue[Slot(firstEmpty, j)] == old(queue[Slot(firstEmpty, j)])
      {
        forall j: nat | i - 64 < j < i + 64 && j != i ensures Slot(firstEmpty, j) != Slot(firstEmpty, i) {
          if j < i { SlotsDiffer(firstEmpty, j, i); } else { SlotsDiffer(firstEmpty, i, j); }
        }
        queue[Slot(firstEmpty, i)] := events[i];
      }
    }

    method AddEvents(events: seq<T>)
      requires Valid()
      modifies this, queue
      ensures Valid() && Contents() == Held(old(Contents()), events)
    {
      // the space left, in the code's own arithmetic: minus one if the buffer is empty
      var limit := if firstValid < firstEmpty then firstValid + 64 else firstValid;
      var space := limit - firstEmpty - 1;
      var n := if space < 0 || |events| <= space then |events| else space;
      ghost var len, before := Length(firstValid, firstEmpty), Contents();
      assert n == Taken(len, |events|);
      LengthReaches(firstValid, firstEmpty);
      Write(events, n);
      ghost var start := firstEmpty;
      firstEmpty := (firstEmpty + n) % 64;
      if len == 0 {
        WholeBatch(events, n);
      } else {
        forall k: nat | k < len ensures queue[Slot(firstValid, k)] == before[k] {
          SlotOfSlot(firstValid, len, 64 - len + k);
          SlotTurns(firstValid, 1, k);
        }
        Extended(before, events, n, start);
      }
    }

    /** The buffer was empty. */
    lemma WholeBatch(events: seq<T>, n: nat)
      requires Valid() && n == |events| && firstEmpty == Slot(firstValid, n)
      requires forall j :: 0 <= j < n && n - 64 <= j ==> queue[Slot(firstValid, j)] == events[j]
      ensures Contents() == events[n - n % 64..]
    {
      var turns, left := n / 64, n % 64;
      SlotTurns(firstValid, turns, left);
      LengthUnique(firstValid, left);
      forall k: nat | k < left ensures Contents()[k] == events[n - left + k] {
        SlotTurns(firstValid, turns, k);
      }
    }

    /** The buffer was not empty, and has room for the events that are added. */
    lemma Extended(before: seq<T>, events: seq<T>, n: nat, start: nat)
      requires Valid() && n <= |events| && |before| + n <= 63
      requires start == Slot(firstValid, |before|) && firstEmpty == Slot(start, n)
      requires forall k :: 0 <= k < |before| ==> queue[Slot(firstValid, k)] == before[k]
      requires forall j :: 0 <= j < n ==> queue[Slot(start, j)] == events[j]
      ensures Contents() == before + events[..n]
    {
      var len := |before|;
      SlotOfSlot(firstValid, len, n);
      LengthUnique(firstValid, len + n);
      forall k: nat | k < len + n ensures Contents()[k] == (before + events[..n])[k] {
        if k >= len { SlotOfSlot(firstValid, len, k - len); }
      }
    }

    method ConsumeEvent() returns (r: Option<T>)
      requires Valid()
      modifies this
      ensures Valid()
      ensures if old(Contents()) == [] then r.None? && Contents() == []
              else r == Some(old(Contents())[0]) && Contents() == old(Contents())[1..]
    {
      if firstEmpty == firstValid { return None; }
      var index := firstValid;
      ghost var len := Length(firstValid, firstEmpty);
      firstValid := (firstValid + 1) % 64;
      forall k: nat | k < len - 1 ensures Slot(firstValid, k) == Slot(index, k + 1) { SlotOfSlot(index, 1, k); }
      return Some(queue[index]);
    }

    method ConsumeEvents(buffer: array<T>) returns (count: nat)
      requires Valid() && buffer != queue
      modifies this, buffer
      ensures Valid() && count <= buffer.Length
      ensures count == Available(old(Contents()), buffer.Length)
      ensures buffer[..count] == old(Contents())[..count] && Contents() == old(Contents())[count..]
      ensures forall k :: count <= k < buffer.Length ==> buffer[k] == old(buffer[k])
    {
      ghost var all := Contents();
      count := 0;
      while count < buffer.Length
        invariant Valid() && count <= buffer.Length && count <= |all|
        invariant Contents() == all[count..] && buffer[..count] == all[..count]
        invariant forall k :: count <= k < buffer.Length ==> buffer[k] == old(buffer[k])
      {
        var event := ConsumeEvent();
        if event.None? { break; }
        buffer[count] := event.value;
        count := count + 1;
      }
    }
  }

  // ---------------------------------------------------------------- runs

  datatype Op<T> = Add(events: seq<T>) | Consume(n: nat)

  /** The queue, and everything it accepted and gave out. */
  datatype History<T> = History(queue: seq<T>, accepted: seq<T>, given: seq<T>)

  function Step<T>(h: History<T>, op: Op<T>): (h': History<T>)
    requires |h.queue| <= 63
    ensures |h'.queue| <= 63
  {
    match op
    case Add(events) => History(Held(h.queue, events), h.accepted + Fitting(h.queue, events), h.given)
    case Consume(n) =>
      var k := Available(h.queue, n);
      h.(queue := h.queue[k..], given := h.given + h.queue[..k])
  }

  /** The part of a batch that fits. */
  function Fitting<T>(queue: seq<T>, events: seq<T>): seq<T>
    requires |queue| <= 63
  {
    if |events| <= 63 - |queue| then events else events[..63 - |queue|]
  }

  function Run<T>(h: History<T>, ops: seq<Op<T>>): (h': History<T>)
    requires |h.queue| <= 63
    ensures |h'.queue| <= 63
    decreases |ops|
  {
    if ops == [] then h else Run(Step(h, ops[0]), ops[1..])
  }

  /** With batches of at most 63 events the buffer is a queue: what it gave out and what it holds are,
      in order, the parts of the batches that fitted. */
  lemma {:induction false} SmallBatchesInOrder<T>(h: History<T>, ops: seq<Op<T>>)
    requires |h.queue| <= 63 && h.accepted == h.given + h.queue
    requires forall i :: 0 <= i < |ops| && ops[i].Add? ==> |ops[i].events| <= 63
    ensures Run(h, ops).accepted == Run(h, ops).given + Run(h, ops).queue
    decreases |ops|
  {
    if ops == [] {
    } else {
      StepInOrder(h, ops[0], Step(h, ops[0]));
      SmallBatchesInOrder(Step(h, ops[0]), ops[1..]);
    }
  }

  lemma StepInOrder<T>(h: History<T>, op: Op<T>, h': History<T>)
    requires |h.queue| <= 63 && h.accepted == h.given + h.queue && (op.Add? ==> |op.events| <= 63)
    requires h' == Step(h, op)
    ensures h'.accepted == h'.given + h'.queue
  {
    match op
    case Add(events) => SmallBatch(h.queue, events);
    case Consume(n) =>
      var k := Available(h.queue, n);
      assert h.queue == h.queue[..k] + h.queue[k..];
  }

  // ---------------------------------------------------------------- runs of the buffer

  method Take<T>(b: EventBuffer<T>, n: nat, none: T) returns (out: seq<T>)
    requires b.Valid()
    modifies b
    ensures b.Valid()
    ensures var q := old(b.Contents()); out == q[..Available(q, n)] && b.Contents() == q[Available(q, n)..]
  {
    var buffer := new T[n](_ => none);
    var count := b.ConsumeEvents(buffer);
    out := buffer[..count];
  }

  /** A run of batches and reads on the slots gives out, and leaves, what the run on values does. With
      batches of at most 63 events both together are the parts of the batches that fitted, in order. */
  method Perform<T>(b: EventBuffer<T>, ops: seq<Op<T>>, none: T) returns (given: seq<T>)
    requires b.Valid()
    modifies b, b.queue
    ensures b.Valid()
    ensures var h := Run(History(old(b.Contents()), old(b.Contents()), []), ops);
            && given == h.given && b.Contents() == h.queue
            && ((forall i :: 0 <= i < |ops| && ops[i].Add? ==> |ops[i].events| <= 63) ==> h.accepted == given + b.Contents())
  {
    ghost var start := History(b.Contents(), b.Contents(), []);
    ghost var h := start;
    given := [];
    for i := 0 to |ops|
      invariant b.Valid() && h.queue == b.Contents() && h.given == given
      invariant Run(start, ops) == Run(h, ops[i..])
    {
      assert ops[i..][1..] == ops[i + 1..];
      h := Step(h, ops[i]);
      if ops[i].Add? {
        b.AddEvents(ops[i].events);
      } else {
        var out := Take(b, ops[i].n, none);
        given := given + out;
      }
    }
    if forall i :: 0 <= i < |ops| && ops[i].Add? ==> |ops[i].events| <= 63 { SmallBatchesInOrder(start, ops); }
  }
}
