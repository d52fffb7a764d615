/**
 The asynchronous reader/writer lock: one 16-bit atomic word, any number of tasks.

 Bit 15 of the word says that a writer is pending or holding; the low bits count read guards.
 Each poll and each guard drop is cut into its single atomic operations. A task that is told to
 wait goes back to the point where its next poll begins, and a wake-up is any later step of that
 task, so every order of polls is covered.
 */
module AsyncRwLockProtocol {
  import opened Collections

  type Task = nat

  const WRITE_BIT := 0x8000
  const MAX_READERS := 0x7FFF

  datatype Pc =
    | ReadLoaded(word: nat)                      // read poll, word loaded, bit was clear
    | Reading                                    // holds a read guard
    | ReadDropping(word: nat)                    // read guard drop, word loaded
    | WriteLoaded(word: nat, upgrading: bool)    // write poll before the bit is set
    | Upgrading                                  // holds a read guard, waits to set the bit
    | Draining(upgrading: bool)                  // has set the bit, waits for readers to leave
    | Upgraded                                   // has the write guard and still its read guard
    | UpgradeDropping(word: nat)                 // drop of that read guard, word loaded
    | Writing                                    // holds the write guard
    | WriteDropping(word: nat)                   // write guard drop, word loaded

  /** Tasks outside the map hold nothing and are not polling. */
  datatype State = State(word: nat, tasks: map<Task, Pc>)

  datatype Action =
    | ReadLoad(t: Task)
    | ReadExchange(t: Task)
    | WriteLoad(t: Task)
    | StartUpgrade(t: Task)
    | UpgradeLoad(t: Task)
    | WriteExchange(t: Task)
    | DrainPoll(t: Task)
    | DropLoad(t: Task)
    | DropStore(t: Task)
    | Downgrade(t: Task)

  function Init(): State { State(0, map[]) }

  predicate HasWriteBit(word: nat) { (word / WRITE_BIT) % 2 == 1 }

  /** `word | 0x8000` on 16 bits. */
  function SetWriteBit(word: nat): nat { if HasWriteBit(word) then word else word + WRITE_BIT }

  /** `fetch_sub(1)` on 16 bits. */
  function Decrement(word: nat): nat { (word + 0xFFFF) % 0x10000 }

  predicate Is(s: State, t: Task, p: Pc) { t in s.tasks && s.tasks[t] == p }

  predicate Enabled(s: State, a: Action) {
    match a
    case ReadLoad(t) => t !in s.tasks
    case ReadExchange(t) => t in s.tasks && s.tasks[t].ReadLoaded?
    case WriteLoad(t) => t !in s.tasks
    case StartUpgrade(t) => Is(s, t, Reading)
    case UpgradeLoad(t) => Is(s, t, Upgrading)
    case WriteExchange(t) => t in s.tasks && s.tasks[t].WriteLoaded?
    case DrainPoll(t) => t in s.tasks && s.tasks[t].Draining?
    case DropLoad(t) => Is(s, t, Reading) || Is(s, t, Upgraded) || Is(s, t, Writing)
    case DropStore(t) =>
      t in s.tasks && (s.tasks[t].ReadDropping? || s.tasks[t].UpgradeDropping? || s.tasks[t].WriteDropping?)
    case Downgrade(t) => Is(s, t, Writing)
  }

  function Goto(s: State, t: Task, p: Pc): State { s.(tasks := s.tasks[t := p]) }

  function Leave(s: State, t: Task): State { s.(tasks := s.tasks - {t}) }

  /** The write poll before the bit is set; a task that upgrades goes on holding its read guard. */
  function LoadForWrite(s: State, t: Task, upgrading: bool): State {
    if !HasWriteBit(s.word) then Goto(s, t, WriteLoaded(s.word, upgrading))
    else if upgrading then Goto(s, t, Upgrading)
    else Leave(s, t)
  }

  function Next(s: State, a: Action): State
    requires Enabled(s, a)
  {
    match a
    case ReadLoad(t) => if HasWriteBit(s.word) then Leave(s, t) else Goto(s, t, ReadLoaded(s.word))
    case ReadExchange(t) =>
      if s.word == s.tasks[t].word then Goto(s.(word := s.word + 1), t, Reading) else Leave(s, t)
    case WriteLoad(t) => LoadForWrite(s, t, false)
    case StartUpgrade(t) => Goto(s, t, Upgrading)
    case UpgradeLoad(t) => LoadForWrite(s, t, true)
    case WriteExchange(t) =>
      var p := s.tasks[t];
      if s.word == p.word then Goto(s.(word := SetWriteBit(s.word)), t, Draining(p.upgrading))
      else if p.upgrading then Goto(s, t, Upgrading)
      else Leave(s, t)
    case DrainPoll(t) =>
      var upgrading := s.tasks[t].upgrading;
      if s.word != (if upgrading then 0x8001 else 0x8000) then s
      else Goto(s, t, if upgrading then Upgraded else Writing)
    case DropLoad(t) =>
      match s.tasks[t] {
        case Reading => Goto(s, t, ReadDropping(s.word))
        case Upgraded => Goto(s, t, UpgradeDropping(s.word))
        case _ => Goto(s, t, WriteDropping(s.word))
      }
    case DropStore(t) =>
      var p := s.tasks[t];
      var s' := s.(word := if p.word == 0x8000 then 0 else Decrement(s.word));
      if p.UpgradeDropping? then Goto(s', t, Writing) else Leave(s', t)
    case Downgrade(t) => Goto(s.(word := 1), t, Reading)
  }

  function Step(s: State, a: Action): State {
    if Enabled(s, a) then Next(s, a) else s
  }

  function Run(s: State, actions: seq<Action>): State
    decreases |actions|
  {
    if actions == [] then s else Run(Step(s, actions[0]), actions[1..])
  }

  // ---------------------------------------------------------------- guards

  predicate HoldsRead(s: State, t: Task) {
    t in s.tasks &&
    match s.tasks[t]
    case Reading => true
    case ReadDropping(_) => true
    case WriteLoaded(_, upgrading) => upgrading
    case Upgrading => true
    case Draining(upgrading) => upgrading
    case Upgraded => true
    case UpgradeDropping(_) => true
    case _ => false
  }

  /** The task has set the write bit and not cleared it: it is the pending or holding writer. */
  predicate OwnsBit(s: State, t: Task) {
    t in s.tasks && var p := s.tasks[t];
    p.Draining? || p.Upgraded? || p.UpgradeDropping? || p.Writing? || p.WriteDropping?
  }

  /** The task has been given a write guard. */
  predicate HoldsWrite(s: State, t: Task) {
    OwnsBit(s, t) && !s.tasks[t].Draining?
  }

  ghost function Readers(s: State): set<Task> { set t | t in s.tasks && HoldsRead(s, t) }

  ghost function Writers(s: State): set<Task> { set t | t in s.tasks && OwnsBit(s, t) }

  /** What the word says: the number of read guards, plus bit 15 for a pending or holding writer. */
  ghost predicate WordCounts(s: State) {
    && |Writers(s)| <= 1
    && s.word == |Readers(s)| + WRITE_BIT * |Writers(s)|
  }

  /** A write guard excludes every other guard; an upgrader still has its own read guard until it
      drops it. */
  ghost predicate Exclusive(s: State) {
    forall t, u :: HoldsWrite(s, t) && (HoldsRead(s, u) || HoldsWrite(s, u)) ==>
      u == t && (HoldsRead(s, t) ==> s.tasks[t].Upgraded? || s.tasks[t].UpgradeDropping?)
  }

  /** What a task remembers of the word is still what its next operation needs. */
  ghost predicate Memories(s: State) {
    forall t :: t in s.tasks ==>
      match s.tasks[t]
      case ReadLoaded(w) => w < WRITE_BIT
      case WriteLoaded(w, _) => w < WRITE_BIT
      case ReadDropping(w) => w != 0x8000
      case UpgradeDropping(w) => w == 0x8001
      case WriteDropping(w) => w == 0x8000
      case _ => true
  }

  ghost predicate WithinLimit(s: State) { |Readers(s)| <= MAX_READERS }

  /** The only read guard beside a write guard is the upgrader's own. */
  ghost predicate Drained(s: State) {
    forall t :: HoldsWrite(s, t) ==> |Readers(s)| == One(HoldsRead(s, t))
  }

  ghost predicate Inv(s: State) {
    WordCounts(s) && Drained(s) && Memories(s) && WithinLimit(s)
  }

  /** Every state the schedule goes through has at most 0x7FFF read guards. */
  ghost predicate StaysWithin(s: State, actions: seq<Action>)
    decreases |actions|
  {
    WithinLimit(s) && (actions != [] ==> StaysWithin(Step(s, actions[0]), actions[1..]))
  }

  lemma Census(s: State, a: Action)
    requires Enabled(s, a)
    ensures var s' := Next(s, a);
            && |Readers(s')| == |Readers(s)| - One(HoldsRead(s, a.t)) + One(HoldsRead(s', a.t))
            && |Writers(s')| == |Writers(s)| - One(OwnsBit(s, a.t)) + One(OwnsBit(s', a.t))
  {
    var s', t := Next(s, a), a.t;
    assert forall u :: u != t ==>
      (u in s.tasks <==> u in s'.tasks) && (u in s.tasks ==> s.tasks[u] == s'.tasks[u]);
    DifferInOne(Readers(s), Readers(s'), t);
    DifferInOne(Writers(s), Writers(s'), t);
  }

  lemma UniqueMember(a: set<Task>, t: Task, u: Task)
    requires |a| <= 1 && t in a && u in a
    ensures t == u
  {
    DifferInOne(a, a - {t}, t);
    assert u == t || u in a - {t};
  }

  lemma InvExclusive(s: State)
    requires Inv(s)
    ensures Exclusive(s)
  {
    forall t, u | HoldsWrite(s, t) && (HoldsRead(s, u) || HoldsWrite(s, u))
      ensures u == t
    {
      if HoldsRead(s, u) {
        assert u in Readers(s);
        if HoldsRead(s, t) { assert t in Readers(s); UniqueMember(Readers(s), t, u); }
      } else {
        assert t in Writers(s) && u in Writers(s);
        UniqueMember(Writers(s), t, u);
      }
    }
  }

  lemma WriterSeesBit(s: State, t: Task)
    requires WordCounts(s) && WithinLimit(s) && OwnsBit(s, t)
    ensures s.word == |Readers(s)| + WRITE_BIT && Writers(s) == {t}
  {
    assert t in Writers(s);
    assert Writers(s) == {t} by {
      forall u | u in Writers(s) ensures u == t { UniqueMember(Writers(s), t, u); }
    }
  }

  lemma StepKeepsMemories(s: State, a: Action)
    requires Inv(s) && Enabled(s, a)
    ensures Memories(Next(s, a))
  {
    var t := a.t;
    if a.DropLoad? {
      if HoldsWrite(s, t) {
        WriterSeesBit(s, t);
      } else {
        assert t in Readers(s);
      }
    }
  }

  lemma StepKeepsWord(s: State, a: Action)
    requires Inv(s) && Enabled(s, a)
    ensures WordCounts(Next(s, a))
  {
    var t := a.t;
    Census(s, a);
    if OwnsBit(s, t) { WriterSeesBit(s, t); }
    if HoldsRead(s, t) { assert t in Readers(s); }
  }

  lemma StepKeepsDrained(s: State, a: Action)
    requires Inv(s) && Enabled(s, a)
    ensures Drained(Next(s, a))
  {
    var s', t := Next(s, a), a.t;
    Census(s, a);
    forall u | HoldsWrite(s', u)
      ensures |Readers(s')| == One(HoldsRead(s', u))
    {
      if u == t {
        if OwnsBit(s, t) { WriterSeesBit(s, t); }
      } else {
        assert HoldsWrite(s, u);
        WriterSeesBit(s, u);
        InvExclusive(s);
      }
    }
  }

  /** One step keeps everything as long as it does not create the 0x8000th read guard. */
  lemma StepInv(s: State, a: Action)
    requires Inv(s) && WithinLimit(Step(s, a))
    ensures Inv(Step(s, a))
  {
    if Enabled(s, a) {
      StepKeepsMemories(s, a);
      StepKeepsWord(s, a);
      StepKeepsDrained(s, a);
    }
  }

  lemma {:induction false} RunInv(s: State, actions: seq<Action>)
    requires Inv(s) && StaysWithin(s, actions)
    ensures Inv(Run(s, actions))
    decreases |actions|
  {
    if actions == [] {
    } else {
      StepInv(s, actions[0]);
      RunInv(Step(s, actions[0]), actions[1..]);
    }
  }

  /** In every schedule that stays within 0x7FFF read guards, the word is the number of read
      guards plus 0x8000 for a pending or holding writer, and writers exclude everyone else. */
  lemma MutualExclusion(actions: seq<Action>)
    requires StaysWithin(Init(), actions)
    ensures WordCounts(Run(Init(), actions)) && Exclusive(Run(Init(), actions))
  {
    RunInv(Init(), actions);
    InvExclusive(Run(Init(), actions));
  }

  // ---------------------------------------------------------------- the limit is exact

  lemma {:induction false} RunAppend(s: State, a: seq<Action>, b: seq<Action>)
    ensures Run(s, a + b) == Run(Run(s, a), b)
    decreases |a|
  {
    if a == [] {
      assert a + b == b;
    } else {
      assert (a + b)[0] == a[0] && (a + b)[1..] == a[1..] + b;
      RunAppend(Step(s, a[0]), a[1..], b);
    }
  }

  /** The schedule in which tasks 0, 1, ... each take a read guard. */
  function ManyReaders(n: nat): seq<Action> {
    if n == 0 then [] else ManyReaders(n - 1) + [ReadLoad(n - 1), ReadExchange(n - 1)]
  }

  lemma {:induction false} ManyReadersRead(n: nat)
    requires n <= WRITE_BIT
    ensures AllReading(Run(Init(), ManyReaders(n)), n)
  {
    if n == 0 {
    } else {
      ManyReadersRead(n - 1);
      RunAppend(Init(), ManyReaders(n - 1), [ReadLoad(n - 1), ReadExchange(n - 1)]);
      NextReaderReads(Run(Init(), ManyReaders(n - 1)), n - 1);
    }
  }

  /** The word is `n`, and tasks 0 to n - 1 are those that read. */
  ghost predicate AllReading(s: State, n: nat) {
    && s.word == n
    && (forall t: Task :: t in s.tasks <==> t < n)
    && (forall t :: t in s.tasks ==> s.tasks[t] == Reading)
  }

  lemma NextReaderReads(s: State, n: nat)
    requires AllReading(s, n) && n < WRITE_BIT
    ensures AllReading(Run(s, [ReadLoad(n), ReadExchange(n)]), n + 1)
  {
    OneMoreReader(s, n);
  }

  lemma OneMoreReader(s: State, t: Task)
    requires t !in s.tasks && s.word < WRITE_BIT
    ensures Run(s, [ReadLoad(t), ReadExchange(t)]) == Goto(s.(word := s.word + 1), t, Reading)
  {
    RunTwo(s, ReadLoad(t), ReadExchange(t));
    ReaderLoads(s, t);
    ReaderEnters(s, t, Goto(s, t, ReadLoaded(s.word)));
  }

  lemma ReaderLoads(s: State, t: Task)
    requires t !in s.tasks && s.word < WRITE_BIT
    ensures Step(s, ReadLoad(t)) == Goto(s, t, ReadLoaded(s.word))
  {
  }

  lemma ReaderEnters(s: State, t: Task, loaded: State)
    requires loaded == Goto(s, t, ReadLoaded(s.word)) && s.word < WRITE_BIT
    ensures Step(loaded, ReadExchange(t)) == Goto(s.(word := s.word + 1), t, Reading)
  {
    assert loaded.tasks[t := Reading] == s.tasks[t := Reading];
  }

  lemma RunTwo(s: State, a: Action, b: Action)
    ensures Run(s, [a, b]) == Step(Step(s, a), b)
  {
    assert [a, b][1..] == [b] && [b][1..] == [];
    assert Run(Step(s, a), [b]) == Run(Step(Step(s, a), b), []);
  }

  function WalkIn(leaver: Task, writer: Task): seq<Action> {
    [DropLoad(leaver), DropStore(leaver)] + ([WriteLoad(writer), WriteExchange(writer)] + [DrainPoll(writer)])
  }

  /** When readers alone have pushed the word to 0x8000, one reader that leaves clears the word,
      and a writer then walks in beside a reader that stayed. */
  lemma OverflowAdmitsWriter(s: State, leaver: Task, stayer: Task, writer: Task)
    requires s.word == 0x8000 && writer !in s.tasks && leaver != stayer
    requires Is(s, leaver, Reading) && HoldsRead(s, stayer)
    ensures !Exclusive(Run(s, WalkIn(leaver, writer)))
  {
    var s2 := Step(Step(s, DropLoad(leaver)), DropStore(leaver));
    var s4 := Step(Step(s2, WriteLoad(writer)), WriteExchange(writer));
    var s5 := Step(s4, DrainPoll(writer));
    WalkInSteps(s, leaver, writer, s2, s4);
    LeaverClears(s, leaver, stayer, writer, s2);
    WriterEnters(s2, stayer, writer, s4);
    assert HoldsWrite(s5, writer) && HoldsRead(s5, stayer);
  }

  lemma WalkInSteps(s: State, leaver: Task, writer: Task, s2: State, s4: State)
    requires s2 == Step(Step(s, DropLoad(leaver)), DropStore(leaver))
    requires s4 == Step(Step(s2, WriteLoad(writer)), WriteExchange(writer))
    ensures Run(s, WalkIn(leaver, writer)) == Step(s4, DrainPoll(writer))
  {
    RunTwo(s, DropLoad(leaver), DropStore(leaver));
    RunTwo(s2, WriteLoad(writer), WriteExchange(writer));
    assert Run(s4, [DrainPoll(writer)]) == Run(Step(s4, DrainPoll(writer)), []);
    RunAppend(s, [DropLoad(leaver), DropStore(leaver)], [WriteLoad(writer), WriteExchange(writer)] + [DrainPoll(writer)]);
    RunAppend(s2, [WriteLoad(writer), WriteExchange(writer)], [DrainPoll(writer)]);
  }

  /** The reader that leaves takes the count for the write bit and clears the word. */
  lemma LeaverClears(s: State, leaver: Task, stayer: Task, writer: Task, s2: State)
    requires s.word == 0x8000 && writer !in s.tasks && leaver != stayer
    requires Is(s, leaver, Reading) && HoldsRead(s, stayer)
    requires s2 == Step(Step(s, DropLoad(leaver)), DropStore(leaver))
    ensures s2.word == 0 && writer !in s2.tasks && HoldsRead(s2, stayer)
  {
  }

  lemma WriterEnters(s2: State, stayer: Task, writer: Task, s4: State)
    requires s2.word == 0 && writer !in s2.tasks && HoldsRead(s2, stayer)
    requires s4 == Step(Step(s2, WriteLoad(writer)), WriteExchange(writer))
    ensures s4.word == 0x8000 && Is(s4, writer, Draining(false)) && HoldsRead(s4, stayer)
  {
  }

  /** Only a successful read exchange can cross the limit, and it leaves the word at 0x8000. */
  lemma CrossingStep(s: State, a: Action)
    requires Inv(s) && !WithinLimit(Step(s, a))
    ensures a.ReadExchange? && Is(Step(s, a), a.t, Reading) && Step(s, a).word == 0x8000
    ensures |Readers(Step(s, a))| == 0x8000
  {
    Census(s, a);
    assert HoldsRead(s, a.t) ==> a.t in Readers(s);
    if OwnsBit(s, a.t) { WriterSeesBit(s, a.t); }
  }

  /** The limit is necessary in every schedule, not only in some: whenever a schedule first
      crosses it, the schedule can be continued to a writer beside a reader. */
  lemma BeyondLimitFails(actions: seq<Action>, a: Action)
    requires StaysWithin(Init(), actions) && !WithinLimit(Step(Run(Init(), actions), a))
    ensures exists more :: !Exclusive(Run(Step(Run(Init(), actions), a), more))
  {
    var s := Run(Init(), actions);
    RunInv(Init(), actions);
    CrossingStep(s, a);
    var s' := Step(s, a);
    if Readers(s') - {a.t} == {} { DifferInOne(Readers(s'), {}, a.t); }
    var stayer :| stayer in Readers(s') - {a.t};
    var writer := UpperBound(s'.tasks.Keys);
    OverflowAdmitsWriter(s', a.t, stayer, writer);
    assert !Exclusive(Run(s', WalkIn(a.t, writer)));
  }

  /** The limit can be crossed: 0x8000 tasks that each take a read guard are enough. */
  lemma TooManyReaders()
    ensures !Exclusive(Run(Init(), ManyReaders(WRITE_BIT) + WalkIn(0, WRITE_BIT)))
  {
    ManyReadersRead(WRITE_BIT);
    RunAppend(Init(), ManyReaders(WRITE_BIT), WalkIn(0, WRITE_BIT));
    OverflowAdmitsWriter(Run(Init(), ManyReaders(WRITE_BIT)), 0, 1, WRITE_BIT);
  }
}
