/**
 Reads that take time, over the sector cache: a read takes the data from the disk when it starts and
 brings it into the cache when it ends. In between the sector may be written, evicted and written
 back.
 */
module BlockReads {
  import opened Collections
  import opened Vectors
  import opened BlockCache

  datatype Read = Read(d: Device, s: Sector, data: Data)

  /** The cache and the disk, the reads under way, and those among them whose sector has been written
      back since they started. */
  datatype State = State(x: World, pending: map<nat, Read>, overtaken: set<nat>)

  datatype Action = Now(op: Op) | Start(id: nat, d: Device, s: Sector) | End(id: nat)

  /** The sector that an update writes back. */
  function WrittenBack(u: Update, d: Device): Option<(Device, Sector)> {
    if u.writeBack.Some? then Some((d, u.writeBack.value.sector)) else None
  }

  function Overtakes(pending: map<nat, Read>, back: Option<(Device, Sector)>): set<nat> {
    set id | id in pending && back == Some((pending[id].d, pending[id].s))
  }

  function AfterUpdate(f: State, d: Device, u: Update): State {
    f.(x := Settle(u, f.x.disk, d), overtaken := f.overtaken + Overtakes(f.pending, WrittenBack(u, d)))
  }

  function Do(f: State, a: Action): State {
    match a
    case Now(Get(d, s, w)) => f.(x := World(GetEntry(f.x.cache, d, s, w).0, f.x.disk))
    case Now(Write(d, s, data)) => AfterUpdate(f, d, UpdateEntry(f.x.cache, d, s, data, false))
    case Now(Fill(d, s)) => AfterUpdate(f, d, UpdateEntry(f.x.cache, d, s, f.x.disk(d, s), true))
    case Start(id, d, s) =>
      if id in f.pending then f
      else f.(pending := f.pending[id := Read(d, s, f.x.disk(d, s))], overtaken := f.overtaken - {id})
    case End(id) =>
      if id !in f.pending then f
      else
        var r := f.pending[id];
        var f' := AfterUpdate(f, r.d, UpdateEntry(f.x.cache, r.d, r.s, r.data, true));
        f'.(pending := f'.pending - {id})
  }

  function RunAll(f: State, acts: seq<Action>): State
    decreases |acts|
  {
    if acts == [] then f else RunAll(Do(f, acts[0]), acts[1..])
  }

  /** A read that has not been overtaken carries what the disk holds. */
  ghost predicate Inv(f: State) {
    && BlockCache.Inv(f.x.cache, f.x.disk)
    && forall id :: id in f.pending && id !in f.overtaken ==> f.pending[id].data == f.x.disk(f.pending[id].d, f.pending[id].s)
  }

  predicate Settled(f: State, d: Device, s: Sector) {
    var e := EntryAt(f.x.cache.devices, d, s);
    e.Some? && !e.value.reading
  }

  /** A read that ends was not overtaken, or finds its sector settled. */
  predicate InTime(f: State, a: Action) {
    a.End? && a.id in f.pending ==> a.id !in f.overtaken || Settled(f, f.pending[a.id].d, f.pending[a.id].s)
  }

  predicate AllInTime(f: State, acts: seq<Action>)
    decreases |acts|
  {
    acts != [] ==> InTime(f, acts[0]) && AllInTime(Do(f, acts[0]), acts[1..])
  }

  /** The reference: only writes change the map. */
  function Plain(plain: Disk, a: Action): Disk {
    if a.Now? && a.op.Write? then Put(plain, a.op.d, a.op.s, a.op.data) else plain
  }

  function PlainAll(plain: Disk, acts: seq<Action>): Disk
    decreases |acts|
  {
    if acts == [] then plain else PlainAll(Plain(plain, acts[0]), acts[1..])
  }

  lemma UpdateInv(f: State, d: Device, u: Update, f': State)
    requires Inv(f) && f' == AfterUpdate(f, d, u) && BlockCache.Inv(f'.x.cache, f'.x.disk)
    ensures Inv(f')
  {
  }

  lemma EndInv(f: State, id: nat)
    requires Inv(f) && InTime(f, End(id)) && id in f.pending
    ensures Inv(Do(f, End(id)))
    ensures forall d, s :: View(Do(f, End(id)).x.cache, Do(f, End(id)).x.disk, d, s) == View(f.x.cache, f.x.disk, d, s)
  {
    var r := f.pending[id];
    var u := UpdateEntry(f.x.cache, r.d, r.s, r.data, true);
    EndKeeps(f, id, r, u);
    UpdateInv(f, r.d, u, AfterUpdate(f, r.d, u));
  }

  lemma EndKeeps(f: State, id: nat, r: Read, u: Update)
    requires Inv(f) && InTime(f, End(id)) && id in f.pending && r == f.pending[id]
    requires u == UpdateEntry(f.x.cache, r.d, r.s, r.data, true)
    ensures var x := Settle(u, f.x.disk, r.d);
            BlockCache.Inv(x.cache, x.disk) && forall d, s :: View(x.cache, x.disk, d, s) == View(f.x.cache, f.x.disk, d, s)
  {
    if id !in f.overtaken {
      UpdateKeeps(f.x, r.d, r.s, r.data, true);
    } else {
      IgnoredFill(f.x.cache, r.d, r.s, r.data);
    }
  }

  lemma DoRefines(f: State, a: Action)
    requires Inv(f) && InTime(f, a)
    ensures Inv(Do(f, a))
    ensures forall d, s :: View(Do(f, a).x.cache, Do(f, a).x.disk, d, s) ==
              if a.Now? && a.op.Write? && d == a.op.d && s == a.op.s then a.op.data else View(f.x.cache, f.x.disk, d, s)
  {
    match a
    case Now(Get(d, s, w)) => GetKeeps(f.x, d, s, w);
    case Now(Write(d, s, data)) =>
      var u := UpdateEntry(f.x.cache, d, s, data, false);
      UpdateKeeps(f.x, d, s, data, false);
      UpdateInv(f, d, u, AfterUpdate(f, d, u));
    case Now(Fill(d, s)) =>
      var u := UpdateEntry(f.x.cache, d, s, f.x.disk(d, s), true);
      UpdateKeeps(f.x, d, s, f.x.disk(d, s), true);
      UpdateInv(f, d, u, AfterUpdate(f, d, u));
    case Start(id, d, s) =>
    case End(id) => if id in f.pending { EndInv(f, id); }
  }

  /** With any number of reads under way, clients see the plain map after every run in which no read
      ends that was overtaken by a write-back of its sector, unless the sector is settled then. */
  lemma {:induction false} RunRefines(f: State, plain: Disk, acts: seq<Action>)
    requires Inv(f) && Sees(f.x, plain) && AllInTime(f, acts)
    ensures Inv(RunAll(f, acts)) && Sees(RunAll(f, acts).x, PlainAll(plain, acts))
    decreases |acts|
  {
    if acts == [] {
    } else {
      DoRefines(f, acts[0]);
      RunRefines(Do(f, acts[0]), Plain(plain, acts[0]), acts[1..]);
    }
  }

  /** The condition for one read: its end leaves the view alone if and only if the sector is settled or
      the disk holds what the read took from it. */
  lemma EndExact(f: State, id: nat, f': State)
    requires Inv(f) && id in f.pending && f' == Do(f, End(id))
    ensures var r := f.pending[id];
            (forall d, s :: View(f'.x.cache, f'.x.disk, d, s) == View(f.x.cache, f.x.disk, d, s))
            <==> Settled(f, r.d, r.s) || r.data == f.x.disk(r.d, r.s)
  {
    FillExact(f.x, f.pending[id].d, f.pending[id].s, f.pending[id].data);
  }

  // ---------------------------------------------------------------- a read that is overtaken

  /** Sectors `s` and following, all written with the same data. */
  function Written(s: Sector, n: nat, data: Data): Slots { seq(n, i => (s + i, Entry(data, true, false))) }

  function Writes(d: Device, s: Sector, n: nat, data: Data): seq<Action> {
    if n == 0 then [] else Writes(d, s, n - 1, data) + [Now(Write(d, s + n - 1, data))]
  }

  lemma {:induction false} RunAppend(f: State, a: seq<Action>, b: seq<Action>)
    ensures RunAll(f, a + b) == RunAll(RunAll(f, a), b)
    decreases |a|
  {
    if a == [] {
      assert a + b == b;
    } else {
      assert (a + b)[0] == a[0] && (a + b)[1..] == a[1..] + b;
      RunAppend(Do(f, a[0]), a[1..], b);
    }
  }

  lemma RunOne(f: State, a: Action)
    ensures RunAll(f, [a]) == Do(f, a)
  {
    assert [a][1..] == [];
  }

  lemma NotWritten(s: Sector, n: nat, data: Data)
    ensures Position(Written(s, n, data), s + n) == n
  {
  }

  lemma NextWrite(disk: Disk, d: Device, s: Sector, n: nat, data: Data, devices: Devices)
    requires devices == if n == 0 then [] else [(d, Written(s, n, data))]
    requires n < MAX_CACHE_ENTRIES_PER_DEVICE
    ensures UpdateEntry(Cache(devices, []), d, s + n, data, false) == Update(Cache([(d, Written(s, n + 1, data))], []), None, [])
  {
    var slots := Written(s, n, data);
    NotWritten(s, n, data);
    assert slots + [(s + n, Entry(data, true, false))] == Written(s, n + 1, data);
    assert Position([(d, slots)], d) == 0;
    assert [(d, slots)][0 := (d, Written(s, n + 1, data))] == [(d, Written(s, n + 1, data))];
    if n == 0 {
      assert slots == [] && devices + [(d, [])] == [(d, slots)];
    }
  }

  /** Written sectors fill the cache one after the other. */
  lemma {:induction false} CacheFills(f: State, d: Device, s: Sector, n: nat, data: Data)
    requires f.x.cache == Cache([], []) && 0 < n <= MAX_CACHE_ENTRIES_PER_DEVICE
    ensures RunAll(f, Writes(d, s, n, data)) == f.(x := World(Cache([(d, Written(s, n, data))], []), f.x.disk))
  {
    var w := Now(Write(d, s + n - 1, data));
    RunAppend(f, Writes(d, s, n - 1, data), [w]);
    var f' := RunAll(f, Writes(d, s, n - 1, data));
    RunOne(f', w);
    if n == 1 {
      OneMoreWritten(f', d, s, 0, data);
    } else {
      CacheFills(f, d, s, n - 1, data);
      OneMoreWritten(f', d, s, n - 1, data);
    }
  }

  lemma OneMoreWritten(f: State, d: Device, s: Sector, n: nat, data: Data)
    requires f.x.cache == Cache(if n == 0 then [] else [(d, Written(s, n, data))], []) && n < MAX_CACHE_ENTRIES_PER_DEVICE
    ensures Do(f, Now(Write(d, s + n, data))) == f.(x := World(Cache([(d, Written(s, n + 1, data))], []), f.x.disk))
  {
    NextWrite(f.x.disk, d, s, n, data, f.x.cache.devices);
    assert Overtakes(f.pending, None) == {};
  }

  /** One more write evicts the first sector and writes it back. */
  lemma FirstEvicted(slots: Slots, s: Sector, n: nat, data: Data)
    requires slots == Written(s, n, data) && n > 0
    ensures EvictEntry(slots) == (SwapRemove(slots, 0), Some(WriteBack(s, data)))
    ensures Lookup(SwapRemove(slots, 0) + [(s + n, Entry(data, true, false))], s).None?
  {
    var rest := SwapRemove(slots, 0) + [(s + n, Entry(data, true, false))];
    assert forall i :: 0 <= i < |rest| ==> rest[i].0 != s;
  }

  /** A read starts, its sector is written, the cache fills up so that the sector is evicted and written
      back, and only then does the read end: clients see the old data again. */
  lemma OvertakenRead(disk: Disk, d: Device, s: Sector, data: Data, f: State)
    requires data != disk(d, s)
    requires f == RunAll(Nothing(disk), BeforeEnd(d, s, data))
    ensures View(f.x.cache, f.x.disk, d, s) == data && 0 in f.pending
    ensures View(Do(f, End(0)).x.cache, Do(f, End(0)).x.disk, d, s) == disk(d, s)
  {
    UntilEvicted(disk, d, s, data, f);
    EndsLate(f, d, s, disk(d, s));
  }

  /** The run up to the end of the read. */
  function BeforeEnd(d: Device, s: Sector, data: Data): seq<Action> {
    [Start(0, d, s)] + Writes(d, s, MAX_CACHE_ENTRIES_PER_DEVICE, data)
    + [Now(Write(d, s + MAX_CACHE_ENTRIES_PER_DEVICE, data))]
  }

  lemma UntilEvicted(disk: Disk, d: Device, s: Sector, data: Data, f: State)
    requires f == RunAll(Nothing(disk), BeforeEnd(d, s, data))
    ensures Inv(f) && 0 in f.pending && f.pending[0] == Read(d, s, disk(d, s))
    ensures f.x.disk(d, s) == data && EntryAt(f.x.cache.devices, d, s).None?
  {
    var f0, n := Nothing(disk), MAX_CACHE_ENTRIES_PER_DEVICE;
    var w := Now(Write(d, s + n, data));
    RunAppend(f0, [Start(0, d, s)] + Writes(d, s, n, data), [w]);
    RunAppend(f0, [Start(0, d, s)], Writes(d, s, n, data));
    RunOne(f0, Start(0, d, s));
    var f1 := Do(f0, Start(0, d, s));
    CacheFills(f1, d, s, n, data);
    var f2 := f1.(x := World(Cache([(d, Written(s, n, data))], []), disk));
    RunOne(f2, w);
    LastWrite(f2, d, s, data, f);
    BeforeEndInv(disk, d, s, data);
  }

  function Nothing(disk: Disk): State { State(World(Cache([], []), disk), map[], {}) }

  lemma BeforeEndInv(disk: Disk, d: Device, s: Sector, data: Data)
    ensures Inv(RunAll(Nothing(disk), BeforeEnd(d, s, data)))
  {
    assert BlockCache.Inv(Cache([], []), disk);
    WritesAreNow(d, s, MAX_CACHE_ENTRIES_PER_DEVICE, data);
    WithoutEnds(Nothing(disk), BeforeEnd(d, s, data));
    RunRefines(Nothing(disk), disk, BeforeEnd(d, s, data));
  }

  lemma {:induction false} WritesAreNow(d: Device, s: Sector, n: nat, data: Data)
    ensures forall i :: 0 <= i < |Writes(d, s, n, data)| ==> Writes(d, s, n, data)[i].Now?
  {
    if n == 0 {
    } else {
      WritesAreNow(d, s, n - 1, data);
    }
  }

  lemma {:induction false} WithoutEnds(f: State, acts: seq<Action>)
    requires forall i :: 0 <= i < |acts| ==> !acts[i].End?
    ensures AllInTime(f, acts)
    decreases |acts|
  {
    if acts == [] {
    } else {
      WithoutEnds(Do(f, acts[0]), acts[1..]);
    }
  }

  lemma LastWrite(f: State, d: Device, s: Sector, data: Data, f': State)
    requires f.x.cache == Cache([(d, Written(s, MAX_CACHE_ENTRIES_PER_DEVICE, data))], [])
    requires f' == Do(f, Now(Write(d, s + MAX_CACHE_ENTRIES_PER_DEVICE, data)))
    ensures f'.pending == f.pending && f'.x.disk(d, s) == data && EntryAt(f'.x.cache.devices, d, s).None?
  {
    var n, slots := MAX_CACHE_ENTRIES_PER_DEVICE, Written(s, MAX_CACHE_ENTRIES_PER_DEVICE, data);
    NotWritten(s, n, data);
    FirstEvicted(slots, s, n, data);
    assert Position([(d, slots)], d) == 0;
    var kept := SwapRemove(slots, 0) + [(s + n, Entry(data, true, false))];
    assert f'.x.cache.devices == [(d, kept)];
    assert Position([(d, kept)], d) == 0;
  }

  lemma EndsLate(f: State, d: Device, s: Sector, old': Data)
    requires 0 in f.pending && f.pending[0] == Read(d, s, old') && EntryAt(f.x.cache.devices, d, s).None?
    requires WellFormed(f.x.cache.devices) && Coherent(f.x.cache.devices, f.x.disk)
    ensures View(Do(f, End(0)).x.cache, Do(f, End(0)).x.disk, d, s) == old'
  {
    var victim := UpdateMeaning(f.x.cache, f.x.disk, d, s, old', true);
  }
}
