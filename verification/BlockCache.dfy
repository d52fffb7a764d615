/**
 The write-back cache of disk sectors.

 For every device the cache keeps a vector of sectors. An entry that is being read holds no data
 yet; a dirty entry holds data the disk does not have. What a client sees at a sector is the
 entry's data if there is a settled entry, and otherwise what is on disk.
 */
module BlockCache {
  import opened Collections
  import opened Vectors

  type Device = nat
  type Sector = nat
  type Waker = nat
  type Data = seq<bv8>

  const MAX_CACHE_ENTRIES_PER_DEVICE := 4096

  datatype Entry = Entry(data: Data, dirty: bool, reading: bool)

  type Slots = seq<(Sector, Entry)>
  type Devices = seq<(Device, Slots)>

  datatype Waiter = Waiter(device: Device, sector: Sector, waker: Waker)

  datatype Cache = Cache(devices: Devices, waiters: seq<Waiter>)

  datatype GetResult = Found(data: Data) | Reading | NotFound

  /** The write that an eviction leaves to its caller. */
  datatype WriteBack = WriteBack(sector: Sector, data: Data)

  function ReadingEntry(): Entry { Entry(seq(512, _ => 0), false, true) }

  // ---------------------------------------------------------------- the operations, on values

  function GetEntry(c: Cache, d: Device, s: Sector, w: Waker): (Cache, GetResult) {
    var i := Position(c.devices, d);
    if i == |c.devices| then (c.(devices := c.devices + [(d, [(s, ReadingEntry())])]), NotFound)
    else
      var slots := c.devices[i].1;
      var j := Position(slots, s);
      if j == |slots| then (c.(devices := c.devices[i := (d, slots + [(s, ReadingEntry())])]), NotFound)
      else if slots[j].1.reading then (c.(waiters := c.waiters + [Waiter(d, s, w)]), Reading)
      else (c, Found(slots[j].1.data))
  }

  function FirstClean(slots: Slots): (r: nat)
    ensures r <= |slots|
    ensures r < |slots| ==> !slots[r].1.dirty
    ensures forall i :: 0 <= i < r ==> slots[i].1.dirty
  {
    if slots == [] then 0 else if !slots[0].1.dirty then 0 else 1 + FirstClean(slots[1..])
  }

  function FirstSettled(slots: Slots): (r: nat)
    ensures r <= |slots|
    ensures r < |slots| ==> !slots[r].1.reading
    ensures forall i :: 0 <= i < r ==> slots[i].1.reading
  {
    if slots == [] then 0 else if !slots[0].1.reading then 0 else 1 + FirstSettled(slots[1..])
  }

  function EvictEntry(slots: Slots): (Slots, Option<WriteBack>) {
    var clean := FirstClean(slots);
    if clean < |slots| then (SwapRemove(slots, clean), None)
    else
      var pos := FirstSettled(slots);
      if pos == |slots| then (slots, None)
      else (SwapRemove(slots, pos), Some(WriteBack(slots[pos].0, slots[pos].1.data)))
  }

  function Waiting(ws: seq<Waiter>, d: Device, s: Sector): seq<Waker> {
    if ws == [] then []
    else (if ws[0].device == d && ws[0].sector == s then [ws[0].waker] else []) + Waiting(ws[1..], d, s)
  }

  function Others(ws: seq<Waiter>, d: Device, s: Sector): seq<Waiter> {
    if ws == [] then []
    else (if ws[0].device == d && ws[0].sector == s then [] else [ws[0]]) + Others(ws[1..], d, s)
  }

  datatype Update = Update(cache: Cache, writeBack: Option<WriteBack>, woken: seq<Waker>)

  function UpdateEntry(c: Cache, d: Device, s: Sector, data: Data, fromDisk: bool): Update {
    var i := Position(c.devices, d);
    var devices := if i == |c.devices| then c.devices + [(d, [])] else c.devices;
    var slots := devices[i].1;
    var j := Position(slots, s);
    var fresh' := (s, Entry(data, !fromDisk, false));
    if j < |slots| && !slots[j].1.reading && fromDisk then Update(c.(devices := devices), None, [])
    else
      var (kept, writeBack) :=
        if j < |slots| then (slots[j := fresh'], None)
        else if |slots| >= MAX_CACHE_ENTRIES_PER_DEVICE then
          var (rest, callback) := EvictEntry(slots); (rest + [fresh'], callback)
        else (slots + [fresh'], None);
      Update(Cache(devices[i := (d, kept)], Others(c.waiters, d, s)), writeBack, Waiting(c.waiters, d, s))
  }

  // ---------------------------------------------------------------- what the cache means

  function SlotsOf(devices: Devices, d: Device): Slots {
    var x := Lookup(devices, d);
    if x.Some? then x.value else []
  }

  function EntryAt(devices: Devices, d: Device, s: Sector): Option<Entry> {
    Lookup(SlotsOf(devices, d), s)
  }

  type Disk = (Device, Sector) -> Data

  function View(c: Cache, disk: Disk, d: Device, s: Sector): Data {
    var e := EntryAt(c.devices, d, s);
    if e.Some? && !e.value.reading then e.value.data else disk(d, s)
  }

  ghost predicate WellFormed(devices: Devices) {
    Unique(devices) && forall d :: Unique(SlotsOf(devices, d))
  }

  /** An entry agrees with the disk unless it is dirty, and a dirty entry is not being read. */
  predicate EntryOk(e: Option<Entry>, onDisk: Data) {
    e.Some? ==> (e.value.dirty ==> !e.value.reading) && (!e.value.dirty && !e.value.reading ==> e.value.data == onDisk)
  }

  ghost predicate Coherent(devices: Devices, disk: Disk) {
    forall d, s :: EntryOk(EntryAt(devices, d, s), disk(d, s))
  }

  /** Nobody waits for a sector whose data is already here. */
  ghost predicate WaitersOk(c: Cache) {
    forall i :: 0 <= i < |c.waiters| ==>
      var e := EntryAt(c.devices, c.waiters[i].device, c.waiters[i].sector);
      e.None? || e.value.reading
  }

  ghost predicate Inv(c: Cache, disk: Disk) {
    WellFormed(c.devices) && Coherent(c.devices, disk) && WaitersOk(c)
  }

  // ---------------------------------------------------------------- one entry at a time

  /** The entries of `after` are those of `before`, but for one. */
  ghost predicate Changes(before: Devices, after: Devices, d: Device, s: Sector, e: Option<Entry>) {
    forall d', s' :: EntryAt(after, d', s') == if d' == d && s' == s then e else EntryAt(before, d', s')
  }

  lemma ReplaceSlots(devices: Devices, i: nat, slots: Slots)
    requires WellFormed(devices) && i < |devices| && Unique(slots)
    ensures var after := devices[i := (devices[i].0, slots)];
            && WellFormed(after)
            && forall d :: SlotsOf(after, d) == if d == devices[i].0 then slots else SlotsOf(devices, d)
  {
    var after := devices[i := (devices[i].0, slots)];
    forall d ensures SlotsOf(after, d) == if d == devices[i].0 then slots else SlotsOf(devices, d) {
      LookupSet(devices, i, slots, d);
    }
    LookupSet(devices, i, slots, 0);
  }

  lemma AddDevice(devices: Devices, d: Device, slots: Slots)
    requires WellFormed(devices) && Lookup(devices, d).None? && Unique(slots)
    ensures var after := devices + [(d, slots)];
            && WellFormed(after)
            && forall d' :: SlotsOf(after, d') == if d' == d then slots else SlotsOf(devices, d')
  {
    var after := devices + [(d, slots)];
    forall d' ensures SlotsOf(after, d') == if d' == d then slots else SlotsOf(devices, d') {
      LookupPush(devices, d, slots, d');
    }
    LookupPush(devices, d, slots, 0);
  }

  /** Looking up a sector only ever adds a reading entry where there was none, and returns the
      data the client sees. */
  lemma GetEntryMeaning(c: Cache, d: Device, s: Sector, w: Waker)
    requires WellFormed(c.devices)
    ensures var (c', r), e := GetEntry(c, d, s, w), EntryAt(c.devices, d, s);
            && WellFormed(c'.devices)
            && Changes(c.devices, c'.devices, d, s, if e.None? then Some(ReadingEntry()) else e)
            && r == (if e.None? then NotFound else if e.value.reading then Reading else Found(e.value.data))
            && c'.waiters == (if e.Some? && e.value.reading then c.waiters + [Waiter(d, s, w)] else c.waiters)
  {
    var i := Position(c.devices, d);
    var read := (s, ReadingEntry());
    if i == |c.devices| {
      AddDevice(c.devices, d, [read]);
      forall s' ensures Lookup([read], s') == if s' == s then Some(ReadingEntry()) else None {
        LookupPush([], s, ReadingEntry(), s');
        assert [] + [read] == [read];
      }
    } else {
      var slots := c.devices[i].1;
      assert slots == SlotsOf(c.devices, d);
      if Position(slots, s) == |slots| {
        forall s' ensures Lookup(slots + [read], s') == if s' == s then Some(ReadingEntry()) else Lookup(slots, s') {
          LookupPush(slots, s, ReadingEntry(), s');
        }
        LookupPush(slots, s, ReadingEntry(), s);
        ReplaceSlots(c.devices, i, slots + [read]);
      }
    }
  }

  /** The slot that is given up: the first clean one, or the very first if all are dirty. */
  predicate IsVictim(slots: Slots, p: nat) {
    && p < |slots|
    && if slots[p].1.dirty then p == 0 && forall i :: 0 <= i < |slots| ==> slots[i].1.dirty
       else forall i :: 0 <= i < p ==> slots[i].1.dirty
  }

  ghost predicate GivesUp(slots: Slots, s: Sector) { exists p: nat :: IsVictim(slots, p) && slots[p].0 == s }

  /** Eviction takes out one entry: the first clean one, for which nothing is owed, or, if all are
      dirty, the first one, for which exactly its write is owed. */
  lemma EvictMeaning(slots: Slots) returns (p: nat)
    requires |slots| > 0 && forall i :: 0 <= i < |slots| ==> (slots[i].1.dirty ==> !slots[i].1.reading)
    ensures IsVictim(slots, p)
    ensures var (rest, owed) := EvictEntry(slots);
            && rest == SwapRemove(slots, p)
            && owed == if slots[p].1.dirty then Some(WriteBack(slots[p].0, slots[p].1.data)) else None
  {
    p := FirstClean(slots);
    if p == |slots| { p := FirstSettled(slots); }
  }

  /** The entries after an update: the new one, without the victim if one was evicted. */
  ghost predicate Updated(before: Devices, after: Devices, d: Device, s: Sector, e: Entry, victim: Option<Sector>) {
    forall d', s' :: EntryAt(after, d', s') ==
      if d' == d && s' == s then Some(e)
      else if d' == d && victim == Some(s') then None
      else EntryAt(before, d', s')
  }

  /** What the eviction owes for its victim. */
  ghost predicate Owes(devices: Devices, d: Device, victim: Option<Sector>, owed: Option<WriteBack>) {
    if victim.None? then owed.None?
    else
      var e := EntryAt(devices, d, victim.value);
      && e.Some?
      && owed == if e.value.dirty then Some(WriteBack(victim.value, e.value.data)) else None
  }

  lemma SlotsAfterUpdate(slots: Slots, s: Sector, e: Entry) returns (kept: Slots, owed: Option<WriteBack>, victim: Option<Sector>)
    requires Unique(slots)
    requires forall s' :: Lookup(slots, s').Some? ==> (Lookup(slots, s').value.dirty ==> !Lookup(slots, s').value.reading)
    ensures var j := Position(slots, s);
            (kept, owed) ==
              if j < |slots| then (slots[j := (s, e)], None)
              else if |slots| >= MAX_CACHE_ENTRIES_PER_DEVICE then
                (EvictEntry(slots).0 + [(s, e)], EvictEntry(slots).1)
              else (slots + [(s, e)], None)
    ensures Unique(kept)
    ensures forall s' :: Lookup(kept, s') ==
              if s' == s then Some(e) else if victim == Some(s') then None else Lookup(slots, s')
    ensures victim.Some? <==> Lookup(slots, s).None? && |slots| >= 4096
    ensures victim.Some? ==> GivesUp(slots, victim.value)
    ensures victim.Some? ==>
              && victim.value != s && Lookup(slots, victim.value).Some?
              && var x := Lookup(slots, victim.value).value;
                 owed == if x.dirty then Some(WriteBack(victim.value, x.data)) else None
    ensures victim.None? ==> owed.None?
  {
    var j := Position(slots, s);
    owed, victim := None, None;
    if j < |slots| {
      kept := slots[j := (s, e)];
      forall s' ensures Lookup(kept, s') == if s' == s then Some(e) else Lookup(slots, s') {
        LookupSet(slots, j, e, s');
      }
      LookupSet(slots, j, e, s);
    } else {
      var rest := slots;
      if |slots| >= MAX_CACHE_ENTRIES_PER_DEVICE {
        forall i | 0 <= i < |slots| ensures slots[i].1.dirty ==> !slots[i].1.reading { LookupAt(slots, i); }
        var p := EvictMeaning(slots);
        LookupAt(slots, p);
        rest, owed, victim := EvictEntry(slots).0, EvictEntry(slots).1, Some(slots[p].0);
        forall s': Sector ensures Lookup(rest, s') == if victim == Some(s') then None else Lookup(slots, s') {
          LookupSwapRemove(slots, p, s');
        }
        LookupSwapRemove(slots, p, s);
      }
      kept := rest + [(s, e)];
      forall s' ensures Lookup(kept, s') == if s' == s then Some(e) else Lookup(rest, s') {
        LookupPush(rest, s, e, s');
      }
      LookupPush(rest, s, e, s);
    }
  }

  /** An update that is not ignored stores its entry, evicts an entry of the same device exactly if the
      sector is new and the device has its 4096 entries, owes a write exactly for a dirty victim, and
      wakes exactly the waiters of the sector. */
  lemma UpdateMeaning(c: Cache, disk: Disk, d: Device, s: Sector, data: Data, fromDisk: bool) returns (victim: Option<Sector>)
    requires WellFormed(c.devices) && Coherent(c.devices, disk)
    requires var e := EntryAt(c.devices, d, s); !(e.Some? && !e.value.reading && fromDisk)
    ensures var u := UpdateEntry(c, d, s, data, fromDisk);
            && WellFormed(u.cache.devices)
            && Updated(c.devices, u.cache.devices, d, s, Entry(data, !fromDisk, false), victim)
            && Owes(c.devices, d, victim, u.writeBack)
            && u.cache.waiters == Others(c.waiters, d, s) && u.woken == Waiting(c.waiters, d, s)
    ensures victim != Some(s)
    ensures victim.Some? <==> EntryAt(c.devices, d, s).None? && |SlotsOf(c.devices, d)| >= 4096
    ensures victim.Some? ==> GivesUp(SlotsOf(c.devices, d), victim.value)
  {
    var i := Position(c.devices, d);
    var devices := c.devices;
    if i == |c.devices| {
      AddDevice(c.devices, d, []);
      devices := c.devices + [(d, [])];
    }
    var slots := devices[i].1;
    LookupAt(devices, i);
    assert slots == SlotsOf(c.devices, d);
    forall s' ensures EntryOk(Lookup(slots, s'), disk(d, s')) {
      assert EntryAt(c.devices, d, s') == Lookup(slots, s');
    }
    var e := Entry(data, !fromDisk, false);
    var kept, owed, v := SlotsAfterUpdate(slots, s, e);
    victim := v;
    ReplaceSlots(devices, i, kept);
    var u := UpdateEntry(c, d, s, data, fromDisk);
    assert u.cache.devices == devices[i := (d, kept)] && u.writeBack == owed;
  }

  lemma {:induction false} OthersAreOthers(ws: seq<Waiter>, d: Device, s: Sector)
    ensures forall w :: w in Others(ws, d, s) <==> w in ws && !(w.device == d && w.sector == s)
  {
    if ws == [] {
    } else {
      OthersAreOthers(ws[1..], d, s);
    }
  }

  // ---------------------------------------------------------------- a cache in front of a disk

  /** Everything there is: the cache and the disk behind it. */
  datatype World = World(cache: Cache, disk: Disk)

  function Put(disk: Disk, d: Device, s: Sector, data: Data): Disk {
    (d': Device, s': Sector) => if d' == d && s' == s then data else disk(d', s')
  }

  /** A write-back that an update owes reaches the disk at once. */
  function Settle(u: Update, disk: Disk, d: Device): World {
    World(u.cache, if u.writeBack.Some? then Put(disk, d, u.writeBack.value.sector, u.writeBack.value.data) else disk)
  }

  datatype Op =
    | Get(d: Device, s: Sector, w: Waker)
    | Write(d: Device, s: Sector, data: Data)
    | Fill(d: Device, s: Sector)   // a read from disk has completed

  function Step(x: World, op: Op): World {
    match op
    case Get(d, s, w) => World(GetEntry(x.cache, d, s, w).0, x.disk)
    case Write(d, s, data) => Settle(UpdateEntry(x.cache, d, s, data, false), x.disk, d)
    case Fill(d, s) => Settle(UpdateEntry(x.cache, d, s, x.disk(d, s), true), x.disk, d)
  }

  /** The client's side of a state: what it sees at every sector. */
  ghost predicate Sees(x: World, plain: Disk) {
    forall d, s :: View(x.cache, x.disk, d, s) == plain(d, s)
  }

  /** Storing an entry and dropping a victim whose data is on disk or on its way there. */
  lemma UpdatedPointwise(c: Cache, c': Cache, disk: Disk, d: Device, s: Sector, e: Entry, victim: Option<Sector>,
                         owed: Option<WriteBack>, d': Device, s': Sector)
    requires Updated(c.devices, c'.devices, d, s, e, victim) && Owes(c.devices, d, victim, owed)
    requires Coherent(c.devices, disk) && victim != Some(s)
    requires !e.reading && (e.dirty || e.data == disk(d, s))
    ensures var disk' := Settle(Update(c', owed, []), disk, d).disk;
            && EntryOk(EntryAt(c'.devices, d', s'), disk'(d', s'))
            && View(c', disk', d', s') == if d' == d && s' == s then e.data else View(c, disk, d', s')
  {
    assert EntryOk(EntryAt(c.devices, d', s'), disk(d', s'));
    assert victim.Some? ==> EntryOk(EntryAt(c.devices, d, victim.value), disk(d, victim.value));
  }

  lemma WaitersAfter(c: Cache, c': Cache, d: Device, s: Sector, e: Entry, victim: Option<Sector>)
    requires Updated(c.devices, c'.devices, d, s, e, victim)
    requires WaitersOk(c) && c'.waiters == Others(c.waiters, d, s)
    ensures WaitersOk(c')
  {
    OthersAreOthers(c.waiters, d, s);
    forall i | 0 <= i < |c'.waiters|
      ensures var x := EntryAt(c'.devices, c'.waiters[i].device, c'.waiters[i].sector);
              x.None? || x.value.reading
    {
      var w := c'.waiters[i];
      assert w in c'.waiters;
      var j :| 0 <= j < |c.waiters| && c.waiters[j] == w;
    }
  }

  lemma UpdateKeeps(x: World, d: Device, s: Sector, data: Data, fromDisk: bool)
    requires Inv(x.cache, x.disk) && (fromDisk ==> data == x.disk(d, s))
    ensures var x' := Settle(UpdateEntry(x.cache, d, s, data, fromDisk), x.disk, d);
            && Inv(x'.cache, x'.disk)
            && forall d', s' :: View(x'.cache, x'.disk, d', s') ==
                 if !fromDisk && d' == d && s' == s then data else View(x.cache, x.disk, d', s')
  {
    var c, old' := x.cache, EntryAt(x.cache.devices, d, s);
    if old'.Some? && !old'.value.reading && fromDisk {
      IgnoredFill(c, d, s, data);
    } else {
      var victim := UpdateMeaning(c, x.disk, d, s, data, fromDisk);
      var u, e := UpdateEntry(c, d, s, data, fromDisk), Entry(data, !fromDisk, false);
      var x' := Settle(u, x.disk, d);
      forall d', s'
        ensures EntryOk(EntryAt(x'.cache.devices, d', s'), x'.disk(d', s'))
        ensures View(x'.cache, x'.disk, d', s') == if d' == d && s' == s then data else View(c, x.disk, d', s')
      {
        UpdatedPointwise(c, u.cache, x.disk, d, s, e, victim, u.writeBack, d', s');
      }
      WaitersAfter(c, u.cache, d, s, e, victim);
    }
  }

  /** A fill for a sector that is already here changes nothing. */
  lemma IgnoredFill(c: Cache, d: Device, s: Sector, data: Data)
    requires var e := EntryAt(c.devices, d, s); e.Some? && !e.value.reading
    ensures UpdateEntry(c, d, s, data, true) == Update(c, None, [])
  {
  }

  /** What is cached at a sector after an operation on it: a lookup of a sector that is not here leaves a
      mark that it is being read, a write leaves its data to be written back, and a fill leaves the
      sector settled with what a client sees there. */
  lemma CachedAfter(x: World, op: Op)
    requires Inv(x.cache, x.disk)
    ensures var e, e' := EntryAt(x.cache.devices, op.d, op.s), EntryAt(Step(x, op).cache.devices, op.d, op.s);
            && (op.Get? ==> e' == if e.None? then Some(ReadingEntry()) else e)
            && (op.Write? ==> e' == Some(Entry(op.data, true, false)))
            && (op.Fill? && (e.None? || e.value.reading) ==> e' == Some(Entry(x.disk(op.d, op.s), false, false)))
            && (op.Fill? && e.Some? && !e.value.reading ==> e' == e)
  {
    match op
    case Get(d, s, w) => GetEntryMeaning(x.cache, d, s, w);
    case Write(d, s, data) => var _ := UpdateMeaning(x.cache, x.disk, d, s, data, false);
    case Fill(d, s) =>
      var e := EntryAt(x.cache.devices, d, s);
      if e.Some? && !e.value.reading {
        IgnoredFill(x.cache, d, s, x.disk(d, s));
      } else {
        var _ := UpdateMeaning(x.cache, x.disk, d, s, x.disk(d, s), true);
      }
  }

  lemma GetKeeps(x: World, d: Device, s: Sector, w: Waker)
    requires Inv(x.cache, x.disk)
    ensures var c' := GetEntry(x.cache, d, s, w).0;
            Inv(c', x.disk) && forall d', s' :: View(c', x.disk, d', s') == View(x.cache, x.disk, d', s')
  {
    GetEntryMeaning(x.cache, d, s, w);
    LookedUp(x.cache, GetEntry(x.cache, d, s, w).0, x.disk, d, s, w);
  }

  lemma LookedUp(c: Cache, c': Cache, disk: Disk, d: Device, s: Sector, w: Waker)
    requires Inv(c, disk) && WellFormed(c'.devices)
    requires var e := EntryAt(c.devices, d, s);
             && Changes(c.devices, c'.devices, d, s, if e.None? then Some(ReadingEntry()) else e)
             && c'.waiters == if e.Some? && e.value.reading then c.waiters + [Waiter(d, s, w)] else c.waiters
    ensures Inv(c', disk) && forall d', s' :: View(c', disk, d', s') == View(c, disk, d', s')
  {
    forall d', s'
      ensures EntryOk(EntryAt(c'.devices, d', s'), disk(d', s'))
      ensures View(c', disk, d', s') == View(c, disk, d', s')
    {
      assert EntryOk(EntryAt(c.devices, d', s'), disk(d', s'));
    }
    LookedUpWaiters(c, c', d, s, w);
  }

  lemma LookedUpWaiters(c: Cache, c': Cache, d: Device, s: Sector, w: Waker)
    requires WaitersOk(c)
    requires var e := EntryAt(c.devices, d, s);
             && Changes(c.devices, c'.devices, d, s, if e.None? then Some(ReadingEntry()) else e)
             && c'.waiters == if e.Some? && e.value.reading then c.waiters + [Waiter(d, s, w)] else c.waiters
    ensures WaitersOk(c')
  {
    forall i | 0 <= i < |c'.waiters|
      ensures var x := EntryAt(c'.devices, c'.waiters[i].device, c'.waiters[i].sector);
              x.None? || x.value.reading
    {
      assert i < |c.waiters| ==> c'.waiters[i] == c.waiters[i];
    }
  }

  /** Every step keeps the invariant, and the client sees it as a step of a plain sector map: a
      write changes its own sector, a lookup or a completed read changes nothing, whatever was
      evicted on the way. */
  lemma StepRefines(x: World, op: Op)
    requires Inv(x.cache, x.disk)
    ensures var x' := Step(x, op);
            && Inv(x'.cache, x'.disk)
            && forall d, s :: View(x'.cache, x'.disk, d, s) ==
                 if op.Write? && d == op.d && s == op.s then op.data else View(x.cache, x.disk, d, s)
  {
    match op
    case Get(d, s, w) => GetKeeps(x, d, s, w);
    case Write(d, s, data) => UpdateKeeps(x, d, s, data, false);
    case Fill(d, s) => UpdateKeeps(x, d, s, x.disk(d, s), true);
  }

  function Run(x: World, ops: seq<Op>): World
    decreases |ops|
  {
    if ops == [] then x else Run(Step(x, ops[0]), ops[1..])
  }

  /** The reference: a map of sectors that only writes change. */
  function PlainRun(plain: Disk, ops: seq<Op>): Disk
    decreases |ops|
  {
    if ops == [] then plain
    else PlainRun(if ops[0].Write? then Put(plain, ops[0].d, ops[0].s, ops[0].data) else plain, ops[1..])
  }

  /** After any sequence of operations the client sees exactly the plain map. */
  lemma {:induction false} RunRefines(x: World, plain: Disk, ops: seq<Op>)
    requires Inv(x.cache, x.disk) && Sees(x, plain)
    ensures Inv(Run(x, ops).cache, Run(x, ops).disk) && Sees(Run(x, ops), PlainRun(plain, ops))
    decreases |ops|
  {
    if ops == [] {
    } else {
      StepRefines(x, ops[0]);
      RunRefines(Step(x, ops[0]), if ops[0].Write? then Put(plain, ops[0].d, ops[0].s, ops[0].data) else plain, ops[1..]);
    }
  }

  /** Starting from an empty cache, a lookup that finds a sector finds what a plain map holds
      there, and a lookup that finds none leaves the client's view alone. */
  lemma LookupIsExact(disk: Disk, ops: seq<Op>, d: Device, s: Sector, w: Waker)
    ensures var x := Run(World(Cache([], []), disk), ops);
            var r := GetEntry(x.cache, d, s, w).1;
            r.Found? ==> r.data == PlainRun(disk, ops)(d, s)
  {
    RunRefines(World(Cache([], []), disk), disk, ops);
    var x := Run(World(Cache([], []), disk), ops);
    GetEntryMeaning(x.cache, d, s, w);
    assert View(x.cache, x.disk, d, s) == PlainRun(disk, ops)(d, s);
  }

  /** The condition on fills is exact: a completed read leaves the client's view alone if and only
      if its sector was settled meanwhile or the data is what the disk holds now. */
  lemma FillExact(x: World, d: Device, s: Sector, data: Data)
    requires Inv(x.cache, x.disk)
    ensures var x' := Settle(UpdateEntry(x.cache, d, s, data, true), x.disk, d);
            var e := EntryAt(x.cache.devices, d, s);
            (forall d', s' :: View(x'.cache, x'.disk, d', s') == View(x.cache, x.disk, d', s'))
            <==> (e.Some? && !e.value.reading) || data == x.disk(d, s)
  {
    var e := EntryAt(x.cache.devices, d, s);
    if e.Some? && !e.value.reading {
      IgnoredFill(x.cache, d, s, data);
    } else if data == x.disk(d, s) {
      UpdateKeeps(x, d, s, data, true);
    } else {
      var victim := UpdateMeaning(x.cache, x.disk, d, s, data, true);
      var x' := Settle(UpdateEntry(x.cache, d, s, data, true), x.disk, d);
      assert View(x'.cache, x'.disk, d, s) == data;
    }
  }

  /** No wake-up is lost: once the data of a sector arrives, everyone who waited for it has been
      woken and nobody waits for it any more. */
  lemma ArrivalWakesAll(x: World, d: Device, s: Sector, i: nat)
    requires Inv(x.cache, x.disk) && i < |x.cache.waiters|
    requires x.cache.waiters[i].device == d && x.cache.waiters[i].sector == s
    ensures var u := UpdateEntry(x.cache, d, s, x.disk(d, s), true);
            && x.cache.waiters[i].waker in u.woken
            && forall w :: w in u.cache.waiters ==> !(w.device == d && w.sector == s)
  {
    var victim := UpdateMeaning(x.cache, x.disk, d, s, x.disk(d, s), true);
    OthersAreOthers(x.cache.waiters, d, s);
    WaitingHasAll(x.cache.waiters, d, s, i);
  }

  lemma {:induction false} WaitingHasAll(ws: seq<Waiter>, d: Device, s: Sector, i: nat)
    requires i < |ws| && ws[i].device == d && ws[i].sector == s
    ensures ws[i].waker in Waiting(ws, d, s)
  {
    if i == 0 {
    } else {
      WaitingHasAll(ws[1..], d, s, i - 1);
    }
  }
}
