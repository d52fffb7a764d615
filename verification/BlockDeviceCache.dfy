/** The sector cache as the kernel keeps it: vectors searched, pushed to and overwritten in place. */
module BlockDevices {
  import opened Collections
  import opened Vectors
  import Spec = BlockCache

  class BlockDeviceCache {
    var cache: Spec.Devices
    var waitCallbacks: seq<Spec.Waiter>

    function Value(): Spec.Cache
      reads this
    {
      Spec.Cache(cache, waitCallbacks)
    }

    constructor ()
      ensures Value() == Spec.Cache([], [])
    {
      cache, waitCallbacks := [], [];
    }

    /** Look a sector up; a missing sector gets an entry that is being read. */
    method GetEntry(d: Spec.Device, s: Spec.Sector, w: Spec.Waker) returns (r: Spec.GetResult)
      modifies this
      ensures (Value(), r) == Spec.GetEntry(old(Value()), d, s, w)
    {
      var devicePos := FindPosition(cache, d);
      if devicePos.None? {
        cache := cache + [(d, [(s, Spec.ReadingEntry())])];
        return Spec.NotFound;
      }
      var slots := cache[devicePos.value].1;
      var pos := FindPosition(slots, s);
      if pos.None? {
        cache := cache[devicePos.value := (d, slots + [(s, Spec.ReadingEntry())])];
        return Spec.NotFound;
      }
      var entry := slots[pos.value].1;
      if entry.reading {
        waitCallbacks := waitCallbacks + [Spec.Waiter(d, s, w)];
        return Spec.Reading;
      }
      r := Spec.Found(entry.data);
    }

    /** Take one entry out of a full vector. */
    static method EvictEntry(slots: Spec.Slots) returns (rest: Spec.Slots, writeBack: Option<Spec.WriteBack>)
      ensures (rest, writeBack) == Spec.EvictEntry(slots)
    {
      var i := 0;
      while i < |slots|
        invariant 0 <= i <= |slots| && forall j :: 0 <= j < i ==> slots[j].1.dirty
      {
        if !slots[i].1.dirty { return SwapRemove(slots, i), None; }
        i := i + 1;
      }
      i := 0;
      while i < |slots|
        invariant 0 <= i <= |slots| && forall j :: 0 <= j < i ==> slots[j].1.reading
      {
        if !slots[i].1.reading {
          return SwapRemove(slots, i), Some(Spec.WriteBack(slots[i].0, slots[i].1.data));
        }
        i := i + 1;
      }
      rest, writeBack := slots, None;
    }

    /** Take everyone who waits for a sector out of the waiting list. */
    method TakeWaiters(d: Spec.Device, s: Spec.Sector) returns (woken: seq<Spec.Waker>)
      modifies this`waitCallbacks
      ensures woken == Spec.Waiting(old(waitCallbacks), d, s)
      ensures waitCallbacks == Spec.Others(old(waitCallbacks), d, s)
    {
      var others: seq<Spec.Waiter> := [];
      woken := [];
      for i := 0 to |waitCallbacks|
        invariant waitCallbacks == old(waitCallbacks)
        invariant woken + Spec.Waiting(waitCallbacks[i..], d, s) == Spec.Waiting(waitCallbacks, d, s)
        invariant others + Spec.Others(waitCallbacks[i..], d, s) == Spec.Others(waitCallbacks, d, s)
      {
        var w := waitCallbacks[i];
        assert waitCallbacks[i..][0] == w && waitCallbacks[i..][1..] == waitCallbacks[i + 1..];
        if w.device == d && w.sector == s {
          woken := woken + [w.waker];
        } else {
          others := others + [w];
        }
      }
      waitCallbacks := others;
    }

    /** Store the data of a sector, written by a client or read from disk. */
    method UpdateEntry(d: Spec.Device, s: Spec.Sector, data: Spec.Data, fromDisk: bool)
      returns (writeBack: Option<Spec.WriteBack>, woken: seq<Spec.Waker>)
      modifies this
      ensures Spec.Update(Value(), writeBack, woken) == Spec.UpdateEntry(old(Value()), d, s, data, fromDisk)
    {
      var found := FindPosition(cache, d);
      var devicePos;
      if found.Some? {
        devicePos := found.value;
      } else {
        cache := cache + [(d, [])];
        devicePos := |cache| - 1;
      }
      var slots := cache[devicePos].1;
      var pos := FindPosition(slots, s);
      var entry := (s, Spec.Entry(data, !fromDisk, false));
      writeBack := None;
      if pos.Some? {
        if !slots[pos.value].1.reading && fromDisk { return None, []; }
        slots := slots[pos.value := entry];
      } else {
        if |slots| >= Spec.MAX_CACHE_ENTRIES_PER_DEVICE {
          slots, writeBack := EvictEntry(slots);
        }
        slots := slots + [entry];
      }
      cache := cache[devicePos := (d, slots)];
      woken := TakeWaiters(d, s);
    }
  }
}
