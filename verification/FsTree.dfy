/**
 The cache of directory entries: it answers as the filesystems would, in every run.

 The filesystems are a map from directories to their entries. A directory that is not in the map is
 one that cannot be read. Each operation that changes a directory and the cache is one step.
 */
module FsTree {
  import opened Collections
  import opened Vectors
  import opened Mounts

  type Name = string
  type Disk = map<Inode, seq<(Name, nat)>>
  type Cache = map<Inode, seq<(Name, Inode)>>

  /** A directory does not hold the same name twice. */
  ghost predicate UniqueNames(d: Disk) { forall p :: p in d ==> Unique(d[p]) }

  /** Looking a name up without the cache. */
  function Entry(d: Disk, p: Inode, n: Name): Option<Inode> {
    if p !in d then None
    else match Lookup(d[p], n)
      case None => None
      case Some(index) => Some(Inode(p.device, index))
  }

  /** Looking a name up in the cache only. */
  function Find(c: Cache, p: Inode, n: Name): Option<Inode> {
    if p in c then Lookup(c[p], n) else None
  }

  // ---------------------------------------------------------------- the operations on the cache

  function LinkInode(c: Cache, p: Inode, n: Name, i: Inode): Cache {
    if p !in c then c
    else
      var c1 := c[p := c[p] + [(n, i)]];
      if i in c1 then c1 else c1[i := []]
  }

  function UnlinkInode(c: Cache, p: Inode, n: Name): Cache {
    if p in c && Position(c[p], n) < |c[p]| then c[p := SwapRemove(c[p], Position(c[p], n))] else c
  }

  function Children(device: nat, entries: seq<(Name, nat)>): seq<(Name, Inode)> {
    seq(|entries|, k requires 0 <= k < |entries| => (entries[k].0, Inode(device, entries[k].1)))
  }

  /** The cache with an empty node for every child. */
  function WithNodes(c: Cache, children: seq<(Name, Inode)>): Cache
    decreases |children|
  {
    if children == [] then c else WithNodes(c[children[0].1 := []], children[1..])
  }

  function LoadDir(c: Cache, d: Disk, p: Inode): Cache
    requires p in d
  {
    if d[p] == [] then c
    else
      var children := Children(p.device, d[p]);
      WithNodes(c, children)[p := children]
  }

  function GetChild(c: Cache, d: Disk, p: Inode, n: Name): (Cache, Option<Inode>) {
    if Find(c, p, n).Some? then (c, Find(c, p, n))
    else if p !in d then (c, None)
    else
      var c' := LoadDir(c, d, p);
      (c', Find(c', p, n))
  }

  // ---------------------------------------------------------------- coherence

  /** What the cache knows is so, and it knows no name twice. It need not know everything. */
  ghost predicate Coherent(d: Disk, c: Cache) {
    && (forall p :: p in c ==> Unique(c[p]))
    && (forall p, n :: Agrees(d, c, p, n))
  }

  predicate Agrees(d: Disk, c: Cache, p: Inode, n: Name) {
    Find(c, p, n).Some? ==> Entry(d, p, n) == Find(c, p, n)
  }

  lemma {:induction false} WithNodesAt(c: Cache, children: seq<(Name, Inode)>, p: Inode)
    ensures var c' := WithNodes(c, children); p in c' ==> c'[p] == [] || (p in c && c'[p] == c[p])
    decreases |children|
  {
    if children == [] {
    } else {
      WithNodesAt(c[children[0].1 := []], children[1..], p);
    }
  }

  lemma ChildrenLookup(device: nat, entries: seq<(Name, nat)>, n: Name)
    requires Unique(entries)
    ensures Unique(Children(device, entries))
    ensures Lookup(Children(device, entries), n) ==
            match Lookup(entries, n) case None => None case Some(index) => Some(Inode(device, index))
  {
    var children := Children(device, entries);
    assert forall k :: 0 <= k < |entries| ==> children[k].0 == entries[k].0;
    assert Position(children, n) == Position(entries, n);
  }

  lemma LoadFinds(c: Cache, d: Disk, p: Inode, n: Name)
    requires UniqueNames(d) && Coherent(d, c) && p in d
    ensures Find(LoadDir(c, d, p), p, n) == Entry(d, p, n)
  {
    assert Agrees(d, c, p, n);
    ChildrenLookup(p.device, d[p], n);
  }

  /** Entering a directory as it was on disk `d0` keeps the cache coherent with `d` if the entries are
      the same there. */
  lemma EnteredCoherent(c: Cache, d0: Disk, d: Disk, p: Inode, c': Cache)
    requires Coherent(d, c) && p in d0 && Unique(d0[p]) && c' == LoadDir(c, d0, p)
    requires forall n :: Entry(d0, p, n).Some? ==> Entry(d, p, n) == Entry(d0, p, n)
    ensures Coherent(d, c')
  {
    if d0[p] != [] {
      var children := Children(p.device, d0[p]);
      ChildrenLookup(p.device, d0[p], "");
      forall q | q in c' ensures Unique(c'[q]) { WithNodesAt(c, children, q); }
      forall q, n ensures Agrees(d, c', q, n) {
        if q == p {
          ChildrenLookup(p.device, d0[p], n);
        } else {
          WithNodesAt(c, children, q);
          assert Agrees(d, c, q, n);
        }
      }
    }
  }

  lemma LoadCoherent(c: Cache, d: Disk, p: Inode)
    requires UniqueNames(d) && Coherent(d, c) && p in d
    ensures Coherent(d, LoadDir(c, d, p))
  {
    EnteredCoherent(c, d, d, p, LoadDir(c, d, p));
  }

  /** A lookup through the cache finds exactly what is on disk, and keeps the cache coherent. */
  lemma GetChildExact(c: Cache, d: Disk, p: Inode, n: Name)
    requires UniqueNames(d) && Coherent(d, c)
    ensures GetChild(c, d, p, n).1 == Entry(d, p, n)
    ensures Coherent(d, GetChild(c, d, p, n).0)
  {
    assert Agrees(d, c, p, n);
    if Find(c, p, n).None? && p in d {
      LoadFinds(c, d, p, n);
      LoadCoherent(c, d, p);
    }
  }

  // ---------------------------------------------------------------- runs

  datatype Op =
    | Create(dir: Inode, name: Name, index: nat, isDir: bool)
    | Link(dir: Inode, name: Name, index: nat)
    | Unlink(dir: Inode, name: Name)
    | Delete(inode: Inode)
    | Forget(inode: Inode)
    | Clear
    | Load(inode: Inode)
    | LookUp(dir: Inode, name: Name)

  datatype State = State(disk: Disk, cache: Cache)

  /** The name is added to the directory. */
  function AddEntry(d: Disk, p: Inode, n: Name, index: nat): Disk
    requires p in d
  {
    d[p := d[p] + [(n, index)]]
  }

  function RemoveEntry(d: Disk, p: Inode, n: Name): Disk
    requires p in d && Position(d[p], n) < |d[p]|
  {
    d[p := SwapRemove(d[p], Position(d[p], n))]
  }

  /** One operation. It fails, and then changes nothing, if the directory cannot be read, if a name to
      be added is there or a name to be removed is not, if a number for a new file is in use by a
      directory, or if a directory to be deleted is not empty. */
  function Step(s: State, op: Op): State {
    match op
    case Create(p, n, index, isDir) =>
      var i := Inode(p.device, index);
      if p !in s.disk || Entry(s.disk, p, n).Some? || i in s.disk then s
      else
        var d := AddEntry(s.disk, p, n, index);
        State(if isDir then d[i := []] else d, LinkInode(s.cache, p, n, i))
    case Link(p, n, index) =>
      if p !in s.disk || Entry(s.disk, p, n).Some? then s
      else State(AddEntry(s.disk, p, n, index), LinkInode(s.cache, p, n, Inode(p.device, index)))
    case Unlink(p, n) =>
      if Entry(s.disk, p, n).None? then s
      else State(RemoveEntry(s.disk, p, n), UnlinkInode(s.cache, p, n))
    case Delete(i) => if i in s.disk && s.disk[i] == [] then s.(disk := s.disk - {i}) else s
    case Forget(i) => s.(cache := s.cache - {i})
    case Clear => s.(cache := map[])
    case Load(i) => if i in s.disk then s.(cache := LoadDir(s.cache, s.disk, i)) else s
    case LookUp(p, n) => s.(cache := GetChild(s.cache, s.disk, p, n).0)
  }

  function Run(s: State, ops: seq<Op>): State
    decreases |ops|
  {
    if ops == [] then s else Run(Step(s, ops[0]), ops[1..])
  }

  ghost predicate Inv(s: State) { UniqueNames(s.disk) && Coherent(s.disk, s.cache) }

  lemma AddedEntry(d: Disk, p: Inode, n: Name, index: nat, q: Inode, n': Name)
    requires UniqueNames(d) && p in d && Entry(d, p, n).None?
    ensures var d' := AddEntry(d, p, n, index);
            && Unique(d'[p])
            && Entry(d', q, n') == if q == p && n' == n then Some(Inode(p.device, index)) else Entry(d, q, n')
  {
    LookupPush(d[p], n, index, n');
  }

  /** Adding the name to the cache, after it has been added on disk, keeps the cache coherent if the
      cache does not have the name yet. */
  lemma LinkCoherent(d: Disk, d': Disk, c: Cache, p: Inode, n: Name, i: Inode)
    requires Coherent(d, c) && Find(c, p, n).None? && Entry(d', p, n) == Some(i)
    requires forall q, n' :: q != p || n' != n ==> Agrees(d, c, q, n') ==> Agrees(d', c, q, n')
    ensures Coherent(d', LinkInode(c, p, n, i))
  {
    var c' := LinkInode(c, p, n, i);
    if p in c {
      LookupPush(c[p], n, i, n);
      forall q, n' ensures Agrees(d', c', q, n') {
        assert Agrees(d, c, q, n');
        LookupPush(c[p], n, i, n');
      }
    } else {
      forall q, n' ensures Agrees(d', c', q, n') { assert Agrees(d, c, q, n'); }
    }
  }

  lemma AddInv(s: State, p: Inode, n: Name, index: nat, isDir: bool, s': State)
    requires Inv(s) && p in s.disk && Entry(s.disk, p, n).None? && (isDir ==> Inode(p.device, index) !in s.disk)
    requires var d, i := AddEntry(s.disk, p, n, index), Inode(p.device, index);
             s' == State(if isDir then d[i := []] else d, LinkInode(s.cache, p, n, i))
    ensures Inv(s')
  {
    AddedEntry(s.disk, p, n, index, p, n);
    assert Agrees(s.disk, s.cache, p, n);
    forall q, n' | q != p || n' != n ensures Agrees(s.disk, s.cache, q, n') ==> Agrees(s'.disk, s.cache, q, n') {
      AddedEntry(s.disk, p, n, index, q, n');
    }
    LinkCoherent(s.disk, s'.disk, s.cache, p, n, Inode(p.device, index));
  }

  lemma RemovedEntry(d: Disk, p: Inode, n: Name, q: Inode, n': Name)
    requires UniqueNames(d) && Entry(d, p, n).Some?
    ensures var d' := RemoveEntry(d, p, n);
            Unique(d'[p]) && Entry(d', q, n') == if q == p && n' == n then None else Entry(d, q, n')
  {
    LookupSwapRemove(d[p], Position(d[p], n), n');
  }

  lemma UnlinkedEntry(c: Cache, p: Inode, n: Name, q: Inode, n': Name)
    requires p in c ==> Unique(c[p])
    ensures var c' := UnlinkInode(c, p, n);
            && (p in c ==> Unique(c'[p]))
            && Find(c', q, n') == if q == p && n' == n then None else Find(c, q, n')
  {
    if p in c && Position(c[p], n) < |c[p]| { LookupSwapRemove(c[p], Position(c[p], n), n'); }
  }

  lemma UnlinkInv(s: State, p: Inode, n: Name, s': State)
    requires Inv(s) && Entry(s.disk, p, n).Some?
    requires s' == State(RemoveEntry(s.disk, p, n), UnlinkInode(s.cache, p, n))
    ensures Inv(s')
  {
    RemovedEntry(s.disk, p, n, p, n);
    UnlinkedEntry(s.cache, p, n, p, n);
    forall q, n' ensures Agrees(s'.disk, s'.cache, q, n') {
      assert Agrees(s.disk, s.cache, q, n');
      RemovedEntry(s.disk, p, n, q, n');
      UnlinkedEntry(s.cache, p, n, q, n');
    }
  }

  lemma StepInv(s: State, op: Op)
    requires Inv(s)
    ensures Inv(Step(s, op))
  {
    var s' := Step(s, op);
    match op
    case Create(p, n, index, isDir) => if s' != s { AddInv(s, p, n, index, isDir, s'); }
    case Link(p, n, index) => if s' != s { AddInv(s, p, n, index, false, s'); }
    case Unlink(p, n) => if s' != s { UnlinkInv(s, p, n, s'); }
    case Load(i) => if i in s.disk { LoadCoherent(s.cache, s.disk, i); }
    case LookUp(p, n) => GetChildExact(s.cache, s.disk, p, n);
    case _ =>
      forall q, n ensures Agrees(s'.disk, s'.cache, q, n) { assert Agrees(s.disk, s.cache, q, n); }
  }

  lemma {:induction false} RunInv(s: State, ops: seq<Op>)
    requires Inv(s)
    ensures Inv(Run(s, ops))
    decreases |ops|
  {
    if ops == [] {
    } else {
      StepInv(s, ops[0]);
      RunInv(Step(s, ops[0]), ops[1..]);
    }
  }

  /** In every run that starts with a cache that knows nothing, a lookup finds exactly what is on disk. */
  lemma CacheIsTransparent(d: Disk, root: Inode, ops: seq<Op>, p: Inode, n: Name)
    requires UniqueNames(d)
    ensures var s := Run(State(d, map[root := []]), ops); GetChild(s.cache, s.disk, p, n).1 == Entry(s.disk, p, n)
  {
    var s := State(d, map[root := []]);
    assert forall q, n' :: Agrees(d, s.cache, q, n');
    RunInv(s, ops);
    GetChildExact(Run(s, ops).cache, Run(s, ops).disk, p, n);
  }

  // ---------------------------------------------------------------- when the two halves are apart

  /** If the directory is changed first and the cache later, the cache stays coherent exactly when it
      has not learned the name in between. */
  lemma LateLinkExact(d: Disk, c: Cache, p: Inode, n: Name, i: Inode)
    requires Coherent(d, c) && p in c && Entry(d, p, n) == Some(i)
    ensures Coherent(d, LinkInode(c, p, n, i)) <==> Find(c, p, n).None?
  {
    if Find(c, p, n).None? {
      LinkCoherent(d, d, c, p, n, i);
    } else {
      var k, c': Cache := Position(c[p], n), LinkInode(c, p, n, i);
      assert c'[p][k].0 == n && c'[p][|c[p]|].0 == n;
    }
  }

  /** Where the cache has a name twice, removing the file leaves it visible: the directory does not
      have the name any more, and a lookup still finds it. */
  lemma DuplicateGoesStale(d: Disk, c: Cache, p: Inode, n: Name, j: nat, k: nat, s': State)
    requires UniqueNames(d) && p in c && j < k < |c[p]| && c[p][j].0 == n && c[p][k].0 == n
    requires Entry(d, p, n).Some? && s' == Step(State(d, c), Unlink(p, n))
    ensures Entry(s'.disk, p, n).None? && GetChild(s'.cache, s'.disk, p, n).1.Some?
  {
    RemovedEntry(d, p, n, p, n);
    var pos := Position(c[p], n);
    assert pos <= j;
    var left := SwapRemove(c[p], pos);
    assert left[if k == |c[p]| - 1 then pos else k].0 == n;
  }

  /** This happens when a lookup loads the directory between the two halves of a creation. */
  lemma CreateRacesWithLookup(p: Inode, n: Name, i: Inode, d: Disk, c: Cache)
    requires i.device == p.device && d == map[p := [(n, i.index)]]
    requires c == LinkInode(GetChild(map[p := []], d, p, n).0, p, n, i)
    ensures p in c && |c[p]| == 2 && c[p][0].0 == n && c[p][1].0 == n && Entry(d, p, n) == Some(i)
  {
    assert Position(d[p], n) == 0;
  }

  /** A directory that was read earlier is entered into the cache now. The cache stays coherent exactly
      when every entry that was read is still there; no lock keeps it there. */
  lemma LateLoadExact(d0: Disk, d: Disk, c: Cache, p: Inode)
    requires Coherent(d, c) && p in d0 && Unique(d0[p])
    ensures Coherent(d, LoadDir(c, d0, p))
            <==> forall n :: Entry(d0, p, n).Some? ==> Entry(d, p, n) == Entry(d0, p, n)
  {
    var c' := LoadDir(c, d0, p);
    if forall n :: Entry(d0, p, n).Some? ==> Entry(d, p, n) == Entry(d0, p, n) {
      EnteredCoherent(c, d0, d, p, c');
    } else {
      var n :| Entry(d0, p, n).Some? && Entry(d, p, n) != Entry(d0, p, n);
      ChildrenLookup(p.device, d0[p], n);
      assert !Agrees(d, c', p, n);
    }
  }

  /** So a file that is unlinked while its directory is being read stays visible, with no duplicate. */
  lemma UnlinkRacesWithLoad(p: Inode, n: Name, i: Inode, d0: Disk, s: State, c: Cache)
    requires i.device == p.device && d0 == map[p := [(n, i.index)]]
    requires s == Step(State(d0, map[p := []]), Unlink(p, n)) && c == LoadDir(s.cache, d0, p)
    ensures Entry(s.disk, p, n).None? && GetChild(c, s.disk, p, n).1 == Some(i)
  {
    assert Position(d0[p], n) == 0;
    assert Unique(d0[p]);
    ChildrenLookup(p.device, d0[p], n);
    RemovedEntry(d0, p, n, p, n);
  }

  /** The nodes that a load enters one by one for the children never matter. */
  lemma EmptyNodeCoherent(d: Disk, c: Cache, i: Inode)
    requires Coherent(d, c)
    ensures Coherent(d, c[i := []])
  {
    var c' := c[i := []];
    forall q, n ensures Agrees(d, c', q, n) { assert Agrees(d, c, q, n); }
  }

  /** A late unlink always makes good: if the cache is wrong about that name only, it is coherent
      afterwards. */
  lemma LateUnlinkHeals(d: Disk, c: Cache, p: Inode, n: Name)
    requires (forall q :: q in c ==> Unique(c[q])) && forall q, n' :: q != p || n' != n ==> Agrees(d, c, q, n')
    ensures Coherent(d, UnlinkInode(c, p, n))
  {
    UnlinkedEntry(c, p, n, p, n);
    forall q, n' ensures Agrees(d, UnlinkInode(c, p, n), q, n') {
      UnlinkedEntry(c, p, n, q, n');
      assert q != p || n' != n ==> Agrees(d, c, q, n');
    }
  }
}
