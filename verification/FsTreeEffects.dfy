/**
 What the operations on directories and on the cache of directory entries achieve: which names each of
 them adds and removes, on disk and in the cache, and that a name in the cache is found without reading
 the directory.
 */
module FsTreeEffects {
  import opened Collections
  import opened Vectors
  import opened Mounts
  import opened FsTree

  // ---------------------------------------------------------------- the filesystems

  /** The operation succeeds: what it needs is there, and what it adds is not. */
  predicate Succeeds(s: State, op: Op) {
    match op
    case Create(p, n, index, _) => p in s.disk && Entry(s.disk, p, n).None? && Inode(p.device, index) !in s.disk
    case Link(p, n, _) => p in s.disk && Entry(s.disk, p, n).None?
    case Unlink(p, n) => Entry(s.disk, p, n).Some?
    case Delete(i) => i in s.disk && s.disk[i] == []
    case Load(i) => i in s.disk
    case LookUp(_, _) | Forget(_) | Clear => true
  }

  /** What a name means after an operation: one that is created or linked leads to its inode, one that is
      unlinked to nothing, and every other name to what it led to before. */
  lemma EntryAfter(s: State, op: Op, q: Inode, n': Name)
    requires Inv(s)
    ensures var e := Entry(Step(s, op).disk, q, n');
            if Succeeds(s, op) && (op.Create? || op.Link?) && q == op.dir && n' == op.name then e == Some(Inode(q.device, op.index))
            else if Succeeds(s, op) && op.Unlink? && q == op.dir && n' == op.name then e == None
            else e == Entry(s.disk, q, n')
  {
    if Succeeds(s, op) {
      match op
      case Create(p, n, index, isDir) => AddedEntry(s.disk, p, n, index, q, n');
      case Link(p, n, index) => AddedEntry(s.disk, p, n, index, q, n');
      case Unlink(p, n) => RemovedEntry(s.disk, p, n, q, n');
      case _ =>
    }
  }

  /** Which directories there are after an operation: a directory that is created is there, one that is
      deleted is not, and nothing else changes. An operation that fails changes nothing. */
  lemma DirectoriesAfter(s: State, op: Op, q: Inode)
    requires Inv(s)
    ensures q in Step(s, op).disk <==>
            if Succeeds(s, op) && op.Create? && op.isDir && q == Inode(op.dir.device, op.index) then true
            else if Succeeds(s, op) && op.Delete? && q == op.inode then false
            else q in s.disk
    ensures !Succeeds(s, op) ==> Step(s, op) == s
  {
  }

  // ---------------------------------------------------------------- the cache

  /** A name in the cache is found without the directory, which need not be readable. */
  lemma HitNeedsNoDisk(c: Cache, d: Disk, p: Inode, n: Name)
    requires Find(c, p, n).Some?
    ensures GetChild(c, d, p, n) == (c, Find(c, p, n))
  {
  }

  /** A lookup that finds a name leaves it, and if it had to read the directory all its names, in the cache. */
  lemma LookupIsCached(c: Cache, d: Disk, p: Inode, n: Name, n': Name)
    requires UniqueNames(d) && Coherent(d, c) && Entry(d, p, n).Some?
    ensures Find(GetChild(c, d, p, n).0, p, n) == Entry(d, p, n)
    ensures Find(c, p, n).None? ==> Find(GetChild(c, d, p, n).0, p, n') == Entry(d, p, n')
  {
    GetChildExact(c, d, p, n);
    assert Agrees(d, c, p, n);
    if Find(c, p, n).None? { LoadFinds(c, d, p, n'); }
  }

  predicate IsChild(children: seq<(Name, Inode)>, q: Inode) {
    exists k :: 0 <= k < |children| && children[k].1 == q
  }

  lemma {:induction false} NodesExact(c: Cache, children: seq<(Name, Inode)>, q: Inode)
    ensures var c' := WithNodes(c, children);
            && (q in c' <==> q in c || IsChild(children, q))
            && (q in c' ==> c'[q] == if IsChild(children, q) then [] else c[q])
    decreases |children|
  {
    if children == [] {
    } else {
      var rest := children[1..];
      NodesExact(c[children[0].1 := []], rest, q);
      assert IsChild(children, q) <==> children[0].1 == q || IsChild(rest, q) by {
        if IsChild(rest, q) {
          var k :| 0 <= k < |rest| && rest[k].1 == q;
          assert children[k + 1].1 == q;
        }
        if IsChild(children, q) && children[0].1 != q {
          var k :| 0 <= k < |children| && children[k].1 == q;
          assert rest[k - 1].1 == q;
        }
      }
    }
  }

  /** What the cache knows after a directory has been read into it: everything of that directory, nothing
      of its children, whose nodes start afresh, and what it knew of all others. An empty directory
      changes nothing. */
  lemma FoundAfterLoad(c: Cache, d: Disk, p: Inode, q: Inode, n: Name)
    requires UniqueNames(d) && p in d
    ensures Find(LoadDir(c, d, p), q, n) ==
            if d[p] == [] then Find(c, q, n)
            else if q == p then Entry(d, p, n)
            else if IsChild(Children(p.device, d[p]), q) then None
            else Find(c, q, n)
  {
    ChildrenLookup(p.device, d[p], n);
    NodesExact(c, Children(p.device, d[p]), q);
  }

  /** Linking makes a cached directory know the name, if it did not, and no other name. */
  lemma FoundAfterLink(c: Cache, p: Inode, n: Name, i: Inode, q: Inode, n': Name)
    ensures Find(LinkInode(c, p, n, i), q, n') ==
            if Find(c, q, n').Some? then Find(c, q, n') else if p in c && q == p && n' == n then Some(i) else None
  {
    if p in c { LookupPush(c[p], n, i, n'); }
  }

  /** Linking into a cached directory enters a node for the inode, empty unless there was one, and no
      other node. */
  lemma NodesAfterLink(c: Cache, p: Inode, n: Name, i: Inode)
    ensures var c' := LinkInode(c, p, n, i);
            && (p !in c ==> c' == c)
            && (p in c ==> c'.Keys == c.Keys + {i})
            && (p in c && i !in c ==> c'[i] == [])
            && (forall q :: q in c && q != p ==> c'[q] == c[q])
  {
  }

  /** Unlinking makes the cache forget that name, and no other. */
  lemma FoundAfterUnlink(c: Cache, p: Inode, n: Name, q: Inode, n': Name)
    requires p in c ==> Unique(c[p])
    ensures Find(UnlinkInode(c, p, n), q, n') == if q == p && n' == n then None else Find(c, q, n')
  {
    UnlinkedEntry(c, p, n, q, n');
  }

  /** Removing an inode forgets what it held, and removing a device forgets everything. */
  lemma FoundAfterRemoval(s: State, i: Inode, q: Inode, n: Name)
    ensures Find(Step(s, Forget(i)).cache, q, n) == if q == i then None else Find(s.cache, q, n)
    ensures Find(Step(s, Clear).cache, q, n) == None
    ensures Step(s, Forget(i)).disk == s.disk && Step(s, Clear).disk == s.disk
  {
  }
}
