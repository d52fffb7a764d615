/** Resolving a path to the chain of inodes that leads to it, without a cache. */
module InodeChain {
  import opened Collections
  import opened Mounts
  import opened FsTree
  import Paths

  /** What paths are resolved against: the directories and the mounts. */
  datatype Tree = Tree(disk: Disk, mounts: MountTables)

  ghost function Child(t: Tree, p: Inode, n: Name): Option<Inode>
    requires Acyclic(t.mounts)
  {
    match Entry(t.disk, p, n)
    case None => None
    case Some(i) => Some(Top(t.mounts, i))
  }

  /** One component: the parent for two dots, if there is one, and otherwise the entry of that name. */
  ghost function Next(t: Tree, chain: seq<Inode>, n: Name): (r: Option<seq<Inode>>)
    requires Acyclic(t.mounts) && chain != []
    ensures r.Some? ==> r.value != []
  {
    if n == ".." then Some(if |chain| > 1 then chain[..|chain| - 1] else chain)
    else match Child(t, chain[|chain| - 1], n)
      case None => None
      case Some(i) => Some(chain + [i])
  }

  ghost function Walk(t: Tree, chain: seq<Inode>, path: seq<Name>): (r: Option<seq<Inode>>)
    requires Acyclic(t.mounts) && chain != []
    ensures r.Some? ==> r.value != []
    decreases |path|
  {
    if path == [] then Some(chain)
    else match Next(t, chain, path[0])
      case None => None
      case Some(chain') => Walk(t, chain', path[1..])
  }

  /** Resolving a path in two parts: the second part from the chain of the first. */
  lemma {:induction false} WalkInParts(t: Tree, chain: seq<Inode>, p: seq<Name>, q: seq<Name>)
    requires Acyclic(t.mounts) && chain != []
    ensures Walk(t, chain, p + q) ==
            match Walk(t, chain, p) case None => None case Some(chain') => Walk(t, chain', q)
    decreases |p|
  {
    if p == [] {
      assert p + q == q;
    } else {
      assert (p + q)[0] == p[0] && (p + q)[1..] == p[1..] + q;
      if Next(t, chain, p[0]).Some? { WalkInParts(t, Next(t, chain, p[0]).value, p[1..], q); }
    }
  }

  /** The same for path strings: a string behind a slash is resolved from where the string before it
      leads, whatever slashes and dots they contain. */
  lemma WalkString(t: Tree, chain: seq<Inode>, a: string, b: string)
    requires Acyclic(t.mounts) && chain != []
    ensures Walk(t, chain, Paths.Resolve(a + "/" + b)) ==
            match Walk(t, chain, Paths.Resolve(a)) case None => None case Some(chain') => Walk(t, chain', Paths.Resolve(b))
  {
    Paths.ResolveAppend(a, b);
    WalkInParts(t, chain, Paths.Resolve(a), Paths.Resolve(b));
  }

  ghost predicate IsChild(t: Tree, p: Inode, n: Name, i: Inode)
    requires Acyclic(t.mounts)
  {
    Child(t, p, n) == Some(i)
  }

  ghost predicate HasChild(t: Tree, p: Inode, i: Inode)
    requires Acyclic(t.mounts)
  {
    exists n :: IsChild(t, p, n, i)
  }

  /** Every inode of the chain after the first is on top of an entry of the one before it. */
  ghost predicate Linked(t: Tree, chain: seq<Inode>)
    requires Acyclic(t.mounts)
  {
    forall k :: 0 <= k < |chain| - 1 ==> HasChild(t, chain[k], chain[k + 1])
  }

  /** A name is found exactly if the directory has it, and leads to the inode that mounts lead to from its
      entry and on which nothing is mounted. */
  lemma ChildOnTop(t: Tree, p: Inode, n: Name)
    requires Acyclic(t.mounts)
    ensures Child(t, p, n).None? <==> Entry(t.disk, p, n).None?
    ensures var i := Child(t, p, n);
            i.Some? ==> !Covered(t.mounts, i.value) && Leads(t.mounts, Entry(t.disk, p, n).value, i.value)
  {
    if Entry(t.disk, p, n).Some? { TopOfStack(t.mounts, Entry(t.disk, p, n).value); }
  }

  /** Nothing is mounted on the inodes of the chain after the first. */
  predicate OnTop(t: Tree, chain: seq<Inode>) { forall k :: 0 < k < |chain| ==> !Covered(t.mounts, chain[k]) }

  lemma {:induction false} WalkOnTop(t: Tree, chain: seq<Inode>, path: seq<Name>)
    requires Acyclic(t.mounts) && chain != [] && OnTop(t, chain) && Walk(t, chain, path).Some?
    ensures OnTop(t, Walk(t, chain, path).value)
    decreases |path|
  {
    if path == [] {
    } else {
      ChildOnTop(t, chain[|chain| - 1], path[0]);
      WalkOnTop(t, Next(t, chain, path[0]).value, path[1..]);
    }
  }

  lemma NextLinked(t: Tree, chain: seq<Inode>, n: Name)
    requires Acyclic(t.mounts) && chain != [] && Linked(t, chain) && Next(t, chain, n).Some?
    ensures Linked(t, Next(t, chain, n).value)
  {
    if n != ".." {
      assert IsChild(t, chain[|chain| - 1], n, Next(t, chain, n).value[|chain|]);
    }
  }

  /** The chain keeps its root, is never empty and remains a chain of entries; its length grows by one
      for a name and shrinks by one for two dots, except at the root. */
  lemma {:induction false} WalkShape(t: Tree, chain: seq<Inode>, path: seq<Name>)
    requires Acyclic(t.mounts) && chain != [] && Linked(t, chain)
    ensures var r := Walk(t, chain, path);
            r.Some? ==> r.value != [] && r.value[0] == chain[0] && Linked(t, r.value) && |r.value| == Depth(|chain|, path)
    decreases |path|
  {
    if path != [] && Next(t, chain, path[0]).Some? {
      NextLinked(t, chain, path[0]);
      WalkShape(t, Next(t, chain, path[0]).value, path[1..]);
    }
  }

  function Depth(depth: nat, path: seq<Name>): nat
    decreases |path|
  {
    if path == [] then depth
    else if path[0] == ".." then Depth(if depth > 1 then depth - 1 else depth, path[1..])
    else Depth(depth + 1, path[1..])
  }

  /** Down and up again leads back to the same chain. */
  lemma DownAndUp(t: Tree, chain: seq<Inode>, n: Name)
    requires Acyclic(t.mounts) && chain != [] && n != ".." && Next(t, chain, n).Some?
    ensures Walk(t, chain, [n, ".."]) == Some(chain)
  {
    var chain' := Next(t, chain, n).value;
    assert chain'[..|chain'| - 1] == chain;
    assert [n, ".."][1..] == [".."] && [".."][1..] == [];
    assert Walk(t, chain', [".."]) == Walk(t, chain, []);
  }

  /** Taking a name and the two dots after it out of a path does not change what it resolves to,
      wherever they are in it, if the name is there. */
  lemma Shorten(t: Tree, chain: seq<Inode>, p: seq<Name>, n: Name, q: seq<Name>)
    requires Acyclic(t.mounts) && chain != [] && n != ".."
    requires Walk(t, chain, p + [n]).Some?
    ensures Walk(t, chain, p + [n, ".."] + q) == Walk(t, chain, p + q)
  {
    WalkInParts(t, chain, p, [n]);
    var c := Walk(t, chain, p).value;
    assert [n][1..] == [];
    assert Next(t, c, n).Some?;
    DownAndUp(t, c, n);
    WalkInParts(t, chain, p, [n, ".."]);
    WalkInParts(t, chain, p + [n, ".."], q);
    WalkInParts(t, chain, p, q);
  }
}
