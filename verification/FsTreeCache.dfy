/** The cache of directory entries as the object that is updated in place. */
module FsTreeCaching {
  import opened Collections
  import opened Vectors
  import opened Mounts
  import opened InodeChain
  import FsTree

  type Name = FsTree.Name
  type Disk = FsTree.Disk

  class FsTreeCache {
    var inodes: FsTree.Cache
    var root: Inode

    constructor (root: Inode)
      ensures inodes == map[root := []] && this.root == root
    {
      inodes, this.root := map[root := []], root;
    }

    method LinkInode(parent: Inode, name: Name, inode: Inode)
      modifies `inodes
      ensures inodes == FsTree.LinkInode(old(inodes), parent, name, inode)
    {
      if parent !in inodes { return; }
      inodes := inodes[parent := inodes[parent] + [(name, inode)]];
      if inode !in inodes { inodes := inodes[inode := []]; }
    }

    method UnlinkInode(parent: Inode, name: Name)
      modifies `inodes
      ensures inodes == FsTree.UnlinkInode(old(inodes), parent, name)
    {
      if parent !in inodes { return; }
      var index := FindPosition(inodes[parent], name);
      if index.Some? { inodes := inodes[parent := SwapRemove(inodes[parent], index.value)]; }
    }

    method RemoveInode(inode: Inode)
      modifies `inodes
      ensures inodes == old(inodes) - {inode}
    {
      inodes := inodes - {inode};
    }

    method RemoveDevice(device: nat)
      modifies `inodes
      ensures inodes == map[]
    {
      inodes := map[];
    }

    /** Reads a directory into the cache; false if it cannot be read. */
    method LoadDir(disk: Disk, current: Inode) returns (ok: bool)
      modifies `inodes
      ensures ok == (current in disk)
      ensures inodes == if ok then FsTree.LoadDir(old(inodes), disk, current) else old(inodes)
    {
      if current !in disk { return false; }
      var dir := disk[current];
      if dir == [] { return true; }
      ghost var all := FsTree.Children(current.device, dir);
      var children: seq<(Name, Inode)> := [];
      var k := 0;
      while k < |dir|
        invariant 0 <= k <= |dir| && children == all[..k]
        invariant FsTree.WithNodes(old(inodes), all) == FsTree.WithNodes(inodes, all[k..])
      {
        var inode := Inode(current.device, dir[k].1);
        inodes := inodes[inode := []];
        children := children + [(dir[k].0, inode)];
        assert all[k..][0] == all[k] == children[k] && all[k..][1..] == all[k + 1..];
        k := k + 1;
      }
      assert all[k..] == [] && all[..k] == all;
      inodes := inodes[current := children];
      return true;
    }

    method FindChild(parent: Inode, name: Name) returns (r: Option<Inode>)
      ensures r == FsTree.Find(inodes, parent, name)
    {
      if parent !in inodes { return None; }
      var k := FindPosition(inodes[parent], name);
      return if k.Some? then Some(inodes[parent][k.value].1) else None;
    }

    /** A lookup with a coherent cache finds what is on disk, with the mounts on it if they are wanted. */
    method GetChild(disk: Disk, parent: Inode, name: Name, resolve: bool, mounts: MountTables)
      returns (r: Option<Inode>)
      requires FsTree.UniqueNames(disk) && FsTree.Coherent(disk, inodes) && Acyclic(mounts)
      modifies `inodes
      ensures FsTree.Coherent(disk, inodes) && inodes == FsTree.GetChild(old(inodes), disk, parent, name).0
      ensures r == if resolve then Child(Tree(disk, mounts), parent, name) else FsTree.Entry(disk, parent, name)
    {
      FsTree.GetChildExact(inodes, disk, parent, name);
      var child := FindChild(parent, name);
      if child.None? {
        var ok := LoadDir(disk, parent);
        if !ok { return None; }
        child := FindChild(parent, name);
      }
      if child.None? || !resolve { return child; }
      var top := ResolveMountPoint(mounts, child.value);
      return Some(if top.Some? then top.value.1 else child.value);
    }

    /** One component of a path. */
    method Descend(disk: Disk, chain: seq<Inode>, name: Name, mounts: MountTables) returns (r: Option<seq<Inode>>)
      requires FsTree.UniqueNames(disk) && FsTree.Coherent(disk, inodes) && Acyclic(mounts) && chain != []
      modifies `inodes
      ensures FsTree.Coherent(disk, inodes) && r == Next(Tree(disk, mounts), chain, name)
    {
      if name == ".." {
        return Some(if |chain| > 1 then chain[..|chain| - 1] else chain);
      }
      var child := GetChild(disk, chain[|chain| - 1], name, true, mounts);
      return if child.None? then None else Some(chain + [child.value]);
    }

    /** The chain for a path, from a given chain or from the root, is the one that walking the
        directories without a cache gives. */
    method GetInodeChain(disk: Disk, path: seq<Name>, from: Option<seq<Inode>>, mounts: MountTables)
      returns (r: Option<(Inode, seq<Inode>)>)
      requires FsTree.UniqueNames(disk) && FsTree.Coherent(disk, inodes) && Acyclic(mounts)
      modifies `inodes
      ensures FsTree.Coherent(disk, inodes)
      ensures var chain := if from.Some? && from.value != [] then from.value else [root];
              match Walk(Tree(disk, mounts), chain, path)
              case None => r.None?
              case Some(end) => r == Some((end[|end| - 1], end))
    {
      var chain := if from.Some? then from.value else [];
      if chain == [] { chain := [root]; }
      ghost var t, start := Tree(disk, mounts), chain;
      var current := chain[|chain| - 1];
      var k := 0;
      while k < |path|
        invariant 0 <= k <= |path| && FsTree.Coherent(disk, inodes)
        invariant chain != [] && current == chain[|chain| - 1]
        invariant Walk(t, start, path) == Walk(t, chain, path[k..])
      {
        assert path[k..][0] == path[k] && path[k..][1..] == path[k + 1..];
        var next := Descend(disk, chain, path[k], mounts);
        if next.None? { return None; }
        chain := next.value;
        current := chain[|chain| - 1];
        k := k + 1;
      }
      assert path[k..] == [];
      return Some((current, chain));
    }

    /** Any run of operations on directories and the cache, each in one step: the object and the disk go
        as the run on values does, and the cache stays coherent. */
    method Perform(disk: Disk, ops: seq<FsTree.Op>) returns (disk': Disk)
      requires FsTree.Inv(FsTree.State(disk, inodes))
      modifies `inodes
      ensures FsTree.State(disk', inodes) == FsTree.Run(FsTree.State(disk, old(inodes)), ops)
      ensures FsTree.Inv(FsTree.State(disk', inodes))
    {
      disk' := disk;
      ghost var start := FsTree.State(disk, inodes);
      var k := 0;
      while k < |ops|
        invariant 0 <= k <= |ops| && FsTree.Inv(FsTree.State(disk', inodes))
        invariant FsTree.Run(start, ops) == FsTree.Run(FsTree.State(disk', inodes), ops[k..])
      {
        assert ops[k..][0] == ops[k] && ops[k..][1..] == ops[k + 1..];
        FsTree.StepInv(FsTree.State(disk', inodes), ops[k]);
        disk' := PerformOne(disk', ops[k]);
        k := k + 1;
      }
      assert ops[k..] == [];
    }

    method PerformOne(disk: Disk, op: FsTree.Op) returns (disk': Disk)
      requires FsTree.Inv(FsTree.State(disk, inodes))
      modifies `inodes
      ensures FsTree.State(disk', inodes) == FsTree.Step(FsTree.State(disk, old(inodes)), op)
    {
      disk' := disk;
      match op
      case Create(p, n, index, isDir) =>
        var i := Inode(p.device, index);
        if p in disk && FsTree.Entry(disk, p, n).None? && i !in disk {
          disk' := FsTree.AddEntry(disk, p, n, index);
          if isDir { disk' := disk'[i := []]; }
          LinkInode(p, n, i);
        }
      case Link(p, n, index) =>
        if p in disk && FsTree.Entry(disk, p, n).None? {
          disk' := FsTree.AddEntry(disk, p, n, index);
          LinkInode(p, n, Inode(p.device, index));
        }
      case Unlink(p, n) =>
        if FsTree.Entry(disk, p, n).Some? {
          disk' := FsTree.RemoveEntry(disk, p, n);
          UnlinkInode(p, n);
        }
      case Delete(i) => if i in disk && disk[i] == [] { disk' := disk - {i}; }
      case Forget(i) => RemoveInode(i);
      case Clear => RemoveDevice(0);
      case Load(i) => var _ := LoadDir(disk, i);
      case LookUp(p, n) => NoMounts(); var _ := GetChild(disk, p, n, false, MountTables(map[], None));
    }
  }

  lemma NoMounts()
    ensures Acyclic(MountTables(map[], None))
  {
    var rank: Inode -> nat := _ => 0;
    assert Ranks(MountTables(map[], None), rank);
  }
}
