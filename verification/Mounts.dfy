/** Mount resolution: which inode is on top of a stack of mounts, global ones and a namespace's own. */
module Mounts {
  import opened Collections

  datatype Inode = Inode(device: nat, index: nat)

  type Table = map<Inode, Inode>

  /** The tables in force; a process may have no table of its own. */
  datatype MountTables = MountTables(all: Table, own: Option<Table>)

  predicate OwnMount(m: MountTables, i: Inode) { m.own.Some? && i in m.own.value }

  predicate Covered(m: MountTables, i: Inode) { i in m.all || OwnMount(m, i) }

  /** Something is mounted on `i`, and it is `j`. */
  predicate Edge(m: MountTables, i: Inode, j: Inode) {
    (i in m.all && m.all[i] == j) || (OwnMount(m, i) && m.own.value[i] == j)
  }

  ghost predicate Ranks(m: MountTables, rank: Inode -> nat) {
    forall i, j :: Edge(m, i, j) ==> rank(j) < rank(i)
  }

  /** No mount leads back to an inode below it. */
  ghost predicate Acyclic(m: MountTables) { exists rank :: Ranks(m, rank) }

  ghost function Rank(m: MountTables): (rank: Inode -> nat)
    requires Acyclic(m)
    ensures Ranks(m, rank)
  {
    var rank :| Ranks(m, rank); rank
  }

  /** One pass of the loop: a global mount, and then the namespace's own mount on the result. */
  function Over(m: MountTables, i: Inode): Inode {
    var j := if i in m.all then m.all[i] else i;
    if OwnMount(m, j) then m.own.value[j] else j
  }

  function Under(m: MountTables, i: Inode): Inode {
    if i in m.all && OwnMount(m, m.all[i]) then m.all[i] else i
  }

  lemma PassEdges(m: MountTables, i: Inode)
    requires Acyclic(m)
    ensures Covered(m, i) ==> Edge(m, Under(m, i), Over(m, i)) && Rank(m)(Over(m, i)) < Rank(m)(i)
    ensures !Covered(m, i) ==> Over(m, i) == i
  {
    var rank := Rank(m);
    if i in m.all {
      var j := m.all[i];
      assert Edge(m, i, j);
      if OwnMount(m, j) { assert Edge(m, j, m.own.value[j]); }
    } else if OwnMount(m, i) {
      assert Edge(m, i, m.own.value[i]);
    }
  }

  /** The inode on top of the stack. */
  ghost function Top(m: MountTables, i: Inode): Inode
    requires Acyclic(m)
    decreases Rank(m)(i)
  {
    PassEdges(m, i);
    if Covered(m, i) then Top(m, Over(m, i)) else i
  }

  ghost predicate Leads(m: MountTables, i: Inode, j: Inode)
    requires Acyclic(m)
    decreases Rank(m)(i)
  {
    i == j || exists k :: Edge(m, i, k) && Rank(m)(k) < Rank(m)(i) && Leads(m, k, j)
  }

  /** Nothing is mounted on the top, and mounts lead from the inode to it. */
  lemma {:induction false} TopOfStack(m: MountTables, i: Inode)
    requires Acyclic(m)
    ensures !Covered(m, Top(m, i)) && Leads(m, i, Top(m, i))
    decreases Rank(m)(i)
  {
    PassEdges(m, i);
    if Covered(m, i) {
      var j := Over(m, i);
      TopOfStack(m, j);
      if i in m.all && j != m.all[i] {
        var k := m.all[i];
        assert Edge(m, i, k) && Edge(m, k, j);
        assert Leads(m, k, Top(m, i));
      } else {
        assert Edge(m, i, j);
      }
    }
  }

  /** How the tables are consulted: a global mount on an inode goes before the namespace's own, and then
      the namespace's mount on what was found goes before a global one. */
  lemma TopUnfolds(m: MountTables, i: Inode)
    requires Acyclic(m)
    ensures i in m.all ==> Top(m, i) == var j := m.all[i]; if OwnMount(m, j) then Top(m, m.own.value[j]) else Top(m, j)
    ensures i !in m.all && OwnMount(m, i) ==> Top(m, i) == Top(m, m.own.value[i])
    ensures !Covered(m, i) ==> Top(m, i) == i
  {
    PassEdges(m, i);
  }

  /** Where both tables cover an inode, the global mount wins. */
  lemma GlobalWins(i: Inode, j: Inode, k: Inode)
    requires i != j && i != k && j != k
    ensures var m := MountTables(map[i := j], Some(map[i := k])); Acyclic(m) && Top(m, i) == j
  {
    var m := MountTables(map[i := j], Some(map[i := k]));
    var rank := (x: Inode) => if x == i then 1 else 0;
    assert Ranks(m, rank);
    TopUnfolds(m, i);
    TopUnfolds(m, j);
  }

  ghost predicate Separate(m: MountTables) {
    m.own.Some? ==> forall i :: i in m.all ==> i !in m.own.value
  }

  /** When no inode is covered by both tables there is only one way up, so the order in which the
      loop consults the tables does not matter: any uncovered inode that mounts lead to is the top. */
  lemma {:induction false} TopIsUnique(m: MountTables, i: Inode, t: Inode)
    requires Acyclic(m) && Separate(m) && Leads(m, i, t) && !Covered(m, t)
    ensures t == Top(m, i)
    decreases Rank(m)(i)
  {
    PassEdges(m, i);
    if i != t {
      var k :| Edge(m, i, k) && Rank(m)(k) < Rank(m)(i) && Leads(m, k, t);
      TopIsUnique(m, k, t);
      PassEdges(m, k);
      if i in m.all && OwnMount(m, k) {
        assert k !in m.all;
        assert Over(m, k) == Over(m, i);
      }
    }
  }

  /** The loop: the top of the stack and the inode it is mounted on, if there is a stack. */
  method ResolveMountPoint(m: MountTables, start: Inode) returns (r: Option<(Inode, Inode)>)
    requires Acyclic(m)
    ensures r.None? <==> !Covered(m, start)
    ensures r.Some? ==> r.value.1 == Top(m, start) && Edge(m, r.value.0, r.value.1)
  {
    var inode, prev := start, None;
    while true
      invariant Top(m, inode) == Top(m, start)
      invariant prev.None? ==> inode == start
      invariant prev.Some? ==> Covered(m, start) && Edge(m, prev.value, inode)
      decreases Rank(m)(inode)
    {
      PassEdges(m, inode);
      ghost var before := inode;
      var found := false;
      if inode in m.all {
        prev, inode, found := Some(inode), m.all[inode], true;
      }
      if m.own.Some? && inode in m.own.value {
        prev, inode, found := Some(inode), m.own.value[inode], true;
      }
      if !found { break; }
      assert inode == Over(m, before);
    }
    return if prev.Some? then Some((prev.value, inode)) else None;
  }
}
