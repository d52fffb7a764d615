/** The vector operations the kernel's tables are built on: first position, lookup by key, and the
    removal that moves the last element into the gap. */
module Vectors {
  import opened Collections

  /** `Vec::swap_remove`. */
  function SwapRemove<T>(s: seq<T>, pos: nat): seq<T>
    requires pos < |s|
  {
    s[pos := s[|s| - 1]][..|s| - 1]
  }

  /** The index of the first pair with this key, or the length if there is none. */
  function Position<K(==), V>(s: seq<(K, V)>, k: K): (r: nat)
    ensures r <= |s|
    ensures r < |s| ==> s[r].0 == k
    ensures forall i :: 0 <= i < r ==> s[i].0 != k
  {
    if s == [] then 0 else if s[0].0 == k then 0 else 1 + Position(s[1..], k)
  }

  function Lookup<K(==), V>(s: seq<(K, V)>, k: K): Option<V> {
    var i := Position(s, k);
    if i < |s| then Some(s[i].1) else None
  }

  predicate Unique<K(==), V>(s: seq<(K, V)>) {
    forall i, j :: 0 <= i < j < |s| ==> s[i].0 != s[j].0
  }

  /** `iter().position(..)` on the key. */
  method FindPosition<K(==), V>(s: seq<(K, V)>, k: K) returns (r: Option<nat>)
    ensures r == if Position(s, k) < |s| then Some(Position(s, k)) else None
  {
    var i := 0;
    while i < |s|
      invariant 0 <= i <= |s|
      invariant forall j :: 0 <= j < i ==> s[j].0 != k
    {
      if s[i].0 == k { return Some(i); }
      i := i + 1;
    }
    r := None;
  }

  lemma LookupAt<K, V>(s: seq<(K, V)>, i: nat)
    requires Unique(s) && i < |s|
    ensures Position(s, s[i].0) == i && Lookup(s, s[i].0) == Some(s[i].1)
  {
  }

  lemma LookupPush<K, V>(s: seq<(K, V)>, k: K, v: V, k': K)
    ensures Lookup(s + [(k, v)], k') ==
            if Lookup(s, k').Some? then Lookup(s, k') else if k' == k then Some(v) else None
    ensures Unique(s) && Lookup(s, k).None? ==> Unique(s + [(k, v)])
  {
    var s' := s + [(k, v)];
    assert forall i :: 0 <= i < |s| ==> s'[i] == s[i];
    assert s'[|s|] == (k, v);
    var i := Position(s, k');
    if i < |s| {
      assert Position(s', k') == i;
    }
  }

  lemma LookupSet<K, V>(s: seq<(K, V)>, i: nat, v: V, k': K)
    requires Unique(s) && i < |s|
    ensures Unique(s[i := (s[i].0, v)])
    ensures Lookup(s[i := (s[i].0, v)], k') == if k' == s[i].0 then Some(v) else Lookup(s, k')
  {
    var s' := s[i := (s[i].0, v)];
    assert forall j :: 0 <= j < |s| ==> s'[j].0 == s[j].0;
    assert Position(s', k') == Position(s, k');
    LookupAt(s', i);
  }

  lemma LookupSwapRemove<K, V>(s: seq<(K, V)>, i: nat, k': K)
    requires Unique(s) && i < |s|
    ensures Unique(SwapRemove(s, i))
    ensures Lookup(SwapRemove(s, i), k') == if k' == s[i].0 then None else Lookup(s, k')
  {
    var s' := SwapRemove(s, i);
    assert forall j :: 0 <= j < |s'| ==> s'[j] == if j == i then s[|s| - 1] else s[j];
    var p := Position(s, k');
    if p < |s| && k' != s[i].0 {
      var q := if p == |s| - 1 then i else p;
      assert s'[q] == s[p];
      LookupAt(s', q);
    } else {
      assert forall j :: 0 <= j < |s'| ==> s'[j].0 != k';
    }
  }

  // ---------------------------------------------------------------- vectors without keys

  /** The index of the first occurrence, or the length if there is none. */
  function IndexOf<T(==)>(s: seq<T>, x: T): (r: nat)
    ensures r <= |s|
    ensures r < |s| ==> s[r] == x
    ensures forall i :: 0 <= i < r ==> s[i] != x
  {
    if s == [] then 0 else if s[0] == x then 0 else 1 + IndexOf(s[1..], x)
  }

  method FindIndex<T(==)>(s: seq<T>, x: T) returns (r: Option<nat>)
    ensures r == if IndexOf(s, x) < |s| then Some(IndexOf(s, x)) else None
  {
    var i := 0;
    while i < |s|
      invariant 0 <= i <= |s|
      invariant forall j :: 0 <= j < i ==> s[j] != x
    {
      if s[i] == x { return Some(i); }
      i := i + 1;
    }
    r := None;
  }

  lemma PushDistinct<T>(s: seq<T>, x: T)
    requires Distinct(s) && x !in s
    ensures Distinct(s + [x]) && forall y :: y in s + [x] <==> y in s || y == x
  {
  }

  /** Swap-removal of the first occurrence, if there is one. */
  function Discard<T(==)>(s: seq<T>, x: T): seq<T> {
    if IndexOf(s, x) < |s| then SwapRemove(s, IndexOf(s, x)) else s
  }

  lemma DiscardMembers<T>(s: seq<T>, x: T)
    requires Distinct(s)
    ensures Distinct(Discard(s, x)) && forall y :: y in Discard(s, x) <==> y in s && y != x
  {
    var p, s' := IndexOf(s, x), Discard(s, x);
    if p < |s| {
      assert forall j :: 0 <= j < |s'| ==> s'[j] == if j == p then s[|s| - 1] else s[j];
      forall y | y in s && y != x ensures y in s' {
        var i :| 0 <= i < |s| && s[i] == y;
        assert s'[if i == |s| - 1 then p else i] == y;
      }
    }
  }

  /** An element that stays does not move towards the end. */
  lemma DiscardIndex<T>(s: seq<T>, x: T, k: nat) returns (k': nat)
    requires Distinct(s) && k < |s| && s[k] != x
    ensures k' <= k && k' < |Discard(s, x)| && Discard(s, x)[k'] == s[k]
  {
    var p := IndexOf(s, x);
    k' := if p < |s| && k == |s| - 1 then p else k;
  }
}
