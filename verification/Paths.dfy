/** Path strings and lists of components. */
module Paths {
  type Path = seq<string>

  // ---------------------------------------------------------------- splitting at slashes

  /** The index of the first slash, or the length if there is none. */
  function FirstSlash(s: string): (k: nat)
    ensures k <= |s| && (k < |s| ==> s[k] == '/') && '/' !in s[..k]
  {
    if s == [] then 0
    else if s[0] == '/' then 0
    else
      var k := 1 + FirstSlash(s[1..]);
      assert s[..k] == [s[0]] + s[1..][..k - 1];
      k
  }

  /** The pieces between slashes: always one more than there are slashes. */
  function Split(s: string): (r: seq<string>)
    ensures r != []
    decreases |s|
  {
    var k := FirstSlash(s);
    if k == |s| then [s] else [s[..k]] + Split(s[k + 1..])
  }

  function Join(chunks: seq<string>): string
    requires chunks != []
    decreases |chunks|
  {
    if |chunks| == 1 then chunks[0] else chunks[0] + "/" + Join(chunks[1..])
  }

  predicate NoSlash(chunks: seq<string>) { forall i :: 0 <= i < |chunks| ==> '/' !in chunks[i] }

  lemma JoinCons(head: string, chunks: seq<string>)
    requires chunks != []
    ensures Join([head] + chunks) == head + "/" + Join(chunks)
  {
    assert ([head] + chunks)[1..] == chunks;
  }

  lemma CutAt(s: string, k: nat)
    requires k < |s| && s[k] == '/'
    ensures s == s[..k] + "/" + s[k + 1..]
  {
  }

  /** Splitting loses nothing. */
  lemma {:induction false} SplitJoin(s: string)
    ensures Join(Split(s)) == s
    decreases |s|
  {
    var k := FirstSlash(s);
    if k < |s| {
      CutAt(s, k);
      SplitJoin(s[k + 1..]);
      JoinCons(s[..k], Split(s[k + 1..]));
    }
  }

  /** Splitting leaves no slash. */
  lemma {:induction false} SplitNoSlash(s: string)
    ensures NoSlash(Split(s))
    decreases |s|
  {
    var k := FirstSlash(s);
    if k == |s| {
      assert s[..k] == s;
    } else {
      SplitNoSlash(s[k + 1..]);
    }
  }

  lemma {:induction false} FirstSlashIs(s: string, k: nat)
    requires k <= |s| && '/' !in s[..k] && (k < |s| ==> s[k] == '/')
    ensures FirstSlash(s) == k
    decreases k
  {
    if k == 0 {
    } else {
      assert s[..k][0] == s[0];
      assert s[1..][..k - 1] == s[..k][1..];
      FirstSlashIs(s[1..], k - 1);
    }
  }

  lemma FirstSlashAt(c: string, rest: string)
    requires '/' !in c
    ensures FirstSlash(c) == |c| && FirstSlash(c + "/" + rest) == |c|
  {
    assert c[..|c|] == c;
    FirstSlashIs(c, |c|);
    var s := c + "/" + rest;
    assert s[..|c|] == c;
    FirstSlashIs(s, |c|);
  }

  /** Splitting is the only way to undo joining pieces without slashes. */
  lemma {:induction false} JoinSplit(chunks: seq<string>)
    requires chunks != [] && NoSlash(chunks)
    ensures Split(Join(chunks)) == chunks
    decreases |chunks|
  {
    if |chunks| == 1 {
      FirstSlashAt(chunks[0], "");
    } else {
      var rest := Join(chunks[1..]);
      FirstSlashAt(chunks[0], rest);
      JoinSplit(chunks[1..]);
      var s := Join(chunks);
      assert s == chunks[0] + "/" + rest;
      assert s[..|chunks[0]|] == chunks[0] && s[|chunks[0]| + 1..] == rest;
    }
  }

  // ---------------------------------------------------------------- resolving and printing

  predicate Skipped(chunk: string) { chunk == "" || chunk == "." }

  function Keep(chunks: seq<string>): Path {
    if chunks == [] then []
    else if Skipped(chunks[0]) then Keep(chunks[1..])
    else [chunks[0]] + Keep(chunks[1..])
  }

  function Resolve(s: string): Path { Keep(Split(s)) }

  method ResolvePath(s: string) returns (path: Path)
    ensures path == Resolve(s)
  {
    var chunks := Split(s);
    path := [];
    for i := 0 to |chunks|
      invariant path + Keep(chunks[i..]) == Keep(chunks)
    {
      assert chunks[i..][0] == chunks[i] && chunks[i..][1..] == chunks[i + 1..];
      if chunks[i] == "" { continue; }
      if chunks[i] == "." { continue; }
      path := path + [chunks[i]];
    }
    assert chunks[|chunks|..] == [];
  }

  function Slashed(path: Path): string {
    if path == [] then "" else "/" + path[0] + Slashed(path[1..])
  }

  function Print(path: Path): string { if path == [] then "/" else Slashed(path) }

  method Display(path: Path) returns (s: string)
    ensures s == Print(path)
  {
    s := "";
    for i := 0 to |path|
      invariant s + Slashed(path[i..]) == Slashed(path)
    {
      assert path[i..][0] == path[i] && path[i..][1..] == path[i + 1..];
      assert s + Slashed(path[i..]) == (s + "/" + path[i]) + Slashed(path[i + 1..]);
      s := s + "/" + path[i];
    }
    assert path[|path|..] == [];
    if path == [] { s := s + "/"; }
  }

  // ---------------------------------------------------------------- round trips

  /** A component that a string can name. */
  predicate Nameable(c: string) { c != "" && c != "." && '/' !in c }

  predicate AllNameable(path: Path) { forall i :: 0 <= i < |path| ==> Nameable(path[i]) }

  lemma {:induction false} KeepNameable(chunks: seq<string>)
    requires NoSlash(chunks)
    ensures AllNameable(Keep(chunks))
  {
    if chunks == [] {
    } else {
      KeepNameable(chunks[1..]);
    }
  }

  lemma {:induction false} KeepAll(path: Path)
    requires AllNameable(path)
    ensures Keep(path) == path
  {
    if path == [] {
    } else {
      KeepAll(path[1..]);
    }
  }

  /** A printed path is its components joined behind an empty one. */
  lemma {:induction false} PrintIsJoin(path: Path)
    requires path != []
    ensures Slashed(path) == "/" + Join(path)
    decreases |path|
  {
    if |path| > 1 {
      PrintIsJoin(path[1..]);
    } else {
      assert Slashed(path[1..]) == "";
    }
  }

  /** Resolving a printed path gives the path back exactly when every component is one that a string
      can name. */
  lemma RoundTripExact(path: Path)
    ensures Resolve(Print(path)) == path <==> AllNameable(path)
  {
    SplitNoSlash(Print(path));
    KeepNameable(Split(Print(path)));
    if AllNameable(path) { RoundTrip(path); }
  }

  lemma RoundTrip(path: Path)
    requires AllNameable(path)
    ensures Resolve(Print(path)) == path
  {
    if path == [] {
      JoinSplit(["", ""]);
      assert Join(["", ""]) == "/" by { assert ["", ""][1..] == [""]; }
      assert Keep(["", ""]) == [] by { assert ["", ""][1..] == [""] && [""][1..] == []; }
    } else {
      var chunks := [""] + path;
      PrintIsJoin(path);
      assert chunks[1..] == path;
      assert Join(chunks) == Print(path);
      JoinSplit(chunks);
      KeepAll(path);
    }
  }

  /** For every string, resolving the printed form of what it resolves to gives the same path. */
  lemma ResolveIdempotent(s: string)
    ensures Resolve(Print(Resolve(s))) == Resolve(s)
  {
    SplitNoSlash(s);
    KeepNameable(Split(s));
    RoundTrip(Resolve(s));
  }

  lemma {:induction false} KeepAppend(a: seq<string>, b: seq<string>)
    ensures Keep(a + b) == Keep(a) + Keep(b)
  {
    if a == [] {
      assert a + b == b;
    } else {
      assert (a + b)[1..] == a[1..] + b;
      KeepAppend(a[1..], b);
    }
  }

  lemma {:induction false} JoinAppend(a: seq<string>, b: seq<string>)
    requires a != [] && b != []
    ensures Join(a + b) == Join(a) + "/" + Join(b)
    decreases |a|
  {
    assert (a + b)[1..] == a[1..] + b;
    if |a| == 1 {
      assert (a + b)[1..] == b;
    } else {
      JoinAppend(a[1..], b);
    }
  }

  lemma SplitAppend(a: string, b: string)
    ensures Split(a + "/" + b) == Split(a) + Split(b)
  {
    SplitJoin(a);
    SplitJoin(b);
    SplitNoSlash(a);
    SplitNoSlash(b);
    JoinAppend(Split(a), Split(b));
    JoinSplit(Split(a) + Split(b));
  }

  /** Joining two strings with a slash joins their paths; so repeated slashes, slashes at either end
      and single dots do not matter. */
  lemma ResolveAppend(a: string, b: string)
    ensures Resolve(a + "/" + b) == Resolve(a) + Resolve(b)
  {
    SplitAppend(a, b);
    KeepAppend(Split(a), Split(b));
  }
}
