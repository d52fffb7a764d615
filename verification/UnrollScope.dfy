/**
 What turning loop variables into constants does to the names of a program: when the unrolled program
 still obeys Rust's rules about constants in patterns, and what happens when a pattern that names
 the loop variable is legal on both sides. Only names are looked at, not types.
 */
module UnrollScope {
  import opened Collections
  import opened UnrollSyntax
  import opened UnrollMeaning

  predicate DistinctConsts(ss: seq<Stmt>) {
    forall i, j :: 0 <= i < j < |ss| && ss[i].Const? && ss[j].Const? ==> ss[i].name != ss[j].name
  }

  /** Rust's rules, where `cs` are the constants in scope: a pattern of `let` or `for` names none of
      them, a pattern of `if let` names none with `ref`, `mut` or `@`, and a block declares a constant
      once. */
  predicate Scoped(e: Expr, cs: set<Name>)
    decreases e, 0
  {
    match e
    case Range(start, _, end) => (start.Some? ==> Scoped(start.value, cs)) && (end.Some? ==> Scoped(end.value, cs))
    case ForLoop(_, pat, iter, body) => Names(pat) !! cs && Scoped(iter, cs) && ScopedBlock(body, cs)
    case If(cond, thn, els) => Scoped(cond, cs) && ScopedBlock(thn, cs) && (els.Some? ==> Scoped(els.value, cs))
    case Let(pat, init) => Marked(pat) !! cs && Scoped(init, cs)
    case BlockExpr(_, block) => ScopedBlock(block, cs)
    case Unsafe(block) => ScopedBlock(block, cs)
    case Other(leaf, _) => leaf.binds !! cs
    case _ => true
  }

  predicate ScopedBlock(b: Block, cs: set<Name>)
    decreases b, 0
  {
    DistinctConsts(b.stmts) && ScopedStmts(b.stmts, cs + Consts(b.stmts))
  }

  predicate ScopedStmts(ss: seq<Stmt>, cs: set<Name>)
    decreases ss, 0
  {
    ss == [] || (ScopedStmt(ss[0], cs) && ScopedStmts(ss[1..], cs))
  }

  predicate ScopedStmt(s: Stmt, cs: set<Name>)
    decreases s, 0
  {
    match s
    case ExprStmt(e, _) => Scoped(e, cs)
    case Local(pat, init) => Names(pat) !! cs && Scoped(init, cs)
    case OtherStmt(leaf) => leaf.binds !! cs
    case Const(_, _) => true
  }

  /** The condition on the program as written: inside a loop that will be unrolled its variable
      counts as a constant, unless the loop runs over nothing and its body disappears. */
  predicate StaysScoped(e: Expr, cs: set<Name>)
    decreases e, 0
  {
    match e
    case ForLoop(_, pat, iter, body) =>
      (match Bounds(pat, iter)
       case None => Names(pat) !! cs && Scoped(iter, cs) && StaysScopedBlock(body, cs)
       case Some((lo, hi)) =>
         lo < hi ==> pat.name !in Consts(body.stmts) && StaysScopedBlock(body, cs + {pat.name}))
    case If(cond, thn, els) =>
      StaysScoped(cond, cs) && StaysScopedBlock(thn, cs) && (els.Some? ==> StaysScoped(els.value, cs))
    case Let(pat, init) => Marked(pat) !! cs && StaysScoped(init, cs)
    case BlockExpr(_, block) => StaysScopedBlock(block, cs)
    case Unsafe(block) => StaysScopedBlock(block, cs)
    case _ => Scoped(e, cs)
  }

  predicate StaysScopedBlock(b: Block, cs: set<Name>)
    decreases b, 0
  {
    DistinctConsts(b.stmts) && StaysScopedStmts(b.stmts, cs + Consts(b.stmts))
  }

  predicate StaysScopedStmts(ss: seq<Stmt>, cs: set<Name>)
    decreases ss, 0
  {
    ss == [] || (StaysScopedStmt(ss[0], cs) && StaysScopedStmts(ss[1..], cs))
  }

  predicate StaysScopedStmt(s: Stmt, cs: set<Name>)
    decreases s, 0
  {
    if s.ExprStmt? then StaysScoped(s.expr, cs) else ScopedStmt(s, cs)
  }

  // ---------------------------------------------------------------- when the unrolled program is legal

  lemma {:induction false} UnrollStmtsConsts(ss: seq<Stmt>)
    ensures |UnrollStmts(ss)| == |ss|
    ensures forall i :: 0 <= i < |ss| ==> UnrollStmts(ss)[i] == UnrollStmt(ss[i])
    ensures Consts(UnrollStmts(ss)) == Consts(ss) && DistinctConsts(UnrollStmts(ss)) == DistinctConsts(ss)
  {
    UnrollStmtsShape(ss);
    if ss == [] {
    } else {
      UnrollStmtsConsts(ss[1..]);
      var r := UnrollStmts(ss);
      assert forall i :: 0 < i < |ss| ==> r[i] == UnrollStmts(ss[1..])[i - 1] && ss[1..][i - 1] == ss[i];
      assert forall i :: 0 <= i < |ss| ==> r[i] == UnrollStmt(ss[i]);
    }
  }

  /** The unrolled program obeys the rules exactly when the program as written keeps the condition. */
  lemma {:induction false} ScopeExact(e: Expr, cs: set<Name>)
    ensures Scoped(Unroll(e), cs) <==> StaysScoped(e, cs)
    decreases e, 0
  {
    match e
    case ForLoop(lab, pat, iter, body) =>
      if Bounds(pat, iter).Some? {
        var (lo, hi) := Bounds(pat, iter).value;
        CopiesScopeExact(pat.name, body, lo, hi, cs);
        CopiesNoConsts(pat.name, UnrollBlock(body), lo, hi);
        assert cs + {} == cs;
      } else {
        BlockScopeExact(body, cs);
      }
    case If(cond, thn, els) =>
      ScopeExact(cond, cs);
      BlockScopeExact(thn, cs);
      if els.Some? { ScopeExact(els.value, cs); }
    case Let(pat, init) => ScopeExact(init, cs);
    case BlockExpr(_, block) => BlockScopeExact(block, cs);
    case Unsafe(block) => BlockScopeExact(block, cs);
    case _ =>
  }

  lemma {:induction false} BlockScopeExact(b: Block, cs: set<Name>)
    ensures ScopedBlock(UnrollBlock(b), cs) <==> StaysScopedBlock(b, cs)
    decreases b, 0
  {
    UnrollStmtsConsts(b.stmts);
    StmtsScopeExact(b.stmts, cs + Consts(b.stmts));
  }

  lemma {:induction false} StmtsScopeExact(ss: seq<Stmt>, cs: set<Name>)
    ensures ScopedStmts(UnrollStmts(ss), cs) <==> StaysScopedStmts(ss, cs)
    decreases ss, 0
  {
    if ss == [] {
    } else {
      StmtScopeExact(ss[0], cs);
      StmtsScopeExact(ss[1..], cs);
      assert UnrollStmts(ss)[1..] == UnrollStmts(ss[1..]);
    }
  }

  lemma {:induction false} StmtScopeExact(s: Stmt, cs: set<Name>)
    ensures ScopedStmt(UnrollStmt(s), cs) <==> StaysScopedStmt(s, cs)
    decreases s, 0
  {
    if s.ExprStmt? { ScopeExact(s.expr, cs); }
  }

  lemma {:induction false} CopiesNoConsts(name: Name, body: Block, lo: nat, hi: nat)
    ensures Consts(Copies(name, body, lo, hi)) == {} && DistinctConsts(Copies(name, body, lo, hi))
    decreases hi - lo
  {
    if lo >= hi {
    } else {
      CopiesNoConsts(name, body, lo + 1, hi);
    }
  }

  lemma {:induction false} CopiesScopeExact(name: Name, body: Block, lo: nat, hi: nat, cs: set<Name>)
    ensures ScopedStmts(Copies(name, UnrollBlock(body), lo, hi), cs)
            <==> (lo < hi ==> name !in Consts(body.stmts) && StaysScopedBlock(body, cs + {name}))
    decreases body, 2, hi - lo
  {
    if lo >= hi {
    } else {
      var newBody := UnrollBlock(body);
      CopyScopeExact(name, body, lo, cs);
      CopiesScopeExact(name, body, lo + 1, hi, cs);
      assert Copies(name, newBody, lo, hi)[1..] == Copies(name, newBody, lo + 1, hi);
    }
  }

  lemma {:induction false} CopyScopeExact(name: Name, body: Block, i: nat, cs: set<Name>)
    ensures ScopedStmt(Copy(name, UnrollBlock(body), i), cs)
            <==> name !in Consts(body.stmts) && StaysScopedBlock(body, cs + {name})
    decreases body, 1
  {
    UnrollStmtsConsts(body.stmts);
    BlockScopeExact(body, cs + {name});
    OpenedScope(name, i, UnrollBlock(body), cs);
  }

  lemma OpenedScope(name: Name, i: nat, b: Block, cs: set<Name>)
    ensures ScopedBlock(Block([Const(name, i)] + b.stmts), cs)
            <==> name !in Consts(b.stmts) && ScopedBlock(b, cs + {name})
  {
    var inner := [Const(name, i)] + b.stmts;
    OpenedConsts(name, i, b.stmts);
    assert inner[0] == Const(name, i) && inner[1..] == b.stmts;
    assert (cs + {name}) + Consts(b.stmts) == cs + Consts(inner);
    assert ScopedStmts(inner, cs + Consts(inner)) <==> ScopedStmts(b.stmts, cs + Consts(inner));
  }

  lemma OpenedConsts(name: Name, i: nat, ss: seq<Stmt>)
    ensures Consts([Const(name, i)] + ss) == {name} + Consts(ss)
    ensures DistinctConsts([Const(name, i)] + ss) <==> name !in Consts(ss) && DistinctConsts(ss)
  {
    var inner := [Const(name, i)] + ss;
    assert forall j :: 0 <= j < |ss| ==> inner[j + 1] == ss[j];
    if DistinctConsts(inner) {
      forall j, k | 0 <= j < k < |ss| && ss[j].Const? && ss[k].Const? ensures ss[j].name != ss[k].name {
        assert inner[j + 1] == ss[j] && inner[k + 1] == ss[k];
      }
      forall s | s in ss && s.Const? ensures s.name != name {
        var j :| 0 <= j < |ss| && ss[j] == s;
        assert inner[0].name != inner[j + 1].name;
      }
    } else {
      var j, k :| 0 <= j < k < |inner| && inner[j].Const? && inner[k].Const? && inner[j].name == inner[k].name;
      assert inner[k] == ss[k - 1];
      if j > 0 { assert inner[j] == ss[j - 1]; } else { assert name in Consts(ss); }
    }
  }

  // ---------------------------------------------------------------- legal and of the same meaning

  /** Further constants in scope leave code legal that binds none of their names. */
  lemma {:induction false} ScopedWith(e: Expr, cs: set<Name>, ns: set<Name>)
    requires Scoped(e, cs) && Binds(e) !! ns
    ensures Scoped(e, cs + ns)
    decreases e, 0
  {
    match e
    case Range(start, _, end) =>
      if start.Some? { ScopedWith(start.value, cs, ns); }
      if end.Some? { ScopedWith(end.value, cs, ns); }
    case ForLoop(_, pat, iter, body) =>
      ScopedWith(iter, cs, ns);
      ScopedBlockWith(body, cs, ns);
    case If(cond, thn, els) =>
      ScopedWith(cond, cs, ns);
      ScopedBlockWith(thn, cs, ns);
      if els.Some? { ScopedWith(els.value, cs, ns); }
    case Let(pat, init) => ScopedWith(init, cs, ns);
    case BlockExpr(_, block) => ScopedBlockWith(block, cs, ns);
    case Unsafe(block) => ScopedBlockWith(block, cs, ns);
    case _ =>
  }

  lemma {:induction false} ScopedBlockWith(b: Block, cs: set<Name>, ns: set<Name>)
    requires ScopedBlock(b, cs) && BindsStmts(b.stmts) !! ns
    ensures ScopedBlock(b, cs + ns)
    decreases b, 0
  {
    ScopedStmtsWith(b.stmts, cs + Consts(b.stmts), ns);
    assert (cs + Consts(b.stmts)) + ns == (cs + ns) + Consts(b.stmts);
  }

  lemma {:induction false} ScopedStmtsWith(ss: seq<Stmt>, cs: set<Name>, ns: set<Name>)
    requires ScopedStmts(ss, cs) && BindsStmts(ss) !! ns
    ensures ScopedStmts(ss, cs + ns)
    decreases ss, 0
  {
    if ss == [] {
    } else {
      ScopedStmtWith(ss[0], cs, ns);
      ScopedStmtsWith(ss[1..], cs, ns);
    }
  }

  lemma {:induction false} ScopedStmtWith(s: Stmt, cs: set<Name>, ns: set<Name>)
    requires ScopedStmt(s, cs) && BindsStmt(s) !! ns
    ensures ScopedStmt(s, cs + ns)
    decreases s, 0
  {
    match s
    case ExprStmt(e, _) => ScopedWith(e, cs, ns);
    case Local(_, init) => ScopedWith(init, cs, ns);
    case _ =>
  }

  lemma {:induction false} RebindlessStaysScoped(e: Expr, cs: set<Name>, ns: set<Name>)
    requires Scoped(e, cs) && Rebindless(e, ns)
    ensures StaysScoped(e, cs + ns)
    decreases e, 0
  {
    match e
    case ForLoop(_, pat, iter, body) =>
      if Bounds(pat, iter).Some? {
        var (lo, hi) := Bounds(pat, iter).value;
        assert (cs + ns) + {pat.name} == cs + (ns + {pat.name});
        if lo < hi { RebindlessStaysScopedBlock(body, cs, ns + {pat.name}); }
      } else {
        ScopedWith(iter, cs, ns);
        RebindlessStaysScopedBlock(body, cs, ns);
      }
    case If(cond, thn, els) =>
      RebindlessStaysScoped(cond, cs, ns);
      RebindlessStaysScopedBlock(thn, cs, ns);
      if els.Some? { RebindlessStaysScoped(els.value, cs, ns); }
    case Let(pat, init) => RebindlessStaysScoped(init, cs, ns);
    case BlockExpr(_, block) => RebindlessStaysScopedBlock(block, cs, ns);
    case Unsafe(block) => RebindlessStaysScopedBlock(block, cs, ns);
    case _ => ScopedWith(e, cs, ns);
  }

  lemma {:induction false} RebindlessStaysScopedBlock(b: Block, cs: set<Name>, ns: set<Name>)
    requires ScopedBlock(b, cs) && RebindlessBlock(b, ns)
    ensures StaysScopedBlock(b, cs + ns)
    decreases b, 0
  {
    var consts := Consts(b.stmts);
    RebindlessStaysScopedStmts(b.stmts, cs + consts, ns - consts);
    assert (cs + consts) + (ns - consts) == (cs + ns) + consts;
  }

  lemma {:induction false} RebindlessStaysScopedStmts(ss: seq<Stmt>, cs: set<Name>, ns: set<Name>)
    requires ScopedStmts(ss, cs) && RebindlessStmts(ss, ns)
    ensures StaysScopedStmts(ss, cs + ns)
    decreases ss, 0
  {
    if ss == [] {
    } else {
      RebindlessStaysScopedStmt(ss[0], cs, ns);
      RebindlessStaysScopedStmts(ss[1..], cs, ns);
    }
  }

  lemma {:induction false} RebindlessStaysScopedStmt(s: Stmt, cs: set<Name>, ns: set<Name>)
    requires ScopedStmt(s, cs) && RebindlessStmt(s, ns)
    ensures StaysScopedStmt(s, cs + ns)
    decreases s, 0
  {
    if s.ExprStmt? { RebindlessStaysScoped(s.expr, cs, ns); } else { ScopedStmtWith(s, cs, ns); }
  }

  /** A legal and safe program in which no pattern names the variable of an unrolled loop around it
      becomes a legal program with the same meaning. */
  lemma UnrollIsSound(l: Meaning, cs: set<Name>, e: Expr, env: Env)
    requires Scoped(e, cs) && Safe(e) && Rebindless(e, {})
    ensures Scoped(Unroll(e), cs)
    ensures Eval(l, cs, Unroll(e), env) == Eval(l, cs, e, env)
  {
    assert cs + {} == cs;
    RebindlessStaysScoped(e, cs, {});
    ScopeExact(e, cs);
    UnrollKeepsMeaning(l, cs, {}, e, env);
  }

  // ---------------------------------------------------------------- testing the loop variable

  const I: Pattern := Ident("i", false, false, None)
  const F: Expr := Other(Leaf(0, {}, {}, {}), false)
  const G: Expr := Other(Leaf(1, {}, {}, {}), true)
  const CALL_G: Block := Block([ExprStmt(G, false)])
  const TEST: Expr := If(Let(I, F), CALL_G, None)
  const TESTING_BODY: Block := Block([ExprStmt(TEST, false)])

  /** `for i in lo..hi { if let i = f() { g() } }`. */
  function TestingLoop(lo: nat, hi: nat): Expr {
    ForLoop(None, I, Range(Some(Lit(lo)), false, Some(Lit(hi))), TESTING_BODY)
  }

  /** `f` gives `v` and `g` leaves the function. */
  function TestingMeaning(v: int): Meaning {
    Meaning(
      (e, ts, env) => if e == F then (Done, Num(v), env) else (Leaves, Unit, env),
      (id, ts, env) => (Done, env),
      (e, ts, env) => (Done, [], env),
      (p, ts, w, env) => None)
  }

  lemma OneStatement(l: Meaning, cs: set<Name>, e: Expr, env: Env)
    ensures EvalBlock(l, cs, Block([ExprStmt(e, false)]), env) == CutOutcome(Eval(l, cs, e, env), |env|)
  {
    var ss := [ExprStmt(e, false)];
    assert Hoist(ss, env) == env && ss[1..] == [];
    assert cs + Consts(ss) == cs;
    assert EvalStmts(l, cs, ss, env) == EvalStmt(l, cs, ss[0], env);
  }

  lemma TestingPass(v: int, cs: set<Name>, k: nat, env: Env)
    ensures EvalPass(TestingMeaning(v), cs, I, TESTING_BODY, Num(k), env)
            == if "i" !in cs || v == k then Exited(env) else Normal(Unit, env)
  {
    var l := TestingMeaning(v);
    var inner := env + [("i", Num(k))];
    OneStatement(l, cs, TEST, inner);
    assert Eval(l, cs, F, inner) == Normal(Num(v), inner);
    assert Eval(l, cs, TEST.cond, inner) == Normal(Num(v), inner);
    var b := Match(l, cs, I, Num(v), inner);
    assert Lookup(inner, "i") == Some(Num(k));
    assert b == if "i" !in cs then Some([("i", Num(v))]) else if v == k then Some([]) else None;
    if b.Some? {
      OneStatement(l, cs, G, inner + b.value);
      assert Eval(l, cs, G, inner + b.value) == Exited(inner + b.value);
      assert Cut(inner + b.value, |inner|) == inner;
    }
    assert Eval(l, cs, TEST, inner) == if b.Some? then Exited(inner) else Normal(Unit, inner);
    assert Cut(inner, |inner|) == inner && Cut(inner, |env|) == env;
  }

  lemma {:induction false} TestingCopies(v: int, cs: set<Name>, lo: nat, hi: nat, env: Env)
    ensures EvalStmts(TestingMeaning(v), cs, Copies("i", TESTING_BODY, lo, hi), env)
            == if lo <= v < hi then Exited(env) else Normal(Unit, env)
    decreases hi - lo
  {
    if lo >= hi {
    } else {
      CopyIsPass(TestingMeaning(v), cs, I, TESTING_BODY, lo, env);
      TestingPass(v, cs + {"i"}, lo, env);
      CopiesSplit("i", TESTING_BODY, lo, hi);
      TestingCopies(v, cs, lo + 1, hi, env);
    }
  }

  /** What the predicates say of a block of one expression is what they say of the expression. */
  lemma OneExpr(e: Expr, j: Jump, cs: set<Name>)
    ensures var ss := [ExprStmt(e, false)];
            && UnrollStmts(ss) == [ExprStmt(Unroll(e), false)]
            && (MayJumpStmts(ss, j) <==> MayJump(e, j))
            && (SafeStmts(ss) <==> Safe(e)) && (UnitBlock(Block(ss)) <==> UnitExpr(e))
            && (RebindlessBlock(Block(ss), cs) <==> Rebindless(e, cs))
            && (ScopedBlock(Block(ss), cs) <==> Scoped(e, cs))
            && (StaysScopedBlock(Block(ss), cs) <==> StaysScoped(e, cs))
  {
    var ss := [ExprStmt(e, false)];
    assert ss[1..] == [] && Consts(ss) == {};
    assert cs - Consts(ss) == cs && cs + Consts(ss) == cs;
    assert ScopedStmts(ss, cs) <==> ScopedStmt(ss[0], cs);
    assert StaysScopedStmts(ss, cs) <==> StaysScopedStmt(ss[0], cs);
    assert RebindlessStmts(ss, cs) <==> RebindlessStmt(ss[0], cs);
  }

  lemma TestProperties(j: Jump)
    ensures UnrollBlock(TESTING_BODY) == TESTING_BODY && !MayJumpStmts(TESTING_BODY.stmts, j)
    ensures SafeStmts(TESTING_BODY.stmts) && UnitBlock(TESTING_BODY) && !RebindlessBlock(TESTING_BODY, {"i"})
  {
    OneExpr(G, j, {"i"});
    OneExpr(TEST, j, {"i"});
    assert Unroll(TEST.cond) == TEST.cond && !MayJump(TEST.cond, j) && Safe(TEST.cond);
    assert !Rebindless(TEST.cond, {"i"});
  }

  lemma TestingShape(lo: nat, hi: nat)
    ensures Unroll(TestingLoop(lo, hi)) == BlockExpr(None, Block(Copies("i", TESTING_BODY, lo, hi)))
    ensures Safe(TestingLoop(lo, hi)) && (Rebindless(TestingLoop(lo, hi), {}) <==> lo >= hi)
  {
    TestProperties(BreakTo(None));
    TestProperties(ContinueTo(None));
    assert {} + {"i"} == {"i"};
    assert Fresh(TestingLoop(lo, hi).iter, {});
  }

  lemma TestingScoped(lo: nat, hi: nat, cs: set<Name>)
    requires "i" !in cs
    ensures Scoped(TestingLoop(lo, hi), cs) && Scoped(Unroll(TestingLoop(lo, hi)), cs)
  {
    TestingBodyScoped(cs);
    TestingBodyScoped(cs + {"i"});
    ScopeExact(TestingLoop(lo, hi), cs);
  }

  lemma TestingBodyScoped(cs: set<Name>)
    ensures ScopedBlock(TESTING_BODY, cs) && StaysScopedBlock(TESTING_BODY, cs)
  {
    OneExpr(G, BreakTo(None), cs);
    OneExpr(TEST, BreakTo(None), cs);
    assert Scoped(TEST.cond, cs) && StaysScoped(TEST.cond, cs);
  }

  /** A loop whose body tests the loop variable by `if let i = f()` is legal and safe, and so is the
      block that replaces it. The loop binds whatever `f` gives and leaves in its first pass. The
      block compares it with the indices and leaves only if it is one of them. */
  lemma TestingLoopExact(v: int, cs: set<Name>, lo: nat, hi: nat, env: Env)
    requires "i" !in cs
    ensures var e := TestingLoop(lo, hi);
            && Scoped(e, cs) && Safe(e) && Scoped(Unroll(e), cs)
            && (Rebindless(e, {}) <==> lo >= hi)
            && (Eval(TestingMeaning(v), cs, Unroll(e), env) == Eval(TestingMeaning(v), cs, e, env)
                <==> lo >= hi || lo <= v < hi)
  {
    TestingShape(lo, hi);
    TestingScoped(lo, hi, cs);
    TestingLoopOutcome(v, cs, lo, hi, env);
    TestingBlockOutcome(v, cs, lo, hi, env);
  }

  lemma TestingLoopOutcome(v: int, cs: set<Name>, lo: nat, hi: nat, env: Env)
    requires "i" !in cs
    ensures Eval(TestingMeaning(v), cs, TestingLoop(lo, hi), env) == if lo < hi then Exited(env) else Normal(Unit, env)
  {
    var l, vs := TestingMeaning(v), Count(lo, hi);
    assert Eval(l, cs, TestingLoop(lo, hi), env) == EvalFor(l, cs, None, I, TESTING_BODY, vs, env);
    if lo < hi {
      TestingPass(v, cs, lo, env);
      CopiesSplit("i", TESTING_BODY, lo, hi);
      FirstPassLeaves(l, cs, None, I, TESTING_BODY, vs, env);
    }
  }

  lemma FirstPassLeaves(l: Meaning, cs: set<Name>, lab: Option<Label>, pat: Pattern, body: Block, vs: seq<Value>, env: Env)
    requires vs != [] && EvalPass(l, cs, pat, body, vs[0], env).Exited?
    ensures EvalFor(l, cs, lab, pat, body, vs, env) == EvalPass(l, cs, pat, body, vs[0], env)
  {
  }

  lemma TestingBlockOutcome(v: int, cs: set<Name>, lo: nat, hi: nat, env: Env)
    ensures Eval(TestingMeaning(v), cs, BlockExpr(None, Block(Copies("i", TESTING_BODY, lo, hi))), env)
            == if lo <= v < hi then Exited(env) else Normal(Unit, env)
  {
    var copies := Copies("i", TESTING_BODY, lo, hi);
    TestingCopies(v, cs, lo, hi, env);
    CopiesHoistNothing("i", TESTING_BODY, lo, hi, env);
    assert cs + {} == cs && Cut(env, |env|) == env;
    assert EvalBlock(TestingMeaning(v), cs, Block(copies), env) == EvalStmts(TestingMeaning(v), cs, copies, env);
  }
}
