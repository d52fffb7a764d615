/**
 A definition of what the programs of `UnrollSyntax` do, and the proof that unrolling keeps it.

 The environment is a stack of bindings: blocks push and, on leaving, cut the stack back. The
 meaning of every leaf the macro does not look into is a parameter, so the results hold whatever
 the leaves compute, read and assign, and whichever of the jumps they contain they make. The
 names `cs` of the constants in scope are passed down, since they decide what a pattern means.
 */
module UnrollMeaning {
  import opened Collections
  import opened UnrollSyntax

  datatype Value = Unit | Num(n: int)

  type Env = seq<(Name, Value)>

  /** How a piece of code ends: with a value, with a jump still looking for its target, or by
      leaving the function. */
  datatype Outcome =
    | Normal(value: Value, env: Env)
    | Jumped(jump: Jump, env: Env)
    | Exited(env: Env)

  /** How a leaf ends. */
  datatype Ending = Done | Leaves | Jumps(jump: Jump)

  /** The meaning of the leaves: expressions, statements, iterators and patterns. It may depend on
      which of the plain identifiers in their refutable patterns are constants in scope. */
  datatype Meaning = Meaning(
    expr: (Expr, set<Name>, Env) -> (Ending, Value, Env),
    stmt: (nat, set<Name>, Env) -> (Ending, Env),
    items: (Expr, set<Name>, Env) -> (Ending, seq<Value>, Env),
    bind: (Pattern, set<Name>, Value, Env) -> Option<Env>)

  // ---------------------------------------------------------------- names

  /** The plain identifiers of a pattern. */
  function Plains(p: Pattern): set<Name> {
    match p
    case Ident(name, _, _, sub) => if Plain(p) then {name} else if sub.Some? then Plains(sub.value) else {}
    case OtherPattern(_, plain, _) => plain
  }

  /** The identifiers of a pattern that have `ref`, `mut` or `@`. */
  function Marked(p: Pattern): set<Name> {
    match p
    case Ident(name, _, _, sub) => if Plain(p) then {} else {name} + (if sub.Some? then Marked(sub.value) else {})
    case OtherPattern(_, _, marked) => marked
  }

  function Names(p: Pattern): set<Name> { Plains(p) + Marked(p) }

  /** The constants that a block declares. */
  function Consts(ss: seq<Stmt>): set<Name> { set s | s in ss && s.Const? :: s.name }

  /** The plain identifiers in refutable patterns. */
  function Tests(e: Expr): set<Name>
    decreases e
  {
    match e
    case Range(start, _, end) =>
      (if start.Some? then Tests(start.value) else {}) + (if end.Some? then Tests(end.value) else {})
    case ForLoop(_, _, iter, body) => Tests(iter) + TestsStmts(body.stmts)
    case If(cond, thn, els) => Tests(cond) + TestsStmts(thn.stmts) + (if els.Some? then Tests(els.value) else {})
    case Let(pat, init) => Plains(pat) + Tests(init)
    case BlockExpr(_, block) => TestsStmts(block.stmts)
    case Unsafe(block) => TestsStmts(block.stmts)
    case Other(leaf, _) => leaf.tests
    case _ => {}
  }

  function TestsStmts(ss: seq<Stmt>): set<Name>
    decreases ss
  {
    if ss == [] then {} else TestsStmt(ss[0]) + TestsStmts(ss[1..])
  }

  function TestsStmt(s: Stmt): set<Name>
    decreases s
  {
    match s
    case ExprStmt(e, _) => Tests(e)
    case Local(_, init) => Tests(init)
    case OtherStmt(leaf) => leaf.tests
    case Const(_, _) => {}
  }

  /** The names that patterns bind whether or not a constant of that name is in scope, or for which
      such a constant makes the program illegal. */
  function Binds(e: Expr): set<Name>
    decreases e
  {
    match e
    case Range(start, _, end) =>
      (if start.Some? then Binds(start.value) else {}) + (if end.Some? then Binds(end.value) else {})
    case ForLoop(_, pat, iter, body) => Names(pat) + Binds(iter) + BindsStmts(body.stmts)
    case If(cond, thn, els) => Binds(cond) + BindsStmts(thn.stmts) + (if els.Some? then Binds(els.value) else {})
    case Let(pat, init) => Marked(pat) + Binds(init)
    case BlockExpr(_, block) => BindsStmts(block.stmts)
    case Unsafe(block) => BindsStmts(block.stmts)
    case Other(leaf, _) => leaf.binds
    case _ => {}
  }

  function BindsStmts(ss: seq<Stmt>): set<Name>
    decreases ss
  {
    if ss == [] then {} else BindsStmt(ss[0]) + BindsStmts(ss[1..])
  }

  function BindsStmt(s: Stmt): set<Name>
    decreases s
  {
    match s
    case ExprStmt(e, _) => Binds(e)
    case Local(pat, init) => Names(pat) + Binds(init)
    case OtherStmt(leaf) => leaf.binds
    case Const(_, _) => {}
  }

  // ---------------------------------------------------------------- evaluation

  function Cut(env: Env, n: nat): Env { if n <= |env| then env[..n] else env }

  function CutOutcome(o: Outcome, n: nat): Outcome { o.(env := Cut(o.env, n)) }

  /** A `break` that names this label ends here. */
  function CatchBreak(o: Outcome, lab: Option<Label>): Outcome {
    if o.Jumped? && lab.Some? && o.jump == BreakTo(lab) then Normal(Unit, o.env) else o
  }

  /** What a pattern of `let` or `for` binds. Rust rejects one that names a constant in scope. */
  function BindOne(l: Meaning, p: Pattern, v: Value, env: Env): Env {
    if Plain(p) then [(p.name, v)] else var b := l.bind(p, {}, v, env); if b.Some? then b.value else []
  }

  function Lookup(env: Env, name: Name): Option<Value> {
    if env == [] then None
    else if env[|env| - 1].0 == name then Some(env[|env| - 1].1)
    else Lookup(env[..|env| - 1], name)
  }

  /** What a pattern of `if let` binds, if it matches, where `cs` are the constants in scope. A plain
      identifier that names one is compared with it and binds nothing. */
  function Match(l: Meaning, cs: set<Name>, p: Pattern, v: Value, env: Env): Option<Env> {
    if !Plain(p) then l.bind(p, cs * Plains(p), v, env)
    else if p.name !in cs then Some([(p.name, v)])
    else if Lookup(env, p.name) == Some(v) then Some([])
    else None
  }

  function Count(lo: nat, hi: nat): seq<Value>
    decreases hi - lo
  {
    if lo >= hi then [] else [Num(lo)] + Count(lo + 1, hi)
  }

  predicate LiteralRange(e: Expr) {
    e.Range? && e.start.Some? && e.start.value.Lit? && e.end.Some? && e.end.value.Lit?
  }

  /** The jump may leave the expression. */
  predicate MayJump(e: Expr, j: Jump)
    decreases e
  {
    match e
    case Break(lab) => j == BreakTo(lab)
    case Continue(lab) => j == ContinueTo(lab)
    case Other(leaf, _) => j in leaf.jumps
    case Range(start, _, end) => (start.Some? && MayJump(start.value, j)) || (end.Some? && MayJump(end.value, j))
    case ForLoop(lab, _, iter, body) =>
      MayJump(iter, j) || (j.target.Some? && j.target != lab && MayJumpStmts(body.stmts, j))
    case If(cond, thn, els) => MayJump(cond, j) || MayJumpStmts(thn.stmts, j) || (els.Some? && MayJump(els.value, j))
    case Let(_, init) => MayJump(init, j)
    case BlockExpr(lab, block) => !(lab.Some? && j == BreakTo(lab)) && MayJumpStmts(block.stmts, j)
    case Unsafe(block) => MayJumpStmts(block.stmts, j)
    case Lit(_) => false
  }

  predicate MayJumpStmts(ss: seq<Stmt>, j: Jump)
    decreases ss
  {
    ss != [] && (MayJumpStmt(ss[0], j) || MayJumpStmts(ss[1..], j))
  }

  predicate MayJumpStmt(s: Stmt, j: Jump)
    decreases s
  {
    match s
    case ExprStmt(e, _) => MayJump(e, j)
    case Local(_, init) => MayJump(init, j)
    case OtherStmt(leaf) => j in leaf.jumps
    case Const(_, _) => false
  }

  /** The constants of a block are in scope from its start. */
  function Hoist(ss: seq<Stmt>, env: Env): Env {
    if ss == [] then env
    else Hoist(ss[1..], if ss[0].Const? then env + [(ss[0].name, Num(ss[0].value))] else env)
  }

  /** A leaf that is not done leaves the function or makes one of the jumps it contains. */
  function Leave(end: Ending, contained: bool, env: Env): Outcome
    requires end != Done
  {
    if end.Jumps? && contained then Jumped(end.jump, env) else Exited(env)
  }

  function EvalLeaf(l: Meaning, cs: set<Name>, e: Expr, env: Env): Outcome {
    var (end, v, env1) := l.expr(e, cs * Tests(e), env);
    if end == Done then Normal(if e.Other? && e.unit then Unit else v, env1)
    else Leave(end, end.Jumps? && MayJump(e, end.jump), env1)
  }

  function Eval(l: Meaning, cs: set<Name>, e: Expr, env: Env): Outcome
    decreases e, 0
  {
    match e
    case Lit(n) => Normal(Num(n), env)
    case Range(_, _, _) => EvalLeaf(l, cs, e, env)
    case Other(_, _) => EvalLeaf(l, cs, e, env)
    case Break(lab) => Jumped(BreakTo(lab), env)
    case Continue(lab) => Jumped(ContinueTo(lab), env)
    case ForLoop(lab, pat, iter, body) =>
      if LiteralRange(iter) then
        EvalFor(l, cs, lab, pat, body, Count(iter.start.value.value, iter.end.value.value + One(iter.closed)), env)
      else
        var (end, vs, env1) := l.items(iter, cs * Tests(iter), env);
        if end == Done then EvalFor(l, cs, lab, pat, body, vs, env1)
        else Leave(end, end.Jumps? && MayJump(iter, end.jump), env1)
    case BlockExpr(lab, block) => CatchBreak(EvalBlock(l, cs, block, env), lab)
    case Unsafe(block) => EvalBlock(l, cs, block, env)
    case Let(pat, init) => Eval(l, cs, init, env)
    case If(cond, thn, els) =>
      var c := Eval(l, cs, cond, env);
      if !c.Normal? then c
      else if cond.Let? then
        var b := Match(l, cs, cond.pat, c.value, c.env);
        if b.Some? then CutOutcome(EvalBlock(l, cs, thn, c.env + b.value), |c.env|)
        else if els.Some? then Eval(l, cs, els.value, c.env) else Normal(Unit, c.env)
      else if c.value != Num(0) then EvalBlock(l, cs, thn, c.env)
      else if els.Some? then Eval(l, cs, els.value, c.env)
      else Normal(Unit, c.env)
  }

  function EvalBlock(l: Meaning, cs: set<Name>, b: Block, env: Env): Outcome
    decreases b, 0
  {
    CutOutcome(EvalStmts(l, cs + Consts(b.stmts), b.stmts, Hoist(b.stmts, env)), |env|)
  }

  function EvalStmts(l: Meaning, cs: set<Name>, ss: seq<Stmt>, env: Env): Outcome
    decreases ss, 0
  {
    if ss == [] then Normal(Unit, env)
    else
      var o := EvalStmt(l, cs, ss[0], env);
      if o.Normal? && |ss| > 1 then EvalStmts(l, cs, ss[1..], o.env) else o
  }

  function EvalStmt(l: Meaning, cs: set<Name>, s: Stmt, env: Env): Outcome
    decreases s, 0
  {
    match s
    case ExprStmt(e, semi) =>
      var o := Eval(l, cs, e, env);
      if o.Normal? && semi then Normal(Unit, o.env) else o
    case Local(pat, init) =>
      var o := Eval(l, cs, init, env);
      if o.Normal? then Normal(Unit, o.env + BindOne(l, pat, o.value, o.env)) else o
    case Const(_, _) => Normal(Unit, env)
    case OtherStmt(leaf) =>
      var (end, env1) := l.stmt(leaf.id, cs * leaf.tests, env);
      if end == Done then Normal(Unit, env1) else Leave(end, end.Jumps? && end.jump in leaf.jumps, env1)
  }

  /** One pass of a loop body with the loop variable bound. */
  function EvalPass(l: Meaning, cs: set<Name>, pat: Pattern, body: Block, v: Value, env: Env): Outcome
    decreases body, 1
  {
    CutOutcome(EvalBlock(l, cs, body, env + BindOne(l, pat, v, env)), |env|)
  }

  /** The jump is for a loop with this label. */
  predicate ForLoopOf(j: Jump, lab: Option<Label>) { j.target.None? || j.target == lab }

  function EvalFor(l: Meaning, cs: set<Name>, lab: Option<Label>, pat: Pattern, body: Block, vs: seq<Value>, env: Env): Outcome
    decreases body, 2, |vs|
  {
    if vs == [] then Normal(Unit, env)
    else
      var o := EvalPass(l, cs, pat, body, vs[0], env);
      match o
      case Normal(_, env1) => EvalFor(l, cs, lab, pat, body, vs[1..], env1)
      case Jumped(j, env1) =>
        if !ForLoopOf(j, lab) then o
        else if j.ContinueTo? then EvalFor(l, cs, lab, pat, body, vs[1..], env1)
        else Normal(Unit, env1)
      case Exited(_) => o
  }

  // ---------------------------------------------------------------- when unrolling is allowed

  /** The block has type `()`, which Rust demands of every loop body. */
  predicate UnitBlock(b: Block)
    decreases b
  {
    b.stmts == [] || UnitStmt(b.stmts[|b.stmts| - 1])
  }

  predicate UnitStmt(s: Stmt)
    decreases s
  {
    s.ExprStmt? && !s.semi ==> UnitExpr(s.expr)
  }

  predicate UnitExpr(e: Expr)
    decreases e
  {
    match e
    case ForLoop(_, _, _, _) => true
    case If(_, thn, els) => UnitBlock(thn) && (els.Some? ==> UnitExpr(els.value))
    case BlockExpr(_, block) => UnitBlock(block)
    case Unsafe(block) => UnitBlock(block)
    case Break(_) => true
    case Continue(_) => true
    case Other(_, unit) => unit
    case _ => false
  }

  /** The jumps that the block which replaces a loop does not catch as the loop does: a plain `break`,
      a plain `continue` and a `continue` of the loop's label. It catches a `break` of the label. */
  predicate Uncaught(j: Jump, lab: Option<Label>) { j.target.None? || (j.ContinueTo? && j.target == lab) }

  /** What the macro needs of a loop it unrolls: both bounds are written, the body is of type `()`,
      and contains no uncaught jump that is aimed at the loop. */
  predicate SafeLoop(lab: Option<Label>, iter: Expr, body: Block) {
    && LiteralRange(iter)
    && UnitBlock(body)
    && !MayJumpStmts(body.stmts, BreakTo(None))
    && !MayJumpStmts(body.stmts, ContinueTo(None))
    && !MayJumpStmts(body.stmts, ContinueTo(lab))
  }

  /** Every loop that is unrolled is safe to unroll. */
  predicate Safe(e: Expr)
    decreases e
  {
    match e
    case ForLoop(lab, pat, iter, body) => SafeStmts(body.stmts) && (Bounds(pat, iter).Some? ==> SafeLoop(lab, iter, body))
    case If(cond, thn, els) => Safe(cond) && SafeStmts(thn.stmts) && (els.Some? ==> Safe(els.value))
    case Let(_, init) => Safe(init)
    case BlockExpr(_, block) => SafeStmts(block.stmts)
    case Unsafe(block) => SafeStmts(block.stmts)
    case _ => true
  }

  predicate SafeStmts(ss: seq<Stmt>)
    decreases ss
  {
    ss == [] || (SafeStmt(ss[0]) && SafeStmts(ss[1..]))
  }

  predicate SafeStmt(s: Stmt)
    decreases s
  {
    s.ExprStmt? ==> Safe(s.expr)
  }

  /** No pattern names one of `ns`. */
  predicate Fresh(e: Expr, ns: set<Name>) { Tests(e) + Binds(e) !! ns }

  /** No pattern names the variable of an unrolled loop around it, where `ns` are the variables of
      the loops outside. A constant of the program hides them, and a loop over nothing disappears
      with its body. */
  predicate Rebindless(e: Expr, ns: set<Name>)
    decreases e, 0
  {
    match e
    case ForLoop(_, pat, iter, body) =>
      && Fresh(iter, ns)
      && (match Bounds(pat, iter)
          case None => Names(pat) !! ns && RebindlessBlock(body, ns)
          case Some((lo, hi)) =>
            lo < hi ==> pat.name !in Consts(body.stmts) && RebindlessBlock(body, ns + {pat.name}))
    case If(cond, thn, els) =>
      Rebindless(cond, ns) && RebindlessBlock(thn, ns) && (els.Some? ==> Rebindless(els.value, ns))
    case Let(pat, init) => Names(pat) !! ns && Rebindless(init, ns)
    case BlockExpr(_, block) => RebindlessBlock(block, ns)
    case Unsafe(block) => RebindlessBlock(block, ns)
    case _ => Fresh(e, ns)
  }

  predicate RebindlessBlock(b: Block, ns: set<Name>)
    decreases b, 0
  {
    RebindlessStmts(b.stmts, ns - Consts(b.stmts))
  }

  predicate RebindlessStmts(ss: seq<Stmt>, ns: set<Name>)
    decreases ss, 0
  {
    ss == [] || (RebindlessStmt(ss[0], ns) && RebindlessStmts(ss[1..], ns))
  }

  predicate RebindlessStmt(s: Stmt, ns: set<Name>)
    decreases s, 0
  {
    match s
    case ExprStmt(e, _) => Rebindless(e, ns)
    case Local(pat, init) => Names(pat) !! ns && Fresh(init, ns)
    case OtherStmt(leaf) => leaf.tests + leaf.binds !! ns
    case Const(_, _) => true
  }

  // ---------------------------------------------------------------- jumps and unit values

  /** A jump leaves a piece of code only if that piece contains it. */
  lemma {:induction false} JumpsInExpr(l: Meaning, cs: set<Name>, e: Expr, env: Env)
    ensures var o := Eval(l, cs, e, env); o.Jumped? ==> MayJump(e, o.jump)
    decreases e, 0
  {
    match e
    case ForLoop(lab, pat, iter, body) =>
      if LiteralRange(iter) {
        JumpsInFor(l, cs, lab, pat, body, Count(iter.start.value.value, iter.end.value.value + One(iter.closed)), env);
      } else {
        var (_, vs, env1) := l.items(iter, cs * Tests(iter), env);
        JumpsInFor(l, cs, lab, pat, body, vs, env1);
      }
    case BlockExpr(lab, block) => JumpsInBlock(l, cs, block, env);
    case Unsafe(block) => JumpsInBlock(l, cs, block, env);
    case Let(pat, init) => JumpsInExpr(l, cs, init, env);
    case If(cond, thn, els) =>
      JumpsInExpr(l, cs, cond, env);
      var c := Eval(l, cs, cond, env);
      if c.Normal? {
        JumpsInBlock(l, cs, thn, c.env);
        if cond.Let? && Match(l, cs, cond.pat, c.value, c.env).Some? {
          JumpsInBlock(l, cs, thn, c.env + Match(l, cs, cond.pat, c.value, c.env).value);
        }
        if els.Some? { JumpsInExpr(l, cs, els.value, c.env); }
      }
    case _ =>
  }

  lemma {:induction false} JumpsInBlock(l: Meaning, cs: set<Name>, b: Block, env: Env)
    ensures var o := EvalBlock(l, cs, b, env); o.Jumped? ==> MayJumpStmts(b.stmts, o.jump)
    decreases b, 0
  {
    JumpsInStmts(l, cs + Consts(b.stmts), b.stmts, Hoist(b.stmts, env));
  }

  lemma {:induction false} JumpsInStmts(l: Meaning, cs: set<Name>, ss: seq<Stmt>, env: Env)
    ensures var o := EvalStmts(l, cs, ss, env); o.Jumped? ==> MayJumpStmts(ss, o.jump)
    decreases ss, 0
  {
    if ss == [] {
    } else {
      JumpsInStmt(l, cs, ss[0], env);
      var o := EvalStmt(l, cs, ss[0], env);
      if o.Normal? { JumpsInStmts(l, cs, ss[1..], o.env); }
    }
  }

  lemma {:induction false} JumpsInStmt(l: Meaning, cs: set<Name>, s: Stmt, env: Env)
    ensures var o := EvalStmt(l, cs, s, env); o.Jumped? ==> MayJumpStmt(s, o.jump)
    decreases s, 0
  {
    if s.ExprStmt? { JumpsInExpr(l, cs, s.expr, env); }
    if s.Local? { JumpsInExpr(l, cs, s.init, env); }
  }

  /** A loop lets no jump out that is its own. */
  lemma {:induction false} JumpsInFor(l: Meaning, cs: set<Name>, lab: Option<Label>, pat: Pattern, body: Block, vs: seq<Value>, env: Env)
    ensures var o := EvalFor(l, cs, lab, pat, body, vs, env);
            o.Jumped? ==> MayJumpStmts(body.stmts, o.jump) && !ForLoopOf(o.jump, lab)
    decreases body, 2, |vs|
  {
    if vs == [] {
    } else {
      JumpsInBlock(l, cs, body, env + BindOne(l, pat, vs[0], env));
      var o := EvalPass(l, cs, pat, body, vs[0], env);
      JumpsInFor(l, cs, lab, pat, body, vs[1..], o.env);
    }
  }

  lemma {:induction false} UnitFor(l: Meaning, cs: set<Name>, lab: Option<Label>, pat: Pattern, body: Block, vs: seq<Value>, env: Env)
    ensures var o := EvalFor(l, cs, lab, pat, body, vs, env); o.Normal? ==> o.value == Unit
    decreases |vs|
  {
    if vs == [] {
    } else {
      UnitFor(l, cs, lab, pat, body, vs[1..], EvalPass(l, cs, pat, body, vs[0], env).env);
    }
  }

  /** Code of type `()` that ends normally ends with the unit value. */
  lemma {:induction false} UnitExprValue(l: Meaning, cs: set<Name>, e: Expr, env: Env)
    requires UnitExpr(e)
    ensures var o := Eval(l, cs, e, env); o.Normal? ==> o.value == Unit
    decreases e
  {
    match e
    case ForLoop(lab, pat, iter, body) =>
      if LiteralRange(iter) {
        UnitFor(l, cs, lab, pat, body, Count(iter.start.value.value, iter.end.value.value + One(iter.closed)), env);
      } else {
        var (_, vs, env1) := l.items(iter, cs * Tests(iter), env);
        UnitFor(l, cs, lab, pat, body, vs, env1);
      }
    case If(cond, thn, els) =>
      var c := Eval(l, cs, cond, env);
      if c.Normal? {
        UnitBlockValue(l, cs, thn, c.env);
        if cond.Let? && Match(l, cs, cond.pat, c.value, c.env).Some? {
          UnitBlockValue(l, cs, thn, c.env + Match(l, cs, cond.pat, c.value, c.env).value);
        }
        if els.Some? { UnitExprValue(l, cs, els.value, c.env); }
      }
    case BlockExpr(lab, block) => UnitBlockValue(l, cs, block, env);
    case Unsafe(block) => UnitBlockValue(l, cs, block, env);
    case _ =>
  }

  lemma {:induction false} UnitBlockValue(l: Meaning, cs: set<Name>, b: Block, env: Env)
    requires UnitBlock(b)
    ensures var o := EvalBlock(l, cs, b, env); o.Normal? ==> o.value == Unit
    decreases b
  {
    var inner := cs + Consts(b.stmts);
    var env1 := EvalStmtsLast(l, inner, b.stmts, Hoist(b.stmts, env));
    if b.stmts != [] { UnitStmtValue(l, inner, b.stmts[|b.stmts| - 1], env1); }
  }

  lemma {:induction false} UnitStmtValue(l: Meaning, cs: set<Name>, s: Stmt, env: Env)
    requires UnitStmt(s)
    ensures var o := EvalStmt(l, cs, s, env); o.Normal? ==> o.value == Unit
    decreases s
  {
    if s.ExprStmt? && !s.semi { UnitExprValue(l, cs, s.expr, env); }
  }

  /** A statement list that ends normally ends with its last statement. */
  lemma {:induction false} EvalStmtsLast(l: Meaning, cs: set<Name>, ss: seq<Stmt>, env: Env) returns (env1: Env)
    ensures var o := EvalStmts(l, cs, ss, env);
            o.Normal? && ss != [] ==> EvalStmt(l, cs, ss[|ss| - 1], env1) == o
    decreases |ss|
  {
    env1 := env;
    if |ss| > 1 {
      var o := EvalStmt(l, cs, ss[0], env);
      if o.Normal? { env1 := EvalStmtsLast(l, cs, ss[1..], o.env); }
    }
  }

  // ---------------------------------------------------------------- constants that no pattern tests

  /** Further constants in scope change nothing for code whose refutable patterns do not name them. */
  lemma {:induction false} UntestedExpr(l: Meaning, cs: set<Name>, ns: set<Name>, e: Expr, env: Env)
    requires Tests(e) !! ns
    ensures Eval(l, cs + ns, e, env) == Eval(l, cs, e, env)
    decreases e, 0
  {
    assert (cs + ns) * Tests(e) == cs * Tests(e);
    match e
    case ForLoop(lab, pat, iter, body) =>
      if LiteralRange(iter) {
        UntestedFor(l, cs, ns, lab, pat, body, Count(iter.start.value.value, iter.end.value.value + One(iter.closed)), env);
      } else {
        assert (cs + ns) * Tests(iter) == cs * Tests(iter);
        var (_, vs, env1) := l.items(iter, cs * Tests(iter), env);
        UntestedFor(l, cs, ns, lab, pat, body, vs, env1);
      }
    case BlockExpr(lab, block) => UntestedBlock(l, cs, ns, block, env);
    case Unsafe(block) => UntestedBlock(l, cs, ns, block, env);
    case Let(pat, init) => UntestedExpr(l, cs, ns, init, env);
    case If(cond, thn, els) =>
      UntestedExpr(l, cs, ns, cond, env);
      var c := Eval(l, cs, cond, env);
      if c.Normal? {
        UntestedBlock(l, cs, ns, thn, c.env);
        if cond.Let? {
          var b := UntestedMatch(l, cs, ns, cond.pat, c.value, c.env);
          if b.Some? { UntestedBlock(l, cs, ns, thn, c.env + b.value); }
        }
        if els.Some? { UntestedExpr(l, cs, ns, els.value, c.env); }
      }
    case _ =>
  }

  lemma UntestedMatch(l: Meaning, cs: set<Name>, ns: set<Name>, p: Pattern, v: Value, env: Env) returns (b: Option<Env>)
    requires Plains(p) !! ns
    ensures b == Match(l, cs, p, v, env) == Match(l, cs + ns, p, v, env)
  {
    assert (cs + ns) * Plains(p) == cs * Plains(p);
    b := Match(l, cs, p, v, env);
  }

  lemma {:induction false} UntestedBlock(l: Meaning, cs: set<Name>, ns: set<Name>, b: Block, env: Env)
    requires TestsStmts(b.stmts) !! ns
    ensures EvalBlock(l, cs + ns, b, env) == EvalBlock(l, cs, b, env)
    decreases b, 0
  {
    var consts := Consts(b.stmts);
    assert (cs + ns) + consts == (cs + consts) + ns;
    UntestedStmts(l, cs + consts, ns, b.stmts, Hoist(b.stmts, env));
  }

  lemma {:induction false} UntestedStmts(l: Meaning, cs: set<Name>, ns: set<Name>, ss: seq<Stmt>, env: Env)
    requires TestsStmts(ss) !! ns
    ensures EvalStmts(l, cs + ns, ss, env) == EvalStmts(l, cs, ss, env)
    decreases ss, 0
  {
    if ss == [] {
    } else {
      UntestedStmt(l, cs, ns, ss[0], env);
      var o := EvalStmt(l, cs, ss[0], env);
      if o.Normal? { UntestedStmts(l, cs, ns, ss[1..], o.env); }
    }
  }

  lemma {:induction false} UntestedStmt(l: Meaning, cs: set<Name>, ns: set<Name>, s: Stmt, env: Env)
    requires TestsStmt(s) !! ns
    ensures EvalStmt(l, cs + ns, s, env) == EvalStmt(l, cs, s, env)
    decreases s, 0
  {
    match s
    case ExprStmt(e, _) => UntestedExpr(l, cs, ns, e, env);
    case Local(_, init) => UntestedExpr(l, cs, ns, init, env);
    case OtherStmt(leaf) => assert (cs + ns) * leaf.tests == cs * leaf.tests;
    case Const(_, _) =>
  }

  lemma {:induction false} UntestedFor(l: Meaning, cs: set<Name>, ns: set<Name>, lab: Option<Label>, pat: Pattern, body: Block, vs: seq<Value>, env: Env)
    requires TestsStmts(body.stmts) !! ns
    ensures EvalFor(l, cs + ns, lab, pat, body, vs, env) == EvalFor(l, cs, lab, pat, body, vs, env)
    decreases body, 2, |vs|
  {
    if vs == [] {
    } else {
      UntestedBlock(l, cs, ns, body, env + BindOne(l, pat, vs[0], env));
      UntestedFor(l, cs, ns, lab, pat, body, vs[1..], EvalPass(l, cs, pat, body, vs[0], env).env);
    }
  }

  // ---------------------------------------------------------------- unrolling keeps the meaning

  lemma {:induction false} UnrollStmtsShape(ss: seq<Stmt>)
    ensures |UnrollStmts(ss)| == |ss|
    ensures forall env :: Hoist(UnrollStmts(ss), env) == Hoist(ss, env)
    ensures Consts(UnrollStmts(ss)) == Consts(ss)
  {
    if ss == [] {
    } else {
      UnrollStmtsShape(ss[1..]);
      var r := UnrollStmts(ss);
      assert r[1..] == UnrollStmts(ss[1..]);
      ConstsSplit(r);
      ConstsSplit(ss);
    }
  }

  lemma ConstsSplit(ss: seq<Stmt>)
    requires ss != []
    ensures Consts(ss) == (if ss[0].Const? then {ss[0].name} else {}) + Consts(ss[1..])
  {
    assert ss == [ss[0]] + ss[1..];
  }

  /** Unrolling keeps the outcome of every safe program in which no pattern names the variable of an
      unrolled loop: the same value, the same bindings, the same way of ending, from every
      environment and for every meaning of the leaves. The variables `ns` of the unrolled loops
      outside have become constants. */
  lemma {:induction false} UnrollKeepsMeaning(l: Meaning, cs: set<Name>, ns: set<Name>, e: Expr, env: Env)
    requires Safe(e) && Rebindless(e, ns)
    ensures Eval(l, cs + ns, Unroll(e), env) == Eval(l, cs, e, env)
    decreases e, 0
  {
    match e
    case ForLoop(lab, pat, iter, body) =>
      if Bounds(pat, iter).Some? {
        UnrolledLoop(l, cs, ns, lab, pat, iter, body, env);
      } else if LiteralRange(iter) {
        ForKeepsMeaning(l, cs, ns, lab, pat, body, Count(iter.start.value.value, iter.end.value.value + One(iter.closed)), env);
      } else {
        assert (cs + ns) * Tests(iter) == cs * Tests(iter);
        var (_, vs, env1) := l.items(iter, cs * Tests(iter), env);
        ForKeepsMeaning(l, cs, ns, lab, pat, body, vs, env1);
      }
    case BlockExpr(lab, block) => BlockKeepsMeaning(l, cs, ns, block, env);
    case Unsafe(block) => BlockKeepsMeaning(l, cs, ns, block, env);
    case Let(pat, init) => UnrollKeepsMeaning(l, cs, ns, init, env);
    case If(cond, thn, els) =>
      UnrollKeepsMeaning(l, cs, ns, cond, env);
      var c := Eval(l, cs, cond, env);
      if c.Normal? {
        BlockKeepsMeaning(l, cs, ns, thn, c.env);
        if cond.Let? {
          var b := UntestedMatch(l, cs, ns, cond.pat, c.value, c.env);
          if b.Some? { BlockKeepsMeaning(l, cs, ns, thn, c.env + b.value); }
        }
        if els.Some? { UnrollKeepsMeaning(l, cs, ns, els.value, c.env); }
      }
    case _ => UntestedExpr(l, cs, ns, e, env);
  }

  lemma {:induction false} BlockKeepsMeaning(l: Meaning, cs: set<Name>, ns: set<Name>, b: Block, env: Env)
    requires SafeStmts(b.stmts) && RebindlessBlock(b, ns)
    ensures EvalBlock(l, cs + ns, UnrollBlock(b), env) == EvalBlock(l, cs, b, env)
    decreases b, 0
  {
    var consts := Consts(b.stmts);
    UnrollStmtsShape(b.stmts);
    assert (cs + ns) + consts == (cs + consts) + (ns - consts);
    StmtsKeepMeaning(l, cs + consts, ns - consts, b.stmts, Hoist(b.stmts, env));
  }

  lemma {:induction false} StmtsKeepMeaning(l: Meaning, cs: set<Name>, ns: set<Name>, ss: seq<Stmt>, env: Env)
    requires SafeStmts(ss) && RebindlessStmts(ss, ns)
    ensures EvalStmts(l, cs + ns, UnrollStmts(ss), env) == EvalStmts(l, cs, ss, env)
    decreases ss, 0
  {
    if ss == [] {
    } else {
      StmtKeepsMeaning(l, cs, ns, ss[0], env);
      UnrollStmtsShape(ss);
      var r := UnrollStmts(ss);
      assert r[0] == UnrollStmt(ss[0]) && r[1..] == UnrollStmts(ss[1..]);
      var o := EvalStmt(l, cs, ss[0], env);
      if o.Normal? { StmtsKeepMeaning(l, cs, ns, ss[1..], o.env); }
    }
  }

  lemma {:induction false} StmtKeepsMeaning(l: Meaning, cs: set<Name>, ns: set<Name>, s: Stmt, env: Env)
    requires SafeStmt(s) && RebindlessStmt(s, ns)
    ensures EvalStmt(l, cs + ns, UnrollStmt(s), env) == EvalStmt(l, cs, s, env)
    decreases s, 0
  {
    if s.ExprStmt? { UnrollKeepsMeaning(l, cs, ns, s.expr, env); } else { UntestedStmt(l, cs, ns, s, env); }
  }

  lemma {:induction false} ForKeepsMeaning(l: Meaning, cs: set<Name>, ns: set<Name>, lab: Option<Label>, pat: Pattern, body: Block, vs: seq<Value>, env: Env)
    requires SafeStmts(body.stmts) && RebindlessBlock(body, ns)
    ensures EvalFor(l, cs + ns, lab, pat, UnrollBlock(body), vs, env) == EvalFor(l, cs, lab, pat, body, vs, env)
    decreases body, 2, |vs|
  {
    if vs == [] {
    } else {
      BlockKeepsMeaning(l, cs, ns, body, env + BindOne(l, pat, vs[0], env));
      var o := EvalPass(l, cs, pat, body, vs[0], env);
      ForKeepsMeaning(l, cs, ns, lab, pat, body, vs[1..], o.env);
    }
  }

  lemma OpenedStmts(l: Meaning, cs: set<Name>, name: Name, i: nat, ss: seq<Stmt>, env: Env)
    ensures var all := [Const(name, i)] + ss;
            && EvalStmts(l, cs, all, env) == EvalStmts(l, cs, ss, env)
            && Hoist(all, env) == Hoist(ss, env + [(name, Num(i))])
            && Consts(all) == {name} + Consts(ss)
  {
    var all := [Const(name, i)] + ss;
    assert all[0] == Const(name, i) && all[1..] == ss;
    ConstsSplit(all);
  }

  /** A copy of the body does what one pass of the loop does where the loop variable is a constant. */
  lemma CopyIsPass(l: Meaning, cs: set<Name>, pat: Pattern, body: Block, i: nat, env: Env)
    requires Plain(pat)
    ensures EvalStmt(l, cs, Copy(pat.name, body, i), env) == EvalPass(l, cs + {pat.name}, pat, body, Num(i), env)
  {
    var ss := [Const(pat.name, i)] + body.stmts;
    var inner := env + [(pat.name, Num(i))];
    var consts := cs + Consts(ss);
    OpenedStmts(l, consts, pat.name, i, body.stmts, env);
    OpenedStmts(l, consts, pat.name, i, body.stmts, Hoist(ss, env));
    assert consts == (cs + {pat.name}) + Consts(body.stmts);
    var o := EvalStmts(l, consts, body.stmts, Hoist(body.stmts, inner));
    assert EvalBlock(l, cs, Block(ss), env) == CutOutcome(o, |env|);
    assert Cut(Cut(o.env, |inner|), |env|) == Cut(o.env, |env|);
    assert Eval(l, cs, BlockExpr(None, Block(ss)), env) == EvalBlock(l, cs, Block(ss), env);
  }

  lemma {:induction false} CopiesHoistNothing(name: Name, body: Block, lo: nat, hi: nat, env: Env)
    ensures var copies := Copies(name, body, lo, hi); Consts(copies) == {} && Hoist(copies, env) == env
    decreases hi - lo
  {
    if lo >= hi {
    } else {
      CopiesHoistNothing(name, body, lo + 1, hi, env);
      assert Copies(name, body, lo, hi)[1..] == Copies(name, body, lo + 1, hi);
    }
  }

  /** A pass of the loop ends in an uncaught jump. */
  predicate Stray(l: Meaning, cs: set<Name>, lab: Option<Label>, pat: Pattern, body: Block, vs: seq<Value>, env: Env)
    decreases |vs|
  {
    if vs == [] then false
    else
      var o := EvalPass(l, cs, pat, body, vs[0], env);
      if o.Normal? then Stray(l, cs, lab, pat, body, vs[1..], o.env)
      else o.Jumped? && Uncaught(o.jump, lab)
  }

  lemma {:induction false} SafeIsNotStray(l: Meaning, cs: set<Name>, lab: Option<Label>, pat: Pattern, iter: Expr, body: Block, vs: seq<Value>, env: Env)
    requires SafeLoop(lab, iter, body)
    ensures !Stray(l, cs, lab, pat, body, vs, env)
    decreases |vs|
  {
    if vs == [] {
    } else {
      JumpsInBlock(l, cs, body, env + BindOne(l, pat, vs[0], env));
      SafeIsNotStray(l, cs, lab, pat, iter, body, vs[1..], EvalPass(l, cs, pat, body, vs[0], env).env);
    }
  }

  lemma CopiesSplit(name: Name, body: Block, lo: nat, hi: nat)
    requires lo < hi
    ensures var copies := Copies(name, body, lo, hi);
            && copies[0] == Copy(name, body, lo) && copies[1..] == Copies(name, body, lo + 1, hi)
            && (|copies| == 1 <==> lo + 1 >= hi)
    ensures Count(lo, hi)[0] == Num(lo) && Count(lo, hi)[1..] == Count(lo + 1, hi)
  {
  }

  /** The copies, run one after the other, do what the passes of the original loop do, and leave
      no binding behind, unless a pass ends in an uncaught jump, and then so do they. */
  lemma {:induction false} CopiesArePasses(l: Meaning, cs: set<Name>, ns: set<Name>, lab: Option<Label>, pat: Pattern, body: Block, lo: nat, hi: nat, env: Env)
    requires Plain(pat) && SafeStmts(body.stmts) && UnitBlock(body)
    requires lo < hi ==> RebindlessBlock(body, ns + {pat.name})
    ensures var o := EvalStmts(l, cs + ns, Copies(pat.name, UnrollBlock(body), lo, hi), env);
            && |o.env| <= |env|
            && if Stray(l, cs, lab, pat, body, Count(lo, hi), env) then o.Jumped? && Uncaught(o.jump, lab)
               else CatchBreak(o, lab) == EvalFor(l, cs, lab, pat, body, Count(lo, hi), env)
    decreases body, 3, hi - lo
  {
    if lo >= hi {
    } else {
      var newBody := UnrollBlock(body);
      PassKept(l, cs, ns, pat, body, lo, env);
      UnitBlockValue(l, cs, body, env + BindOne(l, pat, Num(lo), env));
      CopiesSplit(pat.name, newBody, lo, hi);
      CopiesArePasses(l, cs, ns, lab, pat, body, lo + 1, hi, EvalPass(l, cs, pat, body, Num(lo), env).env);
    }
  }

  lemma {:induction false} PassKept(l: Meaning, cs: set<Name>, ns: set<Name>, pat: Pattern, body: Block, i: nat, env: Env)
    requires Plain(pat) && SafeStmts(body.stmts) && RebindlessBlock(body, ns + {pat.name})
    ensures EvalStmt(l, cs + ns, Copy(pat.name, UnrollBlock(body), i), env) == EvalPass(l, cs, pat, body, Num(i), env)
    decreases body, 2
  {
    CopyIsPass(l, cs + ns, pat, UnrollBlock(body), i, env);
    assert (cs + ns) + {pat.name} == cs + (ns + {pat.name});
    BlockKeepsMeaning(l, cs, ns + {pat.name}, body, env + BindOne(l, pat, Num(i), env));
  }

  /** The exact condition, for every loop that the macro unrolls whose bounds are written, whose body
      is of type `()` and safe inside and has no pattern that names the loop variable: the block that
      replaces the loop does what the loop does if and only if no pass ends in a plain `break`, a
      plain `continue` or a `continue` of the loop's label. */
  lemma {:induction false} UnrolledLoopExact(l: Meaning, cs: set<Name>, ns: set<Name>, lab: Option<Label>, pat: Pattern, iter: Expr, body: Block, lo: nat, hi: nat, env: Env)
    requires LiteralRange(iter) && Bounds(pat, iter) == Some((lo, hi)) && SafeStmts(body.stmts) && UnitBlock(body)
    requires lo < hi ==> RebindlessBlock(body, ns + {pat.name})
    ensures Eval(l, cs + ns, Unroll(ForLoop(lab, pat, iter, body)), env) == Eval(l, cs, ForLoop(lab, pat, iter, body), env)
            <==> !Stray(l, cs, lab, pat, body, Count(lo, hi), env)
    decreases body, 4
  {
    var copies := Copies(pat.name, UnrollBlock(body), lo, hi);
    CopiesArePasses(l, cs, ns, lab, pat, body, lo, hi, env);
    CopiesHoistNothing(pat.name, UnrollBlock(body), lo, hi, env);
    assert (cs + ns) + {} == cs + ns;
    var o := EvalStmts(l, cs + ns, copies, env);
    assert Cut(o.env, |env|) == o.env;
    assert EvalBlock(l, cs + ns, Block(copies), env) == o;
    JumpsInFor(l, cs, lab, pat, body, Count(lo, hi), env);
  }

  lemma {:induction false} UnrolledLoop(l: Meaning, cs: set<Name>, ns: set<Name>, lab: Option<Label>, pat: Pattern, iter: Expr, body: Block, env: Env)
    requires Bounds(pat, iter).Some? && SafeStmts(body.stmts) && SafeLoop(lab, iter, body)
    requires Rebindless(ForLoop(lab, pat, iter, body), ns)
    ensures Eval(l, cs + ns, Unroll(ForLoop(lab, pat, iter, body)), env) == Eval(l, cs, ForLoop(lab, pat, iter, body), env)
    decreases body, 5
  {
    var (lo, hi) := Bounds(pat, iter).value;
    SafeIsNotStray(l, cs, lab, pat, iter, body, Count(lo, hi), env);
    UnrolledLoopExact(l, cs, ns, lab, pat, iter, body, lo, hi, env);
  }

  // ---------------------------------------------------------------- loops of one jump

  function JumpLoop(lab: Option<Label>, lo: nat, hi: nat, jump: Expr): Expr {
    ForLoop(lab, Ident("i", false, false, None), Range(Some(Lit(lo)), false, Some(Lit(hi))), Block([ExprStmt(jump, true)]))
  }

  lemma JumpBlock(l: Meaning, cs: set<Name>, jump: Expr, env: Env)
    requires jump.Break? || jump.Continue?
    ensures EvalBlock(l, cs, Block([ExprStmt(jump, true)]), env) == Eval(l, cs, jump, env)
  {
    var ss := [ExprStmt(jump, true)];
    var inner := cs + Consts(ss);
    assert Hoist(ss, env) == Hoist(ss[1..], env) && ss[1..] == [];
    assert EvalStmt(l, inner, ss[0], env) == Eval(l, cs, jump, env);
    assert EvalStmts(l, inner, ss, env) == Eval(l, cs, jump, env);
    assert Cut(env, |env|) == env;
  }

  /** So for a loop whose body is a single jump, unrolling keeps the meaning exactly when the jump is
      none of the three. */
  lemma JumpLoopExact(l: Meaning, cs: set<Name>, lab: Option<Label>, lo: nat, hi: nat, jump: Expr, env: Env)
    requires lo < hi && (jump.Break? || jump.Continue?)
    ensures var e := JumpLoop(lab, lo, hi, jump);
            Eval(l, cs, Unroll(e), env) == Eval(l, cs, e, env)
            <==> jump != Break(None) && jump != Continue(None) && jump != Continue(lab)
  {
    var e := JumpLoop(lab, lo, hi, jump);
    var inner := env + [("i", Num(lo))];
    var ss := e.body.stmts;
    assert ss[1..] == [] && SafeStmt(ss[0]) && SafeStmts(ss[1..]);
    assert RebindlessStmt(ss[0], {"i"} - Consts(ss)) && RebindlessStmts(ss[1..], {"i"} - Consts(ss));
    JumpBlock(l, cs, jump, inner);
    assert EvalPass(l, cs, e.pat, e.body, Num(lo), env) == Eval(l, cs, jump, env) by { assert inner[..|env|] == env; }
    CopiesSplit("i", e.body, lo, hi);
    assert cs + {} == cs && {} + {"i"} == {"i"};
    UnrolledLoopExact(l, cs, {}, lab, e.pat, e.iter, e.body, lo, hi, env);
  }
}
