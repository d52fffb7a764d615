/**
 The part of Rust's syntax tree that the `unroll_for_loops` attribute looks at, and the rewriting
 it performs. Everything the macro clones without looking inside is an `Other` leaf, of which only
 the jumps out of it and the names in its patterns are known.

 Names in patterns come in two kinds. A plain identifier stands for a constant if one of that name
 is in scope and binds a variable otherwise. An identifier with `ref`, `mut` or `@` always binds.
 */
module UnrollSyntax {
  import opened Collections

  type Name = string
  type Label = string

  datatype Jump = BreakTo(target: Option<Label>) | ContinueTo(target: Option<Label>)

  datatype Pattern =
    | Ident(name: Name, byRef: bool, mutable: bool, subpattern: Option<Pattern>)
    | OtherPattern(id: nat, plain: set<Name>, marked: set<Name>)

  /** What is known of a leaf: the jumps out of it, the plain identifiers in its refutable patterns,
      and all other names that its patterns bind. */
  datatype Leaf = Leaf(id: nat, jumps: set<Jump>, tests: set<Name>, binds: set<Name>)

  datatype Expr =
    | Lit(value: nat)
    | Range(start: Option<Expr>, closed: bool, end: Option<Expr>)
    | ForLoop(lab: Option<Label>, pat: Pattern, iter: Expr, body: Block)
    | If(cond: Expr, thn: Block, els: Option<Expr>)
    | Let(pat: Pattern, init: Expr)
    | BlockExpr(lab: Option<Label>, block: Block)
    | Unsafe(block: Block)
    | Break(lab: Option<Label>)
    | Continue(lab: Option<Label>)
    | Other(leaf: Leaf, unit: bool)

  datatype Block = Block(stmts: seq<Stmt>)

  datatype Stmt =
    | ExprStmt(expr: Expr, semi: bool)
    | Local(pat: Pattern, init: Expr)
    | Const(name: Name, value: nat)
    | OtherStmt(leaf: Leaf)

  predicate Plain(p: Pattern) {
    p.Ident? && !p.byRef && !p.mutable && p.subpattern.None?
  }

  /** The half-open interval a loop is unrolled over, if the macro unrolls it. */
  function Bounds(pat: Pattern, iter: Expr): Option<(nat, nat)> {
    if Plain(pat) && iter.Range? && (iter.start.None? || iter.start.value.Lit?) && iter.end.Some? && iter.end.value.Lit? then
      Some((if iter.start.Some? then iter.start.value.value else 0, iter.end.value.value + One(iter.closed)))
    else None
  }

  /** One copy of the body for each index, each in a block that opens with the index as a constant. */
  function Copies(name: Name, body: Block, lo: nat, hi: nat): seq<Stmt>
    decreases hi - lo
  {
    if lo >= hi then []
    else [Copy(name, body, lo)] + Copies(name, body, lo + 1, hi)
  }

  function Copy(name: Name, body: Block, i: nat): Stmt {
    ExprStmt(BlockExpr(None, Block([Const(name, i)] + body.stmts)), false)
  }

  function Unroll(e: Expr): Expr
    decreases e
  {
    match e
    case ForLoop(lab, pat, iter, body) =>
      var newBody := UnrollBlock(body);
      (match Bounds(pat, iter)
       case None => ForLoop(lab, pat, iter, newBody)
       case Some((lo, hi)) => BlockExpr(lab, Block(Copies(pat.name, newBody, lo, hi))))
    case If(cond, thn, els) =>
      If(Unroll(cond), UnrollBlock(thn), if els.Some? then Some(Unroll(els.value)) else None)
    case Let(pat, init) => Let(pat, Unroll(init))
    case BlockExpr(lab, block) => BlockExpr(lab, UnrollBlock(block))
    case Unsafe(block) => Unsafe(UnrollBlock(block))
    case _ => e
  }

  function UnrollBlock(b: Block): Block
    decreases b
  {
    Block(UnrollStmts(b.stmts))
  }

  function UnrollStmts(ss: seq<Stmt>): seq<Stmt>
    decreases ss
  {
    if ss == [] then [] else [UnrollStmt(ss[0])] + UnrollStmts(ss[1..])
  }

  /** Only expression statements are entered; `let` statements and items are cloned. */
  function UnrollStmt(s: Stmt): Stmt
    decreases s
  {
    if s.ExprStmt? then ExprStmt(Unroll(s.expr), s.semi) else s
  }

  // ---------------------------------------------------------------- a second pass changes nothing

  lemma {:induction false} UnrollStmtsConcat(a: seq<Stmt>, b: seq<Stmt>)
    ensures UnrollStmts(a + b) == UnrollStmts(a) + UnrollStmts(b)
  {
    if a == [] {
      assert a + b == b;
    } else {
      assert (a + b)[0] == a[0] && (a + b)[1..] == a[1..] + b;
      UnrollStmtsConcat(a[1..], b);
    }
  }

  lemma {:induction false} CopiesStable(name: Name, body: Block, lo: nat, hi: nat)
    requires UnrollBlock(body) == body
    ensures UnrollStmts(Copies(name, body, lo, hi)) == Copies(name, body, lo, hi)
    decreases hi - lo
  {
    if lo >= hi {
    } else {
      CopiesStable(name, body, lo + 1, hi);
      var inner := [Const(name, lo)] + body.stmts;
      UnrollStmtsConcat([Const(name, lo)], body.stmts);
      assert UnrollStmts([Const(name, lo)]) == [Const(name, lo)];
      assert UnrollStmts(inner) == inner;
      assert Unroll(BlockExpr(None, Block(inner))) == BlockExpr(None, UnrollBlock(Block(inner)));
      assert UnrollStmt(Copy(name, body, lo)) == Copy(name, body, lo);
      UnrollStmtsConcat([Copy(name, body, lo)], Copies(name, body, lo + 1, hi));
    }
  }

  /** Unrolling twice equals unrolling once, for every expression. */
  lemma {:induction false} UnrollIdempotent(e: Expr)
    ensures Unroll(Unroll(e)) == Unroll(e)
    decreases e
  {
    match e
    case ForLoop(lab, pat, iter, body) =>
      UnrollBlockIdempotent(body);
      if Bounds(pat, iter).Some? {
        var (lo, hi) := Bounds(pat, iter).value;
        CopiesStable(pat.name, UnrollBlock(body), lo, hi);
      }
    case If(cond, thn, els) =>
      UnrollIdempotent(cond);
      UnrollBlockIdempotent(thn);
      if els.Some? { UnrollIdempotent(els.value); }
    case Let(pat, init) => UnrollIdempotent(init);
    case BlockExpr(lab, block) => UnrollBlockIdempotent(block);
    case Unsafe(block) => UnrollBlockIdempotent(block);
    case _ =>
  }

  lemma {:induction false} UnrollBlockIdempotent(b: Block)
    ensures UnrollBlock(UnrollBlock(b)) == UnrollBlock(b)
    decreases b
  {
    UnrollStmtsIdempotent(b.stmts);
  }

  lemma {:induction false} UnrollStmtsIdempotent(ss: seq<Stmt>)
    ensures UnrollStmts(UnrollStmts(ss)) == UnrollStmts(ss)
    decreases ss
  {
    if ss == [] {
    } else {
      UnrollStmtIdempotent(ss[0]);
      UnrollStmtsIdempotent(ss[1..]);
      var r := UnrollStmts(ss);
      assert r[0] == UnrollStmt(ss[0]) && r[1..] == UnrollStmts(ss[1..]);
    }
  }

  lemma {:induction false} UnrollStmtIdempotent(s: Stmt)
    ensures UnrollStmt(UnrollStmt(s)) == UnrollStmt(s)
    decreases s
  {
    if s.ExprStmt? { UnrollIdempotent(s.expr); }
  }

  // ---------------------------------------------------------------- bounds that fit

  const USIZE_LIMIT: nat := 0x1_0000_0000_0000_0000

  /** The bounds the macro parses fit in a `usize`; otherwise its `expect` panics. */
  predicate BoundsFit(pat: Pattern, iter: Expr) {
    Plain(pat) && iter.Range? ==>
      && (iter.start.Some? && iter.start.value.Lit? ==> iter.start.value.value < USIZE_LIMIT)
      && ((iter.start.None? || iter.start.value.Lit?) && iter.end.Some? && iter.end.value.Lit? ==>
            iter.end.value.value + One(iter.closed) < USIZE_LIMIT)
  }

  predicate Fits(e: Expr)
    decreases e
  {
    match e
    case ForLoop(_, pat, iter, body) => FitsStmts(body.stmts) && BoundsFit(pat, iter)
    case If(cond, thn, els) => Fits(cond) && FitsStmts(thn.stmts) && (els.Some? ==> Fits(els.value))
    case Let(_, init) => Fits(init)
    case BlockExpr(_, block) => FitsStmts(block.stmts)
    case Unsafe(block) => FitsStmts(block.stmts)
    case _ => true
  }

  predicate FitsStmts(ss: seq<Stmt>)
    decreases ss
  {
    ss == [] || (FitsStmt(ss[0]) && FitsStmts(ss[1..]))
  }

  predicate FitsStmt(s: Stmt)
    decreases s
  {
    s.ExprStmt? ==> Fits(s.expr)
  }

  // ---------------------------------------------------------------- the loops the macro meets

  /** The loops at the places that the macro enters. */
  function Loops(e: Expr): set<Expr>
    decreases e
  {
    match e
    case ForLoop(_, _, _, body) => {e} + LoopsInStmts(body.stmts)
    case If(cond, thn, els) => Loops(cond) + LoopsInStmts(thn.stmts) + (if els.Some? then Loops(els.value) else {})
    case Let(_, init) => Loops(init)
    case BlockExpr(_, block) => LoopsInStmts(block.stmts)
    case Unsafe(block) => LoopsInStmts(block.stmts)
    case _ => {}
  }

  function LoopsInStmts(ss: seq<Stmt>): set<Expr>
    decreases ss
  {
    if ss == [] then {} else LoopsInStmt(ss[0]) + LoopsInStmts(ss[1..])
  }

  function LoopsInStmt(s: Stmt): set<Expr>
    decreases s
  {
    if s.ExprStmt? then Loops(s.expr) else {}
  }

  predicate IsLit(e: Option<Expr>) { e.Some? && e.value.Lit? }

  /** A loop over a plain name and a range whose start, if it has one, is a literal. */
  predicate Counted(loop: Expr) {
    && loop.ForLoop? && loop.pat.Ident? && !loop.pat.byRef && !loop.pat.mutable && loop.pat.subpattern == None
    && loop.iter.Range? && (loop.iter.start.None? || IsLit(loop.iter.start))
  }

  /** A loop that is to be unrolled: its end is a literal too, whether it is included or not. */
  predicate Literal(loop: Expr) { Counted(loop) && IsLit(loop.iter.end) }

  /** A literal bound of the loop does not fit 64 bits, or the number behind an included end does not. */
  predicate TooLarge(loop: Expr) {
    && Counted(loop)
    && (|| (IsLit(loop.iter.start) && loop.iter.start.value.value >= 0x1_0000_0000_0000_0000)
        || (IsLit(loop.iter.end) && loop.iter.end.value.value + One(loop.iter.closed) >= 0x1_0000_0000_0000_0000))
  }

  ghost predicate AnyTooLarge(loops: set<Expr>) { exists loop :: loop in loops && TooLarge(loop) }

  lemma AnyOfTwo(a: set<Expr>, b: set<Expr>)
    ensures AnyTooLarge(a + b) <==> AnyTooLarge(a) || AnyTooLarge(b)
  {
    if AnyTooLarge(a + b) {
      var loop :| loop in a + b && TooLarge(loop);
      assert loop in a || loop in b;
    }
    if AnyTooLarge(a) { var loop :| loop in a && TooLarge(loop); assert loop in a + b; }
    if AnyTooLarge(b) { var loop :| loop in b && TooLarge(loop); assert loop in a + b; }
  }

  /** The macro panics exactly if it meets a loop with a bound that is too large. */
  lemma {:induction false} FitsExact(e: Expr)
    ensures Fits(e) <==> !AnyTooLarge(Loops(e))
    decreases e
  {
    match e
    case ForLoop(_, pat, iter, body) =>
      FitsStmtsExact(body.stmts);
      AnyOfTwo({e}, LoopsInStmts(body.stmts));
      assert e in {e};
    case If(cond, thn, els) =>
      FitsExact(cond);
      FitsStmtsExact(thn.stmts);
      AnyOfTwo(Loops(cond), LoopsInStmts(thn.stmts));
      if els.Some? { FitsExact(els.value); }
      AnyOfTwo(Loops(cond) + LoopsInStmts(thn.stmts), if els.Some? then Loops(els.value) else {});
    case Let(_, init) => FitsExact(init);
    case BlockExpr(_, block) => FitsStmtsExact(block.stmts);
    case Unsafe(block) => FitsStmtsExact(block.stmts);
    case _ =>
  }

  lemma {:induction false} FitsStmtsExact(ss: seq<Stmt>)
    ensures FitsStmts(ss) <==> !AnyTooLarge(LoopsInStmts(ss))
    decreases ss
  {
    if ss == [] {
    } else {
      FitsStmtExact(ss[0]);
      FitsStmtsExact(ss[1..]);
      AnyOfTwo(LoopsInStmt(ss[0]), LoopsInStmts(ss[1..]));
    }
  }

  lemma {:induction false} FitsStmtExact(s: Stmt)
    ensures FitsStmt(s) <==> !AnyTooLarge(LoopsInStmt(s))
    decreases s
  {
    if s.ExprStmt? { FitsExact(s.expr); }
  }

  ghost predicate NoLiteral(loops: set<Expr>) { forall loop :: loop in loops ==> !Literal(loop) }

  lemma {:induction false} CopiesLoops(name: Name, body: Block, lo: nat, hi: nat)
    ensures LoopsInStmts(Copies(name, body, lo, hi)) == if lo < hi then LoopsInStmts(body.stmts) else {}
    decreases hi - lo
  {
    if lo >= hi {
    } else {
      CopiesLoops(name, body, lo + 1, hi);
      var inner := [Const(name, lo)] + body.stmts;
      assert inner[0] == Const(name, lo) && inner[1..] == body.stmts;
      assert LoopsInStmts(inner) == LoopsInStmts(body.stmts);
      assert Loops(BlockExpr(None, Block(inner))) == LoopsInStmts(inner);
      assert Copies(name, body, lo, hi)[0] == Copy(name, body, lo);
      assert Copies(name, body, lo, hi)[1..] == Copies(name, body, lo + 1, hi);
    }
  }

  /** No loop with a plain name and literal bounds is left at any place the macro enters. */
  lemma {:induction false} NoLoopLeft(e: Expr)
    ensures NoLiteral(Loops(Unroll(e)))
    decreases e
  {
    match e
    case ForLoop(lab, pat, iter, body) =>
      NoLoopLeftInStmts(body.stmts);
      if Bounds(pat, iter).Some? {
        var (lo, hi) := Bounds(pat, iter).value;
        CopiesLoops(pat.name, UnrollBlock(body), lo, hi);
      }
    case If(cond, thn, els) =>
      NoLoopLeft(cond);
      NoLoopLeftInStmts(thn.stmts);
      if els.Some? { NoLoopLeft(els.value); }
    case Let(_, init) => NoLoopLeft(init);
    case BlockExpr(_, block) => NoLoopLeftInStmts(block.stmts);
    case Unsafe(block) => NoLoopLeftInStmts(block.stmts);
    case _ =>
  }

  lemma {:induction false} NoLoopLeftInStmts(ss: seq<Stmt>)
    ensures NoLiteral(LoopsInStmts(UnrollStmts(ss)))
    decreases ss
  {
    if ss == [] {
    } else {
      NoLoopLeftInStmt(ss[0]);
      NoLoopLeftInStmts(ss[1..]);
      assert UnrollStmts(ss)[0] == UnrollStmt(ss[0]) && UnrollStmts(ss)[1..] == UnrollStmts(ss[1..]);
    }
  }

  lemma {:induction false} NoLoopLeftInStmt(s: Stmt)
    ensures NoLiteral(LoopsInStmt(UnrollStmt(s)))
    decreases s
  {
    if s.ExprStmt? { NoLoopLeft(s.expr); }
  }

  /** A program without such loops is left as it is. */
  lemma {:induction false} NothingToUnroll(e: Expr)
    requires NoLiteral(Loops(e))
    ensures Unroll(e) == e
    decreases e
  {
    match e
    case ForLoop(_, pat, iter, body) =>
      assert e in Loops(e);
      NothingToUnrollStmts(body.stmts);
    case If(cond, thn, els) =>
      NothingToUnroll(cond);
      NothingToUnrollStmts(thn.stmts);
      if els.Some? { NothingToUnroll(els.value); }
    case Let(_, init) => NothingToUnroll(init);
    case BlockExpr(_, block) => NothingToUnrollStmts(block.stmts);
    case Unsafe(block) => NothingToUnrollStmts(block.stmts);
    case _ =>
  }

  lemma {:induction false} NothingToUnrollStmts(ss: seq<Stmt>)
    requires NoLiteral(LoopsInStmts(ss))
    ensures UnrollStmts(ss) == ss
    decreases ss
  {
    if ss == [] {
    } else {
      NothingToUnrollStmt(ss[0]);
      NothingToUnrollStmts(ss[1..]);
    }
  }

  lemma {:induction false} NothingToUnrollStmt(s: Stmt)
    requires NoLiteral(LoopsInStmt(s))
    ensures UnrollStmt(s) == s
    decreases s
  {
    if s.ExprStmt? { NothingToUnroll(s.expr); }
  }

  /** The macro leaves a program as it is if and only if it has no loop with a plain name and literal
      bounds at a place the macro enters. */
  lemma UnchangedExact(e: Expr)
    ensures Unroll(e) == e <==> NoLiteral(Loops(e))
  {
    NoLoopLeft(e);
    if NoLiteral(Loops(e)) { NothingToUnroll(e); }
  }

  lemma {:induction false} CopiesAt(name: Name, body: Block, lo: nat, hi: nat, i: nat)
    ensures |Copies(name, body, lo, hi)| == if lo < hi then hi - lo else 0
    ensures lo + i < hi ==> Copies(name, body, lo, hi)[i] == Copy(name, body, lo + i)
    decreases hi - lo
  {
    if lo >= hi {
    } else {
      CopiesAt(name, body, lo + 1, hi, if i == 0 then 0 else i - 1);
    }
  }

  /** A loop with literal bounds becomes a block under the same label with one block for each index from
      the start, or zero, to the end, included or not; the block of an index declares the index and
      then has the statements of the body, unrolled. */
  lemma LoopBecomes(loop: Expr, i: nat)
    requires Literal(loop)
    ensures var from := if loop.iter.start.Some? then loop.iter.start.value.value else 0;
            var to := loop.iter.end.value.value + One(loop.iter.closed);
            && Unroll(loop).BlockExpr? && Unroll(loop).lab == loop.lab
            && var ss := Unroll(loop).block.stmts;
               && |ss| == (if from < to then to - from else 0)
               && (i < |ss| ==> ss[i] == ExprStmt(BlockExpr(None, Block([Const(loop.pat.name, from + i)] + UnrollStmts(loop.body.stmts))), false))
  {
    var (lo, hi) := Bounds(loop.pat, loop.iter).value;
    CopiesAt(loop.pat.name, UnrollBlock(loop.body), lo, hi, i);
  }

  // ---------------------------------------------------------------- the macro's own code

  lemma {:induction false} UnrollStmtsSnoc(ss: seq<Stmt>, s: Stmt)
    ensures UnrollStmts(ss + [s]) == UnrollStmts(ss) + [UnrollStmt(s)]
    ensures FitsStmts(ss + [s]) == (FitsStmts(ss) && FitsStmt(s))
  {
    if ss == [] {
      assert ss + [s] == [s];
    } else {
      assert (ss + [s])[0] == ss[0] && (ss + [s])[1..] == ss[1..] + [s];
      UnrollStmtsSnoc(ss[1..], s);
    }
  }

  lemma {:induction false} FitsPrefix(ss: seq<Stmt>, n: nat)
    requires n <= |ss| && FitsStmts(ss)
    ensures FitsStmts(ss[..n])
  {
    if n == 0 {
    } else {
      assert ss[..n][0] == ss[0] && ss[..n][1..] == ss[1..][..n - 1];
      FitsPrefix(ss[1..], n - 1);
    }
  }

  lemma {:induction false} CopiesSnoc(name: Name, body: Block, lo: nat, hi: nat)
    requires lo <= hi
    ensures Copies(name, body, lo, hi + 1) == Copies(name, body, lo, hi) + [Copy(name, body, hi)]
    decreases hi - lo
  {
    if lo >= hi {
    } else {
      CopiesSnoc(name, body, lo + 1, hi);
    }
  }

  /** The statement loop of the macro. `None` is the panic of a bound that does not fit. */
  method UnrollInBlock(b: Block) returns (r: Option<Block>)
    ensures r == if FitsStmts(b.stmts) then Some(UnrollBlock(b)) else None
    ensures r.None? <==> AnyTooLarge(LoopsInStmts(b.stmts))
    decreases b
  {
    FitsStmtsExact(b.stmts);
    var newStmts: seq<Stmt> := [];
    for i := 0 to |b.stmts|
      invariant FitsStmts(b.stmts[..i]) && newStmts == UnrollStmts(b.stmts[..i])
    {
      var stmt := b.stmts[i];
      assert b.stmts[..i + 1] == b.stmts[..i] + [stmt];
      UnrollStmtsSnoc(b.stmts[..i], stmt);
      if stmt.ExprStmt? {
        var e := UnrollExpr(stmt.expr);
        if e.None? {
          if FitsStmts(b.stmts) { FitsPrefix(b.stmts, i + 1); }
          return None;
        }
        newStmts := newStmts + [ExprStmt(e.value, stmt.semi)];
      } else {
        newStmts := newStmts + [stmt];
      }
    }
    assert b.stmts[..|b.stmts|] == b.stmts;
    r := Some(Block(newStmts));
  }

  method UnrollExpr(e: Expr) returns (r: Option<Expr>)
    ensures r == if Fits(e) then Some(Unroll(e)) else None
    ensures r.None? <==> AnyTooLarge(Loops(e))
    decreases e
  {
    FitsExact(e);
    match e
    case ForLoop(lab, pat, iter, body) =>
      var newBody := UnrollInBlock(body);
      if newBody.None? || !BoundsFit(pat, iter) { return None; }
      if Bounds(pat, iter).None? { return Some(ForLoop(lab, pat, iter, newBody.value)); }
      var (begin, end) := Bounds(pat, iter).value;
      var stmts: seq<Stmt> := [];
      var i := begin;
      while i < end
        invariant begin <= i && (i <= end || i == begin)
        invariant stmts == Copies(pat.name, newBody.value, begin, i)
      {
        CopiesSnoc(pat.name, newBody.value, begin, i);
        stmts := stmts + [Copy(pat.name, newBody.value, i)];
        i := i + 1;
      }
      r := Some(BlockExpr(lab, Block(stmts)));
    case If(cond, thn, els) =>
      var c := UnrollExpr(cond);
      if c.None? { return None; }
      var t := UnrollInBlock(thn);
      if t.None? { return None; }
      if els.None? { return Some(If(c.value, t.value, None)); }
      var f := UnrollExpr(els.value);
      r := if f.None? then None else Some(If(c.value, t.value, f));
    case Let(pat, init) =>
      var i := UnrollExpr(init);
      r := if i.None? then None else Some(Let(pat, i.value));
    case BlockExpr(lab, block) =>
      var b := UnrollInBlock(block);
      r := if b.None? then None else Some(BlockExpr(lab, b.value));
    case Unsafe(block) =>
      var b := UnrollInBlock(block);
      r := if b.None? then None else Some(Unsafe(b.value));
    case _ =>
      r := Some(e);
  }
}
