/** Initialisers without the parts that a literal decides against: they have the same value and are accepted too. */
module ConstPrune {
  import opened ConstExpr
  import opened Options

  predicate IsLogical(op: nat) {
    op == LOGAND || op == LOGOR
  }

  /** The expression without branches and right operands that a literal keeps from being evaluated. */
  function Pruned(e: Expr): Expr
    decreases e, 1
  {
    match e
    case Binary(op, l, r) => PrunedBinary(op, Pruned(l), Pruned(r))
    case Unary(op, a) => Unary(op, Pruned(a))
    case ArrayLit(es) => ArrayLit(AllPruned(es))
    case StructLit(es) => StructLit(AllPruned(es))
    case Conditional(c, t, f) => PrunedConditional(Pruned(c), Pruned(t), Pruned(f))
    case BlockExpr(b) =>
      if HasStatements(b) then e
      else if b.final == Missing && |b.exprStmts| == 1 then Pruned(b.exprStmts[0])
      else if b.final != Missing && |b.exprStmts| == 0 then Pruned(b.final)
      else e
    case Cast(a, target) => Cast(Pruned(a), target)
    case Index(a, i) => Index(Pruned(a), Pruned(i))
    case _ => e
  }

  function AllPruned(es: seq<Expr>): (r: seq<Expr>)
    ensures |r| == |es|
    decreases es, 0
  {
    if es == [] then [] else [Pruned(es[0])] + AllPruned(es[1..])
  }

  function PrunedBinary(op: nat, l: Expr, r: Expr): Expr {
    if l.Literal? && ShortCircuits(op, l.value) then Literal(Truth(l.value))
    else if IsLogical(op) && l.Literal? && r.Literal? then Literal(Truth(r.value))
    else Binary(op, l, r)
  }

  function PrunedConditional(c: Expr, t: Expr, f: Expr): Expr {
    if !c.Literal? then Conditional(c, t, f) else if c.value != Scalar(0) then t else f
  }

  // ----- The same value ------------------------------------------------------------------------------

  lemma PrunedBinarySame(sem: Semantics, op: nat, l: Expr, r: Expr, s: State)
    ensures Eval(sem, PrunedBinary(op, l, r), s) == Eval(sem, Binary(op, l, r), s)
  {
  }

  lemma PrunedConditionalSame(sem: Semantics, c: Expr, t: Expr, f: Expr, s: State)
    ensures Eval(sem, PrunedConditional(c, t, f), s) == Eval(sem, Conditional(c, t, f), s)
  {
  }

  /** Whatever the expression, accepted or not, pruning keeps its value and its effect. */
  lemma {:induction false} PrunedIsSame(sem: Semantics, e: Expr, s: State)
    ensures Eval(sem, Pruned(e), s) == Eval(sem, e, s)
    decreases e, 1
  {
    match e
    case Binary(op, l, r) =>
      PrunedIsSame(sem, l, s);
      PrunedIsSame(sem, r, Eval(sem, l, s).1);
      PrunedBinarySame(sem, op, Pruned(l), Pruned(r), s);
    case Unary(_, a) => PrunedIsSame(sem, a, s);
    case ArrayLit(es) => PrunedPartsAreSame(sem, es, s);
    case StructLit(es) => PrunedPartsAreSame(sem, es, s);
    case Conditional(c, t, f) =>
      var s1 := Eval(sem, c, s).1;
      PrunedIsSame(sem, c, s);
      PrunedIsSame(sem, t, s1);
      PrunedIsSame(sem, f, s1);
      PrunedConditionalSame(sem, Pruned(c), Pruned(t), Pruned(f), s);
    case BlockExpr(b) =>
      if !HasStatements(b) && b.final == Missing && |b.exprStmts| == 1 {
        PrunedIsSame(sem, b.exprStmts[0], s);
      } else if !HasStatements(b) && b.final != Missing && |b.exprStmts| == 0 {
        PrunedIsSame(sem, b.final, s);
      }
    case Cast(a, _) => PrunedIsSame(sem, a, s);
    case Index(a, i) =>
      PrunedIsSame(sem, a, s);
      PrunedIsSame(sem, i, Eval(sem, a, s).1);
    case _ =>
  }

  lemma {:induction false} PrunedPartsAreSame(sem: Semantics, es: seq<Expr>, s: State)
    ensures EvalParts(sem, AllPruned(es), s) == EvalParts(sem, es, s)
    decreases es, 0
  {
    if es != [] {
      var rest := AllPruned(es[1..]);
      PrunedIsSame(sem, es[0], s);
      PrunedPartsAreSame(sem, es[1..], Eval(sem, es[0], s).1);
      assert AllPruned(es)[0] == Pruned(es[0]) && AllPruned(es)[1..] == rest;
    }
  }

  // ----- Still accepted ------------------------------------------------------------------------------

  lemma {:induction false} PrunedIsConst(globals: set<string>, names: Whitelist, e: Expr)
    requires IsConst(globals, names, e)
    ensures IsConst(globals, names, Pruned(e))
    decreases e, 1
  {
    match e
    case Binary(_, l, r) =>
      PrunedIsConst(globals, names, l);
      PrunedIsConst(globals, names, r);
    case Unary(_, a) => PrunedIsConst(globals, names, a);
    case ArrayLit(es) => PrunedPartsAreConst(globals, names, es);
    case StructLit(es) => PrunedPartsAreConst(globals, names, es);
    case Conditional(c, t, f) =>
      PrunedIsConst(globals, names, c);
      PrunedIsConst(globals, names, t);
      PrunedIsConst(globals, names, f);
    case BlockExpr(b) =>
      if b.final == Missing {
        PrunedIsConst(globals, names, b.exprStmts[0]);
      } else {
        PrunedIsConst(globals, names, b.final);
      }
    case Cast(a, _) => PrunedIsConst(globals, names, a);
    case Index(a, i) =>
      PrunedIsConst(globals, names, a);
      PrunedIsConst(globals, names, i);
    case _ =>
  }

  lemma {:induction false} PrunedPartsAreConst(globals: set<string>, names: Whitelist, es: seq<Expr>)
    requires AllConst(globals, names, es)
    ensures AllConst(globals, names, AllPruned(es))
    decreases es, 0
  {
    if es != [] {
      PrunedIsConst(globals, names, es[0]);
      PrunedPartsAreConst(globals, names, es[1..]);
      assert AllPruned(es)[1..] == AllPruned(es[1..]);
    }
  }

  // ----- Blocks --------------------------------------------------------------------------------------

  function PrunedDecl(c: ConstDecl): ConstDecl {
    ConstDecl(c.name, Pruned(c.init))
  }

  function PrunedBlock(consts: seq<ConstDecl>): (r: seq<ConstDecl>)
    ensures |r| == |consts| && forall i | 0 <= i < |r| :: r[i] == PrunedDecl(consts[i])
  {
    seq(|consts|, i requires 0 <= i < |consts| => PrunedDecl(consts[i]))
  }

  lemma {:induction false} SameEarlierNames(consts: seq<ConstDecl>, i: nat)
    requires i <= |consts|
    ensures EarlierNames(PrunedBlock(consts), i) == EarlierNames(consts, i)
  {
    if i > 0 {
      SameEarlierNames(consts, i - 1);
    }
  }

  lemma PrunedIsAccepted(globals: set<string>, consts: seq<ConstDecl>)
    requires Accepted(globals, consts)
    ensures Accepted(globals, PrunedBlock(consts))
  {
    var pruned := PrunedBlock(consts);
    forall i | 0 <= i < |pruned|
      ensures InitIsConst(globals, pruned, i)
    {
      assert InitIsConst(globals, consts, i);
      SameEarlierNames(consts, i);
      if consts[i].init != Missing {
        PrunedIsConst(globals, Some(EarlierNames(consts, i)), consts[i].init);
      }
    }
  }

  lemma SameInitValue(sem: Semantics, globals: set<string>, consts: seq<ConstDecl>, i: nat, s: State)
    requires Accepted(globals, consts) && i < |consts|
    ensures InitValue(sem, Pruned(consts[i].init), s) == InitValue(sem, consts[i].init, s)
  {
    assert InitIsConst(globals, consts, i);
    if consts[i].init != Missing {
      PrunedIsConst(globals, Some(EarlierNames(consts, i)), consts[i].init);
      PrunedIsSame(sem, consts[i].init, s);
    }
  }

  lemma {:induction false} SameOrder(sem: Semantics, globals: set<string>, consts: seq<ConstDecl>, base: State, i: nat)
    requires Accepted(globals, consts) && i <= |consts|
    ensures InOrder(sem, PrunedBlock(consts), base, i) == InOrder(sem, consts, base, i)
  {
    if i > 0 {
      SameOrder(sem, globals, consts, base, i - 1);
      SameInitValue(sem, globals, consts, i - 1, InOrder(sem, consts, base, i - 1));
    }
  }

  lemma SameExtends(consts: seq<ConstDecl>, base: State, s: State)
    ensures Extends(PrunedBlock(consts), base, s) <==> Extends(consts, base, s)
  {
    var pruned := PrunedBlock(consts);
    assert forall i | 0 <= i < |consts| :: pruned[i].name == consts[i].name;
  }

  lemma SameSolved(sem: Semantics, globals: set<string>, consts: seq<ConstDecl>, base: State, s: State)
    requires Accepted(globals, consts)
    ensures Solves(sem, PrunedBlock(consts), base, s) <==> Solves(sem, consts, base, s)
  {
    var pruned := PrunedBlock(consts);
    SameExtends(consts, base, s);
    forall i | 0 <= i < |consts|
      ensures pruned[i].name == consts[i].name && InitValue(sem, pruned[i].init, s) == InitValue(sem, consts[i].init, s)
    {
      SameInitValue(sem, globals, consts, i, s);
    }
  }

  /** No initialiser mentions, where a literal does not rule it out, a constant declared at or after it. */
  ghost predicate LiveMentionsOnlyEarlier(consts: seq<ConstDecl>) {
    MentionsOnlyEarlier(PrunedBlock(consts))
  }

  /** Evaluation in order is the one solution of an accepted block whose live mentions are of earlier constants. */
  lemma LiveMentionsSuffice(sem: Semantics, globals: set<string>, consts: seq<ConstDecl>, base: State, sol: State)
    requires DistinctNames(consts) && Accepted(globals, consts) && LiveMentionsOnlyEarlier(consts)
    ensures Solves(sem, consts, base, sol) <==> sol == InOrder(sem, consts, base, |consts|)
  {
    PrunedIsAccepted(globals, consts);
    UniqueSolution(sem, globals, PrunedBlock(consts), base, sol);
    SameSolved(sem, globals, consts, base, sol);
    SameOrder(sem, globals, consts, base, |consts|);
  }
}
