/**
 * When declaration order is the meaning of a block of constants: never if an initialiser mentions a
 * constant declared at or after it, shown by evaluating with operators that lose nothing.
 */
module ConstOrder {
  import opened ConstExpr
  import opened ConstPrune
  import opened Options

  // ----- Operators that keep their operands apart ---------------------------------------------------

  /** Every operator builds a term of its operands, and whatever is not accepted shows the memory. */
  function Free(): Semantics {
    Semantics(
      (op, a, b) => Some(Aggregate([Scalar(op), a, b])),
      (op, a) => Some(Aggregate([Scalar(op), a])),
      (target, a) => Some(Aggregate([Scalar(target), a])),
      (a, i) => Some(Aggregate([Scalar(0), a, i])),
      (e, s: State) => (Some(if 0 in s.memory then s.memory[0] else Scalar(0)), s))
  }

  /** All parts are evaluated: no choice between branches and no short circuit. */
  predicate IsStraight(e: Expr)
    decreases e, 1
  {
    match e
    case Missing => false
    case Literal(_) => true
    case Var(_) => true
    case Binary(op, l, r) => op != LOGAND && op != LOGOR && IsStraight(l) && IsStraight(r)
    case Unary(_, a) => IsStraight(a)
    case ArrayLit(es) => AllStraight(es)
    case StructLit(es) => AllStraight(es)
    case Field(_, _) => true
    case Conditional(_, _, _) => false
    case BlockExpr(b) =>
      if b.final != Missing then IsStraight(b.final) else |b.exprStmts| == 1 && IsStraight(b.exprStmts[0])
    case Cast(a, _) => IsStraight(a)
    case Index(a, i) => IsStraight(a) && IsStraight(i)
    case Other(_) => false
  }

  predicate AllStraight(es: seq<Expr>)
    decreases es, 0
  {
    es == [] || (IsStraight(es[0]) && AllStraight(es[1..]))
  }

  ghost predicate Defined(refs: set<Ref>, s: State) {
    forall r | r in refs :: Meaning(s, r).Some?
  }

  ghost predicate SameMeaning(refs: set<Ref>, s: State, t: State) {
    forall r | r in refs :: Meaning(s, r) == Meaning(t, r)
  }

  function ValueOf(m: Outcome): Value {
    if m == None then Scalar(0) else m.value
  }

  /** The term that a straight expression evaluates to. */
  function Term(e: Expr, s: State): Value
    decreases e, 1
  {
    match e
    case Literal(v) => v
    case Var(x) => ValueOf(Meaning(s, Name(x)))
    case Binary(op, l, r) => Aggregate([Scalar(op), Term(l, s), Term(r, s)])
    case Unary(op, a) => Aggregate([Scalar(op), Term(a, s)])
    case ArrayLit(es) => Aggregate(Terms(es, s))
    case StructLit(es) => Aggregate(Terms(es, s))
    case Field(_, access) =>
      (match access
       case EnumVariant(tag) => tag
       case ImportConst(path) => ValueOf(Meaning(s, Path(path)))
       case RuntimeField => Scalar(0))
    case BlockExpr(b) =>
      if b.final != Missing then Term(b.final, s)
      else if |b.exprStmts| == 1 then Term(b.exprStmts[0], s)
      else Scalar(0)
    case Cast(a, target) => Aggregate([Scalar(target), Term(a, s)])
    case Index(a, i) => Aggregate([Scalar(0), Term(a, s), Term(i, s)])
    case _ => Scalar(0)
  }

  function Terms(es: seq<Expr>, s: State): seq<Value>
    decreases es, 0
  {
    if es == [] then [] else [Term(es[0], s)] + Terms(es[1..], s)
  }

  lemma {:induction false} FreeEvalIsTerm(globals: set<string>, names: Whitelist, e: Expr, s: State)
    requires IsConst(globals, names, e) && IsStraight(e) && Defined(Refs(e), s)
    ensures Eval(Free(), e, s) == (Some(Term(e, s)), s)
    decreases e, 1
  {
    match e
    case Literal(_) =>
    case Var(x) => assert Name(x) in Refs(e) && Meaning(s, Name(x)).Some?;
    case Binary(op, l, r) =>
      FreeEvalIsTerm(globals, names, l, s);
      FreeEvalIsTerm(globals, names, r, s);
    case Unary(op, a) =>
      FreeEvalIsTerm(globals, names, a, s);
    case ArrayLit(es) => FreePartsAreTerms(globals, names, es, s);
    case StructLit(es) => FreePartsAreTerms(globals, names, es, s);
    case Field(_, access) =>
      assert access.ImportConst? ==> Path(access.path) in Refs(e) && Meaning(s, Path(access.path)).Some?;
    case BlockExpr(b) =>
      if b.final == Missing {
        FreeEvalIsTerm(globals, names, b.exprStmts[0], s);
      } else {
        FreeEvalIsTerm(globals, names, b.final, s);
      }
    case Cast(a, target) =>
      FreeEvalIsTerm(globals, names, a, s);
    case Index(a, i) =>
      FreeEvalIsTerm(globals, names, a, s);
      FreeEvalIsTerm(globals, names, i, s);
  }

  lemma {:induction false} FreePartsAreTerms(globals: set<string>, names: Whitelist, es: seq<Expr>, s: State)
    requires AllConst(globals, names, es) && AllStraight(es) && Defined(AllRefs(es), s)
    ensures EvalParts(Free(), es, s) == (Some(Aggregate(Terms(es, s))), s)
    decreases es, 0
  {
    if es != [] {
      FreeEvalIsTerm(globals, names, es[0], s);
      FreePartsAreTerms(globals, names, es[1..], s);
    }
  }

  /** Equal terms come from equal meanings of everything referred to. */
  lemma {:induction false} TermTells(e: Expr, s: State, t: State)
    requires IsStraight(e) && Defined(Refs(e), s) && Defined(Refs(e), t)
    ensures Term(e, s) == Term(e, t) ==> SameMeaning(Refs(e), s, t)
    decreases e, 1
  {
    match e
    case Literal(_) =>
    case Var(x) => assert Name(x) in Refs(e) && Meaning(s, Name(x)).Some? && Meaning(t, Name(x)).Some?;
    case Binary(op, l, r) =>
      TermTells(l, s, t);
      TermTells(r, s, t);
      SamePair(Scalar(op), Term(l, s), Term(r, s), Term(l, t), Term(r, t));
    case Unary(op, a) =>
      TermTells(a, s, t);
      SameOne(Scalar(op), Term(a, s), Term(a, t));
    case ArrayLit(es) => TermsTell(es, s, t);
    case StructLit(es) => TermsTell(es, s, t);
    case Field(_, access) =>
      assert access.ImportConst? ==> Path(access.path) in Refs(e) &&
                                     Meaning(s, Path(access.path)).Some? && Meaning(t, Path(access.path)).Some?;
    case BlockExpr(b) =>
      if b.final == Missing {
        TermTells(b.exprStmts[0], s, t);
      } else {
        TermTells(b.final, s, t);
      }
    case Cast(a, target) =>
      TermTells(a, s, t);
      SameOne(Scalar(target), Term(a, s), Term(a, t));
    case Index(a, i) =>
      TermTells(a, s, t);
      TermTells(i, s, t);
      SamePair(Scalar(0), Term(a, s), Term(i, s), Term(a, t), Term(i, t));
  }

  lemma {:induction false} TermsTell(es: seq<Expr>, s: State, t: State)
    requires AllStraight(es) && Defined(AllRefs(es), s) && Defined(AllRefs(es), t)
    ensures Terms(es, s) == Terms(es, t) ==> SameMeaning(AllRefs(es), s, t)
    decreases es, 0
  {
    if es != [] {
      TermTells(es[0], s, t);
      TermsTell(es[1..], s, t);
      SameCons(Term(es[0], s), Terms(es[1..], s), Term(es[0], t), Terms(es[1..], t));
    }
  }

  lemma SameOne(tag: Value, a: Value, b: Value)
    ensures Aggregate([tag, a]) == Aggregate([tag, b]) ==> a == b
  {
    assert [tag, a][1] == a && [tag, b][1] == b;
  }

  lemma SamePair(tag: Value, a: Value, b: Value, c: Value, d: Value)
    ensures Aggregate([tag, a, b]) == Aggregate([tag, c, d]) ==> a == c && b == d
  {
    assert [tag, a, b][1] == a && [tag, a, b][2] == b && [tag, c, d][1] == c && [tag, c, d][2] == d;
  }

  lemma SameCons(a: Value, rest: seq<Value>, b: Value, others: seq<Value>)
    ensures [a] + rest == [b] + others ==> a == b && rest == others
  {
    assert ([a] + rest)[0] == a && ([a] + rest)[1..] == rest;
    assert ([b] + others)[0] == b && ([b] + others)[1..] == others;
  }

  /** With such operators an accepted straight expression has a value, and the value fixes all it refers to. */
  lemma FreeValueDetermines(globals: set<string>, names: Whitelist, e: Expr, s: State, t: State)
    requires IsConst(globals, names, e) && IsStraight(e) && Defined(Refs(e), s) && Defined(Refs(e), t)
    ensures Eval(Free(), e, s).0.Some? && Eval(Free(), e, t).0.Some?
    ensures Eval(Free(), e, s).0 == Eval(Free(), e, t).0 <==> SameMeaning(Refs(e), s, t)
  {
    FreeEvalIsTerm(globals, names, e, s);
    FreeEvalIsTerm(globals, names, e, t);
    TermTells(e, s, t);
    if SameMeaning(Refs(e), s, t) {
      RefsDecide(Free(), globals, names, e, s, t);
    }
  }

  // ----- A late mention -------------------------------------------------------------------------------

  ghost predicate StraightBlock(consts: seq<ConstDecl>) {
    forall i | 0 <= i < |consts| :: IsStraight(consts[i].init)
  }

  /** The definitions have exactly the solution that evaluation in order gives, whatever operators and module mean. */
  ghost predicate OrderIsTheMeaning(consts: seq<ConstDecl>) {
    forall sem, base, sol :: Solves(sem, consts, base, sol) <==> sol == InOrder(sem, consts, base, |consts|)
  }

  function BlockRefs(consts: seq<ConstDecl>): set<Ref> {
    if consts == [] then {} else Refs(consts[0].init) + BlockRefs(consts[1..])
  }

  lemma {:induction false} RefsInBlock(consts: seq<ConstDecl>, i: nat)
    requires i < |consts|
    ensures Refs(consts[i].init) <= BlockRefs(consts)
  {
    if i > 0 {
      RefsInBlock(consts[1..], i - 1);
    }
  }

  /** A state that binds everything a block refers to, to zero but for one name. */
  function Binding(refs: set<Ref>, x: string, v: int): (s: State)
    ensures Defined(refs, s)
  {
    State(map r | r in refs && r.Name? :: r.name := Some(Scalar(if r.name == x then v else 0)),
          map r | r in refs && r.Path? :: r.path := Some(Scalar(0)),
          map[])
  }

  /** Evaluation in order keeps everything bound. */
  lemma {:induction false} InOrderStaysDefined(globals: set<string>, consts: seq<ConstDecl>, base: State, i: nat)
    requires i <= |consts| && Accepted(globals, consts) && StraightBlock(consts) && Defined(BlockRefs(consts), base)
    ensures Defined(BlockRefs(consts), InOrder(Free(), consts, base, i))
  {
    if i > 0 {
      InOrderStaysDefined(globals, consts, base, i - 1);
      var s, init := InOrder(Free(), consts, base, i - 1), consts[i - 1].init;
      RefsInBlock(consts, i - 1);
      assert InitIsConst(globals, consts, i - 1) && init != Missing;
      FreeValueDetermines(globals, Some(EarlierNames(consts, i - 1)), init, s, s);
    }
  }

  /** Two modules that differ in a constant mentioned late lead evaluation in order to different values. */
  lemma LateMentionShows(globals: set<string>, consts: seq<ConstDecl>, i: nat, j: nat)
    requires DistinctNames(consts) && Accepted(globals, consts) && StraightBlock(consts)
    requires i <= j < |consts| && Name(consts[j].name) in Refs(consts[i].init)
    ensures var refs, x, n := BlockRefs(consts), consts[j].name, |consts|;
            InOrder(Free(), consts, Binding(refs, x, 0), n) != InOrder(Free(), consts, Binding(refs, x, 1), n)
  {
    var refs, x, n := BlockRefs(consts), consts[j].name, |consts|;
    var base0, base1 := Binding(refs, x, 0), Binding(refs, x, 1);
    var s, t := InOrder(Free(), consts, base0, i), InOrder(Free(), consts, base1, i);
    RefsInBlock(consts, i);
    InOrderStaysDefined(globals, consts, base0, i);
    InOrderStaysDefined(globals, consts, base1, i);
    InOrderKeeps(Free(), consts, base0, 0, i, x);
    InOrderKeeps(Free(), consts, base1, 0, i, x);
    assert Name(x) in refs;
    assert Meaning(s, Name(x)) == Some(Scalar(0)) && Meaning(t, Name(x)) == Some(Scalar(1));
    assert InitIsConst(globals, consts, i) && consts[i].init != Missing;
    FreeValueDetermines(globals, Some(EarlierNames(consts, i)), consts[i].init, s, t);
    InOrderKeeps(Free(), consts, base0, i + 1, n, consts[i].name);
    InOrderKeeps(Free(), consts, base1, i + 1, n, consts[i].name);
  }

  /** What a module makes of a name that the block declares has no part in what solves the definitions. */
  lemma SameSolutions(sem: Semantics, consts: seq<ConstDecl>, refs: set<Ref>, j: nat, sol: State)
    requires j < |consts|
    ensures var x := consts[j].name;
            Solves(sem, consts, Binding(refs, x, 0), sol) <==> Solves(sem, consts, Binding(refs, x, 1), sol)
  {
    var a, b := Binding(refs, consts[j].name, 0), Binding(refs, consts[j].name, 1);
    assert a.imports == b.imports && a.vars.Keys == b.vars.Keys;
    assert forall y | y in a.vars && y != consts[j].name :: a.vars[y] == b.vars[y];
  }

  lemma LateMentionIsNoSolution(globals: set<string>, consts: seq<ConstDecl>)
    requires DistinctNames(consts) && Accepted(globals, consts) && StraightBlock(consts) && !MentionsOnlyEarlier(consts)
    ensures !OrderIsTheMeaning(consts)
  {
    var i, j :| 0 <= i <= j < |consts| && Name(consts[j].name) in Refs(consts[i].init);
    var refs, x := BlockRefs(consts), consts[j].name;
    var end := InOrder(Free(), consts, Binding(refs, x, 0), |consts|);
    LateMentionShows(globals, consts, i, j);
    SameSolutions(Free(), consts, refs, j, end);
    assert OrderIsTheMeaning(consts) ==>
        Solves(Free(), consts, Binding(refs, x, 0), end) && !Solves(Free(), consts, Binding(refs, x, 1), end);
  }

  lemma SameMeaningOfOrder(globals: set<string>, consts: seq<ConstDecl>)
    requires Accepted(globals, consts)
    ensures OrderIsTheMeaning(PrunedBlock(consts)) <==> OrderIsTheMeaning(consts)
  {
    var pruned := PrunedBlock(consts);
    forall sem, base, sol
      ensures Solves(sem, pruned, base, sol) <==> Solves(sem, consts, base, sol)
      ensures InOrder(sem, pruned, base, |pruned|) == InOrder(sem, consts, base, |consts|)
    {
      SameSolved(sem, globals, consts, base, sol);
      SameOrder(sem, globals, consts, base, |consts|);
    }
  }

  /** Literals decide every branch and every short circuit of the block. */
  ghost predicate IsDecided(consts: seq<ConstDecl>) {
    StraightBlock(PrunedBlock(consts))
  }

  /**
   * For an accepted block whose branches are decided by literals, declaration order is the meaning
   * exactly when no initialiser mentions, in a part that is evaluated, a constant that the block
   * declares at or after it.
   */
  lemma OrderIsTheMeaningIff(globals: set<string>, consts: seq<ConstDecl>)
    requires DistinctNames(consts) && Accepted(globals, consts) && IsDecided(consts)
    ensures OrderIsTheMeaning(consts) <==> LiveMentionsOnlyEarlier(consts)
  {
    if LiveMentionsOnlyEarlier(consts) {
      forall sem, base, sol
        ensures Solves(sem, consts, base, sol) <==> sol == InOrder(sem, consts, base, |consts|)
      {
        LiveMentionsSuffice(sem, globals, consts, base, sol);
      }
    } else {
      PrunedIsAccepted(globals, consts);
      LateMentionIsNoSolution(globals, PrunedBlock(consts));
      SameMeaningOfOrder(globals, consts);
    }
  }

  // ----- What the condition leaves out ----------------------------------------------------------------

  /** A late mention in a branch that is never taken does no harm: `const a = 1 ? 2 : x; const x = 1`. */
  lemma DeadMentionIsHarmless(consts: seq<ConstDecl>)
    requires |consts| == 2 && consts[0].name == "a" && consts[1] == ConstDecl("x", Literal(Scalar(1)))
    requires consts[0].init == Conditional(Literal(Scalar(1)), Literal(Scalar(2)), Var("x"))
    ensures Accepted({"x"}, consts) && !MentionsOnlyEarlier(consts) && OrderIsTheMeaning(consts)
  {
    assert Name(consts[1].name) in Refs(consts[0].init);
    assert Trusted({"x"}, Some(EarlierNames(consts, 0)), "x");
    assert Pruned(consts[0].init) == Literal(Scalar(2)) && Pruned(consts[1].init) == Literal(Scalar(1));
    OrderIsTheMeaningIff({"x"}, consts);
  }

  /** A copy of a module constant under its own name is solved by evaluation in order, though not by it alone. */
  lemma SelfCopyIsSolved(sem: Semantics, base: State)
    ensures var consts := [ConstDecl("x", Var("x"))];
            && Accepted({"x"}, consts) && !MentionsOnlyEarlier(consts)
            && Solves(sem, consts, base, InOrder(sem, consts, base, 1))
  {
    var consts := [ConstDecl("x", Var("x"))];
    assert Trusted({"x"}, Some(EarlierNames(consts, 0)), "x");
    assert Name(consts[0].name) in Refs(consts[0].init);
    assert InOrder(sem, consts, base, 0) == base;
    InOrderExtends(sem, consts, base, 1);
  }

  // ----- Names that a let hides ----------------------------------------------------------------------

  /** The states agree on everything but some lets of the block. */
  ghost predicate AgreeBut(lets: set<string>, s: State, t: State) {
    s.imports == t.imports && forall x | x !in lets :: Lookup(s.vars, x) == Lookup(t.vars, x)
  }

  ghost predicate ConstantBut(lets: set<string>, e: Expr) {
    forall sem, s, t | AgreeBut(lets, s, t) :: Eval(sem, e, s).0 == Eval(sem, e, t).0
  }

  lemma NoLetReferredTo(globals: set<string>, names: Whitelist, lets: set<string>, e: Expr)
    requires IsConst(globals, names, e) && forall x | x in lets :: Name(x) !in Refs(e)
    ensures ConstantBut(lets, e)
  {
    forall sem, s, t | AgreeBut(lets, s, t)
      ensures Eval(sem, e, s).0 == Eval(sem, e, t).0
    {
      RefsDecide(sem, globals, names, e, s, t);
    }
  }

  lemma LetReferredTo(globals: set<string>, names: Whitelist, lets: set<string>, e: Expr, x: string)
    requires IsConst(globals, names, e) && IsStraight(e) && x in lets && Name(x) in Refs(e)
    ensures !ConstantBut(lets, e)
  {
    var s, t := Binding(Refs(e), x, 0), Binding(Refs(e), x, 1);
    assert Meaning(s, Name(x)) == Some(Scalar(0)) && Meaning(t, Name(x)) == Some(Scalar(1));
    FreeValueDetermines(globals, names, e, s, t);
    assert AgreeBut(lets, s, t);
  }

  lemma PrunedIsConstantBut(lets: set<string>, e: Expr)
    ensures ConstantBut(lets, Pruned(e)) <==> ConstantBut(lets, e)
  {
    forall sem, s
      ensures Eval(sem, Pruned(e), s) == Eval(sem, e, s)
    {
      PrunedIsSame(sem, e, s);
    }
  }

  /**
   * The checker knows names alone, so a let that hides a module constant is taken for it. An accepted
   * initialiser is constant whatever the lets hold exactly when no part of it that is evaluated refers
   * to one of them, provided that literals decide its branches.
   */
  lemma ConstantButIff(globals: set<string>, names: Whitelist, lets: set<string>, e: Expr)
    requires IsConst(globals, names, e) && IsStraight(Pruned(e))
    ensures ConstantBut(lets, e) <==> forall x | x in lets :: Name(x) !in Refs(Pruned(e))
  {
    PrunedIsConst(globals, names, e);
    PrunedIsConstantBut(lets, e);
    if x :| x in lets && Name(x) in Refs(Pruned(e)) {
      LetReferredTo(globals, names, lets, Pruned(e), x);
    } else {
      NoLetReferredTo(globals, names, lets, Pruned(e));
    }
  }

  /** A let that hides the module constant `x` is accepted in an initialiser, which then is no constant. */
  lemma HidingLetIsAccepted()
    ensures IsConst({"x"}, Some([]), Var("x")) && !ConstantBut({"x"}, Var("x"))
  {
    ConstantButIff({"x"}, Some([]), {"x"}, Var("x"));
  }
}
