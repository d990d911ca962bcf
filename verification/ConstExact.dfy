/**
 * What the constant-expression checker accepts, and that it rejects nothing else: by the parts of an
 * expression, and by its value.
 */
module ConstExact {
  import opened ConstExpr
  import opened ConstOrder
  import opened Options

  // ----- By the parts --------------------------------------------------------------------------------

  /** The immediate parts that the checker looks at; the base of a field is not among them. */
  function Parts(e: Expr): (ps: seq<Expr>)
    ensures forall k | 0 <= k < |ps| :: ps[k] < e
  {
    match e
    case Binary(_, l, r) => [l, r]
    case Unary(_, a) => [a]
    case ArrayLit(es) => es
    case StructLit(es) => es
    case Conditional(c, t, f) => [c, t, f]
    case BlockExpr(b) => if b.final == Missing then b.exprStmts else b.exprStmts + [b.final]
    case Cast(a, _) => [a]
    case Index(a, i) => [a, i]
    case _ => []
  }

  /** An expression of a listed kind: a name is trusted, a block is one expression and nothing else. */
  predicate IsListed(globals: set<string>, names: Whitelist, e: Expr) {
    match e
    case Missing => false
    case Other(_) => false
    case Var(x) => x != "" && names.Some? && (x in names.value || x in globals)
    case Field(_, access) => access.EnumVariant? || (names.Some? && access.ImportConst?)
    case BlockExpr(b) =>
      && b.numConsts == 0 && b.numLets == 0 && b.numLoops == 0 && b.numForLoops == 0 && b.numIfs == 0
      && b.numRegions == 0 && |Parts(e)| == 1
    case _ => true
  }

  /** `sub` is `n` levels of parts below `e`. */
  ghost predicate IsPart(e: Expr, sub: Expr, n: nat)
    decreases n
  {
    if n == 0 then sub == e else exists k :: 0 <= k < |Parts(e)| && IsPart(Parts(e)[k], sub, n - 1)
  }

  lemma {:induction false} AllConstIs(globals: set<string>, names: Whitelist, es: seq<Expr>)
    ensures AllConst(globals, names, es) <==> forall k | 0 <= k < |es| :: IsConst(globals, names, es[k])
    decreases es
  {
    if es != [] {
      AllConstIs(globals, names, es[1..]);
      assert forall k | 0 < k < |es| :: es[k] == es[1..][k - 1];
      assert forall k | 0 <= k < |es| - 1 :: es[1..][k] == es[k + 1];
    }
  }

  lemma ConstByParts(globals: set<string>, names: Whitelist, e: Expr)
    ensures IsConst(globals, names, e) <==>
            IsListed(globals, names, e) && forall k | 0 <= k < |Parts(e)| :: IsConst(globals, names, Parts(e)[k])
  {
    match e
    case Binary(_, l, r) => assert Parts(e)[0] == l && Parts(e)[1] == r;
    case Unary(_, a) => assert Parts(e)[0] == a;
    case ArrayLit(es) =>
      AllConstIs(globals, names, es);
      assert Parts(e) == es;
    case StructLit(es) =>
      AllConstIs(globals, names, es);
      assert Parts(e) == es;
    case Conditional(c, t, f) => assert Parts(e)[0] == c && Parts(e)[1] == t && Parts(e)[2] == f;
    case BlockExpr(b) =>
      if |Parts(e)| == 1 {
        assert Parts(e)[0] == if b.final == Missing then b.exprStmts[0] else b.final;
      }
    case Cast(a, _) => assert Parts(e)[0] == a;
    case Index(a, i) => assert Parts(e)[0] == a && Parts(e)[1] == i;
    case _ =>
  }

  ghost predicate AllListed(globals: set<string>, names: Whitelist, e: Expr) {
    forall sub, n: nat | IsPart(e, sub, n) :: IsListed(globals, names, sub)
  }

  lemma ListedByParts(globals: set<string>, names: Whitelist, e: Expr)
    ensures AllListed(globals, names, e) <==>
            IsListed(globals, names, e) && forall k | 0 <= k < |Parts(e)| :: AllListed(globals, names, Parts(e)[k])
  {
    assert IsPart(e, e, 0);
    if AllListed(globals, names, e) {
      forall k, sub, n: nat | 0 <= k < |Parts(e)| && IsPart(Parts(e)[k], sub, n)
        ensures IsListed(globals, names, sub)
      {
        assert IsPart(e, sub, n + 1);
      }
    }
    forall sub, n: nat | IsPart(e, sub, n)
      ensures sub == e || exists k :: 0 <= k < |Parts(e)| && IsPart(Parts(e)[k], sub, n - 1)
    {
    }
  }

  /** An expression is accepted exactly when all its parts, however deep, are of listed kinds. */
  lemma {:induction false} AcceptedIffAllListed(globals: set<string>, names: Whitelist, e: Expr)
    ensures IsConst(globals, names, e) <==> AllListed(globals, names, e)
    decreases e
  {
    ConstByParts(globals, names, e);
    ListedByParts(globals, names, e);
    forall k | 0 <= k < |Parts(e)|
      ensures IsConst(globals, names, Parts(e)[k]) <==> AllListed(globals, names, Parts(e)[k])
    {
      AcceptedIffAllListed(globals, names, Parts(e)[k]);
    }
  }

  // ----- By the value --------------------------------------------------------------------------------

  /** Whatever operators mean, the expression changes nothing and has one value where trusted names and imports do. */
  ghost predicate HasOneValue(globals: set<string>, names: Whitelist, e: Expr) {
    forall sem, s, t | Agree(globals, names, s, t) :: Eval(sem, e, s) == (Eval(sem, e, t).0, s)
  }

  /** Nothing in the expression is chosen or cut short, so whatever it has is evaluated. */
  predicate IsPlain(e: Expr)
    decreases e, 1
  {
    match e
    case Binary(op, l, r) => op != LOGAND && op != LOGOR && IsPlain(l) && IsPlain(r)
    case Unary(_, a) => IsPlain(a)
    case ArrayLit(es) => AllPlain(es)
    case StructLit(es) => AllPlain(es)
    case Conditional(_, _, _) => false
    case BlockExpr(b) =>
      if HasStatements(b) then true
      else if b.final == Missing && |b.exprStmts| == 1 then IsPlain(b.exprStmts[0])
      else if b.final != Missing && |b.exprStmts| == 0 then IsPlain(b.final)
      else true
    case Cast(a, _) => IsPlain(a)
    case Index(a, i) => IsPlain(a) && IsPlain(i)
    case _ => true
  }

  predicate AllPlain(es: seq<Expr>)
    decreases es, 0
  {
    es == [] || (IsPlain(es[0]) && AllPlain(es[1..]))
  }

  /** A state that binds what is referred to: to zero if it is trusted, to `v` if not, like the memory. */
  function Probe(globals: set<string>, names: Whitelist, refs: set<Ref>, v: int): State {
    State(map r | r in refs && r.Name? :: r.name := Some(Scalar(if Trusted(globals, names, r.name) then 0 else v)),
          map r | r in refs && r.Path? :: r.path := Some(Scalar(if names.Some? then 0 else v)),
          map[0 := Scalar(v)])
  }

  lemma ProbesAgree(globals: set<string>, names: Whitelist, refs: set<Ref>)
    ensures Agree(globals, names, Probe(globals, names, refs, 0), Probe(globals, names, refs, 1))
  {
    var s, t := Probe(globals, names, refs, 0), Probe(globals, names, refs, 1);
    assert s.vars.Keys == t.vars.Keys && s.imports.Keys == t.imports.Keys;
  }

  /** Under operators that keep their operands, a plain expression that is not accepted tells the two probes apart. */
  ghost predicate Tells(globals: set<string>, names: Whitelist, refs: set<Ref>, e: Expr) {
    var s, t := Probe(globals, names, refs, 0), Probe(globals, names, refs, 1);
    && Eval(Free(), e, s).1 == s && Eval(Free(), e, t).1 == t
    && Eval(Free(), e, s).0.Some? && Eval(Free(), e, t).0.Some?
    && (Eval(Free(), e, s).0 == Eval(Free(), e, t).0 ==> IsConst(globals, names, e))
  }

  ghost predicate PartsTell(globals: set<string>, names: Whitelist, refs: set<Ref>, es: seq<Expr>) {
    var s, t := Probe(globals, names, refs, 0), Probe(globals, names, refs, 1);
    && EvalParts(Free(), es, s).1 == s && EvalParts(Free(), es, t).1 == t
    && EvalParts(Free(), es, s).0.Some? && EvalParts(Free(), es, t).0.Some?
    && EvalParts(Free(), es, s).0.value.Aggregate? && EvalParts(Free(), es, t).0.value.Aggregate?
    && (EvalParts(Free(), es, s).0 == EvalParts(Free(), es, t).0 ==> AllConst(globals, names, es))
  }

  lemma LeafTells(globals: set<string>, names: Whitelist, refs: set<Ref>, e: Expr)
    requires e.Missing? || e.Literal? || e.Var? || e.Field? || e.Other?
    requires Refs(e) <= refs
    ensures Tells(globals, names, refs, e)
  {
    var s, t := Probe(globals, names, refs, 0), Probe(globals, names, refs, 1);
    match e
    case Var(x) => assert Name(x) in Refs(e) && x in s.vars && x in t.vars;
    case Field(_, access) =>
      assert access.ImportConst? ==> Path(access.path) in Refs(e) && access.path in s.imports && access.path in t.imports;
    case _ =>
  }

  lemma PairTells(globals: set<string>, names: Whitelist, refs: set<Ref>, e: Expr, a: Expr, b: Expr)
    requires (e.Binary? && e.op != LOGAND && e.op != LOGOR && e.left == a && e.right == b) ||
             (e.Index? && e.base == a && e.index == b)
    requires Tells(globals, names, refs, a) && Tells(globals, names, refs, b)
    ensures Tells(globals, names, refs, e)
  {
    var s, t := Probe(globals, names, refs, 0), Probe(globals, names, refs, 1);
    var tag := Scalar(if e.Binary? then e.op else 0);
    SamePair(tag, Eval(Free(), a, s).0.value, Eval(Free(), b, s).0.value,
             Eval(Free(), a, t).0.value, Eval(Free(), b, t).0.value);
  }

  lemma OneTells(globals: set<string>, names: Whitelist, refs: set<Ref>, e: Expr, a: Expr)
    requires (e.Unary? && e.operand == a) || (e.Cast? && e.operand == a)
    requires Tells(globals, names, refs, a)
    ensures Tells(globals, names, refs, e)
  {
    var s, t := Probe(globals, names, refs, 0), Probe(globals, names, refs, 1);
    var tag := Scalar(if e.Unary? then e.op else e.target);
    SameOne(tag, Eval(Free(), a, s).0.value, Eval(Free(), a, t).0.value);
  }

  lemma ConsTells(globals: set<string>, names: Whitelist, refs: set<Ref>, es: seq<Expr>)
    requires es != [] && Tells(globals, names, refs, es[0]) && PartsTell(globals, names, refs, es[1..])
    ensures PartsTell(globals, names, refs, es)
  {
    var s, t := Probe(globals, names, refs, 0), Probe(globals, names, refs, 1);
    SameCons(Eval(Free(), es[0], s).0.value, EvalParts(Free(), es[1..], s).0.value.parts,
             Eval(Free(), es[0], t).0.value, EvalParts(Free(), es[1..], t).0.value.parts);
  }

  lemma {:induction false} PlainTells(globals: set<string>, names: Whitelist, refs: set<Ref>, e: Expr)
    requires IsPlain(e) && Refs(e) <= refs
    ensures Tells(globals, names, refs, e)
    decreases e, 1
  {
    match e
    case Binary(_, l, r) =>
      PlainTells(globals, names, refs, l);
      PlainTells(globals, names, refs, r);
      PairTells(globals, names, refs, e, l, r);
    case Unary(_, a) =>
      PlainTells(globals, names, refs, a);
      OneTells(globals, names, refs, e, a);
    case ArrayLit(es) => PlainPartsTell(globals, names, refs, es);
    case StructLit(es) => PlainPartsTell(globals, names, refs, es);
    case BlockExpr(b) =>
      if !HasStatements(b) && b.final == Missing && |b.exprStmts| == 1 {
        PlainTells(globals, names, refs, b.exprStmts[0]);
      } else if !HasStatements(b) && b.final != Missing && |b.exprStmts| == 0 {
        PlainTells(globals, names, refs, b.final);
      }
    case Cast(a, _) =>
      PlainTells(globals, names, refs, a);
      OneTells(globals, names, refs, e, a);
    case Index(a, i) =>
      PlainTells(globals, names, refs, a);
      PlainTells(globals, names, refs, i);
      PairTells(globals, names, refs, e, a, i);
    case _ => LeafTells(globals, names, refs, e);
  }

  lemma {:induction false} PlainPartsTell(globals: set<string>, names: Whitelist, refs: set<Ref>, es: seq<Expr>)
    requires AllPlain(es) && AllRefs(es) <= refs
    ensures PartsTell(globals, names, refs, es)
    decreases es, 0
  {
    if es != [] {
      PlainTells(globals, names, refs, es[0]);
      PlainPartsTell(globals, names, refs, es[1..]);
      ConsTells(globals, names, refs, es);
    }
  }

  /**
   * Where nothing is chosen or cut short the checker is exact: it accepts an expression if and only if
   * the trusted names and the imported constants fix its value, whatever the operators mean.
   */
  lemma AcceptedIffOneValue(globals: set<string>, names: Whitelist, e: Expr)
    requires IsPlain(e)
    ensures IsConst(globals, names, e) <==> HasOneValue(globals, names, e)
  {
    if IsConst(globals, names, e) {
      forall sem, s, t | Agree(globals, names, s, t)
        ensures Eval(sem, e, s) == (Eval(sem, e, t).0, s)
      {
        AcceptedIsConstant(sem, globals, names, e, s, t);
      }
    } else {
      var refs := Refs(e);
      ProbesAgree(globals, names, refs);
      PlainTells(globals, names, refs, e);
    }
  }

  // ----- The name list -------------------------------------------------------------------------------

  /** How many of the first `j` constants have a name of 1 to 63 bytes. */
  function Listables(consts: seq<ConstDecl>, j: nat): nat
    requires j <= |consts|
  {
    if j == 0 then 0 else Listables(consts, j - 1) + if 0 < |consts[j - 1].name| < 64 then 1 else 0
  }

  lemma {:induction false} ListLength(consts: seq<ConstDecl>, i: nat)
    requires i <= |consts|
    ensures |EarlierNames(consts, i)| == if Listables(consts, i) < 64 then Listables(consts, i) else 64
  {
    if i > 0 {
      ListLength(consts, i - 1);
    }
  }

  /** A name is listed exactly when an earlier constant has it, it is listable, and fewer than 64 are before it. */
  lemma {:induction false} ListedNameIff(consts: seq<ConstDecl>, i: nat, x: string)
    requires i <= |consts|
    ensures x in EarlierNames(consts, i) <==>
            exists j :: 0 <= j < i && consts[j].name == x && 0 < |x| < 64 && Listables(consts, j) < 64
  {
    if i > 0 {
      ListedNameIff(consts, i - 1, x);
      ListLength(consts, i - 1);
      assert x in EarlierNames(consts, i) <==>
          x in EarlierNames(consts, i - 1) ||
          (consts[i - 1].name == x && 0 < |x| < 64 && Listables(consts, i - 1) < 64);
    }
  }

  /** What constant `i` of a block may consist of: a name is that of a module constant or of a listed earlier one. */
  ghost predicate IsListedBefore(globals: set<string>, consts: seq<ConstDecl>, i: nat, e: Expr)
    requires i <= |consts|
  {
    match e
    case Var(x) =>
      && x != ""
      && (|| x in globals
          || exists j :: 0 <= j < i && consts[j].name == x && 0 < |x| < 64 && Listables(consts, j) < 64)
    case _ => IsListed(globals, Some([]), e)
  }

  lemma SameListed(globals: set<string>, consts: seq<ConstDecl>, i: nat, e: Expr)
    requires i <= |consts|
    ensures IsListed(globals, Some(EarlierNames(consts, i)), e) <==> IsListedBefore(globals, consts, i, e)
  {
    if e.Var? {
      ListedNameIff(consts, i, e.name);
    }
  }

  ghost predicate AllListedBefore(globals: set<string>, consts: seq<ConstDecl>, i: nat, e: Expr)
    requires i <= |consts|
  {
    forall sub, n: nat | IsPart(e, sub, n) :: IsListedBefore(globals, consts, i, sub)
  }

  /** A constant passes exactly when it has no initialiser or all parts of its initialiser are so. */
  lemma PassesIff(globals: set<string>, consts: seq<ConstDecl>, i: nat)
    requires i < |consts|
    ensures InitIsConst(globals, consts, i) <==>
            consts[i].init == Missing || AllListedBefore(globals, consts, i, consts[i].init)
  {
    var names, init := Some(EarlierNames(consts, i)), consts[i].init;
    AcceptedIffAllListed(globals, names, init);
    if AllListed(globals, names, init) {
      forall sub, n: nat | IsPart(init, sub, n)
        ensures IsListedBefore(globals, consts, i, sub)
      {
        SameListed(globals, consts, i, sub);
      }
    }
    if AllListedBefore(globals, consts, i, init) {
      forall sub, n: nat | IsPart(init, sub, n)
        ensures IsListed(globals, names, sub)
      {
        SameListed(globals, consts, i, sub);
      }
    }
  }
}
