/**
 * The constant-expression checker for block constants, and what its acceptance is worth: an
 * accepted initialiser has the same value whatever the runtime state, and a block of accepted
 * initialisers defines its constants.
 */
module ConstExpr {
  import opened Options

  // ----- Expressions -------------------------------------------------------------------------

  datatype Value = Scalar(bits: int) | Aggregate(parts: seq<Value>)

  /** What the module and its imports make of a field access. */
  datatype FieldClass = EnumVariant(tag: Value) | ImportConst(path: string) | RuntimeField

  /** Statements of a block, counted by kind as the checker does; `final` is missing when there is none. */
  datatype Block = Block(numConsts: nat, numLets: nat, numLoops: nat, numForLoops: nat, numIfs: nat,
                         numRegions: nat, exprStmts: seq<Expr>, final: Expr)

  /** `Missing` is a reference that denotes no expression; `Other` is any kind the checker does not list. */
  datatype Expr =
    | Missing
    | Literal(value: Value)
    | Var(name: string)
    | Binary(op: nat, left: Expr, right: Expr)
    | Unary(op: nat, operand: Expr)
    | ArrayLit(elems: seq<Expr>)
    | StructLit(inits: seq<Expr>)
    | Field(base: Expr, access: FieldClass)
    | Conditional(cond: Expr, thenExpr: Expr, elseExpr: Expr)
    | BlockExpr(block: Block)
    | Cast(operand: Expr, target: int)
    | Index(base: Expr, index: Expr)
    | Other(parts: seq<Expr>)

  // ----- The checker ---------------------------------------------------------------------------

  /** The names the checker may trust: earlier constants of the block, or none at all for C static initialisers. */
  type Whitelist = Option<seq<string>>

  predicate Trusted(globals: set<string>, names: Whitelist, x: string) {
    x != "" && names.Some? && (x in names.value || x in globals)
  }

  /** Consts, lets, loops, ifs and regions; expression statements are looked at separately. */
  predicate HasStatements(b: Block) {
    b.numConsts > 0 || b.numLets > 0 || b.numLoops > 0 || b.numForLoops > 0 || b.numIfs > 0 || b.numRegions > 0
  }

  predicate IsConst(globals: set<string>, names: Whitelist, e: Expr)
    decreases e, 1
  {
    match e
    case Missing => false
    case Literal(_) => true
    case Var(x) => Trusted(globals, names, x)
    case Binary(_, l, r) => IsConst(globals, names, l) && IsConst(globals, names, r)
    case Unary(_, a) => IsConst(globals, names, a)
    case ArrayLit(es) => AllConst(globals, names, es)
    case StructLit(es) => AllConst(globals, names, es)
    case Field(_, access) => access.EnumVariant? || (names.Some? && access.ImportConst?)
    case Conditional(c, t, f) => IsConst(globals, names, c) && IsConst(globals, names, t) && IsConst(globals, names, f)
    case BlockExpr(b) =>
      if HasStatements(b) then false
      else if b.final == Missing then |b.exprStmts| == 1 && IsConst(globals, names, b.exprStmts[0])
      else |b.exprStmts| == 0 && IsConst(globals, names, b.final)
    case Cast(a, _) => IsConst(globals, names, a)
    case Index(a, i) => IsConst(globals, names, a) && IsConst(globals, names, i)
    case Other(_) => false
  }

  predicate AllConst(globals: set<string>, names: Whitelist, es: seq<Expr>)
    decreases es, 0
  {
    es == [] || (IsConst(globals, names, es[0]) && AllConst(globals, names, es[1..]))
  }

  // ----- Evaluation ------------------------------------------------------------------------------

  /** A value, or nothing when evaluation traps. */
  type Outcome = Option<Value>

  /** What each visible name and each imported constant denotes just now, and the rest of memory. */
  datatype State = State(vars: map<string, Outcome>, imports: map<string, Outcome>, memory: map<int, Value>)

  /**
   * The meaning of operators but `&&` and `||` is a parameter, and so is everything the checker never accepts:
   * calls, assignments, runtime fields and blocks with statements may read and change the whole state.
   */
  datatype Semantics = Semantics(
    binary: (nat, Value, Value) -> Outcome,
    unary: (nat, Value) -> Outcome,
    cast: (int, Value) -> Outcome,
    index: (Value, Value) -> Outcome,
    other: (Expr, State) -> (Outcome, State))

  const LOGAND: nat := 20
  const LOGOR: nat := 21

  /** `&&` with a false operand and `||` with a true one leave their right operand alone. */
  predicate ShortCircuits(op: nat, a: Value) {
    (op == LOGAND && a == Scalar(0)) || (op == LOGOR && a != Scalar(0))
  }

  /** `&&` and `||` yield 0 or 1. */
  function Truth(v: Value): Value {
    Scalar(if v == Scalar(0) then 0 else 1)
  }

  function Operate(sem: Semantics, op: nat, a: Value, b: Value): Outcome {
    if op == LOGAND || op == LOGOR then Some(Truth(b)) else sem.binary(op, a, b)
  }

  function Lookup(m: map<string, Outcome>, x: string): Outcome {
    if x in m then m[x] else None
  }

  function Eval(sem: Semantics, e: Expr, s: State): (Outcome, State)
    decreases e, 1
  {
    match e
    case Missing => sem.other(e, s)
    case Literal(v) => (Some(v), s)
    case Var(x) => (Lookup(s.vars, x), s)
    case Binary(op, l, r) =>
      var (a, s1) := Eval(sem, l, s);
      if a == None then (None, s1)
      else if ShortCircuits(op, a.value) then (Some(Truth(a.value)), s1)
      else
        var (b, s2) := Eval(sem, r, s1);
        (if b == None then None else Operate(sem, op, a.value, b.value), s2)
    case Unary(op, operand) =>
      var (a, s1) := Eval(sem, operand, s);
      (if a == None then None else sem.unary(op, a.value), s1)
    case ArrayLit(es) => EvalParts(sem, es, s)
    case StructLit(es) => EvalParts(sem, es, s)
    case Field(_, access) =>
      (match access
       case EnumVariant(tag) => (Some(tag), s)
       case ImportConst(path) => (Lookup(s.imports, path), s)
       case RuntimeField => sem.other(e, s))
    case Conditional(c, t, f) =>
      var (a, s1) := Eval(sem, c, s);
      if a == None then (None, s1)
      else if a.value != Scalar(0) then Eval(sem, t, s1)
      else Eval(sem, f, s1)
    case BlockExpr(b) =>
      if HasStatements(b) then sem.other(e, s)
      else if b.final == Missing && |b.exprStmts| == 1 then Eval(sem, b.exprStmts[0], s)
      else if b.final != Missing && |b.exprStmts| == 0 then Eval(sem, b.final, s)
      else sem.other(e, s)
    case Cast(operand, target) =>
      var (a, s1) := Eval(sem, operand, s);
      (if a == None then None else sem.cast(target, a.value), s1)
    case Index(base, index) =>
      var (a, s1) := Eval(sem, base, s);
      if a == None then (None, s1)
      else
        var (i, s2) := Eval(sem, index, s1);
        (if i == None then None else sem.index(a.value, i.value), s2)
    case Other(_) => sem.other(e, s)
  }

  /** Parts are evaluated in order; the first trap ends the evaluation. */
  function EvalParts(sem: Semantics, es: seq<Expr>, s: State): (Outcome, State)
    decreases es, 0
  {
    if es == [] then (Some(Aggregate([])), s)
    else
      var (a, s1) := Eval(sem, es[0], s);
      if a == None then (None, s1)
      else
        match EvalParts(sem, es[1..], s1)
        case (Some(Aggregate(rest)), s2) => (Some(Aggregate([a.value] + rest)), s2)
        case (_, s2) => (None, s2)
  }

  // ----- Soundness ---------------------------------------------------------------------------------

  /** What an expression can refer to outside itself. */
  datatype Ref = Name(name: string) | Path(path: string)

  function Meaning(s: State, r: Ref): Outcome {
    match r
    case Name(x) => Lookup(s.vars, x)
    case Path(p) => Lookup(s.imports, p)
  }

  /** The names and imported constants that evaluating an accepted expression may look up. */
  function Refs(e: Expr): set<Ref>
    decreases e, 1
  {
    match e
    case Missing => {}
    case Literal(_) => {}
    case Var(x) => {Name(x)}
    case Binary(_, l, r) => Refs(l) + Refs(r)
    case Unary(_, a) => Refs(a)
    case ArrayLit(es) => AllRefs(es)
    case StructLit(es) => AllRefs(es)
    case Field(_, access) => if access.ImportConst? then {Path(access.path)} else {}
    case Conditional(c, t, f) => Refs(c) + Refs(t) + Refs(f)
    case BlockExpr(b) =>
      if b.final != Missing then Refs(b.final) else if |b.exprStmts| == 1 then Refs(b.exprStmts[0]) else {}
    case Cast(a, _) => Refs(a)
    case Index(a, i) => Refs(a) + Refs(i)
    case Other(_) => {}
  }

  function AllRefs(es: seq<Expr>): set<Ref>
    decreases es, 0
  {
    if es == [] then {} else Refs(es[0]) + AllRefs(es[1..])
  }

  /** An accepted expression changes nothing, and evaluates alike in two states that agree on what it refers to. */
  lemma {:induction false} RefsDecide(sem: Semantics, globals: set<string>, names: Whitelist, e: Expr, s: State, t: State)
    requires IsConst(globals, names, e)
    requires forall r | r in Refs(e) :: Meaning(s, r) == Meaning(t, r)
    ensures Eval(sem, e, s) == (Eval(sem, e, t).0, s)
    ensures Eval(sem, e, t).1 == t
    decreases e, 1
  {
    match e
    case Literal(_) =>
    case Var(x) => assert Meaning(s, Name(x)) == Meaning(t, Name(x));
    case Binary(_, l, r) =>
      RefsDecide(sem, globals, names, l, s, t);
      RefsDecide(sem, globals, names, r, s, t);
    case Unary(_, a) => RefsDecide(sem, globals, names, a, s, t);
    case ArrayLit(es) => PartsDecide(sem, globals, names, es, s, t);
    case StructLit(es) => PartsDecide(sem, globals, names, es, s, t);
    case Field(_, access) => assert access.ImportConst? ==> Meaning(s, Path(access.path)) == Meaning(t, Path(access.path));
    case Conditional(c, th, el) =>
      RefsDecide(sem, globals, names, c, s, t);
      RefsDecide(sem, globals, names, th, s, t);
      RefsDecide(sem, globals, names, el, s, t);
    case BlockExpr(b) =>
      if b.final == Missing {
        RefsDecide(sem, globals, names, b.exprStmts[0], s, t);
      } else {
        RefsDecide(sem, globals, names, b.final, s, t);
      }
    case Cast(a, _) => RefsDecide(sem, globals, names, a, s, t);
    case Index(a, i) =>
      RefsDecide(sem, globals, names, a, s, t);
      RefsDecide(sem, globals, names, i, s, t);
  }

  lemma {:induction false} PartsDecide(sem: Semantics, globals: set<string>, names: Whitelist, es: seq<Expr>,
                                       s: State, t: State)
    requires AllConst(globals, names, es)
    requires forall r | r in AllRefs(es) :: Meaning(s, r) == Meaning(t, r)
    ensures EvalParts(sem, es, s) == (EvalParts(sem, es, t).0, s)
    ensures EvalParts(sem, es, t).1 == t
    decreases es, 0
  {
    if es != [] {
      RefsDecide(sem, globals, names, es[0], s, t);
      PartsDecide(sem, globals, names, es[1..], s, t);
    }
  }

  /** An accepted expression refers to trusted names, and with a whitelist to imported constants. */
  lemma {:induction false} RefsAreTrusted(globals: set<string>, names: Whitelist, e: Expr)
    requires IsConst(globals, names, e)
    ensures forall r | r in Refs(e) :: if r.Name? then Trusted(globals, names, r.name) else names.Some?
    decreases e, 1
  {
    match e
    case Literal(_) =>
    case Var(_) =>
    case Binary(_, l, r) =>
      RefsAreTrusted(globals, names, l);
      RefsAreTrusted(globals, names, r);
    case Unary(_, a) => RefsAreTrusted(globals, names, a);
    case ArrayLit(es) => AllRefsAreTrusted(globals, names, es);
    case StructLit(es) => AllRefsAreTrusted(globals, names, es);
    case Field(_, _) =>
    case Conditional(c, t, f) =>
      RefsAreTrusted(globals, names, c);
      RefsAreTrusted(globals, names, t);
      RefsAreTrusted(globals, names, f);
    case BlockExpr(b) =>
      if b.final == Missing {
        RefsAreTrusted(globals, names, b.exprStmts[0]);
      } else {
        RefsAreTrusted(globals, names, b.final);
      }
    case Cast(a, _) => RefsAreTrusted(globals, names, a);
    case Index(a, i) =>
      RefsAreTrusted(globals, names, a);
      RefsAreTrusted(globals, names, i);
  }

  lemma {:induction false} AllRefsAreTrusted(globals: set<string>, names: Whitelist, es: seq<Expr>)
    requires AllConst(globals, names, es)
    ensures forall r | r in AllRefs(es) :: if r.Name? then Trusted(globals, names, r.name) else names.Some?
    decreases es, 0
  {
    if es != [] {
      RefsAreTrusted(globals, names, es[0]);
      AllRefsAreTrusted(globals, names, es[1..]);
    }
  }

  /** The two states give the trusted names and the imported constants the same meaning; all else may differ. */
  ghost predicate Agree(globals: set<string>, names: Whitelist, s: State, t: State) {
    && (forall x | Trusted(globals, names, x) :: Lookup(s.vars, x) == Lookup(t.vars, x))
    && (names.Some? ==> s.imports == t.imports)
  }

  /** An accepted expression changes nothing, and evaluates alike in any two states that agree. */
  lemma AcceptedIsConstant(sem: Semantics, globals: set<string>, names: Whitelist, e: Expr, s: State, t: State)
    requires IsConst(globals, names, e) && Agree(globals, names, s, t)
    ensures Eval(sem, e, s) == (Eval(sem, e, t).0, s)
    ensures Eval(sem, e, t).1 == t
  {
    RefsAreTrusted(globals, names, e);
    RefsDecide(sem, globals, names, e, s, t);
  }

  /** Without a whitelist no agreement is needed: the value is fixed by the expression alone. */
  lemma PureLiteralNeedsNoState(sem: Semantics, globals: set<string>, e: Expr, s: State, t: State)
    requires IsConst(globals, None, e)
    ensures Eval(sem, e, s).0 == Eval(sem, e, t).0
  {
    AcceptedIsConstant(sem, globals, None, e, s, t);
  }

  /** A longer whitelist accepts no less. */
  lemma {:induction false} MoreNamesAcceptMore(globals: set<string>, a: seq<string>, b: seq<string>, e: Expr)
    requires IsConst(globals, Some(a), e) && forall x | x in a :: x in b
    ensures IsConst(globals, Some(b), e)
    decreases e, 1
  {
    match e
    case Literal(_) =>
    case Var(_) =>
    case Binary(_, l, r) =>
      MoreNamesAcceptMore(globals, a, b, l);
      MoreNamesAcceptMore(globals, a, b, r);
    case Unary(_, o) => MoreNamesAcceptMore(globals, a, b, o);
    case ArrayLit(es) => MoreNamesAcceptMoreParts(globals, a, b, es);
    case StructLit(es) => MoreNamesAcceptMoreParts(globals, a, b, es);
    case Field(_, _) =>
    case Conditional(c, t, f) =>
      MoreNamesAcceptMore(globals, a, b, c);
      MoreNamesAcceptMore(globals, a, b, t);
      MoreNamesAcceptMore(globals, a, b, f);
    case BlockExpr(bl) =>
      if bl.final == Missing {
        MoreNamesAcceptMore(globals, a, b, bl.exprStmts[0]);
      } else {
        MoreNamesAcceptMore(globals, a, b, bl.final);
      }
    case Cast(o, _) => MoreNamesAcceptMore(globals, a, b, o);
    case Index(o, i) =>
      MoreNamesAcceptMore(globals, a, b, o);
      MoreNamesAcceptMore(globals, a, b, i);
  }

  lemma {:induction false} MoreNamesAcceptMoreParts(globals: set<string>, a: seq<string>, b: seq<string>, es: seq<Expr>)
    requires AllConst(globals, Some(a), es) && forall x | x in a :: x in b
    ensures AllConst(globals, Some(b), es)
    decreases es, 0
  {
    if es != [] {
      MoreNamesAcceptMore(globals, a, b, es[0]);
      MoreNamesAcceptMoreParts(globals, a, b, es[1..]);
    }
  }

  // ----- The constants of a block --------------------------------------------------------------------

  datatype ConstDecl = ConstDecl(name: string, init: Expr)

  const MAX_NAMES := 64

  predicate ListableName(x: string) {
    0 < |x| < 64
  }

  /** At most 64 names of earlier constants, those of unusual length left out. */
  function EarlierNames(consts: seq<ConstDecl>, i: nat): (names: seq<string>)
    requires i <= |consts|
    ensures |names| <= MAX_NAMES
    ensures forall x | x in names :: exists j :: 0 <= j < i && consts[j].name == x
  {
    if i == 0 then []
    else
      var names := EarlierNames(consts, i - 1);
      if |names| < MAX_NAMES && ListableName(consts[i - 1].name) then names + [consts[i - 1].name] else names
  }

  method CollectNames(consts: seq<ConstDecl>, constIdx: int) returns (names: seq<string>)
    requires 0 <= constIdx <= |consts|
    ensures names == EarlierNames(consts, constIdx)
  {
    names := [];
    var i := 0;
    while i < constIdx && |names| < MAX_NAMES
      invariant 0 <= i <= constIdx && names == EarlierNames(consts, i)
    {
      if ListableName(consts[i].name) {
        names := names + [consts[i].name];
      }
      i := i + 1;
    }
    FullListStays(consts, i, constIdx);
  }

  lemma {:induction false} FullListStays(consts: seq<ConstDecl>, i: nat, j: nat)
    requires i <= j <= |consts| && (i == j || |EarlierNames(consts, i)| == MAX_NAMES)
    ensures EarlierNames(consts, j) == EarlierNames(consts, i)
  {
    if i < j {
      FullListStays(consts, i, j - 1);
    }
  }

  /** A constant without initialiser passes; any other is checked against the constants before it. */
  predicate InitIsConst(globals: set<string>, consts: seq<ConstDecl>, i: nat)
    requires i < |consts|
  {
    consts[i].init == Missing || IsConst(globals, Some(EarlierNames(consts, i)), consts[i].init)
  }

  method CheckInit(globals: set<string>, consts: seq<ConstDecl>, constIdx: int) returns (ok: bool)
    requires constIdx < |consts|
    ensures ok <==> constIdx >= 0 && InitIsConst(globals, consts, constIdx)
  {
    if constIdx < 0 {
      return false;
    }
    var names := CollectNames(consts, constIdx);
    var init := consts[constIdx].init;
    if init == Missing {
      return true;
    }
    return IsConst(globals, Some(names), init);
  }

  /** A constant without initialiser has no value. */
  function InitValue(sem: Semantics, init: Expr, s: State): Outcome {
    if init == Missing then None else Eval(sem, init, s).0
  }

  /** The state after evaluating the first `i` constants in declaration order. */
  function InOrder(sem: Semantics, consts: seq<ConstDecl>, base: State, i: nat): (s: State)
    requires i <= |consts|
    ensures s.imports == base.imports && s.memory == base.memory
  {
    if i == 0 then base
    else
      var s := InOrder(sem, consts, base, i - 1);
      var c := consts[i - 1];
      s.(vars := s.vars[c.name := InitValue(sem, c.init, s)])
  }

  ghost predicate DistinctNames(consts: seq<ConstDecl>) {
    forall i, j | 0 <= i < j < |consts| :: consts[i].name != consts[j].name
  }

  ghost predicate Accepted(globals: set<string>, consts: seq<ConstDecl>) {
    forall i | 0 <= i < |consts| :: InitIsConst(globals, consts, i)
  }

  /** `s` extends `base` by the constants of the block and nothing else. */
  ghost predicate Extends(consts: seq<ConstDecl>, base: State, s: State) {
    && s.imports == base.imports && s.memory == base.memory
    && (forall i | 0 <= i < |consts| :: consts[i].name in s.vars)
    && (forall x | x in s.vars && x !in base.vars :: exists i :: 0 <= i < |consts| && consts[i].name == x)
    && (forall x | x in base.vars :: x in s.vars)
    && (forall x | x in base.vars && (forall i | 0 <= i < |consts| :: consts[i].name != x) :: s.vars[x] == base.vars[x])
  }

  /** Every definition holds as an equation in which all the constants are visible at once. */
  ghost predicate Solves(sem: Semantics, consts: seq<ConstDecl>, base: State, s: State) {
    && Extends(consts, base, s)
    && forall i | 0 <= i < |consts| :: s.vars[consts[i].name] == InitValue(sem, consts[i].init, s)
  }

  lemma {:induction false} InOrderKeeps(sem: Semantics, consts: seq<ConstDecl>, base: State, i: nat, j: nat, x: string)
    requires i <= j <= |consts|
    requires forall k | i <= k < j :: consts[k].name != x
    ensures Lookup(InOrder(sem, consts, base, j).vars, x) == Lookup(InOrder(sem, consts, base, i).vars, x)
    ensures x in InOrder(sem, consts, base, j).vars <==> x in InOrder(sem, consts, base, i).vars
  {
    if i < j {
      InOrderKeeps(sem, consts, base, i, j - 1, x);
    }
  }

  /** No initialiser mentions a constant of the block that is declared at or after it. */
  ghost predicate MentionsOnlyEarlier(consts: seq<ConstDecl>) {
    forall i, j | 0 <= i <= j < |consts| :: Name(consts[j].name) !in Refs(consts[i].init)
  }

  /** States that agree on the first `i` constants and on every other name agree on what initialiser `i` refers to. */
  lemma AgreeBeforeInit(consts: seq<ConstDecl>, i: nat, s: State, t: State)
    requires i < |consts| && MentionsOnlyEarlier(consts) && s.imports == t.imports
    requires forall j | 0 <= j < i :: Lookup(s.vars, consts[j].name) == Lookup(t.vars, consts[j].name)
    requires forall x | (forall j | 0 <= j < |consts| :: consts[j].name != x) :: Lookup(s.vars, x) == Lookup(t.vars, x)
    ensures forall r | r in Refs(consts[i].init) :: Meaning(s, r) == Meaning(t, r)
  {
    forall r | r in Refs(consts[i].init)
      ensures Meaning(s, r) == Meaning(t, r)
    {
      if r.Name? {
        if j :| 0 <= j < |consts| && consts[j].name == r.name {
          assert j < i by {
            assert Name(consts[j].name) in Refs(consts[i].init);
          }
        }
      }
    }
  }

  /** `s` extends `base` by the first `i` constants of the block and nothing else. */
  ghost predicate ExtendsFirst(consts: seq<ConstDecl>, base: State, s: State, i: nat)
    requires i <= |consts|
  {
    && (forall j | 0 <= j < i :: consts[j].name in s.vars)
    && (forall x | x in base.vars :: x in s.vars)
    && (forall x | x in s.vars && x !in base.vars :: exists j :: 0 <= j < i && consts[j].name == x)
    && (forall x | x in base.vars && (forall j | 0 <= j < i :: consts[j].name != x) :: s.vars[x] == base.vars[x])
  }

  lemma {:induction false} InOrderExtends(sem: Semantics, consts: seq<ConstDecl>, base: State, i: nat)
    requires i <= |consts|
    ensures ExtendsFirst(consts, base, InOrder(sem, consts, base, i), i)
  {
    if i > 0 {
      InOrderExtends(sem, consts, base, i - 1);
    }
  }

  /** Evaluation in declaration order satisfies every definition. */
  lemma InOrderSolves(sem: Semantics, globals: set<string>, consts: seq<ConstDecl>, base: State)
    requires DistinctNames(consts) && MentionsOnlyEarlier(consts) && Accepted(globals, consts)
    ensures Solves(sem, consts, base, InOrder(sem, consts, base, |consts|))
  {
    var end := InOrder(sem, consts, base, |consts|);
    InOrderExtends(sem, consts, base, |consts|);
    forall i | 0 <= i < |consts|
      ensures end.vars[consts[i].name] == InitValue(sem, consts[i].init, end)
    {
      EquationHolds(sem, globals, consts, base, i);
    }
  }

  lemma EquationHolds(sem: Semantics, globals: set<string>, consts: seq<ConstDecl>, base: State, i: nat)
    requires DistinctNames(consts) && MentionsOnlyEarlier(consts) && Accepted(globals, consts) && i < |consts|
    ensures var end := InOrder(sem, consts, base, |consts|);
            Lookup(end.vars, consts[i].name) == InitValue(sem, consts[i].init, end)
  {
    var s, end := InOrder(sem, consts, base, i), InOrder(sem, consts, base, |consts|);
    InOrderKeeps(sem, consts, base, i + 1, |consts|, consts[i].name);
    assert InitIsConst(globals, consts, i);
    if consts[i].init != Missing {
      EarlierStay(sem, consts, base, i);
      AgreeBeforeInit(consts, i, s, end);
      RefsDecide(sem, globals, Some(EarlierNames(consts, i)), consts[i].init, s, end);
    }
  }

  lemma EarlierStay(sem: Semantics, consts: seq<ConstDecl>, base: State, i: nat)
    requires i <= |consts| && DistinctNames(consts)
    ensures var s, end := InOrder(sem, consts, base, i), InOrder(sem, consts, base, |consts|);
            && (forall j | 0 <= j < i :: Lookup(s.vars, consts[j].name) == Lookup(end.vars, consts[j].name))
            && (forall x | (forall j | 0 <= j < |consts| :: consts[j].name != x) :: Lookup(s.vars, x) == Lookup(end.vars, x))
  {
    var s, end := InOrder(sem, consts, base, i), InOrder(sem, consts, base, |consts|);
    forall j | 0 <= j < i
      ensures Lookup(s.vars, consts[j].name) == Lookup(end.vars, consts[j].name)
    {
      InOrderKeeps(sem, consts, base, i, |consts|, consts[j].name);
    }
    forall x | (forall j | 0 <= j < |consts| :: consts[j].name != x)
      ensures Lookup(s.vars, x) == Lookup(end.vars, x)
    {
      InOrderKeeps(sem, consts, base, i, |consts|, x);
    }
  }

  /** The first `i` constants have the same values. */
  ghost predicate SameFirst(consts: seq<ConstDecl>, a: map<string, Outcome>, b: map<string, Outcome>, i: nat)
    requires i <= |consts|
  {
    forall j | 0 <= j < i :: Lookup(a, consts[j].name) == Lookup(b, consts[j].name)
  }

  /** Constant `i` has the value that evaluation in order gives it if the constants before it have. */
  ghost predicate FollowsAt(sem: Semantics, consts: seq<ConstDecl>, base: State, sol: map<string, Outcome>, i: nat)
    requires i < |consts|
  {
    var s := InOrder(sem, consts, base, i);
    SameFirst(consts, s.vars, sol, i) ==> Lookup(sol, consts[i].name) == InitValue(sem, consts[i].init, s)
  }

  /** Then any solution has the value of each constant that evaluation in order gives it. */
  lemma {:induction false} SolutionFollowsOrder(sem: Semantics, consts: seq<ConstDecl>, base: State,
                                                sol: map<string, Outcome>, i: nat)
    requires DistinctNames(consts) && i <= |consts|
    requires forall k | 0 <= k < i :: FollowsAt(sem, consts, base, sol, k)
    ensures SameFirst(consts, InOrder(sem, consts, base, i).vars, sol, i)
    decreases i
  {
    if i > 0 {
      var s := InOrder(sem, consts, base, i - 1);
      SolutionFollowsOrder(sem, consts, base, sol, i - 1);
      assert FollowsAt(sem, consts, base, sol, i - 1);
      FollowsOneMore(consts, s.vars, sol, i - 1, InitValue(sem, consts[i - 1].init, s));
    }
  }

  lemma SolutionFollows(sem: Semantics, globals: set<string>, consts: seq<ConstDecl>, base: State, sol: State)
    requires DistinctNames(consts) && MentionsOnlyEarlier(consts) && Accepted(globals, consts)
    requires Solves(sem, consts, base, sol)
    ensures SameFirst(consts, InOrder(sem, consts, base, |consts|).vars, sol.vars, |consts|)
  {
    forall k | 0 <= k < |consts|
      ensures FollowsAt(sem, consts, base, sol.vars, k)
    {
      if SameFirst(consts, InOrder(sem, consts, base, k).vars, sol.vars, k) {
        NextValueFollows(sem, globals, consts, base, sol, k);
      }
    }
    SolutionFollowsOrder(sem, consts, base, sol.vars, |consts|);
  }

  lemma FollowsOneMore(consts: seq<ConstDecl>, vars: map<string, Outcome>, sol: map<string, Outcome>, i: nat, v: Outcome)
    requires i < |consts| && DistinctNames(consts) && Lookup(sol, consts[i].name) == v
    requires SameFirst(consts, vars, sol, i)
    ensures SameFirst(consts, vars[consts[i].name := v], sol, i + 1)
  {
  }

  lemma NextValueFollows(sem: Semantics, globals: set<string>, consts: seq<ConstDecl>, base: State, sol: State, i: nat)
    requires MentionsOnlyEarlier(consts) && Accepted(globals, consts)
    requires Extends(consts, base, sol) && i < |consts|
    requires SameFirst(consts, InOrder(sem, consts, base, i).vars, sol.vars, i)
    ensures InitValue(sem, consts[i].init, InOrder(sem, consts, base, i)) == InitValue(sem, consts[i].init, sol)
  {
    var s := InOrder(sem, consts, base, i);
    assert InitIsConst(globals, consts, i);
    if consts[i].init != Missing {
      InOrderExtends(sem, consts, base, i);
      OutsideAgrees(consts, base, s, sol, i);
      AgreeBeforeInit(consts, i, s, sol);
      RefsDecide(sem, globals, Some(EarlierNames(consts, i)), consts[i].init, s, sol);
    }
  }

  lemma OutsideAgrees(consts: seq<ConstDecl>, base: State, s: State, sol: State, i: nat)
    requires i <= |consts| && Extends(consts, base, sol) && ExtendsFirst(consts, base, s, i)
    ensures forall x | (forall j | 0 <= j < |consts| :: consts[j].name != x) :: Lookup(s.vars, x) == Lookup(sol.vars, x)
  {
  }

  /**
   * When every initialiser is accepted and mentions only earlier constants of the block, the
   * definitions have exactly one solution, and evaluation in declaration order computes it.
   */
  lemma UniqueSolution(sem: Semantics, globals: set<string>, consts: seq<ConstDecl>, base: State, sol: State)
    requires DistinctNames(consts) && MentionsOnlyEarlier(consts) && Accepted(globals, consts)
    ensures Solves(sem, consts, base, sol) <==> sol == InOrder(sem, consts, base, |consts|)
  {
    var end := InOrder(sem, consts, base, |consts|);
    InOrderSolves(sem, globals, consts, base);
    if Solves(sem, consts, base, sol) {
      SolutionFollows(sem, globals, consts, base, sol);
      InOrderExtends(sem, consts, base, |consts|);
      SameVars(consts, base, end, sol);
    }
  }

  lemma SameVars(consts: seq<ConstDecl>, base: State, a: State, b: State)
    requires Extends(consts, base, a) && Extends(consts, base, b)
    requires forall j | 0 <= j < |consts| :: Lookup(a.vars, consts[j].name) == Lookup(b.vars, consts[j].name)
    ensures a == b
  {
    forall x
      ensures x in a.vars <==> x in b.vars
      ensures x in a.vars ==> a.vars[x] == b.vars[x]
    {
      if j :| 0 <= j < |consts| && consts[j].name == x {
        assert Lookup(a.vars, consts[j].name) == Lookup(b.vars, consts[j].name);
      }
    }
    assert a.vars == b.vars;
  }

  /** Hiding a module constant breaks this: `const a = x; const x = 1` passes, but the order gives `a` the module's `x`. */
  lemma HidingAGlobalIsAccepted(sem: Semantics)
    ensures var globals := {"x"};
            var consts := [ConstDecl("a", Var("x")), ConstDecl("x", Literal(Scalar(1)))];
            var base := State(map["x" := Some(Scalar(7))], map[], map[]);
            && DistinctNames(consts) && Accepted(globals, consts)
            && !Solves(sem, consts, base, InOrder(sem, consts, base, 2))
  {
    var globals := {"x"};
    var consts := [ConstDecl("a", Var("x")), ConstDecl("x", Literal(Scalar(1)))];
    var base := State(map["x" := Some(Scalar(7))], map[], map[]);
    assert Trusted(globals, Some(EarlierNames(consts, 0)), "x");
    var s1 := InOrder(sem, consts, base, 1);
    assert InOrder(sem, consts, base, 0) == base && InitValue(sem, Var("x"), base) == Some(Scalar(7));
    assert s1.vars["a"] == Some(Scalar(7));
    var s2 := InOrder(sem, consts, base, 2);
    assert s2.vars["a"] == Some(Scalar(7)) && s2.vars["x"] == Some(Scalar(1));
    assert consts[0].name == "a" && InitValue(sem, consts[0].init, s2) == Some(Scalar(1));
  }
}
