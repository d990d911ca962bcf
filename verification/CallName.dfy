/** Which function name a call is linked to: the overload search of the code generator. */
module CallName {
  import opened Bytes
  import opened Options

  datatype Func = Func(name: seq<byte>, params: seq<int>, isExtern: bool, noMangle: bool)

  /** A module; `id` stands for its address, by which modules are compared. */
  datatype Module = Module(id: nat, funcs: seq<Func>)

  /** Type references are local to an arena, named here by its address. */
  datatype Dep = Dep(mod: Option<Module>, arena: nat)

  datatype Context = Context(deps: seq<Dep>, currentCodegen: Option<Module>)

  /** An argument: its resolved type, and for a cast the type it casts to. */
  datatype Arg = Arg(resolved: int, isCast: bool, castTo: int)

  datatype Call = Call(
    funcIx: int, depIx: int,
    isMethod: bool, methodArgs: seq<Option<Arg>>, callArgs: seq<Option<Arg>>)
  {
    function Args(): seq<Option<Arg>> {
      if isMethod then methodArgs else callArgs
    }
  }

  /** What is written: the link name of function `fi` of a module, with its types read in `arena`, or the bare name. */
  datatype Emitted = LinkName(arena: nat, mod: Module, fi: nat) | BareName

  /** The mangling suffix of a type reference in an arena; empty when there is none. */
  type Suffix = (nat, int) -> seq<byte>

  // ----- Where the call is looked up ------------------------------------------------------------

  predicate InRange(ctx: Context, i: int) {
    0 <= i < |ctx.deps|
  }

  /** The arena of the first dependency holding the module, or `otherwise`. */
  function ArenaOf(deps: seq<Dep>, mod: Module, otherwise: nat): nat {
    if deps == [] then otherwise
    else if deps[0].mod == Some(mod) then deps[0].arena
    else ArenaOf(deps[1..], mod, otherwise)
  }

  method FindArena(ctx: Context, mod: Module, otherwise: nat) returns (arena: nat)
    ensures arena == ArenaOf(ctx.deps, mod, otherwise)
  {
    var di := 0;
    while di < |ctx.deps|
      invariant 0 <= di <= |ctx.deps|
      invariant ArenaOf(ctx.deps, mod, otherwise) == ArenaOf(ctx.deps[di..], mod, otherwise)
    {
      if ctx.deps[di].mod == Some(mod) {
        return ctx.deps[di].arena;
      }
      assert ctx.deps[di..][1..] == ctx.deps[di + 1..];
      di := di + 1;
    }
    return otherwise;
  }

  /** The module a call is looked up in: the dependency it was resolved to, or the current module. */
  function SearchModule(ctx: Context, call: Call, current: Option<Module>): Option<Module> {
    if InRange(ctx, call.depIx) then ctx.deps[call.depIx].mod else current
  }

  /** The arena that the types of that module are read in. */
  function SearchArena(ctx: Context, call: Call, current: Option<Module>, arena: nat): nat {
    if InRange(ctx, call.depIx) then ctx.deps[call.depIx].arena
    else if current.Some? then ArenaOf(ctx.deps, current.value, arena)
    else arena
  }

  /** The arena after the second look for it, made when the first one gave the arena of the call. */
  function Rebound(ctx: Context, call: Call, current: Option<Module>, arena: nat): nat {
    var mod, found := SearchModule(ctx, call, current), SearchArena(ctx, call, current, arena);
    if mod.Some? && found == arena && mod != ctx.currentCodegen then ArenaOf(ctx.deps, mod.value, found) else found
  }

  lemma {:induction false} ArenaOfFirst(deps: seq<Dep>, mod: Module, otherwise: nat, d: nat)
    requires d < |deps| && deps[d].mod == Some(mod)
    requires forall i | 0 <= i < d :: deps[i].mod != Some(mod)
    ensures ArenaOf(deps, mod, otherwise) == deps[d].arena
  {
    if d > 0 {
      assert deps[0].mod != Some(mod);
      assert forall i | 0 <= i < d - 1 :: deps[1..][i] == deps[i + 1];
      ArenaOfFirst(deps[1..], mod, otherwise, d - 1);
    }
  }

  lemma {:induction false} ArenaOfKeeps(deps: seq<Dep>, mod: Module, otherwise: nat)
    ensures ArenaOf(deps, mod, ArenaOf(deps, mod, otherwise)) == ArenaOf(deps, mod, otherwise)
  {
    if deps != [] && deps[0].mod != Some(mod) {
      ArenaOfKeeps(deps[1..], mod, otherwise);
    }
  }

  /** The second look changes the arena only for a module listed twice among the dependencies. */
  lemma SecondLookIsForRepeats(ctx: Context, call: Call, current: Option<Module>, arena: nat)
    requires Rebound(ctx, call, current, arena) != SearchArena(ctx, call, current, arena)
    ensures InRange(ctx, call.depIx)
    ensures exists i :: 0 <= i < call.depIx && ctx.deps[i].mod == ctx.deps[call.depIx].mod
  {
    var mod := SearchModule(ctx, call, current).value;
    if InRange(ctx, call.depIx) {
      if forall i | 0 <= i < call.depIx :: ctx.deps[i].mod != Some(mod) {
        ArenaOfFirst(ctx.deps, mod, arena, call.depIx);
      }
    } else {
      ArenaOfKeeps(ctx.deps, mod, arena);
    }
  }

  // ----- The three tiers ---------------------------------------------------------------------------

  /** Everything the overload search looks at. */
  datatype Search = Search(funcs: seq<Func>, name: seq<byte>, args: seq<Option<Arg>>,
                           callArena: nat, modArena: nat, suffix: Suffix)

  function ArgType(a: Arg): int {
    if a.resolved <= 0 && a.isCast && a.castTo > 0 then a.castTo else a.resolved
  }

  /** The argument and the parameter have the same mangling suffix, each in its own arena. */
  predicate TypesAgree(s: Search, a: Option<Arg>, param: int) {
    a.Some? &&
    var want := s.suffix(s.callArena, ArgType(a.value));
    want != [] && want == s.suffix(s.modArena, param)
  }

  datatype Tier = Exact | Bound | Arity

  predicate HasArity(s: Search, f: Func) {
    f.name == s.name && f.name != [] && |f.params| == |s.args|
  }

  /** Exact overloads agree in every type; bound ones are extern or keep their plain name. */
  predicate InTier(s: Search, t: Tier, f: Func) {
    HasArity(s, f) &&
    match t
    case Exact => forall i | 0 <= i < |s.args| :: TypesAgree(s, s.args[i], f.params[i])
    case Bound => f.isExtern || f.noMangle
    case Arity => true
  }

  /** `fi` is the only function of its tier. */
  predicate Picks(s: Search, t: Tier, fi: nat) {
    fi < |s.funcs| && InTier(s, t, s.funcs[fi]) &&
    forall i | 0 <= i < |s.funcs| && InTier(s, t, s.funcs[i]) :: i == fi
  }

  ghost predicate NoPick(s: Search, t: Tier) {
    forall fi :: !Picks(s, t, fi)
  }

  /** The outcome: the only exact overload, else the only bound one, else the only one of that arity, else none. */
  ghost predicate Resolves(s: Search, r: Option<nat>) {
    match r
    case None => NoPick(s, Exact) && NoPick(s, Bound) && NoPick(s, Arity)
    case Some(fi) =>
      || Picks(s, Exact, fi)
      || (NoPick(s, Exact) && Picks(s, Bound, fi))
      || (NoPick(s, Exact) && NoPick(s, Bound) && Picks(s, Arity, fi))
  }

  lemma ResolutionIsUnique(s: Search, a: Option<nat>, b: Option<nat>)
    requires Resolves(s, a) && Resolves(s, b)
    ensures a == b
  {
    if a.Some? && b.Some? && a.value != b.value {
      forall t
        ensures !(Picks(s, t, a.value) && Picks(s, t, b.value))
      {
      }
    }
  }

  lemma PicksUnrelated(s: Search, f: Func, t: Tier, fi: nat)
    requires !HasArity(s, f)
    ensures Picks(s, t, fi) <==> Picks(s.(funcs := s.funcs + [f]), t, fi)
  {
    var more := s.(funcs := s.funcs + [f]);
    assert more.funcs[|s.funcs|] == f;
    assert forall g :: InTier(s, t, g) == InTier(more, t, g);
    assert forall i | 0 <= i < |s.funcs| :: more.funcs[i] == s.funcs[i];
    if Picks(more, t, fi) {
      assert forall i | 0 <= i < |s.funcs| && InTier(s, t, s.funcs[i]) :: InTier(more, t, more.funcs[i]);
    }
  }

  /** Functions of other names or arities have no influence on the outcome. */
  lemma UnrelatedFunctionsDoNotMatter(s: Search, f: Func, r: Option<nat>)
    requires !HasArity(s, f)
    ensures Resolves(s, r) <==> Resolves(s.(funcs := s.funcs + [f]), r)
  {
    forall t, fi: nat
      ensures Picks(s, t, fi) <==> Picks(s.(funcs := s.funcs + [f]), t, fi)
    {
      PicksUnrelated(s, f, t, fi);
    }
    forall t
      ensures NoPick(s, t) <==> NoPick(s.(funcs := s.funcs + [f]), t)
    {
    }
  }

  // ----- Counting ----------------------------------------------------------------------------------

  /** How many of the first `n` functions are in the tier. */
  function Count(s: Search, t: Tier, n: nat): nat
    requires n <= |s.funcs|
  {
    if n == 0 then 0 else Count(s, t, n - 1) + if InTier(s, t, s.funcs[n - 1]) then 1 else 0
  }

  /** `fi` is the last of the first `n` functions in the tier, or -1. */
  predicate IsLast(s: Search, t: Tier, n: nat, fi: int)
    requires n <= |s.funcs|
  {
    (fi == -1 || (0 <= fi < n && InTier(s, t, s.funcs[fi]))) &&
    forall i | fi < i < n && 0 <= i :: !InTier(s, t, s.funcs[i])
  }

  lemma {:induction false} CountZero(s: Search, t: Tier, n: nat)
    requires n <= |s.funcs|
    ensures Count(s, t, n) == 0 <==> forall i | 0 <= i < n :: !InTier(s, t, s.funcs[i])
  {
    if n > 0 {
      CountZero(s, t, n - 1);
    }
  }

  lemma {:induction false} CountOne(s: Search, t: Tier, n: nat, fi: int)
    requires n <= |s.funcs| && IsLast(s, t, n, fi)
    ensures Count(s, t, n) == 1 <==> fi >= 0 && forall i | 0 <= i < n && InTier(s, t, s.funcs[i]) :: i == fi
  {
    if fi == n - 1 && n > 0 {
      CountZero(s, t, n - 1);
    } else if n > 0 {
      CountOne(s, t, n - 1, fi);
    }
  }

  lemma CountPicks(s: Search, t: Tier, fi: int)
    requires IsLast(s, t, |s.funcs|, fi)
    ensures if Count(s, t, |s.funcs|) == 1 then fi >= 0 && Picks(s, t, fi) else NoPick(s, t)
  {
    CountOne(s, t, |s.funcs|, fi);
  }

  method NamesMatch(a: seq<byte>, b: seq<byte>) returns (matched: bool)
    ensures matched <==> a == b && a != []
  {
    matched := false;
    if |a| == |b| && |a| > 0 {
      matched := true;
      var i := 0;
      while i < |a|
        invariant 0 <= i <= |a|
        invariant if matched then a[..i] == b[..i] else i == |a| && a != b
      {
        if a[i] != b[i] {
          matched, i := false, |a|;
        } else {
          i := i + 1;
        }
      }
    }
  }

  method TypesMatch(s: Search, f: Func) returns (matched: bool)
    requires |f.params| == |s.args|
    ensures matched <==> forall i | 0 <= i < |s.args| :: TypesAgree(s, s.args[i], f.params[i])
  {
    matched := true;
    var pi := 0;
    while pi < |f.params| && matched
      invariant 0 <= pi <= |f.params|
      invariant matched <==> forall i | 0 <= i < pi :: TypesAgree(s, s.args[i], f.params[i])
    {
      if s.args[pi] == None {
        matched := false;
      } else {
        var argType := ArgType(s.args[pi].value);
        var sa := s.suffix(s.callArena, argType);
        var sb := s.suffix(s.modArena, f.params[pi]);
        if |sa| != |sb| || |sa| <= 0 {
          matched := false;
        } else {
          matched := NamesMatch(sa, sb);
        }
      }
      pi := pi + 1;
    }
  }

  /** The search by exact types. */
  method FindExact(s: Search) returns (found: int, count: nat)
    ensures IsLast(s, Exact, |s.funcs|, found) && count == Count(s, Exact, |s.funcs|)
  {
    found, count := -1, 0;
    var fi := 0;
    while fi < |s.funcs|
      invariant 0 <= fi <= |s.funcs|
      invariant IsLast(s, Exact, fi, found) && count == Count(s, Exact, fi)
    {
      var f := s.funcs[fi];
      var matched := NamesMatch(f.name, s.name);
      if matched && |f.params| == |s.args| {
        var typesMatch := TypesMatch(s, f);
        if typesMatch {
          found, count := fi, count + 1;
        }
      }
      fi := fi + 1;
    }
  }

  /** The search by arity, which also looks for extern and unmangled functions. */
  method FindByArity(s: Search) returns (arity: int, arityCount: nat, bound: int, boundCount: nat)
    ensures IsLast(s, Arity, |s.funcs|, arity) && arityCount == Count(s, Arity, |s.funcs|)
    ensures IsLast(s, Bound, |s.funcs|, bound) && boundCount == Count(s, Bound, |s.funcs|)
  {
    arity, arityCount, bound, boundCount := -1, 0, -1, 0;
    var fi := 0;
    while fi < |s.funcs|
      invariant 0 <= fi <= |s.funcs|
      invariant IsLast(s, Arity, fi, arity) && arityCount == Count(s, Arity, fi)
      invariant IsLast(s, Bound, fi, bound) && boundCount == Count(s, Bound, fi)
    {
      var f := s.funcs[fi];
      var matched := NamesMatch(f.name, s.name);
      if matched && |f.params| == |s.args| {
        arity, arityCount := fi, arityCount + 1;
        if f.isExtern || f.noMangle {
          bound, boundCount := fi, boundCount + 1;
        }
      }
      fi := fi + 1;
    }
  }

  method Resolve(s: Search) returns (r: Option<nat>)
    ensures Resolves(s, r)
    ensures r.Some? ==> r.value < |s.funcs| && HasArity(s, s.funcs[r.value])
  {
    var found, count := FindExact(s);
    CountPicks(s, Exact, found);
    if count == 1 && found >= 0 {
      return Some(found);
    }
    var arity, arityCount, bound, boundCount := FindByArity(s);
    CountPicks(s, Arity, arity);
    CountPicks(s, Bound, bound);
    if boundCount == 1 && bound >= 0 {
      return Some(bound);
    }
    if arityCount == 1 && arity >= 0 {
      return Some(arity);
    }
    return None;
  }

  // ----- The whole call ------------------------------------------------------------------------------

  /** The type checker has already resolved the call to function `funcIx` of the module it is looked up in. */
  predicate IsResolved(ctx: Context, call: Call, current: Option<Module>) {
    var mod := SearchModule(ctx, call, current);
    mod.Some? && 0 <= call.funcIx < |mod.value.funcs|
  }

  function SearchOf(ctx: Context, arena: nat, call: Call, mod: Module, current: Option<Module>, name: seq<byte>,
                    suffix: Suffix): Search {
    Search(mod.funcs, name, call.Args(), arena, Rebound(ctx, call, current, arena), suffix)
  }

  /** A null context or arena is given as None. */
  method EmitCallFuncName(ctx: Option<Context>, arena: Option<nat>, call: Call, current: Option<Module>,
                          name: seq<byte>, suffix: Suffix) returns (r: Emitted)
    ensures ctx == None || arena == None ==> r == BareName
    ensures ctx.Some? && arena.Some? ==>
              var mod := SearchModule(ctx.value, call, current);
              if IsResolved(ctx.value, call, current) then
                r == LinkName(SearchArena(ctx.value, call, current, arena.value), mod.value, call.funcIx)
              else if mod == None || name == [] then r == BareName
              else
                var s := SearchOf(ctx.value, arena.value, call, mod.value, current, name, suffix);
                if r.BareName? then Resolves(s, None)
                else r.mod == mod.value && r.arena == s.modArena && Resolves(s, Some(r.fi))
  {
    if ctx.Some? && arena.Some? {
      var c, a := ctx.value, arena.value;
      var modArena := a;
      if 0 <= call.depIx < |c.deps| {
        modArena := c.deps[call.depIx].arena;
      } else if current.Some? {
        modArena := FindArena(c, current.value, a);
      }
      if call.funcIx >= 0 {
        if 0 <= call.depIx < |c.deps| {
          var depMod := c.deps[call.depIx].mod;
          if depMod.Some? && call.funcIx < |depMod.value.funcs| {
            return LinkName(modArena, depMod.value, call.funcIx);
          }
        } else {
          if current.Some? && call.funcIx < |current.value.funcs| {
            return LinkName(modArena, current.value, call.funcIx);
          }
        }
      }
      var searchMod := current;
      if 0 <= call.depIx < |c.deps| {
        searchMod := c.deps[call.depIx].mod;
      }
      if searchMod.Some? && modArena == a && searchMod != c.currentCodegen {
        modArena := FindArena(c, searchMod.value, modArena);
      }
      if searchMod.Some? && |name| > 0 {
        var found := Resolve(SearchOf(c, a, call, searchMod.value, current, name, suffix));
        if found.Some? {
          return LinkName(modArena, searchMod.value, found.value);
        }
      }
    }
    return BareName;
  }

  // ----- Where and by which types a call is looked up --------------------------------------------------

  /** Dependency `d` is the first that holds the module. */
  ghost predicate HoldsFirst(deps: seq<Dep>, mod: Module, d: nat) {
    d < |deps| && deps[d].mod == Some(mod) && forall i | 0 <= i < d :: deps[i].mod != Some(mod)
  }

  /** The arena of the first dependency that holds the module, or `otherwise` when none holds it. */
  ghost predicate IsArenaOf(deps: seq<Dep>, mod: Module, otherwise: nat, r: nat) {
    || (r == otherwise && forall i | 0 <= i < |deps| :: deps[i].mod != Some(mod))
    || exists d: nat :: HoldsFirst(deps, mod, d) && r == deps[d].arena
  }

  lemma {:induction false} ArenaOfIs(deps: seq<Dep>, mod: Module, otherwise: nat)
    ensures IsArenaOf(deps, mod, otherwise, ArenaOf(deps, mod, otherwise))
  {
    if deps != [] {
      var rest := deps[1..];
      ArenaOfIs(rest, mod, otherwise);
      assert forall i | 0 < i < |deps| :: deps[i] == rest[i - 1];
      if deps[0].mod == Some(mod) {
        assert HoldsFirst(deps, mod, 0);
      } else if d: nat :| HoldsFirst(rest, mod, d) && ArenaOf(rest, mod, otherwise) == rest[d].arena {
        assert HoldsFirst(deps, mod, d + 1);
      }
    }
  }

  /**
   * A call resolved to a dependency is looked up there; any other one in the current module, with the
   * types of the first dependency that is that module. When that gives the arena of the call, and the
   * module is not the one being generated, the dependencies are searched for the module once more.
   */
  lemma LookedUpWhere(ctx: Context, call: Call, current: Option<Module>, arena: nat)
    ensures var mod, found := SearchModule(ctx, call, current), SearchArena(ctx, call, current, arena);
            && (0 <= call.depIx < |ctx.deps| ==> mod == ctx.deps[call.depIx].mod && found == ctx.deps[call.depIx].arena)
            && (!(0 <= call.depIx < |ctx.deps|) ==> mod == current)
            && (!(0 <= call.depIx < |ctx.deps|) && current.Some? ==> IsArenaOf(ctx.deps, current.value, arena, found))
            && (mod.Some? && (found != arena || mod == ctx.currentCodegen) ==> Rebound(ctx, call, current, arena) == found)
            && (mod.Some? && found == arena && mod != ctx.currentCodegen ==>
                  IsArenaOf(ctx.deps, mod.value, found, Rebound(ctx, call, current, arena)))
  {
    var mod, found := SearchModule(ctx, call, current), SearchArena(ctx, call, current, arena);
    if current.Some? {
      ArenaOfIs(ctx.deps, current.value, arena);
    }
    if mod.Some? {
      ArenaOfIs(ctx.deps, mod.value, found);
    }
  }

  /** Type `t` of the call and type `param` of the module have one mangling suffix. */
  ghost predicate SameSuffix(s: Search, t: int, param: int) {
    s.suffix(s.callArena, t) == s.suffix(s.modArena, param) != []
  }

  /** An argument counts with its resolved type, and with the type it casts to only while unresolved. */
  ghost predicate TakesArg(s: Search, a: Option<Arg>, param: int) {
    match a
    case None => false
    case Some(Arg(resolved, isCast, castTo)) =>
      || (resolved > 0 && SameSuffix(s, resolved, param))
      || (resolved <= 0 && isCast && castTo > 0 && SameSuffix(s, castTo, param))
      || (resolved <= 0 && (!isCast || castTo <= 0) && SameSuffix(s, resolved, param))
  }

  /**
   * A function is an exact overload when it has the name, the number of arguments and each of their
   * types; it is bound when it has the first two and is extern or not mangled.
   */
  lemma TiersAre(s: Search, f: Func)
    ensures InTier(s, Arity, f) <==> f.name == s.name && |f.name| > 0 && |f.params| == |s.args|
    ensures InTier(s, Bound, f) <==> InTier(s, Arity, f) && !(!f.isExtern && !f.noMangle)
    ensures InTier(s, Exact, f) <==>
            InTier(s, Arity, f) && forall i | 0 <= i < |s.args| :: TakesArg(s, s.args[i], f.params[i])
  {
    if |f.params| == |s.args| {
      forall i | 0 <= i < |s.args|
        ensures TypesAgree(s, s.args[i], f.params[i]) <==> TakesArg(s, s.args[i], f.params[i])
      {
      }
    }
  }

  /** An exact overload wins over the other tiers, and a bound one over mere arity. */
  lemma TierOrder(s: Search, r: Option<nat>, fi: nat)
    requires Resolves(s, r)
    ensures Picks(s, Exact, fi) ==> r == Some(fi)
    ensures NoPick(s, Exact) && Picks(s, Bound, fi) ==> r == Some(fi)
    ensures NoPick(s, Exact) && NoPick(s, Bound) && Picks(s, Arity, fi) ==> r == Some(fi)
    ensures r.Some? ==> exists t :: Picks(s, t, r.value)
  {
    if Picks(s, Exact, fi) || (NoPick(s, Exact) && Picks(s, Bound, fi)) ||
       (NoPick(s, Exact) && NoPick(s, Bound) && Picks(s, Arity, fi)) {
      ResolutionIsUnique(s, r, Some(fi));
    }
  }

  /** A method call is searched with its method arguments, any other one with its call arguments. */
  lemma SearchedWith(ctx: Context, arena: nat, call: Call, mod: Module, current: Option<Module>, name: seq<byte>,
                     suffix: Suffix)
    ensures var s := SearchOf(ctx, arena, call, mod, current, name, suffix);
            && (call.isMethod ==> s.args == call.methodArgs) && (!call.isMethod ==> s.args == call.callArgs)
            && s.funcs == mod.funcs && s.name == name && s.callArena == arena
  {
  }
}
