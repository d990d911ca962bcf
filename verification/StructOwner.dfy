/** Which dependency emits a struct that several dependencies lay out under the same name. */
module StructOwner {
  import opened Bytes
  import opened Options

  datatype Layout = Layout(name: seq<byte>, isExport: bool, numFields: int)

  datatype Module = Module(layouts: seq<Layout>)

  /** The dependencies being compiled, with the index of the one whose code is being generated. */
  datatype Context = Context(deps: seq<Option<Module>>, current: int)

  // ----- Names -----------------------------------------------------------------------------------

  /** Names are copied into buffers of 64 bytes. */
  function Head(name: seq<byte>): seq<byte> {
    if |name| <= 64 then name else name[..64]
  }

  predicate SameName(a: seq<byte>, b: seq<byte>) {
    |a| == |b| && Head(a) == Head(b)
  }

  method CompareNames(depName: seq<byte>, bareName: seq<byte>) returns (same: bool)
    ensures same <==> SameName(depName, bareName)
  {
    if |depName| != |bareName| {
      return false;
    }
    var depHead := Head(depName);
    var j := 0;
    while j < |bareName| && j < 64
      invariant 0 <= j <= |bareName| && j <= 64
      invariant depHead[..j] == bareName[..j]
    {
      if depHead[j] != bareName[j] {
        assert Head(bareName)[j] == bareName[j];
        return false;
      }
      j := j + 1;
    }
    return true;
  }

  // ----- What a dependency holds ---------------------------------------------------------------

  /** The first layout of that name. */
  function FirstLayout(layouts: seq<Layout>, name: seq<byte>): Option<Layout> {
    if layouts == [] then None
    else if SameName(layouts[0].name, name) then Some(layouts[0])
    else FirstLayout(layouts[1..], name)
  }

  predicate Holds(dep: Option<Module>, name: seq<byte>) {
    dep.Some? && FirstLayout(dep.value.layouts, name).Some?
  }

  predicate Exports(dep: Option<Module>, name: seq<byte>) {
    Holds(dep, name) && FirstLayout(dep.value.layouts, name).value.isExport
  }

  ghost predicate SomeoneExports(deps: seq<Option<Module>>, name: seq<byte>) {
    exists i :: 0 <= i < |deps| && Exports(deps[i], name)
  }

  lemma {:induction false} FirstLayoutIs(layouts: seq<Layout>, name: seq<byte>)
    ensures FirstLayout(layouts, name).Some? <==> exists k :: 0 <= k < |layouts| && SameName(layouts[k].name, name)
  {
    if layouts != [] {
      FirstLayoutIs(layouts[1..], name);
      if k :| 0 <= k < |layouts| && SameName(layouts[k].name, name) {
        assert k > 0 ==> layouts[k] == layouts[1..][k - 1];
      }
      if k :| 0 <= k < |layouts[1..]| && SameName(layouts[1..][k].name, name) {
        assert layouts[k + 1] == layouts[1..][k];
      }
    }
  }

  lemma {:induction false} FirstLayoutOfSame(layouts: seq<Layout>, a: seq<byte>, b: seq<byte>)
    requires SameName(a, b)
    ensures FirstLayout(layouts, a) == FirstLayout(layouts, b)
  {
    if layouts != [] {
      FirstLayoutOfSame(layouts[1..], a, b);
    }
  }

  method ScanLayouts(layouts: seq<Layout>, name: seq<byte>) returns (hit: bool, hitExport: bool)
    ensures hit <==> FirstLayout(layouts, name).Some?
    ensures hitExport <==> hit && FirstLayout(layouts, name).value.isExport
  {
    hit, hitExport := false, false;
    var li := 0;
    while li < |layouts|
      invariant 0 <= li <= |layouts| && !hit && !hitExport
      invariant FirstLayout(layouts, name) == FirstLayout(layouts[li..], name)
    {
      var same := CompareNames(layouts[li].name, name);
      if same {
        hit, hitExport := true, layouts[li].isExport;
        break;
      }
      assert layouts[li..][1..] == layouts[li + 1..];
      li := li + 1;
    }
  }

  // ----- The owner -------------------------------------------------------------------------------

  /** Dependency `d` is preferred over `i`: exported first, then the current one, then the earlier one. */
  predicate Before(ctx: Context, name: seq<byte>, d: nat, i: nat)
    requires d < |ctx.deps| && i < |ctx.deps|
  {
    if Exports(ctx.deps[d], name) != Exports(ctx.deps[i], name) then Exports(ctx.deps[d], name)
    else d == ctx.current || (i != ctx.current && d < i)
  }

  /** `owner` is the preferred holder among the first `n` dependencies, or -1 when none of them holds the struct. */
  ghost predicate IsBest(ctx: Context, name: seq<byte>, n: nat, owner: int)
    requires n <= |ctx.deps|
  {
    if owner == -1 then forall i | 0 <= i < n :: !Holds(ctx.deps[i], name)
    else
      && 0 <= owner < n
      && Holds(ctx.deps[owner], name)
      && forall i | 0 <= i < n && i != owner && Holds(ctx.deps[i], name) :: Before(ctx, name, owner, i)
  }

  ghost predicate IsOwner(ctx: Context, name: seq<byte>, owner: int) {
    IsBest(ctx, name, |ctx.deps|, owner)
  }

  lemma OwnerIsUnique(ctx: Context, name: seq<byte>, a: int, b: int)
    requires IsOwner(ctx, name, a) && IsOwner(ctx, name, b)
    ensures a == b
  {
    if a != b && a >= 0 && b >= 0 {
      NotBothBefore(ctx, name, a, b);
    }
  }

  lemma NotBothBefore(ctx: Context, name: seq<byte>, a: nat, b: nat)
    requires a < |ctx.deps| && b < |ctx.deps| && a != b
    ensures Before(ctx, name, a, b) != Before(ctx, name, b, a)
  {
  }

  method DepStructOwnerIndex(ctx: Option<Context>, bareName: Input) returns (owner: int)
    ensures ctx == None || bareName == None || bareName.value == [] ==> owner == -1
    ensures ctx.Some? && bareName.Some? && bareName.value != [] ==> IsOwner(ctx.value, bareName.value, owner)
  {
    var best, bestExport := -1, false;
    if ctx == None || bareName == None || bareName.value == [] {
      return -1;
    }
    var name, deps, cur := bareName.value, ctx.value.deps, ctx.value.current;
    var di := 0;
    while di < |deps|
      invariant 0 <= di <= |deps|
      invariant IsBest(ctx.value, name, di, best)
      invariant bestExport <==> best >= 0 && Exports(deps[best], name)
    {
      if deps[di].Some? {
        var hit, hitExport := ScanLayouts(deps[di].value.layouts, name);
        if hit {
          if best < 0 {
            best, bestExport := di, hitExport;
          } else if hitExport && !bestExport {
            best, bestExport := di, true;
          } else if hitExport == bestExport && di == cur {
            best := di;
          }
        }
      }
      di := di + 1;
    }
    return best;
  }

  /** Names are the same when they have one length and agree on their first 64 bytes. */
  lemma SameNameIs(a: seq<byte>, b: seq<byte>)
    ensures SameName(a, b) <==> |a| == |b| && forall k | 0 <= k < |a| && k < 64 :: a[k] == b[k]
  {
    if |a| == |b| && forall k | 0 <= k < |a| && k < 64 :: a[k] == b[k] {
      assert |Head(a)| == |Head(b)| && forall k | 0 <= k < |Head(a)| :: Head(a)[k] == Head(b)[k];
    }
    if SameName(a, b) {
      forall k | 0 <= k < |a| && k < 64
        ensures a[k] == b[k]
      {
        assert a[k] == Head(a)[k] && b[k] == Head(b)[k];
      }
    }
  }

  /** Layout `k` is the first of the module with that name. */
  predicate IsFirst(layouts: seq<Layout>, name: seq<byte>, k: nat) {
    k < |layouts| && SameName(layouts[k].name, name) && forall j | 0 <= j < k :: !SameName(layouts[j].name, name)
  }

  lemma {:induction false} FirstLayoutIsFirst(layouts: seq<Layout>, name: seq<byte>, k: nat)
    requires IsFirst(layouts, name, k)
    ensures FirstLayout(layouts, name) == Some(layouts[k])
  {
    if k > 0 {
      assert !SameName(layouts[0].name, name);
      assert forall j | 0 <= j < k - 1 :: layouts[1..][j] == layouts[j + 1];
      FirstLayoutIsFirst(layouts[1..], name, k - 1);
    }
  }

  lemma {:induction false} SomeFirst(layouts: seq<Layout>, name: seq<byte>, n: nat) returns (k: nat)
    requires n < |layouts| && SameName(layouts[n].name, name)
    ensures IsFirst(layouts, name, k)
  {
    if j :| 0 <= j < n && SameName(layouts[j].name, name) {
      k := SomeFirst(layouts, name, j);
    } else {
      k := n;
    }
  }

  /** A dependency exports a struct when the first of its layouts of that name says so. */
  lemma ExportsIff(dep: Option<Module>, name: seq<byte>)
    ensures Exports(dep, name) <==>
            dep.Some? && exists k: nat :: IsFirst(dep.value.layouts, name, k) && dep.value.layouts[k].isExport
    ensures Holds(dep, name) <==> dep.Some? && exists k: nat :: IsFirst(dep.value.layouts, name, k)
  {
    if dep.Some? {
      var layouts := dep.value.layouts;
      FirstLayoutIs(layouts, name);
      if n :| 0 <= n < |layouts| && SameName(layouts[n].name, name) {
        var k := SomeFirst(layouts, name, n);
      }
      forall k: nat | IsFirst(layouts, name, k)
        ensures FirstLayout(layouts, name) == Some(layouts[k])
      {
        FirstLayoutIsFirst(layouts, name, k);
      }
    }
  }

  /** Those that can be the owner: the exporters, or all that hold the struct when nobody exports it. */
  ghost predicate IsCandidate(deps: seq<Option<Module>>, name: seq<byte>, i: nat) {
    i < |deps| && Holds(deps[i], name) && (Exports(deps[i], name) || !SomeoneExports(deps, name))
  }

  /** The owner is the current dependency if it is a candidate, and else the candidate of lowest index. */
  lemma OwnerRule(ctx: Context, name: seq<byte>, owner: int)
    requires IsOwner(ctx, name, owner)
    ensures owner == -1 ==> forall i: nat :: !IsCandidate(ctx.deps, name, i)
    ensures owner != -1 ==>
              && owner >= 0 && IsCandidate(ctx.deps, name, owner)
              && (ctx.current >= 0 && IsCandidate(ctx.deps, name, ctx.current) ==> owner == ctx.current)
              && (owner != ctx.current ==> forall i: nat | i < owner :: !IsCandidate(ctx.deps, name, i))
  {
    if owner != -1 {
      if SomeoneExports(ctx.deps, name) {
        var e :| 0 <= e < |ctx.deps| && Exports(ctx.deps[e], name);
        assert e == owner || Before(ctx, name, owner, e);
      }
      forall i: nat | IsCandidate(ctx.deps, name, i) && i != owner
        ensures Before(ctx, name, owner, i)
      {
      }
    }
  }

  // ----- Emission --------------------------------------------------------------------------------

  /** The owner check that the emitter makes for a dependency: the struct has no owner or is its own. */
  ghost predicate PassesOwnerCheck(ctx: Option<Context>, name: seq<byte>) {
    ctx == None || ctx.value.current < 0 || IsOwner(ctx.value, name, -1) || IsOwner(ctx.value, name, ctx.value.current)
  }

  /** Layout `k` is emitted; `skips` is the check for names the runtime already declares. */
  ghost predicate Emits(ctx: Option<Context>, layouts: seq<Layout>, skips: (seq<byte>, nat) -> bool, k: nat)
    requires k < |layouts|
  {
    var l := layouts[k];
    l.numFields > 0 && l.name != [] && PassesOwnerCheck(ctx, l.name) && !skips(Head(l.name), |l.name|)
  }

  /** Returns the indices of the layouts whose definitions are written, in order. */
  method EmitStructDefinitions(ctx: Option<Context>, layouts: seq<Layout>, skips: (seq<byte>, nat) -> bool)
    returns (emitted: seq<nat>)
    ensures forall k | 0 <= k < |layouts| :: k in emitted <==> Emits(ctx, layouts, skips, k)
    ensures forall a | 0 <= a < |emitted| :: emitted[a] < |layouts|
    ensures forall a, b | 0 <= a < b < |emitted| :: emitted[a] < emitted[b]
  {
    emitted := [];
    var cur := -1;
    if ctx.Some? {
      cur := ctx.value.current;
    }
    var k := 0;
    while k < |layouts|
      invariant 0 <= k <= |layouts|
      invariant forall i | 0 <= i < k :: i in emitted <==> Emits(ctx, layouts, skips, i)
      invariant forall a | 0 <= a < |emitted| :: emitted[a] < k
      invariant forall a, b | 0 <= a < b < |emitted| :: emitted[a] < emitted[b]
    {
      var l := layouts[k];
      if l.numFields <= 0 || |l.name| <= 0 {
        k := k + 1;
        continue;
      }
      if cur >= 0 && ctx.Some? {
        var owner := DepStructOwnerIndex(ctx, Some(l.name));
        assert PassesOwnerCheck(ctx, l.name) <==> owner == -1 || owner == cur by {
          OwnerCheckIs(ctx.value, l.name, owner);
        }
        if owner >= 0 && owner != cur {
          k := k + 1;
          continue;
        }
      }
      if skips(Head(l.name), |l.name|) {
        k := k + 1;
        continue;
      }
      emitted := emitted + [k];
      k := k + 1;
    }
  }

  lemma OwnerCheckIs(ctx: Context, name: seq<byte>, owner: int)
    requires IsOwner(ctx, name, owner) && ctx.current >= 0
    ensures PassesOwnerCheck(Some(ctx), name) <==> owner == -1 || owner == ctx.current
  {
    if IsOwner(ctx, name, -1) {
      OwnerIsUnique(ctx, name, owner, -1);
    }
    if IsOwner(ctx, name, ctx.current) {
      OwnerIsUnique(ctx, name, owner, ctx.current);
    }
  }

  /** A dependency passes the check for a struct it holds exactly when it exports it or no dependency does. */
  lemma PassesIff(ctx: Context, name: seq<byte>)
    requires 0 <= ctx.current < |ctx.deps| && Holds(ctx.deps[ctx.current], name)
    ensures PassesOwnerCheck(Some(ctx), name) <==>
            Exports(ctx.deps[ctx.current], name) || !SomeoneExports(ctx.deps, name)
  {
    var d := ctx.current;
    if !Exports(ctx.deps[d], name) && SomeoneExports(ctx.deps, name) {
      var e :| 0 <= e < |ctx.deps| && Exports(ctx.deps[e], name);
      assert !Before(ctx, name, d, e);
    }
  }

  /** While the code of dependency `d` is generated, its layout `k` is emitted. */
  ghost predicate EmittedBy(deps: seq<Option<Module>>, skips: (seq<byte>, nat) -> bool, d: nat, k: nat) {
    d < |deps| && deps[d].Some? && k < |deps[d].value.layouts| &&
    Emits(Some(Context(deps, d)), deps[d].value.layouts, skips, k)
  }

  ghost predicate HasLayout(deps: seq<Option<Module>>, d: nat, k: nat, name: seq<byte>) {
    d < |deps| && deps[d].Some? && k < |deps[d].value.layouts| && SameName(deps[d].value.layouts[k].name, name)
  }

  /** The dependencies that emit a struct are its exporters, or all its holders when nobody exports it. */
  lemma EmittersAre(deps: seq<Option<Module>>, skips: (seq<byte>, nat) -> bool, d: nat, k: nat, name: seq<byte>)
    requires HasLayout(deps, d, k, name)
    ensures EmittedBy(deps, skips, d, k) <==>
            && deps[d].value.layouts[k].numFields > 0
            && name != []
            && !skips(Head(name), |name|)
            && (Exports(deps[d], name) || !SomeoneExports(deps, name))
  {
    var own := deps[d].value.layouts[k].name;
    FirstLayoutIs(deps[d].value.layouts, own);
    PassesIff(Context(deps, d), own);
    forall i | 0 <= i < |deps| && deps[i].Some?
      ensures Holds(deps[i], own) == Holds(deps[i], name) && Exports(deps[i], own) == Exports(deps[i], name)
    {
      FirstLayoutOfSame(deps[i].value.layouts, own, name);
    }
    assert SomeoneExports(deps, own) <==> SomeoneExports(deps, name);
  }

  lemma SoleExporterIsSoleEmitter(deps: seq<Option<Module>>, skips: (seq<byte>, nat) -> bool, name: seq<byte>,
                                  e: nat, d: nat, k: nat)
    requires e < |deps| && Exports(deps[e], name)
    requires forall i | 0 <= i < |deps| && i != e :: !Exports(deps[i], name)
    requires HasLayout(deps, d, k, name) && EmittedBy(deps, skips, d, k)
    ensures d == e
  {
    EmittersAre(deps, skips, d, k, name);
  }

  /**
   * A struct laid out with fields by some dependency is emitted by one, unless each dependency that
   * exports the name lays it out without fields only.
   */
  lemma StructIsEmittedIff(deps: seq<Option<Module>>, skips: (seq<byte>, nat) -> bool, name: seq<byte>, d: nat, k: nat)
    requires HasLayout(deps, d, k, name) && deps[d].value.layouts[k].numFields > 0
    requires name != [] && !skips(Head(name), |name|)
    ensures (exists e: nat, j: nat :: HasLayout(deps, e, j, name) && EmittedBy(deps, skips, e, j)) <==>
            (SomeoneExports(deps, name) ==>
               exists e: nat, j: nat ::
                 HasLayout(deps, e, j, name) && Exports(deps[e], name) && deps[e].value.layouts[j].numFields > 0)
  {
    EmittersAre(deps, skips, d, k, name);
    if e: nat, j: nat :| HasLayout(deps, e, j, name) && EmittedBy(deps, skips, e, j) {
      EmittersAre(deps, skips, e, j, name);
    }
    if e: nat, j: nat :| HasLayout(deps, e, j, name) && Exports(deps[e], name) && deps[e].value.layouts[j].numFields > 0 {
      EmittersAre(deps, skips, e, j, name);
    }
  }

  /** An exporter without fields silences a dependency that does know the fields. */
  lemma FieldlessExporterSilences(name: seq<byte>, skips: (seq<byte>, nat) -> bool, d: nat, k: nat)
    requires name != []
    ensures !EmittedBy([Some(Module([Layout(name, true, 0)])), Some(Module([Layout(name, false, 2)]))], skips, d, k)
  {
    var deps := [Some(Module([Layout(name, true, 0)])), Some(Module([Layout(name, false, 2)]))];
    assert Exports(deps[0], name);
    if EmittedBy(deps, skips, d, k) {
      EmittersAre(deps, skips, d, k, name);
    }
  }
}
