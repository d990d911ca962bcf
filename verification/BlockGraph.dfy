/**
 * The containment graph of blocks, the explicit-stack pass over it one step at a time, and the
 * recursive walk it stands for. A block reference is positive; reference r is entry r - 1.
 */
module BlockGraph {

  /** For each block, the positive body references in the order the pass pushes them. */
  type Graph = seq<seq<int>>

  const STACK_CAP: nat := 256

  predicate InRange(g: Graph, r: int) {
    0 < r <= |g|
  }

  function Kids(g: Graph, r: int): seq<int> {
    if InRange(g, r) then g[r - 1] else []
  }

  // ----- The pass --------------------------------------------------------------------------

  datatype Entry = Entry(block: int, parent: int)

  datatype State = State(stack: seq<Entry>, parents: seq<int>, dropped: bool)

  function PushKids(stack: seq<Entry>, kids: seq<int>, parent: int): (s: seq<Entry>)
    ensures |s| == |stack| + |kids|
    decreases |kids|
  {
    if kids == [] then stack
    else PushKids(stack, kids[..|kids| - 1], parent) + [Entry(kids[|kids| - 1], parent)]
  }

  /** Pushes happen only while there is room, so a full stack drops the remaining kids. */
  function Pushed(stack: seq<Entry>, kids: seq<int>, parent: int): (s: seq<Entry>)
    requires |stack| <= STACK_CAP
    ensures |s| <= STACK_CAP
  {
    if |stack| + |kids| <= STACK_CAP then PushKids(stack, kids, parent)
    else PushKids(stack, kids[..STACK_CAP - |stack|], parent)
  }

  /** The parent of a block is written only when it is still zero. */
  function Linked(g: Graph, parents: seq<int>, e: Entry): (q: seq<int>)
    requires |parents| == |g|
    ensures |q| == |g|
  {
    if InRange(g, e.block) && e.parent != 0 && parents[e.block - 1] == 0 then parents[e.block - 1 := e.parent]
    else parents
  }

  ghost predicate WellFormed(g: Graph, s: State) {
    |s.parents| == |g| && |s.stack| <= STACK_CAP
  }

  function Step(g: Graph, s: State): (t: State)
    requires WellFormed(g, s)
    ensures WellFormed(g, t)
    ensures s.dropped ==> t.dropped
  {
    if s.stack == [] then s
    else
      var top, below := s.stack[|s.stack| - 1], s.stack[..|s.stack| - 1];
      var kids := Kids(g, top.block);
      State(Pushed(below, kids, top.block), Linked(g, s.parents, top), s.dropped || |below| + |kids| > STACK_CAP)
  }

  function Steps(g: Graph, s: State, n: nat): (t: State)
    requires WellFormed(g, s)
    ensures WellFormed(g, t)
    ensures s.dropped ==> t.dropped
    ensures s.stack == [] ==> t == s
    decreases n
  {
    if n == 0 then s else Steps(g, Step(g, s), n - 1)
  }

  lemma {:induction false} StepsCompose(g: Graph, s: State, m: nat, n: nat)
    requires WellFormed(g, s)
    ensures Steps(g, s, m + n) == Steps(g, Steps(g, s, m), n)
    decreases m
  {
    if m != 0 {
      var t := Step(g, s);
      StepsCompose(g, t, m - 1, n);
      assert Steps(g, s, m) == Steps(g, t, m - 1);
      assert Steps(g, s, m + n) == Steps(g, t, m - 1 + n);
    }
  }

  function Start(parents: seq<int>, block: int, parent: int): State {
    State([Entry(block, parent)], parents, false)
  }

  // ----- Depth, weight and room --------------------------------------------------------------

  /** No chain of bodies below `r` is longer than `n`; some `n` exists exactly when there is no cycle. */
  ghost predicate DepthAtMost(g: Graph, r: int, n: nat)
    decreases n
  {
    var kids := Kids(g, r);
    if n == 0 then kids == [] else forall i | 0 <= i < |kids| :: DepthAtMost(g, kids[i], n - 1)
  }

  lemma {:induction false} DepthGrows(g: Graph, r: int, n: nat, m: nat)
    requires DepthAtMost(g, r, n) && n <= m
    ensures DepthAtMost(g, r, m)
    decreases n
  {
    if n > 0 {
      var kids := Kids(g, r);
      forall i | 0 <= i < |kids|
        ensures DepthAtMost(g, kids[i], m - 1)
      {
        DepthGrows(g, kids[i], n - 1, m - 1);
      }
    }
  }

  /** How many entries a visit of `r` pops: the nodes of the tree unfolded below it. */
  ghost function Weight(g: Graph, r: int, n: nat): (w: nat)
    ensures w > 0
    decreases n, 1, 0
  {
    1 + if n == 0 then 0 else KidsWeight(g, Kids(g, r), n - 1)
  }

  ghost function KidsWeight(g: Graph, kids: seq<int>, n: nat): nat
    decreases n, 2, |kids|
  {
    if kids == [] then 0 else KidsWeight(g, kids[..|kids| - 1], n) + Weight(g, kids[|kids| - 1], n)
  }

  /** Visiting `r` from a stack of `base` entries never needs more than the fixed capacity. */
  ghost predicate Fits(g: Graph, r: int, base: nat, n: nat)
    decreases n, 1, 0
  {
    var kids := Kids(g, r);
    base + |kids| <= STACK_CAP && (n > 0 ==> KidsFit(g, kids, base, n - 1))
  }

  /** When the bodies are visited, each has those pushed before it underneath. */
  ghost predicate KidsFit(g: Graph, kids: seq<int>, base: nat, n: nat)
    decreases n, 2, |kids|
  {
    kids == [] ||
    (var last := |kids| - 1; KidsFit(g, kids[..last], base, n) && Fits(g, kids[last], base + last, n))
  }

  // ----- The recursive walk ------------------------------------------------------------------

  /** Link the block, then walk its bodies from the last to the first. */
  ghost function Walk(g: Graph, e: Entry, parents: seq<int>, n: nat): (q: seq<int>)
    requires |parents| == |g|
    ensures |q| == |g|
    decreases n, 1, 0
  {
    var linked := Linked(g, parents, e);
    if n == 0 then linked else WalkKids(g, Kids(g, e.block), e.block, linked, n - 1)
  }

  ghost function WalkKids(g: Graph, kids: seq<int>, parent: int, parents: seq<int>, n: nat): (q: seq<int>)
    requires |parents| == |g|
    ensures |q| == |g|
    decreases n, 2, |kids|
  {
    if kids == [] then parents
    else
      var last := |kids| - 1;
      WalkKids(g, kids[..last], parent, Walk(g, Entry(kids[last], parent), parents, n), n)
  }

  ghost predicate KidsShallow(g: Graph, kids: seq<int>, n: nat) {
    forall i | 0 <= i < |kids| :: DepthAtMost(g, kids[i], n)
  }

  lemma StepPops(g: Graph, below: seq<Entry>, e: Entry, parents: seq<int>, dropped: bool)
    requires |parents| == |g| && |below| < STACK_CAP
    ensures var kids := Kids(g, e.block);
            Step(g, State(below + [e], parents, dropped)) ==
            State(Pushed(below, kids, e.block), Linked(g, parents, e), dropped || |below| + |kids| > STACK_CAP)
  {
    var stack := below + [e];
    assert stack[..|stack| - 1] == below;
  }

  /** With room, the pass turns the top entry into the walk of its block and leaves the rest of the stack. */
  lemma {:induction false} VisitIsWalk(g: Graph, below: seq<Entry>, e: Entry, parents: seq<int>, dropped: bool, n: nat)
    requires |parents| == |g| && |below| < STACK_CAP
    requires DepthAtMost(g, e.block, n) && Fits(g, e.block, |below|, n)
    ensures Steps(g, State(below + [e], parents, dropped), Weight(g, e.block, n)) ==
            State(below, Walk(g, e, parents, n), dropped)
    decreases n, 1, 0
  {
    var s := State(below + [e], parents, dropped);
    var kids, linked := Kids(g, e.block), Linked(g, parents, e);
    StepPops(g, below, e, parents, dropped);
    var t := State(PushKids(below, kids, e.block), linked, dropped);
    assert Step(g, s) == t;
    if n == 0 {
      assert Steps(g, t, 0) == t;
    } else {
      KidsAreWalked(g, below, kids, e.block, linked, dropped, n - 1);
    }
  }

  /** The visits of the bodies are the visit of the last one and then those of the others. */
  lemma LastKidFirst(g: Graph, below: seq<Entry>, kids: seq<int>, parent: int, parents: seq<int>, dropped: bool, n: nat)
    requires |parents| == |g| && |below| + |kids| <= STACK_CAP && kids != []
    ensures var others, last := kids[..|kids| - 1], kids[|kids| - 1];
            var s := State(PushKids(below, others, parent) + [Entry(last, parent)], parents, dropped);
            Steps(g, State(PushKids(below, kids, parent), parents, dropped), KidsWeight(g, kids, n)) ==
            Steps(g, Steps(g, s, Weight(g, last, n)), KidsWeight(g, others, n))
  {
    var others, last := kids[..|kids| - 1], kids[|kids| - 1];
    var s := State(PushKids(below, others, parent) + [Entry(last, parent)], parents, dropped);
    StepsCompose(g, s, Weight(g, last, n), KidsWeight(g, others, n));
    assert s.stack == PushKids(below, kids, parent);
  }

  lemma {:induction false} KidsAreWalked(g: Graph, below: seq<Entry>, kids: seq<int>, parent: int,
                                         parents: seq<int>, dropped: bool, n: nat)
    requires |parents| == |g| && |below| + |kids| <= STACK_CAP
    requires KidsShallow(g, kids, n) && KidsFit(g, kids, |below|, n)
    ensures Steps(g, State(PushKids(below, kids, parent), parents, dropped), KidsWeight(g, kids, n)) ==
            State(below, WalkKids(g, kids, parent, parents, n), dropped)
    decreases n, 2, |kids|
  {
    if kids != [] {
      var others, last := kids[..|kids| - 1], kids[|kids| - 1];
      var e := Entry(last, parent);
      LastKidFirst(g, below, kids, parent, parents, dropped, n);
      VisitIsWalk(g, PushKids(below, others, parent), e, parents, dropped, n);
      KidsAreWalked(g, below, others, parent, Walk(g, e, parents, n), dropped, n);
    }
  }

  /** Without room, some push is dropped before the visit of the block is over. */
  lemma {:induction false} VisitDrops(g: Graph, below: seq<Entry>, e: Entry, parents: seq<int>, dropped: bool, n: nat)
    requires |parents| == |g| && |below| < STACK_CAP
    requires DepthAtMost(g, e.block, n) && !Fits(g, e.block, |below|, n)
    ensures Steps(g, State(below + [e], parents, dropped), Weight(g, e.block, n)).dropped
    decreases n, 1, 0
  {
    var s := State(below + [e], parents, dropped);
    var kids, linked := Kids(g, e.block), Linked(g, parents, e);
    StepPops(g, below, e, parents, dropped);
    if |below| + |kids| <= STACK_CAP {
      assert Step(g, s) == State(PushKids(below, kids, e.block), linked, dropped);
      KidsDrop(g, below, kids, e.block, linked, dropped, n - 1);
    } else {
      assert Step(g, s).dropped;
    }
  }

  lemma {:induction false} KidsDrop(g: Graph, below: seq<Entry>, kids: seq<int>, parent: int,
                                    parents: seq<int>, dropped: bool, n: nat)
    requires |parents| == |g| && |below| + |kids| <= STACK_CAP
    requires KidsShallow(g, kids, n) && !KidsFit(g, kids, |below|, n)
    ensures Steps(g, State(PushKids(below, kids, parent), parents, dropped), KidsWeight(g, kids, n)).dropped
    decreases n, 2, |kids|
  {
    var others, last := kids[..|kids| - 1], kids[|kids| - 1];
    var e, mid := Entry(last, parent), PushKids(below, others, parent);
    LastKidFirst(g, below, kids, parent, parents, dropped, n);
    if Fits(g, last, |mid|, n) {
      VisitIsWalk(g, mid, e, parents, dropped, n);
      KidsDrop(g, below, others, parent, Walk(g, e, parents, n), dropped, n);
    } else {
      VisitDrops(g, mid, e, parents, dropped, n);
    }
  }

  // ----- The whole pass ------------------------------------------------------------------------

  /** What the pass leaves behind on a graph without cycles below `block`. */
  ghost function Final(g: Graph, parents: seq<int>, block: int, parent: int, h: nat): State
    requires |parents| == |g|
  {
    Steps(g, Start(parents, block, parent), Weight(g, block, h))
  }

  /** A push is dropped exactly when the block does not fit, and otherwise the pass is the recursive walk. */
  lemma PassIsWalkIff(g: Graph, parents: seq<int>, block: int, parent: int, h: nat)
    requires |parents| == |g| && DepthAtMost(g, block, h)
    ensures var end := Final(g, parents, block, parent, h);
            && (end.dropped <==> !Fits(g, block, 0, h))
            && (Fits(g, block, 0, h) ==> end == State([], Walk(g, Entry(block, parent), parents, h), false))
  {
    var e := Entry(block, parent);
    assert [] + [e] == [e];
    if Fits(g, block, 0, h) {
      VisitIsWalk(g, [], e, parents, false, h);
    } else {
      VisitDrops(g, [], e, parents, false, h);
    }
  }

  ghost predicate KidsAtMost(g: Graph, r: int, k: nat, n: nat)
    decreases n
  {
    var kids := Kids(g, r);
    |kids| <= k && (n > 0 ==> forall i | 0 <= i < |kids| :: KidsAtMost(g, kids[i], k, n - 1))
  }

  /** A block whose bodies have none themselves fits exactly up to 256 bodies, less those already on the stack. */
  lemma FlatFitsIff(g: Graph, r: int, base: nat)
    requires DepthAtMost(g, r, 1)
    ensures Fits(g, r, base, 1) <==> base + |Kids(g, r)| <= 256
  {
    if base + |Kids(g, r)| <= 256 {
      LeavesFit(g, Kids(g, r), base);
    }
  }

  lemma {:induction false} LeavesFit(g: Graph, kids: seq<int>, base: nat)
    requires KidsShallow(g, kids, 0) && base + |kids| <= 256
    ensures KidsFit(g, kids, base, 0)
    decreases |kids|
  {
    if kids != [] {
      LeavesFit(g, kids[..|kids| - 1], base);
    }
  }

  /** Height h with at most k bodies per block fits as soon as (k - 1) * h + 1 entries do. */
  lemma SmallGraphFits(g: Graph, r: int, k: nat, h: nat)
    requires k > 0 && DepthAtMost(g, r, h) && KidsAtMost(g, r, k, h)
    requires (k - 1) * h + 1 <= 256
    ensures Fits(g, r, 0, h)
  {
    ClimbIsProduct(k, h);
    FitsByClimb(g, r, k, 0, h);
  }

  /** How much higher than its start the stack can get above a block of height h. */
  function Climb(k: nat, h: nat): nat
    requires k > 0
  {
    if h == 0 then 0 else Climb(k, h - 1) + (k - 1)
  }

  lemma {:induction false} ClimbIsProduct(k: nat, h: nat)
    requires k > 0
    ensures Climb(k, h) == (k - 1) * h
  {
    if h > 0 {
      ClimbIsProduct(k, h - 1);
    }
  }

  lemma {:induction false} FitsByClimb(g: Graph, r: int, k: nat, base: nat, h: nat)
    requires k > 0 && DepthAtMost(g, r, h) && KidsAtMost(g, r, k, h)
    requires base + Climb(k, h) + 1 <= STACK_CAP
    ensures Fits(g, r, base, h)
    decreases h, 1, 0
  {
    if h > 0 {
      KidsFitByClimb(g, Kids(g, r), k, base, h - 1);
    }
  }

  lemma {:induction false} KidsFitByClimb(g: Graph, kids: seq<int>, k: nat, base: nat, h: nat)
    requires k > 0 && KidsShallow(g, kids, h) && forall i | 0 <= i < |kids| :: KidsAtMost(g, kids[i], k, h)
    requires |kids| <= k && base + (k - 1) + Climb(k, h) + 1 <= STACK_CAP
    ensures KidsFit(g, kids, base, h)
    decreases h, 2, |kids|
  {
    if kids != [] {
      var last := |kids| - 1;
      KidsFitByClimb(g, kids[..last], k, base, h);
      FitsByClimb(g, kids[last], k, base + last, h);
    }
  }

  // ----- Termination -----------------------------------------------------------------------------

  ghost predicate AllShallow(g: Graph, stack: seq<Entry>, h: nat) {
    forall i | 0 <= i < |stack| :: DepthAtMost(g, stack[i].block, h)
  }

  ghost function StackWeight(g: Graph, stack: seq<Entry>, h: nat): nat {
    if stack == [] then 0 else StackWeight(g, stack[..|stack| - 1], h) + Weight(g, stack[|stack| - 1].block, h)
  }

  lemma {:induction false} WeightStable(g: Graph, r: int, n: nat)
    requires DepthAtMost(g, r, n)
    ensures Weight(g, r, n + 1) == Weight(g, r, n)
    decreases n, 1, 0
  {
    if n > 0 {
      KidsWeightStable(g, Kids(g, r), n - 1);
    }
  }

  lemma {:induction false} KidsWeightStable(g: Graph, kids: seq<int>, n: nat)
    requires forall i | 0 <= i < |kids| :: DepthAtMost(g, kids[i], n)
    ensures KidsWeight(g, kids, n + 1) == KidsWeight(g, kids, n)
    decreases n, 2, |kids|
  {
    if kids != [] {
      WeightStable(g, kids[|kids| - 1], n);
      KidsWeightStable(g, kids[..|kids| - 1], n);
    }
  }

  lemma {:induction false} PushedWeight(g: Graph, stack: seq<Entry>, kids: seq<int>, parent: int, h: nat)
    requires AllShallow(g, stack, h) && KidsShallow(g, kids, h)
    ensures AllShallow(g, PushKids(stack, kids, parent), h)
    ensures StackWeight(g, PushKids(stack, kids, parent), h) == StackWeight(g, stack, h) + KidsWeight(g, kids, h)
    decreases |kids|
  {
    if kids != [] {
      var others := kids[..|kids| - 1];
      var s := PushKids(stack, kids, parent);
      PushedWeight(g, stack, others, parent, h);
      assert s[..|s| - 1] == PushKids(stack, others, parent);
    }
  }

  lemma {:induction false} FewerKidsWeighLess(g: Graph, kids: seq<int>, m: nat, h: nat)
    requires m <= |kids|
    ensures KidsWeight(g, kids[..m], h) <= KidsWeight(g, kids, h)
    decreases |kids|
  {
    if m == |kids| {
      assert kids[..m] == kids;
    } else {
      FewerKidsWeighLess(g, kids[..|kids| - 1], m, h);
      assert kids[..|kids| - 1][..m] == kids[..m];
    }
  }

  /** Whatever there is room for is a first part of the bodies. */
  lemma PushedIs(stack: seq<Entry>, kids: seq<int>, parent: int) returns (m: nat)
    requires |stack| <= STACK_CAP
    ensures m <= |kids| && Pushed(stack, kids, parent) == PushKids(stack, kids[..m], parent)
  {
    m := if |stack| + |kids| <= STACK_CAP then |kids| else STACK_CAP - |stack|;
    assert kids[..|kids|] == kids;
  }

  lemma KeptWeighLess(g: Graph, below: seq<Entry>, kids: seq<int>, m: nat, parent: int, h: nat)
    requires m <= |kids| && AllShallow(g, below, h) && KidsShallow(g, kids, h)
    ensures AllShallow(g, PushKids(below, kids[..m], parent), h)
    ensures StackWeight(g, PushKids(below, kids[..m], parent), h) <= StackWeight(g, below, h) + KidsWeight(g, kids, h)
  {
    FewerKidsWeighLess(g, kids, m, h);
    PushedWeight(g, below, kids[..m], parent, h);
  }

  lemma PushedLightens(g: Graph, below: seq<Entry>, r: int, h: nat)
    requires |below| < STACK_CAP && AllShallow(g, below, h) && DepthAtMost(g, r, h)
    ensures AllShallow(g, Pushed(below, Kids(g, r), r), h)
    ensures StackWeight(g, Pushed(below, Kids(g, r), r), h) < StackWeight(g, below, h) + Weight(g, r, h)
  {
    KidsWeighLess(g, r, h);
    var m := PushedIs(below, Kids(g, r), r);
    KeptWeighLess(g, below, Kids(g, r), m, r, h);
  }

  /** Every iteration lightens the stack, dropped pushes or not. */
  lemma StepLightens(g: Graph, s: State, h: nat)
    requires WellFormed(g, s) && s.stack != [] && AllShallow(g, s.stack, h)
    ensures AllShallow(g, Step(g, s).stack, h)
    ensures StackWeight(g, Step(g, s).stack, h) < StackWeight(g, s.stack, h)
  {
    var top, below := s.stack[|s.stack| - 1], s.stack[..|s.stack| - 1];
    assert StackWeight(g, s.stack, h) == StackWeight(g, below, h) + Weight(g, top.block, h);
    PushedLightens(g, below, top.block, h);
  }

  lemma KidsWeighLess(g: Graph, r: int, h: nat)
    requires DepthAtMost(g, r, h)
    ensures KidsShallow(g, Kids(g, r), h)
    ensures KidsWeight(g, Kids(g, r), h) < Weight(g, r, h)
  {
    if h > 0 {
      var kids := Kids(g, r);
      forall i | 0 <= i < |kids|
        ensures DepthAtMost(g, kids[i], h)
      {
        DepthGrows(g, kids[i], h - 1, h);
      }
      KidsWeightStable(g, kids, h - 1);
    }
  }

  /** So a graph without cycles is finished within as many steps as the stack weighs. */
  lemma {:induction false} PassEnds(g: Graph, s: State, h: nat, n: nat)
    requires WellFormed(g, s) && AllShallow(g, s.stack, h) && StackWeight(g, s.stack, h) <= n
    ensures Steps(g, s, n).stack == []
    decreases n
  {
    if s.stack != [] {
      StepLightens(g, s, h);
      PassEnds(g, Step(g, s), h, n - 1);
    }
  }

  lemma {:induction false} PushedShallow(g: Graph, stack: seq<Entry>, kids: seq<int>, parent: int, h: nat)
    requires AllShallow(g, PushKids(stack, kids, parent), h)
    ensures AllShallow(g, stack, h) && KidsShallow(g, kids, h)
    decreases |kids|
  {
    if kids != [] {
      var others, last := kids[..|kids| - 1], kids[|kids| - 1];
      var mid, s := PushKids(stack, others, parent), PushKids(stack, kids, parent);
      assert s[|s| - 1].block == last;
      assert forall i | 0 <= i < |mid| :: s[i] == mid[i];
      PushedShallow(g, stack, others, parent, h);
    }
  }

  lemma ShallowAgain(g: Graph, below: seq<Entry>, top: Entry, n: nat)
    requires AllShallow(g, below, n) && KidsShallow(g, Kids(g, top.block), n)
    ensures AllShallow(g, below + [top], n + 1)
  {
    assert DepthAtMost(g, top.block, n + 1);
    forall i | 0 <= i < |below|
      ensures DepthAtMost(g, below[i].block, n + 1)
    {
      DepthGrows(g, below[i].block, n, n + 1);
    }
  }

  lemma StepKeepsAll(g: Graph, s: State, below: seq<Entry>, top: Entry)
    requires WellFormed(g, s) && s.stack != [] && !Step(g, s).dropped
    requires below == s.stack[..|s.stack| - 1] && top == s.stack[|s.stack| - 1]
    ensures Step(g, s).stack == PushKids(below, Kids(g, top.block), top.block)
    ensures s.stack == below + [top]
  {
  }

  lemma ShallowBefore(g: Graph, s: State, n: nat)
    requires WellFormed(g, s) && s.stack != [] && !Step(g, s).dropped && AllShallow(g, Step(g, s).stack, n)
    ensures AllShallow(g, s.stack, n + 1)
  {
    var top, below := s.stack[|s.stack| - 1], s.stack[..|s.stack| - 1];
    StepKeepsAll(g, s, below, top);
    PushedShallow(g, below, Kids(g, top.block), top.block, n);
    ShallowAgain(g, below, top, n);
  }

  /** A run that ends without dropping a push has seen the bottom of everything on its stack. */
  lemma {:induction false} EndedMeansShallow(g: Graph, s: State, n: nat)
    requires WellFormed(g, s) && Steps(g, s, n).stack == [] && !Steps(g, s, n).dropped
    ensures AllShallow(g, s.stack, n)
    decreases n
  {
    if n != 0 && s.stack != [] {
      EndedMeansShallow(g, Step(g, s), n - 1);
      ShallowBefore(g, s, n - 1);
    }
  }

  ghost predicate EndsWithoutDrop(g: Graph, parents: seq<int>, block: int, parent: int, n: nat)
    requires |parents| == |g|
  {
    var end := Steps(g, Start(parents, block, parent), n);
    end.stack == [] && !end.dropped
  }

  ghost predicate AcyclicAndFits(g: Graph, block: int, h: nat) {
    DepthAtMost(g, block, h) && Fits(g, block, 0, h)
  }

  lemma {:induction false} DroppedStays(g: Graph, s: State, m: nat, n: nat)
    requires WellFormed(g, s) && m <= n
    ensures Steps(g, s, m).dropped ==> Steps(g, s, n).dropped
    ensures Steps(g, s, m).stack == [] ==> Steps(g, s, n) == Steps(g, s, m)
  {
    StepsCompose(g, s, m, n - m);
  }

  /** The pass ends with every push kept exactly when there is no cycle below the block and it fits. */
  lemma EndsWithoutDropIff(g: Graph, parents: seq<int>, block: int, parent: int)
    requires |parents| == |g|
    ensures (exists n: nat :: EndsWithoutDrop(g, parents, block, parent, n)) <==>
            (exists h: nat :: AcyclicAndFits(g, block, h))
  {
    var s := Start(parents, block, parent);
    if h: nat :| AcyclicAndFits(g, block, h) {
      PassIsWalkIff(g, parents, block, parent, h);
      assert EndsWithoutDrop(g, parents, block, parent, Weight(g, block, h));
    }
    if n: nat :| EndsWithoutDrop(g, parents, block, parent, n) {
      EndedMeansShallow(g, s, n);
      assert DepthAtMost(g, s.stack[0].block, n);
      PassIsWalkIff(g, parents, block, parent, n);
      DroppedStays(g, s, n, n + Weight(g, block, n));
      DroppedStays(g, s, Weight(g, block, n), n + Weight(g, block, n));
      assert AcyclicAndFits(g, block, n);
    }
  }

  // ----- Passes that never end -----------------------------------------------------------------

  /** From `b` one can go `n` times from a block to its first body. */
  ghost predicate FirstBodies(g: Graph, b: int, n: nat)
    decreases n
  {
    n == 0 || (Kids(g, b) != [] && FirstBodies(g, Kids(g, b)[0], n - 1))
  }

  ghost predicate IsEndless(g: Graph, b: int) {
    forall n: nat :: FirstBodies(g, b, n)
  }

  ghost predicate HoldsEndless(g: Graph, stack: seq<Entry>) {
    exists i :: 0 <= i < |stack| && IsEndless(g, stack[i].block)
  }

  lemma FirstBodyIsEndless(g: Graph, b: int)
    requires IsEndless(g, b)
    ensures Kids(g, b) != [] && IsEndless(g, Kids(g, b)[0])
  {
    assert FirstBodies(g, b, 1);
    forall n: nat
      ensures FirstBodies(g, Kids(g, b)[0], n)
    {
      assert FirstBodies(g, b, n + 1);
    }
  }

  lemma {:induction false} PushKidsFirst(stack: seq<Entry>, kids: seq<int>, parent: int)
    ensures var s := PushKids(stack, kids, parent);
            && (forall i | 0 <= i < |stack| :: s[i] == stack[i])
            && (kids != [] ==> s[|stack|].block == kids[0])
    decreases |kids|
  {
    if kids != [] {
      PushKidsFirst(stack, kids[..|kids| - 1], parent);
    }
  }

  /** There is always room for the first body of the block just popped. */
  lemma PushedFirst(stack: seq<Entry>, kids: seq<int>, parent: int)
    requires |stack| < STACK_CAP
    ensures var s := Pushed(stack, kids, parent);
            && |s| >= |stack| && (forall i | 0 <= i < |stack| :: s[i] == stack[i])
            && (kids != [] ==> |s| > |stack| && s[|stack|].block == kids[0])
  {
    if |stack| + |kids| <= STACK_CAP {
      PushKidsFirst(stack, kids, parent);
    } else {
      PushKidsFirst(stack, kids[..STACK_CAP - |stack|], parent);
    }
  }

  lemma StepHoldsEndless(g: Graph, s: State)
    requires WellFormed(g, s) && HoldsEndless(g, s.stack)
    ensures HoldsEndless(g, Step(g, s).stack)
  {
    var i :| 0 <= i < |s.stack| && IsEndless(g, s.stack[i].block);
    var top, below := s.stack[|s.stack| - 1], s.stack[..|s.stack| - 1];
    var after := Step(g, s).stack;
    PushedFirst(below, Kids(g, top.block), top.block);
    if i < |below| {
      assert after[i] == s.stack[i];
    } else {
      FirstBodyIsEndless(g, top.block);
      assert IsEndless(g, after[|below|].block);
    }
  }

  /**
   * Once a block is on the stack from which one can go on to first bodies for ever, the pass never
   * ends, however many other pushes are dropped.
   */
  lemma {:induction false} EndlessNeverEnds(g: Graph, s: State, n: nat)
    requires WellFormed(g, s) && HoldsEndless(g, s.stack)
    ensures Steps(g, s, n).stack != []
    decreases n
  {
    if n > 0 {
      StepHoldsEndless(g, s);
      EndlessNeverEnds(g, Step(g, s), n - 1);
    }
  }

  /** A body that contains itself keeps the pass running for ever. */
  lemma {:induction false} SelfLoopNeverEnds(g: Graph, parents: seq<int>, b: int, parent: int, n: nat)
    requires |parents| == |g| && InRange(g, b) && Kids(g, b) == [b]
    ensures |Steps(g, Start(parents, b, parent), n).stack| == 1
    decreases n
  {
    if n > 0 {
      var next := SelfLoopStep(g, parents, b, parent);
      SelfLoopNeverEnds(g, next, b, b, n - 1);
    }
  }

  lemma SelfLoopStep(g: Graph, parents: seq<int>, b: int, parent: int) returns (next: seq<int>)
    requires |parents| == |g| && InRange(g, b) && Kids(g, b) == [b]
    ensures |next| == |g| && Step(g, Start(parents, b, parent)) == Start(next, b, b)
  {
    var s := Start(parents, b, parent);
    next := Step(g, s).parents;
    assert s.stack[..0] == [];
    assert [b][..0] == [];
    assert PushKids([], [b], b) == [] + [Entry(b, b)];
  }
}
