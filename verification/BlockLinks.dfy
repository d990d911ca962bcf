/** The parent-link pass over the block arena, and what it leaves in the parent fields. */
module BlockLinks {
  import opened BlockGraph

  // ----- What every run does, on any graph and after any number of steps ------------------------

  ghost predicate ReachIn(g: Graph, a: int, b: int, n: nat)
    decreases n
  {
    a == b || (n > 0 && exists i :: 0 <= i < |Kids(g, a)| && ReachIn(g, Kids(g, a)[i], b, n - 1))
  }

  ghost predicate Reachable(g: Graph, a: int, b: int) {
    exists n: nat :: ReachIn(g, a, b, n)
  }

  /** `p` is below `root` (or is it) and has `b` among its bodies. */
  ghost predicate Contains(g: Graph, root: int, p: int, b: int) {
    InRange(g, p) && b in Kids(g, p) && Reachable(g, root, p)
  }

  lemma {:induction false} ReachExtends(g: Graph, a: int, m: int, b: int, n: nat)
    requires ReachIn(g, a, m, n) && b in Kids(g, m)
    ensures ReachIn(g, a, b, n + 1)
    decreases n
  {
    if a == m {
      var i :| 0 <= i < |Kids(g, a)| && Kids(g, a)[i] == b;
      assert ReachIn(g, Kids(g, a)[i], b, n);
    } else {
      var i :| 0 <= i < |Kids(g, a)| && ReachIn(g, Kids(g, a)[i], m, n - 1);
      ReachExtends(g, Kids(g, a)[i], m, b, n - 1);
    }
  }

  lemma ContainedIsReachable(g: Graph, root: int, p: int, b: int)
    requires Contains(g, root, p, b)
    ensures Reachable(g, root, b)
  {
    var n: nat :| ReachIn(g, root, p, n);
    ReachExtends(g, root, p, b, n);
  }

  /** An entry is the one the pass started with, or a body pushed by its container. */
  ghost predicate Justified(g: Graph, start: Entry, e: Entry) {
    e == start || Contains(g, start.block, e.parent, e.block)
  }

  /** A parent field still holds its old value, or was zero and now names the caller's parent or a container. */
  ghost predicate LinkJustified(g: Graph, start: Entry, before: int, b: int, after: int) {
    after == before || (before == 0 && after != 0 && Justified(g, start, Entry(b, after)))
  }

  ghost predicate RunInvariant(g: Graph, start: Entry, before: seq<int>, s: State) {
    && |before| == |g| && WellFormed(g, s)
    && (forall i | 0 <= i < |s.stack| :: Justified(g, start, s.stack[i]))
    && (forall b | InRange(g, b) :: LinkJustified(g, start, before[b - 1], b, s.parents[b - 1]))
  }

  lemma {:induction false} PushedJustified(g: Graph, start: Entry, stack: seq<Entry>, kids: seq<int>, p: int)
    requires forall i | 0 <= i < |stack| :: Justified(g, start, stack[i])
    requires forall i | 0 <= i < |kids| :: Contains(g, start.block, p, kids[i])
    ensures forall i | 0 <= i < |PushKids(stack, kids, p)| :: Justified(g, start, PushKids(stack, kids, p)[i])
    decreases |kids|
  {
    if kids != [] {
      PushedJustified(g, start, stack, kids[..|kids| - 1], p);
    }
  }

  lemma TopIsReachable(g: Graph, start: Entry, top: Entry)
    requires Justified(g, start, top)
    ensures Reachable(g, start.block, top.block)
  {
    if top == start {
      assert ReachIn(g, start.block, start.block, 0);
    } else {
      ContainedIsReachable(g, start.block, top.parent, top.block);
    }
  }

  lemma StackStep(g: Graph, start: Entry, below: seq<Entry>, top: Entry)
    requires |below| < STACK_CAP && Justified(g, start, top)
    requires forall i | 0 <= i < |below| :: Justified(g, start, below[i])
    ensures var stack := Pushed(below, Kids(g, top.block), top.block);
            forall i | 0 <= i < |stack| :: Justified(g, start, stack[i])
  {
    var kids := Kids(g, top.block);
    var kept := if |below| + |kids| <= STACK_CAP then kids else kids[..STACK_CAP - |below|];
    TopIsReachable(g, start, top);
    forall i | 0 <= i < |kept|
      ensures Contains(g, start.block, top.block, kept[i])
    {
      assert kept[i] == kids[i];
    }
    PushedJustified(g, start, below, kept, top.block);
  }

  lemma LinkStep(g: Graph, start: Entry, before: seq<int>, parents: seq<int>, top: Entry, b: int)
    requires |before| == |parents| == |g| && InRange(g, b) && Justified(g, start, top)
    requires LinkJustified(g, start, before[b - 1], b, parents[b - 1])
    ensures LinkJustified(g, start, before[b - 1], b, Linked(g, parents, top)[b - 1])
  {
  }

  lemma StepKeepsInvariant(g: Graph, start: Entry, before: seq<int>, s: State)
    requires RunInvariant(g, start, before, s)
    ensures RunInvariant(g, start, before, Step(g, s))
  {
    if s.stack != [] {
      var top, below := s.stack[|s.stack| - 1], s.stack[..|s.stack| - 1];
      assert Justified(g, start, top);
      StackStep(g, start, below, top);
      forall b | InRange(g, b)
        ensures LinkJustified(g, start, before[b - 1], b, Step(g, s).parents[b - 1])
      {
        LinkStep(g, start, before, s.parents, top, b);
      }
    }
  }

  /**
   * After any number of steps on any graph, cyclic or not and with or without dropped pushes: a
   * parent that was set is never overwritten, and every parent written is the one the caller gave
   * for the root or a block that really contains the child.
   */
  lemma {:induction false} EveryRunIsSound(g: Graph, start: Entry, before: seq<int>, s: State, n: nat)
    requires RunInvariant(g, start, before, s)
    ensures RunInvariant(g, start, before, Steps(g, s, n))
    decreases n
  {
    if n > 0 {
      StepKeepsInvariant(g, start, before, s);
      EveryRunIsSound(g, start, before, Step(g, s), n - 1);
    }
  }

  // ----- What the walk reaches -----------------------------------------------------------------

  lemma {:induction false} WalkKeepsLinks(g: Graph, e: Entry, parents: seq<int>, n: nat, b: int)
    requires |parents| == |g| && InRange(g, b) && parents[b - 1] != 0
    ensures Walk(g, e, parents, n)[b - 1] == parents[b - 1]
    decreases n, 1, 0
  {
    if n > 0 {
      WalkKidsKeepsLinks(g, Kids(g, e.block), e.block, Linked(g, parents, e), n - 1, b);
    }
  }

  lemma {:induction false} WalkKidsKeepsLinks(g: Graph, kids: seq<int>, p: int, parents: seq<int>, n: nat, b: int)
    requires |parents| == |g| && InRange(g, b) && parents[b - 1] != 0
    ensures WalkKids(g, kids, p, parents, n)[b - 1] == parents[b - 1]
    decreases n, 2, |kids|
  {
    if kids != [] {
      var last := |kids| - 1;
      WalkKeepsLinks(g, Entry(kids[last], p), parents, n, b);
      WalkKidsKeepsLinks(g, kids[..last], p, Walk(g, Entry(kids[last], p), parents, n), n, b);
    }
  }

  /** After the walk of an entry whose parent is not zero, every block below it has a parent. */
  lemma {:induction false} WalkLinksAll(g: Graph, e: Entry, parents: seq<int>, n: nat, b: int)
    requires |parents| == |g| && InRange(g, b) && DepthAtMost(g, e.block, n)
    requires ReachIn(g, e.block, b, n) && (e.parent != 0 || b != e.block)
    ensures Walk(g, e, parents, n)[b - 1] != 0
    decreases n, 1, 0
  {
    var linked := Linked(g, parents, e);
    if b == e.block {
      if n > 0 {
        WalkKidsKeepsLinks(g, Kids(g, e.block), e.block, linked, n - 1, b);
      }
    } else {
      var kids := Kids(g, e.block);
      var i :| 0 <= i < |kids| && ReachIn(g, kids[i], b, n - 1);
      WalkKidsLinksAll(g, kids, e.block, linked, n - 1, b, i);
    }
  }

  lemma {:induction false} WalkKidsLinksAll(g: Graph, kids: seq<int>, p: int, parents: seq<int>, n: nat, b: int, i: nat)
    requires |parents| == |g| && InRange(g, b) && p != 0 && i < |kids|
    requires KidsShallow(g, kids, n) && ReachIn(g, kids[i], b, n)
    ensures WalkKids(g, kids, p, parents, n)[b - 1] != 0
    decreases n, 2, |kids|
  {
    var last := |kids| - 1;
    var walked := Walk(g, Entry(kids[last], p), parents, n);
    if i == last {
      WalkLinksAll(g, Entry(kids[last], p), parents, n, b);
      WalkKidsKeepsLinks(g, kids[..last], p, walked, n, b);
    } else {
      WalkKidsLinksAll(g, kids[..last], p, walked, n, b, i);
    }
  }

  // ----- The true parents ----------------------------------------------------------------------

  lemma {:induction false} ReachWithinDepth(g: Graph, a: int, b: int, n: nat, h: nat)
    requires ReachIn(g, a, b, n) && DepthAtMost(g, a, h)
    ensures ReachIn(g, a, b, h)
    decreases n
  {
    if a != b {
      var kids := Kids(g, a);
      var i :| 0 <= i < |kids| && ReachIn(g, kids[i], b, n - 1);
      ReachWithinDepth(g, kids[i], b, n - 1, h - 1);
    }
  }

  lemma KidIsShallower(g: Graph, r: int, kid: int, h: nat)
    requires DepthAtMost(g, r, h) && kid in Kids(g, r)
    ensures h > 0 && DepthAtMost(g, kid, h - 1)
  {
    var kids := Kids(g, r);
    var i :| 0 <= i < |kids| && kids[i] == kid;
  }

  lemma {:induction false} ReachedIsNoDeeper(g: Graph, a: int, p: int, n: nat, h: nat)
    requires DepthAtMost(g, a, h) && ReachIn(g, a, p, n)
    ensures DepthAtMost(g, p, h)
    decreases n
  {
    if a != p {
      var kid := NextOnTheWay(g, a, p, n);
      KidIsShallower(g, a, kid, h);
      ReachedIsNoDeeper(g, kid, p, n - 1, h - 1);
      DepthGrows(g, p, h - 1, h);
    }
  }

  lemma NextOnTheWay(g: Graph, a: int, p: int, n: nat) returns (kid: int)
    requires ReachIn(g, a, p, n) && a != p
    ensures n > 0 && kid in Kids(g, a) && ReachIn(g, kid, p, n - 1)
  {
    var i :| 0 <= i < |Kids(g, a)| && ReachIn(g, Kids(g, a)[i], p, n - 1);
    kid := Kids(g, a)[i];
  }

  /** Without a cycle the root is nobody's body. */
  lemma {:induction false} RootIsNotContained(g: Graph, root: int, p: int, h: nat)
    requires DepthAtMost(g, root, h)
    ensures !Contains(g, root, p, root)
    decreases h
  {
    if Contains(g, root, p, root) {
      var n: nat :| ReachIn(g, root, p, n);
      ReachedIsNoDeeper(g, root, p, n, h);
      KidIsShallower(g, p, root, h);
      RootIsNotContained(g, root, p, h - 1);
    }
  }

  /** No block below the root is a body of two different blocks. */
  ghost predicate IsTree(g: Graph, root: int) {
    forall p, q, b :: Contains(g, root, p, b) && Contains(g, root, q, b) ==> p == q
  }

  /** The parent field the pass owes to block `b`. */
  ghost predicate IsOwed(g: Graph, start: Entry, before: int, b: int, after: int) {
    if before != 0 then after == before
    else if b == start.block then after == start.parent
    else if Reachable(g, start.block, b) then Contains(g, start.block, after, b)
    else after == before
  }

  /**
   * When the blocks below the root have no cycle and fit the stack, every block with an unset
   * parent gets a block that contains it, the root gets the caller's parent, and nothing else
   * changes. On a tree the container is unique, so this is the true parent.
   */
  lemma PassSetsOwedParents(g: Graph, start: Entry, before: seq<int>, h: nat, b: int)
    requires |before| == |g| && InRange(g, b)
    requires DepthAtMost(g, start.block, h) && Fits(g, start.block, 0, h)
    ensures var after := Final(g, before, start.block, start.parent, h).parents;
            && IsOwed(g, start, before[b - 1], b, after[b - 1])
            && (IsTree(g, start.block) && before[b - 1] == 0 && b != start.block ==>
                  forall p :: Contains(g, start.block, p, b) ==> after[b - 1] == p)
  {
    var s := Start(before, start.block, start.parent);
    var after := Final(g, before, start.block, start.parent, h).parents;
    PassIsWalkIff(g, before, start.block, start.parent, h);
    EveryRunIsSound(g, start, before, s, Weight(g, start.block, h));
    assert LinkJustified(g, start, before[b - 1], b, after[b - 1]);
    RootIsNotContained(g, start.block, after[b - 1], h);
    if before[b - 1] == 0 && b == start.block && start.parent != 0 {
      assert ReachIn(g, b, b, h);
      WalkLinksAll(g, start, before, h, b);
    } else if before[b - 1] == 0 && b != start.block && Reachable(g, start.block, b) {
      var n: nat :| ReachIn(g, start.block, b, n);
      ReachWithinDepth(g, start.block, b, n, h);
      WalkLinksAll(g, start, before, h, b);
    } else if before[b - 1] == 0 && after[b - 1] != 0 && b != start.block {
      ContainedIsReachable(g, start.block, after[b - 1], b);
    }
    if IsTree(g, start.block) && before[b - 1] == 0 && b != start.block {
      forall p | Contains(g, start.block, p, b)
        ensures after[b - 1] == p
      {
        ContainedIsReachable(g, start.block, p, b);
        assert Contains(g, start.block, after[b - 1], b);
      }
    }
  }

  // ----- The arena and the pass over it ----------------------------------------------------------

  datatype IfBodies = IfBodies(thenBody: int, elseBody: int)

  /** A block: its bodies by kind, the parent field, and everything else a block record holds. */
  datatype Block = Block(whiles: seq<int>, fors: seq<int>, ifs: seq<IfBodies>, regions: seq<int>,
                         parent: int, rest: int)

  function IfRefs(ifs: seq<IfBodies>): seq<int>
    decreases |ifs|
  {
    if ifs == [] then []
    else IfRefs(ifs[..|ifs| - 1]) + [ifs[|ifs| - 1].thenBody] + [ifs[|ifs| - 1].elseBody]
  }

  function Positive(refs: seq<int>): seq<int>
    decreases |refs|
  {
    if refs == [] then []
    else Positive(refs[..|refs| - 1]) + if refs[|refs| - 1] > 0 then [refs[|refs| - 1]] else []
  }

  function BodyRefs(b: Block): seq<int> {
    b.whiles + b.fors + IfRefs(b.ifs) + b.regions
  }

  function GraphOf(blocks: seq<Block>): (g: Graph)
    ensures |g| == |blocks|
    decreases |blocks|
  {
    if blocks == [] then []
    else GraphOf(blocks[..|blocks| - 1]) + [Positive(BodyRefs(blocks[|blocks| - 1]))]
  }

  function ParentsOf(blocks: seq<Block>): (ps: seq<int>)
    ensures |ps| == |blocks|
    decreases |blocks|
  {
    if blocks == [] then [] else ParentsOf(blocks[..|blocks| - 1]) + [blocks[|blocks| - 1].parent]
  }

  /** The blocks with their parent fields cleared: all that the pass must not change. */
  function Erased(blocks: seq<Block>): (bs: seq<Block>)
    ensures |bs| == |blocks|
    decreases |blocks|
  {
    if blocks == [] then [] else Erased(blocks[..|blocks| - 1]) + [blocks[|blocks| - 1].(parent := 0)]
  }

  lemma {:induction false} BlockViews(blocks: seq<Block>, i: nat)
    requires i < |blocks|
    ensures GraphOf(blocks)[i] == Positive(BodyRefs(blocks[i]))
    ensures ParentsOf(blocks)[i] == blocks[i].parent
    ensures Erased(blocks)[i] == blocks[i].(parent := 0)
    decreases |blocks|
  {
    if i < |blocks| - 1 {
      BlockViews(blocks[..|blocks| - 1], i);
    }
  }

  // ----- Which bodies a block has -----------------------------------------------------------------

  /** The block has `c` as the body of a while or for loop, of a branch or of a region. */
  ghost predicate HasBody(b: Block, c: int) {
    || c in b.whiles || c in b.fors || c in b.regions
    || exists k :: 0 <= k < |b.ifs| && (b.ifs[k].thenBody == c || b.ifs[k].elseBody == c)
  }

  /** The same of block `p` of the arena; a reference that is not positive denotes no block. */
  ghost predicate IsBodyOf(blocks: seq<Block>, p: int, c: int) {
    0 < p <= |blocks| && c > 0 && HasBody(blocks[p - 1], c)
  }

  lemma {:induction false} PositiveMembers(refs: seq<int>, c: int)
    ensures c in Positive(refs) <==> c > 0 && c in refs
    decreases |refs|
  {
    if refs != [] {
      var init, last := refs[..|refs| - 1], refs[|refs| - 1];
      PositiveMembers(init, c);
      assert refs == init + [last];
    }
  }

  /** The positive references stay in their order. */
  lemma {:induction false} PositiveConcat(a: seq<int>, b: seq<int>)
    ensures Positive(a + b) == Positive(a) + Positive(b)
    ensures |Positive(b)| <= |b|
    decreases |b|
  {
    if b == [] {
      assert a + b == a;
    } else {
      assert (a + b)[..|a + b| - 1] == a + b[..|b| - 1];
      PositiveConcat(a, b[..|b| - 1]);
    }
  }

  lemma {:induction false} IfRefsAt(ifs: seq<IfBodies>, k: nat)
    requires k < |ifs|
    ensures |IfRefs(ifs)| == 2 * |ifs|
    ensures IfRefs(ifs)[2 * k] == ifs[k].thenBody && IfRefs(ifs)[2 * k + 1] == ifs[k].elseBody
    decreases |ifs|
  {
    var init := ifs[..|ifs| - 1];
    if init != [] {
      IfRefsAt(init, if k < |init| then k else 0);
    }
  }

  lemma IfRefIsBody(ifs: seq<IfBodies>, i: nat)
    requires i < |IfRefs(ifs)|
    ensures i / 2 < |ifs| && (ifs[i / 2].thenBody == IfRefs(ifs)[i] || ifs[i / 2].elseBody == IfRefs(ifs)[i])
  {
    IfRefsAt(ifs, 0);
    IfRefsAt(ifs, i / 2);
    assert i == 2 * (i / 2) || i == 2 * (i / 2) + 1;
  }

  lemma IfRefsMembers(ifs: seq<IfBodies>, c: int)
    ensures c in IfRefs(ifs) <==> exists k :: 0 <= k < |ifs| && (ifs[k].thenBody == c || ifs[k].elseBody == c)
  {
    if k :| 0 <= k < |ifs| && (ifs[k].thenBody == c || ifs[k].elseBody == c) {
      IfRefsAt(ifs, k);
    }
    if c in IfRefs(ifs) {
      var i :| 0 <= i < |IfRefs(ifs)| && IfRefs(ifs)[i] == c;
      IfRefIsBody(ifs, i);
    }
  }

  /** The graph has an edge for every positive body reference of a block, of whatever kind, and no other. */
  lemma KidsAreBodies(blocks: seq<Block>, p: int, c: int)
    ensures c in Kids(GraphOf(blocks), p) <==> IsBodyOf(blocks, p, c)
  {
    if 0 < p <= |blocks| {
      var b := blocks[p - 1];
      BlockViews(blocks, p - 1);
      PositiveMembers(BodyRefs(b), c);
      IfRefsMembers(b.ifs, c);
    }
  }

  /** In the order in which they are pushed: while bodies, for bodies, each then and else body, region bodies. */
  lemma BodiesInOrder(b: Block, i: nat)
    ensures var refs, w, f, r := BodyRefs(b), |b.whiles|, |b.whiles| + |b.fors|, |b.whiles| + |b.fors| + 2 * |b.ifs|;
            && |refs| == r + |b.regions|
            && (i < w ==> refs[i] == b.whiles[i])
            && (w <= i < f ==> refs[i] == b.fors[i - w])
            && (f <= i < r ==>
                  refs[i] == if (i - f) % 2 == 0 then b.ifs[(i - f) / 2].thenBody else b.ifs[(i - f) / 2].elseBody)
            && (r <= i < |refs| ==> refs[i] == b.regions[i - r])
  {
    var f := |b.whiles| + |b.fors|;
    if b.ifs != [] {
      IfRefsAt(b.ifs, if f <= i < f + 2 * |b.ifs| then (i - f) / 2 else 0);
    }
  }

  ghost predicate ChainOfBodies(blocks: seq<Block>, a: int, b: int, n: nat)
    decreases n
  {
    a == b || (n > 0 && exists c :: IsBodyOf(blocks, a, c) && ChainOfBodies(blocks, c, b, n - 1))
  }

  /** One gets from `a` to `b`, or stays there, by going from blocks to their bodies. */
  ghost predicate IsBelow(blocks: seq<Block>, a: int, b: int) {
    exists n: nat :: ChainOfBodies(blocks, a, b, n)
  }

  /** What the pass owes the block `b`: its own parent, the caller's, a block that has it as a body, or none. */
  ghost predicate ParentIsOwed(before: seq<Block>, root: int, parent: int, b: int, after: int)
    requires 0 < b <= |before|
  {
    if before[b - 1].parent != 0 then after == before[b - 1].parent
    else if b == root then after == parent
    else if IsBelow(before, root, b) then IsBelow(before, root, after) && IsBodyOf(before, after, b)
    else after == 0
  }

  ghost predicate AllOwed(before: seq<Block>, after: seq<Block>, root: int, parent: int) {
    |after| == |before| && forall i | 0 <= i < |after| :: ParentIsOwed(before, root, parent, i + 1, after[i].parent)
  }

  lemma {:induction false} ChainIsReach(blocks: seq<Block>, a: int, b: int, n: nat)
    ensures ChainOfBodies(blocks, a, b, n) <==> ReachIn(GraphOf(blocks), a, b, n)
    decreases n
  {
    if a != b && n > 0 {
      var kids := Kids(GraphOf(blocks), a);
      if c :| IsBodyOf(blocks, a, c) && ChainOfBodies(blocks, c, b, n - 1) {
        KidsAreBodies(blocks, a, c);
        ChainIsReach(blocks, c, b, n - 1);
        var i :| 0 <= i < |kids| && kids[i] == c;
      }
      if i :| 0 <= i < |kids| && ReachIn(GraphOf(blocks), kids[i], b, n - 1) {
        KidsAreBodies(blocks, a, kids[i]);
        ChainIsReach(blocks, kids[i], b, n - 1);
      }
    }
  }

  lemma BelowIsReachable(blocks: seq<Block>, a: int, b: int)
    ensures IsBelow(blocks, a, b) <==> Reachable(GraphOf(blocks), a, b)
  {
    if n: nat :| ChainOfBodies(blocks, a, b, n) {
      ChainIsReach(blocks, a, b, n);
    }
    if n: nat :| ReachIn(GraphOf(blocks), a, b, n) {
      ChainIsReach(blocks, a, b, n);
    }
  }

  lemma OwedOnBlocks(blocks: seq<Block>, block: int, parent: int, h: nat, b: int)
    requires DepthAtMost(GraphOf(blocks), block, h) && Fits(GraphOf(blocks), block, 0, h) && 0 < b <= |blocks|
    ensures ParentIsOwed(blocks, block, parent, b,
                         Final(GraphOf(blocks), ParentsOf(blocks), block, parent, h).parents[b - 1])
  {
    var g, before := GraphOf(blocks), ParentsOf(blocks);
    var after := Final(g, before, block, parent, h).parents[b - 1];
    PassSetsOwedParents(g, Entry(block, parent), before, h, b);
    BlockViews(blocks, b - 1);
    BelowIsReachable(blocks, block, b);
    BelowIsReachable(blocks, block, after);
    KidsAreBodies(blocks, after, b);
  }

  /** Without a cycle and with room, the pass leaves every block the parent it owes it. */
  lemma PassOwesParents(before: seq<Block>, after: seq<Block>, block: int, parent: int, h: nat)
    requires DepthAtMost(GraphOf(before), block, h) && Fits(GraphOf(before), block, 0, h)
    requires ParentsOf(after) == Final(GraphOf(before), ParentsOf(before), block, parent, h).parents
    ensures AllOwed(before, after, block, parent)
  {
    forall i | 0 <= i < |after|
      ensures ParentIsOwed(before, block, parent, i + 1, after[i].parent)
    {
      OwedOnBlocks(before, block, parent, h, i + 1);
      BlockViews(after, i);
    }
  }

  lemma {:induction false} SetParentViews(blocks: seq<Block>, i: nat, p: int)
    requires i < |blocks|
    ensures var after := blocks[i := blocks[i].(parent := p)];
            Erased(after) == Erased(blocks) && ParentsOf(after) == ParentsOf(blocks)[i := p]
    decreases |blocks|
  {
    var last := |blocks| - 1;
    var after := blocks[i := blocks[i].(parent := p)];
    if i < last {
      SetParentViews(blocks[..last], i, p);
      assert after[..last] == blocks[..last][i := blocks[..last][i].(parent := p)];
    } else {
      assert after[..last] == blocks[..last];
    }
  }

  lemma {:induction false} ErasedShapesTheGraph(blocks: seq<Block>)
    ensures GraphOf(Erased(blocks)) == GraphOf(blocks)
    decreases |blocks|
  {
    if blocks != [] {
      var init := blocks[..|blocks| - 1];
      ErasedShapesTheGraph(init);
      assert Erased(blocks)[..|blocks| - 1] == Erased(init);
    }
  }

  /** Blocks that differ in their parent fields alone make the same graph and have the same bodies. */
  lemma SameShape(before: seq<Block>, after: seq<Block>)
    requires Erased(after) == Erased(before)
    ensures GraphOf(after) == GraphOf(before)
  {
    ErasedShapesTheGraph(before);
    ErasedShapesTheGraph(after);
  }

  lemma SameBodies(before: seq<Block>, after: seq<Block>, i: nat)
    requires Erased(after) == Erased(before) && i < |before| == |after|
    ensures Kids(GraphOf(before), i + 1) == Positive(BodyRefs(after[i]))
  {
    BlockViews(before, i);
    BlockViews(after, i);
    assert before[i].(parent := 0) == after[i].(parent := 0);
    assert BodyRefs(before[i]) == BodyRefs(after[i]);
  }

  /** Where the pass stands after some trips round its loop; it does not start on a block out of range. */
  function Trips(g: Graph, parents: seq<int>, block: int, parent: int, n: nat): (s: State)
    requires |parents| == |g|
    ensures WellFormed(g, s)
  {
    if InRange(g, block) then Steps(g, Start(parents, block, parent), n) else State([], parents, false)
  }

  /** Whenever the pass is cut off, every parent that changed was unset and is justified. */
  lemma TripsAreSound(g: Graph, parents: seq<int>, block: int, parent: int, n: nat)
    requires |parents| == |g|
    ensures RunInvariant(g, Entry(block, parent), parents, Trips(g, parents, block, parent, n))
  {
    if InRange(g, block) {
      EveryRunIsSound(g, Entry(block, parent), parents, Start(parents, block, parent), n);
    }
  }

  class Arena {
    var blocks: seq<Block>

    constructor (blocks: seq<Block>)
      ensures this.blocks == blocks
    {
      this.blocks := blocks;
    }

    method BlockGet(r: int) returns (b: Block)
      requires 0 < r <= |blocks|
      ensures b == blocks[r - 1]
    {
      b := blocks[r - 1];
    }

    method BlockSet(r: int, b: Block)
      requires 0 < r <= |blocks|
      modifies this
      ensures blocks == old(blocks)[r - 1 := b]
    {
      blocks := blocks[r - 1 := b];
    }

    /** The parent of the popped block is written when one is given and none is set. */
    method LinkHead(cur: int, par: int)
      requires 0 < cur <= |blocks|
      modifies this
      ensures Erased(blocks) == Erased(old(blocks))
      ensures ParentsOf(blocks) == Linked(GraphOf(old(blocks)), ParentsOf(old(blocks)), Entry(cur, par))
    {
      ghost var parents := ParentsOf(blocks);
      BlockViews(blocks, cur - 1);
      if par != 0 {
        var head := BlockGet(cur);
        if head.parent == 0 {
          SetParentViews(blocks, cur - 1, par);
          head := head.(parent := par);
          BlockSet(cur, head);
          assert ParentsOf(blocks) == parents[cur - 1 := par];
          return;
        }
      }
      assert blocks == old(blocks);
    }

    /** The arena and the two stack arrays are in the abstract state `s` of the pass over `g`. */
    ghost predicate Stands(blk: array<int>, par: array<int>, sp: int, g: Graph, s: State)
      reads this, blk, par
    {
      && blk.Length == par.Length == 256 && blk != par && 0 <= sp <= 256
      && GraphOf(blocks) == g && ParentsOf(blocks) == s.parents
      && StackOf(blk[..], par[..], sp) == s.stack
    }

    /** A popped block in range: its parent is linked and its bodies are pushed. */
    method Visit(blk: array<int>, par: array<int>, sp: int, cur: int, parent: int) returns (top: int)
      requires blk.Length == par.Length == 256 && blk != par && 0 <= sp <= 256 && 0 < cur <= |blocks|
      modifies this, blk, par
      ensures 0 <= top <= 256 && Erased(blocks) == Erased(old(blocks))
      ensures ParentsOf(blocks) == Linked(GraphOf(old(blocks)), ParentsOf(old(blocks)), Entry(cur, parent))
      ensures StackOf(blk[..], par[..], top) ==
              Pushed(StackOf(old(blk[..]), old(par[..]), sp), Kids(GraphOf(old(blocks)), cur), cur)
    {
      ghost var before := blocks;
      LinkHead(cur, parent);
      var b := BlockGet(cur);
      SameBodies(before, blocks, cur - 1);
      top := PushBodies(blk, par, sp, b, cur);
    }

    /** One iteration, pop, link, push the bodies, is one abstract step. */
    method Iterate(blk: array<int>, par: array<int>, sp: int, ghost g: Graph, ghost s: State)
      returns (top: int, ghost after: State)
      requires Stands(blk, par, sp, g, s) && sp > 0
      modifies this, blk, par
      ensures after == Step(g, s) && Stands(blk, par, top, g, after)
      ensures Erased(blocks) == Erased(old(blocks))
    {
      after := Step(g, s);
      top := sp - 1;
      var cur, parent := blk[top], par[top];
      TopIsPopped(g, s, blk[..], par[..], top);
      if cur <= 0 || cur > |blocks| {
        return;
      }
      ghost var before := blocks;
      top := Visit(blk, par, top, cur, parent);
      SameShape(before, blocks);
    }

    /**
     * The pass cut off after `trips` trips round its loop, on any graph: how high the stack and what
     * the parents are by then.
     */
    method PatchForTrips(block: int, parent: int, trips: nat) returns (sp: int)
      modifies this
      ensures Erased(blocks) == Erased(old(blocks))
      ensures var end := Trips(GraphOf(old(blocks)), ParentsOf(old(blocks)), block, parent, trips);
              ParentsOf(blocks) == end.parents && sp == |end.stack|
    {
      if block <= 0 || block > |blocks| {
        return 0;
      }
      ghost var g, shape, s := GraphOf(blocks), Erased(blocks), Start(ParentsOf(blocks), block, parent);
      ghost var end := Steps(g, s, trips);
      var stackBlk, stackPar := FirstEntry(block, parent);
      sp := 1;
      var done := 0;
      while sp > 0 && done < trips
        invariant 0 <= done <= trips && Erased(blocks) == shape
        invariant Stands(stackBlk, stackPar, sp, g, s)
        invariant WellFormed(g, s) && Steps(g, s, trips - done) == end
        decreases trips - done
      {
        sp, s := Iterate(stackBlk, stackPar, sp, g, s);
        done := done + 1;
      }
    }

    /**
     * The pass itself. `h` bounds the chains of bodies below the block; on a cyclic graph, where
     * there is no such bound, the loop need not end.
     */
    method PatchParentLinks(block: int, parent: int, ghost h: nat)
      requires DepthAtMost(GraphOf(blocks), block, h)
      modifies this
      ensures Erased(blocks) == Erased(old(blocks))
      ensures ParentsOf(blocks) == Final(GraphOf(old(blocks)), ParentsOf(old(blocks)), block, parent, h).parents
      ensures Fits(GraphOf(old(blocks)), block, 0, h) ==>
                AllOwed(old(blocks), blocks, block, parent)
    {
      ghost var g, s := GraphOf(blocks), Start(ParentsOf(blocks), block, parent);
      ghost var end := Final(g, ParentsOf(blocks), block, parent, h);
      ghost var fuel := Weight(g, block, h);
      Starts(g, ParentsOf(blocks), block, parent, h);
      if 0 < block <= |blocks| {
        var stackBlk, stackPar := FirstEntry(block, parent);
        Drain(stackBlk, stackPar, 1, g, s, h, fuel, end);
      } else {
        Ends(g, Step(g, s), h, fuel - 1, end);
      }
      if Fits(g, block, 0, h) {
        PassOwesParents(old(blocks), blocks, block, parent, h);
      }
    }

    /** The loop of the pass, from any state from which it ends. */
    method Drain(blk: array<int>, par: array<int>, count: int,
                 ghost g: Graph, ghost start: State, ghost h: nat, ghost steps: nat, ghost end: State)
      requires Stands(blk, par, count, g, start) && Running(g, start, h, steps, end)
      modifies this, blk, par
      ensures Erased(blocks) == Erased(old(blocks))
      ensures ParentsOf(blocks) == end.parents
    {
      ghost var shape, s, fuel := Erased(blocks), start, steps;
      var sp := count;
      while sp > 0
        invariant Erased(blocks) == shape && Stands(blk, par, sp, g, s)
        invariant Running(g, s, h, fuel, end)
        decreases fuel
      {
        Continues(g, s, h, fuel, end);
        sp, s := Iterate(blk, par, sp, g, s);
        fuel := fuel - 1;
      }
      Ends(g, s, h, fuel, end);
    }
  }

  /** The two stack arrays with the block and its parent on them. */
  method FirstEntry(block: int, parent: int) returns (stackBlk: array<int>, stackPar: array<int>)
    ensures fresh(stackBlk) && fresh(stackPar) && stackBlk != stackPar
    ensures stackBlk.Length == stackPar.Length == 256
    ensures StackOf(stackBlk[..], stackPar[..], 1) == [Entry(block, parent)]
  {
    stackBlk, stackPar := new int[256], new int[256];
    stackBlk[0] := block;
    stackPar[0] := parent;
    assert StackOf(stackBlk[..], stackPar[..], 0) == [];
  }

  /** A state from which `fuel` more steps certainly reach `end`. */
  ghost predicate Running(g: Graph, s: State, h: nat, fuel: nat, end: State) {
    WellFormed(g, s) && AllShallow(g, s.stack, h) && StackWeight(g, s.stack, h) <= fuel && Steps(g, s, fuel) == end
  }

  lemma Starts(g: Graph, parents: seq<int>, block: int, parent: int, h: nat)
    requires |parents| == |g| && DepthAtMost(g, block, h)
    ensures var s := Start(parents, block, parent);
            var end := Final(g, parents, block, parent, h);
            && Running(g, s, h, Weight(g, block, h), end)
            && (!InRange(g, block) ==>
                  Step(g, s) == State([], parents, false) && Running(g, Step(g, s), h, Weight(g, block, h) - 1, end))
  {
    var s := Start(parents, block, parent);
    assert s.stack[..0] == [];
  }

  lemma Continues(g: Graph, s: State, h: nat, fuel: nat, end: State)
    requires Running(g, s, h, fuel, end) && s.stack != []
    ensures fuel > 0 && Running(g, Step(g, s), h, fuel - 1, end)
  {
    StepLightens(g, s, h);
  }

  lemma Ends(g: Graph, s: State, h: nat, fuel: nat, end: State)
    requires Running(g, s, h, fuel, end) && s.stack == []
    ensures s == end
  {
  }

  // ----- The two stack arrays --------------------------------------------------------------------

  function StackOf(blk: seq<int>, par: seq<int>, sp: nat): (s: seq<Entry>)
    requires sp <= |blk| && sp <= |par|
    ensures |s| == sp
  {
    if sp == 0 then [] else StackOf(blk, par, sp - 1) + [Entry(blk[sp - 1], par[sp - 1])]
  }

  lemma {:induction false} StackFrame(blk: seq<int>, par: seq<int>, blk': seq<int>, par': seq<int>, sp: nat)
    requires sp <= |blk| == |blk'| && sp <= |par| == |par'|
    requires blk[..sp] == blk'[..sp] && par[..sp] == par'[..sp]
    ensures StackOf(blk, par, sp) == StackOf(blk', par', sp)
  {
    if sp > 0 {
      assert blk[..sp][..sp - 1] == blk[..sp - 1] && par[..sp][..sp - 1] == par[..sp - 1];
      assert blk'[..sp][..sp - 1] == blk'[..sp - 1] && par'[..sp][..sp - 1] == par'[..sp - 1];
      assert blk[sp - 1] == blk[..sp][sp - 1] && par[sp - 1] == par[..sp][sp - 1];
      StackFrame(blk, par, blk', par', sp - 1);
    }
  }

  /** What one abstract step makes of the stack held in the two arrays. */
  lemma TopIsPopped(g: Graph, s: State, blk: seq<int>, par: seq<int>, top: nat)
    requires top < |blk| && top < |par| && top < STACK_CAP && |s.parents| == |g|
    requires s.stack == StackOf(blk, par, top + 1)
    ensures var t, below := Step(g, s), StackOf(blk, par, top);
            && t.parents == Linked(g, s.parents, Entry(blk[top], par[top]))
            && t.stack == Pushed(below, Kids(g, blk[top]), blk[top])
            && (!InRange(g, blk[top]) ==> t.parents == s.parents && t.stack == below)
  {
    var below, e := StackOf(blk, par, top), Entry(blk[top], par[top]);
    assert s == State(below + [e], s.parents, s.dropped);
    StepPops(g, below, e, s.parents, s.dropped);
  }

  /** The guarded pushes, one reference at a time. */
  function PushRefs(stack: seq<Entry>, refs: seq<int>, parent: int): seq<Entry>
    decreases |refs|
  {
    if refs == [] then stack
    else
      PushRef(PushRefs(stack, refs[..|refs| - 1], parent), refs[|refs| - 1], parent)
  }

  function PushRef(stack: seq<Entry>, ref: int, parent: int): seq<Entry> {
    if ref > 0 && |stack| < STACK_CAP then stack + [Entry(ref, parent)] else stack
  }

  lemma IfRefsStep(stack: seq<Entry>, ifs: seq<IfBodies>, i: nat, parent: int)
    requires i < |ifs|
    ensures PushRefs(stack, IfRefs(ifs[..i + 1]), parent) ==
            PushRef(PushRef(PushRefs(stack, IfRefs(ifs[..i]), parent), ifs[i].thenBody, parent), ifs[i].elseBody, parent)
  {
    var refs := IfRefs(ifs[..i]);
    assert ifs[..i + 1][..i] == ifs[..i];
    assert (refs + [ifs[i].thenBody])[..|refs|] == refs;
    assert (refs + [ifs[i].thenBody] + [ifs[i].elseBody])[..|refs| + 1] == refs + [ifs[i].thenBody];
  }

  lemma {:induction false} PushRefsConcat(stack: seq<Entry>, a: seq<int>, b: seq<int>, parent: int)
    ensures PushRefs(stack, a + b, parent) == PushRefs(PushRefs(stack, a, parent), b, parent)
    decreases |b|
  {
    if b == [] {
      assert a + b == a;
    } else {
      assert (a + b)[..|a + b| - 1] == a + b[..|b| - 1];
      PushRefsConcat(stack, a, b[..|b| - 1], parent);
    }
  }

  /** They keep exactly the positive references for which there is room. */
  lemma {:induction false} PushRefsIsPushed(stack: seq<Entry>, refs: seq<int>, parent: int)
    requires |stack| <= STACK_CAP
    ensures PushRefs(stack, refs, parent) == Pushed(stack, Positive(refs), parent)
    decreases |refs|
  {
    if refs != [] {
      var init, last := refs[..|refs| - 1], refs[|refs| - 1];
      PushRefsIsPushed(stack, init, parent);
      var kids := Positive(init);
      if last > 0 {
        assert Positive(refs) == kids + [last];
        assert (kids + [last])[..|kids|] == kids;
        if |stack| + |kids| >= STACK_CAP {
          assert (kids + [last])[..STACK_CAP - |stack|] == kids[..STACK_CAP - |stack|];
          assert |stack| + |kids| == STACK_CAP ==> kids[..STACK_CAP - |stack|] == kids;
        }
      } else {
        assert Positive(refs) == kids;
      }
    } else {
      assert Positive(refs) == [];
    }
  }

  method PushOne(blk: array<int>, par: array<int>, sp: int, child: int, cur: int) returns (top: int)
    requires blk.Length == par.Length == 256 && blk != par && 0 <= sp <= 256
    modifies blk, par
    ensures 0 <= top <= 256
    ensures var was := StackOf(old(blk[..]), old(par[..]), sp);
            StackOf(blk[..], par[..], top) == PushRef(was, child, cur)
  {
    top := sp;
    if child > 0 && top < 256 {
      ghost var blk0, par0 := blk[..], par[..];
      blk[top] := child;
      par[top] := cur;
      StackFrame(blk0, par0, blk[..], par[..], top);
      top := top + 1;
    }
  }

  method PushAll(blk: array<int>, par: array<int>, sp: int, refs: seq<int>, cur: int) returns (top: int)
    requires blk.Length == par.Length == 256 && blk != par && 0 <= sp <= 256
    modifies blk, par
    ensures 0 <= top <= 256
    ensures StackOf(blk[..], par[..], top) == PushRefs(StackOf(old(blk[..]), old(par[..]), sp), refs, cur)
  {
    top := sp;
    var i := 0;
    ghost var was := StackOf(blk[..], par[..], sp);
    while i < |refs|
      invariant 0 <= i <= |refs| && 0 <= top <= 256
      invariant StackOf(blk[..], par[..], top) == PushRefs(was, refs[..i], cur)
    {
      assert refs[..i + 1][..i] == refs[..i];
      top := PushOne(blk, par, top, refs[i], cur);
      i := i + 1;
    }
    assert refs[..i] == refs;
  }

  method PushIfs(blk: array<int>, par: array<int>, sp: int, ifs: seq<IfBodies>, cur: int) returns (top: int)
    requires blk.Length == par.Length == 256 && blk != par && 0 <= sp <= 256
    modifies blk, par
    ensures 0 <= top <= 256
    ensures StackOf(blk[..], par[..], top) == PushRefs(StackOf(old(blk[..]), old(par[..]), sp), IfRefs(ifs), cur)
  {
    top := sp;
    var i := 0;
    ghost var was := StackOf(blk[..], par[..], sp);
    while i < |ifs|
      invariant 0 <= i <= |ifs| && 0 <= top <= 256
      invariant StackOf(blk[..], par[..], top) == PushRefs(was, IfRefs(ifs[..i]), cur)
    {
      IfRefsStep(was, ifs, i, cur);
      top := PushOne(blk, par, top, ifs[i].thenBody, cur);
      top := PushOne(blk, par, top, ifs[i].elseBody, cur);
      i := i + 1;
    }
    assert ifs[..i] == ifs;
  }

  /** While bodies, for bodies, then and else bodies, region bodies. */
  method PushBodies(blk: array<int>, par: array<int>, sp: int, b: Block, cur: int) returns (top: int)
    requires blk.Length == par.Length == 256 && blk != par && 0 <= sp <= 256
    modifies blk, par
    ensures 0 <= top <= 256
    ensures StackOf(blk[..], par[..], top) ==
            Pushed(StackOf(old(blk[..]), old(par[..]), sp), Positive(BodyRefs(b)), cur)
  {
    ghost var was := StackOf(blk[..], par[..], sp);
    top := PushAll(blk, par, sp, b.whiles, cur);
    top := PushAll(blk, par, top, b.fors, cur);
    top := PushIfs(blk, par, top, b.ifs, cur);
    top := PushAll(blk, par, top, b.regions, cur);
    PushRefsConcat(was, b.whiles, b.fors, cur);
    PushRefsConcat(was, b.whiles + b.fors, IfRefs(b.ifs), cur);
    PushRefsConcat(was, b.whiles + b.fors + IfRefs(b.ifs), b.regions, cur);
    PushRefsIsPushed(was, BodyRefs(b), cur);
  }
}
