/** The expression a function body implicitly returns. */
module TailExpr {
  import opened Options

  // Expression kinds that leave the block.
  const BREAK := 39
  const CONTINUE := 40
  const RETURN := 41
  const PANIC := 42

  // Statement-order kinds.
  const EXPR_STMT := 2
  const REGION := 5
  const UNSAFE_REGION := 6

  datatype Stmt = Stmt(kind: int, idx: int)

  /** A region of a block; its body may be missing. */
  datatype Region = Region(isUnsafe: bool, body: Option<Block>)

  /** A block; expression references are integers and 0 is the null one. */
  datatype Block = Block(finalExpr: int, stmtOrder: seq<Stmt>, regions: seq<Region>, exprStmts: seq<int>)

  /** The kind of an expression. */
  type Kinds = int -> int

  predicate IsJump(kind: int) {
    kind == RETURN || kind == PANIC || kind == BREAK || kind == CONTINUE
  }

  predicate EndsInJump(kinds: Kinds, b: Block) {
    b.finalExpr != 0 && IsJump(kinds(b.finalExpr))
  }

  /** The body of the unsafe region that the last statement of the block is. */
  function TrailingUnsafe(b: Block): (r: Option<Block>)
    ensures r.Some? ==> r.value < b
  {
    if b.stmtOrder == [] then None
    else
      var last := b.stmtOrder[|b.stmtOrder| - 1];
      if (last.kind == REGION || last.kind == UNSAFE_REGION) && 0 <= last.idx < |b.regions| &&
         b.regions[last.idx].isUnsafe
      then b.regions[last.idx].body
      else None
  }

  /** What the block itself offers: its final expression, else its last statement when that is an expression. */
  function OwnTail(b: Block): int {
    if b.finalExpr != 0 then b.finalExpr
    else if b.stmtOrder != [] then
      var last := b.stmtOrder[|b.stmtOrder| - 1];
      if last.kind == EXPR_STMT && 0 <= last.idx < |b.exprStmts| then b.exprStmts[last.idx] else 0
    else if b.exprStmts != [] then b.exprStmts[|b.exprStmts| - 1]
    else 0
  }

  /** The finder: a final jump, else what the trailing unsafe region returns, else what the block offers. */
  function TailExprRef(kinds: Kinds, b: Block): int
    decreases b
  {
    if EndsInJump(kinds, b) then b.finalExpr
    else
      match TrailingUnsafe(b)
      case Some(inner) => TailExprRef(kinds, inner)
      case None => OwnTail(b)
  }

  // ----- The peeled blocks -----------------------------------------------------------------------

  /** The block, then the trailing unsafe region of each one, to the innermost. */
  function Peeled(b: Block): (path: seq<Block>)
    ensures path != [] && path[0] == b
    decreases b
  {
    match TrailingUnsafe(b)
    case Some(inner) => [b] + Peeled(inner)
    case None => [b]
  }

  /** The last statement of the block is an unsafe region, of kind 5 or 6, with that body. */
  ghost predicate EndsInUnsafe(b: Block, inner: Block) {
    b.stmtOrder != [] &&
    var last := b.stmtOrder[|b.stmtOrder| - 1];
    && (last.kind == 5 || last.kind == 6)
    && 0 <= last.idx < |b.regions| && b.regions[last.idx] == Region(true, Some(inner))
  }

  /** Each block ends in the next one as an unsafe region, and the last in none. */
  ghost predicate IsPeeling(b: Block, path: seq<Block>) {
    && path != [] && path[0] == b
    && (forall k | 0 <= k < |path| - 1 :: EndsInUnsafe(path[k], path[k + 1]))
    && IsInnermost(path[|path| - 1])
  }

  ghost predicate IsInnermost(b: Block) {
    forall inner :: !EndsInUnsafe(b, inner)
  }

  lemma TrailingIs(b: Block, inner: Block)
    ensures EndsInUnsafe(b, inner) <==> TrailingUnsafe(b) == Some(inner)
  {
  }

  /** There is exactly one way to peel a block. */
  lemma {:induction false} PeelingIs(b: Block, path: seq<Block>)
    ensures IsPeeling(b, path) <==> path == Peeled(b)
    decreases b
  {
    forall inner
      ensures EndsInUnsafe(b, inner) <==> TrailingUnsafe(b) == Some(inner)
    {
      TrailingIs(b, inner);
    }
    assert IsPeeling(b, path) && |path| > 1 ==> EndsInUnsafe(path[0], path[0 + 1]);
    match TrailingUnsafe(b) {
      case None =>
      case Some(inner) =>
        var rest := Peeled(inner);
        PeelingIs(inner, rest);
        if IsPeeling(b, path) {
          PeelingIs(inner, path[1..]);
          assert path == [b] + path[1..];
        }
        assert forall k | 0 < k < |Peeled(b)| :: Peeled(b)[k] == rest[k - 1];
    }
  }

  /** The final expression is a break, continue, return or panic, of kind 39 to 42. */
  ghost predicate JumpsAway(kinds: Kinds, b: Block) {
    b.finalExpr != 0 && 39 <= kinds(b.finalExpr) <= 42
  }

  /** The outermost peeled block ending in a jump decides; without one, the innermost block does. */
  lemma {:induction false} OutermostJumpDecides(kinds: Kinds, b: Block, k: nat)
    requires k < |Peeled(b)| && forall i | 0 <= i < k :: !JumpsAway(kinds, Peeled(b)[i])
    ensures JumpsAway(kinds, Peeled(b)[k]) ==> TailExprRef(kinds, b) == Peeled(b)[k].finalExpr
    ensures k + 1 == |Peeled(b)| ==> TailExprRef(kinds, b) == OwnTail(Peeled(b)[k])
    ensures k + 1 == |Peeled(b)| && Peeled(b)[k].finalExpr != 0 ==> TailExprRef(kinds, b) == Peeled(b)[k].finalExpr
    decreases b
  {
    if k > 0 {
      assert !JumpsAway(kinds, Peeled(b)[0]);
      var inner := TrailingUnsafe(b).value;
      assert forall i | 0 <= i < k - 1 :: Peeled(inner)[i] == Peeled(b)[i + 1];
      OutermostJumpDecides(kinds, inner, k - 1);
    }
  }

  // ----- Tail position -----------------------------------------------------------------------------

  /** Evaluating the expression is the last thing the block does, seen through unsafe regions only. */
  ghost predicate InTailPosition(b: Block, e: int)
    decreases b
  {
    || e == b.finalExpr
    || (b.stmtOrder == [] && b.exprStmts != [] && e == b.exprStmts[|b.exprStmts| - 1])
    || (b.stmtOrder != [] &&
        var last := b.stmtOrder[|b.stmtOrder| - 1];
        match last.kind {
          case 2 => 0 <= last.idx < |b.exprStmts| && e == b.exprStmts[last.idx]
          case 5 => TailOfRegion(b, last.idx, e)
          case 6 => TailOfRegion(b, last.idx, e)
          case _ => false
        })
  }

  ghost predicate TailOfRegion(b: Block, idx: int, e: int)
    decreases b, 0
  {
    0 <= idx < |b.regions| && b.regions[idx].isUnsafe && b.regions[idx].body.Some? &&
    InTailPosition(b.regions[idx].body.value, e)
  }

  /** Nothing but an expression in tail position is returned. */
  lemma {:induction false} ReturnsATail(kinds: Kinds, b: Block)
    requires TailExprRef(kinds, b) != 0
    ensures InTailPosition(b, TailExprRef(kinds, b))
    decreases b
  {
    if !EndsInJump(kinds, b) && TrailingUnsafe(b).Some? {
      ReturnsATail(kinds, TrailingUnsafe(b).value);
    }
  }

  lemma {:induction false} InnermostHasNoRegion(b: Block)
    ensures var path := Peeled(b); TrailingUnsafe(path[|path| - 1]) == None
    decreases b
  {
    if TrailingUnsafe(b).Some? {
      InnermostHasNoRegion(TrailingUnsafe(b).value);
    }
  }

  ghost predicate OffersNothing(b: Block) {
    forall e | e != 0 :: !InTailPosition(b, e)
  }

  lemma OwnTailIsThere(b: Block)
    requires TrailingUnsafe(b) == None
    ensures OwnTail(b) == 0 <==> OffersNothing(b)
  {
    if OwnTail(b) != 0 {
      assert InTailPosition(b, OwnTail(b));
    } else {
      forall e | e != 0
        ensures !InTailPosition(b, e)
      {
        if InTailPosition(b, e) {
          OnlyOwnTail(b, e);
        }
      }
    }
  }

  lemma OnlyOwnTail(b: Block, e: int)
    requires TrailingUnsafe(b) == None && b.finalExpr == 0 && InTailPosition(b, e)
    ensures e == 0 || e == OwnTail(b)
  {
    if b.stmtOrder != [] {
      var last := b.stmtOrder[|b.stmtOrder| - 1];
      assert !TailOfRegion(b, last.idx, e) || (last.kind != 5 && last.kind != 6);
    }
  }

  /** Null is returned exactly when nothing jumps on the way in and nothing is in tail position in the innermost block. */
  lemma NullIff(kinds: Kinds, b: Block)
    ensures var path := Peeled(b);
            TailExprRef(kinds, b) == 0 <==>
            && (forall i | 0 <= i < |path| :: !JumpsAway(kinds, path[i]))
            && OffersNothing(path[|path| - 1])
  {
    var path := Peeled(b);
    var k := 0;
    while k < |path| - 1 && !JumpsAway(kinds, path[k])
      invariant 0 <= k < |path|
      invariant forall i | 0 <= i < k :: !JumpsAway(kinds, path[i])
    {
      k := k + 1;
    }
    OutermostJumpDecides(kinds, b, k);
    InnermostHasNoRegion(b);
    OwnTailIsThere(path[|path| - 1]);
  }
}
