/**
  The pattern matcher of the nested-if combining pass: given the block whose
  terminator is the outer branch, decide whether
    outer: br oc, mid, else      mid: br ic, then, else   (and nothing else in mid)
  is present. The checks are made in the source's order and stop at the first failure.
 */
module Matcher {
  import opened Ir

  /** Why a candidate was turned down, one reason per check, in the order the checks are made. */
  datatype Reject =
    | NotConditional       // no outer branch, or it is not conditional
    | ThenNotSingle        // the outer then block holds more than its terminator
    | InnerNotConditional  // the then block's terminator is not a conditional branch
    | ElseMismatch         // the inner else target is not the outer else target
    | ThenHasOtherEdges    // the then block is entered by another edge too (guard added by the model)

  /**
    A match names the two predicates, the intermediate then block `mid`, the inner
    then target and the shared else target.
   */
  datatype MatchResult =
    | NoMatch(reason: Reject)
    | Matched(outerCond: Cond, innerCond: Cond, mid: BlockId, innerThen: BlockId, sharedElse: BlockId)

  /** The outer branch is present and conditional. */
  predicate OuterIsCondBr(blocks: Blocks, outer: BlockId) {
    outer in blocks && blocks[outer].term.CondBr?
  }

  /**
    The four checks of the source, as written. A deleted outer block counts as an
    absent outer branch.
   */
  function Shape(blocks: Blocks, outer: BlockId): (r: MatchResult)
    requires Closed(blocks)
    // a match is exactly the nested-if shape: `br oc, mid, E` over a one-instruction `mid: br ic, T, E`
    ensures r.Matched? ==>
              && outer in blocks
              && blocks[outer].term == CondBr(r.outerCond, r.mid, r.sharedElse)
              && r.mid in blocks
              && blocks[r.mid] == Block(1, CondBr(r.innerCond, r.innerThen, r.sharedElse))
    ensures r == NoMatch(NotConditional) <==> !OuterIsCondBr(blocks, outer)
    ensures r == NoMatch(ThenNotSingle) <==>
              OuterIsCondBr(blocks, outer) && blocks[blocks[outer].term.thenId].size != 1
    ensures r == NoMatch(InnerNotConditional) <==>
              && OuterIsCondBr(blocks, outer)
              && blocks[blocks[outer].term.thenId].size == 1
              && !blocks[blocks[outer].term.thenId].term.CondBr?
    ensures r == NoMatch(ElseMismatch) <==>
              && OuterIsCondBr(blocks, outer)
              && blocks[blocks[outer].term.thenId].size == 1
              && blocks[blocks[outer].term.thenId].term.CondBr?
              && blocks[blocks[outer].term.thenId].term.elseId != blocks[outer].term.elseId
    ensures r != NoMatch(ThenHasOtherEdges)
  {
    if !OuterIsCondBr(blocks, outer) then NoMatch(NotConditional)
    else
      var outerBr := blocks[outer].term;
      assert outerBr.thenId in Succs(outerBr);
      var outerThen := blocks[outerBr.thenId];
      if outerThen.size != 1 then NoMatch(ThenNotSingle)
      else if !outerThen.term.CondBr? then NoMatch(InnerNotConditional)
      else
        var innerBr := outerThen.term;
        if innerBr.elseId != outerBr.elseId then NoMatch(ElseMismatch)
        else Matched(outerBr.cond, innerBr.cond, outerBr.thenId, innerBr.thenId, outerBr.elseId)
  }

  /**
    The only edge into `mid` is the then edge of the outer branch: `mid` is not the
    outer block, not the outer else target, and no other block (`mid` included)
    branches to it.
   */
  predicate OnlyThenEdge(blocks: Blocks, outer: BlockId, mid: BlockId)
    requires OuterIsCondBr(blocks, outer)
  {
    && mid != outer
    && blocks[outer].term.elseId != mid
    && forall b :: b in blocks && b != outer ==> mid !in Succs(blocks[b].term)
  }

  /**
    The matcher the model's pass uses: the source's checks, then the guard the source
    leaves out, that the intermediate block is entered only through the outer then edge.
   */
  function Match(blocks: Blocks, outer: BlockId): (r: MatchResult)
    requires Closed(blocks)
    ensures r.Matched? <==> Shape(blocks, outer).Matched? && OnlyThenEdge(blocks, outer, Shape(blocks, outer).mid)
    ensures r.Matched? ==> r == Shape(blocks, outer)
    ensures Shape(blocks, outer).NoMatch? ==> r == Shape(blocks, outer)
    ensures r.NoMatch? && Shape(blocks, outer).Matched? ==> r.reason == ThenHasOtherEdges
  {
    var r := Shape(blocks, outer);
    if r.Matched? && !OnlyThenEdge(blocks, outer, r.mid) then NoMatch(ThenHasOtherEdges) else r
  }
}
