/**
  The nested-if combining pass over one function body: the body as an object whose
  block list and blocks are rewritten in place, the per-branch combine step, and the
  per-function driver with its worklist.
 */
module Pass {
  import opened Ir
  import opened Matcher
  import opened Rewrite

  /** The blocks of `order` that end in a conditional branch, in block-list order. */
  function CondBranchBlocks(blocks: Blocks, order: seq<BlockId>): (r: seq<BlockId>)
    requires forall i :: 0 <= i < |order| ==> order[i] in blocks
    ensures forall b :: b in r <==> b in order && b in blocks && blocks[b].term.CondBr?
    ensures Distinct(order) ==> Distinct(r)
    ensures |r| <= |order|
  {
    if order == [] then []
    else
      var last := order[|order| - 1];
      var front := CondBranchBlocks(blocks, order[..|order| - 1]);
      assert forall b :: b in order <==> b in order[..|order| - 1] || b == last;
      assert Distinct(order) ==> Distinct(order[..|order| - 1]) && last !in order[..|order| - 1];
      front + (if blocks[last].term.CondBr? then [last] else [])
  }

  /** One more block of the list: it joins the collected ones when it ends in a conditional branch. */
  lemma CondBranchBlocksStep(blocks: Blocks, order: seq<BlockId>, i: nat)
    requires (forall k :: 0 <= k < |order| ==> order[k] in blocks) && i < |order|
    ensures CondBranchBlocks(blocks, order[..i + 1]) ==
              CondBranchBlocks(blocks, order[..i]) + if blocks[order[i]].term.CondBr? then [order[i]] else []
  {
    var w := order[..i + 1];
    assert w[..|w| - 1] == order[..i];
  }

  /** A function body as a value: its block list and its blocks. */
  datatype Body = Body(order: seq<BlockId>, blocks: Blocks)

  /**
    One combine attempt at the branch ending block `outer`, on values: the body after
    it and whether it combined.
   */
  function CombineAt(body: Body, outer: BlockId): (r: (Body, bool))
    requires WellFormed(body.order, body.blocks)
    ensures WellFormed(r.0.order, r.0.blocks)
    ensures r.1 == Match(body.blocks, outer).Matched?
    ensures !r.1 ==> r.0 == body
    ensures r.0.blocks.Keys <= body.blocks.Keys
    ensures r.1 ==> |r.0.order| == |body.order| - 1
    ensures forall b :: b in r.0.blocks && b != outer ==> r.0.blocks[b] == body.blocks[b]
  {
    var m := Match(body.blocks, outer);
    if m.NoMatch? then (body, false)
    else
      RewriteKeepsWellFormed(body.order, body.blocks, outer);
      (Body(Without(body.order, m.mid), Rewritten(body.blocks, outer, m)), true)
  }

  /**
    The combine attempts at every entry of `worklist`, in order, starting from `body`:
    the body after them and how many combined.
   */
  function CombineAll(body: Body, worklist: seq<BlockId>): (r: (Body, nat))
    requires WellFormed(body.order, body.blocks)
    ensures WellFormed(r.0.order, r.0.blocks)
    ensures r.1 <= |worklist|
    ensures |r.0.order| + r.1 == |body.order|
    ensures r.0.blocks.Keys <= body.blocks.Keys
  {
    if worklist == [] then (body, 0)
    else
      var before := CombineAll(body, worklist[..|worklist| - 1]);
      var step := CombineAt(before.0, worklist[|worklist| - 1]);
      (step.0, before.1 + if step.1 then 1 else 0)
  }

  /** One more attempt: the entry at `k` tried on the body the first `k` attempts leave. */
  lemma CombineAllStep(body: Body, worklist: seq<BlockId>, k: nat)
    requires WellFormed(body.order, body.blocks) && k < |worklist|
    ensures CombineAll(body, worklist[..k + 1]).0 == CombineAt(CombineAll(body, worklist[..k]).0, worklist[k]).0
    ensures CombineAll(body, worklist[..k + 1]).1 ==
              CombineAll(body, worklist[..k]).1 + if CombineAt(CombineAll(body, worklist[..k]).0, worklist[k]).1 then 1 else 0
  {
    var w := worklist[..k + 1];
    assert w[..|w| - 1] == worklist[..k];
  }

  /** Some entry of `worklist` matches in `blocks`. */
  predicate SomeEntryMatches(blocks: Blocks, worklist: seq<BlockId>)
    requires Closed(blocks)
  {
    exists j :: 0 <= j < |worklist| && Match(blocks, worklist[j]).Matched?
  }

  /**
    Attempts that all fail change nothing; and some attempt succeeds exactly when some
    entry of the worklist matches in the body as it was before the first attempt.
   */
  lemma {:induction false} CombineAllSucceedsIffSomeEntryMatches(body: Body, worklist: seq<BlockId>)
    requires WellFormed(body.order, body.blocks)
    ensures CombineAll(body, worklist).1 == 0 ==> CombineAll(body, worklist).0 == body
    ensures CombineAll(body, worklist).1 > 0 <==> SomeEntryMatches(body.blocks, worklist)
  {
    if worklist != [] {
      var front := worklist[..|worklist| - 1];
      var last := worklist[|worklist| - 1];
      CombineAllSucceedsIffSomeEntryMatches(body, front);
      SomeEntryMatchesSplit(body.blocks, front, last);
      assert worklist == front + [last];
    }
  }

  lemma SomeEntryMatchesSplit(blocks: Blocks, front: seq<BlockId>, last: BlockId)
    requires Closed(blocks)
    ensures SomeEntryMatches(blocks, front + [last]) <==>
              SomeEntryMatches(blocks, front) || Match(blocks, last).Matched?
  {
    var w := front + [last];
    if SomeEntryMatches(blocks, front) {
      var j :| 0 <= j < |front| && Match(blocks, front[j]).Matched?;
      assert w[j] == front[j];
    }
    if Match(blocks, last).Matched? {
      assert w[|front|] == last;
    }
    if SomeEntryMatches(blocks, w) {
      var j :| 0 <= j < |w| && Match(blocks, w[j]).Matched?;
      if j < |front| { assert front[j] == w[j]; }
    }
  }

  /** Some collected branch matches exactly when some conditional branch of the body does. */
  lemma CollectedMatchesAreBranchMatches(blocks: Blocks, order: seq<BlockId>)
    requires WellFormed(order, blocks)
    ensures SomeEntryMatches(blocks, CondBranchBlocks(blocks, order)) <==>
              exists b :: b in CondBranches(blocks) && Match(blocks, b).Matched?
  {
    var w := CondBranchBlocks(blocks, order);
    if SomeEntryMatches(blocks, w) {
      var j :| 0 <= j < |w| && Match(blocks, w[j]).Matched?;
      assert w[j] in CondBranches(blocks);
    }
    if exists b :: b in CondBranches(blocks) && Match(blocks, b).Matched? {
      var b :| b in CondBranches(blocks) && Match(blocks, b).Matched?;
      assert b in w;
      var j :| 0 <= j < |w| && w[j] == b;
    }
  }

  /**
    The pass on a body as a value: every collected branch tried in block-list order, on
    the body as it is after the attempts before it. The result is the new body and the
    number of combines. The pass combines somewhere exactly when some conditional branch
    of the body matches; when it combines nowhere it leaves the body as it was; and
    every combine erases one block.
   */
  function RunOnBody(body: Body): (r: (Body, nat))
    requires WellFormed(body.order, body.blocks)
    ensures WellFormed(r.0.order, r.0.blocks)
    ensures r.1 > 0 <==> exists b :: b in CondBranches(body.blocks) && Match(body.blocks, b).Matched?
    ensures r.1 == 0 ==> r.0 == body
    ensures |r.0.order| + r.1 == |body.order|
    ensures r.1 <= |CondBranchBlocks(body.blocks, body.order)|
    ensures r.0.blocks.Keys <= body.blocks.Keys
  {
    var worklist := CondBranchBlocks(body.blocks, body.order);
    CombineAllSucceedsIffSomeEntryMatches(body, worklist);
    CollectedMatchesAreBranchMatches(body.blocks, body.order);
    CombineAll(body, worklist)
  }

  /**
    While the attempts run, an entry not yet tried whose block still exists still holds
    the block, and so the branch, that was there before the first attempt. A worklist of
    block ids therefore names the same branches as the snapshot of branch instructions.
   */
  lemma {:induction false} PendingEntriesUntouched(body: Body, worklist: seq<BlockId>, k: nat)
    requires WellFormed(body.order, body.blocks) && Distinct(worklist) && k <= |worklist|
    ensures var now := CombineAll(body, worklist[..k]).0.blocks;
            forall j :: k <= j < |worklist| && worklist[j] in now ==> now[worklist[j]] == body.blocks[worklist[j]]
  {
    if k > 0 {
      PendingEntriesUntouched(body, worklist, k - 1);
      assert worklist[..k][..k - 1] == worklist[..k - 1];
      var now := CombineAll(body, worklist[..k]).0.blocks;
      forall j | k <= j < |worklist| && worklist[j] in now
        ensures now[worklist[j]] == body.blocks[worklist[j]]
      {
        assert worklist[j] != worklist[k - 1];
      }
    }
  }

  /**
    A function body. `numCombined` is the pass's statistic: how many nested ifs it has
    combined so far.
   */
  class Cfg {
    var order: seq<BlockId>
    var blocks: Blocks
    var numCombined: nat

    predicate Valid()
      reads this
    {
      WellFormed(order, blocks)
    }

    constructor (order: seq<BlockId>, blocks: Blocks)
      requires WellFormed(order, blocks)
      ensures Valid()
      ensures this.order == order && this.blocks == blocks && numCombined == 0
    {
      this.order := order;
      this.blocks := blocks;
      numCombined := 0;
    }

    /**
      Try to combine the nested if whose outer branch ends block `outer`. On a match the
      outer branch becomes `br (oc & ic), T, E`, the intermediate block is erased and the
      statistic goes up by one; otherwise nothing changes.
     */
    method Combine(outer: BlockId) returns (changed: bool)
      requires Valid()
      modifies this
      ensures Valid()
      ensures changed == Match(old(blocks), outer).Matched?
      ensures !changed ==>
                blocks == old(blocks) && order == old(order) && numCombined == old(numCombined)
      ensures changed ==>
                var m := Match(old(blocks), outer);
                && blocks == Rewritten(old(blocks), outer, m)
                && order == Without(old(order), m.mid)
                && numCombined == old(numCombined) + 1
      // on success: the new branch, the erased block, one block fewer
      ensures changed ==>
                var m := Match(old(blocks), outer);
                && blocks[outer].term == CondBr(And(m.outerCond, m.innerCond), m.innerThen, m.sharedElse)
                && m.mid in old(blocks) && m.mid !in blocks
                && |order| == |old(order)| - 1
                && CondBranches(blocks) == CondBranches(old(blocks)) - {m.mid}
      ensures forall b :: b in blocks && b != outer ==> blocks[b] == old(blocks)[b]
      ensures (Body(order, blocks), changed) == CombineAt(Body(old(order), old(blocks)), outer)
    {
      var m := Match(blocks, outer);
      if m.NoMatch? {
        return false;
      }
      RewriteKeepsWellFormed(order, blocks, outer);
      // `and` the two predicates in front of the outer branch, put the combined branch
      // in place of the outer one, and erase the intermediate block, inner branch and all
      blocks := Rewritten(blocks, outer, m);
      order := Without(order, m.mid);
      numCombined := numCombined + 1;
      changed := true;
    }

    /** Snapshot, in block-list order, of every block that ends in a conditional branch. */
    method CollectWorklist() returns (worklist: seq<BlockId>)
      requires Valid()
      ensures worklist == CondBranchBlocks(blocks, order)
      ensures forall b :: b in worklist <==> b in blocks && blocks[b].term.CondBr?
      ensures Distinct(worklist)
    {
      worklist := [];
      var i := 0;
      while i < |order|
        invariant 0 <= i <= |order|
        invariant worklist == CondBranchBlocks(blocks, order[..i])
      {
        CondBranchBlocksStep(blocks, order, i);
        var id := order[i];
        if blocks[id].term.CondBr? {
          worklist := worklist + [id];
        }
        i := i + 1;
      }
      assert order[..i] == order;
    }

    /**
      The pass on one function: collect the conditional branches before changing
      anything, then try each in turn. `preserveAll` says whether every analysis may be
      kept; it is the negation of `changed`.
     */
    method Run() returns (changed: bool, preserveAll: bool)
      requires Valid()
      modifies this
      ensures Valid()
      // the new body is every collected branch tried in block-list order, on the snapshot
      ensures Body(order, blocks) == RunOnBody(Body(old(order), old(blocks))).0
      ensures numCombined == old(numCombined) + RunOnBody(Body(old(order), old(blocks))).1
      ensures changed <==> numCombined > old(numCombined)
      ensures changed <==> exists b :: b in CondBranches(old(blocks)) && Match(old(blocks), b).Matched?
      ensures preserveAll == !changed
      ensures !changed ==> blocks == old(blocks) && order == old(order)
      // every combine erases one block, and there is at most one per collected branch
      ensures |order| + numCombined == |old(order)| + old(numCombined)
      ensures numCombined - old(numCombined) <= |CondBranchBlocks(old(blocks), old(order))|
      ensures blocks.Keys <= old(blocks).Keys
    {
      var worklist := CollectWorklist();
      ghost var start := Body(order, blocks);
      assert start == Body(old(order), old(blocks));
      assert worklist == CondBranchBlocks(old(blocks), old(order));
      changed := false;
      var k := 0;
      while k < |worklist|
        invariant 0 <= k <= |worklist|
        invariant Valid()
        invariant Body(order, blocks) == CombineAll(start, worklist[..k]).0
        invariant numCombined == old(numCombined) + CombineAll(start, worklist[..k]).1
        invariant changed <==> numCombined > old(numCombined)
      {
        CombineAllStep(start, worklist, k);
        var combined := Combine(worklist[k]);
        changed := changed || combined;
        k := k + 1;
      }
      assert worklist[..k] == worklist;
      assert CombineAll(start, worklist) == RunOnBody(start);
      preserveAll := !changed;
    }
  }
}
