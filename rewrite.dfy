/**
  The graph rewrite of the nested-if combining pass, as a function on the block map,
  and what it guarantees: the function body stays well formed, it loses exactly the
  intermediate block and one conditional branch, every walk through the body has a
  counterpart in the rewritten body and back, and every execution under one fixed
  valuation of the predicates stops where it stopped before.
 */
module Rewrite {
  import opened Ir
  import opened Matcher

  /** The branch installed in the outer block: `br (oc & ic), T, E`. */
  function CombinedBranch(m: MatchResult): Terminator
    requires m.Matched?
  {
    CondBr(And(m.outerCond, m.innerCond), m.innerThen, m.sharedElse)
  }

  /**
    The block map after the rewrite: the outer block gains the `and` instruction and
    its old branch is replaced by the combined one; the intermediate block is erased.
    It applies to any match of the source's checks, guarded or not.
   */
  function Rewritten(blocks: Blocks, outer: BlockId, m: MatchResult): (r: Blocks)
    requires Closed(blocks) && m == Shape(blocks, outer) && m.Matched?
    ensures r.Keys == blocks.Keys - {m.mid}
    ensures m.mid != outer ==>
              r[outer] == Block(blocks[outer].size + 1,
                                CondBr(And(m.outerCond, m.innerCond), m.innerThen, m.sharedElse))
    ensures forall b :: b in r && b != outer ==> r[b] == blocks[b]
  {
    blocks[outer := Block(blocks[outer].size + 1, CombinedBranch(m))] - {m.mid}
  }

  /**
    A rewrite after a guarded match keeps the body well formed, drops exactly one
    block from the block list, and leaves exactly one conditional branch fewer.
   */
  lemma RewriteKeepsWellFormed(order: seq<BlockId>, blocks: Blocks, outer: BlockId)
    requires WellFormed(order, blocks) && Match(blocks, outer).Matched?
    ensures var m := Shape(blocks, outer);
            var r := Rewritten(blocks, outer, m);
            && WellFormed(Without(order, m.mid), r)
            && |Without(order, m.mid)| == |order| - 1
            && outer in r && r[outer].term == CombinedBranch(m)
            && CondBranches(r) == CondBranches(blocks) - {m.mid}
            && |CondBranches(r)| == |CondBranches(blocks)| - 1
  {
    var m := Shape(blocks, outer);
    var r := Rewritten(blocks, outer, m);
    var order' := Without(order, m.mid);
    RewrittenClosed(blocks, outer);
    forall i | 0 <= i < |order'| ensures order'[i] in r {
      assert order'[i] in order';
    }
    assert m.mid in order;
    RewrittenCondBranches(blocks, outer);
  }

  /** After a guarded match, the rewrite leaves no dangling edge. */
  lemma RewrittenClosed(blocks: Blocks, outer: BlockId)
    requires Closed(blocks) && Match(blocks, outer).Matched?
    ensures Closed(Rewritten(blocks, outer, Shape(blocks, outer)))
  {
    var m := Shape(blocks, outer);
    var r := Rewritten(blocks, outer, m);
    MatchEdges(blocks, outer);
    forall b, s | b in r && s in Succs(r[b].term) ensures s in r {
      if b != outer {
        assert s in Succs(blocks[b].term);
      }
    }
  }

  /** After a guarded match, the rewrite leaves exactly the intermediate block's branch out. */
  lemma RewrittenCondBranches(blocks: Blocks, outer: BlockId)
    requires Closed(blocks) && Match(blocks, outer).Matched?
    ensures var m := Shape(blocks, outer);
            && CondBranches(Rewritten(blocks, outer, m)) == CondBranches(blocks) - {m.mid}
            && |CondBranches(Rewritten(blocks, outer, m))| == |CondBranches(blocks)| - 1
  {
    var m := Shape(blocks, outer);
    var r := Rewritten(blocks, outer, m);
    assert CondBranches(r) == CondBranches(blocks) - {m.mid};
    assert m.mid in CondBranches(blocks);
  }

  /**
    The guard that the model adds is exactly what the rewrite needs. Among the shapes
    the source's checks accept, the guarded matcher accepts precisely those whose rewrite
    keeps the outer block, with its combined branch, and leaves no dangling edge.
   */
  lemma GuardIsExactlyWhatRewriteNeeds(blocks: Blocks, outer: BlockId)
    requires Closed(blocks) && Shape(blocks, outer).Matched?
    ensures var r := Rewritten(blocks, outer, Shape(blocks, outer));
            Match(blocks, outer).Matched? <==> outer in r && Closed(r)
  {
    var m := Shape(blocks, outer);
    var r := Rewritten(blocks, outer, m);
    if Match(blocks, outer).Matched? {
      RewrittenClosed(blocks, outer);
      MatchEdges(blocks, outer);
    } else if m.mid == outer {
      assert outer !in r;
    } else if m.sharedElse == m.mid {
      // the combined branch's else edge leads to the erased block
      assert m.sharedElse in Succs(r[outer].term);
    } else {
      var b :| b in blocks && b != outer && m.mid in Succs(blocks[b].term);
      if b == m.mid {
        // `mid` branches to itself: its then edge, since its else edge is the shared one
        assert m.innerThen == m.mid;
        assert m.innerThen in Succs(r[outer].term);
      } else {
        assert b in r && m.mid in Succs(r[b].term);
      }
    }
  }

  // ---------------------------------------------------------------------------
  // Executions are preserved. With the predicates given fixed truth values, an
  // execution in the rewritten body takes one step `outer -> T` where the old body
  // took the two steps `outer -> mid -> T`; everything else is the same step.

  /** Facts every step of the two proofs below uses. */
  lemma MatchEdges(blocks: Blocks, outer: BlockId)
    requires Closed(blocks) && Match(blocks, outer).Matched?
    ensures var m := Shape(blocks, outer);
            && m.mid != outer && m.innerThen != m.mid && m.sharedElse != m.mid
            && m.innerThen in blocks && m.sharedElse in blocks
            && forall b :: b in blocks && b != outer ==> m.mid !in Succs(blocks[b].term)
  {
    var m := Shape(blocks, outer);
    assert m.innerThen in Succs(blocks[m.mid].term) && m.sharedElse in Succs(blocks[m.mid].term);
  }

  /** An execution that stops in the old body stops in the same block, no later, in the new one. */
  lemma {:induction false} ExitForward(blocks: Blocks, outer: BlockId, env: Env, s: BlockId, fuel: nat)
    requires Closed(blocks) && Match(blocks, outer).Matched?
    requires s != Shape(blocks, outer).mid && Exit(blocks, s, env, fuel).Some?
    ensures Exit(Rewritten(blocks, outer, Shape(blocks, outer)), s, env, fuel) == Exit(blocks, s, env, fuel)
    decreases fuel
  {
    var m := Shape(blocks, outer);
    var r := Rewritten(blocks, outer, m);
    MatchEdges(blocks, outer);
    assert s in blocks && s in r;
    match Next(blocks, s, env)
    case None =>
      assert s != outer;
      assert Next(r, s, env) == None;
    case Some(n) =>
      assert fuel > 0;
      if s != outer || !Eval(m.outerCond, env) {
        // the same step in both bodies
        assert Next(r, s, env) == Some(n);
        ExitForward(blocks, outer, env, n, fuel - 1);
      } else {
        // old: outer -> mid -> n2; new: outer -> n2
        assert n == m.mid;
        var n2 := if Eval(m.innerCond, env) then m.innerThen else m.sharedElse;
        assert Next(blocks, m.mid, env) == Some(n2);
        assert fuel - 1 > 0;
        assert Exit(blocks, s, env, fuel) == Exit(blocks, n2, env, fuel - 2);
        assert Next(r, s, env) == Some(n2);
        ExitForward(blocks, outer, env, n2, fuel - 2);
        ExitMonotone(r, n2, env, fuel - 2);
      }
  }

  /** An execution that stops in the new body stops in the same block in the old one, within twice the steps. */
  lemma {:induction false} ExitBackward(blocks: Blocks, outer: BlockId, env: Env, s: BlockId, fuel: nat)
    requires Closed(blocks) && Match(blocks, outer).Matched?
    requires Exit(Rewritten(blocks, outer, Shape(blocks, outer)), s, env, fuel).Some?
    ensures Exit(blocks, s, env, 2 * fuel) == Exit(Rewritten(blocks, outer, Shape(blocks, outer)), s, env, fuel)
    decreases fuel
  {
    var m := Shape(blocks, outer);
    var r := Rewritten(blocks, outer, m);
    MatchEdges(blocks, outer);
    assert s in r && s in blocks && s != m.mid;
    match Next(r, s, env)
    case None =>
      assert s != outer;
      assert Next(blocks, s, env) == None;
    case Some(n) =>
      assert fuel > 0;
      if s != outer || !Eval(m.outerCond, env) {
        // the same step in both bodies
        assert Next(blocks, s, env) == Some(n);
        ExitBackward(blocks, outer, env, n, fuel - 1);
        ExitMonotone(blocks, n, env, 2 * fuel - 2);
      } else {
        var n2 := if Eval(m.innerCond, env) then m.innerThen else m.sharedElse;
        assert n == n2;
        assert Next(blocks, s, env) == Some(m.mid);
        assert Next(blocks, m.mid, env) == Some(n2);
        ExitBackward(blocks, outer, env, n2, fuel - 1);
        assert Exit(blocks, s, env, 2 * fuel) == Exit(blocks, n2, env, 2 * fuel - 2);
      }
  }

  /**
    After a guarded match, an execution from any surviving block stops in block `x`
    in the rewritten body exactly when it did in the original one; in particular it
    runs forever in one exactly when it runs forever in the other.
   */
  lemma RewritePreservesExits(blocks: Blocks, outer: BlockId, env: Env, s: BlockId, x: BlockId)
    requires Closed(blocks) && Match(blocks, outer).Matched?
    requires s != Shape(blocks, outer).mid
    ensures Stops(blocks, s, env, x) <==> Stops(Rewritten(blocks, outer, Shape(blocks, outer)), s, env, x)
  {
    var r := Rewritten(blocks, outer, Shape(blocks, outer));
    if Stops(blocks, s, env, x) {
      var fuel: nat :| Exit(blocks, s, env, fuel) == Some(x);
      ExitForward(blocks, outer, env, s, fuel);
      assert Exit(r, s, env, fuel) == Some(x);
    }
    if Stops(r, s, env, x) {
      var fuel: nat :| Exit(r, s, env, fuel) == Some(x);
      ExitBackward(blocks, outer, env, s, fuel);
      assert Exit(blocks, s, env, 2 * fuel) == Some(x);
    }
  }

  // ---------------------------------------------------------------------------
  // Paths are preserved, with no valuation at all. A walk through the old body that
  // starts and ends outside `mid` is, with `mid` left out, a walk through the new body;
  // and every walk through the new body is such a walk with `mid` put back after the
  // outer block wherever the walk goes on to the inner then target. This covers every
  // run, including one that goes round a loop several times and takes different edges
  // on different visits.

  /**
    A walk through the rewritten body as a walk through the original one: `mid` goes
    back in between the outer block and the inner then target. When the inner then
    target is also the shared else target, the direct edge is kept.
   */
  function WithMid(m: MatchResult, outer: BlockId, q: seq<BlockId>): seq<BlockId>
    requires m.Matched?
  {
    if |q| <= 1 then q
    else if q[0] == outer && q[1] == m.innerThen && m.innerThen != m.sharedElse then
      [q[0]] + ([m.mid] + WithMid(m, outer, q[1..]))
    else [q[0]] + WithMid(m, outer, q[1..])
  }

  /**
    An edge of the original body between blocks other than `mid` is an edge of the
    rewritten one; an edge into `mid` leaves the outer block.
   */
  lemma OldEdgeIsNewEdge(blocks: Blocks, outer: BlockId, a: BlockId, b: BlockId)
    requires Closed(blocks) && Match(blocks, outer).Matched?
    requires a in blocks && a != Shape(blocks, outer).mid && b in Succs(blocks[a].term)
    ensures var r := Rewritten(blocks, outer, Shape(blocks, outer));
            if b == Shape(blocks, outer).mid then a == outer else a in r && b in Succs(r[a].term)
  {
  }

  /** An edge out of `mid` is an edge out of the outer block once `mid` is gone. */
  lemma MidEdgeIsNewEdge(blocks: Blocks, outer: BlockId, c: BlockId)
    requires Closed(blocks) && Match(blocks, outer).Matched?
    requires c in Succs(blocks[Shape(blocks, outer).mid].term)
    ensures var r := Rewritten(blocks, outer, Shape(blocks, outer));
            c != Shape(blocks, outer).mid && outer in r && c in Succs(r[outer].term)
  {
    MatchEdges(blocks, outer);
  }

  /**
    The first step of a walk of the original body that starts and ends outside `mid`,
    in the rewritten body: its block leads directly to the walk's `k`-th block, where
    `k` is 2 when the walk passes through `mid` and 1 otherwise.
   */
  lemma ForwardStep(blocks: Blocks, outer: BlockId, p: seq<BlockId>) returns (k: nat)
    requires Closed(blocks) && Match(blocks, outer).Matched?
    requires IsPath(blocks, p) && |p| >= 2
    requires p[0] != Shape(blocks, outer).mid && p[|p| - 1] != Shape(blocks, outer).mid
    ensures var r := Rewritten(blocks, outer, Shape(blocks, outer));
            && 1 <= k <= 2 && k < |p| && (p[1] == Shape(blocks, outer).mid <==> k == 2)
            && p[k] != Shape(blocks, outer).mid
            && p[0] in r && p[k] in Succs(r[p[0]].term)
  {
    assert p[1] in Succs(blocks[p[0]].term);
    OldEdgeIsNewEdge(blocks, outer, p[0], p[1]);
    if p[1] == Shape(blocks, outer).mid {
      assert p[2] in Succs(blocks[p[1]].term);
      MidEdgeIsNewEdge(blocks, outer, p[2]);
      k := 2;
    } else {
      k := 1;
    }
  }

  /**
    After a guarded match, every walk through the original body that starts and ends
    outside `mid` becomes, once `mid` is left out of it, a walk through the rewritten
    body between the same two blocks.
   */
  lemma {:induction false} PathForward(blocks: Blocks, outer: BlockId, p: seq<BlockId>)
    requires Closed(blocks) && Match(blocks, outer).Matched?
    requires IsPath(blocks, p) && p != []
    requires p[0] != Shape(blocks, outer).mid && p[|p| - 1] != Shape(blocks, outer).mid
    ensures var q := Without(p, Shape(blocks, outer).mid);
            && IsPath(Rewritten(blocks, outer, Shape(blocks, outer)), q)
            && q != [] && q[0] == p[0] && q[|q| - 1] == p[|p| - 1]
    decreases |p|
  {
    var m := Shape(blocks, outer);
    var r := Rewritten(blocks, outer, m);
    if |p| == 1 {
      WithoutCons(p[0], [], m.mid);
      assert p == [p[0]] + [];
    } else {
      // the walk resumes after `mid`, if it passes through it
      var k := ForwardStep(blocks, outer, p);
      var rest := p[k..];
      PathSuffix(blocks, p, k);
      assert rest[0] == p[k] && rest[|rest| - 1] == p[|p| - 1];
      PathForward(blocks, outer, rest);
      PathWithoutCons(r, m.mid, p, k);
    }
  }

  /** An edge of the rewritten body is an edge of the original one, except the combined then edge. */
  lemma NewEdgeIsOldEdge(blocks: Blocks, outer: BlockId, a: BlockId, b: BlockId)
    requires Closed(blocks) && Match(blocks, outer).Matched?
    requires var r := Rewritten(blocks, outer, Shape(blocks, outer));
             a in r && b in Succs(r[a].term)
    ensures var m := Shape(blocks, outer);
            if a == outer && b == m.innerThen && m.innerThen != m.sharedElse then
              m.mid in Succs(blocks[outer].term) && b in Succs(blocks[m.mid].term)
            else b in Succs(blocks[a].term)
  {
  }

  /**
    After a guarded match, every walk through the rewritten body is a walk through the
    original body between the same two blocks once `mid` is put back, and leaving `mid`
    out again gives the walk back.
   */
  lemma {:induction false} PathBackward(blocks: Blocks, outer: BlockId, q: seq<BlockId>)
    requires Closed(blocks) && Match(blocks, outer).Matched?
    requires IsPath(Rewritten(blocks, outer, Shape(blocks, outer)), q) && q != []
    ensures var p := WithMid(Shape(blocks, outer), outer, q);
            && IsPath(blocks, p)
            && p != [] && p[0] == q[0] && p[|p| - 1] == q[|q| - 1]
            && Without(p, Shape(blocks, outer).mid) == q
    decreases |q|
  {
    var m := Shape(blocks, outer);
    var r := Rewritten(blocks, outer, m);
    var p := WithMid(m, outer, q);
    assert q[0] in r && q[0] != m.mid;
    if |q| == 1 {
      WithoutCons(q[0], [], m.mid);
      assert q == [q[0]] + [];
    } else {
      var rest := q[1..];
      PathSuffix(r, q, 1);
      PathBackward(blocks, outer, rest);
      var back := WithMid(m, outer, rest);
      assert q[1] in Succs(r[q[0]].term);
      NewEdgeIsOldEdge(blocks, outer, q[0], q[1]);
      assert q == [q[0]] + rest;
      if q[0] == outer && q[1] == m.innerThen && m.innerThen != m.sharedElse {
        // the combined then edge stands for `outer -> mid -> T`
        assert p == [outer] + ([m.mid] + back);
        PathCons(blocks, m.mid, back);
        PathCons(blocks, outer, [m.mid] + back);
        WithoutCons(m.mid, back, m.mid);
        WithoutCons(outer, [m.mid] + back, m.mid);
      } else {
        assert p == [q[0]] + back;
        PathCons(blocks, q[0], back);
        WithoutCons(q[0], back, m.mid);
      }
    }
  }

  // ---------------------------------------------------------------------------
  // The source's checks alone are not enough for the rewrite it performs.

  /**
    Another block also branches to the intermediate block. The source's checks accept
    the shape, and erasing the intermediate block leaves that block's branch pointing
    at a block that no longer exists. The guarded matcher turns it down.
   */
  lemma ExtraPredecessorDangles()
    ensures var blocks := map[
              0 := Block(1, CondBr(Var(0), 1, 3)),  // entry: br a, mid, shared
              1 := Block(1, CondBr(Var(1), 2, 3)),  // mid:   br b, target, shared
              2 := Block(1, Other([])),             // target: ret
              3 := Block(1, Other([])),             // shared: ret
              4 := Block(1, CondBr(Var(2), 1, 2))]; // other: br c, mid, target
            && WellFormed([0, 1, 2, 3, 4], blocks)
            && Shape(blocks, 0).Matched?
            && !Closed(Rewritten(blocks, 0, Shape(blocks, 0)))
            && Match(blocks, 0) == NoMatch(ThenHasOtherEdges)
  {
    var blocks := map[
      0 := Block(1, CondBr(Var(0), 1, 3)),
      1 := Block(1, CondBr(Var(1), 2, 3)),
      2 := Block(1, Other([])),
      3 := Block(1, Other([])),
      4 := Block(1, CondBr(Var(2), 1, 2))];
    assert blocks.Keys == {0, 1, 2, 3, 4};
    assert Closed(blocks) by {
      forall b, s | b in blocks && s in Succs(blocks[b].term) ensures s in blocks {
        assert s in {1, 2, 3};
      }
    }
    assert WellFormed([0, 1, 2, 3, 4], blocks);
    var m := Shape(blocks, 0);
    assert m == Matched(Var(0), Var(1), 1, 2, 3);
    assert !OnlyThenEdge(blocks, 0, 1) by {
      assert 1 in Succs(blocks[4].term);
    }
    var r := Rewritten(blocks, 0, m);
    assert 4 in r && 1 in Succs(r[4].term) && 1 !in r;
  }

  /**
    The outer branch loops back to its own block and that block holds only the branch.
    The source's checks accept it with the inner branch being the outer branch itself:
    the branch is erased twice, and the block that was to receive the combined branch is
    erased with it. The guarded matcher turns it down.
   */
  lemma SelfLoopLosesBranch()
    ensures var blocks := map[
              0 := Block(1, CondBr(Var(0), 1, 2)),  // entry: br a, loop, exit
              1 := Block(1, CondBr(Var(1), 1, 2)),  // loop:  br b, loop, exit
              2 := Block(1, Other([]))];            // exit:  ret
            && WellFormed([0, 1, 2], blocks)
            && Shape(blocks, 1).Matched? && Shape(blocks, 1).mid == 1
            && 1 !in Rewritten(blocks, 1, Shape(blocks, 1))
            && Match(blocks, 1) == NoMatch(ThenHasOtherEdges)
  {
    var blocks := map[
      0 := Block(1, CondBr(Var(0), 1, 2)),
      1 := Block(1, CondBr(Var(1), 1, 2)),
      2 := Block(1, Other([]))];
    assert Closed(blocks) by {
      forall b, s | b in blocks && s in Succs(blocks[b].term) ensures s in blocks {
      }
    }
  }

  /** A chain of three nested ifs over one shared else block. */
  function ChainBlocks(): Blocks {
    map[
      0 := Block(1, CondBr(Var(0), 1, 4)),  // a: br x, b, shared
      1 := Block(1, CondBr(Var(1), 2, 4)),  // b: br y, c, shared
      2 := Block(1, CondBr(Var(2), 3, 4)),  // c: br z, target, shared
      3 := Block(1, Other([])),             // target: ret
      4 := Block(1, Other([]))]             // shared: ret
  }

  lemma ChainClosed()
    ensures ChainBlocks().Keys == {0, 1, 2, 3, 4} && Closed(ChainBlocks())
  {
    var blocks := ChainBlocks();
    assert blocks.Keys == {0, 1, 2, 3, 4};
    forall b, s | b in blocks && s in Succs(blocks[b].term) ensures s in blocks {
      assert s in {1, 2, 3, 4};
    }
  }

  /** Combining the middle level leaves the chain closed, with the `and` in block 1. */
  lemma ChainMiddleCombined()
    ensures Closed(ChainBlocks())
    ensures var r := Rewritten(ChainBlocks(), 1, Shape(ChainBlocks(), 1));
            Closed(r) && r[0] == ChainBlocks()[0] && r[1].size == 2
  {
    ChainClosed();
    var r := Rewritten(ChainBlocks(), 1, Shape(ChainBlocks(), 1));
    assert r.Keys == {0, 1, 3, 4};
    forall b, s | b in r && s in Succs(r[b].term) ensures s in r {
      assert s in {1, 3, 4};
    }
  }

  /**
    Combined at the middle level first, the chain's middle block gains the `and`
    instruction, so the outer branch's then block no longer holds a single instruction
    and the outer level no longer matches.
   */
  lemma InnerFirstChainStaysNested()
    ensures Closed(ChainBlocks())
    ensures && Match(ChainBlocks(), 0).Matched? && Match(ChainBlocks(), 1).Matched?
            && var r := Rewritten(ChainBlocks(), 1, Shape(ChainBlocks(), 1));
               Closed(r) && Shape(r, 0) == NoMatch(ThenNotSingle)
  {
    var blocks := ChainBlocks();
    ChainClosed();
    assert OnlyThenEdge(blocks, 0, 1) by {
      forall b | b in blocks && b != 0 ensures 1 !in Succs(blocks[b].term) {
        assert b in {1, 2, 3, 4};
      }
    }
    assert OnlyThenEdge(blocks, 1, 2) by {
      forall b | b in blocks && b != 1 ensures 2 !in Succs(blocks[b].term) {
        assert b in {0, 2, 3, 4};
      }
    }
    ChainMiddleCombined();
  }

  /**
    The scenario `entry -(a)-> mid -(b)-> target`, both false edges to `shared`:
    one rewrite leaves `entry: br (a & b), target, shared` and no `mid`.
   */
  lemma NestedScenario()
    ensures var blocks := map[
              0 := Block(1, CondBr(Var(0), 1, 3)),  // entry
              1 := Block(1, CondBr(Var(1), 2, 3)),  // mid
              2 := Block(1, Other([])),             // target
              3 := Block(1, Other([]))];            // shared
            var r := Rewritten(blocks, 0, Shape(blocks, 0));
            && Match(blocks, 0).Matched?
            && r == map[0 := Block(2, CondBr(And(Var(0), Var(1)), 2, 3)),
                         2 := Block(1, Other([])),
                         3 := Block(1, Other([]))]
  {
    var blocks := map[
      0 := Block(1, CondBr(Var(0), 1, 3)),
      1 := Block(1, CondBr(Var(1), 2, 3)),
      2 := Block(1, Other([])),
      3 := Block(1, Other([]))];
    assert Closed(blocks) by {
      forall b, s | b in blocks && s in Succs(blocks[b].term) ensures s in blocks {
      }
    }
    var r := Rewritten(blocks, 0, Shape(blocks, 0));
    assert r.Keys == {0, 2, 3};
  }
}
