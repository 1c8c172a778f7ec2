/**
  The part of an LLVM function body that the nested-if combining pass looks at:
  basic blocks with stable identities, the number of instructions each holds,
  and the terminator each ends in. Branch predicates are kept symbolic.
 */
module Ir {

  datatype Option<T> = None | Some(value: T)

  /** Stable identity of a basic block; it stays valid as a name after the block is erased. */
  type BlockId = nat

  /** A branch predicate: an opaque boolean value, or the conjunction the pass synthesizes. */
  datatype Cond = Var(n: nat) | And(lhs: Cond, rhs: Cond)

  /**
    A block terminator: a conditional `br` (successor 0 is the then edge, successor 1 the
    else edge), or any other terminator (an unconditional `br`, a `switch`, a `ret`, ...)
    given by its list of successors.
   */
  datatype Terminator =
    | CondBr(cond: Cond, thenId: BlockId, elseId: BlockId)
    | Other(succs: seq<BlockId>)

  /** A basic block: how many instructions it holds, its terminator included, and that terminator. */
  datatype Block = Block(size: nat, term: Terminator)

  type Blocks = map<BlockId, Block>

  function Succs(t: Terminator): seq<BlockId> {
    match t
    case CondBr(_, thenId, elseId) => [thenId, elseId]
    case Other(succs) => succs
  }

  /** Every successor edge of every block leads to a block of the function. */
  predicate Closed(blocks: Blocks) {
    forall b, s :: b in blocks && s in Succs(blocks[b].term) ==> s in blocks
  }

  /**
    `p` is a walk through the function body: every block on it exists, and each block on
    it is followed by one of its own successors.
   */
  predicate IsPath(blocks: Blocks, p: seq<BlockId>) {
    && (forall i :: 0 <= i < |p| ==> p[i] in blocks)
    && (forall i :: 0 < i < |p| ==> p[i] in Succs(blocks[p[i - 1]].term))
  }

  predicate Distinct(s: seq<BlockId>) {
    forall i, j :: 0 <= i < j < |s| ==> s[i] != s[j]
  }

  /**
    A well-formed function body: the block list names every block exactly once, every
    block holds at least its terminator, and no edge leaves the function.
   */
  predicate WellFormed(order: seq<BlockId>, blocks: Blocks) {
    && Distinct(order)
    && (forall i :: 0 <= i < |order| ==> order[i] in blocks)
    && (forall b :: b in blocks ==> b in order)
    && (forall b :: b in blocks ==> blocks[b].size >= 1)
    && Closed(blocks)
  }

  /** The block list with block `x` unlinked from it. */
  function Without(s: seq<BlockId>, x: BlockId): (r: seq<BlockId>)
    ensures forall y :: y in r <==> y in s && y != x
    ensures Distinct(s) ==> Distinct(r)
    ensures Distinct(s) && x in s ==> |r| == |s| - 1
    ensures x !in s ==> r == s
  {
    if s == [] then []
    else if s[0] == x then Without(s[1..], x)
    else
      var rest := Without(s[1..], x);
      assert Distinct(s) ==> Distinct(s[1..]) && s[0] !in s[1..] by {
        if Distinct(s) {
          forall i | 0 <= i < |s| - 1 ensures s[1..][i] != s[0] { assert s[1..][i] == s[i + 1]; }
        }
      }
      [s[0]] + rest
  }

  /** A walk followed by one more block that the walk's first block leads from. */
  lemma PathCons(blocks: Blocks, b: BlockId, p: seq<BlockId>)
    requires b in blocks && IsPath(blocks, p)
    requires p != [] ==> p[0] in Succs(blocks[b].term)
    ensures IsPath(blocks, [b] + p)
  {
    var w := [b] + p;
    forall i | 0 < i < |w| ensures w[i] in Succs(blocks[w[i - 1]].term) {
      if i > 1 { assert w[i] == p[i - 1] && w[i - 1] == p[i - 2]; }
    }
  }

  /** Every suffix of a walk is a walk. */
  lemma PathSuffix(blocks: Blocks, p: seq<BlockId>, k: nat)
    requires IsPath(blocks, p) && k <= |p|
    ensures IsPath(blocks, p[k..])
  {
    var w := p[k..];
    forall i | 0 < i < |w| ensures w[i] in Succs(blocks[w[i - 1]].term) {
      assert w[i] == p[k + i] && w[i - 1] == p[k + i - 1];
    }
  }

  /** Unlinking `x` from a list that starts with `b`. */
  lemma WithoutCons(b: BlockId, s: seq<BlockId>, x: BlockId)
    ensures Without([b] + s, x) == if b == x then Without(s, x) else [b] + Without(s, x)
  {
    assert ([b] + s)[1..] == s;
  }

  /** Unlinking `x` from a list that starts with another block, possibly followed by `x`. */
  lemma WithoutSkip(p: seq<BlockId>, x: BlockId, k: nat)
    requires 1 <= k <= 2 && k < |p| && p[0] != x && (p[1] == x <==> k == 2)
    ensures Without(p, x) == [p[0]] + Without(p[k..], x)
  {
    var tail := p[1..];
    assert p == [p[0]] + tail;
    WithoutCons(p[0], tail, x);
    if k == 2 {
      assert tail == [x] + p[2..];
      WithoutCons(x, p[2..], x);
    }
  }

  /**
    A walk that leaves `x` out, extended at the front by a block `b` other than `x`
    that leads to its first block, possibly by way of `x`: unlinking `x` from the
    extended list gives the extended walk.
   */
  lemma PathWithoutCons(blocks: Blocks, x: BlockId, p: seq<BlockId>, k: nat)
    requires 1 <= k <= 2 && k < |p| && p[0] != x && (p[1] == x <==> k == 2)
    requires var w := Without(p[k..], x);
             IsPath(blocks, w) && w != [] && w[0] == p[k] && w[|w| - 1] == p[|p| - 1]
    requires p[0] in blocks && p[k] in Succs(blocks[p[0]].term)
    ensures var q := Without(p, x);
            IsPath(blocks, q) && q != [] && q[0] == p[0] && q[|q| - 1] == p[|p| - 1]
  {
    var w := Without(p[k..], x);
    WithoutSkip(p, x, k);
    PathCons(blocks, p[0], w);
    assert ([p[0]] + w)[|w|] == w[|w| - 1];
  }

  /** The blocks that end in a conditional branch. */
  function CondBranches(blocks: Blocks): set<BlockId> {
    set b | b in blocks && blocks[b].term.CondBr?
  }

  // ---------------------------------------------------------------------------
  // Control flow under a fixed valuation of the predicates. This is the yardstick
  // against which the rewrite is judged: the pass is meant to send every execution
  // to the same place as before.

  /**
    A fixed valuation: `flag` gives each opaque predicate its truth value, `pick`
    says which successor a multi-way terminator in a given block takes.
   */
  datatype Env = Env(flag: nat -> bool, pick: BlockId -> nat)

  function Eval(c: Cond, env: Env): bool {
    match c
    case Var(n) => env.flag(n)
    case And(lhs, rhs) => Eval(lhs, env) && Eval(rhs, env)
  }

  /** The block control goes to after `b`, or None when `b` has no successor (a return). */
  function Next(blocks: Blocks, b: BlockId, env: Env): (r: Option<BlockId>)
    requires b in blocks
    ensures r.Some? ==> r.value in Succs(blocks[b].term)
    ensures r.None? <==> Succs(blocks[b].term) == []
  {
    match blocks[b].term
    case CondBr(c, thenId, elseId) => Some(if Eval(c, env) then thenId else elseId)
    case Other(succs) => if succs == [] then None else Some(succs[env.pick(b) % |succs|])
  }

  /**
    Where an execution that starts in `b` stops, if it stops within `fuel` steps:
    the block with no successor that it reaches.
   */
  function Exit(blocks: Blocks, b: BlockId, env: Env, fuel: nat): Option<BlockId>
    decreases fuel
  {
    if b !in blocks then None
    else match Next(blocks, b, env)
      case None => Some(b)
      case Some(n) => if fuel == 0 then None else Exit(blocks, n, env, fuel - 1)
  }

  /** An execution from `s` stops in block `x`. */
  ghost predicate Stops(blocks: Blocks, s: BlockId, env: Env, x: BlockId) {
    exists fuel: nat :: Exit(blocks, s, env, fuel) == Some(x)
  }

  /** More fuel does not change where a finished execution stopped. */
  lemma {:induction false} ExitMonotone(blocks: Blocks, b: BlockId, env: Env, fuel: nat)
    requires Exit(blocks, b, env, fuel).Some?
    ensures Exit(blocks, b, env, fuel + 1) == Exit(blocks, b, env, fuel)
    decreases fuel
  {
    match Next(blocks, b, env)
    case None =>
    case Some(n) =>
      assert fuel > 0;
      ExitMonotone(blocks, n, env, fuel - 1);
  }
}
