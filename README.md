# Nested-if combining pass, modelled in Dafny

This project models `NestedIfCombine`, an LLVM function pass. The pass finds two nested
conditional branches that share their false target:

    outer: br oc, mid, E        mid: br ic, T, E      (mid holds nothing but this branch)

It rewrites them into one branch on the conjunction of both predicates:

    outer: and oc, ic; br (oc & ic), T, E            (mid is erased)

A function body is modelled as a block list (`order`), a map from stable block ids to
blocks, and the `NumCombined` statistic. Each block records its instruction count and
its terminator. A terminator is a conditional branch `CondBr(cond, then, else)` or any
other terminator, given by its successor list. Predicates stay symbolic: `Var(n)` or
`And(lhs, rhs)`.

- `ir.dfy` (module `Ir`) holds the data model and the well-formedness invariant. Every
  block is listed once, every block holds at least its terminator, and no edge leaves
  the function. It also holds walks through the body (`IsPath`) and a reference
  execution semantics: with every predicate given one fixed truth value, `Exit` says in
  which block an execution stops.
- `matcher.dfy` (module `Matcher`) holds the pure matcher. `Shape` runs the source's four
  checks as written. `Match` runs the same checks plus the guard that the source lacks
  (see Findings).
- `rewrite.dfy` (module `Rewrite`) holds the rewrite as a function on the block map and
  what is proved about it:
  - the body stays well formed;
  - it has exactly one block and one conditional branch fewer;
  - every walk through the body, loops included, has a counterpart walk in the rewritten
    body between the same blocks, and back;
  - every execution under one fixed valuation of the predicates stops in the same block
    as before;
  - the counterexamples for the source's missing guard.
- `pass.dfy` (module `Pass`) holds the pass on a function body as a value: one combine
  attempt `CombineAt`, the attempts over a worklist `CombineAll`, and the whole pass
  `RunOnBody`. It also holds the class `Cfg`, whose in-place combine step `Combine`,
  worklist snapshot `CollectWorklist` and per-function driver `Run` are proved to
  compute exactly those values.

Where the model deliberately differs from the code:

- The worklist holds the ids of blocks that end in a conditional branch, not pointers to
  branch instructions. The source erases the inner branch together with its block, and
  that branch may still be in the worklist. When the source reaches that entry, it
  dereferences an erased instruction. In the model, an entry whose block has been erased
  finds no branch and is turned down as `NotConditional`, like the null check of the
  source. `Pass.PendingEntriesUntouched` shows that this is the only change in meaning: a
  pending entry whose block still exists still ends in the very branch that was collected
  from it.
- The model's pass combines only when the intermediate block is entered through the
  outer then edge alone. The source does not check this (see Findings).

## Where the source departs from its design

- The pass is meant to let repeated runs flatten longer chains, but running it again
  does not always flatten a chain one more level. The model follows the source here:
  the `and` instruction is placed in the outer block (NestedIfCombine.cpp:54-55), so
  combining the middle level of a chain first leaves that block with two instructions.
  The outer level then no longer matches (`Rewrite.InnerFirstChainStaysNested`).

## Model

| member | source | states |
|---|---|---|
| `Matcher.Shape` | NestedIfCombine.cpp:22-46 | Matches exactly the shape `outer: br oc, mid, E` over a one-instruction `mid: br ic, T, E`, and reports the first failing check. An absent or unconditional outer branch gives `NotConditional`. A then block of size other than 1 gives `ThenNotSingle`. A then block ending in a non-conditional terminator gives `InnerNotConditional`. Different else targets give `ElseMismatch`. Each reason holds exactly when the earlier checks pass and its own check fails. |
| `Matcher.Match` | NestedIfCombine.cpp:22-46 | Matches exactly when the source's checks match and `mid` is entered only by the outer then edge. On a match it returns the source's match. Otherwise it returns the source's reason, or `ThenHasOtherEdges` when only the added guard fails. |
| `Rewrite.Rewritten` | NestedIfCombine.cpp:54-69 | After the rewrite the block set is the old set minus the intermediate block. Unless `mid` is the outer block, the outer block has one more instruction (the `and`) and ends in `br And(oc, ic), T, E`: conjunction in that operand order, inner then target, shared else target. Every other surviving block is unchanged. |
| `Rewrite.RewriteKeepsWellFormed` | NestedIfCombine.cpp:54-69 | After a guarded match, the rewritten body is well formed: no dangling edge, every block listed once. It has exactly one block fewer. The outer block holds the combined branch. The set of blocks ending in a conditional branch loses exactly the intermediate block. |
| `Rewrite.GuardIsExactlyWhatRewriteNeeds` | NestedIfCombine.cpp:32-69 | Among the shapes the source's checks accept, the guarded matcher accepts exactly those whose rewrite keeps the outer block and leaves no dangling edge. So the added guard rejects nothing the rewrite could handle safely. |
| `Rewrite.MatchEdges` | NestedIfCombine.cpp:41-46 | After a guarded match, the inner targets exist and differ from `mid`, and no block other than the outer one branches to `mid`. |
| `Rewrite.ExitForward` | NestedIfCombine.cpp:54-69 | An execution that stops within n steps in the original body stops in the same block within n steps in the rewritten one. |
| `Rewrite.ExitBackward` | NestedIfCombine.cpp:54-69 | An execution that stops within n steps in the rewritten body stops in the same block within 2n steps in the original one. |
| `Rewrite.PathForward` | NestedIfCombine.cpp:54-69 | After a guarded match, take any walk through the original body that starts and ends outside `mid`. It may go round loops and take different edges on different visits. Leaving out every visit to `mid` gives a walk through the rewritten body between the same two blocks. |
| `Rewrite.PathBackward` | NestedIfCombine.cpp:54-69 | After a guarded match, every walk through the rewritten body comes from a walk through the original body between the same two blocks. That walk has `mid` put back between the outer block and T wherever the walk takes the combined then edge, unless T is also E. Leaving `mid` out again gives the walk back. |
| `Rewrite.RewritePreservesExits` | NestedIfCombine.cpp:54-69 | Fix the truth values of the predicates. Then, for every surviving start block, an execution stops in block x after the rewrite exactly when it did before. So it also diverges exactly when it did before. |
| `Rewrite.ExtraPredecessorDangles` | NestedIfCombine.cpp:32-69 | A well-formed body exists where another block also branches to the intermediate block. The source's checks accept it, the rewrite leaves a dangling edge, and `Match` rejects it. |
| `Rewrite.SelfLoopLosesBranch` | NestedIfCombine.cpp:28-69 | A well-formed body exists whose branch loops back to its own one-instruction block. The source's checks accept it with `mid` equal to the outer block. The rewrite erases that block together with the combined branch, and `Match` rejects it. |
| `Rewrite.InnerFirstChainStaysNested` | NestedIfCombine.cpp:54-62 | In a three-level chain sharing one else block, both upper levels match. After the middle level is combined, the outer level fails with `ThenNotSingle`. |
| `Rewrite.NestedScenario` | NestedIfCombine.cpp:22-73 | `entry -(a)-> mid -(b)-> target` with both false edges to `shared` matches. The rewrite gives exactly `entry: br (a & b), target, shared` and no `mid`. |
| `Ir.Without` | NestedIfCombine.cpp:69 | Unlinking a block from the block list keeps exactly the other blocks, without repetitions. It removes exactly one entry when the block was listed, and changes nothing when it was not. |
| `Pass.CondBranchBlocks` | NestedIfCombine.cpp:83-86 | The collected blocks are exactly the listed blocks that end in a conditional branch, without repetitions. |
| `Pass.Cfg.CollectWorklist` | NestedIfCombine.cpp:80-86 | The loop over the block list returns `CondBranchBlocks` of the block list, that is, the blocks that end in a conditional branch, in block-list order. The result holds exactly those blocks, each once. It changes nothing. |
| `Pass.CombineAt` | NestedIfCombine.cpp:22-74 | One combine attempt on a body value keeps it well formed. It combines exactly on a guarded match. Otherwise the body is unchanged. A combine removes one block from the list and creates none, and it changes no block other than the outer one. |
| `Pass.CombineAll` | NestedIfCombine.cpp:89-90 | Trying every worklist entry in order keeps the body well formed. There are at most as many combines as entries. Each combine shortens the block list by one, and no block is created. |
| `Pass.CombineAllSucceedsIffSomeEntryMatches` | NestedIfCombine.cpp:89-90 | Some attempt combines exactly when some worklist entry matches in the body as it was before the first attempt. When no attempt combines, the body is unchanged. |
| `Pass.PendingEntriesUntouched` | NestedIfCombine.cpp:80-90 | After the first k attempts, a later worklist entry whose block still exists holds the same block, and so the same branch, as when the worklist was collected. |
| `Pass.CollectedMatchesAreBranchMatches` | NestedIfCombine.cpp:83-86 | Some collected entry matches exactly when some block ending in a conditional branch matches. |
| `Pass.RunOnBody` | NestedIfCombine.cpp:77-94 | The pass on a body value keeps it well formed. It combines somewhere exactly when some conditional branch of the body matches, and then erases one block per combine. When it combines nowhere, the body is unchanged. There are at most as many combines as collected branches, and no block is created. |
| `Pass.Cfg.Combine` | NestedIfCombine.cpp:22-74 | Returns true exactly on a guarded match. On false, the blocks, the block list and the counter are unchanged. On true: the state is the rewritten one; the outer block ends in `br And(oc, ic), T, E`; `mid` is erased; the block list is one shorter; the conditional-branch set loses `mid`; the counter rises by exactly 1. Blocks other than the outer one are never changed. Well-formedness is kept. The new state and the result are exactly `CombineAt` of the old state. |
| `Pass.Cfg.Run` | NestedIfCombine.cpp:77-94 | The new block list and blocks are exactly `RunOnBody` of the old ones, that is, every collected branch tried in block-list order. The counter rises by exactly `RunOnBody`'s count of combines. The result is true exactly when some block of the old body that ends in a conditional branch matches, which is also exactly when the counter rose. "Preserve all analyses" is reported exactly when nothing changed. When nothing changed, the body is untouched. Each success removes one block, and there are at most as many successes as collected branches. No block is created. Well-formedness is kept. |

## Findings

| source | as written | input that shows it | evidently intended | confidence | as-written member | corrected member |
|---|---|---|---|---|---|---|
| NestedIfCombine.cpp:32-46 | The checks never ask whether the then block has another predecessor, yet line 69 erases it. | Blocks `0: br a, 1, 3`, `1: br b, 2, 3`, `2: ret`, `3: ret`, `4: br c, 1, 2`, combining at block 0: afterwards block 4 branches to the erased block 1. | Combine only when the outer then edge is the only edge into the intermediate block. | high; not executed | `Rewrite.ExtraPredecessorDangles` | `Matcher.Match` |
| NestedIfCombine.cpp:28-69 | A block whose only instruction is `br c, self, E` passes every check with the inner branch being the outer branch. Lines 65-66 then erase the same instruction twice, and line 69 erases the block that was just given the combined branch. | Blocks `0: br a, 1, 2`, `1: br b, 1, 2`, `2: ret`, combining at block 1. | Reject a then block that is the outer block itself. | high; not executed | `Rewrite.SelfLoopLosesBranch` | `Matcher.Match` |

For both rows, the property proved about the corrected matcher is
`Rewrite.RewriteKeepsWellFormed`: the rewrite leaves no dangling edge and keeps the
combined branch. A second property is `Rewrite.RewritePreservesExits`: every execution
ends where it ended before, under one fixed valuation of the predicates. A third is
the pair `Rewrite.PathForward` and `Rewrite.PathBackward`: walks correspond in both
directions, loops included. `Rewrite.GuardIsExactlyWhatRewriteNeeds` shows that the
added guard is no stronger than these need. `Pass.Cfg.Combine` and `Pass.Cfg.Run` use
the corrected matcher. All of these are about the control-flow graph only. PHI nodes
are not modelled (see Left out), so neither says that the rewritten IR is valid SSA.

## Left out

- Plugin registration and pipeline-name parsing (NestedIfCombine.cpp:96-111) are host
  glue. NestedIfCombine.h only declares the pass class. The function analysis manager
  that `run` receives is unused.
- The `LLVM_DEBUG` trace (NestedIfCombine.cpp:49-51) is diagnostics only.
- IRBuilder internals are not modelled. `CreateAnd` may fold constants and then add no
  instruction; the model always adds one `and` instruction to the outer block.
- Instructions other than terminators are counted, not modelled. The new `and` value is
  the symbolic `And(oc, ic)`.
- Pass.Cfg.Combine: the in-place edits are modelled as one update of the block map. The
  intermediate IR states between the insertions and erasures are not modelled.
- `PreservedAnalyses` is reduced to the boolean `preserveAll`.
- Rewrite.RewritePreservesExits: it covers only runs in which every predicate, and every
  choice among several successors, has one outcome for the whole run. A run that goes
  round a loop and then leaves it needs different outcomes on different visits, so it
  is not covered. For example, `while (a && b)` matches, yet every covered run from its
  header that stops is one that never iterates. The valuation-free
  `Rewrite.PathForward` and `Rewrite.PathBackward` cover such runs, but only as walks
  through the graph. They do not relate which predicate values select which edges.
- Runtime semantics of predicates are not modelled. No lemma captures that the rewrite
  evaluates the inner predicate even when the outer one is false. If that evaluation has
  side effects, faults or yields poison, the rewritten program can behave differently.
- The `NumCombined` statistic is a field of the `Cfg` object, not a process-wide counter
  shared across functions. Its thread safety is not modelled.
- PHI nodes are not modelled. The source (NestedIfCombine.cpp:62-69) never updates
  PHI nodes in the inner then block T or in the shared else block E. After the rewrite,
  a PHI in T still names the erased `mid` as its predecessor, where it should name the
  outer block. A PHI in E keeps an entry for `mid`, and it may also need its incoming
  value from the outer block changed. `Rewrite.RewriteKeepsWellFormed`,
  `Rewrite.RewritePreservesExits`, `Rewrite.PathForward` and `Rewrite.PathBackward` are
  about the control-flow graph only and say nothing about PHI nodes. A function with PHI nodes in T or E can therefore be left invalid.
- Pass.Cfg.Run: it is specified by `RunOnBody`. No closed form is stated for the number
  of combines, for example that N independent shapes give exactly N. No lemma states
  what a second run does in general. `Rewrite.InnerFirstChainStaysNested` shows one
  case: a level that the first run left nested can no longer be combined.
