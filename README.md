# Open-Loop Optimistic Planning for deterministic MDPs, in Dafny

This project models `OptimisticDeterministicPlanner` and `DeterministicNode` from
`rl_agents/agents/tree_search/deterministic.py`. Together they implement OLOP, a planner
that grows a lookahead tree under a budget of environment calls ("oracle calls").
Each planning cycle does three things:

- it picks the leaf with the largest optimistic bound;
- it expands that leaf by stepping the environment once for each action;
- it backs the new estimates up the tree to the root.

Between planning calls the tree is re-rooted at the child of the action that was taken.
The cached estimates of its leaves are rescaled to the new root's frame.

The model has three parts:

- `discount.dfy` (module `Discount`) holds the discounted-return arithmetic. It has
  powers of gamma, the maximum of a list of estimates, the bound
  `value + gamma^depth / (1 - gamma)`, the discounted return of a reward sequence, and
  the re-rooting rescale `(v - r) / gamma`.
- `leaves.dfy` (module `LeafSet`) holds the two list operations the planner relies on.
  Python's `list.remove` drops the first occurrence. `max(..., key=...)` returns the
  first maximal element.
- `arena.dfy` (module `Arena`) holds the tree.
  - Nodes are values in a sequence and are addressed by index.
  - A node's parent is an index.
  - Its children dictionary (keys `0 .. k-1`, in insertion order) is the sequence of
    child indices in action order.
  - A child is always appended after its parent, so every child index is larger than
    its parent's.
  - The module also gives the two backup passes as specification functions:
    - `Backed` and `Recomputed` for `backup_values`;
    - `ToRoot`, built from `BackupStep` and `Visit`, for `backup_to_root`.
  - The lemmas say what each pass establishes.
- `planner.dfy` (module `Planner`) holds the class `OptimisticDeterministicPlanner`.
  - Its fields are the arena, the root index, the leaf list and the oracle-call counter.
  - Its configuration is constant: `budget`, `gamma`, the number of actions `n`,
    `restart` and `ignoreTerminal`.
  - Its environment is a constant oracle `(state, action) -> (next state, reward, done)`.
  - The node operations (`update`, `expand`, both backups, the selection rule) are
    methods of the planner that take a node's index.
  - Each method states its new state as a function of the old one.
  - `expand` is specified by the predicate `Expanded`. It lists every way an expansion
    can end: no state; complete; the leaf not in the leaf list; interrupted at the
    budget, after the last child's step or, in restart mode, during its replay; or a
    reward out of range. Every child that was stepped and updated had its reward
    accepted, in [0, 1].
  - `run` is specified by the predicate `RunEffect`, and `plan` by a chain of them
    (`Runs`) over snapshots of the arena, the leaf list and the counter.

The exceptions the source raises are `Fail` outcomes:

- `expand` on a node without a state;
- `update` with a reward outside `[0, 1]`;
- `list.remove` on a node that is not in the leaf list.

Each outcome carries the partial changes Python has already made when it raises.
An exception ends `run` before the backup, and ends `plan` without a plan.

Quirks of the code that the model keeps:

- The budget can run out in the middle of an expansion. `expand` then returns before
  lines 112-113, so the leaf stays in the leaf list and none of the new children join it,
  although they are stored as its children.
- In restart mode, a child abandoned during the replay keeps the zero reward, value and
  bound it was created with (lines 75-76).
- One step of `backup_to_root` writes the parent's `value` and the node's own
  `value_upper_bound` (lines 134-135), never the node's own value. There is one
  consequence, stated in `RootValueAboveBound`: the pass writes the root's value but
  never writes the root's bound. The property "value <= bound on every node after any
  backup" therefore does not hold at the root. What does hold:
  - "value <= bound on every childless node" is kept by `update`, `expand`,
    `backup_values`, re-rooting, and `backup_to_root` when the pass starts from a node
    filed among its parent's children. A re-expansion can leave orphans: old children
    that still name their parent but are no longer among its children.
  - After `backup_values`, and so after re-rooting, every node of the recomputed subtree
    has value <= bound, provided its childless nodes did before (`RecomputedOrdered`,
    `RebasedOrdered`).
- `step_by_subtree` reads `self.root` after the promotion, so the reward it subtracts is
  the promoted root's reward. It rescales every entry of the leaf list, including leaves
  of discarded branches. When it resets the list to the root, it rescales the root itself.
- The default configuration does not restart and still expands terminal leaves
  (`ignore_terminal` is true).

## Model

| member | source | states |
|---|---|---|
| `Arena.NewNode` | rl_agents/agents/tree_search/deterministic.py:71-78 | a created node has no children, reward, value and bound 0, one visit, and is not terminal |
| `Arena.Updated` | rl_agents/agents/tree_search/deterministic.py:118-122 | update writes only the reward, flag, value and bound of the node: its links, state and depth are kept |
| `Planner.UpdatedValue` | rl_agents/agents/tree_search/deterministic.py:120 | with a reward in [0, 1], the updated value lies between the parent's value and the parent's value plus gamma^(depth-1) |
| `Planner.UpdatedBound` | rl_agents/agents/tree_search/deterministic.py:122 | the bound is value + gamma^depth/(1-gamma), or exactly the value when done; never below the value; no normalised continuation of the path returns more |
| `Planner.UpdatedExample` | rl_agents/agents/tree_search/deterministic.py:118-122 | with gamma 0.8 at depth 1: rewards 0.5 and 0.9 give bounds 4.5 and 4.9; a terminal reward 0.9 gives bound 0.9, equal to the value |
| `Planner.UpdatedChildlessOrdered` | rl_agents/agents/tree_search/deterministic.py:118-122 | updating a node of depth >= 1 keeps value at most bound on every childless node |
| `Planner.OptimisticDeterministicPlanner.Update` | rl_agents/agents/tree_search/deterministic.py:115-122 | a reward outside [0, 1] fails with nothing changed; otherwise exactly node j is replaced by its updated version, computed from its parent's value |
| `Discount.BoundIsOptimistic` | rl_agents/agents/tree_search/deterministic.py:122 | the bound is at least the value, equals it on a terminal node, and bounds value plus the return of any normalised reward sequence from that depth |
| `Discount.ReturnBelowTail` | rl_agents/agents/tree_search/deterministic.py:122 | a normalised reward sequence started at exponent d returns between 0 and gamma^d/(1-gamma) |
| `Planner.OptimisticDeterministicPlanner.ChildBound` | rl_agents/agents/tree_search/deterministic.py:107-108 | a child whose reward update accepted gains at most gamma^depth over its parent, and its bound is at most the parent's non-terminal bound |
| `Planner.OptimisticDeterministicPlanner.MakeRoot` | rl_agents/agents/tree_search/deterministic.py:35-38 | a fresh parentless node is appended, becomes the whole leaf list and is returned; the root and the counter are kept |
| `Planner.OptimisticDeterministicPlanner.constructor` | rl_agents/agents/tree_search/deterministic.py:21-24 | the planner keeps the given configuration and starts with one fresh root as its only leaf and a zero counter |
| `Planner.OptimisticDeterministicPlanner.Default` | rl_agents/agents/tree_search/deterministic.py:26-33 | the default configuration performs no restart and still expands terminal leaves |
| `Planner.OptimisticDeterministicPlanner.Step` | rl_agents/agents/tree_search/deterministic.py:107 | one oracle call returns the oracle's transition and raises the counter by exactly one, changing nothing else |
| `Planner.OptimisticDeterministicPlanner.Replay` | rl_agents/agents/tree_search/deterministic.py:101-105 | the restart replay makes d calls and stops early exactly when the counter reaches the budget; the tree and the leaf list are untouched |
| `Planner.OptimisticDeterministicPlanner.AddChild` | rl_agents/agents/tree_search/deterministic.py:95-110 | one turn of the loop files a fresh child under the action and appends it; then exactly one of: it is stepped and updated with a reward in [0, 1] at Cost(depth) calls and the loop stops iff the counter reached the budget; the replay hits the budget; or the reward is outside [0, 1] and the turn fails |
| `Planner.OptimisticDeterministicPlanner.AddChildren` | rl_agents/agents/tree_search/deterministic.py:94-110 | the loop over the actions either ends expand as Expanded describes or files all n children, stepped and updated with accepted rewards, with the counter below the budget |
| `Planner.OptimisticDeterministicPlanner.Expand` | rl_agents/agents/tree_search/deterministic.py:87-113 | the new arena, leaf list and counter are related to the old ones as Expanded describes, in every one of its cases; every child updated under Ok or NotALeaf had its reward in [0, 1], and a stepped child with a reward outside [0, 1] means Fail(RewardOutOfRange) |
| `Planner.OptimisticDeterministicPlanner.ExpandedChildBound` | rl_agents/agents/tree_search/deterministic.py:107-122 | after a complete expansion each of the n children gains at most gamma^depth over the node and is bounded by the node's non-terminal bound |
| `Planner.OptimisticDeterministicPlanner.ExpandedChildren` | rl_agents/agents/tree_search/deterministic.py:91-98 | expand creates between 1 and n children under keys 0, 1, ... in order; each is one level deeper and points back to the node; no other node changes |
| `Planner.OptimisticDeterministicPlanner.ExpandedCounter` | rl_agents/agents/tree_search/deterministic.py:101-110 | expand creates between 1 and n children and spends Cost(depth) calls on each, except that in restart mode the last replay may stop short |
| `Planner.OptimisticDeterministicPlanner.ExpandedCalls` | rl_agents/agents/tree_search/deterministic.py:101-110 | no oracle call without a state; otherwise at least one and at most depth+1 per action, and without restart exactly one per child created |
| `Planner.OptimisticDeterministicPlanner.ExpandedOrdered` | rl_agents/agents/tree_search/deterministic.py:87-113 | in every outcome of expand, value at most bound still holds on every childless node |
| `Planner.OptimisticDeterministicPlanner.ExpandedLeaves` | rl_agents/agents/tree_search/deterministic.py:109-113 | only a complete expansion below the budget changes the leaf list, and then the list holds exactly the other leaves and the n new children |
| `Planner.OptimisticDeterministicPlanner.ExpandedBudget` | rl_agents/agents/tree_search/deterministic.py:104-110 | an expansion that starts below the budget ends at most at the budget |
| `LeafSet.RemoveFirstCount` | rl_agents/agents/tree_search/deterministic.py:112 | list.remove drops exactly one copy of an element present, keeping the rest; on an absent element it changes nothing |
| `LeafSet.RemoveFirstAt` | rl_agents/agents/tree_search/deterministic.py:112 | list.remove cuts out the first occurrence of the element and keeps the rest in order |
| `LeafSet.RemoveFirstDistinct` | rl_agents/agents/tree_search/deterministic.py:112 | on a list without repetitions the removed leaf is gone and exactly the other leaves remain |
| `Planner.OptimisticDeterministicPlanner.CompleteLeaves` | rl_agents/agents/tree_search/deterministic.py:112-113 | after a complete expansion the new leaf list is in range and without repetitions, and the children are the n fresh nodes in order |
| `Arena.RecomputedConsistent` | rl_agents/agents/tree_search/deterministic.py:124-128 | after backup_values every node of the subtree that has children holds the maximum of its children's values and the maximum of their bounds |
| `Arena.RecomputedSkeleton` | rl_agents/agents/tree_search/deterministic.py:125 | backup_values changes no links, and childless nodes keep their value and bound |
| `Arena.BackupValuesIdempotent` | rl_agents/agents/tree_search/deterministic.py:124-129 | a second backup_values on the result changes nothing and returns the same pair |
| `Arena.RecomputedOrdered` | rl_agents/agents/tree_search/deterministic.py:124-129 | if every childless node of the subtree has value at most bound, then after backup_values every node of the subtree does |
| `Arena.RecomputedChildlessOrdered` | rl_agents/agents/tree_search/deterministic.py:124-129 | backup_values keeps value at most bound on every childless node of the arena |
| `Arena.RecomputedTop` | rl_agents/agents/tree_search/deterministic.py:129 | after backup_values the node holds the pair it returned |
| `Planner.OptimisticDeterministicPlanner.BackupValues` | rl_agents/agents/tree_search/deterministic.py:124-129 | the arena becomes the recomputation of the node's subtree, and the result is the node's backed-up pair |
| `Planner.OptimisticDeterministicPlanner.BackupChildren` | rl_agents/agents/tree_search/deterministic.py:126 | backing up the children in order recomputes all their subtrees and returns their pairs in action order |
| `Arena.BackupStep` | rl_agents/agents/tree_search/deterministic.py:133-135 | one step writes the parent's value (max of the children's values) and the node's own bound (max of the children's bounds); nothing else changes |
| `Arena.ToRootConsistent` | rl_agents/agents/tree_search/deterministic.py:131-136 | after backup_to_root, for every node on the path with a parent p: p's value is the max of p's children's values, and the node's bound the max of their bounds |
| `Arena.ToRootOwnValue` | rl_agents/agents/tree_search/deterministic.py:133-135 | backup_to_root never writes the starting node's own value |
| `Arena.ToRootOffChain` | rl_agents/agents/tree_search/deterministic.py:131-137 | nodes off the path to the root are left as they were |
| `Arena.ToRootCounts` | rl_agents/agents/tree_search/deterministic.py:137 | every node of the path that has a parent gains exactly one visit; the root gains none |
| `Arena.ToRootTop` | rl_agents/agents/tree_search/deterministic.py:132-135 | the root's bound is never written |
| `Arena.ToRootShape` | rl_agents/agents/tree_search/deterministic.py:131-137 | backup_to_root changes only values, bounds and counts |
| `Arena.ToRootStartBound` | rl_agents/agents/tree_search/deterministic.py:135 | when the starting node is among its parent's children, the pass never lowers its bound |
| `Arena.ToRootChildlessOrdered` | rl_agents/agents/tree_search/deterministic.py:131-137 | started from a node among its parent's children, backup_to_root keeps value at most bound on every childless node |
| `Planner.RootValueAboveBound` | rl_agents/agents/tree_search/deterministic.py:132-136 | concretely: a root whose only child has value 0.5 ends the pass with value 0.5 and bound 0 |
| `Planner.OptimisticDeterministicPlanner.BackupToRoot` | rl_agents/agents/tree_search/deterministic.py:131-137 | the arena becomes ToRoot of the old arena; the leaf list, root and counter are kept |
| `Planner.OptimisticDeterministicPlanner.SelectionRule` | rl_agents/agents/tree_search/deterministic.py:80-85 | no action exactly for a childless node; otherwise an existing action whose child has the largest value |
| `Planner.OptimisticDeterministicPlanner.GetPlan` | rl_agents/agents/tree_search/deterministic.py:57 | the plan follows greedy selections from the root down to a childless node |
| `Planner.GreedyPathDescends` | rl_agents/agents/tree_search/deterministic.py:57 | a greedy plan only moves down the tree, so it has fewer steps than there are nodes below its start |
| `LeafSet.FirstMax` | rl_agents/agents/tree_search/deterministic.py:44 | the position of the first element of the largest value |
| `Planner.LeafToExpand` | rl_agents/agents/tree_search/deterministic.py:44 | the chosen leaf has the largest bound, and every earlier leaf has a strictly smaller one |
| `Planner.OptimisticDeterministicPlanner.Run` | rl_agents/agents/tree_search/deterministic.py:40-48 | the chosen leaf is the first of largest bound; run expands it unless it is terminal and terminal leaves are skipped, then backs up from it; a failure skips the backup (RunEffect) |
| `Planner.OptimisticDeterministicPlanner.RunCounter` | rl_agents/agents/tree_search/deterministic.py:40-48 | a run never lowers the counter, and a run started below the budget ends at most at it |
| `Planner.CeilDiv` | rl_agents/agents/tree_search/deterministic.py:53 | the number of runs is the least r with r*n >= budget |
| `Planner.OptimisticDeterministicPlanner.SetRootState` | rl_agents/agents/tree_search/deterministic.py:51-52 | the root takes the planning state and the counter is reset to 0; the links and the leaf list are kept |
| `Planner.OptimisticDeterministicPlanner.Plan` | rl_agents/agents/tree_search/deterministic.py:50-57 | plan starts from the root with its state and a zero counter, then does between 1 and ceil(budget/n) runs, each a RunEffect from the previous state, ending in the planner's final state; every run but the last ended Ok and left the counter below the budget; fewer runs than ceil(budget/n) end at the budget; the counter never exceeds the budget; an Ok plan is a greedy path to a childless node |
| `Planner.Promoted` | rl_agents/agents/tree_search/deterministic.py:60 | the child of the action is cut loose from its parent and becomes the root; an action never expanded starts a fresh root |
| `Discount.RescaleDropsFirstReward` | rl_agents/agents/tree_search/deterministic.py:63-66 | (v0 - r0)/gamma removes the first reward and one discount step: (r0 + g r1 + g^2 r2 + ... - r0)/g == r1 + g r2 + ... |
| `Planner.OptimisticDeterministicPlanner.RescaleLeaves` | rl_agents/agents/tree_search/deterministic.py:64-66 | every leaf's value and bound become (v - r0)/gamma, and no other node changes |
| `Planner.OptimisticDeterministicPlanner.StepBySubtree` | rl_agents/agents/tree_search/deterministic.py:59-67 | the promoted child is the root; the leaf list is reset to it if it has no children; every leaf is rescaled by the root's reward; then the root's subtree is recomputed |
| `Planner.RebasedLeaf` | rl_agents/agents/tree_search/deterministic.py:63-67 | after re-rooting, a childless leaf holds exactly (v - r0)/gamma and (u - r0)/gamma |
| `Planner.RescaledChildless` | rl_agents/agents/tree_search/deterministic.py:64-66 | rescaling a node with value at most bound keeps value at most bound |
| `Planner.RebasedOrdered` | rl_agents/agents/tree_search/deterministic.py:63-67 | if every childless node of the new root's subtree has value at most bound, then after re-rooting every node of that subtree does |
| `Planner.RebasedChildlessOrdered` | rl_agents/agents/tree_search/deterministic.py:63-67 | re-rooting keeps value at most bound on every childless node |

`get_value_upper_bound` (lines 139-140) is the field `upper` of a node. Each of the
members above reads that field directly.

## Left out

- Environment stepping and cloning (`step_state`, `safe_deepcopy_env`,
  `state.action_space`) are foreign calls. They become the constant oracle and the
  method `Step`. A state is a value, so copying it is implicit. The number of actions
  is the constant `n` for every state.
- The base classes in `rl_agents/agents/tree_search/abstract.py` are not part of this
  model. Only the behaviour this file relies on is modelled, and it is assumed:
  - a node starts with value 0;
  - `get_value` returns the value;
  - `step_state` increments the counter;
  - `reset_oracle_calls` sets the counter to 0;
  - `if self.parent:` tests that a parent exists;
  - `get_plan` follows the selection rule from the root until a childless node (`GetPlan`);
  - the base `step_by_subtree` promotes the child of an expanded action with its parent
    cut, and otherwise makes a fresh root (`Promoted`).
- The promoted root keeps its depth, and the discarded branches stay in the arena as
  unreachable nodes. Nothing in this file reads them, except through stale entries of
  the leaf list, which the model keeps.
- The random tie-break of `selection_rule` is a free choice among the maximising actions.
- `DeterministicPlannerAgent.make_planner` is wiring with no logic.
- Logging is not modelled.
- numpy vector rewards and IEEE float rounding are left out. Rewards and values are
  exact reals, with `0 < gamma < 1` and `budget > 0`.
- Planner.OptimisticDeterministicPlanner.constructor: `__init__` (line 24) leaves
  `self.leaves` as None and creates no root. The root comes from the base class, which
  is not part of this model. The constructor stands for construction followed by
  `self.root = self.make_root()`, so it starts with one root as its only leaf. A planner
  without a leaf list is not represented.
- Planner.OptimisticDeterministicPlanner.Default: the same as the constructor, with the
  default `restart` and `ignore_terminal`.
- A Python exception propagates out of `plan`. The model returns it as a `Fail` outcome
  with an empty plan.
