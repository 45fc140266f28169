/**
 * OptimisticDeterministicPlanner: Open-Loop Optimistic Planning over the node arena.
 * The planner owns the arena, the index of the root, the leaf list and the global
 * oracle-call counter; the node operations (update, expand, the two backups and the
 * selection rule) are methods of the planner that take the node's index.
 */
module Planner {
  import opened Discount
  import opened Arena
  import opened LeafSet

  /** The exceptions the planner raises. */
  datatype Error =
    | MissingState      // expand on a node whose state was never set
    | RewardOutOfRange  // update with a reward outside [0, 1]
    | NotALeaf          // leaves.remove(self) on a node that is not in the list

  datatype Outcome = Ok | Fail(error: Error)

  /** The part of the planner's state that a run changes: the arena, the leaf list, the counter. */
  datatype Snapshot<S> = Snapshot(nodes: seq<Node<S>>, leaves: seq<nat>, calls: nat)

  /** Python's `int(np.ceil(budget / n))` for positive integers. */
  function CeilDiv(b: nat, n: nat): (r: nat)
    requires n > 0
    ensures r * n >= b && (r == 0 || (r - 1) * n < b)
  {
    var q := (b + n - 1) / n;
    assert q * n <= b + n - 1 < (q + 1) * n;
    q
  }

  /** update adds between 0 and g^(depth-1) to the parent's value. */
  lemma UpdatedValue<S>(g: real, x: Node<S>, parentValue: real, reward: real, done: bool)
    requires 0.0 < g < 1.0 && x.depth >= 1 && 0.0 <= reward <= 1.0
    ensures parentValue <= Updated(g, x, parentValue, reward, done).value <= parentValue + Pow(g, x.depth - 1)
  {
    ScaleDown(reward, Pow(g, x.depth - 1));
  }

  /**
   * The bound update sets is the value itself on a terminal node and otherwise the
   * value plus g^depth / (1 - g); it is never below the value, and no normalised
   * continuation of the path collects more.
   */
  lemma UpdatedBound<S>(g: real, x: Node<S>, parentValue: real, reward: real, done: bool, rs: seq<real>)
    requires 0.0 < g < 1.0 && x.depth >= 1 && Normalized(rs)
    ensures var y := Updated(g, x, parentValue, reward, done);
      y.upper == UpperBound(g, y.value, x.depth, done) &&
      y.value <= y.upper &&
      (done ==> y.upper == y.value) &&
      (!done ==> y.value + Return(g, x.depth, rs) <= y.upper)
  {
    var y := Updated(g, x, parentValue, reward, done);
    BoundIsOptimistic(g, y.value, x.depth, done, rs);
  }

  /** update keeps every childless node of the arena with value <= bound. */
  lemma UpdatedChildlessOrdered<S>(g: real, a: seq<Node<S>>, j: nat, parentValue: real, reward: real, done: bool)
    requires 0.0 < g < 1.0 && j < |a| && a[j].depth >= 1 && ChildlessOrdered(a)
    ensures ChildlessOrdered(a[j := Updated(g, a[j], parentValue, reward, done)])
  {
    UpdatedBound(g, a[j], parentValue, reward, done, []);
  }

  /**
   * update below the root with gamma = 0.8: rewards 0.5 and 0.9 give values 0.5 and
   * 0.9 and bounds 0.5 + 0.8^1 / 0.2 = 4.5 and 4.9; a terminal transition with
   * reward 0.9 gives the bound 0.9, the value itself.
   */
  lemma UpdatedExample<S>(s: S)
    ensures var x := NewNode(Some(0), Some(s), 1);
      Updated(0.8, x, 0.0, 0.5, false).value == 0.5 && Updated(0.8, x, 0.0, 0.5, false).upper == 4.5 &&
      Updated(0.8, x, 0.0, 0.9, false).value == 0.9 && Updated(0.8, x, 0.0, 0.9, false).upper == 4.9 &&
      Updated(0.8, x, 0.0, 0.9, true).value == 0.9 && Updated(0.8, x, 0.0, 0.9, true).upper == 0.9
  {
    assert Pow(0.8, 0) == 1.0;
    assert Pow(0.8, 1) == 0.8;
    assert Tail(0.8, 1) == 4.0;
  }

  /**
   * backup_to_root raises the root's value but never writes the root's bound, so
   * after a backup the root's value can exceed its bound: a root with one child
   * whose update gave value 0.5 ends with value 0.5 and bound 0.
   */
  lemma RootValueAboveBound<S>(s: S)
    ensures var kid := Updated(0.8, NewNode(Some(0), Some(s), 1), 0.0, 0.5, false);
      var a := [NewNode(None, Some(s), 0).(children := [1]), kid];
      Coherent(a) && ToRoot(a, 1)[0].value == 0.5 && ToRoot(a, 1)[0].upper == 0.0
  {
    var kid := Updated(0.8, NewNode(Some(0), Some(s), 1), 0.0, 0.5, false);
    var a := [NewNode(None, Some(s), 0).(children := [1]), kid];
    assert kid.value == 0.5 by {
      assert Pow(0.8, 0) == 1.0;
    }
    assert ChildValues(a, 0) == [0.5];
    var a2 := BackupStep(a, 1);
    assert a2[0].value == 0.5 && a2[0].upper == 0.0;
    assert ToRoot(a, 1) == Visit(ToRoot(a2, 0), 1);
  }

  /**
   * The planner's data are consistent: coherent tree links, at most n children per
   * node, a root without parent, and a non-empty leaf list of distinct nodes.
   */
  ghost predicate Sound<S>(a: seq<Node<S>>, root: nat, L: seq<nat>, n: nat) {
    Coherent(a) && (forall j :: 0 <= j < |a| ==> |a[j].children| <= n) &&
    root < |a| && a[root].parent.None? &&
    |L| > 0 && (forall k :: 0 <= k < |L| ==> L[k] < |a|) && Distinct(L)
  }

  /** Rewriting values, bounds and counts keeps the planner's data consistent. */
  lemma SameShapeSound<S>(a: seq<Node<S>>, b: seq<Node<S>>, root: nat, L: seq<nat>, n: nat)
    requires Sound(a, root, L, n) && SameShape(a, b)
    ensures Sound(b, root, L, n)
  {
    SameShapeCoherent(a, b);
    forall j | 0 <= j < |b|
      ensures |b[j].children| <= n && (j == root ==> b[j].parent.None?)
    {
      assert Shape(a[j]) == Shape(b[j]);
    }
  }

  /**
   * The leaf run expands (line 44): the position in the leaf list of the first leaf
   * whose bound is the largest.
   */
  function LeafToExpand<S>(a: seq<Node<S>>, L: seq<nat>): (k: nat)
    requires |L| > 0 && forall m :: 0 <= m < |L| ==> L[m] < |a|
    ensures k < |L|
    ensures forall m :: 0 <= m < |L| ==> a[L[m]].upper <= a[L[k]].upper
    ensures forall m :: 0 <= m < k ==> a[L[m]].upper < a[L[k]].upper
  {
    var us := seq(|L|, m requires 0 <= m < |L| => a[L[m]].upper);
    var k := FirstMax(us);
    assert forall m :: 0 <= m < |L| ==> us[m] == a[L[m]].upper;
    k
  }

  /**
   * Following the actions acts from node j leads to node e, and every action taken
   * leads to a child of largest value: the path get_plan extracts.
   */
  ghost predicate GreedyPath<S>(a: seq<Node<S>>, j: nat, acts: seq<nat>, e: nat)
    requires WellFormed(a) && j < |a|
    decreases |acts|
  {
    if acts == [] then e == j
    else
      acts[0] < |a[j].children| &&
      a[a[j].children[acts[0]]].value == Max(ChildValues(a, j)) &&
      GreedyPath(a, a[j].children[acts[0]], acts[1..], e)
  }

  /** The actions of a greedy path from node j that ends at a childless node: what get_plan returns. */
  ghost predicate GreedyPlan<S>(a: seq<Node<S>>, j: nat, acts: seq<nat>)
    requires WellFormed(a) && j < |a|
  {
    exists e :: 0 <= e < |a| && a[e].children == [] && GreedyPath(a, j, acts, e)
  }

  /** A greedy path extended by one greedy step at its end is still greedy. */
  lemma {:induction false} GreedyPathExtend<S>(a: seq<Node<S>>, j: nat, acts: seq<nat>, e: nat, k: nat)
    requires WellFormed(a) && j < |a| && e < |a| && GreedyPath(a, j, acts, e)
    requires k < |a[e].children| && a[a[e].children[k]].value == Max(ChildValues(a, e))
    ensures GreedyPath(a, j, acts + [k], a[e].children[k])
    decreases |acts|
  {
    if acts != [] {
      assert (acts + [k])[1..] == acts[1..] + [k];
      GreedyPathExtend(a, a[j].children[acts[0]], acts[1..], e, k);
    }
  }

  /** A greedy path only goes down: it never has more steps than the nodes after its start. */
  lemma {:induction false} GreedyPathDescends<S>(a: seq<Node<S>>, j: nat, acts: seq<nat>, e: nat)
    requires WellFormed(a) && j < |a| && GreedyPath(a, j, acts, e)
    ensures j <= e < |a| && |acts| <= e - j
    decreases |acts|
  {
    if acts != [] {
      GreedyPathDescends(a, a[j].children[acts[0]], acts[1..], e);
    }
  }

  /**
   * The base class's promotion of the child for `action` to root: the child is cut
   * loose from its parent; an action that was never expanded starts a fresh tree
   * (make_root).  Yields the arena and the new root.
   */
  function Promoted<S>(a: seq<Node<S>>, r: nat, action: nat): (res: (seq<Node<S>>, nat))
    requires Coherent(a) && r < |a|
    ensures res.1 < |res.0| && res.0[res.1].parent.None?
    ensures action < |a[r].children| ==> res.0 == a[a[r].children[action] := a[a[r].children[action]].(parent := None)] && res.1 == a[r].children[action]
    ensures action >= |a[r].children| ==> res.0 == a + [NewNode(None, None, 0)] && res.1 == |a|
  {
    if action < |a[r].children| then
      var c := a[r].children[action];
      (a[c := a[c].(parent := None)], c)
    else
      (a + [NewNode(None, None, 0)], |a|)
  }

  /** Every leaf's value and bound rescaled by (v - r) / g (lines 64-66); other nodes untouched. */
  ghost function Rescaled<S>(a: seq<Node<S>>, L: seq<nat>, g: real, r: real): (b: seq<Node<S>>)
    requires g != 0.0
    ensures |b| == |a|
  {
    seq(|a|, j requires 0 <= j < |a| =>
      if j in L then a[j].(value := Rescale(g, a[j].value, r), upper := Rescale(g, a[j].upper, r)) else a[j])
  }

  /** Rescaling one more leaf, not rescaled before, extends the rescaled arena by that leaf. */
  lemma RescaledStep<S>(a: seq<Node<S>>, L: seq<nat>, k: nat, g: real, r: real)
    requires g != 0.0 && k < |L| && L[k] < |a| && L[k] !in L[..k]
    ensures var b := Rescaled(a, L[..k], g, r); var j := L[k];
      Rescaled(a, L[..k + 1], g, r) == b[j := b[j].(value := Rescale(g, b[j].value, r), upper := Rescale(g, b[j].upper, r))]
  {
    var b := Rescaled(a, L[..k], g, r);
    var c := Rescaled(a, L[..k + 1], g, r);
    var j := L[k];
    var x := b[j].(value := Rescale(g, b[j].value, r), upper := Rescale(g, b[j].upper, r));
    assert L[..k + 1] == L[..k] + [j];
    forall m | 0 <= m < |a|
      ensures c[m] == b[j := x][m]
    {
    }
  }

  lemma RescaledNothing<S>(a: seq<Node<S>>, L: seq<nat>, g: real, r: real)
    requires g != 0.0
    ensures Rescaled(a, L[..0], g, r) == a
  {
    var b := Rescaled(a, L[..0], g, r);
    forall m | 0 <= m < |a|
      ensures b[m] == a[m]
    {
    }
  }

  /** Rescaling changes only values and bounds. */
  lemma RescaledShape<S>(a: seq<Node<S>>, L: seq<nat>, g: real, r: real)
    requires g != 0.0
    ensures SameShape(a, Rescaled(a, L, g, r))
    ensures WellFormed(a) ==> WellFormed(Rescaled(a, L, g, r))
  {
    var b := Rescaled(a, L, g, r);
    forall j | 0 <= j < |a|
      ensures Shape(a[j]) == Shape(b[j])
    {
    }
    if WellFormed(a) {
      forall x, k | 0 <= x < |b| && 0 <= k < |b[x].children|
        ensures x < b[x].children[k] < |b|
      {
        assert Shape(a[x]) == Shape(b[x]);
      }
    }
  }

  /** Cutting the new root loose from its parent keeps the planner's data consistent. */
  lemma DetachSound<S>(a: seq<Node<S>>, r: nat, c: nat, L: seq<nat>, n: nat)
    requires Sound(a, r, L, n) && c < |a|
    ensures Sound(a[c := a[c].(parent := None)], c, L, n)
  {
    DetachCoherent(a, c);
  }

  /**
   * After re-rooting, a leaf without children holds exactly its rescaled value and
   * bound: (v - r0) / g, with r0 the reward of the promoted root (the identity of
   * line 63); backup_values does not touch it.
   */
  lemma RebasedLeaf<S>(a: seq<Node<S>>, L: seq<nat>, g: real, r0: real, root: nat, j: nat)
    requires 0.0 < g && WellFormed(a) && root < |a| && j < |a| && j in L && a[j].children == []
    ensures WellFormed(Rescaled(a, L, g, r0))
    ensures var b := Rescaled(a, L, g, r0); var c := Recomputed(b, Subtree(b, root));
      c[j].value == Rescale(g, a[j].value, r0) && c[j].upper == Rescale(g, a[j].upper, r0)
  {
    RescaledShape(a, L, g, r0);
    var b := Rescaled(a, L, g, r0);
    assert Shape(a[j]) == Shape(b[j]);
  }

  /** Rescaling is monotone, so it keeps a value at most its bound. */
  lemma RescaledChildless<S>(a: seq<Node<S>>, L: seq<nat>, g: real, r0: real, j: nat)
    requires 0.0 < g && j < |a| && a[j].value <= a[j].upper
    ensures Rescaled(a, L, g, r0)[j].value <= Rescaled(a, L, g, r0)[j].upper
  {
    if j in L {
      RescaleMonotone(g, r0, a[j].value, a[j].upper);
    }
  }

  /**
   * Re-rooting leaves every node of the new root's subtree with value <= bound,
   * provided the childless nodes of that subtree had that order before: rescaling is
   * monotone and the maxima of ordered pairs are ordered.
   */
  lemma RebasedOrdered<S>(a: seq<Node<S>>, L: seq<nat>, g: real, r0: real, root: nat)
    requires 0.0 < g && WellFormed(a) && root < |a| && LeavesOrdered(a, Subtree(a, root))
    ensures WellFormed(Rescaled(a, L, g, r0))
    ensures var b := Rescaled(a, L, g, r0); var c := Recomputed(b, Subtree(b, root));
      Subtree(b, root) == Subtree(a, root) &&
      forall j :: j in Subtree(a, root) ==> j < |c| && c[j].value <= c[j].upper
  {
    RescaledShape(a, L, g, r0);
    var b := Rescaled(a, L, g, r0);
    SubtreeFrame(a, b, root);
    forall j | j in Subtree(b, root) && 0 <= j < |b| && b[j].children == []
      ensures b[j].value <= b[j].upper
    {
      assert Shape(a[j]) == Shape(b[j]);
      RescaledChildless(a, L, g, r0, j);
    }
    RecomputedOrdered(b, root);
  }

  /** Re-rooting keeps every childless node of the arena with value <= bound. */
  lemma RebasedChildlessOrdered<S>(a: seq<Node<S>>, L: seq<nat>, g: real, r0: real, root: nat)
    requires 0.0 < g && WellFormed(a) && root < |a| && ChildlessOrdered(a)
    ensures WellFormed(Rescaled(a, L, g, r0))
    ensures var b := Rescaled(a, L, g, r0); ChildlessOrdered(Recomputed(b, Subtree(b, root)))
  {
    RescaledShape(a, L, g, r0);
    var b := Rescaled(a, L, g, r0);
    forall j | 0 <= j < |b| && b[j].children == []
      ensures b[j].value <= b[j].upper
    {
      assert Shape(a[j]) == Shape(b[j]);
      RescaledChildless(a, L, g, r0, j);
    }
    RecomputedChildlessOrdered(b, Subtree(b, root));
  }

  class OptimisticDeterministicPlanner<S> {
    /** Configuration: the oracle-call budget, the discount, the number of actions. */
    const budget: nat
    const gamma: real
    const n: nat
    const restart: bool
    const ignoreTerminal: bool
    /** The deterministic environment step, one metered oracle call per use. */
    const oracle: (S, nat) -> Transition<S>

    var nodes: seq<Node<S>>
    var root: nat
    var leaves: seq<nat>
    var oracleCalls: nat

    ghost predicate Config() {
      budget > 0 && 0.0 < gamma < 1.0 && n > 0
    }

    ghost predicate Valid()
      reads this
    {
      Config() && Sound(nodes, root, leaves, n)
    }

    /** A planner with an explicit configuration, holding a fresh root (make_root). */
    constructor (budget: nat, gamma: real, n: nat, restart: bool, ignoreTerminal: bool,
                 oracle: (S, nat) -> Transition<S>)
      requires budget > 0 && 0.0 < gamma < 1.0 && n > 0
      ensures Valid()
      ensures this.budget == budget && this.gamma == gamma && this.n == n
      ensures this.restart == restart && this.ignoreTerminal == ignoreTerminal && this.oracle == oracle
      ensures nodes == [NewNode(None, None, 0)] && root == 0 && leaves == [0] && oracleCalls == 0
    {
      this.budget := budget;
      this.gamma := gamma;
      this.n := n;
      this.restart := restart;
      this.ignoreTerminal := ignoreTerminal;
      this.oracle := oracle;
      nodes := [NewNode(None, None, 0)];
      root := 0;
      leaves := [0];
      oracleCalls := 0;
    }

    /** A planner with the default configuration: no restart, terminal leaves still expanded. */
    constructor Default(budget: nat, gamma: real, n: nat, oracle: (S, nat) -> Transition<S>)
      requires budget > 0 && 0.0 < gamma < 1.0 && n > 0
      ensures Valid()
      ensures this.budget == budget && this.gamma == gamma && this.n == n && this.oracle == oracle
      ensures !restart && ignoreTerminal
      ensures nodes == [NewNode(None, None, 0)] && root == 0 && leaves == [0] && oracleCalls == 0
    {
      this.budget := budget;
      this.gamma := gamma;
      this.n := n;
      this.restart := false;
      this.ignoreTerminal := true;
      this.oracle := oracle;
      nodes := [NewNode(None, None, 0)];
      root := 0;
      leaves := [0];
      oracleCalls := 0;
    }

    /**
     * make_root: a fresh parentless node becomes the whole leaf list and is returned;
     * the root itself is left to the caller to reassign.
     */
    method MakeRoot() returns (r: nat)
      requires Valid()
      modifies this
      ensures Valid() && root == old(root)
      ensures nodes == old(nodes) + [NewNode(None, None, 0)]
      ensures r == |old(nodes)| && nodes[r].parent.None? && leaves == [r]
      ensures oracleCalls == old(oracleCalls)
    {
      AddRootCoherent(nodes, NewNode(None, None, 0));
      r := |nodes|;
      nodes := nodes + [NewNode(None, None, 0)];
      leaves := [r];
    }

    /** One metered oracle call: the environment step, and the counter goes up by one. */
    method Step(s: S, action: nat) returns (t: Transition<S>)
      modifies this
      ensures t == oracle(s, action)
      ensures oracleCalls == old(oracleCalls) + 1
      ensures nodes == old(nodes) && root == old(root) && leaves == old(leaves)
    {
      t := oracle(s, action);
      oracleCalls := oracleCalls + 1;
    }

    /**
     * update(reward, done) on node j: a reward outside [0, 1] raises before anything
     * is written; otherwise the node takes its reward, flag, value and bound.
     */
    method Update(j: nat, reward: real, done: bool) returns (out: Outcome)
      requires Valid() && j < |nodes| && nodes[j].parent.Some?
      modifies this
      ensures Valid()
      ensures root == old(root) && leaves == old(leaves) && oracleCalls == old(oracleCalls)
      ensures !(0.0 <= reward <= 1.0) ==> out == Fail(RewardOutOfRange) && nodes == old(nodes)
      ensures 0.0 <= reward <= 1.0 ==>
        out == Ok && nodes == old(nodes)[j := Updated(gamma, old(nodes)[j], old(nodes)[old(nodes)[j].parent.value].value, reward, done)]
    {
      if !(0.0 <= reward <= 1.0) {
        return Fail(RewardOutOfRange);
      }
      var p := nodes[j].parent.value;
      var y := Updated(gamma, nodes[j], nodes[p].value, reward, done);
      assert Shape(y) == Shape(nodes[j]).(reward := reward, done := done);
      SameLinksCoherent(nodes, j, y);
      nodes := nodes[j := y];
      out := Ok;
    }

    // -------------------------------------------------------------------------
    // expand
    // -------------------------------------------------------------------------

    /** Oracle calls spent on one child of a node at depth d: the replay calls, then the real step. */
    function Cost(d: nat): nat {
      if restart then d + 1 else 1
    }

    /** The child of node i as it is created, before its oracle call: a copy of i's state. */
    function Spawn(a: seq<Node<S>>, i: nat): Node<S>
      requires i < |a|
    {
      NewNode(Some(i), a[i].state, a[i].depth + 1)
    }

    /** The child of node i for action k once stepped and updated. */
    ghost function Child(a: seq<Node<S>>, i: nat, k: nat): Node<S>
      requires Config() && i < |a| && a[i].state.Some?
    {
      var t := oracle(a[i].state.value, k);
      Updated(gamma, Spawn(a, i).(state := Some(t.next)), a[i].value, t.reward, t.done)
    }

    /**
     * Node i of arena a has been given m fresh children, filed under actions
     * 0 .. m-1 in a2 and appended after the old nodes; the first `full` of them have
     * been stepped and updated, their rewards accepted by update.  Nothing else changed.
     */
    ghost predicate Created(a: seq<Node<S>>, a2: seq<Node<S>>, i: nat, m: nat, full: nat)
      requires Config() && i < |a| && a[i].state.Some?
    {
      |a2| == |a| + m && full <= m <= n &&
      a2[..|a|] == a[i := a[i].(children := Overlay(a[i].children, |a|, m))] &&
      (forall k :: 0 <= k < full ==> a2[|a| + k] == Child(a, i, k)) &&
      forall k :: 0 <= k < full ==> Accepted(a, i, k)
    }

    /** update accepts the reward of the oracle step for action k from node i. */
    ghost predicate Accepted(a: seq<Node<S>>, i: nat, k: nat)
      requires i < |a| && a[i].state.Some?
    {
      0.0 <= oracle(a[i].state.value, k).reward <= 1.0
    }

    /**
     * The effect of expand on node i, from arena a, leaf list L and counter c to a2,
     * L2 and c2.  Without a state nothing happens.  Otherwise m >= 1 children were
     * created, and every oracle call but the last left the counter below the budget.
     * Then exactly one of:
     *  - complete (Ok, counter below the budget): all n children were stepped and
     *    updated, at Cost(depth) calls each, and i was replaced in the leaf list by
     *    its children;
     *  - i not in the leaf list (NotALeaf): as complete, but the leaf list is unchanged;
     *  - interrupted (Ok, counter at the budget): the leaf list is unchanged, and the
     *    last child was either stepped and updated, or, in restart mode, abandoned
     *    during the replay with the state it was created with;
     *  - a reward outside [0, 1] (RewardOutOfRange): the last child has been stepped
     *    but not updated, and the leaf list is unchanged.
     */
    ghost predicate Expanded(a: seq<Node<S>>, L: seq<nat>, c: nat, a2: seq<Node<S>>, L2: seq<nat>, c2: nat,
                             i: nat, out: Outcome)
      requires Config() && i < |a|
    {
      if a[i].state.None? then
        out == Fail(MissingState) && a2 == a && L2 == L && c2 == c
      else
        var m := |a2| - |a|;
        var cost := Cost(a[i].depth);
        |a| < |a2| && (c2 == c + 1 || c2 <= budget) &&
        var last := a2[|a2| - 1];
        var t := oracle(a[i].state.value, m - 1);
        match out
        case Ok =>
          if c2 < budget then
            Created(a, a2, i, n, n) && c2 == c + n * cost &&
            i in L && L2 == RemoveFirst(L, i) + a2[i].children
          else
            L2 == L &&
            ((Created(a, a2, i, m, m) && c2 == c + m * cost) ||
             (restart && Created(a, a2, i, m, m - 1) && last == Spawn(a, i) &&
              c + (m - 1) * cost < c2 < c + m * cost))
        case Fail(e) =>
          (e == NotALeaf && Created(a, a2, i, n, n) && c2 == c + n * cost &&
           c2 < budget && i !in L && L2 == L) ||
          (e == RewardOutOfRange && Created(a, a2, i, m, m - 1) && c2 == c + m * cost && L2 == L &&
           last == Spawn(a, i).(state := Some(t.next)) && !(0.0 <= t.reward <= 1.0))
    }

    /**
     * The replay of restart mode (lines 101-105): depth metered calls whose results
     * are thrown away, checking the budget after each; stop says the budget was hit.
     */
    method Replay(s: S, action: nat, d: nat) returns (stop: bool)
      modifies this
      ensures nodes == old(nodes) && root == old(root) && leaves == old(leaves)
      ensures stop ==> old(oracleCalls) < oracleCalls <= old(oracleCalls) + d && oracleCalls >= budget &&
                       (oracleCalls == old(oracleCalls) + 1 || oracleCalls - 1 < budget)
      ensures !stop ==> oracleCalls == old(oracleCalls) + d && (d > 0 ==> oracleCalls < budget)
    {
      var j := 0;
      while j < d
        invariant 0 <= j <= d
        invariant nodes == old(nodes) && root == old(root) && leaves == old(leaves)
        invariant oracleCalls == old(oracleCalls) + j
        invariant j > 0 ==> oracleCalls < budget
      {
        var _ := Step(s, action);
        if oracleCalls >= budget {
          return true;
        }
        j := j + 1;
      }
      return false;
    }

    /** Filing a fresh child under action k of i keeps the arena valid. */
    lemma AddChildValid(a: seq<Node<S>>, i: nat, k: nat)
      requires Config() && Coherent(a) && i < |a| && k <= |a[i].children| && k < n
      requires forall j :: 0 <= j < |a| ==> |a[j].children| <= n
      ensures var a2 := a[i := a[i].(children := SetChild(a[i].children, k, |a|))] + [Spawn(a, i)];
        Coherent(a2) && forall j :: 0 <= j < |a2| ==> |a2[j].children| <= n
    {
      AddChildCoherent(a, i, k, Spawn(a, i));
    }

    /**
     * One turn of the loop of expand, from arena a and counter c to a2 and c2: the
     * child for `action` is filed under that action and appended.  Then one of: it
     * was stepped and updated with a reward in [0, 1], at Cost(depth) calls, and expand stops exactly when
     * the counter reached the budget; the replay of restart mode hit the budget and
     * the child keeps the state it was created with; or the reward was out of range
     * and the child was stepped but not updated.
     */
    ghost predicate Added(a: seq<Node<S>>, c: nat, a2: seq<Node<S>>, c2: nat, i: nat, action: nat,
                          out: Outcome, stop: bool)
      requires Config() && i < |a| && a[i].state.Some? && action <= |a[i].children|
    {
      |a2| == |a| + 1 &&
      a2[..|a|] == a[i := a[i].(children := SetChild(a[i].children, action, |a|))] &&
      (c2 == c + 1 || c2 <= budget) &&
      var kid := a2[|a|];
      var cost := Cost(a[i].depth);
      var t := oracle(a[i].state.value, action);
      (out == Ok && kid == Child(a, i, action) && 0.0 <= t.reward <= 1.0 &&
       c2 == c + cost && stop == (c2 >= budget)) ||
      (out == Ok && stop && restart && kid == Spawn(a, i) && c2 >= budget && c < c2 < c + cost) ||
      (out == Fail(RewardOutOfRange) && stop && kid == Spawn(a, i).(state := Some(t.next)) &&
       !(0.0 <= t.reward <= 1.0) && c2 == c + cost)
    }

    /**
     * One turn of the loop of expand (lines 95-110): the child for `action` is
     * created and filed; in restart mode the path is replayed; then the child is
     * stepped and updated.  stop says expand returns here.
     */
    method AddChild(i: nat, action: nat) returns (out: Outcome, stop: bool)
      requires Valid() && i < |nodes| && nodes[i].state.Some? && action < n && action <= |nodes[i].children|
      modifies this
      ensures Valid() && root == old(root) && leaves == old(leaves)
      ensures Added(old(nodes), old(oracleCalls), nodes, oracleCalls, i, action, out, stop)
    {
      var s := nodes[i].state.value;
      var d := nodes[i].depth;
      ghost var a := nodes;
      // children[action] = a new node with a copy of the state, one level down
      var kid := |nodes|;
      AddChildValid(nodes, i, action);
      nodes := nodes[i := nodes[i].(children := SetChild(nodes[i].children, action, kid))] + [Spawn(nodes, i)];
      assert nodes[..kid] == a[i := a[i].(children := SetChild(a[i].children, action, kid))];
      if restart {
        stop := Replay(s, action, d);
        if stop {
          return Ok, true;
        }
      }
      // the real step of the child's own copy, then update
      var t := Step(s, action);
      SameLinksCoherent(nodes, kid, nodes[kid].(state := Some(t.next)));
      nodes := nodes[kid := nodes[kid].(state := Some(t.next))];
      assert nodes[..kid] == a[i := a[i].(children := SetChild(a[i].children, action, kid))];
      out := Update(kid, t.reward, t.done);
      stop := out.Fail? || oracleCalls >= budget;
    }

    /**
     * The loop of expand (lines 94-110) over the actions of node i.  It either
     * returns early, with expand's whole effect already in place, or files all n
     * children with the counter still below the budget.
     */
    method AddChildren(i: nat) returns (out: Outcome, complete: bool)
      requires Valid() && i < |nodes| && nodes[i].state.Some?
      modifies this
      ensures Valid() && root == old(root) && leaves == old(leaves)
      ensures complete ==> out == Ok && Running(old(nodes), old(oracleCalls), nodes, oracleCalls, i, n)
      ensures !complete ==> Expanded(old(nodes), old(leaves), old(oracleCalls), nodes, leaves, oracleCalls, i, out)
    {
      ghost var a, L, c := nodes, leaves, oracleCalls;
      var action := 0;
      CreatedNone(a, i);
      out := Ok;
      while action < n
        invariant 0 <= action <= n
        invariant Valid() && root == old(root) && leaves == L && out == Ok
        invariant Running(a, c, nodes, oracleCalls, i, action)
      {
        ghost var before, callsBefore := nodes, oracleCalls;
        CreatedChildren(a, nodes, i, action);
        var stop;
        out, stop := AddChild(i, action);
        AddedThen(a, L, c, before, callsBefore, nodes, oracleCalls, i, action, out, stop);
        if stop {
          return out, false;
        }
        action := action + 1;
      }
      complete := true;
    }

    /**
     * expand on node i: for each action in turn, create the child, replay the path in
     * restart mode, step and update the child, and return as soon as the counter
     * reaches the budget; after the last action replace i in the leaf list by its
     * children.
     */
    method Expand(i: nat) returns (out: Outcome)
      requires Valid() && i < |nodes|
      modifies this
      ensures Valid() && root == old(root)
      ensures Expanded(old(nodes), old(leaves), old(oracleCalls), nodes, leaves, oracleCalls, i, out)
    {
      if nodes[i].state.None? {
        return Fail(MissingState);
      }
      ghost var a, L, c := nodes, leaves, oracleCalls;
      var complete;
      out, complete := AddChildren(i);
      if !complete {
        return;
      }
      Finished(a, L, c, nodes, oracleCalls, i);
      if i !in leaves {
        return Fail(NotALeaf);
      }
      leaves := RemoveFirst(leaves, i) + nodes[i].children;
    }

    /**
     * The loop invariant of expand: the first m children are in place, stepped and
     * updated, at Cost(depth) calls each, and the counter is still below the budget.
     */
    ghost predicate Running(a: seq<Node<S>>, c: nat, a2: seq<Node<S>>, c2: nat, i: nat, m: nat)
      requires Config() && i < |a| && a[i].state.Some?
    {
      Created(a, a2, i, m, m) && c2 == c + m * Cost(a[i].depth) && (m > 0 ==> c2 < budget)
    }

    /** A turn of the loop either ends expand as Expanded says, or keeps the loop invariant. */
    lemma AddedThen(a: seq<Node<S>>, L: seq<nat>, c: nat, a1: seq<Node<S>>, c1: nat, a2: seq<Node<S>>, c2: nat,
                    i: nat, m: nat, out: Outcome, stop: bool)
      requires Config() && i < |a| && a[i].state.Some? && m < n
      requires Running(a, c, a1, c1, i, m)
      requires i < |a1| && a1[i].state.Some? && m <= |a1[i].children|
      requires Added(a1, c1, a2, c2, i, m, out, stop)
      ensures stop ==> Expanded(a, L, c, a2, L, c2, i, out)
      ensures !stop ==> out == Ok && Running(a, c, a2, c2, i, m + 1)
    {
      var cost := Cost(a[i].depth);
      CreatedChildren(a, a1, i, m);
      CreatedStep(a, a1, a2, i, m);
      MulStep(m, cost);
      if out == Ok && a2[|a1|] == Child(a, i, m) {
        CreatedFull(a, a2, i, m + 1);
      }
    }

    /** After the last action: expand completes, or finds i missing from the leaf list. */
    lemma Finished(a: seq<Node<S>>, L: seq<nat>, c: nat, a2: seq<Node<S>>, c2: nat, i: nat)
      requires Config() && i < |a| && a[i].state.Some? && Running(a, c, a2, c2, i, n)
      requires forall j :: 0 <= j < |a| ==> |a[j].children| <= n
      requires (forall k :: 0 <= k < |L| ==> L[k] < |a|) && Distinct(L)
      ensures i in L ==> Expanded(a, L, c, a2, RemoveFirst(L, i) + a2[i].children, c2, i, Ok)
      ensures i !in L ==> Expanded(a, L, c, a2, L, c2, i, Fail(NotALeaf))
      ensures var L2 := RemoveFirst(L, i) + a2[i].children;
        (forall k :: 0 <= k < |L2| ==> L2[k] < |a2|) && Distinct(L2) && |L2| > 0
    {
      CompleteLeaves(a, a2, i, L);
    }

    /**
     * The oracle calls of expand: none without a state; otherwise at least one and at
     * most Cost(depth) per action, and without restart exactly one per child created.
     */
    lemma ExpandedCalls(a: seq<Node<S>>, L: seq<nat>, c: nat, a2: seq<Node<S>>, L2: seq<nat>, c2: nat,
                        i: nat, out: Outcome)
      requires Config() && i < |a| && Expanded(a, L, c, a2, L2, c2, i, out)
      ensures a[i].state.None? ==> c2 == c
      ensures a[i].state.Some? ==> c < c2 <= c + n * Cost(a[i].depth)
      ensures a[i].state.Some? && !restart ==> c2 == c + (|a2| - |a|)
    {
      if a[i].state.Some? {
        var m := |a2| - |a|;
        ExpandedCounter(a, L, c, a2, L2, c2, i, out);
        CallsBetween(c, c2, m, n, Cost(a[i].depth));
      }
    }

    /** What expand does to the counter: m calls per created child, the last maybe cut short. */
    lemma ExpandedCounter(a: seq<Node<S>>, L: seq<nat>, c: nat, a2: seq<Node<S>>, L2: seq<nat>, c2: nat,
                          i: nat, out: Outcome)
      requires Config() && i < |a| && Expanded(a, L, c, a2, L2, c2, i, out) && a[i].state.Some?
      ensures var m := |a2| - |a|; var cost := Cost(a[i].depth);
        0 < m <= n &&
        (c2 == c + m * cost || (restart && c + (m - 1) * cost < c2 < c + m * cost))
    {
      ExpandedCreated(a, L, c, a2, L2, c2, i, out);
    }

    /** m metered children, each costing `cost` calls, the last possibly cut short. */
    lemma CallsBetween(c: nat, c2: nat, m: nat, n: nat, cost: nat)
      requires 0 < m <= n && cost >= 1
      requires c2 == c + m * cost || c + (m - 1) * cost < c2 < c + m * cost
      ensures c < c2 <= c + n * cost
    {
      MulMonotone(m, n, cost);
      MulStep(m - 1, cost);
    }

    /**
     * Only a complete expansion touches the leaf list, and then it holds the other
     * leaves and exactly the n fresh children of i.
     */
    lemma ExpandedLeaves(a: seq<Node<S>>, L: seq<nat>, c: nat, a2: seq<Node<S>>, L2: seq<nat>, c2: nat,
                         i: nat, out: Outcome)
      requires Config() && i < |a| && Expanded(a, L, c, a2, L2, c2, i, out) && Distinct(L)
      requires |a[i].children| <= n
      ensures L2 != L ==> out == Ok && c2 < budget
      ensures out == Ok && c2 < budget && a[i].state.Some? ==>
        |a2| == |a| + n && i in L &&
        forall x :: x in L2 <==> (x in L && x != i) || |a| <= x < |a2|
    {
      if out == Ok && c2 < budget && a[i].state.Some? {
        CreatedChildren(a, a2, i, n);
        OverlayAll(a[i].children, |a|, n);
        RemoveFirstDistinct(L, i);
        var ch := a2[i].children;
        forall x
          ensures x in L2 <==> (x in L && x != i) || |a| <= x < |a2|
        {
          if |a| <= x < |a2| {
            assert ch[x - |a|] == x;
          }
        }
      }
    }

    /** A node as expand creates it below i: i's parent link, one level deeper, no children. */
    ghost predicate Fresh(a: seq<Node<S>>, i: nat, x: Node<S>)
      requires i < |a|
    {
      x.parent == Some(i) && x.depth == a[i].depth + 1 && x.children == []
    }

    lemma ChildFresh(a: seq<Node<S>>, i: nat, k: nat)
      requires Config() && i < |a| && a[i].state.Some?
      ensures Fresh(a, i, Child(a, i, k))
    {
      var t := oracle(a[i].state.value, k);
      var x := Spawn(a, i).(state := Some(t.next));
      assert Shape(Updated(gamma, x, a[i].value, t.reward, t.done)) == Shape(x).(reward := t.reward, done := t.done);
    }

    /** What every outcome of expand with a state has in common: m >= 1 children were created. */
    lemma ExpandedCreated(a: seq<Node<S>>, L: seq<nat>, c: nat, a2: seq<Node<S>>, L2: seq<nat>, c2: nat,
                          i: nat, out: Outcome)
      requires Config() && i < |a| && Expanded(a, L, c, a2, L2, c2, i, out) && a[i].state.Some?
      ensures var m := |a2| - |a|; var last := a2[|a2| - 1];
        0 < m <= n &&
        (Created(a, a2, i, m, m) ||
         (Created(a, a2, i, m, m - 1) &&
          (last == Spawn(a, i) || last == Spawn(a, i).(state := Some(oracle(a[i].state.value, m - 1).next)))))
    {
    }

    /**
     * Expand writes only node i's children list and appends i's new children: each
     * filed under its action, one level deeper, with i as parent.
     */
    lemma ExpandedChildren(a: seq<Node<S>>, L: seq<nat>, c: nat, a2: seq<Node<S>>, L2: seq<nat>, c2: nat,
                           i: nat, out: Outcome)
      requires Config() && i < |a| && Expanded(a, L, c, a2, L2, c2, i, out) && a[i].state.Some?
      ensures |a| < |a2| <= |a| + n
      ensures forall j :: 0 <= j < |a| && j != i ==> a2[j] == a[j]
      ensures a2[i] == a[i].(children := Overlay(a[i].children, |a|, |a2| - |a|))
      ensures forall k :: 0 <= k < |a2| - |a| ==> a2[i].children[k] == |a| + k && Fresh(a, i, a2[|a| + k])
    {
      ExpandedCreated(a, L, c, a2, L2, c2, i, out);
      var m := |a2| - |a|;
      if Created(a, a2, i, m, m) {
        CreatedLayout(a, a2, i, m, m);
      } else {
        CreatedLayout(a, a2, i, m, m - 1);
      }
    }

    /** The layout of the arena after m children of i were created, the last one fresh. */
    lemma CreatedLayout(a: seq<Node<S>>, a2: seq<Node<S>>, i: nat, m: nat, full: nat)
      requires Config() && i < |a| && a[i].state.Some? && 0 < m && Created(a, a2, i, m, full)
      requires full == m || (full == m - 1 && Fresh(a, i, a2[|a2| - 1]))
      ensures forall j :: 0 <= j < |a| && j != i ==> a2[j] == a[j]
      ensures a2[i] == a[i].(children := Overlay(a[i].children, |a|, |a2| - |a|))
      ensures forall k :: 0 <= k < |a2| - |a| ==> a2[i].children[k] == |a| + k && Fresh(a, i, a2[|a| + k])
    {
      forall j | 0 <= j < |a| && j != i
        ensures a2[j] == a2[..|a|][j] == a[j]
      {
      }
      assert a2[i] == a2[..|a|][i];
      forall j | |a| <= j < |a2|
        ensures Fresh(a, i, a2[j])
      {
        if j - |a| < full {
          ChildFresh(a, i, j - |a|);
          assert a2[|a| + (j - |a|)] == Child(a, i, j - |a|);
        }
      }
      forall k | 0 <= k < m
        ensures a2[i].children[k] == |a| + k && Fresh(a, i, a2[|a| + k])
      {
        var j := |a| + k;
        assert Fresh(a, i, a2[j]);
      }
    }

    /**
     * A child that update accepted gains at most g^depth over its parent's value, and
     * its bound never exceeds the bound of its non-terminal parent: bounds only
     * tighten going down the tree.
     */
    lemma ChildBound(a: seq<Node<S>>, i: nat, k: nat)
      requires Config() && i < |a| && a[i].state.Some?
      requires 0.0 <= oracle(a[i].state.value, k).reward <= 1.0
      ensures a[i].value <= Child(a, i, k).value <= a[i].value + Pow(gamma, a[i].depth)
      ensures Child(a, i, k).upper <= UpperBound(gamma, a[i].value, a[i].depth, false)
    {
      var t := oracle(a[i].state.value, k);
      var x := Spawn(a, i).(state := Some(t.next));
      UpdatedValue(gamma, x, a[i].value, t.reward, t.done);
      var y := Updated(gamma, x, a[i].value, t.reward, t.done);
      DeeperBoundWithin(gamma, a[i].value, a[i].depth, y.value - a[i].value, t.done);
    }

    /**
     * A complete expansion accepted every child's reward, so each of the n children
     * gains at most gamma^depth over i and is bounded by i's non-terminal bound.
     */
    lemma ExpandedChildBound(a: seq<Node<S>>, L: seq<nat>, c: nat, a2: seq<Node<S>>, L2: seq<nat>, c2: nat,
                             i: nat)
      requires Config() && i < |a| && a[i].state.Some? && Expanded(a, L, c, a2, L2, c2, i, Ok) && c2 < budget
      ensures |a2| == |a| + n
      ensures forall j :: |a| <= j < |a2| ==>
        a[i].value <= a2[j].value <= a[i].value + Pow(gamma, a[i].depth) &&
        a2[j].upper <= UpperBound(gamma, a[i].value, a[i].depth, false)
    {
      assert Created(a, a2, i, n, n);
      forall j | |a| <= j < |a2|
        ensures a[i].value <= a2[j].value <= a[i].value + Pow(gamma, a[i].depth)
        ensures a2[j].upper <= UpperBound(gamma, a[i].value, a[i].depth, false)
      {
        var k := j - |a|;
        assert Accepted(a, i, k) && a2[|a| + k] == Child(a, i, k);
        ChildBound(a, i, k);
      }
    }

    /**
     * expand keeps every childless node with value <= bound: a child that was stepped
     * and updated has its bound at or above its value, and one that was not keeps the
     * zero value and zero bound it was created with.
     */
    lemma ExpandedOrdered(a: seq<Node<S>>, L: seq<nat>, c: nat, a2: seq<Node<S>>, L2: seq<nat>, c2: nat,
                          i: nat, out: Outcome)
      requires Config() && i < |a| && Expanded(a, L, c, a2, L2, c2, i, out) && ChildlessOrdered(a)
      ensures ChildlessOrdered(a2)
    {
      if a[i].state.Some? {
        ExpandedChildren(a, L, c, a2, L2, c2, i, out);
        ExpandedCreated(a, L, c, a2, L2, c2, i, out);
        var m := |a2| - |a|;
        forall j | 0 <= j < |a2| && a2[j].children == []
          ensures a2[j].value <= a2[j].upper
        {
          if |a| <= j {
            var k := j - |a|;
            if Created(a, a2, i, m, m) || k < m - 1 {
              var full := if Created(a, a2, i, m, m) then m else m - 1;
              assert Created(a, a2, i, m, full);
              assert a2[|a| + k] == Child(a, i, k);
              var t := oracle(a[i].state.value, k);
              UpdatedBound(gamma, Spawn(a, i).(state := Some(t.next)), a[i].value, t.reward, t.done, []);
            }
          }
        }
      }
    }

    /** An expansion started below the budget overshoots it by at most the one call that reached it. */
    lemma ExpandedBudget(a: seq<Node<S>>, L: seq<nat>, c: nat, a2: seq<Node<S>>, L2: seq<nat>, c2: nat,
                         i: nat, out: Outcome)
      requires Config() && i < |a| && Expanded(a, L, c, a2, L2, c2, i, out) && c < budget
      ensures c2 <= budget
    {
    }

    lemma MulMonotone(m: nat, k: nat, c: nat)
      requires m <= k
      ensures m * c <= k * c
    {
    }

    lemma MulStep(k: nat, c: nat)
      ensures (k + 1) * c == k * c + c
    {
    }

    lemma CreatedNone(a: seq<Node<S>>, i: nat)
      requires Config() && i < |a| && a[i].state.Some?
      ensures Created(a, a, i, 0, 0)
    {
      assert Overlay(a[i].children, |a|, 0) == a[i].children;
    }

    /** After m children were created, i's children list is the overlay of length >= m. */
    lemma CreatedChildren(a: seq<Node<S>>, a2: seq<Node<S>>, i: nat, m: nat)
      requires Config() && i < |a| && a[i].state.Some? && Created(a, a2, i, m, m)
      ensures i < |a2| && a2[i].children == Overlay(a[i].children, |a|, m) && m <= |a2[i].children|
      ensures a2[i].state == a[i].state && a2[i].depth == a[i].depth && a2[i].value == a[i].value
    {
      assert a2[i] == a2[..|a|][i];
    }

    /** Filing the next child extends the record of created children by one. */
    lemma CreatedStep(a: seq<Node<S>>, a1: seq<Node<S>>, a2: seq<Node<S>>, i: nat, m: nat)
      requires Config() && i < |a| && a[i].state.Some? && Created(a, a1, i, m, m) && m < n
      requires i < |a1| && m <= |a1[i].children| && |a2| == |a1| + 1
      requires a2[..|a1|] == a1[i := a1[i].(children := SetChild(a1[i].children, m, |a1|))]
      ensures Created(a, a2, i, m + 1, m)
      ensures Spawn(a1, i) == Spawn(a, i) && a2[|a2| - 1] == a2[|a| + m]
      ensures a1[i].state.Some? && Child(a1, i, m) == Child(a, i, m)
    {
      CreatedChildren(a, a1, i, m);
      OverlayStep(a[i].children, |a|, m);
      assert a2[..|a|] == a2[..|a1|][..|a|];
      forall k | 0 <= k < m
        ensures a2[|a| + k] == Child(a, i, k)
      {
        assert a2[|a| + k] == a2[..|a1|][|a| + k] == a1[|a| + k];
      }
    }

    /** The last created child was stepped and updated too. */
    lemma CreatedFull(a: seq<Node<S>>, a2: seq<Node<S>>, i: nat, m: nat)
      requires Config() && i < |a| && a[i].state.Some? && m > 0 && Created(a, a2, i, m, m - 1)
      requires a2[|a| + m - 1] == Child(a, i, m - 1) && Accepted(a, i, m - 1)
      ensures Created(a, a2, i, m, m)
    {
    }

    /** After a complete expansion, i's children replace it in the leaf list. */
    lemma CompleteLeaves(a: seq<Node<S>>, a2: seq<Node<S>>, i: nat, L: seq<nat>)
      requires Config() && i < |a| && a[i].state.Some? && Created(a, a2, i, n, n)
      requires forall j :: 0 <= j < |a| ==> |a[j].children| <= n
      requires (forall k :: 0 <= k < |L| ==> L[k] < |a|) && Distinct(L)
      ensures var L2 := RemoveFirst(L, i) + a2[i].children;
        (forall k :: 0 <= k < |L2| ==> L2[k] < |a2|) && Distinct(L2) &&
        a2[i].children == seq(n, k requires 0 <= k < n => |a| + k)
    {
      CreatedChildren(a, a2, i, n);
      OverlayAll(a[i].children, |a|, n);
      RemoveFirstDistinct(L, i);
      var r := RemoveFirst(L, i);
      var ch := a2[i].children;
      var L2 := r + ch;
      forall x | 0 <= x < |L2|
        ensures L2[x] < |a2|
      {
        if x < |r| {
          assert L2[x] == r[x] && r[x] in r;
        } else {
          assert L2[x] == ch[x - |r|];
        }
      }
      forall x, y | 0 <= x < y < |L2|
        ensures L2[x] != L2[y]
      {
        if y < |r| {
          assert L2[x] == r[x] && L2[y] == r[y];
        } else if x < |r| {
          assert L2[x] in L && L2[x] < |a| <= L2[y];
        }
      }
    }

    // -------------------------------------------------------------------------
    // the two backups
    // -------------------------------------------------------------------------

    /**
     * backup_values on node i (lines 124-129): each child's subtree is backed up in
     * turn, then i takes the maxima of the returned values and bounds; a childless
     * node keeps its own pair.  The result is the pair of i.
     */
    method BackupValues(i: nat) returns (r: (real, real))
      requires Valid() && i < |nodes|
      modifies this
      ensures Valid() && root == old(root) && leaves == old(leaves) && oracleCalls == old(oracleCalls)
      ensures nodes == Recomputed(old(nodes), Subtree(old(nodes), i))
      ensures r == Backed(old(nodes), i)
      decreases |nodes| - i, 1
    {
      ghost var a := nodes;
      if nodes[i].children == [] {
        RecomputedLeaf(a, i);
        return (nodes[i].value, nodes[i].upper);
      }
      RecomputedSplit(a, i);
      var ps := BackupChildren(i);
      var v := Max(Firsts(ps));
      var u := Max(Seconds(ps));
      WriteValuesShape(nodes, i, v, u);
      SameShapeSound(nodes, nodes[i := nodes[i].(value := v, upper := u)], root, leaves, n);
      nodes := nodes[i := nodes[i].(value := v, upper := u)];
      r := (v, u);
    }

    /** The comprehension of line 126: backup_values on each child of i, in order. */
    method BackupChildren(i: nat) returns (ps: seq<(real, real)>)
      requires Valid() && i < |nodes|
      modifies this
      ensures Valid() && root == old(root) && leaves == old(leaves) && oracleCalls == old(oracleCalls)
      ensures nodes == Recomputed(old(nodes), Descendants(old(nodes), i, |old(nodes)[i].children|))
      ensures ps == BackedChildren(old(nodes), i, |old(nodes)[i].children|)
      decreases |nodes| - i, 0
    {
      ghost var a := nodes;
      var ch := nodes[i].children;
      ps := [];
      var k := 0;
      RecomputedNothing(a, i);
      while k < |ch|
        invariant 0 <= k <= |ch|
        invariant Valid() && root == old(root) && leaves == old(leaves) && oracleCalls == old(oracleCalls)
        invariant nodes == Recomputed(a, Descendants(a, i, k))
        invariant ps == BackedChildren(a, i, k)
      {
        ghost var b := nodes;
        RecomputedLinks(a, Descendants(a, i, k), i);
        var q := BackupValues(ch[k]);
        BackedChildrenStep(a, b, nodes, i, k, q);
        ps := ps + [q];
        k := k + 1;
      }
    }

    /**
     * backup_to_root on node i (lines 131-137): when i has a parent p, p's value becomes
     * the maximum of its children's values and i's own bound the maximum of their
     * bounds; the pass continues at p, then i's visit count goes up.
     */
    method BackupToRoot(i: nat)
      requires Valid() && i < |nodes|
      modifies this
      ensures Valid() && root == old(root) && leaves == old(leaves) && oracleCalls == old(oracleCalls)
      ensures nodes == ToRoot(old(nodes), i)
      decreases i
    {
      match nodes[i].parent
      case None =>
      case Some(p) =>
        // p's value and i's bound, both read before either is written
        SameShapeSound(nodes, BackupStep(nodes, i), root, leaves, n);
        nodes := BackupStep(nodes, i);
        BackupToRoot(p);
        VisitShape(nodes, i);
        SameShapeSound(nodes, Visit(nodes, i), root, leaves, n);
        nodes := Visit(nodes, i);
    }

    // -------------------------------------------------------------------------
    // selection, run and plan
    // -------------------------------------------------------------------------

    /**
     * selection_rule on node j (lines 80-85): no action for a childless node,
     * otherwise any action whose child has the largest value (the random tie-break
     * is a free choice among the maximisers).
     */
    method SelectionRule(j: nat) returns (act: Option<nat>)
      requires Valid() && j < |nodes|
      ensures act.None? <==> nodes[j].children == []
      ensures act.Some? ==>
        act.value < |nodes[j].children| && nodes[nodes[j].children[act.value]].value == Max(ChildValues(nodes, j))
    {
      if nodes[j].children == [] {
        return None;
      }
      var vs := ChildValues(nodes, j);
      var k :| 0 <= k < |vs| && vs[k] == Max(vs);
      return Some(k);
    }

    /**
     * get_plan of the base class: from the root, apply the selection rule until a
     * childless node is reached, collecting the actions.
     */
    method GetPlan() returns (actions: seq<nat>)
      requires Valid()
      ensures GreedyPlan(nodes, root, actions)
    {
      var j := root;
      actions := [];
      while nodes[j].children != []
        invariant j < |nodes| && GreedyPath(nodes, root, actions, j)
        decreases |nodes| - j
      {
        var act := SelectionRule(j);
        GreedyPathExtend(nodes, root, actions, j, act.value);
        actions := actions + [act.value];
        j := nodes[j].children[act.value];
      }
    }

    /**
     * The effect of one run, from x to y: the first leaf of largest bound is expanded
     * (into the arena mid) unless it is terminal and terminal leaves are skipped, and
     * then, unless expand failed, backed up to the root.
     */
    ghost predicate RunEffect(x: Snapshot<S>, mid: seq<Node<S>>, out: Outcome, y: Snapshot<S>) {
      Config() && Coherent(x.nodes) &&
      |x.leaves| > 0 && (forall m :: 0 <= m < |x.leaves| ==> x.leaves[m] < |x.nodes|) &&
      var leaf := x.leaves[LeafToExpand(x.nodes, x.leaves)];
      leaf < |mid| && Coherent(mid) &&
      (if !x.nodes[leaf].done || ignoreTerminal then
         Expanded(x.nodes, x.leaves, x.calls, mid, y.leaves, y.calls, leaf, out)
       else
         out == Ok && mid == x.nodes && y.leaves == x.leaves && y.calls == x.calls) &&
      y.nodes == (if out.Ok? then ToRoot(mid, leaf) else mid)
    }

    /** A run never lowers the counter, and one started below the budget ends at most at it. */
    lemma RunCounter(x: Snapshot<S>, mid: seq<Node<S>>, out: Outcome, y: Snapshot<S>)
      requires Runs([x, y], [mid], out)
      ensures x.calls <= y.calls
      ensures x.calls < budget ==> y.calls <= budget
    {
      RunsOne(x, mid, out, y);
      var leaf := x.leaves[LeafToExpand(x.nodes, x.leaves)];
      if !x.nodes[leaf].done || ignoreTerminal {
        ExpandedCalls(x.nodes, x.leaves, x.calls, mid, y.leaves, y.calls, leaf, out);
        if x.calls < budget {
          ExpandedBudget(x.nodes, x.leaves, x.calls, mid, y.leaves, y.calls, leaf, out);
        }
      }
    }

    /**
     * run (lines 40-48): expand the first leaf of largest bound, unless it is terminal
     * and terminal leaves are not to be expanded, then back up from it to the root.
     * An exception from expand skips the backup.  The run from the old state to the
     * new one, by way of the arena mid that expand left, is a chain of one run.
     */
    method Run() returns (out: Outcome, leaf: nat, ghost mid: seq<Node<S>>)
      requires Valid()
      modifies this
      ensures Valid() && root == old(root)
      ensures leaf == old(leaves)[LeafToExpand(old(nodes), old(leaves))]
      ensures Runs([Snapshot(old(nodes), old(leaves), old(oracleCalls)), Snapshot(nodes, leaves, oracleCalls)],
                   [mid], out)
    {
      ghost var x := Snapshot(nodes, leaves, oracleCalls);
      leaf := leaves[LeafToExpand(nodes, leaves)];
      out := Ok;
      if !nodes[leaf].done || ignoreTerminal {
        out := Expand(leaf);
      }
      mid := nodes;
      if out.Ok? {
        BackupToRoot(leaf);
      }
      RunsOne(x, mid, out, Snapshot(nodes, leaves, oracleCalls));
    }

    /** The start of plan: the root takes the given state and the oracle counter is reset. */
    method SetRootState(s: S)
      requires Valid()
      modifies this
      ensures Valid() && root == old(root) && leaves == old(leaves) && oracleCalls == 0
      ensures nodes == old(nodes)[root := old(nodes)[root].(state := Some(s))]
    {
      SameLinksCoherent(nodes, root, nodes[root].(state := Some(s)));
      nodes := nodes[root := nodes[root].(state := Some(s))];
      oracleCalls := 0;
    }

    /**
     * states[k + 1] is what run k made of states[k], by way of the arena mids[k]; every
     * run but the last ended Ok, and the last ended with `last`.
     */
    ghost predicate Runs(states: seq<Snapshot<S>>, mids: seq<seq<Node<S>>>, last: Outcome) {
      |states| == |mids| + 1 &&
      forall k {:trigger mids[k]} :: 0 <= k < |mids| ==>
        RunEffect(states[k], mids[k], if k + 1 < |mids| then Ok else last, states[k + 1])
    }

    /** A chain of one run is exactly one run's effect. */
    lemma RunsOne(x: Snapshot<S>, mid: seq<Node<S>>, out: Outcome, y: Snapshot<S>)
      ensures Runs([x, y], [mid], out) <==> RunEffect(x, mid, out, y)
    {
      assert [mid][0] == mid;
    }

    /** Recording one more run extends the chain of runs from the first state. */
    lemma PlanStep(states: seq<Snapshot<S>>, mids: seq<seq<Node<S>>>, mid: seq<Node<S>>,
                   out: Outcome, y: Snapshot<S>)
      requires Runs(states, mids, Ok) && Runs([states[|mids|], y], [mid], out)
      ensures Runs(states + [y], mids + [mid], out)
    {
      RunsOne(states[|mids|], mid, out, y);
      var s2, m2 := states + [y], mids + [mid];
      forall k | 0 <= k < |m2|
        ensures RunEffect(s2[k], m2[k], if k + 1 < |m2| then Ok else out, s2[k + 1])
      {
        if k < |mids| {
          assert s2[k] == states[k] && m2[k] == mids[k] && s2[k + 1] == states[k + 1];
        } else {
          assert s2[k] == states[|mids|] && m2[k] == mid && s2[k + 1] == y;
        }
      }
    }

    /**
     * plan (lines 50-57): give the root its state, reset the counter, do at most
     * ceil(budget / n) runs, stopping after the first that leaves the counter at the
     * budget, and return the greedy plan.  An exception from a run ends planning
     * with no plan.  The ghost `states` are the planner's state before the first run
     * and after each run, and `mids` the arenas each run's expand left behind.
     */
    method Plan(s: S) returns (out: Outcome, actions: seq<nat>, runs: nat,
                               ghost states: seq<Snapshot<S>>, ghost mids: seq<seq<Node<S>>>)
      requires Valid()
      modifies this
      ensures Valid() && root == old(root)
      ensures 1 <= runs <= CeilDiv(budget, n) && |states| == runs + 1 && |mids| == runs
      ensures states[0] == Snapshot(old(nodes)[root := old(nodes)[root].(state := Some(s))], old(leaves), 0)
      ensures states[runs] == Snapshot(nodes, leaves, oracleCalls)
      ensures Runs(states, mids, out)
      ensures forall k :: 0 < k < runs ==> states[k].calls < budget
      ensures out.Ok? && runs < CeilDiv(budget, n) ==> oracleCalls >= budget
      ensures oracleCalls <= budget
      ensures out.Fail? ==> actions == []
      ensures out.Ok? ==> GreedyPlan(nodes, root, actions)
    {
      SetRootState(s);
      var total := CeilDiv(budget, n);
      assert total >= 1;
      runs, out, actions := 0, Ok, [];
      states, mids := [Snapshot(nodes, leaves, oracleCalls)], [];
      while runs < total
        invariant runs <= total && Valid() && root == old(root) && out == Ok
        invariant oracleCalls < budget
        invariant |states| == runs + 1 && |mids| == runs
        invariant states[0] == Snapshot(old(nodes)[root := old(nodes)[root].(state := Some(s))], old(leaves), 0)
        invariant states[runs] == Snapshot(nodes, leaves, oracleCalls)
        invariant Runs(states, mids, Ok)
        invariant forall k :: 0 < k <= runs ==> states[k].calls < budget
      {
        var leaf;
        ghost var mid;
        out, leaf, mid := Run();
        ghost var y := Snapshot(nodes, leaves, oracleCalls);
        RunCounter(states[runs], mid, out, y);
        PlanStep(states, mids, mid, out, y);
        runs, states, mids := runs + 1, states + [y], mids + [mid];
        if out.Fail? {
          return;
        }
        if oracleCalls >= budget {
          break;
        }
      }
      actions := GetPlan();
    }

    // -------------------------------------------------------------------------
    // re-rooting
    // -------------------------------------------------------------------------

    /** The loop of lines 64-66: every leaf's value and bound become (v - r0) / gamma. */
    method RescaleLeaves(r0: real)
      requires Valid()
      modifies this
      ensures Valid() && root == old(root) && leaves == old(leaves) && oracleCalls == old(oracleCalls)
      ensures nodes == Rescaled(old(nodes), leaves, gamma, r0)
    {
      ghost var a := nodes;
      RescaledNothing(a, leaves, gamma, r0);
      var k := 0;
      while k < |leaves|
        invariant k <= |leaves| && Valid() && root == old(root) && leaves == old(leaves) && oracleCalls == old(oracleCalls)
        invariant nodes == Rescaled(a, leaves[..k], gamma, r0)
      {
        var j := leaves[k];
        assert j !in leaves[..k];
        RescaledStep(a, leaves, k, gamma, r0);
        var v, u := Rescale(gamma, nodes[j].value, r0), Rescale(gamma, nodes[j].upper, r0);
        WriteValuesShape(nodes, j, v, u);
        SameShapeSound(nodes, nodes[j := nodes[j].(value := v, upper := u)], root, leaves, n);
        nodes := nodes[j := nodes[j].(value := v, upper := u)];
        k := k + 1;
      }
      assert leaves[..k] == leaves;
    }

    /**
     * step_by_subtree (lines 59-67): promote the child for `action` to root (or start a
     * fresh tree), reset the leaf list to the root when the root has no children,
     * rescale every leaf by the promoted root's reward, and back up from the root.
     */
    method StepBySubtree(action: nat)
      requires Valid()
      modifies this
      ensures Valid() && oracleCalls == old(oracleCalls)
      ensures var (a1, r1) := Promoted(old(nodes), old(root), action);
        root == r1 &&
        leaves == (if a1[r1].children == [] then [r1] else old(leaves)) &&
        var b := Rescaled(a1, leaves, gamma, a1[r1].reward);
        WellFormed(b) && nodes == Recomputed(b, Subtree(b, r1))
    {
      if action < |nodes[root].children| {
        var c := nodes[root].children[action];
        DetachSound(nodes, root, c, leaves, n);
        nodes := nodes[c := nodes[c].(parent := None)];
        root := c;
      } else {
        root := MakeRoot();
      }
      if nodes[root].children == [] {
        leaves := [root];
      }
      ghost var a1 := nodes;
      RescaleLeaves(nodes[root].reward);
      RescaledShape(a1, leaves, gamma, a1[root].reward);
      var _ := BackupValues(root);
    }
  }
}
