/**
 * The lookahead tree of the deterministic planner, stored as an arena: a node is a
 * value in a sequence and is addressed by its index, its parent is an index and its
 * children (the dictionary from action 0, 1, ... to child node) are the sequence of
 * child indices in action order.  Nodes are only ever appended, and a child is
 * always created after its parent, so every child index is larger than its parent's.
 *
 * This module holds the data model and the two backup passes as specification
 * functions on arenas: `Backed`/`Recomputed` for `backup_values`, and `ToRoot` for
 * `backup_to_root`, with the lemmas that say what each pass establishes.
 */
module Arena {
  import opened Discount
  import opened LeafSet

  datatype Option<T> = None | Some(value: T)

  /** What one oracle call reports: the next state, the reward and the end-of-episode flag. */
  datatype Transition<S> = Transition(next: S, reward: real, done: bool)

  /** One tree node (DeterministicNode) with the fields the planner reads and writes. */
  datatype Node<S> = Node(
    parent: Option<nat>,
    children: seq<nat>,
    state: Option<S>,
    depth: nat,
    reward: real,
    value: real,
    upper: real,
    count: nat,
    done: bool)

  /** Every child index points to a node created after its parent. */
  ghost predicate WellFormed<S>(a: seq<Node<S>>) {
    forall j, k :: 0 <= j < |a| && 0 <= k < |a[j].children| ==> j < a[j].children[k] < |a|
  }

  /**
   * The tree links are coherent: children come after their parent, and a node with a
   * parent sits one level below it, after it, and that parent has been expanded.
   */
  ghost predicate Coherent<S>(a: seq<Node<S>>) {
    WellFormed(a) &&
    forall j :: 0 <= j < |a| && a[j].parent.Some? ==>
      var p := a[j].parent.value;
      p < j && a[p].children != [] && a[j].depth == a[p].depth + 1
  }

  /** The node without the three fields the backups rewrite. */
  function Shape<S>(x: Node<S>): Node<S> {
    x.(value := 0.0, upper := 0.0, count := 0)
  }

  /** Two arenas that differ at most in values, bounds and visit counts. */
  ghost predicate SameShape<S>(a: seq<Node<S>>, b: seq<Node<S>>) {
    |a| == |b| && forall j :: 0 <= j < |a| ==> Shape(a[j]) == Shape(b[j])
  }

  /** Same shape, and the childless nodes also keep their value and bound. */
  ghost predicate SameSkeleton<S>(a: seq<Node<S>>, b: seq<Node<S>>) {
    SameShape(a, b) &&
    forall j :: 0 <= j < |a| && a[j].children == [] ==> a[j].value == b[j].value && a[j].upper == b[j].upper
  }

  lemma SameShapeCoherent<S>(a: seq<Node<S>>, b: seq<Node<S>>)
    requires SameShape(a, b) && Coherent(a)
    ensures Coherent(b)
  {
    forall j | 0 <= j < |b|
      ensures b[j].children == a[j].children && b[j].parent == a[j].parent && b[j].depth == a[j].depth
    {
      assert Shape(a[j]) == Shape(b[j]);
    }
  }

  /** The values of the children of node j, in action order. */
  function ChildValues<S>(a: seq<Node<S>>, j: nat): (vs: seq<real>)
    requires WellFormed(a) && j < |a|
    ensures |vs| == |a[j].children|
  {
    seq(|a[j].children|, k requires 0 <= k < |a[j].children| => a[a[j].children[k]].value)
  }

  /** The optimistic bounds of the children of node j, in action order. */
  function ChildUppers<S>(a: seq<Node<S>>, j: nat): (us: seq<real>)
    requires WellFormed(a) && j < |a|
    ensures |us| == |a[j].children|
  {
    seq(|a[j].children|, k requires 0 <= k < |a[j].children| => a[a[j].children[k]].upper)
  }

  function Firsts(ps: seq<(real, real)>): (r: seq<real>)
    ensures |r| == |ps| && forall k :: 0 <= k < |ps| ==> r[k] == ps[k].0
  {
    seq(|ps|, k requires 0 <= k < |ps| => ps[k].0)
  }

  function Seconds(ps: seq<(real, real)>): (r: seq<real>)
    ensures |r| == |ps| && forall k :: 0 <= k < |ps| ==> r[k] == ps[k].1
  {
    seq(|ps|, k requires 0 <= k < |ps| => ps[k].1)
  }

  // ---------------------------------------------------------------------------
  // backup_values: the full bottom-up recomputation below a node
  // ---------------------------------------------------------------------------

  /**
   * The pair (value, bound) backup_values returns for node i: the node's own pair
   * when it has no children, otherwise the maxima over the pairs of its children.
   */
  function Backed<S>(a: seq<Node<S>>, i: nat): (real, real)
    requires WellFormed(a) && i < |a|
    decreases |a| - i, 1, 0
  {
    if a[i].children == [] then (a[i].value, a[i].upper)
    else
      var ps := BackedChildren(a, i, |a[i].children|);
      (Max(Firsts(ps)), Max(Seconds(ps)))
  }

  /** The backed-up pairs of the first k children of node i. */
  function BackedChildren<S>(a: seq<Node<S>>, i: nat, k: nat): (ps: seq<(real, real)>)
    requires WellFormed(a) && i < |a| && k <= |a[i].children|
    ensures |ps| == k
    decreases |a| - i, 0, k
  {
    if k == 0 then [] else BackedChildren(a, i, k - 1) + [Backed(a, a[i].children[k - 1])]
  }

  /** The nodes below and including i. */
  ghost function Subtree<S>(a: seq<Node<S>>, i: nat): set<nat>
    requires WellFormed(a) && i < |a|
    decreases |a| - i, 1, 0
  {
    {i} + Descendants(a, i, |a[i].children|)
  }

  /** The nodes below the first k children of i, those children included. */
  ghost function Descendants<S>(a: seq<Node<S>>, i: nat, k: nat): set<nat>
    requires WellFormed(a) && i < |a| && k <= |a[i].children|
    decreases |a| - i, 0, k
  {
    if k == 0 then {} else Descendants(a, i, k - 1) + Subtree(a, a[i].children[k - 1])
  }

  /** The arena after every node of d that has children took its backed-up pair. */
  ghost function Recomputed<S>(a: seq<Node<S>>, d: set<nat>): (b: seq<Node<S>>)
    requires WellFormed(a)
    ensures |b| == |a|
  {
    seq(|a|, j requires 0 <= j < |a| =>
      if j in d && a[j].children != [] then a[j].(value := Backed(a, j).0, upper := Backed(a, j).1)
      else a[j])
  }

  /** Nodes of a subtree are never above its top, and descendants are strictly below. */
  lemma {:induction false} SubtreeBelow<S>(a: seq<Node<S>>, i: nat)
    requires WellFormed(a) && i < |a|
    ensures forall j :: j in Subtree(a, i) ==> i <= j < |a|
    decreases |a| - i, 1, 0
  {
    DescendantsBelow(a, i, |a[i].children|);
  }

  lemma {:induction false} DescendantsBelow<S>(a: seq<Node<S>>, i: nat, k: nat)
    requires WellFormed(a) && i < |a| && k <= |a[i].children|
    ensures forall j :: j in Descendants(a, i, k) ==> i < j < |a|
    decreases |a| - i, 0, k
  {
    if k > 0 {
      DescendantsBelow(a, i, k - 1);
      SubtreeBelow(a, a[i].children[k - 1]);
    }
  }

  /** A subtree contains the subtrees of all children of its nodes. */
  lemma {:induction false} SubtreeClosed<S>(a: seq<Node<S>>, i: nat, j: nat, k: nat)
    requires WellFormed(a) && i < |a| && j < |a| && j in Subtree(a, i) && k < |a[j].children|
    ensures Subtree(a, a[j].children[k]) <= Subtree(a, i)
    decreases |a| - i, 1, 0
  {
    SubtreeBelow(a, i);
    if j == i {
      DescendantsCover(a, i, |a[i].children|, k);
    } else {
      var c := DescendantsWitness(a, i, |a[i].children|, j);
      SubtreeClosed(a, c, j, k);
      DescendantsCover(a, i, |a[i].children|, FirstIndex(a[i].children, c));
    }
  }

  /** k-th child's subtree lies within the descendants of the first m > k children. */
  lemma {:induction false} DescendantsCover<S>(a: seq<Node<S>>, i: nat, m: nat, k: nat)
    requires WellFormed(a) && i < |a| && k < m <= |a[i].children|
    ensures Subtree(a, a[i].children[k]) <= Descendants(a, i, m)
    decreases m
  {
    if k < m - 1 {
      DescendantsCover(a, i, m - 1, k);
    }
  }

  /** A descendant lies in the subtree of one of the children. */
  lemma {:induction false} DescendantsWitness<S>(a: seq<Node<S>>, i: nat, m: nat, j: nat) returns (c: nat)
    requires WellFormed(a) && i < |a| && m <= |a[i].children| && j in Descendants(a, i, m)
    ensures c in a[i].children[..m] && c < |a| && j in Subtree(a, c)
    decreases m
  {
    if j in Subtree(a, a[i].children[m - 1]) {
      c := a[i].children[m - 1];
    } else {
      c := DescendantsWitness(a, i, m - 1, j);
      assert a[i].children[..m - 1] <= a[i].children[..m];
    }
  }


  /**
   * The backed-up pairs and the subtrees depend only on the shape of the arena and on
   * the values of its childless nodes.
   */
  lemma {:induction false} BackedFrame<S>(a: seq<Node<S>>, b: seq<Node<S>>, i: nat)
    requires WellFormed(a) && WellFormed(b) && SameSkeleton(a, b) && i < |a|
    ensures Backed(a, i) == Backed(b, i) && Subtree(a, i) == Subtree(b, i)
    decreases |a| - i, 1, 0
  {
    assert Shape(a[i]) == Shape(b[i]);
    BackedChildrenFrame(a, b, i, |a[i].children|);
  }

  lemma {:induction false} BackedChildrenFrame<S>(a: seq<Node<S>>, b: seq<Node<S>>, i: nat, k: nat)
    requires WellFormed(a) && WellFormed(b) && SameSkeleton(a, b) && i < |a|
    requires k <= |a[i].children| && a[i].children == b[i].children
    ensures BackedChildren(a, i, k) == BackedChildren(b, i, k)
    ensures Descendants(a, i, k) == Descendants(b, i, k)
    decreases |a| - i, 0, k
  {
    if k > 0 {
      BackedChildrenFrame(a, b, i, k - 1);
      BackedFrame(a, b, a[i].children[k - 1]);
    }
  }

  /** The subtrees depend only on the links. */
  lemma {:induction false} SubtreeFrame<S>(a: seq<Node<S>>, b: seq<Node<S>>, i: nat)
    requires WellFormed(a) && WellFormed(b) && SameShape(a, b) && i < |a|
    ensures Subtree(a, i) == Subtree(b, i)
    decreases |a| - i, 1, 0
  {
    assert Shape(a[i]) == Shape(b[i]);
    DescendantsFrame(a, b, i, |a[i].children|);
  }

  lemma {:induction false} DescendantsFrame<S>(a: seq<Node<S>>, b: seq<Node<S>>, i: nat, k: nat)
    requires WellFormed(a) && WellFormed(b) && SameShape(a, b) && i < |a|
    requires k <= |a[i].children| && a[i].children == b[i].children
    ensures Descendants(a, i, k) == Descendants(b, i, k)
    decreases |a| - i, 0, k
  {
    if k > 0 {
      DescendantsFrame(a, b, i, k - 1);
      SubtreeFrame(a, b, a[i].children[k - 1]);
    }
  }

  /** Recomputing keeps the shape, and childless nodes keep their value and bound. */
  lemma RecomputedSkeleton<S>(a: seq<Node<S>>, d: set<nat>)
    requires WellFormed(a)
    ensures SameSkeleton(a, Recomputed(a, d)) && WellFormed(Recomputed(a, d))
  {
    var b := Recomputed(a, d);
    forall j | 0 <= j < |a|
      ensures Shape(a[j]) == Shape(b[j])
    {
    }
  }

  /** Recomputing over d1 and then over d2 is recomputing over both at once. */
  lemma RecomputedTwice<S>(a: seq<Node<S>>, d1: set<nat>, d2: set<nat>)
    requires WellFormed(a)
    ensures WellFormed(Recomputed(a, d1))
    ensures Recomputed(Recomputed(a, d1), d2) == Recomputed(a, d1 + d2)
  {
    var b := Recomputed(a, d1);
    RecomputedSkeleton(a, d1);
    forall j | 0 <= j < |a|
      ensures Recomputed(b, d2)[j] == Recomputed(a, d1 + d2)[j]
    {
      assert Shape(a[j]) == Shape(b[j]);
      BackedFrame(a, b, j);
    }
  }

  /** After a recomputation the top of the subtree holds its backed-up pair. */
  lemma RecomputedTop<S>(a: seq<Node<S>>, i: nat)
    requires WellFormed(a) && i < |a|
    ensures Recomputed(a, Subtree(a, i))[i].value == Backed(a, i).0
    ensures Recomputed(a, Subtree(a, i))[i].upper == Backed(a, i).1
  {
  }

  /** Recomputing nothing changes nothing. */
  lemma RecomputedNothing<S>(a: seq<Node<S>>, i: nat)
    requires WellFormed(a) && i < |a|
    ensures Recomputed(a, Descendants(a, i, 0)) == a
  {
  }

  /** Writing a node's value and bound keeps the shape. */
  lemma WriteValuesShape<S>(a: seq<Node<S>>, i: nat, v: real, u: real)
    requires i < |a|
    ensures SameShape(a, a[i := a[i].(value := v, upper := u)])
  {
    assert forall j :: 0 <= j < |a| ==> Shape(a[i := a[i].(value := v, upper := u)][j]) == Shape(a[j]);
  }

  /** A visit changes only a count. */
  lemma VisitShape<S>(a: seq<Node<S>>, i: nat)
    requires i < |a|
    ensures SameShape(a, Visit(a, i))
  {
    assert forall j :: 0 <= j < |a| ==> Shape(Visit(a, i)[j]) == Shape(a[j]);
  }

  /** A recomputation keeps every node's links, so the children of i are as before. */
  lemma RecomputedLinks<S>(a: seq<Node<S>>, d: set<nat>, i: nat)
    requires WellFormed(a) && i < |a|
    ensures WellFormed(Recomputed(a, d)) && SameShape(a, Recomputed(a, d))
    ensures Recomputed(a, d)[i].children == a[i].children
  {
    RecomputedSkeleton(a, d);
    assert Shape(a[i]) == Shape(Recomputed(a, d)[i]);
  }

  /**
   * One turn of the comprehension over the children of i: backing up the subtree of
   * child k after the first k extends both the recomputed set and the list of pairs.
   */
  lemma BackedChildrenStep<S>(a: seq<Node<S>>, b: seq<Node<S>>, c: seq<Node<S>>, i: nat, k: nat, q: (real, real))
    requires WellFormed(a) && i < |a| && k < |a[i].children|
    requires b == Recomputed(a, Descendants(a, i, k)) && WellFormed(b) && a[i].children[k] < |b|
    requires c == Recomputed(b, Subtree(b, a[i].children[k])) && q == Backed(b, a[i].children[k])
    ensures c == Recomputed(a, Descendants(a, i, k + 1))
    ensures BackedChildren(a, i, k) + [q] == BackedChildren(a, i, k + 1)
  {
    RecomputedSkeleton(a, Descendants(a, i, k));
    BackedFrame(a, b, a[i].children[k]);
    RecomputedTwice(a, Descendants(a, i, k), Subtree(a, a[i].children[k]));
  }

  /** The recomputation of the subtree of a childless node changes nothing. */
  lemma RecomputedLeaf<S>(a: seq<Node<S>>, i: nat)
    requires WellFormed(a) && i < |a| && a[i].children == []
    ensures Recomputed(a, Subtree(a, i)) == a
  {
    assert Subtree(a, i) == {i};
    var c := Recomputed(a, {i});
    forall j | 0 <= j < |a|
      ensures c[j] == a[j]
    {
    }
  }

  /**
   * The recomputation of a subtree is the recomputation of the subtrees below its
   * top, followed by writing the top's backed-up pair.
   */
  lemma RecomputedSplit<S>(a: seq<Node<S>>, i: nat)
    requires WellFormed(a) && i < |a| && a[i].children != []
    ensures var b := Recomputed(a, Descendants(a, i, |a[i].children|));
      Recomputed(a, Subtree(a, i)) == b[i := b[i].(value := Backed(a, i).0, upper := Backed(a, i).1)]
  {
    var d := Descendants(a, i, |a[i].children|);
    DescendantsBelow(a, i, |a[i].children|);
    var c := Recomputed(a, {i} + d);
    var b := Recomputed(a, d);
    var x := b[i].(value := Backed(a, i).0, upper := Backed(a, i).1);
    forall j | 0 <= j < |a|
      ensures c[j] == b[i := x][j]
    {
      if j == i {
        assert i !in d;
      }
    }
  }

  /**
   * backup_values is idempotent: recomputing the subtree of i a second time, on the
   * arena the first pass produced, changes nothing and returns the same pair.
   */
  lemma BackupValuesIdempotent<S>(a: seq<Node<S>>, i: nat)
    requires WellFormed(a) && i < |a|
    ensures WellFormed(Recomputed(a, Subtree(a, i)))
    ensures var b := Recomputed(a, Subtree(a, i));
      Recomputed(b, Subtree(b, i)) == b && Backed(b, i) == Backed(a, i)
  {
    var d := Subtree(a, i);
    var b := Recomputed(a, d);
    RecomputedTwice(a, d, d);
    assert d + d == d;
    BackedFrame(a, b, i);
  }

  /**
   * After backup_values on node i, every node of the subtree that has children holds
   * the maximum of its children's values and the maximum of its children's bounds.
   */
  lemma RecomputedConsistent<S>(a: seq<Node<S>>, i: nat, j: nat)
    requires WellFormed(a) && i < |a| && j < |a| && j in Subtree(a, i) && a[j].children != []
    ensures WellFormed(Recomputed(a, Subtree(a, i)))
    ensures var b := Recomputed(a, Subtree(a, i));
      j < |b| && b[j].value == Max(ChildValues(b, j)) && b[j].upper == Max(ChildUppers(b, j))
  {
    var d := Subtree(a, i);
    var b := Recomputed(a, d);
    RecomputedSkeleton(a, d);
    SubtreeBelow(a, i);
    var ps := BackedChildren(a, j, |a[j].children|);
    forall k | 0 <= k < |a[j].children|
      ensures ChildValues(b, j)[k] == Firsts(ps)[k] && ChildUppers(b, j)[k] == Seconds(ps)[k]
    {
      SubtreeClosed(a, i, j, k);
      BackedChildrenAt(a, j, |a[j].children|, k);
    }
    assert ChildValues(b, j) == Firsts(ps);
    assert ChildUppers(b, j) == Seconds(ps);
  }

  lemma {:induction false} BackedChildrenAt<S>(a: seq<Node<S>>, i: nat, m: nat, k: nat)
    requires WellFormed(a) && i < |a| && k < m <= |a[i].children|
    ensures BackedChildren(a, i, m)[k] == Backed(a, a[i].children[k])
    decreases m
  {
    if k < m - 1 {
      BackedChildrenAt(a, i, m - 1, k);
    }
  }

  /** Every childless node of d holds a value at most its bound. */
  ghost predicate LeavesOrdered<S>(a: seq<Node<S>>, d: set<nat>) {
    forall j :: j in d && 0 <= j < |a| && a[j].children == [] ==> a[j].value <= a[j].upper
  }

  /** Every childless node of the arena holds a value at most its bound. */
  ghost predicate ChildlessOrdered<S>(a: seq<Node<S>>) {
    forall j :: 0 <= j < |a| && a[j].children == [] ==> a[j].value <= a[j].upper
  }

  /** A subtree contains the subtree of each of its nodes. */
  lemma SubtreeWithin<S>(a: seq<Node<S>>, i: nat, j: nat)
    requires WellFormed(a) && i < |a| && j in Subtree(a, i)
    ensures j < |a| && Subtree(a, j) <= Subtree(a, i)
  {
    SubtreeBelow(a, i);
    forall x | x in Subtree(a, j)
      ensures x in Subtree(a, i)
    {
      if x != j {
        var c := DescendantsWitness(a, j, |a[j].children|, x);
        assert a[j].children[..|a[j].children|] == a[j].children;
        SubtreeClosed(a, i, j, FirstIndex(a[j].children, c));
      }
    }
  }

  /** If the childless nodes below i have value <= bound, so does the pair backed up at i. */
  lemma {:induction false} BackedOrdered<S>(a: seq<Node<S>>, i: nat)
    requires WellFormed(a) && i < |a| && LeavesOrdered(a, Subtree(a, i))
    ensures Backed(a, i).0 <= Backed(a, i).1
    decreases |a| - i, 1, 0
  {
    if a[i].children != [] {
      var ps := BackedChildren(a, i, |a[i].children|);
      BackedChildrenOrdered(a, i, |a[i].children|);
      MaxMonotone(Firsts(ps), Seconds(ps));
    }
  }

  lemma {:induction false} BackedChildrenOrdered<S>(a: seq<Node<S>>, i: nat, k: nat)
    requires WellFormed(a) && i < |a| && k <= |a[i].children| && LeavesOrdered(a, Subtree(a, i))
    ensures forall m :: 0 <= m < k ==> BackedChildren(a, i, k)[m].0 <= BackedChildren(a, i, k)[m].1
    decreases |a| - i, 0, k
  {
    if k > 0 {
      BackedChildrenOrdered(a, i, k - 1);
      DescendantsCover(a, i, |a[i].children|, k - 1);
      BackedOrdered(a, a[i].children[k - 1]);
    }
  }

  /**
   * backup_values on node i leaves every node of i's subtree with value <= bound,
   * provided the childless nodes of the subtree had that order before.
   */
  lemma RecomputedOrdered<S>(a: seq<Node<S>>, i: nat)
    requires WellFormed(a) && i < |a| && LeavesOrdered(a, Subtree(a, i))
    ensures forall j :: j in Subtree(a, i) ==>
      j < |a| && Recomputed(a, Subtree(a, i))[j].value <= Recomputed(a, Subtree(a, i))[j].upper
  {
    SubtreeBelow(a, i);
    forall j | j in Subtree(a, i)
      ensures j < |a| && Recomputed(a, Subtree(a, i))[j].value <= Recomputed(a, Subtree(a, i))[j].upper
    {
      SubtreeWithin(a, i, j);
      BackedOrdered(a, j);
    }
  }

  /** backup_values keeps every childless node as it was, so it keeps them ordered. */
  lemma RecomputedChildlessOrdered<S>(a: seq<Node<S>>, d: set<nat>)
    requires WellFormed(a) && ChildlessOrdered(a)
    ensures ChildlessOrdered(Recomputed(a, d))
  {
    RecomputedSkeleton(a, d);
    var b := Recomputed(a, d);
    forall j | 0 <= j < |b| && b[j].children == []
      ensures b[j].value <= b[j].upper
    {
      assert Shape(a[j]) == Shape(b[j]);
    }
  }

  // ---------------------------------------------------------------------------
  // backup_to_root: the pass from a node up its chain of parents
  // ---------------------------------------------------------------------------

  /** Replacing a node by one of the same shape keeps the links coherent. */
  lemma ReplaceKeepsShape<S>(a: seq<Node<S>>, j: nat, x: Node<S>)
    requires Coherent(a) && j < |a| && Shape(x) == Shape(a[j])
    ensures SameShape(a, a[j := x]) && Coherent(a[j := x])
  {
    SameShapeCoherent(a, a[j := x]);
  }

  /** The chain of nodes from i up to the first node without a parent. */
  ghost function Chain<S>(a: seq<Node<S>>, i: nat): set<nat>
    requires Coherent(a) && i < |a|
    decreases i
  {
    match a[i].parent
    case None => {i}
    case Some(p) => {i} + Chain(a, p)
  }

  lemma {:induction false} ChainBelow<S>(a: seq<Node<S>>, i: nat)
    requires Coherent(a) && i < |a|
    ensures forall j :: j in Chain(a, i) ==> j <= i
    decreases i
  {
    if a[i].parent.Some? {
      ChainBelow(a, a[i].parent.value);
    }
  }

  lemma {:induction false} ChainFrame<S>(a: seq<Node<S>>, b: seq<Node<S>>, i: nat)
    requires Coherent(a) && Coherent(b) && SameShape(a, b) && i < |a|
    ensures Chain(a, i) == Chain(b, i)
    decreases i
  {
    assert Shape(a[i]) == Shape(b[i]);
    if a[i].parent.Some? {
      ChainFrame(a, b, a[i].parent.value);
    }
  }

  /** Writing a value at p and a bound at i keeps the shape and the links. */
  lemma WriteKeepsShape<S>(a: seq<Node<S>>, p: nat, i: nat, vp: real, ui: real)
    requires Coherent(a) && p < |a| && i < |a| && p != i
    ensures var a2 := a[p := a[p].(value := vp)][i := a[i].(upper := ui)];
      SameShape(a, a2) && Coherent(a2)
  {
    var a2 := a[p := a[p].(value := vp)][i := a[i].(upper := ui)];
    forall j | 0 <= j < |a|
      ensures Shape(a[j]) == Shape(a2[j])
    {
    }
    SameShapeCoherent(a, a2);
  }

  /**
   * One step of backup_to_root at node i with parent p: p's value becomes the
   * maximum of the values of p's children and i's bound the maximum of their bounds,
   * both read before either is written.
   */
  function BackupStep<S>(a: seq<Node<S>>, i: nat): (a2: seq<Node<S>>)
    requires Coherent(a) && i < |a| && a[i].parent.Some?
    ensures SameShape(a, a2) && Coherent(a2)
    ensures var p := a[i].parent.value;
      (forall j :: 0 <= j < |a| && j != i && j != p ==> a2[j] == a[j]) &&
      a2[p] == a[p].(value := Max(ChildValues(a, p))) &&
      a2[i] == a[i].(upper := Max(ChildUppers(a, p)))
  {
    var p := a[i].parent.value;
    WriteKeepsShape(a, p, i, Max(ChildValues(a, p)), Max(ChildUppers(a, p)));
    a[p := a[p].(value := Max(ChildValues(a, p)))][i := a[i].(upper := Max(ChildUppers(a, p)))]
  }

  /**
   * The arena after backup_to_root on node i: when i has a parent p, one backup
   * step at i, then the pass continues at p, and finally i's visit count goes up
   * by one.
   */
  ghost function ToRoot<S>(a: seq<Node<S>>, i: nat): (b: seq<Node<S>>)
    requires Coherent(a) && i < |a|
    ensures |b| == |a|
    decreases i
  {
    match a[i].parent
    case None => a
    case Some(p) => Visit(ToRoot(BackupStep(a, i), p), i)
  }

  /** Node i's visit count goes up by one. */
  function Visit<S>(r: seq<Node<S>>, i: nat): (b: seq<Node<S>>)
    requires i < |r|
    ensures |b| == |r|
  {
    r[i := r[i].(count := r[i].count + 1)]
  }

  /** backup_to_root keeps the shape of the tree. */
  lemma {:induction false} ToRootShape<S>(a: seq<Node<S>>, i: nat)
    requires Coherent(a) && i < |a|
    ensures SameShape(a, ToRoot(a, i)) && Coherent(ToRoot(a, i))
    decreases i
  {
    if a[i].parent.Some? {
      var p := a[i].parent.value;
      var a2 := BackupStep(a, i);
      var r := ToRoot(a2, p);
      ToRootShape(a2, p);
      var b := ToRoot(a, i);
      forall j | 0 <= j < |a|
        ensures Shape(a[j]) == Shape(b[j])
      {
        assert Shape(a[j]) == Shape(a2[j]) == Shape(r[j]);
      }
      SameShapeCoherent(a, b);
    }
  }

  /** backup_to_root leaves every node off the chain as it was. */
  lemma {:induction false} ToRootOffChain<S>(a: seq<Node<S>>, i: nat)
    requires Coherent(a) && i < |a|
    ensures forall j :: 0 <= j < |a| && j !in Chain(a, i) ==> ToRoot(a, i)[j] == a[j]
    decreases i
  {
    if a[i].parent.Some? {
      var a2 := BackupStep(a, i);
      ToRootOffChain(a2, a[i].parent.value);
      ChainFrame(a, a2, a[i].parent.value);
    }
  }

  /** backup_to_root never writes the starting node's own value. */
  lemma ToRootOwnValue<S>(a: seq<Node<S>>, i: nat)
    requires Coherent(a) && i < |a|
    ensures ToRoot(a, i)[i].value == a[i].value
  {
    if a[i].parent.Some? {
      var p := a[i].parent.value;
      var a2 := BackupStep(a, i);
      ToRootOffChain(a2, p);
      ChainBelow(a2, p);
      assert i !in Chain(a2, p);
    }
  }

  /**
   * Every node of the chain that has a parent gains exactly one visit; the top of
   * the chain gains none.
   */
  lemma {:induction false} ToRootCounts<S>(a: seq<Node<S>>, i: nat)
    requires Coherent(a) && i < |a|
    ensures forall j :: j in Chain(a, i) ==>
      j < |a| && ToRoot(a, i)[j].count == a[j].count + (if a[j].parent.Some? then 1 else 0)
    decreases i
  {
    ChainBelow(a, i);
    if a[i].parent.Some? {
      var p := a[i].parent.value;
      var a2 := BackupStep(a, i);
      ToRootCounts(a2, p);
      ToRootOffChain(a2, p);
      ChainFrame(a, a2, p);
      ChainBelow(a, p);
      forall j | j in Chain(a, i)
        ensures j < |a| && ToRoot(a, i)[j].count == a[j].count + (if a[j].parent.Some? then 1 else 0)
      {
        assert Shape(a[j]) == Shape(a2[j]);
      }
    }
  }

  /** The top of the chain keeps its bound. */
  lemma {:induction false} ToRootTop<S>(a: seq<Node<S>>, i: nat, t: nat)
    requires Coherent(a) && i < |a| && t in Chain(a, i) && t < |a| && a[t].parent.None?
    ensures ToRoot(a, i)[t].upper == a[t].upper
    decreases i
  {
    if a[i].parent.Some? {
      var p := a[i].parent.value;
      var a2 := BackupStep(a, i);
      ChainFrame(a, a2, p);
      assert Shape(a[t]) == Shape(a2[t]);
      ToRootTop(a2, p, t);
    }
  }

  /** Above its starting node, a chain holds only nodes that have children. */
  lemma {:induction false} ChainAncestors<S>(a: seq<Node<S>>, i: nat)
    requires Coherent(a) && i < |a|
    ensures forall j :: j in Chain(a, i) && j != i ==> j < |a| && a[j].children != []
    decreases i
  {
    if a[i].parent.Some? {
      ChainAncestors(a, a[i].parent.value);
    }
  }

  /** A node among its parent's children does not lose bound in backup_to_root started at it. */
  lemma ToRootStartBound<S>(a: seq<Node<S>>, i: nat)
    requires Coherent(a) && i < |a|
    requires a[i].parent.Some? ==> a[i].parent.value < |a| && i in a[a[i].parent.value].children
    ensures a[i].upper <= ToRoot(a, i)[i].upper
  {
    if a[i].parent.Some? {
      var p := a[i].parent.value;
      var a2 := BackupStep(a, i);
      ToRootOffChain(a2, p);
      ChainBelow(a2, p);
      assert i !in Chain(a2, p);
      var r := ToRoot(a2, p);
      assert ToRoot(a, i) == Visit(r, i);
      assert r[i] == a2[i];
      var k :| 0 <= k < |a[p].children| && a[p].children[k] == i;
      var us := ChildUppers(a, p);
      assert us[k] == a[i].upper && us[k] in us;
      assert a2[i].upper == Max(us);
    }
  }

  /**
   * backup_to_root from a node that is among its parent's children keeps every
   * childless node with value <= bound: the only childless node it can write is the
   * starting one, whose bound becomes the largest bound among its siblings and itself.
   * (A node left behind when a re-expansion refiled its parent's actions is not among
   * its parent's children, and then its bound can drop below its value.)
   */
  lemma ToRootChildlessOrdered<S>(a: seq<Node<S>>, i: nat)
    requires Coherent(a) && i < |a| && ChildlessOrdered(a)
    requires a[i].parent.Some? ==> a[i].parent.value < |a| && i in a[a[i].parent.value].children
    ensures ChildlessOrdered(ToRoot(a, i))
  {
    var b := ToRoot(a, i);
    ToRootShape(a, i);
    ToRootOffChain(a, i);
    ToRootOwnValue(a, i);
    ToRootStartBound(a, i);
    ChainAncestors(a, i);
    forall j | 0 <= j < |b| && b[j].children == []
      ensures b[j].value <= b[j].upper
    {
      assert Shape(a[j]) == Shape(b[j]);
    }
  }

  /**
   * Node j agrees with its parent p in the way backup_to_root leaves them: p's value
   * is the maximum of the values of p's children and j's bound is the maximum of
   * their bounds.
   */
  ghost predicate ParentBacked<S>(b: seq<Node<S>>, j: nat)
    requires WellFormed(b) && j < |b|
  {
    match b[j].parent
    case None => true
    case Some(p) =>
      p < |b| && b[p].children != [] &&
      b[p].value == Max(ChildValues(b, p)) && b[j].upper == Max(ChildUppers(b, p))
  }

  /** At the starting node: the parent's value and the node's bound are the maxima. */
  lemma ToRootFirstStep<S>(a: seq<Node<S>>, i: nat)
    requires Coherent(a) && i < |a|
    ensures Coherent(ToRoot(a, i)) && ParentBacked(ToRoot(a, i), i)
  {
    ToRootShape(a, i);
    if a[i].parent.Some? {
      var b := ToRoot(a, i);
      var p := a[i].parent.value;
      var a2 := BackupStep(a, i);
      var r := ToRoot(a2, p);
      ToRootOffChain(a2, p);
      ToRootOwnValue(a2, p);
      ChainBelow(a2, p);
      assert b == Visit(r, i);
      assert i !in Chain(a2, p);
      assert Shape(b[i]) == Shape(a[i]) && Shape(b[p]) == Shape(a[p]);
      forall k | 0 <= k < |a[p].children|
        ensures b[a[p].children[k]].value == a[a[p].children[k]].value
        ensures a[p].children[k] != i ==> b[a[p].children[k]].upper == a[a[p].children[k]].upper
      {
        assert a[p].children[k] !in Chain(a2, p);
      }
      assert ChildValues(b, p) == ChildValues(a, p);
      MaxOfRaised(ChildUppers(a, p), ChildUppers(b, p), Max(ChildUppers(a, p)));
    }
  }

  /** A visit changes no value and no bound. */
  lemma VisitKeepsBacked<S>(r: seq<Node<S>>, i: nat, j: nat)
    requires WellFormed(r) && i < |r| && j < |r| && ParentBacked(r, j)
    ensures WellFormed(Visit(r, i)) && ParentBacked(Visit(r, i), j)
  {
    var b := Visit(r, i);
    if r[j].parent.Some? {
      var q := r[j].parent.value;
      assert ChildValues(b, q) == ChildValues(r, q);
      assert ChildUppers(b, q) == ChildUppers(r, q);
    }
  }

  lemma VisitKeepsChain<S>(r: seq<Node<S>>, i: nat, js: set<nat>)
    requires WellFormed(r) && i < |r|
    requires forall j :: j in js ==> j < |r| && ParentBacked(r, j)
    ensures WellFormed(Visit(r, i))
    ensures forall j :: j in js ==> j < |r| && ParentBacked(Visit(r, i), j)
  {
    forall j | j in js
      ensures j < |r| && ParentBacked(Visit(r, i), j)
    {
      VisitKeepsBacked(r, i, j);
    }
  }

  /**
   * What backup_to_root establishes along the chain: for every node j of the chain
   * with a parent p, p's value is the maximum of the values of p's children, and j's
   * bound is the maximum of the bounds of p's children (its siblings and itself).
   */
  lemma {:induction false} ToRootConsistent<S>(a: seq<Node<S>>, i: nat)
    requires Coherent(a) && i < |a|
    ensures Coherent(ToRoot(a, i))
    ensures forall j :: j in Chain(a, i) ==> j < |a| && ParentBacked(ToRoot(a, i), j)
    decreases i
  {
    ToRootFirstStep(a, i);
    if a[i].parent.Some? {
      var p := a[i].parent.value;
      var a2 := BackupStep(a, i);
      var r := ToRoot(a2, p);
      ToRootConsistent(a2, p);
      ChainFrame(a, a2, p);
      assert ToRoot(a, i) == Visit(r, i);
      VisitKeepsChain(r, i, Chain(a2, p));
      forall j | j in Chain(a, i)
        ensures j < |a| && ParentBacked(ToRoot(a, i), j)
      {
        if j != i {
          assert j in Chain(a2, p);
        }
      }
    }
  }

  // ---------------------------------------------------------------------------
  // Creating, updating and detaching nodes
  // ---------------------------------------------------------------------------

  /** A node as DeterministicNode.__init__ leaves it: no children, no reward yet, one visit. */
  function NewNode<S>(parent: Option<nat>, state: Option<S>, depth: nat): (x: Node<S>)
    ensures x.parent == parent && x.state == state && x.depth == depth && x.children == []
    ensures x.reward == 0.0 && x.value == 0.0 && x.upper == 0.0 && x.count == 1 && !x.done
  {
    Node(parent, [], state, depth, 0.0, 0.0, 0.0, 1, false)
  }

  /**
   * The children after `children[k] = x` on a dictionary whose keys are 0 .. |ch|-1:
   * an existing key keeps its place and gets the new child, a new key k == |ch| is
   * added at the end.
   */
  function SetChild(ch: seq<nat>, k: nat, x: nat): (r: seq<nat>)
    requires k <= |ch|
    ensures |r| == (if k < |ch| then |ch| else k + 1) && r[k] == x
    ensures forall j :: 0 <= j < |ch| && j != k ==> r[j] == ch[j]
  {
    if k < |ch| then ch[k := x] else ch + [x]
  }

  /**
   * The children of a node whose first m actions were given fresh children base,
   * base + 1, ..., base + m - 1; keys beyond m keep their old child.
   */
  function Overlay(ch: seq<nat>, base: nat, m: nat): (r: seq<nat>)
    ensures |r| == (if m < |ch| then |ch| else m)
    ensures forall k :: 0 <= k < |r| ==> r[k] == if k < m then base + k else ch[k]
  {
    seq(if m < |ch| then |ch| else m, k requires 0 <= k < (if m < |ch| then |ch| else m) =>
      if k < m then base + k else ch[k])
  }

  /** Adding the child of action m extends the overlay by one action. */
  lemma OverlayStep(ch: seq<nat>, base: nat, m: nat)
    ensures m <= |Overlay(ch, base, m)|
    ensures SetChild(Overlay(ch, base, m), m, base + m) == Overlay(ch, base, m + 1)
  {
  }

  /** The overlay of a first expansion is exactly the list of fresh children. */
  lemma OverlayAll(ch: seq<nat>, base: nat, m: nat)
    requires |ch| <= m
    ensures Overlay(ch, base, m) == seq(m, k requires 0 <= k < m => base + k)
  {
  }

  /** Node replaced by one with the same links: still coherent. */
  lemma SameLinksCoherent<S>(a: seq<Node<S>>, j: nat, x: Node<S>)
    requires Coherent(a) && j < |a|
    requires x.parent == a[j].parent && x.children == a[j].children && x.depth == a[j].depth
    ensures Coherent(a[j := x])
  {
  }

  /** Appending a fresh child of i, filed under action k of i: still coherent. */
  lemma AddChildCoherent<S>(a: seq<Node<S>>, i: nat, k: nat, x: Node<S>)
    requires Coherent(a) && i < |a| && k <= |a[i].children|
    requires x.parent == Some(i) && x.children == [] && x.depth == a[i].depth + 1
    ensures Coherent(a[i := a[i].(children := SetChild(a[i].children, k, |a|))] + [x])
  {
    var b := a[i := a[i].(children := SetChild(a[i].children, k, |a|))] + [x];
    forall j, m | 0 <= j < |b| && 0 <= m < |b[j].children|
      ensures j < b[j].children[m] < |b|
    {
      if j == i && m != k {
        assert b[j].children[m] == a[j].children[m];
      }
    }
  }

  /** Appending a node without parent and children: still coherent. */
  lemma AddRootCoherent<S>(a: seq<Node<S>>, x: Node<S>)
    requires Coherent(a) && x.parent.None? && x.children == []
    ensures Coherent(a + [x])
  {
  }

  /** Cutting a node loose from its parent: still coherent. */
  lemma DetachCoherent<S>(a: seq<Node<S>>, j: nat)
    requires Coherent(a) && j < |a|
    ensures Coherent(a[j := a[j].(parent := None)])
  {
  }

  /**
   * The node after `update(reward, done)` below a parent whose value is
   * parentValue: value parentValue + g^(depth-1) reward, and the optimistic bound
   * that adds g^depth / (1 - g) unless the transition ended the episode.
   */
  function Updated<S>(g: real, x: Node<S>, parentValue: real, reward: real, done: bool): (y: Node<S>)
    requires 0.0 < g < 1.0 && x.depth >= 1
    ensures Shape(y) == Shape(x).(reward := reward, done := done)
  {
    var v := parentValue + Pow(g, x.depth - 1) * reward;
    x.(reward := reward, value := v, done := done, upper := UpperBound(g, v, x.depth, done))
  }
}
