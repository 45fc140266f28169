/**
 * Discounted-return arithmetic of Open-Loop Optimistic Planning: powers of the
 * discount factor, the maximum of a list of estimates (np.amax on scalars), the
 * optimistic upper bound attached to a node, and the rescaling applied when the
 * tree is re-rooted.
 */
module Discount {

  /** x raised to the natural power k (Python's `gamma ** k`). */
  function Pow(x: real, k: nat): (r: real)
    ensures 0.0 < x ==> 0.0 < r
  {
    if k == 0 then 1.0 else Pow(x, k - 1) * x
  }

  /** Multiplying by a factor in [0, 1] does not increase a non-negative number. */
  lemma ScaleDown(x: real, y: real)
    requires 0.0 <= x <= 1.0 && 0.0 <= y
    ensures 0.0 <= y * x <= y
  {
    assert y - y * x == y * (1.0 - x);
  }

  /** The geometric identity p + g p / (1 - g) == p / (1 - g). */
  lemma GeometricStep(g: real, p: real)
    requires g < 1.0
    ensures p + g * p / (1.0 - g) == p / (1.0 - g)
  {
    var q := 1.0 - g;
    assert g * p / q == (p - p * q) / q;
    assert (p - p * q) / q == p / q - p;
  }

  /** A non-negative number divided by a positive one is non-negative. */
  lemma DivNonNegative(x: real, y: real)
    requires 0.0 <= x && 0.0 < y
    ensures 0.0 <= x / y
  {
    assert x / y * y == x;
  }

  /** One step of a bounded sum: a weight times a normalised reward, plus a bounded rest. */
  lemma WeightedStepBelow(p: real, h: real, rest: real, bound: real)
    requires 0.0 <= p && 0.0 <= h <= 1.0 && 0.0 <= rest <= bound
    ensures 0.0 <= p * h + rest <= p + bound
  {
    ScaleDown(h, p);
  }

  /** The most a normalised reward sequence can return from exponent d on: g^d / (1 - g). */
  function Tail(g: real, d: nat): real
    requires 0.0 < g < 1.0
  {
    Pow(g, d) / (1.0 - g)
  }

  /** The tail is non-negative and splits into its first term and the next tail. */
  lemma TailUnfold(g: real, d: nat)
    requires 0.0 < g < 1.0
    ensures 0.0 <= Tail(g, d + 1)
    ensures Tail(g, d) == Pow(g, d) + Tail(g, d + 1)
  {
    var p := Pow(g, d);
    assert Pow(g, d + 1) == g * p;
    GeometricStep(g, p);
    DivNonNegative(g * p, 1.0 - g);
  }

  /** The largest element of a non-empty list of estimates. */
  function Max(s: seq<real>): (m: real)
    requires |s| > 0
    ensures m in s
    ensures forall x :: x in s ==> x <= m
  {
    if |s| == 1 then s[0]
    else
      var m0 := Max(s[1..]);
      assert forall x :: x in s ==> x == s[0] || x in s[1..];
      if s[0] < m0 then m0 else s[0]
  }

  /** Pointwise smaller lists have a smaller maximum. */
  lemma MaxMonotone(s: seq<real>, t: seq<real>)
    requires |s| == |t| > 0
    requires forall k :: 0 <= k < |s| ==> s[k] <= t[k]
    ensures Max(s) <= Max(t)
  {
    var k :| 0 <= k < |s| && s[k] == Max(s);
    assert t[k] in t;
  }

  /**
   * Replacing some elements of a list by its maximum leaves the maximum unchanged.
   * This is what lets a node's bound be overwritten by the maximum over a list that
   * contains that very bound.
   */
  lemma MaxOfRaised(s: seq<real>, t: seq<real>, u: real)
    requires |s| > 0 && |t| == |s| && u == Max(s)
    requires forall k :: 0 <= k < |s| ==> t[k] == s[k] || t[k] == u
    ensures Max(t) == u
  {
    var k :| 0 <= k < |t| && t[k] == Max(t);
    assert s[k] in s;
    var k0 :| 0 <= k0 < |s| && s[k0] == u;
    assert t[k0] in t;
  }

  /** Every element lies in [0, 1]: the normalisation the planner assumes of rewards. */
  ghost predicate Normalized(rs: seq<real>) {
    forall k :: 0 <= k < |rs| ==> 0.0 <= rs[k] <= 1.0
  }

  /**
   * The discounted return of the rewards rs collected one after another, the first
   * one weighted by g^d: g^d rs[0] + g^(d+1) rs[1] + ...
   */
  function Return(g: real, d: nat, rs: seq<real>): real
    decreases |rs|
  {
    if rs == [] then 0.0 else Pow(g, d) * rs[0] + Return(g, d + 1, rs[1..])
  }

  /** Any normalised reward sequence started at exponent d returns at most g^d / (1 - g). */
  lemma {:induction false} ReturnBelowTail(g: real, d: nat, rs: seq<real>)
    requires 0.0 < g < 1.0 && Normalized(rs)
    ensures 0.0 <= Return(g, d, rs) <= Tail(g, d)
    decreases |rs|
  {
    TailUnfold(g, d);
    if rs != [] {
      ReturnBelowTail(g, d + 1, rs[1..]);
      WeightedStepBelow(Pow(g, d), rs[0], Return(g, d + 1, rs[1..]), Tail(g, d + 1));
    }
  }

  /** Moving the start of a return one step later multiplies it by g. */
  lemma {:induction false} ReturnShift(g: real, d: nat, rs: seq<real>)
    ensures Return(g, d + 1, rs) == g * Return(g, d, rs)
    decreases |rs|
  {
    if rs != [] {
      ReturnShift(g, d + 1, rs[1..]);
      assert Pow(g, d + 1) == g * Pow(g, d);
    }
  }

  /**
   * The optimistic bound of a node whose discounted value is `value` at depth
   * `depth`: the value plus g^depth / (1 - g) (reward 1 forever from there on),
   * or the value alone when the node's transition ended the episode.
   */
  function UpperBound(g: real, value: real, depth: nat, done: bool): real
    requires 0.0 < g < 1.0
  {
    value + (if done then 0.0 else Tail(g, depth))
  }

  /**
   * The bound is sound and optimistic: it is at least the value, equals it on a
   * terminal node, and no normalised continuation of the path collects more.
   */
  lemma BoundIsOptimistic(g: real, value: real, depth: nat, done: bool, rs: seq<real>)
    requires 0.0 < g < 1.0 && Normalized(rs)
    ensures value <= UpperBound(g, value, depth, done)
    ensures done ==> UpperBound(g, value, depth, done) == value
    ensures !done ==> value + Return(g, depth, rs) <= UpperBound(g, value, depth, done)
  {
    ReturnBelowTail(g, depth, rs);
  }

  /**
   * A node one step deeper whose value exceeds that of a non-terminal node at depth
   * d by at most g^d never has a larger bound than that node.
   */
  lemma DeeperBoundWithin(g: real, value: real, d: nat, gain: real, childDone: bool)
    requires 0.0 < g < 1.0 && 0.0 <= gain <= Pow(g, d)
    ensures UpperBound(g, value + gain, d + 1, childDone) <= UpperBound(g, value, d, false)
  {
    TailUnfold(g, d);
  }

  /** The rescaling of a cached estimate when the tree is re-rooted: (v - r) / g. */
  function Rescale(g: real, v: real, r: real): real
    requires g != 0.0
  {
    (v - r) / g
  }

  /**
   * Rescaling removes the first reward and one discount step from a return:
   * (r0 + g r1 + g^2 r2 + ... - r0) / g == r1 + g r2 + ...
   */
  lemma RescaleDropsFirstReward(g: real, r0: real, rs: seq<real>)
    requires g != 0.0
    ensures Rescale(g, Return(g, 0, [r0] + rs), r0) == Return(g, 0, rs)
  {
    var w := Return(g, 0, rs);
    assert ([r0] + rs)[1..] == rs;
    ReturnShift(g, 0, rs);
    assert Return(g, 0, [r0] + rs) == r0 + g * w;
    assert (r0 + g * w - r0) / g == g * w / g == w;
  }

  /** Rescaling keeps the order of two estimates, so it keeps value <= bound. */
  lemma RescaleMonotone(g: real, r: real, v: real, u: real)
    requires 0.0 < g && v <= u
    ensures Rescale(g, v, r) <= Rescale(g, u, r)
  {
    assert (u - r) / g - (v - r) / g == (u - v) / g;
  }
}
