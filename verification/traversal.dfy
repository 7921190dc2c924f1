/**
 * The node order that `backward` builds before it propagates gradients
 * (value.js:118-128, 140-147): the post-order walk of `traverse`, the
 * de-duplication by identity, and the reversal.
 */
module Traversal {
  import opened Arena

  /**
   * The nodes on which `traverse` (value.js:140-147) invokes its callback, in call
   * order: first the walk of every `Value` operand, in `_op` order, then the node
   * itself. A node reachable along several paths occurs once per path.
   */
  function Visits(nodes: seq<Node>, v: nat): (r: seq<nat>)
    requires WellFormed(nodes) && v < |nodes|
    ensures |r| > 0 && r[|r| - 1] == v
    ensures forall x :: x in r ==> x <= v
    decreases v, 1
  {
    assert forall k :: 0 <= k < |Operands(nodes[v].op)| ==> IsOperand(nodes, v, Operands(nodes[v].op)[k]);
    VisitsAll(nodes, Operands(nodes[v].op), v) + [v]
  }

  /** The walks of `ops`, one after the other (the `forEach` of value.js:141). */
  function VisitsAll(nodes: seq<Node>, ops: seq<nat>, bound: nat): (r: seq<nat>)
    requires WellFormed(nodes) && bound <= |nodes|
    requires forall k :: 0 <= k < |ops| ==> ops[k] < bound
    ensures forall x :: x in r ==> x < bound
    ensures forall w :: w in ops ==> w in r
    decreases bound, 0, |ops|
  {
    if ops == [] then [] else Visits(nodes, ops[0]) + VisitsAll(nodes, ops[1..], bound)
  }

  /** `p` follows operand edges from `p[0]` down to its last node. */
  ghost predicate IsPath(nodes: seq<Node>, p: seq<nat>)
  {
    |p| > 0 &&
    (forall k :: 0 <= k < |p| ==> p[k] < |nodes|) &&
    (forall k :: 0 <= k < |p| - 1 ==> IsOperand(nodes, p[k], p[k + 1]))
  }

  /** `w` is reachable from `v` through operand edges (`v` reaches itself). */
  ghost predicate Reaches(nodes: seq<Node>, v: nat, w: nat)
  {
    exists p :: IsPath(nodes, p) && p[0] == v && p[|p| - 1] == w
  }

  /** Every node of `s` is in the arena, and its operands occur earlier in `s`. */
  ghost predicate PostOrdered(nodes: seq<Node>, s: seq<nat>)
  {
    (forall k :: 0 <= k < |s| ==> s[k] < |nodes|) &&
    (forall k, w :: 0 <= k < |s| && IsOperand(nodes, s[k], w) ==> w in s[..k])
  }

  /** Each element occurs once. */
  predicate Distinct(s: seq<nat>)
  {
    forall i, j :: 0 <= i < j < |s| ==> s[i] != s[j]
  }

  lemma PostOrderedConcat(nodes: seq<Node>, s: seq<nat>, t: seq<nat>)
    requires PostOrdered(nodes, s) && PostOrdered(nodes, t)
    ensures PostOrdered(nodes, s + t)
  {
    var u := s + t;
    forall k, w | 0 <= k < |u| && IsOperand(nodes, u[k], w) ensures w in u[..k] {
      if k < |s| {
        assert u[..k] == s[..k];
      } else {
        assert u[k] == t[k - |s|];
        assert w in t[..k - |s|];
        assert u[..k] == s + t[..k - |s|];
      }
    }
  }

  lemma {:induction false} VisitsPostOrdered(nodes: seq<Node>, v: nat)
    requires WellFormed(nodes) && v < |nodes|
    ensures PostOrdered(nodes, Visits(nodes, v))
    decreases v, 1
  {
    var ops := Operands(nodes[v].op);
    assert forall k :: 0 <= k < |ops| ==> IsOperand(nodes, v, ops[k]);
    var pre := VisitsAll(nodes, ops, v);
    VisitsAllPostOrdered(nodes, ops, v);
    var r := pre + [v];
    assert r == Visits(nodes, v);
    forall k, w | 0 <= k < |r| && IsOperand(nodes, r[k], w) ensures w in r[..k] {
      if k < |pre| {
        assert r[..k] == pre[..k];
      } else {
        assert r[..k] == pre;
      }
    }
  }

  lemma {:induction false} VisitsAllPostOrdered(nodes: seq<Node>, ops: seq<nat>, bound: nat)
    requires WellFormed(nodes) && bound <= |nodes|
    requires forall k :: 0 <= k < |ops| ==> ops[k] < bound
    ensures PostOrdered(nodes, VisitsAll(nodes, ops, bound))
    decreases bound, 0, |ops|
  {
    if ops != [] {
      VisitsPostOrdered(nodes, ops[0]);
      VisitsAllPostOrdered(nodes, ops[1..], bound);
      PostOrderedConcat(nodes, Visits(nodes, ops[0]), VisitsAll(nodes, ops[1..], bound));
    }
  }

  /** Each node the walk visits is reachable from its start. */
  lemma {:induction false} VisitsReachable(nodes: seq<Node>, v: nat, w: nat)
    requires WellFormed(nodes) && v < |nodes|
    requires w in Visits(nodes, v)
    ensures Reaches(nodes, v, w)
    decreases v, 1
  {
    var ops := Operands(nodes[v].op);
    assert forall k :: 0 <= k < |ops| ==> IsOperand(nodes, v, ops[k]);
    if w == v {
      assert IsPath(nodes, [v]);
    } else {
      assert w in VisitsAll(nodes, ops, v);
      var o := VisitsAllReachable(nodes, ops, v, w);
      ReachesThrough(nodes, v, o, w);
    }
  }

  /** A node reaches whatever one of its operands reaches. */
  lemma ReachesThrough(nodes: seq<Node>, v: nat, o: nat, w: nat)
    requires v < |nodes| && IsOperand(nodes, v, o) && Reaches(nodes, o, w)
    ensures Reaches(nodes, v, w)
  {
    var p :| IsPath(nodes, p) && p[0] == o && p[|p| - 1] == w;
    var q := [v] + p;
    assert IsOperand(nodes, q[0], q[1]);
    assert forall k :: 1 <= k < |q| - 1 ==> q[k] == p[k - 1] && q[k + 1] == p[k];
    assert IsPath(nodes, q);
  }

  lemma {:induction false} VisitsAllReachable(nodes: seq<Node>, ops: seq<nat>, bound: nat, w: nat)
    returns (o: nat)
    requires WellFormed(nodes) && bound <= |nodes|
    requires forall k :: 0 <= k < |ops| ==> ops[k] < bound
    requires w in VisitsAll(nodes, ops, bound)
    ensures o in ops && o < |nodes| && Reaches(nodes, o, w)
    decreases bound, 0, |ops|
  {
    if w in Visits(nodes, ops[0]) {
      o := ops[0];
      VisitsReachable(nodes, o, w);
    } else {
      o := VisitsAllReachable(nodes, ops[1..], bound, w);
    }
  }

  /** Each node reachable from `p[0]` is visited by the walk from `p[0]`. */
  lemma {:induction false} PathVisited(nodes: seq<Node>, p: seq<nat>)
    requires WellFormed(nodes) && IsPath(nodes, p)
    ensures p[|p| - 1] in Visits(nodes, p[0])
    decreases |p|
  {
    if |p| > 1 {
      var ops := Operands(nodes[p[0]].op);
      assert IsOperand(nodes, p[0], p[1]);
      var q := p[1..];
      forall k | 0 <= k < |q| - 1 ensures IsOperand(nodes, q[k], q[k + 1]) {
        assert q[k] == p[k + 1] && q[k + 1] == p[k + 2];
      }
      assert IsPath(nodes, q);
      PathVisited(nodes, p[1..]);
      assert forall k :: 0 <= k < |ops| ==> IsOperand(nodes, p[0], ops[k]);
      VisitsAllContains(nodes, ops, p[0], p[1], p[|p| - 1]);
    }
  }

  lemma {:induction false} VisitsAllContains(nodes: seq<Node>, ops: seq<nat>, bound: nat, o: nat, w: nat)
    requires WellFormed(nodes) && bound <= |nodes|
    requires forall k :: 0 <= k < |ops| ==> ops[k] < bound
    requires o in ops && w in Visits(nodes, o)
    ensures w in VisitsAll(nodes, ops, bound)
    decreases |ops|
  {
    if o != ops[0] {
      VisitsAllContains(nodes, ops[1..], bound, o, w);
    }
  }

  /** The walk from `v` visits exactly the nodes reachable from `v`. */
  lemma VisitsExactlyReachable(nodes: seq<Node>, v: nat, w: nat)
    requires WellFormed(nodes) && v < |nodes|
    ensures w in Visits(nodes, v) <==> Reaches(nodes, v, w)
  {
    if w in Visits(nodes, v) {
      VisitsReachable(nodes, v, w);
    }
    if Reaches(nodes, v, w) {
      var p :| IsPath(nodes, p) && p[0] == v && p[|p| - 1] == w;
      PathVisited(nodes, p);
    }
  }

  /**
   * The list the `traverse` callback of `backward` builds (value.js:121-126): each
   * visited node is pushed the first time it is seen and skipped afterwards.
   */
  function Dedup(s: seq<nat>): (r: seq<nat>)
    ensures Distinct(r)
    ensures forall x :: x in r <==> x in s
  {
    if s == [] then []
    else
      var d := Dedup(s[..|s| - 1]);
      assert forall x :: x in s <==> x in s[..|s| - 1] || x == s[|s| - 1];
      if s[|s| - 1] in d then d else d + [s[|s| - 1]]
  }

  lemma {:induction false} DedupPostOrdered(nodes: seq<Node>, s: seq<nat>)
    requires PostOrdered(nodes, s)
    ensures PostOrdered(nodes, Dedup(s))
    decreases |s|
  {
    if s != [] {
      var init := s[..|s| - 1];
      var x := s[|s| - 1];
      assert forall k :: 0 <= k < |init| ==> init[..k] == s[..k];
      assert PostOrdered(nodes, init);
      DedupPostOrdered(nodes, init);
      var d := Dedup(init);
      if x !in d {
        var r := d + [x];
        forall k, w | 0 <= k < |r| && IsOperand(nodes, r[k], w) ensures w in r[..k] {
          if k < |d| {
            assert r[..k] == d[..k];
          } else {
            assert w in s[..|s| - 1];
            assert r[..k] == d;
          }
        }
      }
    }
  }

  /** A walk that visits no node twice passes through de-duplication unchanged. */
  lemma {:induction false} DedupDistinct(s: seq<nat>)
    requires Distinct(s)
    ensures Dedup(s) == s
    decreases |s|
  {
    if s != [] {
      var init := s[..|s| - 1];
      assert Distinct(init);
      DedupDistinct(init);
      assert s[|s| - 1] !in init;
      assert init + [s[|s| - 1]] == s;
    }
  }

  /** When the last element is new, de-duplication keeps it last. */
  lemma DedupLast(s: seq<nat>)
    requires |s| > 0 && s[|s| - 1] !in s[..|s| - 1]
    ensures |Dedup(s)| > 0 && Dedup(s)[|Dedup(s)| - 1] == s[|s| - 1]
  {
  }

  /** The in-place `reverse()` of value.js:128, on values. */
  function Reverse(s: seq<nat>): (r: seq<nat>)
    ensures |r| == |s|
    ensures forall k :: 0 <= k < |s| ==> r[k] == s[|s| - 1 - k]
  {
    if s == [] then [] else Reverse(s[1..]) + [s[0]]
  }

  /** The order in which `backward` runs the gradient rules (value.js:119-128). */
  function ProcessingOrder(nodes: seq<Node>, root: nat): (r: seq<nat>)
    requires WellFormed(nodes) && root < |nodes|
    ensures forall k :: 0 <= k < |r| ==> r[k] < |nodes|
    ensures |r| > 0 && r[0] == root
  {
    var vs := Visits(nodes, root);
    var d := Dedup(vs);
    assert forall k :: 0 <= k < |d| ==> d[k] in vs;
    var ops := Operands(nodes[root].op);
    assert forall k :: 0 <= k < |ops| ==> IsOperand(nodes, root, ops[k]);
    assert vs[..|vs| - 1] == VisitsAll(nodes, ops, root);
    DedupLast(vs);
    Reverse(d)
  }

  /** Consumers come before their operands in `s`. */
  ghost predicate ConsumersFirst(nodes: seq<Node>, s: seq<nat>)
  {
    (forall k :: 0 <= k < |s| ==> s[k] < |nodes|) &&
    (forall x, y :: 0 <= x < |s| && 0 <= y < |s| && IsOperand(nodes, s[x], s[y]) ==> x < y)
  }

  /** Every operand of a node of `s` is in `s`. */
  ghost predicate Closed(nodes: seq<Node>, s: seq<nat>)
  {
    (forall k :: 0 <= k < |s| ==> s[k] < |nodes|) &&
    (forall k, w :: 0 <= k < |s| && IsOperand(nodes, s[k], w) ==> w in s)
  }

  /** Reversal keeps the same nodes and introduces no repeats. */
  lemma ReverseSameNodes(d: seq<nat>)
    requires Distinct(d)
    ensures Distinct(Reverse(d)) && forall w :: w in Reverse(d) <==> w in d
  {
    var o := Reverse(d);
    forall w ensures w in o <==> w in d {
      if w in d {
        var i :| 0 <= i < |d| && d[i] == w;
        assert o[|d| - 1 - i] == w;
      }
    }
    forall i, j | 0 <= i < j < |o| ensures o[i] != o[j] {
      assert o[i] == d[|d| - 1 - i] && o[j] == d[|d| - 1 - j];
    }
  }

  /** Reversing a post-ordered list without repeats lists every consumer before its operands. */
  lemma ReverseConsumersFirst(nodes: seq<Node>, d: seq<nat>)
    requires PostOrdered(nodes, d) && Distinct(d)
    ensures ConsumersFirst(nodes, Reverse(d))
  {
    var o := Reverse(d);
    forall k | 0 <= k < |o| ensures o[k] < |nodes| {
      assert o[k] == d[|d| - 1 - k];
    }
    forall x, y | 0 <= x < |o| && 0 <= y < |o| && IsOperand(nodes, o[x], o[y]) ensures x < y {
      var i, j := |d| - 1 - x, |d| - 1 - y;
      assert o[x] == d[i] && o[y] == d[j];
      assert d[j] in d[..i];
      var j' :| 0 <= j' < i && d[..i][j'] == d[j];
      assert d[j'] == d[j];
    }
  }

  /** Reversing a post-ordered list keeps it closed under taking operands. */
  lemma ReverseClosed(nodes: seq<Node>, d: seq<nat>)
    requires PostOrdered(nodes, d)
    ensures Closed(nodes, Reverse(d))
  {
    var o := Reverse(d);
    forall k | 0 <= k < |o| ensures o[k] < |nodes| {
      assert o[k] == d[|d| - 1 - k];
    }
    forall k, w | 0 <= k < |o| && IsOperand(nodes, o[k], w) ensures w in o {
      var i := |d| - 1 - k;
      assert o[k] == d[i];
      assert w in d[..i];
      var i' :| 0 <= i' < i && d[..i][i'] == w;
      assert o[|d| - 1 - i'] == w;
    }
  }

  /** Reversing a post-ordered list without repeats puts consumers first and keeps it closed. */
  lemma ReversePostOrdered(nodes: seq<Node>, d: seq<nat>)
    requires PostOrdered(nodes, d) && Distinct(d)
    ensures var o := Reverse(d);
      Distinct(o) && ConsumersFirst(nodes, o) && Closed(nodes, o) &&
      forall w :: w in o <==> w in d
  {
    ReverseSameNodes(d);
    ReverseConsumersFirst(nodes, d);
    ReverseClosed(nodes, d);
  }

  /**
   * The processing order starts at the root, holds every node reachable from the
   * root exactly once and nothing else, lists each node before its operands, and
   * is closed under taking operands.
   */
  lemma ProcessingOrderFacts(nodes: seq<Node>, root: nat)
    requires WellFormed(nodes) && root < |nodes|
    ensures var o := ProcessingOrder(nodes, root);
      |o| > 0 && o[0] == root && Distinct(o) &&
      (forall w :: w in o <==> Reaches(nodes, root, w)) &&
      ConsumersFirst(nodes, o) && Closed(nodes, o)
  {
    var vs := Visits(nodes, root);
    var d := Dedup(vs);
    var o := Reverse(d);
    VisitsPostOrdered(nodes, root);
    DedupPostOrdered(nodes, vs);
    ReversePostOrdered(nodes, d);
    var ops := Operands(nodes[root].op);
    assert forall k :: 0 <= k < |ops| ==> IsOperand(nodes, root, ops[k]);
    assert vs[..|vs| - 1] == VisitsAll(nodes, ops, root);
    DedupLast(vs);
    assert o[0] == root;
    forall w ensures w in o <==> Reaches(nodes, root, w) {
      VisitsExactlyReachable(nodes, root, w);
    }
  }

  /** The walk, and so the processing order, depends on the ops alone, not on data or gradients. */
  lemma {:induction false} VisitsSameValues(n1: seq<Node>, n2: seq<Node>, v: nat)
    requires WellFormed(n1) && SameValues(n1, n2) && v < |n1|
    ensures WellFormed(n2) && Visits(n1, v) == Visits(n2, v)
    decreases v, 1
  {
    SameValuesWellFormed(n1, n2);
    var ops := Operands(n1[v].op);
    assert forall k :: 0 <= k < |ops| ==> IsOperand(n1, v, ops[k]);
    VisitsAllSameValues(n1, n2, ops, v);
  }

  lemma {:induction false} VisitsAllSameValues(n1: seq<Node>, n2: seq<Node>, ops: seq<nat>, bound: nat)
    requires WellFormed(n1) && SameValues(n1, n2) && bound <= |n1|
    requires forall k :: 0 <= k < |ops| ==> ops[k] < bound
    ensures WellFormed(n2) && VisitsAll(n1, ops, bound) == VisitsAll(n2, ops, bound)
    decreases bound, 0, |ops|
  {
    SameValuesWellFormed(n1, n2);
    if ops != [] {
      VisitsSameValues(n1, n2, ops[0]);
      VisitsAllSameValues(n1, n2, ops[1..], bound);
    }
  }

  lemma ProcessingOrderSameValues(n1: seq<Node>, n2: seq<Node>, root: nat)
    requires WellFormed(n1) && SameValues(n1, n2) && root < |n1|
    ensures WellFormed(n2) && ProcessingOrder(n1, root) == ProcessingOrder(n2, root)
  {
    VisitsSameValues(n1, n2, root);
  }
}
