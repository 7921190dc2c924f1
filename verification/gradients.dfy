/**
 * Gradient propagation of `backward` (value.js:2-49, 118-138): the local rule of
 * each operator, the reset and seeding of gradients, and the pass over the
 * processing order.
 */
module Gradients {
  import opened Arena
  import opened Traversal

  /** `grad += c` on node `w`. */
  function AddGrad(nodes: seq<Node>, w: nat, c: real): seq<Node>
    requires w < |nodes|
  {
    nodes[w := nodes[w].(grad := nodes[w].grad + c)]
  }

  /** The arena after some rules ran, and whether every one of them returned (none threw). */
  datatype Pass = Pass(nodes: seq<Node>, ok: bool)

  /**
   * The amount the entry of `BACKWARD_FUNC` for node `v` adds to the gradient of
   * its `k`-th parent (value.js:2-40), computed from the node's gradient and the
   * data of the node and its parents.
   */
  function Term(nodes: seq<Node>, v: nat, k: nat): (r: real)
    requires WellFormed(nodes) && v < |nodes| && k < |Operands(nodes[v].op)|
    requires nodes[v].op.Log? ==> nodes[v].op.a < |nodes| && nodes[nodes[v].op.a].data != 0.0
    ensures nodes[v].grad == 0.0 ==> r == 0.0
    ensures nodes[v].op.Add? || nodes[v].op.Relu? ==> r == nodes[v].grad
  {
    var n := nodes[v];
    var g := n.grad;
    OperandsBelow(nodes, v);
    match n.op
    case Add(_, _) => g
    case Mul(a, b) => if k == 0 then g * nodes[b].data else g * nodes[a].data
    case Pow(a, p) => g * (p as real) * IntPow(nodes[a].data, p - 1)
    case Exp(_) => g * n.data
    case Log(a) => g / nodes[a].data
    case Tanh(_) => g * (1.0 - IntPow(n.data, 2))
    case Sigmoid(_) => g * n.data * (1.0 - n.data)
    case Relu(_) => g
  }

  /**
   * The entry of `BACKWARD_FUNC` for node `v`'s op, run on `v` (value.js:2-40): it
   * adds its term to each parent in turn, throws on the logarithm of a non-positive
   * number, and leaves the parent of a non-positive ReLU input alone.
   */
  function Rule(nodes: seq<Node>, v: nat): (r: Pass)
    requires WellFormed(nodes) && v < |nodes|
    ensures SameValues(nodes, r.nodes)
  {
    OperandsBelow(nodes, v);
    match nodes[v].op
    case Leaf => Pass(nodes, true)
    case Add(a, b) => Pass(AddGrad(AddGrad(nodes, a, Term(nodes, v, 0)), b, Term(nodes, v, 1)), true)
    case Mul(a, b) => Pass(AddGrad(AddGrad(nodes, a, Term(nodes, v, 0)), b, Term(nodes, v, 1)), true)
    case Log(a) =>
      if nodes[a].data <= 0.0 then Pass(nodes, false)
      else Pass(AddGrad(nodes, a, Term(nodes, v, 0)), true)
    case Relu(a) =>
      if nodes[a].data > 0.0 then Pass(AddGrad(nodes, a, Term(nodes, v, 0)), true)
      else Pass(nodes, true)
    case Pow(a, _) => Pass(AddGrad(nodes, a, Term(nodes, v, 0)), true)
    case Exp(a) => Pass(AddGrad(nodes, a, Term(nodes, v, 0)), true)
    case Tanh(a) => Pass(AddGrad(nodes, a, Term(nodes, v, 0)), true)
    case Sigmoid(a) => Pass(AddGrad(nodes, a, Term(nodes, v, 0)), true)
  }

  /**
   * The chain-rule term node `v` owes its `k`-th operand: its own gradient times the
   * derivative of its op with respect to that operand, given the node's data.
   *
   * This is a second statement of the rules, kept apart from `Term` on purpose.
   * `Term` follows the table of value.js:2-40 as written. `LocalGrad` is written from
   * the derivatives themselves: `Inv` for `1 / x`, a product for the square, and the
   * ReLU guard folded into the term, so every operand slot has exactly one term.
   * `RuleAccumulates` proves that running the table adds exactly these terms.
   */
  function LocalGrad(nodes: seq<Node>, v: nat, k: nat): real
    requires WellFormed(nodes) && v < |nodes| && k < |Operands(nodes[v].op)|
  {
    var n := nodes[v];
    var g := n.grad;
    OperandsBelow(nodes, v);
    match n.op
    case Add(_, _) => g
    case Mul(a, b) => if k == 0 then g * nodes[b].data else g * nodes[a].data
    case Pow(a, p) => g * (p as real) * IntPow(nodes[a].data, p - 1)
    case Exp(_) => g * n.data
    case Log(a) => g * Inv(nodes[a].data)
    case Tanh(_) => g * (1.0 - n.data * n.data)
    case Sigmoid(_) => g * n.data * (1.0 - n.data)
    case Relu(a) => if nodes[a].data > 0.0 then g else 0.0
  }

  /** What node `v` adds to the gradient of `w`: one term per operand slot that holds `w`. */
  function Contribution(nodes: seq<Node>, v: nat, w: nat): real
    requires WellFormed(nodes) && v < |nodes|
  {
    var ops := Operands(nodes[v].op);
    (if |ops| > 0 && ops[0] == w then LocalGrad(nodes, v, 0) else 0.0) +
    (if |ops| > 1 && ops[1] == w then LocalGrad(nodes, v, 1) else 0.0)
  }

  /**
   * A rule throws only for a logarithm whose operand is not positive; otherwise it
   * adds to each operand's gradient its chain-rule terms and changes nothing else:
   * no data, no op, and no gradient of a node that is not its operand.
   */
  lemma RuleAccumulates(nodes: seq<Node>, v: nat)
    requires WellFormed(nodes) && v < |nodes|
    ensures var r := Rule(nodes, v);
      var op := nodes[v].op;
      assert op.Log? ==> IsOperand(nodes, v, op.a);
      (r.ok <==> !(op.Log? && nodes[op.a].data <= 0.0)) &&
      (!r.ok ==> r.nodes == nodes) &&
      (r.ok ==> forall w :: 0 <= w < |nodes| ==>
        r.nodes[w].grad == nodes[w].grad + Contribution(nodes, v, w)) &&
      (forall w :: 0 <= w < |nodes| && !IsOperand(nodes, v, w) ==> r.nodes[w] == nodes[w])
  {
    var op := nodes[v].op;
    OperandsBelow(nodes, v);
    if op.Add? || op.Mul? {
      RuleBinary(nodes, v);
    } else if op.Log? {
      RuleLog(nodes, v);
    } else if !op.Leaf? {
      RuleUnary(nodes, v);
    }
  }

  /** A rule leaves every node that is not its operand as it was. */
  lemma RuleFrame(nodes: seq<Node>, v: nat, w: nat)
    requires WellFormed(nodes) && v < |nodes| && w < |nodes| && !IsOperand(nodes, v, w)
    ensures |Rule(nodes, v).nodes| == |nodes| && Rule(nodes, v).nodes[w] == nodes[w]
  {
    RuleAccumulates(nodes, v);
  }

  /** The effect `RuleAccumulates` states, for one node's rule run without throwing. */
  ghost predicate AddsTerms(nodes: seq<Node>, v: nat, r: Pass)
    requires WellFormed(nodes) && v < |nodes|
  {
    r.ok && |r.nodes| == |nodes| &&
    (forall w :: 0 <= w < |nodes| ==> r.nodes[w].grad == nodes[w].grad + Contribution(nodes, v, w)) &&
    (forall w :: 0 <= w < |nodes| && !IsOperand(nodes, v, w) ==> r.nodes[w] == nodes[w])
  }

  lemma RuleBinary(nodes: seq<Node>, v: nat)
    requires WellFormed(nodes) && v < |nodes| && (nodes[v].op.Add? || nodes[v].op.Mul?)
    ensures AddsTerms(nodes, v, Rule(nodes, v))
  {
    OperandsBelow(nodes, v);
  }

  lemma RuleLog(nodes: seq<Node>, v: nat)
    requires WellFormed(nodes) && v < |nodes| && nodes[v].op.Log?
    ensures nodes[v].op.a < |nodes|
    ensures nodes[nodes[v].op.a].data <= 0.0 ==> Rule(nodes, v) == Pass(nodes, false)
    ensures nodes[nodes[v].op.a].data > 0.0 ==> AddsTerms(nodes, v, Rule(nodes, v))
  {
    var a := nodes[v].op.a;
    OperandsBelow(nodes, v);
    if nodes[a].data > 0.0 {
      assert nodes[v].grad / nodes[a].data == nodes[v].grad * Inv(nodes[a].data);
    }
  }

  lemma RuleUnary(nodes: seq<Node>, v: nat)
    requires WellFormed(nodes) && v < |nodes|
    requires nodes[v].op.Pow? || nodes[v].op.Exp? || nodes[v].op.Tanh? || nodes[v].op.Sigmoid? || nodes[v].op.Relu?
    ensures AddsTerms(nodes, v, Rule(nodes, v))
  {
    var n := nodes[v];
    OperandsBelow(nodes, v);
    if n.op.Tanh? {
      Square(n.data);
    }
  }

  /** A leaf contributes to nothing. */
  lemma LeafContributesNothing(nodes: seq<Node>, v: nat, w: nat)
    requires WellFormed(nodes) && v < |nodes| && nodes[v].op.Leaf?
    ensures Contribution(nodes, v, w) == 0.0 && Rule(nodes, v) == Pass(nodes, true)
  {
  }

  lemma SameValuesWellFormedIf(n1: seq<Node>, n2: seq<Node>)
    requires SameValues(n1, n2)
    ensures WellFormed(n1) ==> WellFormed(n2)
  {
    if WellFormed(n1) {
      SameValuesWellFormed(n1, n2);
    }
  }

  lemma SameValuesTrans(n1: seq<Node>, n2: seq<Node>, n3: seq<Node>)
    requires SameValues(n1, n2) && SameValues(n2, n3)
    ensures SameValues(n1, n3)
  {
  }

  /**
   * Runs the rules of the nodes of `s` in order, skipping leaves (value.js:133-137);
   * the first rule that throws ends the pass.
   */
  function Propagate(nodes: seq<Node>, s: seq<nat>): (r: Pass)
    requires WellFormed(nodes) && forall k :: 0 <= k < |s| ==> s[k] < |nodes|
    ensures SameValues(nodes, r.nodes)
    decreases |s|
  {
    if s == [] then Pass(nodes, true)
    else
      var p := Propagate(nodes, s[..|s| - 1]);
      if !p.ok then p
      else
        var v := s[|s| - 1];
        SameValuesWellFormed(nodes, p.nodes);
        if p.nodes[v].op.Leaf? then p
        else
          var r := Rule(p.nodes, v);
          SameValuesTrans(nodes, p.nodes, r.nodes);
          r
  }

  /** One more step of the pass: the next node's rule runs unless the pass stopped or the node is a leaf. */
  lemma PropagateNext(nodes: seq<Node>, s: seq<nat>, i: nat)
    requires WellFormed(nodes) && forall k :: 0 <= k < |s| ==> s[k] < |nodes|
    requires i < |s|
    ensures var p := Propagate(nodes, s[..i]);
      WellFormed(p.nodes) && s[i] < |p.nodes| &&
      Propagate(nodes, s[..i + 1]) == if !p.ok || p.nodes[s[i]].op.Leaf? then p else Rule(p.nodes, s[i])
  {
    assert s[..i + 1][..i] == s[..i];
    SameValuesWellFormed(nodes, Propagate(nodes, s[..i]).nodes);
  }

  /** `grad = 0` on every node of `s` (value.js:130), as a fold over `s`. */
  function ResetGrads(nodes: seq<Node>, s: seq<nat>): (r: seq<Node>)
    requires forall k :: 0 <= k < |s| ==> s[k] < |nodes|
    ensures |r| == |nodes|
    ensures forall j :: 0 <= j < |nodes| ==>
      r[j] == if j in s then nodes[j].(grad := 0.0) else nodes[j]
    decreases |s|
  {
    if s == [] then nodes
    else
      var r := ResetGrads(nodes, s[..|s| - 1]);
      var v := s[|s| - 1];
      assert forall j :: j in s <==> j in s[..|s| - 1] || j == v;
      r[v := r[v].(grad := 0.0)]
  }

  /** The arena after the reset of `s` and `this.grad = 1` on the root (value.js:130-132). */
  function Seeded(nodes: seq<Node>, s: seq<nat>, root: nat): (r: seq<Node>)
    requires root < |nodes| && forall k :: 0 <= k < |s| ==> s[k] < |nodes|
    ensures SameValues(nodes, r)
    ensures WellFormed(nodes) ==> WellFormed(r)
    ensures r[root].grad == 1.0
    ensures forall j :: 0 <= j < |nodes| && j != root ==>
      r[j] == if j in s then nodes[j].(grad := 0.0) else nodes[j]
  {
    SameValuesWellFormedIf(nodes, ResetGrads(nodes, s)[root := ResetGrads(nodes, s)[root].(grad := 1.0)]);
    var r := ResetGrads(nodes, s);
    r[root := r[root].(grad := 1.0)]
  }

  /** What `backward()` called on `root` does to the arena (value.js:118-138). */
  function BackwardSpec(nodes: seq<Node>, root: nat): (r: Pass)
    requires WellFormed(nodes) && root < |nodes|
    ensures SameValues(nodes, r.nodes)
  {
    var o := ProcessingOrder(nodes, root);
    ProcessingOrderFacts(nodes, root);
    var seeded := Seeded(nodes, o, root);
    SameValuesWellFormed(nodes, seeded);
    var r := Propagate(seeded, o);
    SameValuesTrans(nodes, seeded, r.nodes);
    r
  }

  lemma BackwardUnfold(nodes: seq<Node>, root: nat)
    requires WellFormed(nodes) && root < |nodes|
    ensures var o := ProcessingOrder(nodes, root);
      BackwardSpec(nodes, root) == Propagate(Seeded(nodes, o, root), o)
  {
  }

  /**
   * Before propagation, the gradient is 1 on the root, 0 on every other node
   * reachable from it, and unchanged elsewhere; data and ops are untouched.
   */
  lemma SeededState(nodes: seq<Node>, root: nat, j: nat)
    requires WellFormed(nodes) && root < |nodes| && j < |nodes|
    ensures Seeded(nodes, ProcessingOrder(nodes, root), root)[j] ==
        if j == root then nodes[j].(grad := 1.0)
        else if Reaches(nodes, root, j) then nodes[j].(grad := 0.0)
        else nodes[j]
  {
    ProcessingOrderFacts(nodes, root);
  }

  /** A pass leaves alone every node that is no operand of a node of `s`. */
  lemma {:induction false} PropagateFrame(nodes: seq<Node>, s: seq<nat>, w: nat)
    requires WellFormed(nodes) && forall k :: 0 <= k < |s| ==> s[k] < |nodes|
    requires w < |nodes| && forall k :: 0 <= k < |s| ==> !IsOperand(nodes, s[k], w)
    ensures Propagate(nodes, s).nodes[w] == nodes[w]
    decreases |s|
  {
    if s != [] {
      var init := s[..|s| - 1];
      PropagateFrame(nodes, init, w);
      var p := Propagate(nodes, init);
      if p.ok {
        var v := s[|s| - 1];
        SameValuesWellFormed(nodes, p.nodes);
        if !p.nodes[v].op.Leaf? {
          RuleAccumulates(p.nodes, v);
          assert !IsOperand(nodes, v, w);
        }
      }
    }
  }

  /** Outside the part reachable from the root, `backward` changes nothing. */
  lemma BackwardFrame(nodes: seq<Node>, root: nat, w: nat)
    requires WellFormed(nodes) && root < |nodes| && w < |nodes|
    requires !Reaches(nodes, root, w)
    ensures BackwardSpec(nodes, root).nodes[w] == nodes[w]
  {
    var o := ProcessingOrder(nodes, root);
    ProcessingOrderFacts(nodes, root);
    var seeded := Seeded(nodes, o, root);
    SameValuesWellFormed(nodes, seeded);
    SeededState(nodes, root, w);
    forall k | 0 <= k < |o| ensures !IsOperand(seeded, o[k], w) {
      assert IsOperand(seeded, o[k], w) == IsOperand(nodes, o[k], w);
      assert IsOperand(nodes, o[k], w) ==> w in o;
    }
    PropagateFrame(seeded, o, w);
  }

  /** Once a pass has thrown, it stays thrown. */
  lemma {:induction false} PropagatePrefixOk(nodes: seq<Node>, s: seq<nat>, m: nat)
    requires WellFormed(nodes) && forall k :: 0 <= k < |s| ==> s[k] < |nodes|
    requires m <= |s| && Propagate(nodes, s).ok
    ensures Propagate(nodes, s[..m]).ok
    decreases |s|
  {
    if m < |s| {
      assert s[..|s| - 1][..m] == s[..m];
      PropagatePrefixOk(nodes, s[..|s| - 1], m);
    } else {
      assert s[..m] == s;
    }
  }

  /**
   * With consumers before operands, once node `s[k]`'s rule is about to run its
   * gradient is final: no later rule adds to it.
   */
  lemma {:induction false} GradFinalFrom(nodes: seq<Node>, s: seq<nat>, k: nat, m: nat)
    requires WellFormed(nodes) && ConsumersFirst(nodes, s)
    requires k <= m <= |s| && k < |s|
    requires Propagate(nodes, s[..m]).ok
    ensures Propagate(nodes, s[..m]).nodes[s[k]].grad == Propagate(nodes, s[..k]).nodes[s[k]].grad
    decreases m
  {
    if m > k {
      var v := s[m - 1];
      var p := Propagate(nodes, s[..m - 1]);
      PropagateNext(nodes, s, m - 1);
      assert m - 1 + 1 == m;
      assert p.ok;
      GradFinalFrom(nodes, s, k, m - 1);
      if !p.nodes[v].op.Leaf? {
        assert !IsOperand(p.nodes, v, s[k]) by {
          assert !IsOperand(nodes, s[m - 1], s[k]);
        }
        RuleFrame(p.nodes, v, s[k]);
      }
    }
  }

  /**
   * The DAG property of `backward`: when the rule of a node runs, every consumer of
   * it has already added its contribution, so its gradient equals the final one.
   */
  lemma GradFinalWhenProcessed(nodes: seq<Node>, root: nat, k: nat)
    requires WellFormed(nodes) && root < |nodes|
    requires BackwardSpec(nodes, root).ok
    ensures var o := ProcessingOrder(nodes, root);
      var seeded := Seeded(nodes, o, root);
      k < |o| ==>
        Propagate(seeded, o[..k]).nodes[o[k]].grad == BackwardSpec(nodes, root).nodes[o[k]].grad
  {
    ProcessingOrderFacts(nodes, root);
    var o := ProcessingOrder(nodes, root);
    var seeded := Seeded(nodes, o, root);
    SameValuesWellFormed(nodes, seeded);
    if k < |o| {
      assert o[..|o|] == o;
      assert ConsumersFirst(seeded, o) by {
        forall x, y | 0 <= x < |o| && 0 <= y < |o| && IsOperand(seeded, o[x], o[y]) ensures x < y {
          assert IsOperand(nodes, o[x], o[y]);
        }
      }
      GradFinalFrom(seeded, o, k, |o|);
    }
  }

  /** The sum of the terms the nodes of `s` owe `w`. */
  function Incoming(nodes: seq<Node>, s: seq<nat>, w: nat): real
    requires WellFormed(nodes) && forall k :: 0 <= k < |s| ==> s[k] < |nodes|
    decreases |s|
  {
    if s == [] then 0.0 else Incoming(nodes, s[..|s| - 1], w) + Contribution(nodes, s[|s| - 1], w)
  }

  /** A node's terms depend on its own gradient and on data, not on other gradients. */
  lemma ContributionSameValues(n1: seq<Node>, n2: seq<Node>, v: nat, w: nat)
    requires WellFormed(n1) && SameValues(n1, n2) && v < |n1| && n1[v].grad == n2[v].grad
    ensures WellFormed(n2) && Contribution(n1, v, w) == Contribution(n2, v, w)
  {
    SameValuesWellFormed(n1, n2);
    var ops := Operands(n1[v].op);
    assert Operands(n2[v].op) == ops;
    if |ops| > 0 {
      LocalGradSameValues(n1, n2, v, 0);
    }
    if |ops| > 1 {
      LocalGradSameValues(n1, n2, v, 1);
    }
  }

  lemma LocalGradSameValues(n1: seq<Node>, n2: seq<Node>, v: nat, k: nat)
    requires WellFormed(n1) && WellFormed(n2) && SameValues(n1, n2) && v < |n1|
    requires n1[v].grad == n2[v].grad && k < |Operands(n1[v].op)|
    ensures n2[v].op == n1[v].op && LocalGrad(n1, v, k) == LocalGrad(n2, v, k)
  {
    OperandsBelow(n1, v);
    assert n1[v].data == n2[v].data && n1[v].op == n2[v].op;
    match n1[v].op
    case Add(_, _) =>
    case Mul(a, b) =>
      assert n1[a].data == n2[a].data && n1[b].data == n2[b].data;
    case Pow(a, _) =>
      assert n1[a].data == n2[a].data;
    case Exp(_) =>
    case Log(a) =>
      assert n1[a].data == n2[a].data;
    case Tanh(_) =>
    case Sigmoid(_) =>
    case Relu(a) =>
      assert n1[a].data == n2[a].data;
  }

  /** The term node `s[m - 1]` owes when its rule runs is the term it owes in the final state. */
  lemma ContributionFinal(nodes: seq<Node>, s: seq<nat>, m: nat, w: nat)
    requires WellFormed(nodes) && ConsumersFirst(nodes, s)
    requires 0 < m <= |s| && Propagate(nodes, s).ok
    ensures var p := Propagate(nodes, s[..m - 1]).nodes;
      var f := Propagate(nodes, s).nodes;
      WellFormed(p) && WellFormed(f) && s[m - 1] < |p| &&
      Contribution(p, s[m - 1], w) == Contribution(f, s[m - 1], w)
  {
    var p := Propagate(nodes, s[..m - 1]).nodes;
    var f := Propagate(nodes, s).nodes;
    SameValuesWellFormed(nodes, p);
    assert s[..|s|] == s;
    GradFinalFrom(nodes, s, m - 1, |s|);
    SameValuesTrans(p, nodes, f);
    ContributionSameValues(p, f, s[m - 1], w);
  }

  /** One step of `PropagateAccumulates`: the rule of `s[m - 1]` adds its term, given that term equals the one computed with final gradients. */
  lemma PropagateAccumulatesStep(nodes: seq<Node>, s: seq<nat>, m: nat, w: nat)
    requires WellFormed(nodes) && forall k :: 0 <= k < |s| ==> s[k] < |nodes|
    requires 0 < m <= |s| && w < |nodes| && Propagate(nodes, s).ok
    requires WellFormed(Propagate(nodes, s).nodes) && WellFormed(Propagate(nodes, s[..m - 1]).nodes)
    requires Contribution(Propagate(nodes, s[..m - 1]).nodes, s[m - 1], w) ==
      Contribution(Propagate(nodes, s).nodes, s[m - 1], w)
    requires Propagate(nodes, s[..m - 1]).nodes[w].grad ==
      nodes[w].grad + Incoming(Propagate(nodes, s).nodes, s[..m - 1], w)
    ensures Propagate(nodes, s[..m]).nodes[w].grad ==
      nodes[w].grad + Incoming(Propagate(nodes, s).nodes, s[..m], w)
  {
    var t := s[..m];
    assert t[..|t| - 1] == s[..m - 1] && t[|t| - 1] == s[m - 1];
    PropagatePrefixOk(nodes, s, m);
    PropagateStep(nodes, t, w);
    IncomingNext(Propagate(nodes, s).nodes, s, m, w);
  }


  /** The terms owed by the first `m` nodes are those of the first `m - 1` plus node `s[m - 1]`'s. */
  lemma IncomingNext(f: seq<Node>, s: seq<nat>, m: nat, w: nat)
    requires WellFormed(f) && forall k :: 0 <= k < |s| ==> s[k] < |f|
    requires 0 < m <= |s|
    ensures Incoming(f, s[..m], w) == Incoming(f, s[..m - 1], w) + Contribution(f, s[m - 1], w)
  {
    var t := s[..m];
    assert t[..|t| - 1] == s[..m - 1] && t[|t| - 1] == s[m - 1];
  }

  /** One more rule of a pass adds the terms its node owes, computed in the state it runs in. */
  lemma PropagateStep(nodes: seq<Node>, t: seq<nat>, w: nat)
    requires WellFormed(nodes) && forall k :: 0 <= k < |t| ==> t[k] < |nodes|
    requires t != [] && w < |nodes| && Propagate(nodes, t).ok
    ensures var p := Propagate(nodes, t[..|t| - 1]);
      p.ok && WellFormed(p.nodes) &&
      Propagate(nodes, t).nodes[w].grad == p.nodes[w].grad + Contribution(p.nodes, t[|t| - 1], w)
  {
    var p := Propagate(nodes, t[..|t| - 1]);
    SameValuesWellFormed(nodes, p.nodes);
    RuleAccumulates(p.nodes, t[|t| - 1]);
  }

  /**
   * After the first `m` rules of a pass that completes with consumers first, each
   * gradient is its starting value plus the terms owed by those `m` nodes, each term
   * computed with the final gradient of the node that owes it.
   */
  lemma {:induction false} PropagateAccumulates(nodes: seq<Node>, s: seq<nat>, m: nat, w: nat)
    requires WellFormed(nodes) && ConsumersFirst(nodes, s)
    requires m <= |s| && w < |nodes| && Propagate(nodes, s).ok
    ensures var f := Propagate(nodes, s).nodes;
      WellFormed(f) &&
      Propagate(nodes, s[..m]).nodes[w].grad == nodes[w].grad + Incoming(f, s[..m], w)
    decreases m
  {
    SameValuesWellFormed(nodes, Propagate(nodes, s).nodes);
    if m > 0 {
      PropagateAccumulates(nodes, s, m - 1, w);
      ContributionFinal(nodes, s, m, w);
      PropagateAccumulatesStep(nodes, s, m, w);
    }
  }

  /**
   * The chain rule as `backward` accumulates it: when no rule throws, the final
   * gradient of every node is its seed (1 on the root, 0 elsewhere in the reachable
   * part, unchanged outside it) plus the terms owed to it by every node of the
   * processing order, each computed with that node's final gradient.
   */
  lemma BackwardChainRule(nodes: seq<Node>, root: nat, w: nat)
    requires WellFormed(nodes) && root < |nodes| && w < |nodes|
    requires BackwardSpec(nodes, root).ok
    ensures var f := BackwardSpec(nodes, root).nodes;
      WellFormed(f) &&
      f[w].grad ==
        (if w == root then 1.0 else if Reaches(nodes, root, w) then 0.0 else nodes[w].grad) +
        Incoming(f, ProcessingOrder(nodes, root), w)
  {
    var o := ProcessingOrder(nodes, root);
    ProcessingOrderFacts(nodes, root);
    var seeded := Seeded(nodes, o, root);
    var f := Propagate(seeded, o).nodes;
    assert ConsumersFirst(seeded, o) by {
      forall x, y | 0 <= x < |o| && 0 <= y < |o| && IsOperand(seeded, o[x], o[y]) ensures x < y {
        assert IsOperand(nodes, o[x], o[y]);
      }
    }
    PropagateAccumulates(seeded, o, |o|, w);
    assert o[..|o|] == o;
    SeededState(nodes, root, w);
  }

  /** Every rule is well defined on an arena the operators built: `backward` never throws there. */
  lemma {:induction false} PropagateValidOk(nodes: seq<Node>, s: seq<nat>, m: Math)
    requires Valid(nodes, m) && forall k :: 0 <= k < |s| ==> s[k] < |nodes|
    ensures Propagate(nodes, s).ok
    decreases |s|
  {
    if s != [] {
      PropagateValidOk(nodes, s[..|s| - 1], m);
      var p := Propagate(nodes, s[..|s| - 1]);
      SameValuesValid(nodes, p.nodes, m);
      var v := s[|s| - 1];
      assert Evaluated(p.nodes, v, m);
      RuleAccumulates(p.nodes, v);
    }
  }

  lemma BackwardValidOk(nodes: seq<Node>, root: nat, m: Math)
    requires Valid(nodes, m) && root < |nodes|
    ensures BackwardSpec(nodes, root).ok
  {
    var o := ProcessingOrder(nodes, root);
    ProcessingOrderFacts(nodes, root);
    var seeded := Seeded(nodes, o, root);
    SameValuesValid(nodes, seeded, m);
    PropagateValidOk(seeded, o, m);
  }

  /**
   * Calling `backward` a second time from the same root gives the same arena as
   * calling it once: every reachable gradient is reset first.
   */
  lemma BackwardIdempotent(nodes: seq<Node>, root: nat)
    requires WellFormed(nodes) && root < |nodes| && BackwardSpec(nodes, root).ok
    ensures var n2 := BackwardSpec(nodes, root).nodes;
      WellFormed(n2) &&
      BackwardSpec(n2, root) == BackwardSpec(nodes, root)
  {
    var n2 := BackwardSpec(nodes, root).nodes;
    ProcessingOrderSameValues(nodes, n2, root);
    var o := ProcessingOrder(nodes, root);
    var s1 := Seeded(nodes, o, root);
    var s2 := Seeded(n2, o, root);
    forall j | 0 <= j < |nodes| ensures s1[j] == s2[j] {
      ReseededAt(nodes, root, j);
    }
    assert s1 == s2;
  }

  /** After `backward`, re-seeding node `j` gives what seeding it gave the first time. */
  lemma ReseededAt(nodes: seq<Node>, root: nat, j: nat)
    requires WellFormed(nodes) && root < |nodes| && j < |nodes| && BackwardSpec(nodes, root).ok
    ensures var n2 := BackwardSpec(nodes, root).nodes;
      var o := ProcessingOrder(nodes, root);
      Seeded(n2, o, root)[j] == Seeded(nodes, o, root)[j]
  {
    var n2 := BackwardSpec(nodes, root).nodes;
    var o := ProcessingOrder(nodes, root);
    ProcessingOrderFacts(nodes, root);
    if j !in o {
      BackwardFrame(nodes, root, j);
    }
  }

  /** Dedup keeps the first occurrence: the walk `[0, 0, 1]` of `x.add(x)` yields `[0, 1]`. */
  lemma DedupSharedOperand()
    ensures Dedup([0, 0, 1]) == [0, 1]
  {
    assert [0, 0, 1][..2] == [0, 0] && [0, 0][..1] == [0] && [0][..0] == [];
    assert Dedup([0]) == [0];
    assert Dedup([0, 0]) == [0];
  }

  /** The arena of `y = x.add(x)` and its processing order `[y, x]`. */
  lemma AddSelfOrder(x: real, gx: real, gy: real)
    ensures var nodes := [Node(x, gx, Leaf), Node(x + x, gy, Op.Add(0, 0))];
      WellFormed(nodes) && ProcessingOrder(nodes, 1) == [1, 0]
  {
    var nodes := [Node(x, gx, Leaf), Node(x + x, gy, Op.Add(0, 0))];
    assert WellFormed(nodes) by {
      forall v: nat, w: nat | v < |nodes| && IsOperand(nodes, v, w) ensures w < v {
        assert v == 1;
      }
    }
    assert Visits(nodes, 1) == [0, 0, 1] by {
      assert Visits(nodes, 0) == [0];
      assert VisitsAll(nodes, [0], 1) == [0];
      assert VisitsAll(nodes, [0, 0], 1) == [0, 0];
    }
    DedupSharedOperand();
    assert Reverse([0, 1]) == [1, 0];
  }

  /**
   * `y = x.add(x)` then `y.backward()`: both contributions of the shared operand
   * arrive, so `x.grad == 2`, whatever gradients the nodes held before.
   */
  lemma AddSelfGradient(x: real, gx: real, gy: real)
    ensures var nodes := [Node(x, gx, Leaf), Node(x + x, gy, Op.Add(0, 0))];
      WellFormed(nodes) && BackwardSpec(nodes, 1).ok &&
      BackwardSpec(nodes, 1).nodes[0].grad == 2.0 && BackwardSpec(nodes, 1).nodes[1].grad == 1.0
  {
    var nodes := [Node(x, gx, Leaf), Node(x + x, gy, Op.Add(0, 0))];
    AddSelfOrder(x, gx, gy);
    var seeded := [Node(x, 0.0, Leaf), Node(x + x, 1.0, Op.Add(0, 0))];
    assert Seeded(nodes, [1, 0], 1) == seeded;
    BackwardUnfold(nodes, 1);
    var after := [Node(x, 2.0, Leaf), Node(x + x, 1.0, Op.Add(0, 0))];
    assert Propagate(seeded, [1]) == Pass(after, true) by {
      assert [1][..0] == [];
      assert Rule(seeded, 1) == Pass(after, true);
    }
    assert [1, 0][..1] == [1];
  }

  lemma MulWellFormed(a: real, b: real, ga: real, gb: real, gd: real)
    ensures WellFormed([Node(a, ga, Leaf), Node(b, gb, Leaf), Node(a * b, gd, Op.Mul(0, 1))])
  {
    var nodes := [Node(a, ga, Leaf), Node(b, gb, Leaf), Node(a * b, gd, Op.Mul(0, 1))];
    forall v: nat, w: nat | v < |nodes| && IsOperand(nodes, v, w) ensures w < v {
      assert v == 2;
    }
  }

  lemma MulVisits(a: real, b: real, ga: real, gb: real, gd: real)
    ensures var nodes := [Node(a, ga, Leaf), Node(b, gb, Leaf), Node(a * b, gd, Op.Mul(0, 1))];
      WellFormed(nodes) && Visits(nodes, 2) == [0, 1, 2]
  {
    var nodes := [Node(a, ga, Leaf), Node(b, gb, Leaf), Node(a * b, gd, Op.Mul(0, 1))];
    MulWellFormed(a, b, ga, gb, gd);
    assert Visits(nodes, 0) == [0];
    assert Visits(nodes, 1) == [1];
    assert VisitsAll(nodes, [1], 2) == [1];
    assert VisitsAll(nodes, [0, 1], 2) == [0, 1];
  }

  /** The arena of `d = a.mul(b)` and its processing order `[d, b, a]`. */
  lemma MulOrder(a: real, b: real, ga: real, gb: real, gd: real)
    ensures var nodes := [Node(a, ga, Leaf), Node(b, gb, Leaf), Node(a * b, gd, Op.Mul(0, 1))];
      WellFormed(nodes) && ProcessingOrder(nodes, 2) == [2, 1, 0]
  {
    MulVisits(a, b, ga, gb, gd);
    MulDedupReverse();
  }

  lemma MulDedupReverse()
    ensures Reverse(Dedup([0, 1, 2])) == [2, 1, 0]
  {
    DedupDistinct([0, 1, 2]);
    var r := Reverse([0, 1, 2]);
    assert r[0] == 2 && r[1] == 1 && r[2] == 0;
  }

  /** The rule of `d = a.mul(b)` with `d.grad == 1` and both parents' gradients zero. */
  lemma MulRule(a: real, b: real)
    ensures var seeded := [Node(a, 0.0, Leaf), Node(b, 0.0, Leaf), Node(a * b, 1.0, Op.Mul(0, 1))];
      WellFormed(seeded) &&
      Rule(seeded, 2) == Pass([Node(a, b, Leaf), Node(b, a, Leaf), Node(a * b, 1.0, Op.Mul(0, 1))], true)
  {
    var seeded := [Node(a, 0.0, Leaf), Node(b, 0.0, Leaf), Node(a * b, 1.0, Op.Mul(0, 1))];
    assert WellFormed(seeded) by {
      forall v: nat, w: nat | v < |seeded| && IsOperand(seeded, v, w) ensures w < v {
        assert v == 2;
      }
    }
    assert Term(seeded, 2, 0) == b && Term(seeded, 2, 1) == a;
  }

  /**
   * `d = a.mul(b)` then `d.backward()`: `a.grad == b.data` and `b.grad == a.data`;
   * with `a = 2` and `b = -3` these are -3 and 2.
   */
  lemma MulGradient(a: real, b: real, ga: real, gb: real, gd: real)
    ensures var nodes := [Node(a, ga, Leaf), Node(b, gb, Leaf), Node(a * b, gd, Op.Mul(0, 1))];
      WellFormed(nodes) && BackwardSpec(nodes, 2).ok &&
      BackwardSpec(nodes, 2).nodes[0].grad == b && BackwardSpec(nodes, 2).nodes[1].grad == a
  {
    var nodes := [Node(a, ga, Leaf), Node(b, gb, Leaf), Node(a * b, gd, Op.Mul(0, 1))];
    MulOrder(a, b, ga, gb, gd);
    MulSeeded(a, b, ga, gb, gd);
    BackwardUnfold(nodes, 2);
    MulPropagate(a, b);
  }

  lemma MulSeeded(a: real, b: real, ga: real, gb: real, gd: real)
    ensures Seeded([Node(a, ga, Leaf), Node(b, gb, Leaf), Node(a * b, gd, Op.Mul(0, 1))], [2, 1, 0], 2) ==
      [Node(a, 0.0, Leaf), Node(b, 0.0, Leaf), Node(a * b, 1.0, Op.Mul(0, 1))]
  {
    var nodes := [Node(a, ga, Leaf), Node(b, gb, Leaf), Node(a * b, gd, Op.Mul(0, 1))];
    var r := ResetGrads(nodes, [2, 1, 0]);
    assert forall j :: 0 <= j < 3 ==> j in [2, 1, 0];
    assert r == [Node(a, 0.0, Leaf), Node(b, 0.0, Leaf), Node(a * b, 0.0, Op.Mul(0, 1))];
  }

  lemma MulPropagate(a: real, b: real)
    ensures var seeded := [Node(a, 0.0, Leaf), Node(b, 0.0, Leaf), Node(a * b, 1.0, Op.Mul(0, 1))];
      WellFormed(seeded) &&
      Propagate(seeded, [2, 1, 0]) == Pass([Node(a, b, Leaf), Node(b, a, Leaf), Node(a * b, 1.0, Op.Mul(0, 1))], true)
  {
    var seeded := [Node(a, 0.0, Leaf), Node(b, 0.0, Leaf), Node(a * b, 1.0, Op.Mul(0, 1))];
    var after := [Node(a, b, Leaf), Node(b, a, Leaf), Node(a * b, 1.0, Op.Mul(0, 1))];
    assert Propagate(seeded, [2]) == Pass(after, true) by {
      assert [2][..0] == [];
      MulRule(a, b);
    }
    assert Propagate(seeded, [2, 1]) == Pass(after, true) by {
      assert [2, 1][..1] == [2];
    }
    assert [2, 1, 0][..2] == [2, 1];
  }

  /** The nodes a one-input neuron builds: `w`, `b`, `x`, `w.mul(x)` and `b.add(w.mul(x))`. */
  function NeuronNodes(w: real, b: real, x: real, gs: seq<real>): (r: seq<Node>)
    requires |gs| == 5
    ensures |r| == 5 && r[4].op == Op.Add(1, 3) && r[3].op == Op.Mul(0, 2)
  {
    [Node(w, gs[0], Leaf), Node(b, gs[1], Leaf), Node(x, gs[2], Leaf),
     Node(w * x, gs[3], Op.Mul(0, 2)), Node(b + w * x, gs[4], Op.Add(1, 3))]
  }

  lemma NeuronWellFormed(w: real, b: real, x: real, gs: seq<real>)
    requires |gs| == 5
    ensures WellFormed(NeuronNodes(w, b, x, gs))
  {
    var nodes := NeuronNodes(w, b, x, gs);
    forall v: nat, u: nat | v < |nodes| && IsOperand(nodes, v, u) ensures u < v {
      assert v == 3 || v == 4;
    }
  }

  lemma NeuronVisitsProduct(w: real, b: real, x: real, gs: seq<real>)
    requires |gs| == 5
    ensures WellFormed(NeuronNodes(w, b, x, gs)) && Visits(NeuronNodes(w, b, x, gs), 3) == [0, 2, 3]
  {
    var nodes := NeuronNodes(w, b, x, gs);
    NeuronVisitsLeaf(w, b, x, gs, 0);
    NeuronVisitsLeaf(w, b, x, gs, 2);
    assert VisitsAll(nodes, [2], 3) == [2] by {
      assert [2][1..] == [];
    }
    assert [0, 2][1..] == [2];
    assert VisitsAll(nodes, [0, 2], 3) == [0, 2];
    assert Operands(nodes[3].op) == [0, 2];
  }

  /** The leaves `w`, `b` and `x` each visit only themselves. */
  lemma NeuronVisitsLeaf(w: real, b: real, x: real, gs: seq<real>, v: nat)
    requires |gs| == 5 && v < 3
    ensures WellFormed(NeuronNodes(w, b, x, gs)) && Visits(NeuronNodes(w, b, x, gs), v) == [v]
  {
    var nodes := NeuronNodes(w, b, x, gs);
    NeuronWellFormed(w, b, x, gs);
    assert nodes[v].op == Leaf;
    assert VisitsAll(nodes, [], v) == [];
  }

  lemma NeuronVisits(w: real, b: real, x: real, gs: seq<real>)
    requires |gs| == 5
    ensures WellFormed(NeuronNodes(w, b, x, gs)) && Visits(NeuronNodes(w, b, x, gs), 4) == [1, 0, 2, 3, 4]
  {
    var nodes := NeuronNodes(w, b, x, gs);
    NeuronVisitsOperands(w, b, x, gs);
    assert Operands(nodes[4].op) == [1, 3];
  }

  lemma NeuronVisitsOperands(w: real, b: real, x: real, gs: seq<real>)
    requires |gs| == 5
    ensures WellFormed(NeuronNodes(w, b, x, gs)) && VisitsAll(NeuronNodes(w, b, x, gs), [1, 3], 4) == [1, 0, 2, 3]
  {
    var nodes := NeuronNodes(w, b, x, gs);
    NeuronVisitsProductOnly(w, b, x, gs);
    NeuronVisitsLeaf(w, b, x, gs, 1);
    assert [1, 3][1..] == [3];
  }

  lemma NeuronVisitsProductOnly(w: real, b: real, x: real, gs: seq<real>)
    requires |gs| == 5
    ensures WellFormed(NeuronNodes(w, b, x, gs)) && VisitsAll(NeuronNodes(w, b, x, gs), [3], 4) == [0, 2, 3]
  {
    var nodes := NeuronNodes(w, b, x, gs);
    NeuronVisitsProduct(w, b, x, gs);
    assert [3][1..] == [];
    assert VisitsAll(nodes, [], 4) == [];
  }

  lemma NeuronDedup()
    ensures Dedup([1, 0, 2, 3, 4]) == [1, 0, 2, 3, 4]
  {
    DedupDistinct([1, 0, 2, 3, 4]);
  }

  lemma NeuronReverse()
    ensures Reverse([1, 0, 2, 3, 4]) == [4, 3, 2, 0, 1]
  {
    var r := Reverse([1, 0, 2, 3, 4]);
    assert r[0] == 4 && r[1] == 3 && r[2] == 2 && r[3] == 0 && r[4] == 1;
  }

  lemma NeuronOrder(w: real, b: real, x: real, gs: seq<real>)
    requires |gs| == 5
    ensures WellFormed(NeuronNodes(w, b, x, gs)) && ProcessingOrder(NeuronNodes(w, b, x, gs), 4) == [4, 3, 2, 0, 1]
  {
    NeuronVisits(w, b, x, gs);
    NeuronDedup();
    NeuronReverse();
  }

  /** The `+` rule of the sum, run first, gives the bias and the product gradient 1. */
  lemma NeuronAddRule(w: real, b: real, x: real)
    ensures Propagate(NeuronNodes(w, b, x, [0.0, 0.0, 0.0, 0.0, 1.0]), [4]) ==
      Pass(NeuronNodes(w, b, x, [0.0, 1.0, 0.0, 1.0, 1.0]), true)
  {
    var seeded := NeuronNodes(w, b, x, [0.0, 0.0, 0.0, 0.0, 1.0]);
    assert [4][..0] == [];
    assert Term(seeded, 4, 0) == 1.0 && Term(seeded, 4, 1) == 1.0;
  }

  /** The `*` rule of the product, run second, gives the weight `x` and the input `w`. */
  lemma NeuronMulRule(w: real, b: real, x: real)
    ensures Rule(NeuronNodes(w, b, x, [0.0, 1.0, 0.0, 1.0, 1.0]), 3) ==
      Pass(NeuronNodes(w, b, x, [x, 1.0, w, 1.0, 1.0]), true)
  {
    var mid := NeuronNodes(w, b, x, [0.0, 1.0, 0.0, 1.0, 1.0]);
    NeuronWellFormed(w, b, x, [0.0, 1.0, 0.0, 1.0, 1.0]);
    assert Term(mid, 3, 0) == x && Term(mid, 3, 1) == w;
    var half := NeuronNodes(w, b, x, [x, 1.0, 0.0, 1.0, 1.0]);
    assert AddGrad(mid, 0, x) == half by {
      var r := AddGrad(mid, 0, x);
      assert |r| == |half| && r[0] == half[0] && r[1] == half[1];
      assert r[2] == half[2] && r[3] == half[3] && r[4] == half[4];
    }
    assert AddGrad(half, 2, w) == NeuronNodes(w, b, x, [x, 1.0, w, 1.0, 1.0]) by {
      assert half[2].grad + w == w;
    }
  }

  lemma NeuronRules(w: real, b: real, x: real)
    ensures var seeded := NeuronNodes(w, b, x, [0.0, 0.0, 0.0, 0.0, 1.0]);
      WellFormed(seeded) &&
      Propagate(seeded, [4, 3]) == Pass(NeuronNodes(w, b, x, [x, 1.0, w, 1.0, 1.0]), true)
  {
    var seeded := NeuronNodes(w, b, x, [0.0, 0.0, 0.0, 0.0, 1.0]);
    NeuronWellFormed(w, b, x, [0.0, 0.0, 0.0, 0.0, 1.0]);
    NeuronAddRule(w, b, x);
    NeuronMulRule(w, b, x);
    assert [4, 3][..1] == [4];
  }

  lemma NeuronSeeded(w: real, b: real, x: real, gs: seq<real>)
    requires |gs| == 5
    ensures Seeded(NeuronNodes(w, b, x, gs), [4, 3, 2, 0, 1], 4) == NeuronNodes(w, b, x, [0.0, 0.0, 0.0, 0.0, 1.0])
  {
    var nodes := NeuronNodes(w, b, x, gs);
    var r := ResetGrads(nodes, [4, 3, 2, 0, 1]);
    assert forall j :: 0 <= j < 5 ==> j in [4, 3, 2, 0, 1];
    assert r == NeuronNodes(w, b, x, [0.0, 0.0, 0.0, 0.0, 0.0]);
    var t := Seeded(nodes, [4, 3, 2, 0, 1], 4);
    var want := NeuronNodes(w, b, x, [0.0, 0.0, 0.0, 0.0, 1.0]);
    assert t == r[4 := r[4].(grad := 1.0)];
    assert t[0] == want[0] && t[1] == want[1] && t[2] == want[2] && t[3] == want[3] && t[4] == want[4];
  }

  lemma NeuronPropagate(w: real, b: real, x: real)
    ensures var seeded := NeuronNodes(w, b, x, [0.0, 0.0, 0.0, 0.0, 1.0]);
      WellFormed(seeded) &&
      Propagate(seeded, [4, 3, 2, 0, 1]) == Pass(NeuronNodes(w, b, x, [x, 1.0, w, 1.0, 1.0]), true)
  {
    NeuronRules(w, b, x);
    NeuronLeaves(w, b, x);
  }

  /** The three leaves at the end of the order add nothing. */
  lemma NeuronLeaves(w: real, b: real, x: real)
    ensures var seeded := NeuronNodes(w, b, x, [0.0, 0.0, 0.0, 0.0, 1.0]);
      WellFormed(seeded) && Propagate(seeded, [4, 3, 2, 0, 1]) == Propagate(seeded, [4, 3])
  {
    var seeded := NeuronNodes(w, b, x, [0.0, 0.0, 0.0, 0.0, 1.0]);
    var s := [4, 3, 2, 0, 1];
    NeuronWellFormed(w, b, x, [0.0, 0.0, 0.0, 0.0, 1.0]);
    assert s[..2] == [4, 3];
    PropagateLeafStep(seeded, s, 2);
    PropagateLeafStep(seeded, s, 3);
    PropagateLeafStep(seeded, s, 4);
    assert s[..5] == s;
  }

  /** The step of a leaf changes nothing: `backward` skips nodes whose `_op` is null (value.js:134-135). */
  lemma PropagateLeafStep(nodes: seq<Node>, s: seq<nat>, i: nat)
    requires WellFormed(nodes) && forall k :: 0 <= k < |s| ==> s[k] < |nodes|
    requires i < |s| && nodes[s[i]].op.Leaf?
    ensures Propagate(nodes, s[..i + 1]) == Propagate(nodes, s[..i])
  {
    PropagateNext(nodes, s, i);
  }

  /**
   * After `backward()` on the output of a one-input neuron without activation
   * (neuron.js:19-24), the bias has gradient 1, the weight the input's data and the
   * input the weight's data, whatever the gradients were before.
   */
  lemma NeuronGradient(w: real, b: real, x: real, gs: seq<real>)
    requires |gs| == 5
    ensures var nodes := NeuronNodes(w, b, x, gs);
      WellFormed(nodes) && BackwardSpec(nodes, 4).ok &&
      BackwardSpec(nodes, 4).nodes[1].grad == 1.0 &&
      BackwardSpec(nodes, 4).nodes[0].grad == x && BackwardSpec(nodes, 4).nodes[2].grad == w
  {
    NeuronOrder(w, b, x, gs);
    NeuronSeeded(w, b, x, gs);
    BackwardUnfold(NeuronNodes(w, b, x, gs), 4);
    NeuronPropagate(w, b, x);
  }
}
