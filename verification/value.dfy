/**
 * The `Value` class of value.js as an arena of nodes: each operator allocates
 * new nodes at the end of the arena and returns the index of its result, and
 * `Backward` updates gradients in place.
 */
module Values {
  import opened Arena
  import opened Traversal
  import opened Gradients

  /** The exponent passed to `pow`: a JavaScript number (an integer here), or anything else. */
  datatype Power = Number(k: int) | NonNumber

  /** What wrapping an operand allocates, and the index of the `Value` it stands for (value.js:59-61). */
  function Wrapped(nodes: seq<Node>, x: Arg): (r: (seq<Node>, nat))
    requires ArgIn(nodes, x)
    ensures Extends(r.0, nodes) && r.1 < |r.0| && r.0[r.1].data == ArgData(nodes, x)
  {
    match x
    case Val(i) => (nodes, i)
    case Num(c) => (nodes + [Node(c, 0.0, Leaf)], |nodes|)
  }

  class Graph {
    const math: Math
    var nodes: seq<Node>

    ghost predicate Valid()
      reads this
    {
      Arena.Valid(nodes, math)
    }

    constructor (math: Math)
      ensures Valid() && this.math == math && nodes == []
    {
      this.math := math;
      nodes := [];
    }

    /** `new Value(x)`: a leaf with gradient 0 (value.js:52-56). */
    method NewValue(x: real) returns (v: nat)
      requires Valid()
      modifies this
      ensures Valid() && v == |old(nodes)| && nodes == old(nodes) + [Node(x, 0.0, Leaf)]
    {
      AppendValid(nodes, Node(x, 0.0, Leaf), math);
      v := |nodes|;
      nodes := nodes + [Node(x, 0.0, Leaf)];
    }

    /** A plain number becomes a fresh leaf; a `Value` is used as it is (value.js:59-61, 66-68). */
    method Wrap(x: Arg) returns (w: nat)
      requires Valid() && ArgIn(nodes, x)
      modifies this
      ensures Valid() && (nodes, w) == Wrapped(old(nodes), x)
      ensures w < |nodes| && nodes[w].data == ArgData(old(nodes), x)
    {
      match x
      case Val(i) => w := i;
      case Num(c) => w := NewValue(c);
    }

    /** Appends a node computed from earlier nodes. */
    method Push(op: Op) returns (r: nat)
      requires Valid() && forall w :: w in Operands(op) ==> w < |nodes|
      requires op.Log? ==> op.a < |nodes| && nodes[op.a].data > 0.0
      requires !op.Leaf?
      modifies this
      ensures Valid() && r == |old(nodes)|
      ensures nodes == old(nodes) + [Node(Forward(old(nodes), op, math), 0.0, op)]
    {
      var n := Node(Forward(nodes, op, math), 0.0, op);
      AppendValid(nodes, n, math);
      r := |nodes|;
      nodes := nodes + [n];
    }

    /** `add`: the sum, recorded as `['+', this, other]` (value.js:58-63). */
    method Add(v: nat, other: Arg) returns (r: nat)
      requires Valid() && v < |nodes| && ArgIn(nodes, other)
      modifies this
      ensures Valid() && Extends(nodes, old(nodes))
      ensures var (ns, w) := Wrapped(old(nodes), other);
        nodes == ns + [Node(Forward(ns, Op.Add(v, w), math), 0.0, Op.Add(v, w))] && r == |ns|
      ensures nodes[r].data == old(nodes)[v].data + ArgData(old(nodes), other)
    {
      var w := Wrap(other);
      r := Push(Op.Add(v, w));
    }

    /** `mul`: the product, recorded as `['*', this, other]` (value.js:65-70). */
    method Mul(v: nat, other: Arg) returns (r: nat)
      requires Valid() && v < |nodes| && ArgIn(nodes, other)
      modifies this
      ensures Valid() && Extends(nodes, old(nodes))
      ensures var (ns, w) := Wrapped(old(nodes), other);
        nodes == ns + [Node(Forward(ns, Op.Mul(v, w), math), 0.0, Op.Mul(v, w))] && r == |ns|
      ensures nodes[r].data == old(nodes)[v].data * ArgData(old(nodes), other)
    {
      var w := Wrap(other);
      r := Push(Op.Mul(v, w));
    }

    /** `sub`: `add(other.mul(-1))` for a `Value`, `add(new Value(-other))` for a number (value.js:72-75). */
    method Sub(v: nat, other: Arg) returns (r: nat)
      requires Valid() && v < |nodes| && ArgIn(nodes, other)
      modifies this
      ensures Valid() && Extends(nodes, old(nodes))
      ensures var n, d := |old(nodes)|, old(nodes)[v].data;
        match other
        case Val(b) =>
          var neg := old(nodes)[b].data * -1.0;
          nodes == old(nodes) + [Node(-1.0, 0.0, Leaf), Node(neg, 0.0, Op.Mul(b, n)),
                                 Node(d + neg, 0.0, Op.Add(v, n + 1))] && r == n + 2
        case Num(c) =>
          nodes == old(nodes) + [Node(-c, 0.0, Leaf), Node(d + -c, 0.0, Op.Add(v, n))] && r == n + 1
      ensures nodes[r].data == old(nodes)[v].data - ArgData(old(nodes), other)
    {
      var neg: nat;
      match other {
        case Val(b) => neg := Mul(b, Num(-1.0));
        case Num(c) => neg := NewValue(-c);
      }
      r := Add(v, Val(neg));
    }

    /** `pow`: only a number is accepted as exponent (value.js:77-82). */
    method Pow(v: nat, p: Power) returns (r: Result<nat>)
      requires Valid() && v < |nodes|
      modifies this
      ensures Valid()
      ensures p.NonNumber? ==> r == Err(InvalidExponent) && nodes == old(nodes)
      ensures p.Number? ==>
        r == Ok(|old(nodes)|) &&
        nodes == old(nodes) + [Node(IntPow(old(nodes)[v].data, p.k), 0.0, Op.Pow(v, p.k))]
    {
      match p
      case NonNumber =>
        r := Err(InvalidExponent);
      case Number(k) =>
        var i := Push(Op.Pow(v, k));
        r := Ok(i);
    }

    /** `div`: `mul(other.pow(-1))` for a `Value`, `mul(1 / other)` for a number (value.js:84-89). */
    method Div(v: nat, other: Arg) returns (r: nat)
      requires Valid() && v < |nodes| && ArgIn(nodes, other)
      modifies this
      ensures Valid() && Extends(nodes, old(nodes))
      ensures |nodes| == |old(nodes)| + 2 && r == |old(nodes)| + 1
      ensures other.Val? ==> nodes[r - 1] == Node(IntPow(old(nodes)[other.index].data, -1), 0.0, Op.Pow(other.index, -1))
      ensures other.Num? ==> nodes[r - 1] == Node(Inv(other.x), 0.0, Leaf)
      ensures nodes[r] == Node(old(nodes)[v].data * nodes[r - 1].data, 0.0, Op.Mul(v, r - 1))
      ensures nodes[r].data == old(nodes)[v].data * Inv(ArgData(old(nodes), other))
    {
      match other
      case Val(b) =>
        assert NatPow(nodes[b].data, 1) == nodes[b].data;
        var p := Pow(b, Number(-1));
        r := Mul(v, Val(p.value));
      case Num(c) =>
        r := Mul(v, Num(Inv(c)));
    }

    /** `exp`, with `Math.exp` abstract (value.js:91-93). */
    method Exp(v: nat) returns (r: nat)
      requires Valid() && v < |nodes|
      modifies this
      ensures Valid() && r == |old(nodes)|
      ensures nodes == old(nodes) + [Node(math.exp(old(nodes)[v].data), 0.0, Op.Exp(v))]
    {
      r := Push(Op.Exp(v));
    }

    /** `log`: throws on a non-positive value (value.js:95-100). */
    method Log(v: nat) returns (r: Result<nat>)
      requires Valid() && v < |nodes|
      modifies this
      ensures Valid()
      ensures old(nodes)[v].data <= 0.0 ==> r == Err(DomainError) && nodes == old(nodes)
      ensures old(nodes)[v].data > 0.0 ==>
        r == Ok(|old(nodes)|) &&
        nodes == old(nodes) + [Node(math.log(old(nodes)[v].data), 0.0, Op.Log(v))]
    {
      if nodes[v].data <= 0.0 {
        r := Err(DomainError);
      } else {
        var i := Push(Op.Log(v));
        r := Ok(i);
      }
    }

    /** `tanh`, with `Math.tanh` abstract (value.js:102-104). */
    method Tanh(v: nat) returns (r: nat)
      requires Valid() && v < |nodes|
      modifies this
      ensures Valid() && r == |old(nodes)|
      ensures nodes == old(nodes) + [Node(math.tanh(old(nodes)[v].data), 0.0, Op.Tanh(v))]
    {
      r := Push(Op.Tanh(v));
    }

    /** `sigmoid`: `1 / (1 + exp(-x))` (value.js:106-108). */
    method Sigmoid(v: nat) returns (r: nat)
      requires Valid() && v < |nodes|
      modifies this
      ensures Valid() && r == |old(nodes)|
      ensures nodes == old(nodes) + [Node(Inv(1.0 + math.exp(-old(nodes)[v].data)), 0.0, Op.Sigmoid(v))]
    {
      r := Push(Op.Sigmoid(v));
    }

    /** `relu`: `max(0, x)` (value.js:110-112). */
    method Relu(v: nat) returns (r: nat)
      requires Valid() && v < |nodes|
      modifies this
      ensures Valid() && r == |old(nodes)|
      ensures nodes == old(nodes) + [Node(Max0(old(nodes)[v].data), 0.0, Op.Relu(v))]
    {
      r := Push(Op.Relu(v));
    }

    /**
     * The `traverse` walk with the callback of `backward` (value.js:119-126): the
     * first visit of each node appends it, later visits are ignored.
     */
    method Collect(root: nat) returns (ordered: seq<nat>)
      requires Valid() && root < |nodes|
      ensures ordered == Dedup(Visits(nodes, root))
      ensures Distinct(ordered) && PostOrdered(nodes, ordered)
      ensures forall w :: w in ordered <==> Reaches(nodes, root, w)
    {
      var visits := Visits(nodes, root);
      var seen: set<nat> := {};
      ordered := [];
      for k := 0 to |visits|
        invariant ordered == Dedup(visits[..k])
        invariant forall x :: x in seen <==> x in ordered
      {
        assert visits[..k + 1][..k] == visits[..k];
        var v := visits[k];
        if v !in seen {
          seen := seen + {v};
          ordered := ordered + [v];
        }
      }
      assert visits[..|visits|] == visits;
      VisitsPostOrdered(nodes, root);
      DedupPostOrdered(nodes, visits);
      forall w ensures w in ordered <==> Reaches(nodes, root, w) {
        VisitsExactlyReachable(nodes, root, w);
      }
    }

    /** `w.grad += c`. */
    method Accumulate(w: nat, c: real)
      requires w < |nodes|
      modifies this
      ensures nodes == AddGrad(old(nodes), w, c)
    {
      nodes := nodes[w := nodes[w].(grad := nodes[w].grad + c)];
    }

    /**
     * One entry of `BACKWARD_FUNC` run on node `v` (value.js:2-40): `parent.grad += term`
     * on each parent in turn, where the terms are computed before the first update;
     * it throws on the logarithm of a non-positive number.
     */
    method RunRule(v: nat) returns (ok: bool)
      requires WellFormed(nodes) && v < |nodes|
      modifies this
      ensures Pass(nodes, ok) == Rule(old(nodes), v)
    {
      OperandsBelow(nodes, v);
      ok := true;
      match nodes[v].op {
        case Leaf =>
        case Add(a, b) =>
          var t0, t1 := Term(nodes, v, 0), Term(nodes, v, 1);
          Accumulate(a, t0);
          Accumulate(b, t1);
        case Mul(a, b) =>
          var t0, t1 := Term(nodes, v, 0), Term(nodes, v, 1);
          Accumulate(a, t0);
          Accumulate(b, t1);
        case Log(a) =>
          if nodes[a].data <= 0.0 {
            ok := false;
          } else {
            Accumulate(a, Term(nodes, v, 0));
          }
        case Relu(a) =>
          if nodes[a].data > 0.0 {
            Accumulate(a, Term(nodes, v, 0));
          }
        case Pow(a, _) => Accumulate(a, Term(nodes, v, 0));
        case Exp(a) => Accumulate(a, Term(nodes, v, 0));
        case Tanh(a) => Accumulate(a, Term(nodes, v, 0));
        case Sigmoid(a) => Accumulate(a, Term(nodes, v, 0));
      }
    }

    /** `orderedValues.forEach((v) => { v.grad = 0 })` (value.js:130). */
    method ZeroGrads(ordered: seq<nat>)
      requires forall k :: 0 <= k < |ordered| ==> ordered[k] < |nodes|
      modifies this
      ensures nodes == ResetGrads(old(nodes), ordered)
    {
      for i := 0 to |ordered|
        invariant nodes == ResetGrads(old(nodes), ordered[..i])
      {
        assert ordered[..i + 1][..i] == ordered[..i];
        var v := ordered[i];
        nodes := nodes[v := nodes[v].(grad := 0.0)];
      }
      assert ordered[..|ordered|] == ordered;
    }

    /**
     * The loop of value.js:133-137: the rule of every non-leaf node of `ordered`, in
     * order. The caller guarantees that no rule throws.
     */
    method RunRules(ordered: seq<nat>)
      requires WellFormed(nodes) && forall k :: 0 <= k < |ordered| ==> ordered[k] < |nodes|
      requires Propagate(nodes, ordered).ok
      modifies this
      ensures Pass(nodes, true) == Propagate(old(nodes), ordered)
    {
      ghost var start := nodes;
      for i := 0 to |ordered|
        invariant Pass(nodes, true) == Propagate(start, ordered[..i])
      {
        PropagateNext(start, ordered, i);
        PropagatePrefixOk(start, ordered, i + 1);
        var v := ordered[i];
        if !nodes[v].op.Leaf? {
          var ok := RunRule(v);
          assert ok;
        }
      }
      assert ordered[..|ordered|] == ordered;
    }

    /**
     * `backward()` on `root` (value.js:118-138): collect the reachable nodes, reverse
     * them, zero their gradients, seed the root with 1 and run each non-leaf rule.
     * Data and ops are untouched, so the arena stays valid, and on a valid arena no
     * rule throws.
     */
    method Backward(root: nat)
      requires Valid() && root < |nodes|
      modifies this
      ensures Valid()
      ensures Pass(nodes, true) == BackwardSpec(old(nodes), root)
    {
      var ordered := Collect(root);
      ordered := Reverse(ordered);
      assert ordered == ProcessingOrder(nodes, root);
      BackwardValidOk(nodes, root, math);
      ZeroGrads(ordered);
      nodes := nodes[root := nodes[root].(grad := 1.0)];
      assert nodes == Seeded(old(nodes), ordered, root);
      RunRules(ordered);
      SameValuesValid(old(nodes), nodes, math);
    }
  }
}
