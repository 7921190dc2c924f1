/**
 * The node arena of the autodiff engine (value.js).
 *
 * Every `Value` object of the source becomes one entry of a sequence of nodes,
 * addressed by its index. A node's operands are the indices of the `Value`s that
 * its `_op` array references; because operators build nodes eagerly, an operand
 * always has a smaller index than the node built from it, which makes the
 * operand graph acyclic.
 */
module Arena {

  /** The errors the engine and the network layer throw. */
  datatype Error =
    | DomainError      // logarithm of a non-positive number
    | InvalidExponent  // `pow` called with something that is not a number
    | ShapeMismatch    // neuron input count differs from its weight count
    | LengthMismatch   // loss inputs and targets differ in length
    | TypeError        // a method called on `undefined` or on a plain number
    | UndefinedInput   // an `undefined` layer output fed into a further layer

  datatype Result<T> = Ok(value: T) | Err(error: Error)

  datatype Option<T> = None | Some(value: T)

  /** The `_op` tag of a node: null for a leaf, otherwise the kind and its operands. */
  datatype Op =
    | Leaf
    | Add(a: nat, b: nat)
    | Mul(a: nat, b: nat)
    | Pow(a: nat, p: int)
    | Exp(a: nat)
    | Log(a: nat)
    | Tanh(a: nat)
    | Sigmoid(a: nat)
    | Relu(a: nat)

  datatype Node = Node(data: real, grad: real, op: Op)

  /** An operand as a caller passes it: a `Value` already in the arena, or a plain number. */
  datatype Arg = Val(index: nat) | Num(x: real)

  /**
   * The transcendental functions `Math.exp`, `Math.log` and `Math.tanh`, which the
   * model does not compute; a graph is built against one fixed choice of them.
   */
  datatype Math = Math(exp: real -> real, log: real -> real, tanh: real -> real)

  ghost predicate ExpPositive(m: Math)
  {
    forall x :: m.exp(x) > 0.0
  }

  /** The `Value` operands of an op, in `_op` order; the exponent of `^` is a number and is skipped. */
  function Operands(op: Op): (r: seq<nat>)
    ensures |r| <= 2
    ensures r == [] <==> op.Leaf?
  {
    match op
    case Leaf => []
    case Add(a, b) => [a, b]
    case Mul(a, b) => [a, b]
    case Pow(a, _) => [a]
    case Exp(a) => [a]
    case Log(a) => [a]
    case Tanh(a) => [a]
    case Sigmoid(a) => [a]
    case Relu(a) => [a]
  }

  /** True when `w` is one of the `Value` operands of node `v`. */
  predicate IsOperand(nodes: seq<Node>, v: nat, w: nat)
    requires v < |nodes|
  {
    w in Operands(nodes[v].op)
  }

  /** Every operand of a node was built strictly before it. */
  ghost predicate WellFormed(nodes: seq<Node>)
  {
    forall v: nat, w: nat :: v < |nodes| && IsOperand(nodes, v, w) ==> w < v
  }

  /** The operand fields of a node hold smaller indices. */
  lemma OperandsBelow(nodes: seq<Node>, v: nat)
    requires WellFormed(nodes) && v < |nodes|
    ensures !nodes[v].op.Leaf? ==> nodes[v].op.a < v
    ensures nodes[v].op.Add? || nodes[v].op.Mul? ==> nodes[v].op.b < v
  {
    var op := nodes[v].op;
    if !op.Leaf? {
      assert IsOperand(nodes, v, op.a);
    }
    if op.Add? || op.Mul? {
      assert IsOperand(nodes, v, op.b);
    }
  }

  /** `x` to a natural power. */
  function NatPow(x: real, n: nat): real
  {
    if n == 0 then 1.0 else x * NatPow(x, n - 1)
  }

  function Inv(x: real): (r: real)
    ensures x != 0.0 ==> r * x == 1.0
  {
    if x == 0.0 then 0.0 else 1.0 / x
  }

  /** `x` to an integer power; a negative power of zero stands for IEEE Infinity (see README). */
  function IntPow(x: real, n: int): real
  {
    if n >= 0 then NatPow(x, n) else Inv(NatPow(x, -n))
  }

  lemma Square(x: real)
    ensures IntPow(x, 2) == x * x
  {
    assert NatPow(x, 1) == x;
  }

  function Max0(x: real): (r: real)
    ensures r >= 0.0 && r >= x && (r == x || r == 0.0)
  {
    if 0.0 > x then 0.0 else x
  }

  /** The forward value an op computes from its operands' data (the eager evaluation of value.js:58-112). */
  function Forward(nodes: seq<Node>, op: Op, m: Math): (r: real)
    requires forall w :: w in Operands(op) ==> w < |nodes|
    ensures op.Relu? ==> r >= 0.0
    ensures ExpPositive(m) && op.Exp? ==> r > 0.0
    ensures ExpPositive(m) && op.Sigmoid? ==> 0.0 < r < 1.0
  {
    assert !op.Leaf? ==> op.a in Operands(op);
    assert op.Add? || op.Mul? ==> op.b in Operands(op);
    SigmoidBounds(if op.Leaf? then 0.0 else nodes[op.a].data, m);
    match op
    case Leaf => 0.0
    case Add(a, b) => nodes[a].data + nodes[b].data
    case Mul(a, b) => nodes[a].data * nodes[b].data
    case Pow(a, p) => IntPow(nodes[a].data, p)
    case Exp(a) => m.exp(nodes[a].data)
    case Log(a) => m.log(nodes[a].data)
    case Tanh(a) => m.tanh(nodes[a].data)
    case Sigmoid(a) => Inv(1.0 + m.exp(-nodes[a].data))
    case Relu(a) => Max0(nodes[a].data)
  }

  /** With a positive `exp`, `1 / (1 + exp(-x))` lies strictly between 0 and 1. */
  lemma SigmoidBounds(x: real, m: Math)
    ensures ExpPositive(m) ==> 0.0 < Inv(1.0 + m.exp(-x)) < 1.0
  {
    if ExpPositive(m) {
      var d := 1.0 + m.exp(-x);
      assert d > 1.0;
      assert Inv(d) * d == 1.0;
    }
  }

  /** Node `v` holds the value its op computes, and a logarithm's operand is positive. */
  ghost predicate Evaluated(nodes: seq<Node>, v: nat, m: Math)
    requires WellFormed(nodes) && v < |nodes|
  {
    var op := nodes[v].op;
    assert forall w :: w in Operands(op) ==> IsOperand(nodes, v, w);
    assert op.Log? ==> op.a in Operands(op);
    (op.Leaf? || nodes[v].data == Forward(nodes, op, m)) &&
    (op.Log? ==> nodes[op.a].data > 0.0)
  }

  /** The invariant of every arena the operators build. */
  ghost predicate Valid(nodes: seq<Node>, m: Math)
  {
    WellFormed(nodes) && forall v :: 0 <= v < |nodes| ==> Evaluated(nodes, v, m)
  }

  /** Two arenas with the same data and ops, whatever their gradients. */
  ghost predicate SameValues(n1: seq<Node>, n2: seq<Node>)
  {
    |n1| == |n2| && forall j :: 0 <= j < |n1| ==> n1[j].data == n2[j].data && n1[j].op == n2[j].op
  }

  lemma SameValuesWellFormed(n1: seq<Node>, n2: seq<Node>)
    requires SameValues(n1, n2) && WellFormed(n1)
    ensures WellFormed(n2)
  {
    forall v: nat, w: nat | v < |n2| && IsOperand(n2, v, w) ensures w < v {
      assert IsOperand(n1, v, w);
    }
  }

  lemma {:induction false} SameValuesValid(n1: seq<Node>, n2: seq<Node>, m: Math)
    requires SameValues(n1, n2) && Valid(n1, m)
    ensures Valid(n2, m)
  {
    SameValuesWellFormed(n1, n2);
    forall v | 0 <= v < |n2| ensures Evaluated(n2, v, m) {
      assert Evaluated(n1, v, m);
      var op := n1[v].op;
      assert forall w :: w in Operands(op) ==> IsOperand(n1, v, w);
      assert !op.Leaf? ==> op.a in Operands(op);
      assert op.Add? || op.Mul? ==> op.b in Operands(op);
      assert !op.Leaf? ==> Forward(n1, op, m) == Forward(n2, op, m);
    }
  }

  /** The data a caller's operand stands for. */
  function ArgData(nodes: seq<Node>, x: Arg): real
    requires x.Val? ==> x.index < |nodes|
  {
    match x
    case Val(i) => nodes[i].data
    case Num(c) => c
  }

  predicate ArgIn(nodes: seq<Node>, x: Arg)
  {
    x.Val? ==> x.index < |nodes|
  }

  /** `old` is an unchanged prefix of `nodes`: the operators only allocate new nodes. */
  ghost predicate Extends(nodes: seq<Node>, old_nodes: seq<Node>)
  {
    |old_nodes| <= |nodes| && nodes[..|old_nodes|] == old_nodes
  }

  lemma ForwardPrefix(nodes: seq<Node>, more: seq<Node>, op: Op, m: Math)
    requires forall w :: w in Operands(op) ==> w < |nodes|
    ensures Forward(nodes + more, op, m) == Forward(nodes, op, m)
  {
    var all := nodes + more;
    assert !op.Leaf? ==> op.a in Operands(op) && all[op.a] == nodes[op.a];
    assert op.Add? || op.Mul? ==> op.b in Operands(op) && all[op.b] == nodes[op.b];
  }

  /** Appending a node built from earlier nodes and holding its forward value keeps the arena valid. */
  lemma AppendValid(nodes: seq<Node>, n: Node, m: Math)
    requires Valid(nodes, m)
    requires forall w :: w in Operands(n.op) ==> w < |nodes|
    requires !n.op.Leaf? ==> n.data == Forward(nodes, n.op, m)
    requires n.op.Log? ==> n.op.a < |nodes| && nodes[n.op.a].data > 0.0
    ensures Valid(nodes + [n], m)
  {
    var all := nodes + [n];
    assert WellFormed(all) by {
      forall v: nat, w: nat | v < |all| && IsOperand(all, v, w) ensures w < v {
        if v < |nodes| {
          assert IsOperand(nodes, v, w);
        }
      }
    }
    forall v | 0 <= v < |all| ensures Evaluated(all, v, m) {
      if v < |nodes| {
        assert Evaluated(nodes, v, m);
        var op := nodes[v].op;
        assert forall w :: w in Operands(op) ==> IsOperand(nodes, v, w);
        ForwardPrefix(nodes, [n], op, m);
        assert op.Log? ==> op.a in Operands(op) && all[op.a] == nodes[op.a];
      } else {
        ForwardPrefix(nodes, [n], n.op, m);
      }
    }
  }
}
