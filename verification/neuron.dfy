/**
 * A neuron of the network (neuron.js): weights and a bias held as nodes of the
 * graph, and a forward pass that builds `bias + w[0]*x[0] + ... + w[n-1]*x[n-1]`
 * and applies the activation named by `actFunc`.
 */
module Neurons {
  import opened Arena
  import opened Values

  /**
   * The `actFunc` of a neuron: a falsy value (no activation), the name of one of
   * the unary operators of `Value`, or a name that is not a method of `Value`.
   */
  datatype Activation =
    | NoActivation
    | ReluActivation
    | TanhActivation
    | SigmoidActivation
    | ExpActivation
    | LogActivation
    | NotAMethod

  datatype Neuron = Neuron(weights: seq<nat>, bias: nat, act: Activation)

  /** The weights and the bias are nodes of `nodes`. */
  predicate InRange(nodes: seq<Node>, n: Neuron)
  {
    n.bias < |nodes| && forall i :: 0 <= i < |n.weights| ==> n.weights[i] < |nodes|
  }

  /** `parameters()`: the weights in order, then the bias (neuron.js:10-12). */
  function Parameters(n: Neuron): (r: seq<nat>)
    ensures |r| == |n.weights| + 1 && r[|n.weights|] == n.bias
    ensures forall i :: 0 <= i < |n.weights| ==> r[i] == n.weights[i]
  {
    n.weights + [n.bias]
  }

  /**
   * An input as the forward pass receives it: a `Value` or a number, or `undefined`
   * (`None`), which a layer of neurons without inputs and without activation returns.
   */
  function InputData(nodes: seq<Node>, x: Option<Arg>): (r: Option<real>)
    requires x.Some? ==> ArgIn(nodes, x.value)
    ensures r.Some? <==> x.Some?
  {
    match x
    case None => None
    case Some(a) => Some(ArgData(nodes, a))
  }

  predicate InputsIn(nodes: seq<Node>, xs: seq<Option<Arg>>)
  {
    forall i :: 0 <= i < |xs| ==> xs[i].Some? ==> ArgIn(nodes, xs[i].value)
  }

  /** The data of a sequence of inputs. */
  function InputsData(nodes: seq<Node>, xs: seq<Option<Arg>>): (r: seq<Option<real>>)
    requires InputsIn(nodes, xs)
    ensures |r| == |xs| && forall i :: 0 <= i < |xs| ==> r[i] == InputData(nodes, xs[i])
  {
    if xs == [] then [] else InputsData(nodes, xs[..|xs| - 1]) + [InputData(nodes, xs[|xs| - 1])]
  }

  /** The data of the weights. */
  function WeightData(nodes: seq<Node>, n: Neuron): (r: seq<real>)
    requires InRange(nodes, n)
    ensures |r| == |n.weights| && forall i :: 0 <= i < |r| ==> r[i] == nodes[n.weights[i]].data
  {
    seq(|n.weights|, i requires 0 <= i < |n.weights| => nodes[n.weights[i]].data)
  }

  /** All inputs are defined. */
  predicate Defined(xs: seq<Option<real>>)
  {
    forall i :: 0 <= i < |xs| ==> xs[i].Some?
  }

  /**
   * The data of the running sum after `k` inputs: the bias, then each product
   * added on the right, in the order of the loop of neuron.js:19-22.
   */
  function Affine(bias: real, ws: seq<real>, xs: seq<Option<real>>, k: nat): real
    requires k <= |ws| && k <= |xs| && Defined(xs)
  {
    if k == 0 then bias else Affine(bias, ws, xs, k - 1) + ws[k - 1] * xs[k - 1].value
  }

  /** The dot product, as a reference definition by recursion from the front. */
  function Dot(ws: seq<real>, xs: seq<real>): real
    requires |ws| == |xs|
  {
    if ws == [] then 0.0 else ws[0] * xs[0] + Dot(ws[1..], xs[1..])
  }

  function Present(xs: seq<Option<real>>): (r: seq<real>)
    requires Defined(xs)
    ensures |r| == |xs| && forall i :: 0 <= i < |xs| ==> r[i] == xs[i].value
  {
    seq(|xs|, i requires 0 <= i < |xs| => xs[i].value)
  }

  lemma {:induction false} DotSnoc(ws: seq<real>, xs: seq<real>, w: real, x: real)
    requires |ws| == |xs|
    ensures Dot(ws + [w], xs + [x]) == Dot(ws, xs) + w * x
    decreases |ws|
  {
    if ws == [] {
      assert Dot([w], [x]) == w * x + Dot([], []);
    } else {
      assert (ws + [w])[1..] == ws[1..] + [w];
      assert (xs + [x])[1..] == xs[1..] + [x];
      DotSnoc(ws[1..], xs[1..], w, x);
    }
  }

  /** The running sum of the loop is the bias plus the dot product of weights and inputs. */
  lemma {:induction false} AffineIsDot(bias: real, ws: seq<real>, xs: seq<Option<real>>, k: nat)
    requires k <= |ws| && k <= |xs| && Defined(xs)
    ensures Affine(bias, ws, xs, k) == bias + Dot(ws[..k], Present(xs)[..k])
  {
    if k > 0 {
      AffineIsDot(bias, ws, xs, k - 1);
      assert ws[..k] == ws[..k - 1] + [ws[k - 1]];
      assert Present(xs)[..k] == Present(xs)[..k - 1] + [xs[k - 1].value];
      DotSnoc(ws[..k - 1], Present(xs)[..k - 1], ws[k - 1], xs[k - 1].value);
    }
  }

  /** `sum[actFunc]()`, or the sum itself without an activation (neuron.js:24). */
  function Activate(act: Activation, x: real, m: Math): (r: Result<real>)
    ensures r.Err? <==> act.NotAMethod? || (act.LogActivation? && x <= 0.0)
    ensures act.NoActivation? ==> r == Ok(x)
    ensures act.ReluActivation? ==> r.Ok? && r.value >= 0.0 && r.value >= x
    ensures act.ReluActivation? && x <= 0.0 ==> r == Ok(0.0)
    ensures act.ReluActivation? && x > 0.0 ==> r == Ok(x)
  {
    match act
    case NoActivation => Ok(x)
    case ReluActivation => Ok(Max0(x))
    case TanhActivation => Ok(m.tanh(x))
    case SigmoidActivation => Ok(Inv(1.0 + m.exp(-x)))
    case ExpActivation => Ok(m.exp(x))
    case LogActivation => if x <= 0.0 then Err(DomainError) else Ok(m.log(x))
    case NotAMethod => Err(TypeError)
  }

  /**
   * What `forward(inputs)` returns, as data (neuron.js:14-25): a shape error when
   * the input count differs from the weight count; `undefined` without inputs and
   * without activation (the sum was never assigned) and a type error with an
   * activation; otherwise the activation of the bias plus the weighted inputs.
   */
  function Output(ws: seq<real>, bias: real, act: Activation, xs: seq<Option<real>>, m: Math): (r: Result<Option<real>>)
    ensures r == Err(ShapeMismatch) <==> |xs| != |ws|
    ensures r.Ok? ==> Defined(xs)
    ensures r.Ok? && r.value.None? <==> xs == [] && ws == [] && act.NoActivation?
  {
    if |xs| != |ws| then Err(ShapeMismatch)
    else if !Defined(xs) then Err(UndefinedInput)
    else if xs == [] then (if act.NoActivation? then Ok(None) else Err(TypeError))
    else
      var y := Activate(act, Affine(bias, ws, xs, |xs|), m);
      if y.Err? then Err(y.error) else Ok(Some(y.value))
  }

  /** A neuron's output, read from the arena holding its weights and bias. */
  function NeuronOutput(nodes: seq<Node>, n: Neuron, xs: seq<Option<real>>, m: Math): (r: Result<Option<real>>)
    requires InRange(nodes, n)
    ensures r == Err(ShapeMismatch) <==> |xs| != |n.weights|
    ensures r.Ok? && r.value.None? <==> xs == [] && n.weights == [] && n.act.NoActivation?
  {
    Output(WeightData(nodes, n), nodes[n.bias].data, n.act, xs, m)
  }

  /**
   * Without activation, a neuron with matching defined inputs computes the bias
   * plus the dot product of its weights and inputs, and only a length mismatch
   * fails.
   */
  lemma LinearOutput(ws: seq<real>, bias: real, xs: seq<Option<real>>, m: Math)
    requires |xs| == |ws| > 0 && Defined(xs)
    ensures Output(ws, bias, NoActivation, xs, m) == Ok(Some(bias + Dot(ws, Present(xs))))
  {
    AffineIsDot(bias, ws, xs, |xs|);
    assert ws[..|xs|] == ws && Present(xs)[..|xs|] == Present(xs);
  }

  /**
   * A ReLU neuron's output is never negative: it is the linear output when that is
   * positive, and 0 otherwise.
   */
  lemma ReluOutput(ws: seq<real>, bias: real, xs: seq<Option<real>>, m: Math)
    requires |xs| == |ws| > 0 && Defined(xs)
    ensures var r := Output(ws, bias, ReluActivation, xs, m);
      r.Ok? && r.value.Some? && r.value.value >= 0.0
    ensures var r := Output(ws, bias, ReluActivation, xs, m);
      var lin := bias + Dot(ws, Present(xs));
      r.Ok? && r.value.Some? && r.value.value == if lin > 0.0 then lin else 0.0
  {
    AffineIsDot(bias, ws, xs, |xs|);
    assert ws[..|xs|] == ws && Present(xs)[..|xs|] == Present(xs);
  }

  /** The data of a result index, as `Output` gives it. */
  function ResultData(nodes: seq<Node>, r: Result<Option<nat>>): Result<Option<real>>
    requires r.Ok? && r.value.Some? ==> r.value.value < |nodes|
  {
    match r
    case Err(e) => Err(e)
    case Ok(None) => Ok(None)
    case Ok(Some(i)) => Ok(Some(nodes[i].data))
  }

  lemma ExtendsTrans(a: seq<Node>, b: seq<Node>, c: seq<Node>)
    requires Extends(b, a) && Extends(c, b)
    ensures Extends(c, a)
  {
    assert c[..|a|] == c[..|b|][..|a|];
  }

  lemma ExtendsOne(nodes: seq<Node>, old_nodes: seq<Node>, j: nat)
    requires Extends(nodes, old_nodes) && j < |old_nodes|
    ensures nodes[j] == old_nodes[j]
  {
    assert nodes[..|old_nodes|][j] == nodes[j];
  }

  lemma ExtendsArg(nodes: seq<Node>, old_nodes: seq<Node>, t: Arg)
    requires Extends(nodes, old_nodes) && ArgIn(old_nodes, t)
    ensures ArgIn(nodes, t) && ArgData(nodes, t) == ArgData(old_nodes, t)
  {
    if t.Val? {
      ExtendsOne(nodes, old_nodes, t.index);
    }
  }

  /** Allocating more nodes changes neither a neuron's parameters nor its output. */
  lemma ExtendsNeuron(nodes: seq<Node>, old_nodes: seq<Node>, n: Neuron, xs: seq<Option<real>>, m: Math)
    requires Extends(nodes, old_nodes) && InRange(old_nodes, n)
    ensures InRange(nodes, n) && WeightData(nodes, n) == WeightData(old_nodes, n)
    ensures nodes[n.bias] == old_nodes[n.bias]
    ensures NeuronOutput(nodes, n, xs, m) == NeuronOutput(old_nodes, n, xs, m)
  {
    assert forall i :: 0 <= i < |old_nodes| ==> nodes[i] == old_nodes[i];
    assert WeightData(nodes, n) == WeightData(old_nodes, n);
  }

  /**
   * `new Neuron(dim, act)` with the random initial weights given as `init`
   * (neuron.js:4-8): one leaf per weight, then a zero bias. The source's default
   * activation is `'relu'`: a call that omits `act` passes `ReluActivation`.
   */
  method NewNeuron(g: Graph, init: seq<real>, act: Activation) returns (n: Neuron)
    requires g.Valid()
    modifies g
    ensures g.Valid() && g.nodes == old(g.nodes) + Leaves(init + [0.0])
    ensures n.act == act && InRange(g.nodes, n) && |n.weights| == |init|
    ensures Parameters(n) == Range(|old(g.nodes)|, |g.nodes|)
    ensures WeightData(g.nodes, n) == init && g.nodes[n.bias].data == 0.0
  {
    var weights: seq<nat> := [];
    for i := 0 to |init|
      invariant g.Valid() && g.nodes == old(g.nodes) + Leaves(init[..i])
      invariant weights == Range(|old(g.nodes)|, |g.nodes|)
    {
      assert init[..i + 1] == init[..i] + [init[i]];
      LeavesAppend(init[..i], [init[i]]);
      var w := g.NewValue(init[i]);
      weights := weights + [w];
    }
    assert init[..|init|] == init;
    LeavesAppend(init, [0.0]);
    var bias := g.NewValue(0.0);
    n := Neuron(weights, bias, act);
    assert Parameters(n)[..|init|] == weights;
  }

  /** Fresh leaves holding the given data. */
  function Leaves(xs: seq<real>): (r: seq<Node>)
    ensures |r| == |xs| && forall i :: 0 <= i < |xs| ==> r[i] == Node(xs[i], 0.0, Leaf)
  {
    seq(|xs|, i requires 0 <= i < |xs| => Node(xs[i], 0.0, Leaf))
  }

  lemma LeavesAppend(xs: seq<real>, ys: seq<real>)
    ensures Leaves(xs + ys) == Leaves(xs) + Leaves(ys)
  {
  }

  /** The indices `lo`, `lo + 1`, ..., `hi - 1`. */
  function Range(lo: nat, hi: nat): (r: seq<nat>)
    requires lo <= hi
    ensures |r| == hi - lo && forall i :: 0 <= i < |r| ==> r[i] == lo + i
  {
    seq(hi - lo, i requires 0 <= i < hi - lo => lo + i)
  }

  lemma RangeAppend(a: nat, b: nat, c: nat)
    requires a <= b <= c
    ensures Range(a, b) + Range(b, c) == Range(a, c)
  {
  }

  /**
   * The loop of neuron.js:19-22: the running sum starts at the bias and becomes
   * `sum.add(weights[i].mul(input))` for each input in turn.
   */
  method WeightedSum(g: Graph, n: Neuron, inputs: seq<Option<Arg>>) returns (s: nat)
    requires g.Valid() && InRange(g.nodes, n) && InputsIn(g.nodes, inputs)
    requires |inputs| == |n.weights| > 0 && forall i :: 0 <= i < |inputs| ==> inputs[i].Some?
    modifies g
    ensures g.Valid() && Extends(g.nodes, old(g.nodes)) && s < |g.nodes|
    ensures Defined(InputsData(old(g.nodes), inputs))
    ensures g.nodes[s].data ==
      Affine(old(g.nodes)[n.bias].data, WeightData(old(g.nodes), n), InputsData(old(g.nodes), inputs), |inputs|)
  {
    ghost var start := g.nodes;
    ghost var xs := InputsData(start, inputs);
    ghost var ws := WeightData(start, n);
    ghost var b := start[n.bias].data;
    s := n.bias;
    for i := 0 to |inputs|
      invariant g.Valid() && Extends(g.nodes, start)
      invariant s < |g.nodes| && g.nodes[s].data == Affine(b, ws, xs, i)
    {
      ghost var before := g.nodes;
      ExtendsOne(before, start, n.weights[i]);
      ExtendsArg(before, start, inputs[i].value);
      s := AddProduct(g, s, n.weights[i], inputs[i].value);
      ExtendsTrans(start, before, g.nodes);
    }
  }

  /** One step of the loop of neuron.js:19-22: `sum.add(w.mul(x))`. */
  method AddProduct(g: Graph, s: nat, w: nat, x: Arg) returns (r: nat)
    requires g.Valid() && s < |g.nodes| && w < |g.nodes| && ArgIn(g.nodes, x)
    modifies g
    ensures g.Valid() && Extends(g.nodes, old(g.nodes)) && r < |g.nodes|
    ensures g.nodes[r].data == old(g.nodes)[s].data + old(g.nodes)[w].data * ArgData(old(g.nodes), x)
  {
    var p := g.Mul(w, x);
    ghost var mid := g.nodes;
    ExtendsOne(mid, old(g.nodes), s);
    r := g.Add(s, Val(p));
    ExtendsTrans(old(g.nodes), mid, g.nodes);
  }

  /**
   * `forward(inputs)` (neuron.js:14-25): the weighted sum, then the activation.
   * Nodes already in the graph are untouched, and the result's data is what
   * `NeuronOutput` says.
   */
  method NeuronForward(g: Graph, n: Neuron, inputs: seq<Option<Arg>>) returns (r: Result<Option<nat>>)
    requires g.Valid() && InRange(g.nodes, n) && InputsIn(g.nodes, inputs)
    modifies g
    ensures g.Valid() && Extends(g.nodes, old(g.nodes))
    ensures r.Ok? && r.value.Some? ==> r.value.value < |g.nodes|
    ensures ResultData(g.nodes, r) == NeuronOutput(old(g.nodes), n, InputsData(old(g.nodes), inputs), g.math)
  {
    ghost var xs := InputsData(g.nodes, inputs);
    if |inputs| != |n.weights| {
      return Err(ShapeMismatch);
    }
    if exists i :: 0 <= i < |inputs| && inputs[i].None? {
      assert !Defined(xs);
      return Err(UndefinedInput);
    }
    if |inputs| == 0 {
      if n.act.NoActivation? {
        return Ok(None);
      }
      return Err(TypeError);
    }
    ghost var start := g.nodes;
    var s := WeightedSum(g, n, inputs);
    ghost var before := g.nodes;
    match n.act {
      case NoActivation => r := Ok(Some(s));
      case ReluActivation => var y := g.Relu(s); r := Ok(Some(y));
      case TanhActivation => var y := g.Tanh(s); r := Ok(Some(y));
      case SigmoidActivation => var y := g.Sigmoid(s); r := Ok(Some(y));
      case ExpActivation => var y := g.Exp(s); r := Ok(Some(y));
      case LogActivation =>
        var y := g.Log(s);
        r := if y.Ok? then Ok(Some(y.value)) else Err(y.error);
      case NotAMethod => r := Err(TypeError);
    }
    ExtendsTrans(start, before, g.nodes);
  }
}
