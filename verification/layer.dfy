/**
 * A layer of neurons (layer.js): every neuron sees the same inputs, and the
 * layer's output lists the neurons' outputs in order.
 */
module Layers {
  import opened Arena
  import opened Values
  import opened Neurons

  datatype Layer = Layer(neurons: seq<Neuron>)

  predicate LayerInRange(nodes: seq<Node>, l: Layer)
  {
    forall j :: 0 <= j < |l.neurons| ==> InRange(nodes, l.neurons[j])
  }

  /** Every neuron has `dimIn` weights and the given activation. */
  predicate Shaped(l: Layer, dimIn: nat, dimOut: nat, act: Activation)
  {
    |l.neurons| == dimOut &&
    forall j :: 0 <= j < dimOut ==> |l.neurons[j].weights| == dimIn && l.neurons[j].act == act
  }

  /** `parameters()`: the neurons' parameters, one neuron after the other (layer.js:8-10). */
  function LayerParameters(l: Layer): (r: seq<nat>)
    ensures forall j, p :: 0 <= j < |l.neurons| && p in Parameters(l.neurons[j]) ==> p in r
    decreases |l.neurons|
  {
    if l.neurons == [] then []
    else
      var init := Layer(l.neurons[..|l.neurons| - 1]);
      var r := LayerParameters(init) + Parameters(l.neurons[|l.neurons| - 1]);
      assert forall j :: 0 <= j < |l.neurons| - 1 ==> l.neurons[j] == init.neurons[j];
      r
  }

  /** A layer of `dimOut` neurons with `dimIn` inputs each has `dimOut * (dimIn + 1)` parameters. */
  lemma {:induction false} ParameterCount(l: Layer, dimIn: nat, dimOut: nat, act: Activation)
    requires Shaped(l, dimIn, dimOut, act)
    ensures |LayerParameters(l)| == dimOut * (dimIn + 1)
    decreases dimOut
  {
    if dimOut > 0 {
      var init := Layer(l.neurons[..dimOut - 1]);
      assert Shaped(init, dimIn, dimOut - 1, act);
      ParameterCount(init, dimIn, dimOut - 1, act);
    }
  }

  /**
   * The parameters are laid out neuron by neuron: entry `j * (dimIn + 1) + i` is
   * the `i`-th parameter of neuron `j`.
   */
  lemma {:induction false} LayerParametersAt(l: Layer, dimIn: nat, dimOut: nat, act: Activation, j: nat, i: nat)
    requires Shaped(l, dimIn, dimOut, act) && j < dimOut && i <= dimIn
    ensures j * (dimIn + 1) + i < |LayerParameters(l)|
    ensures LayerParameters(l)[j * (dimIn + 1) + i] == Parameters(l.neurons[j])[i]
    decreases dimOut
  {
    var init := Layer(l.neurons[..dimOut - 1]);
    assert Shaped(init, dimIn, dimOut - 1, act);
    ParameterCount(init, dimIn, dimOut - 1, act);
    ParameterCount(l, dimIn, dimOut, act);
    if j < dimOut - 1 {
      LayerParametersAt(init, dimIn, dimOut - 1, act, j, i);
      assert init.neurons[j] == l.neurons[j];
    } else {
      assert j * (dimIn + 1) == (dimOut - 1) * (dimIn + 1);
    }
  }

  /**
   * What `forward(inputs)` returns, as data (layer.js:12-14): the neurons' outputs
   * in order, or the error of the first neuron that throws.
   */
  function LayerOutput(nodes: seq<Node>, l: Layer, xs: seq<Option<real>>, m: Math): (r: Result<seq<Option<real>>>)
    requires LayerInRange(nodes, l)
    ensures r.Ok? ==> |r.value| == |l.neurons|
    decreases |l.neurons|
  {
    if l.neurons == [] then Ok([])
    else
      var init := Layer(l.neurons[..|l.neurons| - 1]);
      var front := LayerOutput(nodes, init, xs, m);
      if front.Err? then front
      else
        var y := NeuronOutput(nodes, l.neurons[|l.neurons| - 1], xs, m);
        if y.Err? then Err(y.error) else Ok(front.value + [y.value])
  }

  /**
   * The layer succeeds exactly when every neuron does, and then its `j`-th output
   * is the `j`-th neuron's output.
   */
  lemma {:induction false} LayerOutputNeurons(nodes: seq<Node>, l: Layer, xs: seq<Option<real>>, m: Math)
    requires LayerInRange(nodes, l)
    ensures var r := LayerOutput(nodes, l, xs, m);
      (r.Ok? <==> forall j :: 0 <= j < |l.neurons| ==> NeuronOutput(nodes, l.neurons[j], xs, m).Ok?) &&
      (r.Ok? ==> forall j :: 0 <= j < |l.neurons| ==> r.value[j] == NeuronOutput(nodes, l.neurons[j], xs, m).value)
  {
    LayerOutputOk(nodes, l, xs, m);
    LayerOutputValues(nodes, l, xs, m);
  }

  lemma {:induction false} LayerOutputOk(nodes: seq<Node>, l: Layer, xs: seq<Option<real>>, m: Math)
    requires LayerInRange(nodes, l)
    ensures LayerOutput(nodes, l, xs, m).Ok? <==> forall j :: 0 <= j < |l.neurons| ==> NeuronOutput(nodes, l.neurons[j], xs, m).Ok?
    decreases |l.neurons|
  {
    if l.neurons != [] {
      var k := |l.neurons| - 1;
      var init := Layer(l.neurons[..k]);
      LayerOutputOk(nodes, init, xs, m);
      assert forall j :: 0 <= j < k ==> init.neurons[j] == l.neurons[j];
    }
  }

  lemma {:induction false} LayerOutputValues(nodes: seq<Node>, l: Layer, xs: seq<Option<real>>, m: Math)
    requires LayerInRange(nodes, l)
    ensures var r := LayerOutput(nodes, l, xs, m);
      r.Ok? ==> forall j :: 0 <= j < |l.neurons| ==>
        NeuronOutput(nodes, l.neurons[j], xs, m).Ok? && r.value[j] == NeuronOutput(nodes, l.neurons[j], xs, m).value
    decreases |l.neurons|
  {
    var r := LayerOutput(nodes, l, xs, m);
    if l.neurons != [] && r.Ok? {
      var k := |l.neurons| - 1;
      var init := Layer(l.neurons[..k]);
      var front := LayerOutput(nodes, init, xs, m);
      var y := NeuronOutput(nodes, l.neurons[k], xs, m);
      assert front.Ok? && y.Ok? && r.value == front.value + [y.value];
      LayerOutputValues(nodes, init, xs, m);
      assert forall j :: 0 <= j < k ==> init.neurons[j] == l.neurons[j];
    }
  }

  /** Once a prefix of the neurons fails, the layer fails with the same error. */
  lemma {:induction false} LayerOutputErrPrefix(nodes: seq<Node>, l: Layer, xs: seq<Option<real>>, m: Math, k: nat)
    requires LayerInRange(nodes, l) && k <= |l.neurons|
    requires LayerOutput(nodes, Layer(l.neurons[..k]), xs, m).Err?
    ensures LayerOutput(nodes, l, xs, m) == LayerOutput(nodes, Layer(l.neurons[..k]), xs, m)
    decreases |l.neurons|
  {
    if k < |l.neurons| {
      var init := Layer(l.neurons[..|l.neurons| - 1]);
      assert init.neurons[..k] == l.neurons[..k];
      LayerOutputErrPrefix(nodes, init, xs, m, k);
    } else {
      assert l.neurons[..k] == l.neurons;
    }
  }

  /** A wrong input count fails the whole layer with a shape error, when it has a neuron. */
  lemma ShapeErrorOfLayer(nodes: seq<Node>, l: Layer, xs: seq<Option<real>>, m: Math, dimIn: nat, dimOut: nat, act: Activation)
    requires LayerInRange(nodes, l) && Shaped(l, dimIn, dimOut, act) && dimOut > 0 && |xs| != dimIn
    ensures LayerOutput(nodes, l, xs, m) == Err(ShapeMismatch)
  {
    ShapeErrorFirst(nodes, l, xs, m, dimIn, act, dimOut);
  }

  lemma {:induction false} ShapeErrorFirst(nodes: seq<Node>, l: Layer, xs: seq<Option<real>>, m: Math, dimIn: nat, act: Activation, k: nat)
    requires LayerInRange(nodes, l) && Shaped(l, dimIn, k, act) && k > 0 && |xs| != dimIn
    ensures LayerOutput(nodes, l, xs, m) == Err(ShapeMismatch)
    decreases k
  {
    var init := Layer(l.neurons[..k - 1]);
    if k > 1 {
      assert Shaped(init, dimIn, k - 1, act);
      ShapeErrorFirst(nodes, init, xs, m, dimIn, act, k - 1);
    } else {
      assert LayerOutput(nodes, init, xs, m) == Ok([]);
    }
  }

  lemma InputsDataPrefix(nodes: seq<Node>, more: seq<Node>, xs: seq<Option<Arg>>)
    requires InputsIn(nodes, xs)
    ensures InputsIn(nodes + more, xs) && InputsData(nodes + more, xs) == InputsData(nodes, xs)
  {
    var all := nodes + more;
    assert InputsIn(all, xs);
    forall i | 0 <= i < |xs| ensures InputsData(all, xs)[i] == InputsData(nodes, xs)[i] {
      if xs[i].Some? && xs[i].value.Val? {
        assert all[xs[i].value.index] == nodes[xs[i].value.index];
      }
    }
  }

  lemma ExtendsInputs(nodes: seq<Node>, old_nodes: seq<Node>, xs: seq<Option<Arg>>)
    requires Extends(nodes, old_nodes) && InputsIn(old_nodes, xs)
    ensures InputsIn(nodes, xs) && InputsData(nodes, xs) == InputsData(old_nodes, xs)
  {
    assert nodes == old_nodes + nodes[|old_nodes|..];
    InputsDataPrefix(old_nodes, nodes[|old_nodes|..], xs);
  }

  /** The layer's neurons hold the weights `init` and a zero bias. */
  ghost predicate Initialised(nodes: seq<Node>, l: Layer, init: seq<seq<real>>)
  {
    LayerInRange(nodes, l) && |l.neurons| == |init| &&
    forall j :: 0 <= j < |init| ==>
      WeightData(nodes, l.neurons[j]) == init[j] && nodes[l.neurons[j].bias].data == 0.0
  }

  lemma ExtendsInitialised(nodes: seq<Node>, old_nodes: seq<Node>, l: Layer, init: seq<seq<real>>)
    requires Extends(nodes, old_nodes) && Initialised(old_nodes, l, init)
    ensures Initialised(nodes, l, init)
  {
    forall j | 0 <= j < |init|
      ensures InRange(nodes, l.neurons[j])
      ensures WeightData(nodes, l.neurons[j]) == init[j] && nodes[l.neurons[j].bias].data == 0.0
    {
      ExtendsNeuron(nodes, old_nodes, l.neurons[j], [], Math(x => x, x => x, x => x));
    }
  }

  /** The data of the nodes `new Layer` allocates: each neuron's weights, then its zero bias. */
  function LayerInit(init: seq<seq<real>>): seq<real>
    decreases |init|
  {
    if init == [] then [] else LayerInit(init[..|init| - 1]) + init[|init| - 1] + [0.0]
  }

  /** One step of `NewLayer`: the next neuron's leaves follow the earlier ones. */
  lemma NewLayerNodes(start: seq<Node>, before: seq<Node>, nodes: seq<Node>, init: seq<seq<real>>, j: nat)
    requires j < |init| && before == start + Leaves(LayerInit(init[..j]))
    requires nodes == before + Leaves(init[j] + [0.0])
    ensures nodes == start + Leaves(LayerInit(init[..j + 1]))
  {
    LayerInitLast(init, j);
    LeavesAppend(LayerInit(init[..j]), init[j] + [0.0]);
  }

  /** One step of `NewLayer`: the next neuron's parameters follow the earlier ones. */
  lemma NewLayerParameters(a: nat, b: nat, c: nat, neurons: seq<Neuron>, n: Neuron)
    requires a <= b <= c && LayerParameters(Layer(neurons)) == Range(a, b) && Parameters(n) == Range(b, c)
    ensures LayerParameters(Layer(neurons + [n])) == Range(a, c)
  {
    LayerParametersLast(neurons, n);
    RangeAppend(a, b, c);
  }

  lemma LayerInitLast(init: seq<seq<real>>, j: nat)
    requires j < |init|
    ensures LayerInit(init[..j + 1]) == LayerInit(init[..j]) + (init[j] + [0.0])
  {
    assert init[..j + 1][..j] == init[..j];
  }

  lemma LayerParametersLast(neurons: seq<Neuron>, n: Neuron)
    ensures LayerParameters(Layer(neurons + [n])) == LayerParameters(Layer(neurons)) + Parameters(n)
  {
    assert (neurons + [n])[..|neurons|] == neurons;
  }

  lemma ShapedNext(neurons: seq<Neuron>, n: Neuron, j: nat)
    requires Shaped(Layer(neurons), |n.weights|, j, n.act)
    ensures Shaped(Layer(neurons + [n]), |n.weights|, j + 1, n.act)
  {
  }

  /** The loop invariants of `NewLayer` carried over one call of `NewNeuron`. */
  lemma NewLayerNext(start: seq<Node>, before: seq<Node>, nodes: seq<Node>, neurons: seq<Neuron>, n: Neuron,
                     init: seq<seq<real>>, j: nat)
    requires j < |init| && Extends(before, start) && Initialised(before, Layer(neurons), init[..j])
    requires before == start + Leaves(LayerInit(init[..j]))
    requires LayerParameters(Layer(neurons)) == Range(|start|, |before|)
    requires nodes == before + Leaves(init[j] + [0.0]) && Parameters(n) == Range(|before|, |nodes|)
    requires InRange(nodes, n) && WeightData(nodes, n) == init[j] && nodes[n.bias].data == 0.0
    requires Shaped(Layer(neurons), |n.weights|, j, n.act)
    ensures Shaped(Layer(neurons + [n]), |n.weights|, j + 1, n.act)
    ensures Extends(nodes, start) && Initialised(nodes, Layer(neurons + [n]), init[..j + 1])
    ensures nodes == start + Leaves(LayerInit(init[..j + 1]))
    ensures LayerParameters(Layer(neurons + [n])) == Range(|start|, |nodes|)
  {
    ShapedNext(neurons, n, j);
    assert Extends(nodes, before);
    ExtendsTrans(start, before, nodes);
    InitialisedNext(nodes, before, Layer(neurons), n, init[..j], init[j]);
    assert init[..j + 1] == init[..j] + [init[j]];
    NewLayerNodes(start, before, nodes, init, j);
    NewLayerParameters(|start|, |before|, |nodes|, neurons, n);
  }

  /**
   * `new Layer(dimIn, dimOut, act)` (layer.js:4-6), with the random initial
   * weights of the `j`-th neuron given as `init[j]`. The source's default
   * activation is `'relu'`: a call that omits `act` passes `ReluActivation`.
   */
  method NewLayer(g: Graph, dimIn: nat, init: seq<seq<real>>, act: Activation) returns (l: Layer)
    requires g.Valid() && forall j :: 0 <= j < |init| ==> |init[j]| == dimIn
    modifies g
    ensures g.Valid() && Extends(g.nodes, old(g.nodes))
    ensures Shaped(l, dimIn, |init|, act) && Initialised(g.nodes, l, init)
    ensures g.nodes == old(g.nodes) + Leaves(LayerInit(init))
    ensures LayerParameters(l) == Range(|old(g.nodes)|, |g.nodes|)
  {
    var neurons: seq<Neuron> := [];
    assert init[..0] == [];
    for j := 0 to |init|
      invariant g.Valid() && Extends(g.nodes, old(g.nodes))
      invariant Shaped(Layer(neurons), dimIn, j, act) && Initialised(g.nodes, Layer(neurons), init[..j])
      invariant g.nodes == old(g.nodes) + Leaves(LayerInit(init[..j]))
      invariant LayerParameters(Layer(neurons)) == Range(|old(g.nodes)|, |g.nodes|)
    {
      ghost var before := g.nodes;
      var n := NewNeuron(g, init[j], act);
      NewLayerNext(old(g.nodes), before, g.nodes, neurons, n, init, j);
      neurons := neurons + [n];
    }
    assert init[..|init|] == init;
    l := Layer(neurons);
  }

  /** A neuron built on a grown arena with weights `w` and bias 0 extends an initialised layer. */
  lemma InitialisedNext(nodes: seq<Node>, before: seq<Node>, l: Layer, n: Neuron, init: seq<seq<real>>, w: seq<real>)
    requires Initialised(before, l, init) && Extends(nodes, before)
    requires InRange(nodes, n) && WeightData(nodes, n) == w && nodes[n.bias].data == 0.0
    ensures Initialised(nodes, Layer(l.neurons + [n]), init + [w])
  {
    ExtendsInitialised(nodes, before, l, init);
  }

  /** `forward(inputs)` (layer.js:12-14): each neuron's forward pass in order. */
  method LayerForward(g: Graph, l: Layer, inputs: seq<Option<Arg>>) returns (r: Result<seq<Option<Arg>>>)
    requires g.Valid() && LayerInRange(g.nodes, l) && InputsIn(g.nodes, inputs)
    modifies g
    ensures g.Valid() && Extends(g.nodes, old(g.nodes))
    ensures r.Ok? ==> InputsIn(g.nodes, r.value) && forall j :: 0 <= j < |r.value| ==> r.value[j].Some? ==> r.value[j].value.Val?
    ensures r.Ok? ==> LayerOutput(old(g.nodes), l, InputsData(old(g.nodes), inputs), g.math) == Ok(InputsData(g.nodes, r.value))
    ensures r.Err? ==> LayerOutput(old(g.nodes), l, InputsData(old(g.nodes), inputs), g.math) == Err(r.error)
  {
    ghost var start := g.nodes;
    ghost var xs := InputsData(start, inputs);
    var outs: seq<Option<Arg>> := [];
    for j := 0 to |l.neurons|
      invariant g.Valid() && Extends(g.nodes, start)
      invariant InputsIn(g.nodes, outs) && AllValues(outs)
      invariant LayerOutput(start, Layer(l.neurons[..j]), xs, g.math) == Ok(InputsData(g.nodes, outs))
    {
      var next := ForwardNext(g, l, j, inputs, outs, start);
      if next.Err? {
        return Err(next.error);
      }
      outs := next.value;
    }
    assert l.neurons[..|l.neurons|] == l.neurons;
    r := Ok(outs);
  }

  /** Every output of a layer, when present, is a `Value`. */
  predicate AllValues(outs: seq<Option<Arg>>)
  {
    forall i :: 0 <= i < |outs| ==> outs[i].Some? ==> outs[i].value.Val?
  }

  /** A neuron's output as an input of the next layer: the index of its `Value`, if any. */
  function AsInput(y: Option<nat>): (o: Option<Arg>)
    ensures o.Some? <==> y.Some?
    ensures y.Some? ==> o.value == Val(y.value)
  {
    if y.Some? then Some(Val(y.value)) else None
  }

  /** One iteration of `forward`: neuron `j` runs on the inputs and its output is appended. */
  method ForwardNext(g: Graph, l: Layer, j: nat, inputs: seq<Option<Arg>>, outs: seq<Option<Arg>>, ghost start: seq<Node>)
    returns (r: Result<seq<Option<Arg>>>)
    requires g.Valid() && Extends(g.nodes, start) && LayerInRange(start, l) && j < |l.neurons|
    requires InputsIn(start, inputs) && InputsIn(g.nodes, outs) && AllValues(outs)
    requires LayerOutput(start, Layer(l.neurons[..j]), InputsData(start, inputs), g.math) == Ok(InputsData(g.nodes, outs))
    modifies g
    ensures g.Valid() && Extends(g.nodes, start)
    ensures r.Ok? ==> InputsIn(g.nodes, r.value) && AllValues(r.value)
    ensures r.Ok? ==>
      LayerOutput(start, Layer(l.neurons[..j + 1]), InputsData(start, inputs), g.math) == Ok(InputsData(g.nodes, r.value))
    ensures r.Err? ==> LayerOutput(start, l, InputsData(start, inputs), g.math) == Err(r.error)
  {
    ghost var before := g.nodes;
    ExtendsInputs(before, start, inputs);
    ExtendsNeuron(before, start, l.neurons[j], [], g.math);
    var y := NeuronForward(g, l.neurons[j], inputs);
    ForwardNextData(start, before, g.nodes, l, j, inputs, outs, y, g.math);
    if y.Err? {
      return Err(y.error);
    }
    r := Ok(outs + [AsInput(y.value)]);
  }

  /** What `ForwardNext` appends, as data: the output of neuron `j`, or its error for the whole layer. */
  lemma ForwardNextData(start: seq<Node>, before: seq<Node>, nodes: seq<Node>, l: Layer, j: nat,
                        inputs: seq<Option<Arg>>, outs: seq<Option<Arg>>, y: Result<Option<nat>>, m: Math)
    requires Extends(before, start) && Extends(nodes, before)
    requires LayerInRange(start, l) && j < |l.neurons| && InputsIn(start, inputs) && InputsIn(before, outs)
    requires LayerOutput(start, Layer(l.neurons[..j]), InputsData(start, inputs), m) == Ok(InputsData(before, outs))
    requires InRange(before, l.neurons[j]) && InputsIn(before, inputs)
    requires y.Ok? && y.value.Some? ==> y.value.value < |nodes|
    requires ResultData(nodes, y) == NeuronOutput(before, l.neurons[j], InputsData(before, inputs), m)
    ensures Extends(nodes, start)
    ensures y.Ok? ==> InputsIn(nodes, outs + [AsInput(y.value)])
    ensures y.Ok? ==>
      LayerOutput(start, Layer(l.neurons[..j + 1]), InputsData(start, inputs), m) == Ok(InputsData(nodes, outs + [AsInput(y.value)]))
    ensures y.Err? ==> LayerOutput(start, l, InputsData(start, inputs), m) == Err(y.error)
  {
    var xs := InputsData(start, inputs);
    ExtendsInputs(before, start, inputs);
    ExtendsNeuron(before, start, l.neurons[j], xs, m);
    ExtendsTrans(start, before, nodes);
    ExtendsInputs(nodes, before, outs);
    LayerOutputNext(start, l, xs, m, j);
    var yo := NeuronOutput(start, l.neurons[j], xs, m);
    assert ResultData(nodes, y) == yo;
    if y.Err? {
      LayerOutputErrPrefix(start, l, xs, m, j + 1);
    } else {
      var o := AsInput(y.value);
      assert InputData(nodes, o) == yo.value;
      InputsDataNext(nodes, outs, o);
    }
  }

  /** One more neuron: the neurons so far fail, or the new one fails, or its output is appended. */
  lemma LayerOutputNext(nodes: seq<Node>, l: Layer, xs: seq<Option<real>>, m: Math, j: nat)
    requires LayerInRange(nodes, l) && j < |l.neurons|
    ensures LayerInRange(nodes, Layer(l.neurons[..j])) && LayerInRange(nodes, Layer(l.neurons[..j + 1]))
    ensures var front := LayerOutput(nodes, Layer(l.neurons[..j]), xs, m);
      var y := NeuronOutput(nodes, l.neurons[j], xs, m);
      LayerOutput(nodes, Layer(l.neurons[..j + 1]), xs, m) ==
        if front.Err? then front else if y.Err? then Err(y.error) else Ok(front.value + [y.value])
  {
    assert l.neurons[..j + 1][..j] == l.neurons[..j];
  }

  lemma InputsDataNext(nodes: seq<Node>, xs: seq<Option<Arg>>, x: Option<Arg>)
    requires InputsIn(nodes, xs) && (x.Some? ==> ArgIn(nodes, x.value))
    ensures InputsIn(nodes, xs + [x]) && InputsData(nodes, xs + [x]) == InputsData(nodes, xs) + [InputData(nodes, x)]
  {
    assert (xs + [x])[..|xs|] == xs;
  }
}
