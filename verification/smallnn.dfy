/**
 * The network (smallnn.js, without the losses): a sequence of layers, the
 * output of each feeding the next.
 */
module Networks {
  import opened Arena
  import opened Values
  import opened Neurons
  import opened Layers

  datatype Net = Net(layers: seq<Layer>)

  predicate NetInRange(nodes: seq<Node>, net: Net)
  {
    forall i :: 0 <= i < |net.layers| ==> LayerInRange(nodes, net.layers[i])
  }

  /** `sizes = [inDim, ...layerDims]`: the input count of each layer, then the output count of the last. */
  function Sizes(inDim: nat, layerDims: seq<nat>): (r: seq<nat>)
    ensures |r| == |layerDims| + 1 && r[0] == inDim
    ensures forall i :: 0 <= i < |layerDims| ==> r[i + 1] == layerDims[i]
  {
    [inDim] + layerDims
  }

  /** Layer `i` takes `sizes[i]` inputs to `sizes[i + 1]` outputs, all with activation `act`. */
  predicate NetShaped(net: Net, sizes: seq<nat>, act: Activation)
  {
    |sizes| == |net.layers| + 1 &&
    forall i :: 0 <= i < |net.layers| ==> Shaped(net.layers[i], sizes[i], sizes[i + 1], act)
  }

  /** `parameters()`: the layers' parameters, one layer after the other (smallnn.js:9-11). */
  function NetParameters(net: Net): (r: seq<nat>)
    ensures forall i, p :: 0 <= i < |net.layers| && p in LayerParameters(net.layers[i]) ==> p in r
    decreases |net.layers|
  {
    if net.layers == [] then []
    else
      var init := Net(net.layers[..|net.layers| - 1]);
      assert forall i :: 0 <= i < |net.layers| - 1 ==> net.layers[i] == init.layers[i];
      NetParameters(init) + LayerParameters(net.layers[|net.layers| - 1])
  }

  /** The parameters of the first `k` layers come first, then those of the rest, in layer order. */
  lemma {:induction false} NetParametersSplit(net: Net, k: nat)
    requires k <= |net.layers|
    ensures NetParameters(net) == NetParameters(Net(net.layers[..k])) + NetParameters(Net(net.layers[k..]))
    decreases |net.layers|
  {
    var n := |net.layers|;
    if k == n {
      assert net.layers[..k] == net.layers && net.layers[k..] == [];
    } else {
      var init := Net(net.layers[..n - 1]);
      var rest := Net(net.layers[k..]);
      var mid := Net(net.layers[k..n - 1]);
      var last := LayerParameters(net.layers[n - 1]);
      assert init.layers[..k] == net.layers[..k] && init.layers[k..] == mid.layers;
      assert Net(rest.layers[..|rest.layers| - 1]) == mid && rest.layers[|rest.layers| - 1] == net.layers[n - 1];
      var front := NetParameters(Net(net.layers[..k]));
      assert NetParameters(net) == NetParameters(init) + last;
      NetParametersSplit(init, k);
      assert NetParameters(rest) == NetParameters(mid) + last;
      assert NetParameters(net) == front + NetParameters(mid) + last;
    }
  }

  /** The parameter count of a network of the given sizes: `sizes[i + 1] * (sizes[i] + 1)` per layer. */
  function ParameterTotal(sizes: seq<nat>): nat
    decreases |sizes|
  {
    if |sizes| < 2 then 0
    else ParameterTotal(sizes[..|sizes| - 1]) + sizes[|sizes| - 1] * (sizes[|sizes| - 2] + 1)
  }

  lemma {:induction false} NetParameterCount(net: Net, sizes: seq<nat>, act: Activation)
    requires NetShaped(net, sizes, act)
    ensures |NetParameters(net)| == ParameterTotal(sizes)
    decreases |net.layers|
  {
    var k := |net.layers|;
    if k > 0 {
      var init := Net(net.layers[..k - 1]);
      assert sizes[..k][..k - 1] == sizes[..k - 1];
      assert NetShaped(init, sizes[..k], act);
      NetParameterCount(init, sizes[..k], act);
      ParameterCount(net.layers[k - 1], sizes[k - 1], sizes[k], act);
    }
  }

  /**
   * What `forward(x)` returns, as data (smallnn.js:18-19): the input threaded
   * through the layers in order, or the error of the first layer that throws.
   */
  function NetOutput(nodes: seq<Node>, net: Net, xs: seq<Option<real>>, m: Math): (r: Result<seq<Option<real>>>)
    requires NetInRange(nodes, net)
    ensures net.layers == [] ==> r == Ok(xs)
    ensures r.Ok? && net.layers != [] ==> |r.value| == |net.layers[|net.layers| - 1].neurons|
    decreases |net.layers|
  {
    if net.layers == [] then Ok(xs)
    else
      var init := Net(net.layers[..|net.layers| - 1]);
      var front := NetOutput(nodes, init, xs, m);
      if front.Err? then front else LayerOutput(nodes, net.layers[|net.layers| - 1], front.value, m)
  }

  /** Running the network is running its first layers, then the rest on their output. */
  lemma {:induction false} NetOutputSplit(nodes: seq<Node>, net: Net, k: nat, xs: seq<Option<real>>, m: Math)
    requires NetInRange(nodes, net) && k <= |net.layers|
    ensures var front := NetOutput(nodes, Net(net.layers[..k]), xs, m);
      NetOutput(nodes, net, xs, m) ==
        if front.Err? then front else NetOutput(nodes, Net(net.layers[k..]), front.value, m)
    decreases |net.layers|
  {
    var n := |net.layers|;
    if k == n {
      assert net.layers[..k] == net.layers;
    } else {
      var init := Net(net.layers[..n - 1]);
      var rest := Net(net.layers[k..]);
      var last := net.layers[n - 1];
      NetInRangeSlice(nodes, net, 0, n - 1);
      NetInRangeSlice(nodes, net, 0, k);
      NetInRangeSlice(nodes, net, k, n);
      NetInRangeSlice(nodes, net, k, n - 1);
      assert init.layers[..k] == net.layers[..k];
      var mid := Net(net.layers[k..n - 1]);
      assert init.layers[k..] == mid.layers;
      assert Net(rest.layers[..|rest.layers| - 1]) == mid && rest.layers[|rest.layers| - 1] == last;
      var a := NetOutput(nodes, init, xs, m);
      var f := NetOutput(nodes, Net(net.layers[..k]), xs, m);
      NetOutputLast(nodes, net, xs, m);
      NetOutputSplit(nodes, init, k, xs, m);
      assert a == if f.Err? then f else NetOutput(nodes, mid, f.value, m);
      if f.Ok? {
        NetOutputLast(nodes, rest, f.value, m);
      }
    }
  }

  /** Every run of consecutive layers of a network in the arena is in the arena. */
  lemma NetInRangeSlice(nodes: seq<Node>, net: Net, i: nat, j: nat)
    requires NetInRange(nodes, net) && i <= j <= |net.layers|
    ensures NetInRange(nodes, Net(net.layers[i..j]))
  {
    assert forall k :: 0 <= k < j - i ==> net.layers[i..j][k] == net.layers[i + k];
  }

  /** The last layer runs on the output of the others. */
  lemma NetOutputLast(nodes: seq<Node>, net: Net, xs: seq<Option<real>>, m: Math)
    requires NetInRange(nodes, net) && net.layers != []
    ensures var front := NetOutput(nodes, Net(net.layers[..|net.layers| - 1]), xs, m);
      NetOutput(nodes, net, xs, m) ==
        if front.Err? then front else LayerOutput(nodes, net.layers[|net.layers| - 1], front.value, m)
  {
  }

  /** With a layer of at least one neuron first, a wrong input count fails with a shape error. */
  lemma NetShapeError(nodes: seq<Node>, net: Net, sizes: seq<nat>, act: Activation, xs: seq<Option<real>>, m: Math)
    requires NetInRange(nodes, net) && NetShaped(net, sizes, act) && |net.layers| > 0
    requires sizes[1] > 0 && |xs| != sizes[0]
    ensures NetOutput(nodes, net, xs, m) == Err(ShapeMismatch)
  {
    NetOutputSplit(nodes, net, 1, xs, m);
    var first := Net(net.layers[..1]);
    assert first.layers[..0] == [];
    ShapeErrorOfLayer(nodes, net.layers[0], xs, m, sizes[0], sizes[1], act);
  }

  /** Allocating more nodes does not change what a layer computes. */
  lemma {:induction false} ExtendsLayer(nodes: seq<Node>, old_nodes: seq<Node>, l: Layer, xs: seq<Option<real>>, m: Math)
    requires Extends(nodes, old_nodes) && LayerInRange(old_nodes, l)
    ensures LayerInRange(nodes, l) && LayerOutput(nodes, l, xs, m) == LayerOutput(old_nodes, l, xs, m)
    decreases |l.neurons|
  {
    forall j | 0 <= j < |l.neurons| ensures InRange(nodes, l.neurons[j]) {
      ExtendsNeuron(nodes, old_nodes, l.neurons[j], xs, m);
    }
    if l.neurons != [] {
      var init := Layer(l.neurons[..|l.neurons| - 1]);
      ExtendsLayer(nodes, old_nodes, init, xs, m);
      ExtendsNeuron(nodes, old_nodes, l.neurons[|l.neurons| - 1], xs, m);
    }
  }

  /** Allocating more nodes does not change what the network computes. */
  lemma {:induction false} ExtendsNet(nodes: seq<Node>, old_nodes: seq<Node>, net: Net, xs: seq<Option<real>>, m: Math)
    requires Extends(nodes, old_nodes) && NetInRange(old_nodes, net)
    ensures NetInRange(nodes, net) && NetOutput(nodes, net, xs, m) == NetOutput(old_nodes, net, xs, m)
    decreases |net.layers|
  {
    forall i | 0 <= i < |net.layers| ensures LayerInRange(nodes, net.layers[i]) {
      ExtendsLayer(nodes, old_nodes, net.layers[i], [], m);
    }
    if net.layers != [] {
      var init := Net(net.layers[..|net.layers| - 1]);
      ExtendsNet(nodes, old_nodes, init, xs, m);
      var front := NetOutput(old_nodes, init, xs, m);
      if front.Ok? {
        ExtendsLayer(nodes, old_nodes, net.layers[|net.layers| - 1], front.value, m);
      }
    }
  }

  /** The layers built so far: layer `k` is shaped by `sizes` and holds the weights `init[k]`. */
  ghost predicate Built(nodes: seq<Node>, layers: seq<Layer>, sizes: seq<nat>, init: seq<seq<seq<real>>>, act: Activation)
  {
    |layers| <= |init| && |layers| < |sizes| &&
    forall k :: 0 <= k < |layers| ==>
      Shaped(layers[k], sizes[k], sizes[k + 1], act) && Initialised(nodes, layers[k], init[k])
  }

  /** Appending a layer built on a grown arena keeps every earlier layer built. */
  lemma BuiltNext(nodes: seq<Node>, before: seq<Node>, layers: seq<Layer>, l: Layer,
                  sizes: seq<nat>, init: seq<seq<seq<real>>>, act: Activation)
    requires Built(before, layers, sizes, init, act) && Extends(nodes, before)
    requires |layers| < |init| && |layers| + 1 < |sizes|
    requires Shaped(l, sizes[|layers|], sizes[|layers| + 1], act) && Initialised(nodes, l, init[|layers|])
    ensures Built(nodes, layers + [l], sizes, init, act)
  {
    forall k | 0 <= k < |layers| ensures Initialised(nodes, layers[k], init[k]) {
      ExtendsInitialised(nodes, before, layers[k], init[k]);
    }
  }

  /** The data of the nodes `new SmallNN` allocates: the layers' nodes, one layer after the other. */
  function NetInit(init: seq<seq<seq<real>>>): seq<real>
    decreases |init|
  {
    if init == [] then [] else NetInit(init[..|init| - 1]) + LayerInit(init[|init| - 1])
  }

  /** One step of `NewNet`: the next layer's leaves follow the earlier ones. */
  lemma NewNetNodes(start: seq<Node>, before: seq<Node>, nodes: seq<Node>, init: seq<seq<seq<real>>>, i: nat)
    requires i < |init| && before == start + Leaves(NetInit(init[..i]))
    requires nodes == before + Leaves(LayerInit(init[i]))
    ensures nodes == start + Leaves(NetInit(init[..i + 1]))
  {
    NetInitLast(init, i);
    LeavesAppend(NetInit(init[..i]), LayerInit(init[i]));
  }

  /** One step of `NewNet`: the next layer's parameters follow the earlier ones. */
  lemma NewNetParameters(a: nat, b: nat, c: nat, layers: seq<Layer>, l: Layer)
    requires a <= b <= c && NetParameters(Net(layers)) == Range(a, b) && LayerParameters(l) == Range(b, c)
    ensures NetParameters(Net(layers + [l])) == Range(a, c)
  {
    NetParametersLast(layers, l);
    RangeAppend(a, b, c);
  }

  lemma NetInitLast(init: seq<seq<seq<real>>>, i: nat)
    requires i < |init|
    ensures NetInit(init[..i + 1]) == NetInit(init[..i]) + LayerInit(init[i])
  {
    assert init[..i + 1][..i] == init[..i];
  }

  lemma NetParametersLast(layers: seq<Layer>, l: Layer)
    ensures NetParameters(Net(layers + [l])) == NetParameters(Net(layers)) + LayerParameters(l)
  {
    assert (layers + [l])[..|layers|] == layers;
  }

  /** The loop invariants of `NewNet` carried over one call of `NewLayer`. */
  lemma NewNetNext(start: seq<Node>, before: seq<Node>, nodes: seq<Node>, layers: seq<Layer>, l: Layer,
                   sizes: seq<nat>, init: seq<seq<seq<real>>>, act: Activation)
    requires |layers| < |init| && |layers| + 1 < |sizes|
    requires Extends(before, start) && Built(before, layers, sizes, init, act)
    requires before == start + Leaves(NetInit(init[..|layers|]))
    requires NetParameters(Net(layers)) == Range(|start|, |before|)
    requires Extends(nodes, before) && nodes == before + Leaves(LayerInit(init[|layers|]))
    requires LayerParameters(l) == Range(|before|, |nodes|)
    requires Shaped(l, sizes[|layers|], sizes[|layers| + 1], act) && Initialised(nodes, l, init[|layers|])
    ensures Extends(nodes, start) && Built(nodes, layers + [l], sizes, init, act)
    ensures nodes == start + Leaves(NetInit(init[..|layers| + 1]))
    ensures NetParameters(Net(layers + [l])) == Range(|start|, |nodes|)
  {
    ExtendsTrans(start, before, nodes);
    BuiltNext(nodes, before, layers, l, sizes, init, act);
    NewNetNodes(start, before, nodes, init, |layers|);
    NewNetParameters(|start|, |before|, |nodes|, layers, l);
  }

  /**
   * `new SmallNN(inDim, layerDims, act)` (smallnn.js:4-7), with the random initial
   * weights of neuron `j` of layer `i` given as `init[i][j]`. The source's default
   * activation is `'relu'`: a call that omits `act` passes `ReluActivation`.
   */
  method NewNet(g: Graph, inDim: nat, layerDims: seq<nat>, init: seq<seq<seq<real>>>, act: Activation) returns (net: Net)
    requires g.Valid() && |init| == |layerDims|
    requires forall i :: 0 <= i < |init| ==> |init[i]| == layerDims[i]
    requires forall i, j :: 0 <= i < |init| && 0 <= j < |init[i]| ==> |init[i][j]| == Sizes(inDim, layerDims)[i]
    modifies g
    ensures g.Valid() && Extends(g.nodes, old(g.nodes))
    ensures NetShaped(net, Sizes(inDim, layerDims), act) && NetInRange(g.nodes, net)
    ensures forall i :: 0 <= i < |init| ==> Initialised(g.nodes, net.layers[i], init[i])
    ensures g.nodes == old(g.nodes) + Leaves(NetInit(init))
    ensures NetParameters(net) == Range(|old(g.nodes)|, |g.nodes|)
  {
    var sizes := Sizes(inDim, layerDims);
    var layers: seq<Layer> := [];
    assert init[..0] == [];
    for i := 0 to |init|
      invariant g.Valid() && Extends(g.nodes, old(g.nodes))
      invariant |layers| == i && Built(g.nodes, layers, sizes, init, act)
      invariant g.nodes == old(g.nodes) + Leaves(NetInit(init[..i]))
      invariant NetParameters(Net(layers)) == Range(|old(g.nodes)|, |g.nodes|)
    {
      ghost var before := g.nodes;
      var l := NewLayer(g, sizes[i], init[i], act);
      NewNetNext(old(g.nodes), before, g.nodes, layers, l, sizes, init, act);
      layers := layers + [l];
    }
    assert init[..|init|] == init;
    net := Net(layers);
  }

  /** `forward(x)` (smallnn.js:18-19): `x = layer.forward(x)` for each layer in turn. */
  method NetForward(g: Graph, net: Net, x: seq<Option<Arg>>) returns (r: Result<seq<Option<Arg>>>)
    requires g.Valid() && NetInRange(g.nodes, net) && InputsIn(g.nodes, x)
    modifies g
    ensures g.Valid() && Extends(g.nodes, old(g.nodes))
    ensures r.Ok? ==> InputsIn(g.nodes, r.value)
    ensures r.Ok? ==> NetOutput(old(g.nodes), net, InputsData(old(g.nodes), x), g.math) == Ok(InputsData(g.nodes, r.value))
    ensures r.Err? ==> NetOutput(old(g.nodes), net, InputsData(old(g.nodes), x), g.math) == Err(r.error)
  {
    ghost var start := g.nodes;
    ghost var xs := InputsData(start, x);
    var y := x;
    for i := 0 to |net.layers|
      invariant g.Valid() && Extends(g.nodes, start) && InputsIn(g.nodes, y)
      invariant NetOutput(start, Net(net.layers[..i]), xs, g.math) == Ok(InputsData(g.nodes, y))
    {
      ghost var before := g.nodes;
      ghost var prefix := Net(net.layers[..i + 1]);
      assert prefix.layers[..i] == net.layers[..i];
      ExtendsLayer(before, start, net.layers[i], InputsData(before, y), g.math);
      var out := LayerForward(g, net.layers[i], y);
      ExtendsTrans(start, before, g.nodes);
      if out.Err? {
        NetOutputSplit(start, net, i + 1, xs, g.math);
        return Err(out.error);
      }
      y := out.value;
    }
    assert net.layers[..|net.layers|] == net.layers;
    r := Ok(y);
  }

  /** What batch `forward(xs, true)` returns, as data: each example's output, or the first error. */
  function BatchOutput(nodes: seq<Node>, net: Net, xss: seq<seq<Option<real>>>, m: Math): (r: Result<seq<seq<Option<real>>>>)
    requires NetInRange(nodes, net)
    ensures r.Ok? ==> |r.value| == |xss|
    decreases |xss|
  {
    if xss == [] then Ok([])
    else
      var front := BatchOutput(nodes, net, xss[..|xss| - 1], m);
      if front.Err? then front
      else
        var y := NetOutput(nodes, net, xss[|xss| - 1], m);
        if y.Err? then Err(y.error) else Ok(front.value + [y.value])
  }

  /** The batch succeeds exactly when every example does. */
  lemma {:induction false} BatchOutputOk(nodes: seq<Node>, net: Net, xss: seq<seq<Option<real>>>, m: Math)
    requires NetInRange(nodes, net)
    ensures BatchOutput(nodes, net, xss, m).Ok? <==> forall i :: 0 <= i < |xss| ==> NetOutput(nodes, net, xss[i], m).Ok?
    decreases |xss|
  {
    if xss != [] {
      var k := |xss| - 1;
      BatchOutputOk(nodes, net, xss[..k], m);
      BatchOutputNext(nodes, net, xss, m, k);
      assert xss[..k + 1] == xss;
      assert forall i :: 0 <= i < k ==> xss[..k][i] == xss[i];
    }
  }

  /** When the batch succeeds, output `i` is example `i`'s output. */
  lemma {:induction false} BatchOutputValues(nodes: seq<Node>, net: Net, xss: seq<seq<Option<real>>>, m: Math)
    requires NetInRange(nodes, net)
    ensures var r := BatchOutput(nodes, net, xss, m);
      r.Ok? ==> forall i :: 0 <= i < |xss| ==>
        NetOutput(nodes, net, xss[i], m).Ok? && r.value[i] == NetOutput(nodes, net, xss[i], m).value
    decreases |xss|
  {
    if xss != [] {
      var k := |xss| - 1;
      BatchOutputValues(nodes, net, xss[..k], m);
      BatchOutputNext(nodes, net, xss, m, k);
      assert xss[..k + 1] == xss;
      assert forall i :: 0 <= i < k ==> xss[..k][i] == xss[i];
    }
  }

  /** The batch succeeds exactly when every example does, and output `i` is example `i`'s output. */
  lemma BatchOutputExamples(nodes: seq<Node>, net: Net, xss: seq<seq<Option<real>>>, m: Math)
    requires NetInRange(nodes, net)
    ensures var r := BatchOutput(nodes, net, xss, m);
      (r.Ok? <==> forall i :: 0 <= i < |xss| ==> NetOutput(nodes, net, xss[i], m).Ok?) &&
      (r.Ok? ==> forall i :: 0 <= i < |xss| ==> r.value[i] == NetOutput(nodes, net, xss[i], m).value)
  {
    BatchOutputOk(nodes, net, xss, m);
    BatchOutputValues(nodes, net, xss, m);
  }

  /** Once a prefix of the batch fails, the batch fails with the same error. */
  lemma {:induction false} BatchOutputErrPrefix(nodes: seq<Node>, net: Net, xss: seq<seq<Option<real>>>, m: Math, k: nat)
    requires NetInRange(nodes, net) && k <= |xss| && BatchOutput(nodes, net, xss[..k], m).Err?
    ensures BatchOutput(nodes, net, xss, m) == BatchOutput(nodes, net, xss[..k], m)
    decreases |xss|
  {
    if k < |xss| {
      assert xss[..|xss| - 1][..k] == xss[..k];
      BatchOutputErrPrefix(nodes, net, xss[..|xss| - 1], m, k);
    } else {
      assert xss[..k] == xss;
    }
  }

  /** Every example of a batch has its inputs in the arena. */
  predicate BatchIn(nodes: seq<Node>, batch: seq<seq<Option<Arg>>>)
  {
    forall i :: 0 <= i < |batch| ==> InputsIn(nodes, batch[i])
  }

  /** The data of a batch of examples. */
  function BatchData(nodes: seq<Node>, batch: seq<seq<Option<Arg>>>): (r: seq<seq<Option<real>>>)
    requires BatchIn(nodes, batch)
    ensures |r| == |batch| && forall i :: 0 <= i < |batch| ==> r[i] == InputsData(nodes, batch[i])
  {
    seq(|batch|, i requires 0 <= i < |batch| => InputsData(nodes, batch[i]))
  }

  lemma ExtendsBatch(nodes: seq<Node>, old_nodes: seq<Node>, batch: seq<seq<Option<Arg>>>)
    requires Extends(nodes, old_nodes) && BatchIn(old_nodes, batch)
    ensures BatchIn(nodes, batch) && BatchData(nodes, batch) == BatchData(old_nodes, batch)
  {
    forall i | 0 <= i < |batch| ensures InputsIn(nodes, batch[i]) && InputsData(nodes, batch[i]) == InputsData(old_nodes, batch[i]) {
      ExtendsInputs(nodes, old_nodes, batch[i]);
    }
  }

  /** Batch `forward(xs, true)` (smallnn.js:14-16): the single-example forward mapped over the batch. */
  method ForwardBatch(g: Graph, net: Net, batch: seq<seq<Option<Arg>>>) returns (r: Result<seq<seq<Option<Arg>>>>)
    requires g.Valid() && NetInRange(g.nodes, net) && BatchIn(g.nodes, batch)
    modifies g
    ensures g.Valid() && Extends(g.nodes, old(g.nodes))
    ensures r.Ok? ==> BatchIn(g.nodes, r.value)
    ensures r.Ok? ==> BatchOutput(old(g.nodes), net, BatchData(old(g.nodes), batch), g.math) == Ok(BatchData(g.nodes, r.value))
    ensures r.Err? ==> BatchOutput(old(g.nodes), net, BatchData(old(g.nodes), batch), g.math) == Err(r.error)
  {
    ghost var start := g.nodes;
    ghost var xss := BatchData(start, batch);
    var outs: seq<seq<Option<Arg>>> := [];
    for i := 0 to |batch|
      invariant g.Valid() && Extends(g.nodes, start) && BatchIn(g.nodes, outs)
      invariant BatchOutput(start, net, xss[..i], g.math) == Ok(BatchData(g.nodes, outs))
    {
      ghost var before := g.nodes;
      ExtendsBatch(before, start, batch);
      ExtendsNet(before, start, net, xss[i], g.math);
      var y := NetForward(g, net, batch[i]);
      ExtendsTrans(start, before, g.nodes);
      ExtendsBatch(g.nodes, before, outs);
      BatchOutputNext(start, net, xss, g.math, i);
      if y.Err? {
        BatchOutputErrPrefix(start, net, xss, g.math, i + 1);
        return Err(y.error);
      }
      BatchDataNext(g.nodes, outs, y.value);
      outs := outs + [y.value];
    }
    assert xss[..|batch|] == xss;
    r := Ok(outs);
  }

  /** One more example: the batch so far fails, or the example fails, or its output is appended. */
  lemma BatchOutputNext(nodes: seq<Node>, net: Net, xss: seq<seq<Option<real>>>, m: Math, i: nat)
    requires NetInRange(nodes, net) && i < |xss|
    ensures var front := BatchOutput(nodes, net, xss[..i], m);
      var y := NetOutput(nodes, net, xss[i], m);
      BatchOutput(nodes, net, xss[..i + 1], m) ==
        if front.Err? then front else if y.Err? then Err(y.error) else Ok(front.value + [y.value])
  {
    assert xss[..i + 1][..i] == xss[..i];
  }

  lemma BatchDataNext(nodes: seq<Node>, outs: seq<seq<Option<Arg>>>, y: seq<Option<Arg>>)
    requires BatchIn(nodes, outs) && InputsIn(nodes, y)
    ensures BatchIn(nodes, outs + [y]) && BatchData(nodes, outs + [y]) == BatchData(nodes, outs) + [InputsData(nodes, y)]
  {
    assert forall i :: 0 <= i < |outs| ==> (outs + [y])[i] == outs[i];
  }
}
