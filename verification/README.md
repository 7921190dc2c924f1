# SmalNN in Dafny

SmalNN is a small scalar reverse-mode automatic-differentiation engine
(`value.js`) with a neural-network layer on top of it (`neuron.js`, `layer.js`,
`smallnn.js`). This project models both and proves properties of the model.

**The engine.** Every `Value` is a node in an arena (`seq<Node>`) and is addressed
by its index. A node holds `data`, `grad` and an op tag. The op tag names the
operand nodes the value was built from. An operand always has a smaller index than
the node built from it, so the operand graph is acyclic.

- `Values.Graph` is a class. It owns the arena and the fixed choice of the
  transcendental functions.
- The operators (`add`, `mul`, `sub`, `pow`, `div`, `exp`, `log`, `tanh`,
  `sigmoid`, `relu`) are methods. Each appends the nodes the source allocates.
- `backward` is a method that runs the source's steps in order:
  1. the post-order walk of `traverse`;
  2. de-duplication by identity;
  3. reversal;
  4. the reset of every reachable gradient;
  5. seeding the root with 1;
  6. one `BACKWARD_FUNC` rule per node.

  It is proved equal to the specification function `Gradients.BackwardSpec`. The
  lemmas about that function give:
  - the shape of the processing order;
  - the frame: unreachable nodes keep their gradient, and no data or op changes;
  - the chain rule as accumulated;
  - idempotence.

**The network.** A neuron is its weight and bias node indices plus an activation.
Layers and networks are sequences of neurons and layers. Every `forward`, and each
of the losses `MSELoss`, `SoftMax` and `CrossEntropyLoss`, is a method that grows
the arena. Each is proved against a function that says what data it yields:
`NeuronOutput`, `LayerOutput`, `NetOutput`, `BatchOutput`, `MseLoss`,
`SoftMaxOutput` and `CrossEntropy`. Lemmas about those functions state the shape,
ordering, composition and value properties.

**Errors.** What the source throws becomes an `Err` value:
- `ShapeMismatch`: wrong input count;
- `LengthMismatch`: loss inputs and targets differ in length;
- `DomainError`: logarithm of a non-positive number;
- `InvalidExponent`: a non-number exponent;
- `TypeError`: a method called on `undefined` or on a plain number.

**A neuron without inputs.** neuron.js:19-24 never assigns `sum` when there are
no inputs, so `forward` returns `undefined`, or throws a `TypeError` when an
activation is named. See `Neurons.Output`.

Files:
- `arena.dfy`: nodes, ops, forward values, arena validity;
- `traversal.dfy`: `traverse`, de-duplication, reversal, processing order;
- `gradients.dfy`: the backward rules and the backward pass as functions;
- `value.dfy`: the `Graph` class;
- `neuron.dfy`, `layer.dfy`, `smallnn.dfy`: the network;
- `losses.dfy`: `_extractInputs` and the three loss helpers.

## Model

| member | source | states |
|---|---|---|
| Arena.Operands | value.js:140-145 | The `Value` operands of an op: at most two, and none exactly for a leaf (`_op == null`); the numeric exponent of `^` is not one |
| Arena.Max0 | value.js:110-112 | `relu`'s forward value is non-negative, at least its input, and is either the input or 0 |
| Arena.Inv | value.js:88 | `1 / n` times `n` is 1 for every non-zero `n` |
| Arena.Forward | value.js:58-112 | The data each operator computes from its operands: `relu`'s is non-negative and, with a positive `exp`, `exp`'s is positive and `sigmoid`'s lies strictly between 0 and 1 |
| Arena.AppendValid | value.js:52-56 | If the arena is valid and the new node's operands are already in it, its data is its op's forward value and a logarithm's operand is positive, then the arena with the node appended is valid |
| Traversal.Visits | value.js:140-147 | The callback order of `traverse` ends with the node itself and holds only the node and nodes built before it |
| Traversal.VisitsPostOrdered | value.js:140-147 | In the callback order every node comes after all of its `Value` operands |
| Traversal.VisitsReachable | value.js:140-147 | Every node the walk visits is reachable from its start |
| Traversal.PathVisited | value.js:140-147 | The end of every operand path from a node is visited by the walk from that node |
| Traversal.VisitsExactlyReachable | value.js:140-147 | The walk visits a node if and only if it is reachable from the start |
| Traversal.Dedup | value.js:121-126 | The `valueSet` filter yields a list without repeats holding exactly the visited nodes |
| Traversal.DedupPostOrdered | value.js:121-126 | De-duplication keeps every node after all of its operands |
| Traversal.DedupDistinct | value.js:121-126 | A walk that repeats no node passes through the filter unchanged |
| Traversal.Reverse | value.js:128 | `reverse()` puts element `k` at position `n - 1 - k` |
| Traversal.ReversePostOrdered | value.js:128 | Reversing a post-ordered list without repeats lists every consumer before its operands, keeps the same nodes and stays closed under operands |
| Traversal.ProcessingOrder | value.js:119-128 | The walk, filtered and reversed, names only nodes of the arena and starts at the root |
| Traversal.ProcessingOrderFacts | value.js:119-128 | The processing order starts at the root, holds each reachable node exactly once and nothing else, lists consumers before operands, and is closed under operands |
| Traversal.ProcessingOrderSameValues | value.js:119-128 | The order depends on ops only, not on data or gradients |
| Gradients.Rule | value.js:2-41 | A backward rule changes no node's data or op |
| Gradients.Term | value.js:2-40 | The term a rule adds to a parent is 0 when the node's gradient is 0, and is the node's gradient itself for `+` and `relu` |
| Gradients.RuleAccumulates | value.js:2-41 | A rule throws exactly for `log` of a non-positive operand, and then changes nothing; otherwise it adds its chain-rule term to each operand's gradient and leaves every other node unchanged |
| Gradients.LeafContributesNothing | value.js:133-137 | A leaf is skipped: it owes nothing and its step changes nothing |
| Gradients.Propagate | value.js:133-137 | The rule pass changes no data and no op |
| Gradients.ResetGrads | value.js:130 | Gradients are 0 on exactly the listed nodes, and every other node is unchanged |
| Gradients.Seeded | value.js:130-132 | After the reset and `this.grad = 1` the root's gradient is 1, every other listed node has gradient 0, and every other node is unchanged |
| Gradients.SeededState | value.js:130-132 | Before the rules run: the root's gradient is 1, every other reachable node's is 0, and unreachable nodes are untouched |
| Gradients.BackwardSpec | value.js:118-138 | `backward` changes no data and no op |
| Gradients.BackwardFrame | value.js:118-138 | A node not reachable from the root keeps its gradient, data and op |
| Gradients.GradFinalWhenProcessed | value.js:133-137 | When a node's rule runs its gradient is already final: every consumer has added its term |
| Gradients.PropagateAccumulates | value.js:133-137 | After any prefix of the pass, each gradient is its start value plus the terms of the nodes processed so far |
| Gradients.BackwardChainRule | value.js:118-138 | Each final gradient is its seed (1, 0 or unchanged) plus the terms every node of the processing order owes it, computed with final gradients |
| Gradients.PropagateValidOk | value.js:21-27 | On an arena the operators built, no `log` rule throws |
| Gradients.BackwardValidOk | value.js:118-138 | On an arena the operators built, `backward` completes |
| Gradients.BackwardIdempotent | value.js:130-137 | Calling `backward` twice on a root gives the same arena as calling it once |
| Gradients.DedupSharedOperand | value.js:121-126 | The walk `[0, 0, 1]` of `x.add(x)` is filtered to `[0, 1]` |
| Gradients.AddSelfOrder | value.js:128 | For `y = x.add(x)` the processing order is `[y, x]` |
| Gradients.AddSelfGradient | value.js:3-7 | `y = x.add(x)` and `y.backward()` give `x.grad == 2` and `y.grad == 1` |
| Gradients.MulOrder | value.js:128 | For `d = a.mul(b)` the processing order is `[d, b, a]` |
| Gradients.MulRule | value.js:8-12 | The `*` rule adds `b.data` to `a.grad` and `a.data` to `b.grad` |
| Gradients.MulGradient | value.js:8-12 | `d = a.mul(b)` and `d.backward()` give `a.grad == b` and `b.grad == a`, whatever the gradients were before |
| Gradients.NeuronOrder | neuron.js:19-24 | For `bias.add(w.mul(x))` the processing order is the sum, the product, `x`, `w`, `bias` |
| Gradients.NeuronGradient | neuron.js:19-24 | After `backward()` on a one-input neuron without activation: `bias.grad == 1`, `w.grad == x.data`, `x.grad == w.data` |
| Values.Wrapped | value.js:59-61 | A number operand becomes a fresh leaf holding it; a `Value` operand is used as it is |
| Values.Graph.NewValue | value.js:52-56 | `new Value(x)` appends a leaf with data `x` and gradient 0 |
| Values.Graph.Wrap | value.js:59-61 | Wraps an operand as `Values.Wrapped` does |
| Values.Graph.Push | value.js:52-56 | Appends a node with the op's forward value, gradient 0 and the op |
| Values.Graph.Add | value.js:58-63 | Appends the wrapped operand if any, then the sum node; its data is the sum of the data |
| Values.Graph.Mul | value.js:65-70 | The same for the product |
| Values.Graph.Sub | value.js:72-75 | A `Value` operand goes through `mul(-1)` (a leaf -1, then the product); a number `n` becomes a leaf `-n`; then `add`. The data is the difference |
| Values.Graph.Pow | value.js:77-82 | A non-number exponent throws and allocates nothing; otherwise appends `x^k` with op `^` |
| Values.Graph.Div | value.js:84-89 | A `Value` divisor goes through `pow(-1)`, a number `n` through a leaf `1/n`; then `mul`. The data is the quotient |
| Values.Graph.Exp | value.js:91-93 | Appends `exp(x)` with op `exp` |
| Values.Graph.Log | value.js:95-100 | Throws and allocates nothing when `x <= 0`; otherwise appends `log(x)` with op `log` |
| Values.Graph.Tanh | value.js:102-104 | Appends `tanh(x)` with op `tanh` |
| Values.Graph.Sigmoid | value.js:106-108 | Appends `1 / (1 + exp(-x))` with op `sigmoid` |
| Values.Graph.Relu | value.js:110-112 | Appends `max(0, x)` with op `relu` |
| Values.Graph.Collect | value.js:119-126 | `orderedValues` has no repeats, is post-ordered, and holds exactly the nodes reachable from the root |
| Values.Graph.Accumulate | value.js:5 | `grad += c` on one node |
| Values.Graph.RunRule | value.js:134-135 | Runs one `BACKWARD_FUNC` entry as `Gradients.Rule` specifies |
| Values.Graph.ZeroGrads | value.js:130 | The reset loop gives `Gradients.ResetGrads` |
| Values.Graph.RunRules | value.js:133-137 | The rule loop gives `Gradients.Propagate` |
| Values.Graph.Backward | value.js:118-138 | `backward()` leaves the arena `Gradients.BackwardSpec` describes, and the arena stays valid |
| Neurons.Parameters | neuron.js:10-12 | The weights in order, then the bias: `dim + 1` entries |
| Neurons.Activate | neuron.js:24 | No activation returns the sum itself; `relu` gives the sum when it is positive and 0 otherwise; only `log` of a non-positive sum or an unknown name fails |
| Neurons.Output | neuron.js:14-25 | A shape error exactly when the input count differs from the weight count; success only on defined inputs; `undefined` exactly for no inputs, no weights and no activation |
| Neurons.NeuronOutput | neuron.js:14-25 | Read from the arena: a shape error exactly when the input count differs from the neuron's weight count, and `undefined` exactly for a neuron without weights or activation given no inputs |
| Neurons.AffineIsDot | neuron.js:19-22 | The left fold starting from the bias equals bias plus the dot product of weights and inputs |
| Neurons.LinearOutput | neuron.js:14-25 | Without activation and with matching inputs, the output is `bias + Σ w_i x_i` |
| Neurons.ReluOutput | neuron.js:24 | With `relu` the output is non-negative: the bias plus the dot product when that is positive, and 0 otherwise |
| Neurons.ExtendsNeuron | neuron.js:14-25 | Allocating further nodes changes neither a neuron's weights, its bias nor its output |
| Neurons.NewNeuron | neuron.js:4-8 | `dim` weight leaves holding the given initial values, then a bias leaf 0; the parameters are exactly those new nodes |
| Neurons.WeightedSum | neuron.js:19-22 | The accumulation loop's result has the data of the bias-seeded left fold |
| Neurons.AddProduct | neuron.js:21 | One loop step, `sum.add(w.mul(x))`, has data `sum + w * x` and leaves existing nodes unchanged |
| Neurons.NeuronForward | neuron.js:14-25 | `forward` yields the data, or the error, `Neurons.NeuronOutput` gives: shape error, `undefined` on no inputs, otherwise the activated sum |
| Layers.LayerParameters | layer.js:8-10 | Every parameter of every neuron occurs in the layer's parameters |
| Layers.LayerParametersAt | layer.js:8-10 | The parameters are concatenated in neuron order: entry `j * (dimIn + 1) + i` is parameter `i` of neuron `j` |
| Layers.ParameterCount | layer.js:8-10 | A layer of `dimOut` neurons with `dimIn` inputs has `dimOut * (dimIn + 1)` parameters |
| Layers.LayerOutput | layer.js:12-14 | A successful output has one entry per neuron |
| Layers.LayerOutputNeurons | layer.js:12-14 | The layer succeeds if and only if every neuron does, and then output `j` is neuron `j`'s output |
| Layers.LayerOutputErrPrefix | layer.js:12-14 | Once a prefix of neurons fails, the layer fails with that error |
| Layers.ShapeErrorOfLayer | layer.js:12-14 | With at least one neuron, a wrong input count fails the layer with a shape error |
| Layers.NewLayer | layer.js:4-6 | `dimOut` neurons, each with `dimIn` weights holding its initial values, a zero bias and the same activation; the arena grows by exactly one fresh leaf of gradient 0 per parameter, and the layer's parameters are those new nodes in allocation order |
| Layers.LayerForward | layer.js:12-14 | `forward` yields the data, or the error, `Layers.LayerOutput` gives |
| Networks.Sizes | smallnn.js:5 | `sizes` is `inDim` followed by `layerDims` |
| Networks.NetParameters | smallnn.js:9-11 | Every parameter of every layer occurs in the network's parameters |
| Networks.NetParametersSplit | smallnn.js:9-11 | The parameters of the first `k` layers come first, then those of the remaining layers |
| Networks.NetParameterCount | smallnn.js:9-11 | The parameter count is the sum of `sizes[i+1] * (sizes[i] + 1)` |
| Networks.NetOutput | smallnn.js:18-19 | No layers return the input; otherwise a result has the last layer's width |
| Networks.NetOutputSplit | smallnn.js:18 | Running the layers is running the first `k`, then the rest on their output |
| Networks.NetShapeError | smallnn.js:18 | An input of the wrong length fails the network with a shape error when the first layer has a neuron |
| Networks.ExtendsNet | smallnn.js:18-19 | Allocating further nodes does not change the network's output |
| Networks.NewNet | smallnn.js:4-7 | One layer per entry of `layerDims`; layer `i` maps `sizes[i]` inputs to `layerDims[i]` outputs and holds the given initial weights; the arena grows by exactly one fresh leaf of gradient 0 per parameter, and the network's parameters are those new nodes in allocation order |
| Networks.NetForward | smallnn.js:18-19 | The single-example forward yields the data, or the error, `Networks.NetOutput` gives |
| Networks.BatchOutput | smallnn.js:14-16 | A batch result has one entry per example |
| Networks.BatchOutputExamples | smallnn.js:14-16 | A batch succeeds if and only if every example does, and entry `i` is example `i`'s output |
| Networks.BatchOutputErrPrefix | smallnn.js:15 | The first failing example fails the batch |
| Networks.ForwardBatch | smallnn.js:13-16 | The batch forward yields the data, or the error, `Networks.BatchOutput` gives |
| Losses.ExtractInputs | smallnn.js:22-24 | Each array becomes its first element (`undefined` when empty); anything else is kept |
| Losses.Extract | smallnn.js:23 | A non-array is kept, and an array of non-arrays gives a non-array |
| Losses.ExtractRoundTrip | smallnn.js:22-24 | Items without arrays are unchanged, and wrapping each item in a one-element array and extracting gives the items back |
| Losses.SquaredErrors | smallnn.js:36 | Entry `i` is `(x_i - t_i)^2` |
| Losses.DivBy | smallnn.js:39 | `x.div(n)` for a positive count `n` gives a value that, times `n`, is `x` |
| Losses.MseLoss | smallnn.js:26-40 | A length mismatch fails (and only it gives that error); success exactly when every input is a `Value`; no loss node for empty targets |
| Losses.DivByPositive | value.js:84-89 | `x * (1 / n)` is `x / n`, keeps the sign of `x`, and is 0 only for `x = 0` |
| Losses.MseIsMean | smallnn.js:34-39 | For `n > 0` the loss is the mean of the squared differences |
| Losses.MseZero | smallnn.js:34-39 | The loss is non-negative, and 0 if and only if every input equals its target |
| Losses.AddTo | smallnn.js:37 | `loss ? loss.add(c) : c` has the previous loss's data (0 without one) plus `c`'s data |
| Losses.SquaredError | smallnn.js:36 | `x.sub(t).pow(2)` has data `(x - t)^2` |
| Losses.AddSquaredError | smallnn.js:36-37 | One loop step adds `(x - t)^2` to the running loss |
| Losses.SquaredErrorSum | smallnn.js:34-38 | The loop fails with a type error exactly when an input is not a `Value`, and otherwise its loss has the data of the sum of squared errors |
| Losses.MSELoss | smallnn.js:26-40 | `MSELoss` yields the data, or the error, `Losses.MseLoss` gives |
| Losses.Exps | smallnn.js:45 | Entry `i` is `exp(x_i)` |
| Losses.SoftMaxOutput | smallnn.js:42-49 | A type error exactly when an input is not a `Value` or there is none; otherwise one output per input |
| Losses.SoftMaxSumsToOne | smallnn.js:42-49 | With a positive `exp` the outputs lie in (0, 1] and sum to 1 |
| Losses.SoftMaxEqualLogits | smallnn.js:42-49 | Two equal logits give `[0.5, 0.5]` |
| Losses.Exponentials | smallnn.js:45 | The `map` fails exactly when an input is not a `Value`, and otherwise yields `exp` of each input's data |
| Losses.SumAll | smallnn.js:46 | The `reduce` yields a node with the sum of the data |
| Losses.ScaleAll | smallnn.js:48 | The `map` yields nodes with each data times the scale |
| Losses.SoftMax | smallnn.js:42-49 | `SoftMax` yields the data, or the error, `Losses.SoftMaxOutput` gives |
| Losses.LogTerms | smallnn.js:60 | Entry `i` is `log(p_i) * t_i` |
| Losses.CrossEntropy | smallnn.js:51-65 | A length mismatch fails (and only it gives that error); a failing softmax fails with a type error |
| Losses.CrossEntropyDefined | smallnn.js:57-64 | With a positive `exp`, matching non-empty `Value` inputs always give a loss |
| Losses.CrossEntropyOneHot | smallnn.js:57-64 | With a one-hot target `k` the loss is `-log(p_k)` |
| Losses.CrossEntropyEqualLogits | smallnn.js:57-64 | Two equal logits against `[1, 0]` give `-log(0.5)` |
| Losses.LogTerm | smallnn.js:60 | `p.log().mul(t)` throws exactly when `p <= 0`, and otherwise has data `log(p) * t` |
| Losses.AddLogTerm | smallnn.js:60-61 | One loop step adds `log(p) * t` to the running loss, or throws on `p <= 0` |
| Losses.LogLikelihood | smallnn.js:59-63 | The loop throws exactly when some probability is not positive, and otherwise has the data of the sum of `log(p_i) * t_i` |
| Losses.NegLogLikelihood | smallnn.js:57-64 | The loop then `loss.mul(-1)`: throws exactly when some probability is not positive, and otherwise has minus that sum |
| Losses.CrossEntropyLoss | smallnn.js:51-65 | `CrossEntropyLoss` yields the data, or the error, `Losses.CrossEntropy` gives |

## Left out

- `gelu` (value.js:42-48, 114-116): the operator, its backward rule and a `'gelu'` activation are not modelled. They need `tanh`, `cosh` and `sqrt` of real numbers.
- Floating point: data and gradients are exact reals. Overflow, rounding, `NaN` and `Infinity` are not modelled.
- Arena.Inv: division by zero, and a negative power of 0, give 0 instead of `Infinity`, so `div` by a zero number or a zero `Value` has data 0.
- `Math.exp`, `Math.log` and `Math.tanh` are an arbitrary fixed choice of functions. No property of them is assumed, except a positive `exp` where a lemma names it.
- Values.Graph.Pow: only integer exponents and "not a number" are modelled. A fractional exponent (`Math.pow` of a real power) is not.
- Random initial weights (neuron.js:5): the constructors take the initial weights as a parameter.
- The default `activationFunction = 'relu'` (neuron.js:4, layer.js:4, smallnn.js:4): Dafny has no default arguments, so `Neurons.NewNeuron`, `Layers.NewLayer` and `Networks.NewNet` always take the activation, and a call that omits it is modelled by passing `ReluActivation`.
- Neurons.Activate: `actFunc` is one of the known operator names, falsy, or `NotAMethod` for any other string. JavaScript's dynamic property lookup on arbitrary strings is not modelled.
- Neurons.Output: an `undefined` input yields the error `UndefinedInput`. Such an input is the output of a neuron without inputs, fed into a further layer. JavaScript instead wraps it as a leaf whose data is `NaN`, and `NaN` is not modelled.
- Losses.MSELoss: targets are `Value`s or numbers. An `undefined` or array target is not modelled.
- Objects are arena indices, and aliasing between `Value`s is equality of indices. The in-place `reverse()` is modelled on the list value `Traversal.Reverse`.
- The exponential running time and the recursion depth of `traverse` on shared sub-graphs are not modelled. `Traversal.Visits` gives the full sequence of its callbacks.
- The `log` throw inside `backward` (value.js:23-25) is in the specification functions (`Gradients.Rule`). `Values.Graph.Backward` does not throw, because it requires an arena built by the operators, where that throw cannot happen (`Gradients.BackwardValidOk`).
- Neurons.NeuronForward, Layers.LayerForward, Networks.NetForward, Networks.ForwardBatch, Losses.MSELoss, Losses.SoftMax, Losses.CrossEntropyLoss, Neurons.WeightedSum, Neurons.AddProduct, Losses.AddTo, Losses.SquaredError, Losses.AddSquaredError, Losses.SquaredErrorSum, Losses.Exponentials, Losses.SumAll, Losses.ScaleAll, Losses.LogTerm, Losses.AddLogTerm, Losses.LogLikelihood and Losses.NegLogLikelihood: each states the data of its result and that existing nodes are unchanged. None names the nodes it appends.
- Gradients.NeuronGradient: proved for a neuron with one input only; the n-input case is not proved. Its arena is written out by hand in the allocation order of neuron.js:19-22 and is not derived from `Neurons.NewNeuron` followed by `Neurons.NeuronForward`.
- `toString` (value.js:149-151) and the PyTorch reference script `test.py` are not modelled.
