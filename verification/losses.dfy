/**
 * The static helpers of the network class (smallnn.js:22-65): input extraction,
 * the mean squared error, softmax and the cross-entropy loss. Each builds its
 * result as nodes of the graph, so that `backward` can be called on it.
 */
module Losses {
  import opened Arena
  import opened Values
  import opened Neurons

  /**
   * An element of the `inputs` array of a loss: a single `Value`, number or
   * `undefined`, or an array (as a batch `forward` returns one per example).
   */
  datatype Item = Single(x: Option<Arg>) | List(items: seq<Item>)

  /** Every `Value` an item holds, at any depth, is a node of the arena. */
  predicate ItemIn(nodes: seq<Node>, it: Item)
    decreases it
  {
    match it
    case Single(x) => x.Some? ==> ArgIn(nodes, x.value)
    case List(items) => forall k :: 0 <= k < |items| ==> ItemIn(nodes, items[k])
  }

  predicate ItemsIn(nodes: seq<Node>, items: seq<Item>)
  {
    forall i :: 0 <= i < |items| ==> ItemIn(nodes, items[i])
  }

  /** `Array.isArray(i) ? i[0] : i`: the first element of an array (`undefined` when empty). */
  function Extract(it: Item): (r: Item)
    ensures it.Single? ==> r == it
    ensures it.List? && Flat(it.items) ==> r.Single?
  {
    match it
    case Single(_) => it
    case List(items) => if items == [] then Single(None) else items[0]
  }

  /** `_extractInputs(inputs)` (smallnn.js:22-24). */
  function ExtractInputs(items: seq<Item>): (r: seq<Item>)
    ensures |r| == |items|
    ensures forall i :: 0 <= i < |items| ==> r[i] == Extract(items[i])
  {
    seq(|items|, i requires 0 <= i < |items| => Extract(items[i]))
  }

  lemma ExtractIn(nodes: seq<Node>, items: seq<Item>)
    requires ItemsIn(nodes, items)
    ensures ItemsIn(nodes, ExtractInputs(items))
  {
    forall i | 0 <= i < |items| ensures ItemIn(nodes, Extract(items[i])) {
      var it := items[i];
      if it.List? && it.items != [] {
        assert ItemIn(nodes, it.items[0]);
      }
    }
  }

  /** An item without arrays. */
  predicate Flat(items: seq<Item>)
  {
    forall i :: 0 <= i < |items| ==> items[i].Single?
  }

  /** Each item wrapped in a one-element array, as the outputs of a one-neuron network come. */
  function Singletons(items: seq<Item>): (r: seq<Item>)
    ensures |r| == |items| && forall i :: 0 <= i < |items| ==> r[i] == List([items[i]])
  {
    seq(|items|, i requires 0 <= i < |items| => List([items[i]]))
  }

  /** Extraction leaves items without arrays unchanged, and unwraps one-element arrays. */
  lemma ExtractRoundTrip(items: seq<Item>)
    requires Flat(items)
    ensures ExtractInputs(items) == items
    ensures ExtractInputs(Singletons(items)) == items
  {
  }

  /** The arena index of an item that is a `Value`; anything else has no methods. */
  function ValueOf(it: Item): (r: Option<nat>)
    ensures r.Some? <==> it.Single? && it.x.Some? && it.x.value.Val?
    ensures r.Some? ==> it == Single(Some(Val(r.value)))
  {
    if it.Single? && it.x.Some? && it.x.value.Val? then Some(it.x.value.index) else None
  }

  /** The data of an item that is a `Value`, and `None` for anything else. */
  function ItemData(nodes: seq<Node>, it: Item): (r: Option<real>)
    requires ItemIn(nodes, it)
    ensures r.Some? <==> ValueOf(it).Some?
    ensures r.Some? ==> ValueOf(it).value < |nodes| && r.value == nodes[ValueOf(it).value].data
  {
    match ValueOf(it)
    case None => None
    case Some(i) => Some(nodes[i].data)
  }

  function ItemsData(nodes: seq<Node>, items: seq<Item>): (r: seq<Option<real>>)
    requires ItemsIn(nodes, items)
    ensures |r| == |items| && forall i :: 0 <= i < |items| ==> r[i] == ItemData(nodes, items[i])
  {
    seq(|items|, i requires 0 <= i < |items| => ItemData(nodes, items[i]))
  }

  predicate ArgsIn(nodes: seq<Node>, ts: seq<Arg>)
  {
    forall i :: 0 <= i < |ts| ==> ArgIn(nodes, ts[i])
  }

  function ArgsData(nodes: seq<Node>, ts: seq<Arg>): (r: seq<real>)
    requires ArgsIn(nodes, ts)
    ensures |r| == |ts| && forall i :: 0 <= i < |ts| ==> r[i] == ArgData(nodes, ts[i])
  {
    seq(|ts|, i requires 0 <= i < |ts| => ArgData(nodes, ts[i]))
  }

  /** Nodes below the old length are untouched. */
  lemma ExtendsAt(nodes: seq<Node>, old_nodes: seq<Node>)
    requires Extends(nodes, old_nodes)
    ensures forall j :: 0 <= j < |old_nodes| ==> nodes[j] == old_nodes[j]
  {
    assert forall j :: 0 <= j < |old_nodes| ==> nodes[..|old_nodes|][j] == nodes[j];
  }

  lemma ExtendsItems(nodes: seq<Node>, old_nodes: seq<Node>, items: seq<Item>, ts: seq<Arg>)
    requires Extends(nodes, old_nodes) && ItemsIn(old_nodes, items) && ArgsIn(old_nodes, ts)
    ensures ItemsIn(nodes, items) && ItemsData(nodes, items) == ItemsData(old_nodes, items)
    ensures ArgsIn(nodes, ts) && ArgsData(nodes, ts) == ArgsData(old_nodes, ts)
  {
    ExtendsAt(nodes, old_nodes);
    forall i | 0 <= i < |items| ensures ItemIn(nodes, items[i]) {
      ItemInExtends(nodes, old_nodes, items[i]);
    }
  }

  lemma ItemInExtends(nodes: seq<Node>, old_nodes: seq<Node>, it: Item)
    requires |old_nodes| <= |nodes| && ItemIn(old_nodes, it)
    ensures ItemIn(nodes, it)
    decreases it
  {
    if it.List? {
      forall k | 0 <= k < |it.items| ensures ItemIn(nodes, it.items[k]) {
        ItemInExtends(nodes, old_nodes, it.items[k]);
      }
    }
  }

  /** The running sum of a `forEach` or `reduce` that adds each element to the previous total. */
  function Sum(xs: seq<real>): real
  {
    if xs == [] then 0.0 else Sum(xs[..|xs| - 1]) + xs[|xs| - 1]
  }

  lemma SumNext(xs: seq<real>, i: nat)
    requires i < |xs|
    ensures Sum(xs[..i + 1]) == Sum(xs[..i]) + xs[i]
  {
    assert xs[..i + 1][..i] == xs[..i];
  }

  /** A sum of non-negative terms is non-negative, and zero exactly when every term is. */
  lemma {:induction false} SumNonNegative(xs: seq<real>)
    requires forall i :: 0 <= i < |xs| ==> xs[i] >= 0.0
    ensures Sum(xs) >= 0.0
    ensures Sum(xs) == 0.0 <==> forall i :: 0 <= i < |xs| ==> xs[i] == 0.0
  {
    if xs != [] {
      var init := xs[..|xs| - 1];
      SumNonNegative(init);
      assert forall i :: 0 <= i < |init| ==> init[i] == xs[i];
    }
  }

  /** A non-empty sum of positive terms is positive. */
  lemma {:induction false} SumPositive(xs: seq<real>)
    requires xs != [] && forall i :: 0 <= i < |xs| ==> xs[i] > 0.0
    ensures Sum(xs) > 0.0
  {
    var init := xs[..|xs| - 1];
    if init != [] {
      SumPositive(init);
    }
  }

  /** Each term scaled by `c`. */
  function Scaled(xs: seq<real>, c: real): (r: seq<real>)
    ensures |r| == |xs| && forall i :: 0 <= i < |xs| ==> r[i] == xs[i] * c
  {
    seq(|xs|, i requires 0 <= i < |xs| => xs[i] * c)
  }

  lemma {:induction false} SumScaled(xs: seq<real>, c: real)
    ensures Sum(Scaled(xs, c)) == Sum(xs) * c
  {
    if xs != [] {
      var init := xs[..|xs| - 1];
      SumScaled(init, c);
      ScaledInit(xs, c);
      Distributes(Sum(init), xs[|xs| - 1], c);
    }
  }

  lemma ScaledInit(xs: seq<real>, c: real)
    requires xs != []
    ensures Scaled(xs, c)[..|xs| - 1] == Scaled(xs[..|xs| - 1], c)
  {
    var init := xs[..|xs| - 1];
    var ys := Scaled(xs, c);
    forall i | 0 <= i < |init| ensures ys[..|init|][i] == Scaled(init, c)[i] {
      assert init[i] == xs[i];
    }
  }

  lemma Distributes(a: real, b: real, c: real)
    ensures (a + b) * c == a * c + b * c
  {
  }

  /** A sum whose terms are all zero but the `k`-th is that term. */
  lemma {:induction false} SumSingle(xs: seq<real>, k: nat)
    requires k < |xs| && forall i :: 0 <= i < |xs| && i != k ==> xs[i] == 0.0
    ensures Sum(xs) == xs[k]
  {
    var init := xs[..|xs| - 1];
    if k < |xs| - 1 {
      SumSingle(init, k);
    } else {
      SumNonNegative(init);
    }
  }

  // ---------------------------------------------------------------- MSELoss

  /** The squared errors `(x_i - t_i)^2`, as `sub(target).pow(2)` computes them. */
  function SquaredErrors(xs: seq<Option<real>>, ts: seq<real>): (r: seq<real>)
    requires |xs| == |ts| && Defined(xs)
    ensures |r| == |xs| && forall i :: 0 <= i < |xs| ==> r[i] == IntPow(xs[i].value - ts[i], 2)
  {
    seq(|xs|, i requires 0 <= i < |xs| => IntPow(xs[i].value - ts[i], 2))
  }

  /**
   * What `MSELoss(inputs, targets)` returns, as data (smallnn.js:26-40), from the
   * data of the extracted inputs (`None` where an input is not a `Value`) and of
   * the targets: a length error, a type error when an input has no `sub`,
   * `undefined` without targets, the single squared error for one target, and the
   * sum of squared errors times `1 / n` otherwise.
   */
  function MseLoss(xs: seq<Option<real>>, ts: seq<real>): (r: Result<Option<real>>)
    ensures |xs| != |ts| <==> r == Err(LengthMismatch)
    ensures r.Ok? <==> |xs| == |ts| && Defined(xs)
    ensures r.Ok? ==> (r.value.None? <==> ts == [])
  {
    if |xs| != |ts| then Err(LengthMismatch)
    else if !Defined(xs) then Err(TypeError)
    else if ts == [] then Ok(None)
    else if |ts| == 1 then Ok(Some(Sum(SquaredErrors(xs, ts))))
    else Ok(Some(DivBy(Sum(SquaredErrors(xs, ts)), |ts|)))
  }

  /** `x.div(n)` for a number `n`, which is `x.mul(1 / n)`. */
  function DivBy(x: real, n: nat): (r: real)
    ensures n > 0 ==> r * (n as real) == x
  {
    assert n > 0 ==> Inv(n as real) * (n as real) == 1.0;
    x * Inv(n as real)
  }

  /** Dividing by a positive count is division, keeps the sign and is zero only for zero. */
  lemma DivByPositive(x: real, n: nat)
    requires n > 0
    ensures DivBy(x, n) == x / (n as real)
    ensures DivBy(x, n) >= 0.0 <==> x >= 0.0
    ensures DivBy(x, n) == 0.0 <==> x == 0.0
  {
    var c := Inv(n as real);
    assert c == 1.0 / (n as real) && c > 0.0;
    if x > 0.0 {
      ProductPositive(x, c);
    } else if x < 0.0 {
      ProductPositive(-x, c);
      assert (-x) * c == -(x * c);
    }
  }

  lemma MseLossOne(xs: seq<Option<real>>, ts: seq<real>)
    requires |xs| == |ts| == 1 && Defined(xs)
    ensures MseLoss(xs, ts) == Ok(Some(Sum(SquaredErrors(xs, ts))))
  {
  }

  lemma MseLossMany(xs: seq<Option<real>>, ts: seq<real>)
    requires |xs| == |ts| > 1 && Defined(xs)
    ensures MseLoss(xs, ts) == Ok(Some(DivBy(Sum(SquaredErrors(xs, ts)), |ts|)))
  {
  }

  /** The mean of the squared errors, as a reference definition. */
  function MeanSquaredError(xs: seq<real>, ys: seq<real>): real
    requires |xs| == |ys| && |xs| > 0
  {
    SumFront(xs, ys) / (|xs| as real)
  }

  /** `(x_0 - y_0)^2 + ... + (x_n-1 - y_n-1)^2`, summed from the front. */
  function SumFront(xs: seq<real>, ys: seq<real>): real
    requires |xs| == |ys|
  {
    if xs == [] then 0.0 else (xs[0] - ys[0]) * (xs[0] - ys[0]) + SumFront(xs[1..], ys[1..])
  }

  lemma {:induction false} SumFrontSnoc(xs: seq<real>, ys: seq<real>, x: real, y: real)
    requires |xs| == |ys|
    ensures SumFront(xs + [x], ys + [y]) == SumFront(xs, ys) + (x - y) * (x - y)
    decreases |xs|
  {
    if xs == [] {
      assert SumFront([x], [y]) == (x - y) * (x - y) + SumFront([], []);
    } else {
      assert (xs + [x])[1..] == xs[1..] + [x];
      assert (ys + [y])[1..] == ys[1..] + [y];
      SumFrontSnoc(xs[1..], ys[1..], x, y);
    }
  }

  /** Extending the inputs by one adds that input's squared error to the sum. */
  lemma SquaredErrorsNext(xs: seq<Option<real>>, ts: seq<real>, i: nat)
    requires |xs| == |ts| && i < |xs| && Defined(xs[..i + 1])
    ensures Defined(xs[..i]) && xs[i].Some?
    ensures Sum(SquaredErrors(xs[..i + 1], ts[..i + 1])) ==
      Sum(SquaredErrors(xs[..i], ts[..i])) + IntPow(xs[i].value - ts[i], 2)
  {
    assert xs[..i + 1][i] == xs[i];
    var all := SquaredErrors(xs[..i + 1], ts[..i + 1]);
    SumNext(all, i);
    forall k | 0 <= k < i ensures all[..i][k] == SquaredErrors(xs[..i], ts[..i])[k] {
      assert xs[..i + 1][k] == xs[..i][k] && ts[..i + 1][k] == ts[..i][k];
    }
    assert all[..i] == SquaredErrors(xs[..i], ts[..i]);
  }

  lemma PresentSnoc(xs: seq<Option<real>>)
    requires xs != [] && Defined(xs)
    ensures Defined(xs[..|xs| - 1]) && Present(xs) == Present(xs[..|xs| - 1]) + [xs[|xs| - 1].value]
  {
    var n := |xs| - 1;
    assert forall k :: 0 <= k < n ==> Present(xs)[k] == Present(xs[..n])[k];
  }

  lemma {:induction false} SquaredErrorsSum(xs: seq<Option<real>>, ts: seq<real>)
    requires |xs| == |ts| && Defined(xs)
    ensures Sum(SquaredErrors(xs, ts)) == SumFront(Present(xs), ts)
    decreases |xs|
  {
    if xs != [] {
      var n := |xs| - 1;
      SquaredErrorsLast(xs, ts);
      SumFrontLast(xs, ts);
      SquaredErrorsSum(xs[..n], ts[..n]);
    }
  }

  lemma SquaredErrorsLast(xs: seq<Option<real>>, ts: seq<real>)
    requires |xs| == |ts| > 0 && Defined(xs)
    ensures Defined(xs[..|xs| - 1])
    ensures Sum(SquaredErrors(xs, ts)) ==
      Sum(SquaredErrors(xs[..|xs| - 1], ts[..|xs| - 1])) + IntPow(xs[|xs| - 1].value - ts[|xs| - 1], 2)
  {
    var n := |xs| - 1;
    assert xs[..n + 1] == xs && ts[..n + 1] == ts;
    SquaredErrorsNext(xs, ts, n);
  }

  lemma SumFrontLast(xs: seq<Option<real>>, ts: seq<real>)
    requires |xs| == |ts| > 0 && Defined(xs)
    ensures Defined(xs[..|xs| - 1])
    ensures SumFront(Present(xs), ts) ==
      SumFront(Present(xs[..|xs| - 1]), ts[..|xs| - 1]) + IntPow(xs[|xs| - 1].value - ts[|xs| - 1], 2)
  {
    var n := |xs| - 1;
    var x, t := xs[n].value, ts[n];
    PresentSnoc(xs);
    assert ts == ts[..n] + [t];
    SumFrontSnoc(Present(xs[..n]), ts[..n], x, t);
    Square(x - t);
  }

  /**
   * Whatever the input count, the loss is the mean of the squared errors: not
   * dividing a single error by one changes nothing.
   */
  lemma MseIsMean(xs: seq<Option<real>>, ts: seq<real>)
    requires |xs| == |ts| > 0 && Defined(xs)
    ensures MseLoss(xs, ts) == Ok(Some(MeanSquaredError(Present(xs), ts)))
  {
    SquaredErrorsSum(xs, ts);
    DivByPositive(Sum(SquaredErrors(xs, ts)), |ts|);
  }

  /** The loss is never negative, and it is zero exactly when every input equals its target. */
  lemma MseZero(xs: seq<Option<real>>, ts: seq<real>)
    requires |xs| == |ts| > 0 && Defined(xs)
    ensures MseLoss(xs, ts).value.value >= 0.0
    ensures MseLoss(xs, ts).value.value == 0.0 <==> forall i :: 0 <= i < |xs| ==> xs[i].value == ts[i]
  {
    var sq := SquaredErrors(xs, ts);
    forall i | 0 <= i < |xs| ensures sq[i] >= 0.0 && (sq[i] == 0.0 <==> xs[i].value == ts[i]) {
      SquarePositive(xs[i].value - ts[i]);
    }
    SumNonNegative(sq);
    DivByPositive(Sum(sq), |ts|);
  }

  lemma SquarePositive(d: real)
    ensures IntPow(d, 2) >= 0.0 && (IntPow(d, 2) == 0.0 <==> d == 0.0)
  {
    assert NatPow(d, 1) == d;
    assert IntPow(d, 2) == d * NatPow(d, 1);
    if d != 0.0 {
      ProductPositive(d, NatPow(d, 1));
    }
  }

  /** Stated on two variables, so that the solver does not rewrite a square. */
  lemma ProductPositive(a: real, b: real)
    requires (a > 0.0 && b > 0.0) || (a < 0.0 && b < 0.0)
    ensures a * b > 0.0
  {
  }

  /** `loss ? loss.add(c) : c`: the first term starts the running loss, later ones are added to it. */
  method AddTo(g: Graph, loss: Option<nat>, c: nat) returns (s: nat)
    requires g.Valid() && c < |g.nodes| && (loss.Some? ==> loss.value < |g.nodes|)
    modifies g
    ensures g.Valid() && Extends(g.nodes, old(g.nodes)) && s < |g.nodes|
    ensures g.nodes[s].data == (if loss.Some? then old(g.nodes)[loss.value].data else 0.0) + old(g.nodes)[c].data
  {
    if loss.None? {
      assert g.nodes[..|g.nodes|] == g.nodes;
      s := c;
    } else {
      s := g.Add(loss.value, Val(c));
    }
  }

  /** `x.sub(target).pow(2)`. */
  method SquaredError(g: Graph, x: nat, t: Arg) returns (c: nat)
    requires g.Valid() && x < |g.nodes| && ArgIn(g.nodes, t)
    modifies g
    ensures g.Valid() && Extends(g.nodes, old(g.nodes)) && c < |g.nodes|
    ensures g.nodes[c].data == IntPow(old(g.nodes)[x].data - ArgData(old(g.nodes), t), 2)
  {
    var d := g.Sub(x, t);
    ghost var mid := g.nodes;
    var p := g.Pow(d, Number(2));
    c := p.value;
    assert Extends(g.nodes, mid);
    ExtendsTrans(old(g.nodes), mid, g.nodes);
  }

  /** One step of the sum of squared errors: `loss ? loss.add(c) : c` with `c = x.sub(t).pow(2)`. */
  method AddSquaredError(g: Graph, loss: Option<nat>, x: nat, t: Arg) returns (s: nat)
    requires g.Valid() && x < |g.nodes| && ArgIn(g.nodes, t) && (loss.Some? ==> loss.value < |g.nodes|)
    modifies g
    ensures g.Valid() && Extends(g.nodes, old(g.nodes)) && s < |g.nodes|
    ensures g.nodes[s].data ==
      (if loss.Some? then old(g.nodes)[loss.value].data else 0.0) + IntPow(old(g.nodes)[x].data - ArgData(old(g.nodes), t), 2)
  {
    var c := SquaredError(g, x, t);
    ghost var mid := g.nodes;
    if loss.Some? {
      ExtendsOne(mid, old(g.nodes), loss.value);
    }
    s := AddTo(g, loss, c);
    ExtendsTrans(old(g.nodes), mid, g.nodes);
  }

  /** After one more `AddSquaredError`, the running loss holds the sum over one more example. */
  lemma SquaredErrorStep(start: seq<Node>, before: seq<Node>, nodes: seq<Node>, data: seq<Option<real>>, ts: seq<real>,
                         i: nat, loss: Option<nat>, s: nat, x: nat, t: Arg)
    requires Extends(before, start) && Extends(nodes, before)
    requires |data| == |ts| && i < |data| && Defined(data[..i]) && (loss.None? <==> i == 0)
    requires x < |start| && data[i] == Some(start[x].data) && before[x] == start[x]
    requires ArgIn(start, t) && ArgIn(before, t) && ts[i] == ArgData(start, t) && ArgData(before, t) == ArgData(start, t)
    requires loss.Some? ==> loss.value < |before| && before[loss.value].data == Sum(SquaredErrors(data[..i], ts[..i]))
    requires s < |nodes|
    requires nodes[s].data ==
      (if loss.Some? then before[loss.value].data else 0.0) + IntPow(before[x].data - ArgData(before, t), 2)
    ensures Extends(nodes, start) && Defined(data[..i + 1])
    ensures nodes[s].data == Sum(SquaredErrors(data[..i + 1], ts[..i + 1]))
  {
    ExtendsTrans(start, before, nodes);
    assert Defined(data[..i + 1]) by {
      assert forall k :: 0 <= k < i ==> data[..i + 1][k] == data[..i][k];
    }
    SquaredErrorsNext(data, ts, i);
    if loss.None? {
      assert data[..0] == [] && ts[..0] == [];
    }
  }

  /**
   * The `forEach` of smallnn.js:34-38: `inputs[i].sub(target).pow(2)` added into
   * the running loss for each target; a type error at the first input that is
   * not a `Value`.
   */
  method SquaredErrorSum(g: Graph, xs: seq<Item>, targets: seq<Arg>) returns (r: Result<Option<nat>>)
    requires g.Valid() && ItemsIn(g.nodes, xs) && ArgsIn(g.nodes, targets) && |xs| == |targets|
    modifies g
    ensures g.Valid() && Extends(g.nodes, old(g.nodes))
    ensures r.Err? <==> !Defined(ItemsData(old(g.nodes), xs))
    ensures r.Err? ==> r.error == TypeError
    ensures r.Ok? ==> (r.value.None? <==> targets == [])
    ensures r.Ok? && r.value.Some? ==>
      r.value.value < |g.nodes| && g.nodes[r.value.value].data == Sum(SquaredErrors(ItemsData(old(g.nodes), xs), ArgsData(old(g.nodes), targets)))
  {
    ghost var start := g.nodes;
    ghost var data := ItemsData(start, xs);
    ghost var ts := ArgsData(start, targets);
    var loss: Option<nat> := None;
    for i := 0 to |targets|
      invariant g.Valid() && Extends(g.nodes, start)
      invariant Defined(data[..i]) && (loss.None? <==> i == 0)
      invariant loss.Some? ==> loss.value < |g.nodes|
      invariant loss.Some? ==> g.nodes[loss.value].data == Sum(SquaredErrors(data[..i], ts[..i]))
    {
      var v := ValueOf(xs[i]);
      if v.None? {
        assert data[i].None?;
        return Err(TypeError);
      }
      ghost var before := g.nodes;
      ExtendsOne(before, start, v.value);
      ExtendsArg(before, start, targets[i]);
      var s := AddSquaredError(g, loss, v.value, targets[i]);
      SquaredErrorStep(start, before, g.nodes, data, ts, i, loss, s, v.value, targets[i]);
      loss := Some(s);
    }
    assert data[..|targets|] == data && ts[..|targets|] == ts;
    r := Ok(loss);
  }

  /**
   * `MSELoss(inputs, targets)` (smallnn.js:26-40): the length check, the sum of
   * squared errors, then `loss.div(size)` when there is more than one target.
   */
  method MSELoss(g: Graph, inputs: seq<Item>, targets: seq<Arg>) returns (r: Result<Option<nat>>)
    requires g.Valid() && ItemsIn(g.nodes, inputs) && ArgsIn(g.nodes, targets)
    modifies g
    ensures g.Valid() && Extends(g.nodes, old(g.nodes))
    ensures r.Ok? && r.value.Some? ==> r.value.value < |g.nodes|
    ensures ResultData(g.nodes, r) == MseLoss(ItemsData(old(g.nodes), ExtractInputs(inputs)), ArgsData(old(g.nodes), targets))
  {
    ghost var start := g.nodes;
    ExtractIn(start, inputs);
    ghost var data := ItemsData(start, ExtractInputs(inputs));
    ghost var ts := ArgsData(start, targets);
    if |inputs| != |targets| {
      return Err(LengthMismatch);
    }
    var xs := ExtractInputs(inputs);
    var loss := SquaredErrorSum(g, xs, targets);
    if loss.Err? || loss.value.None? {
      return loss;
    }
    if |targets| > 1 {
      var q := g.Div(loss.value.value, Num(|targets| as real));
      assert g.nodes[q].data == DivBy(Sum(SquaredErrors(data, ts)), |ts|);
      MseLossMany(data, ts);
      r := Ok(Some(q));
    } else {
      MseLossOne(data, ts);
      r := loss;
    }
  }

  // ---------------------------------------------------------------- SoftMax

  /** `Math.exp` of each input. */
  function Exps(xs: seq<real>, m: Math): (r: seq<real>)
    ensures |r| == |xs| && forall i :: 0 <= i < |xs| ==> r[i] == m.exp(xs[i])
  {
    seq(|xs|, i requires 0 <= i < |xs| => m.exp(xs[i]))
  }

  /**
   * What `SoftMax(inputs)` returns, as data (smallnn.js:42-49): a type error when
   * an extracted input is not a `Value` or there is none (`reduce` of an empty
   * array), otherwise each `exp(x_i)` times `(exp(x_0) + ... + exp(x_n-1))^-1`.
   */
  function SoftMaxOutput(xs: seq<Option<real>>, m: Math): (r: Result<seq<real>>)
    ensures r.Err? <==> !Defined(xs) || xs == []
    ensures r.Err? ==> r.error == TypeError
    ensures r.Ok? ==> |r.value| == |xs|
  {
    if !Defined(xs) || xs == [] then Err(TypeError)
    else
      var e := Exps(Present(xs), m);
      Ok(Scaled(e, IntPow(Sum(e), -1)))
  }

  /** With a positive exponential, the outputs are probabilities: positive, and summing to one. */
  lemma SoftMaxSumsToOne(xs: seq<Option<real>>, m: Math)
    requires ExpPositive(m) && Defined(xs) && xs != []
    ensures var p := SoftMaxOutput(xs, m).value;
      Sum(p) == 1.0 && forall i :: 0 <= i < |p| ==> 0.0 < p[i] <= 1.0
  {
    var e := Exps(Present(xs), m);
    SumPositive(e);
    var s := Sum(e);
    assert IntPow(s, -1) == Inv(s) by {
      assert NatPow(s, 1) == s;
    }
    var c := Inv(s);
    assert c > 0.0 && c * s == 1.0;
    var p := Scaled(e, c);
    assert SoftMaxOutput(xs, m) == Ok(p);
    assert Sum(p) == 1.0 by {
      SumScaled(e, c);
    }
    forall i | 0 <= i < |e| ensures 0.0 < e[i] * c <= 1.0 {
      SumBound(e, i);
      ShareBound(e[i], s, c);
    }
  }

  lemma ShareBound(x: real, s: real, c: real)
    requires 0.0 < x <= s && c > 0.0 && c * s == 1.0
    ensures 0.0 < x * c <= 1.0
  {
    assert x * c <= s * c;
  }

  /** A term of a sum of positive terms is at most the sum. */
  lemma {:induction false} SumBound(xs: seq<real>, k: nat)
    requires k < |xs| && forall i :: 0 <= i < |xs| ==> xs[i] > 0.0
    ensures xs[k] <= Sum(xs)
  {
    var init := xs[..|xs| - 1];
    if k < |xs| - 1 {
      SumBound(init, k);
    } else if init != [] {
      SumPositive(init);
    }
  }

  /** The data of the nodes at the given indices. */
  function DataAt(nodes: seq<Node>, ix: seq<nat>): (r: seq<real>)
    requires forall i :: 0 <= i < |ix| ==> ix[i] < |nodes|
    ensures |r| == |ix| && forall i :: 0 <= i < |ix| ==> r[i] == nodes[ix[i]].data
  {
    seq(|ix|, i requires 0 <= i < |ix| => nodes[ix[i]].data)
  }

  /** The data of a sequence of result indices. */
  function IndicesData(nodes: seq<Node>, r: Result<seq<nat>>): (d: Result<seq<real>>)
    requires r.Ok? ==> forall i :: 0 <= i < |r.value| ==> r.value[i] < |nodes|
    ensures d.Err? <==> r.Err?
    ensures r.Err? ==> d.error == r.error
    ensures r.Ok? ==> d.value == DataAt(nodes, r.value)
  {
    match r
    case Err(e) => Err(e)
    case Ok(ix) => Ok(DataAt(nodes, ix))
  }

  /** `inputs.map(i => i.exp())` (smallnn.js:45): a type error at the first input that is not a `Value`. */
  method Exponentials(g: Graph, xs: seq<Item>) returns (r: Result<seq<nat>>)
    requires g.Valid() && ItemsIn(g.nodes, xs)
    modifies g
    ensures g.Valid() && Extends(g.nodes, old(g.nodes))
    ensures r.Err? <==> !Defined(ItemsData(old(g.nodes), xs))
    ensures r.Err? ==> r.error == TypeError
    ensures r.Ok? ==>
      (forall i :: 0 <= i < |r.value| ==> r.value[i] < |g.nodes|) &&
      DataAt(g.nodes, r.value) == Exps(Present(ItemsData(old(g.nodes), xs)), g.math)
  {
    ghost var start := g.nodes;
    ghost var data := ItemsData(start, xs);
    var exps: seq<nat> := [];
    for i := 0 to |xs|
      invariant g.Valid() && Extends(g.nodes, start)
      invariant Defined(data[..i]) && |exps| == i
      invariant forall k :: 0 <= k < i ==> exps[k] < |g.nodes| && g.nodes[exps[k]].data == g.math.exp(data[k].value)
    {
      ghost var before := g.nodes;
      ExtendsItems(before, start, xs, []);
      var v := ValueOf(xs[i]);
      if v.None? {
        assert data[i].None?;
        return Err(TypeError);
      }
      assert Defined(data[..i + 1]) by {
        assert forall k :: 0 <= k < i ==> data[..i + 1][k] == data[..i][k];
      }
      var e := g.Exp(v.value);
      ExtendsAt(g.nodes, before);
      ExtendsTrans(start, before, g.nodes);
      exps := exps + [e];
    }
    assert data[..|xs|] == data;
    r := Ok(exps);
  }

  /** `reduce((acc, expI) => acc ? acc.add(expI) : expI)` on a non-empty array (smallnn.js:46). */
  method SumAll(g: Graph, ix: seq<nat>) returns (s: nat)
    requires g.Valid() && ix != [] && forall i :: 0 <= i < |ix| ==> ix[i] < |g.nodes|
    modifies g
    ensures g.Valid() && Extends(g.nodes, old(g.nodes))
    ensures s < |g.nodes| && g.nodes[s].data == Sum(DataAt(old(g.nodes), ix))
  {
    ghost var start := g.nodes;
    ghost var es := DataAt(start, ix);
    s := ix[0];
    assert es[..1] == [es[0]];
    for i := 1 to |ix|
      invariant g.Valid() && Extends(g.nodes, start)
      invariant forall k :: 0 <= k < |ix| ==> ix[k] < |g.nodes| && g.nodes[ix[k]].data == es[k]
      invariant s < |g.nodes| && g.nodes[s].data == Sum(es[..i])
    {
      ghost var before := g.nodes;
      s := g.Add(s, Val(ix[i]));
      ExtendsAt(g.nodes, before);
      ExtendsTrans(start, before, g.nodes);
      SumNext(es, i);
    }
    assert es[..|ix|] == es;
  }

  /** `expInputs.map(expI => expI.mul(invSumExp))` (smallnn.js:48). */
  method ScaleAll(g: Graph, ix: seq<nat>, scale: nat) returns (outs: seq<nat>)
    requires g.Valid() && scale < |g.nodes| && forall i :: 0 <= i < |ix| ==> ix[i] < |g.nodes|
    modifies g
    ensures g.Valid() && Extends(g.nodes, old(g.nodes))
    ensures forall i :: 0 <= i < |outs| ==> outs[i] < |g.nodes|
    ensures DataAt(g.nodes, outs) == Scaled(DataAt(old(g.nodes), ix), old(g.nodes)[scale].data)
  {
    ghost var start := g.nodes;
    ghost var es := DataAt(start, ix);
    ghost var c := start[scale].data;
    outs := [];
    for i := 0 to |ix|
      invariant g.Valid() && Extends(g.nodes, start) && |outs| == i
      invariant g.nodes[scale].data == c
      invariant forall k :: 0 <= k < |ix| ==> ix[k] < |g.nodes| && g.nodes[ix[k]].data == es[k]
      invariant forall k :: 0 <= k < i ==> outs[k] < |g.nodes| && g.nodes[outs[k]].data == es[k] * c
    {
      ghost var before := g.nodes;
      var o := g.Mul(ix[i], Val(scale));
      ExtendsAt(g.nodes, before);
      ExtendsTrans(start, before, g.nodes);
      outs := outs + [o];
    }
    assert forall k :: 0 <= k < |outs| ==> DataAt(g.nodes, outs)[k] == Scaled(es, c)[k];
  }

  /**
   * `SoftMax(inputs)` (smallnn.js:42-49): `exp` of each extracted input, their
   * sum by `reduce` (a type error when there is none), its `pow(-1)`, and each
   * exponential times that inverse.
   */
  method SoftMax(g: Graph, inputs: seq<Item>) returns (r: Result<seq<nat>>)
    requires g.Valid() && ItemsIn(g.nodes, inputs)
    modifies g
    ensures g.Valid() && Extends(g.nodes, old(g.nodes))
    ensures r.Ok? ==> forall i :: 0 <= i < |r.value| ==> r.value[i] < |g.nodes|
    ensures IndicesData(g.nodes, r) == SoftMaxOutput(ItemsData(old(g.nodes), ExtractInputs(inputs)), g.math)
  {
    ghost var start := g.nodes;
    var xs := ExtractInputs(inputs);
    ExtractIn(start, inputs);
    ghost var data := ItemsData(start, xs);
    var exps := Exponentials(g, xs);
    if exps.Err? {
      return Err(TypeError);
    }
    if exps.value == [] {
      return Err(TypeError);
    }
    ghost var es := Exps(Present(data), g.math);
    ghost var mid := g.nodes;
    var s := SumAll(g, exps.value);
    ExtendsTrans(start, mid, g.nodes);
    ExtendsAt(g.nodes, mid);
    var inv := g.Pow(s, Number(-1));
    ghost var after := g.nodes;
    ExtendsAt(after, mid);
    assert DataAt(after, exps.value) == es;
    var outs := ScaleAll(g, exps.value, inv.value);
    ExtendsTrans(start, mid, g.nodes);
    r := Ok(outs);
  }

  // ------------------------------------------------------- CrossEntropyLoss

  /** The terms `log(p_i) * t_i` of the loss. */
  function LogTerms(ps: seq<real>, ts: seq<real>, m: Math): (r: seq<real>)
    requires |ps| == |ts|
    ensures |r| == |ps| && forall i :: 0 <= i < |ps| ==> r[i] == Weighted(ps[i], ts[i], m)
  {
    seq(|ps|, i requires 0 <= i < |ps| => Weighted(ps[i], ts[i], m))
  }

  /** Every probability is positive, so that its logarithm is defined. */
  predicate AllPositive(ps: seq<real>)
  {
    forall i :: 0 <= i < |ps| ==> ps[i] > 0.0
  }

  lemma AllPositiveNext(ps: seq<real>, i: nat)
    requires i < |ps| && AllPositive(ps[..i]) && ps[i] > 0.0
    ensures AllPositive(ps[..i + 1])
  {
    assert forall k :: 0 <= k < i ==> ps[..i + 1][k] == ps[..i][k];
  }

  /** The term a probability `p` with target `t` adds to the log-likelihood. */
  function Weighted(p: real, t: real, m: Math): real
  {
    m.log(p) * t
  }

  /**
   * What `CrossEntropyLoss(inputs, targets)` returns, as data (smallnn.js:51-65):
   * a length error, the softmax's error, a domain error when a probability is not
   * positive, and otherwise `-(log(p_0) * t_0 + ... + log(p_n-1) * t_n-1)`.
   */
  function CrossEntropy(xs: seq<Option<real>>, ts: seq<real>, m: Math): (r: Result<real>)
    ensures |xs| != |ts| <==> r == Err(LengthMismatch)
    ensures |xs| == |ts| && SoftMaxOutput(xs, m).Err? ==> r == Err(TypeError)
  {
    if |xs| != |ts| then Err(LengthMismatch)
    else
      var p := SoftMaxOutput(xs, m);
      if p.Err? then Err(p.error)
      else if !AllPositive(p.value) then Err(DomainError)
      else Ok(Sum(LogTerms(p.value, ts, m)) * -1.0)
  }

  /** With a positive exponential, defined inputs and matching targets, the loss never fails. */
  lemma CrossEntropyDefined(xs: seq<Option<real>>, ts: seq<real>, m: Math)
    requires ExpPositive(m) && Defined(xs) && |xs| == |ts| > 0
    ensures CrossEntropy(xs, ts, m).Ok?
  {
    SoftMaxSumsToOne(xs, m);
  }

  /** For a one-hot target on class `k`, the loss is `-log(p_k)`. */
  lemma CrossEntropyOneHot(xs: seq<Option<real>>, ts: seq<real>, m: Math, k: nat)
    requires ExpPositive(m) && Defined(xs) && |xs| == |ts| && k < |ts|
    requires ts[k] == 1.0 && forall i :: 0 <= i < |ts| && i != k ==> ts[i] == 0.0
    ensures CrossEntropy(xs, ts, m) == Ok(-m.log(SoftMaxOutput(xs, m).value[k]))
  {
    SoftMaxSumsToOne(xs, m);
    var p := SoftMaxOutput(xs, m).value;
    var terms := LogTerms(p, ts, m);
    var l := m.log(p[k]);
    assert terms[k] == l;
    SumSingle(terms, k);
    CrossEntropyTail(xs, ts, m, p, Ok(-l));
  }

  /** `p.log().mul(target)`: a domain error when the probability is not positive. */
  method LogTerm(g: Graph, p: nat, t: Arg) returns (r: Result<nat>)
    requires g.Valid() && p < |g.nodes| && ArgIn(g.nodes, t)
    modifies g
    ensures g.Valid() && Extends(g.nodes, old(g.nodes))
    ensures r.Err? <==> old(g.nodes)[p].data <= 0.0
    ensures r.Err? ==> r.error == DomainError
    ensures r.Ok? ==>
      r.value < |g.nodes| && g.nodes[r.value].data == Weighted(old(g.nodes)[p].data, ArgData(old(g.nodes), t), g.math)
  {
    var l := g.Log(p);
    if l.Err? {
      assert g.nodes[..|g.nodes|] == g.nodes;
      return Err(DomainError);
    }
    ghost var mid := g.nodes;
    ExtendsAt(mid, old(g.nodes));
    var c := g.Mul(l.value, t);
    ExtendsTrans(old(g.nodes), mid, g.nodes);
    r := Ok(c);
  }

  /** Two equal logits share the probability evenly: `SoftMax([a, a])` is `[0.5, 0.5]`. */
  lemma SoftMaxEqualLogits(a: real, m: Math)
    requires ExpPositive(m)
    ensures SoftMaxOutput([Some(a), Some(a)], m) == Ok([0.5, 0.5])
  {
    var xs := [Some(a), Some(a)];
    var e := m.exp(a);
    assert e > 0.0;
    assert Present(xs) == [a, a];
    assert Exps(Present(xs), m) == [e, e];
    assert Sum([e]) == e by {
      assert [e][..0] == [];
    }
    assert Sum([e, e]) == e + e by {
      assert [e, e][..1] == [e];
    }
    var c := IntPow(e + e, -1);
    assert c == Inv(e + e) by {
      assert NatPow(e + e, 1) == e + e;
    }
    assert e * c == 0.5 by {
      assert c * (e + e) == 1.0;
    }
    var s := Scaled([e, e], c);
    assert |s| == 2 && s[0] == 0.5 && s[1] == 0.5;
    assert s == [0.5, 0.5];
  }

  /** The cross-entropy of two equal logits against the target `[1, 0]` is `-log(0.5)`. */
  lemma CrossEntropyEqualLogits(a: real, m: Math)
    requires ExpPositive(m)
    ensures CrossEntropy([Some(a), Some(a)], [1.0, 0.0], m) == Ok(-m.log(0.5))
  {
    SoftMaxEqualLogits(a, m);
    CrossEntropyOneHot([Some(a), Some(a)], [1.0, 0.0], m, 0);
  }

  /** One step of the log-likelihood sum: `loss ? loss.add(l) : l` with `l = p.log().mul(t)`. */
  method AddLogTerm(g: Graph, loss: Option<nat>, p: nat, t: Arg) returns (r: Result<nat>)
    requires g.Valid() && p < |g.nodes| && ArgIn(g.nodes, t) && (loss.Some? ==> loss.value < |g.nodes|)
    modifies g
    ensures g.Valid() && Extends(g.nodes, old(g.nodes))
    ensures r.Err? <==> old(g.nodes)[p].data <= 0.0
    ensures r.Err? ==> r.error == DomainError
    ensures r.Ok? ==>
      r.value < |g.nodes| &&
      g.nodes[r.value].data ==
        (if loss.Some? then old(g.nodes)[loss.value].data else 0.0) + Weighted(old(g.nodes)[p].data, ArgData(old(g.nodes), t), g.math)
  {
    var c := LogTerm(g, p, t);
    if c.Err? {
      return Err(DomainError);
    }
    ghost var mid := g.nodes;
    if loss.Some? {
      ExtendsOne(mid, old(g.nodes), loss.value);
    }
    var s := AddTo(g, loss, c.value);
    ExtendsTrans(old(g.nodes), mid, g.nodes);
    r := Ok(s);
  }

  /**
   * The `forEach` of smallnn.js:59-63: `softMax[i].log().mul(target)` added into
   * the running loss for each target, so the sum of `log(p_i) * t_i`, failing on
   * the first probability whose logarithm throws.
   */
  method LogLikelihood(g: Graph, probs: seq<nat>, targets: seq<Arg>) returns (r: Result<nat>)
    requires g.Valid() && ArgsIn(g.nodes, targets) && |probs| == |targets| > 0
    requires forall i :: 0 <= i < |probs| ==> probs[i] < |g.nodes|
    modifies g
    ensures g.Valid() && Extends(g.nodes, old(g.nodes))
    ensures r.Err? <==> !AllPositive(DataAt(old(g.nodes), probs))
    ensures r.Err? ==> r.error == DomainError
    ensures r.Ok? ==>
      r.value < |g.nodes| &&
      g.nodes[r.value].data == Sum(LogTerms(DataAt(old(g.nodes), probs), ArgsData(old(g.nodes), targets), g.math))
  {
    ghost var start := g.nodes;
    ghost var ps := DataAt(start, probs);
    ghost var ts := ArgsData(start, targets);
    var loss: Option<nat> := None;
    for i := 0 to |targets|
      invariant g.Valid() && Extends(g.nodes, start)
      invariant AllPositive(ps[..i]) && (loss.None? <==> i == 0)
      invariant loss.Some? ==> loss.value < |g.nodes|
      invariant loss.Some? ==> g.nodes[loss.value].data == Sum(LogTerms(ps[..i], ts[..i], g.math))
    {
      ghost var before := g.nodes;
      ExtendsOne(before, start, probs[i]);
      ExtendsArg(before, start, targets[i]);
      var c := AddLogTerm(g, loss, probs[i], targets[i]);
      if c.Err? {
        assert ps[i] <= 0.0;
        return Err(DomainError);
      }
      loss := Some(c.value);
      AllPositiveNext(ps, i);
      LogTermsNext(ps, ts, g.math, i);
      ExtendsTrans(start, before, g.nodes);
    }
    assert ps[..|targets|] == ps && ts[..|targets|] == ts;
    r := Ok(loss.value);
  }

  lemma LogTermsNext(ps: seq<real>, ts: seq<real>, m: Math, i: nat)
    requires |ps| == |ts| && i < |ps|
    ensures Sum(LogTerms(ps[..i + 1], ts[..i + 1], m)) == Sum(LogTerms(ps[..i], ts[..i], m)) + Weighted(ps[i], ts[i], m)
  {
    var all := LogTerms(ps[..i + 1], ts[..i + 1], m);
    SumNext(all, i);
    forall k | 0 <= k < i ensures all[..i][k] == LogTerms(ps[..i], ts[..i], m)[k] {
      assert ps[..i + 1][k] == ps[..i][k] && ts[..i + 1][k] == ts[..i][k];
    }
    assert all[..i] == LogTerms(ps[..i], ts[..i], m);
    assert all[i] == Weighted(ps[i], ts[i], m) by {
      assert ps[..i + 1][i] == ps[i] && ts[..i + 1][i] == ts[i];
    }
  }

  /**
   * `CrossEntropyLoss(inputs, targets)` (smallnn.js:51-65): the length check,
   * softmax, the sum of `log(p_i) * t_i`, then `loss.mul(-1)`.
   */
  method CrossEntropyLoss(g: Graph, inputs: seq<Item>, targets: seq<Arg>) returns (r: Result<nat>)
    requires g.Valid() && ItemsIn(g.nodes, inputs) && ArgsIn(g.nodes, targets)
    modifies g
    ensures g.Valid() && Extends(g.nodes, old(g.nodes))
    ensures r.Ok? ==> r.value < |g.nodes|
    ensures r.Err? ==>
      CrossEntropy(ItemsData(old(g.nodes), ExtractInputs(inputs)), ArgsData(old(g.nodes), targets), g.math) == Err(r.error)
    ensures r.Ok? ==>
      CrossEntropy(ItemsData(old(g.nodes), ExtractInputs(inputs)), ArgsData(old(g.nodes), targets), g.math) == Ok(g.nodes[r.value].data)
  {
    ghost var start := g.nodes;
    ExtractIn(start, inputs);
    ghost var data := ItemsData(start, ExtractInputs(inputs));
    ghost var ts := ArgsData(start, targets);
    if |inputs| != |targets| {
      return Err(LengthMismatch);
    }
    var p := SoftMax(g, inputs);
    if p.Err? {
      return Err(p.error);
    }
    ghost var mid := g.nodes;
    ghost var ps := DataAt(mid, p.value);
    assert ps == SoftMaxOutput(data, g.math).value;
    ExtendsItems(mid, start, [], targets);
    r := NegLogLikelihood(g, p.value, targets);
    ExtendsTrans(start, mid, g.nodes);
    ghost var loss: Result<real> := if r.Ok? then Ok(g.nodes[r.value].data) else Err(r.error);
    CrossEntropyTail(data, ts, g.math, ps, loss);
  }

  /** The loss once softmax has produced `ps`: a domain error unless every `p_i` is positive. */
  lemma CrossEntropyTail(xs: seq<Option<real>>, ts: seq<real>, m: Math, ps: seq<real>, loss: Result<real>)
    requires |xs| == |ts| && SoftMaxOutput(xs, m) == Ok(ps)
    requires loss.Err? <==> !AllPositive(ps)
    requires loss.Err? ==> loss.error == DomainError
    requires loss.Ok? ==> loss.value == Sum(LogTerms(ps, ts, m)) * -1.0
    ensures CrossEntropy(xs, ts, m) == loss
  {
  }

  /** The tail of `CrossEntropyLoss` (smallnn.js:57-64): the log-likelihood sum, then `loss.mul(-1)`. */
  method NegLogLikelihood(g: Graph, probs: seq<nat>, targets: seq<Arg>) returns (r: Result<nat>)
    requires g.Valid() && ArgsIn(g.nodes, targets) && |probs| == |targets| > 0
    requires forall i :: 0 <= i < |probs| ==> probs[i] < |g.nodes|
    modifies g
    ensures g.Valid() && Extends(g.nodes, old(g.nodes))
    ensures r.Err? <==> !AllPositive(DataAt(old(g.nodes), probs))
    ensures r.Err? ==> r.error == DomainError
    ensures r.Ok? ==>
      r.value < |g.nodes| &&
      g.nodes[r.value].data == Sum(LogTerms(DataAt(old(g.nodes), probs), ArgsData(old(g.nodes), targets), g.math)) * -1.0
  {
    ghost var start := g.nodes;
    var l := LogLikelihood(g, probs, targets);
    if l.Err? {
      return Err(DomainError);
    }
    ghost var before := g.nodes;
    ghost var total := g.nodes[l.value].data;
    var out := g.Mul(l.value, Num(-1.0));
    ExtendsTrans(start, before, g.nodes);
    assert g.nodes[out].data == total * -1.0;
    r := Ok(out);
  }
}
