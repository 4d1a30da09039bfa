/** The layered neuron network of the Swan library: construction, input,
    forward pass and randomisation. Networks are immutable values; every
    operation returns the network it would leave behind. */
module SwNetwork {

  datatype Option<T> = None | Some(value: T)

  /** The activation tags a layer can carry; `Unrecognized` stands for any
      other value of the C enumeration. */
  datatype Activation = ReLU | Softmax | Sigmoid | Tanh | Unrecognized(tag: int)

  /** A positive-or-zero real, the range of the exponential. */
  type NonNegReal = r: real | r >= 0.0

  /** The C math library functions the forward pass and the loss call, left
      uninterpreted apart from `exp` never being negative. */
  datatype MathLib = MathLib(exp: real -> NonNegReal, tanh: real -> real, log: real -> real)

  /** A neuron of layer i >= 1 holds one weight and one bias per neuron of
      layer i - 1. Neurons of the input layer carry no weights or biases. */
  datatype Neuron = Neuron(weights: seq<real>, biases: seq<real>, output: real)

  datatype Layer = Layer(neuronAmount: nat, activation: Activation, neurons: seq<Neuron>)

  datatype Network = Network(layers: seq<Layer>)

  // ---------------------------------------------------------------------------
  // Shape invariant
  // ---------------------------------------------------------------------------

  /** The number of incoming connections of each neuron of layer `i`. */
  function InWidth(layers: seq<Layer>, i: nat): nat
    requires i < |layers|
  {
    if i == 0 then 0 else layers[i - 1].neuronAmount
  }

  /** Layer `layer` is non-empty, stores `neuronAmount` neurons, and each of
      them has exactly `width` weights and `width` biases. */
  predicate LayerFits(layer: Layer, width: nat) {
    && layer.neuronAmount > 0
    && |layer.neurons| == layer.neuronAmount
    && forall j :: 0 <= j < |layer.neurons| ==>
         |layer.neurons[j].weights| == width && |layer.neurons[j].biases| == width
  }

  /** The shape invariant of a network. */
  predicate Shaped(layers: seq<Layer>) {
    forall i :: 0 <= i < |layers| ==> LayerFits(layers[i], InWidth(layers, i))
  }

  predicate WellFormed(n: Network) {
    Shaped(n.layers)
  }

  /** Two layer sequences that differ at most in neuron outputs. */
  predicate SameParameters(a: seq<Layer>, b: seq<Layer>) {
    && |a| == |b|
    && forall i :: 0 <= i < |a| ==> SameLayerParameters(a[i], b[i])
  }

  predicate SameLayerParameters(x: Layer, y: Layer) {
    && x.neuronAmount == y.neuronAmount
    && x.activation == y.activation
    && |x.neurons| == |y.neurons|
    && forall j :: 0 <= j < |x.neurons| ==>
         x.neurons[j].weights == y.neurons[j].weights && x.neurons[j].biases == y.neurons[j].biases
  }

  /** Changing outputs alone keeps the shape invariant. */
  lemma SameParametersShaped(a: seq<Layer>, b: seq<Layer>)
    requires Shaped(a) && SameParameters(a, b)
    ensures Shaped(b)
  {
    forall i | 0 <= i < |b|
      ensures LayerFits(b[i], InWidth(b, i))
    {
      assert LayerFits(a[i], InWidth(a, i));
      assert SameLayerParameters(a[i], b[i]);
      if i > 0 {
        assert SameLayerParameters(a[i - 1], b[i - 1]);
      }
    }
  }

  // ---------------------------------------------------------------------------
  // Construction
  // ---------------------------------------------------------------------------

  /** `SW_InitNetwork`: a network without layers. */
  function Init(): (n: Network)
    ensures |n.layers| == 0
    ensures WellFormed(n)
  {
    Network([])
  }

  /** A freshly allocated neuron with `width` zero weights and biases and a
      zero output. */
  function ZeroNeuron(width: nat): (nu: Neuron)
    ensures |nu.weights| == width && |nu.biases| == width
    ensures forall k :: 0 <= k < width ==> nu.weights[k] == 0.0 && nu.biases[k] == 0.0
    ensures nu.output == 0.0
  {
    Neuron(seq(width, _ => 0.0), seq(width, _ => 0.0), 0.0)
  }

  /** `SW_AddNetworkLayer`: a zero neuron amount is refused and changes
      nothing; otherwise one layer is appended at the end. The first layer is
      a bare input layer; every later neuron is connected to each neuron of the
      previous layer by a zero weight and a zero bias. */
  function AddLayer(n: Network, neuronAmount: nat, activation: Activation): (r: Network)
    ensures neuronAmount == 0 ==> r == n
    ensures neuronAmount > 0 ==>
      && |r.layers| == |n.layers| + 1
      && r.layers[..|n.layers|] == n.layers
      && r.layers[|n.layers|].neuronAmount == neuronAmount
      && r.layers[|n.layers|].activation == activation
      && |r.layers[|n.layers|].neurons| == neuronAmount
    ensures neuronAmount > 0 ==>
      forall j :: 0 <= j < neuronAmount ==>
        r.layers[|n.layers|].neurons[j] == ZeroNeuron(if |n.layers| == 0 then 0 else n.layers[|n.layers| - 1].neuronAmount)
    ensures WellFormed(n) ==> WellFormed(r)
  {
    if neuronAmount == 0 then n
    else
      var width := if |n.layers| == 0 then 0 else n.layers[|n.layers| - 1].neuronAmount;
      var layer := Layer(neuronAmount, activation, seq(neuronAmount, _ => ZeroNeuron(width)));
      AppendShaped(n.layers, layer);
      Network(n.layers + [layer])
  }

  /** Appending a layer that fits behind the last one keeps the shape
      invariant, and keeps the layers already there. */
  lemma AppendShaped(layers: seq<Layer>, layer: Layer)
    requires LayerFits(layer, if |layers| == 0 then 0 else layers[|layers| - 1].neuronAmount)
    ensures (layers + [layer])[..|layers|] == layers
    ensures Shaped(layers) ==> Shaped(layers + [layer])
  {
    var r := layers + [layer];
    assert forall i :: 0 <= i < |layers| ==> r[i] == layers[i];
    assert LayerFits(layer, InWidth(r, |layers|));
  }

  /** What a caller asks `SW_AddNetworkLayer` for. */
  datatype LayerSpec = LayerSpec(neuronAmount: nat, activation: Activation)

  /** The network built by `SW_InitNetwork` followed by one
      `SW_AddNetworkLayer` per request, in order. */
  function Build(specs: seq<LayerSpec>): Network
  {
    if |specs| == 0 then Init()
    else
      var last := specs[|specs| - 1];
      AddLayer(Build(specs[..|specs| - 1]), last.neuronAmount, last.activation)
  }

  /** The requests that add a layer: those with a positive neuron amount. */
  function Accepted(specs: seq<LayerSpec>): (acc: seq<LayerSpec>)
    ensures forall i :: 0 <= i < |acc| ==> acc[i].neuronAmount > 0
  {
    if |specs| == 0 then []
    else
      var last := specs[|specs| - 1];
      Accepted(specs[..|specs| - 1]) + (if last.neuronAmount > 0 then [last] else [])
  }

  /** Every weight, bias and output of a layer is zero. */
  predicate Zeroed(layer: Layer) {
    forall j :: 0 <= j < |layer.neurons| ==> IsZeroNeuron(layer.neurons[j])
  }

  predicate IsZeroNeuron(nu: Neuron) {
    && nu.output == 0.0
    && (forall k :: 0 <= k < |nu.weights| ==> nu.weights[k] == 0.0)
    && (forall k :: 0 <= k < |nu.biases| ==> nu.biases[k] == 0.0)
  }

  /** `n` is well-formed and holds exactly one layer per request of `acc`, in
      order, each with the requested neuron amount and activation and with
      every parameter still zero. */
  predicate BuiltFrom(n: Network, acc: seq<LayerSpec>) {
    && WellFormed(n)
    && |n.layers| == |acc|
    && forall i :: 0 <= i < |acc| ==>
      && n.layers[i].neuronAmount == acc[i].neuronAmount
      && n.layers[i].activation == acc[i].activation
      && Zeroed(n.layers[i])
  }

  /** Any sequence of additions yields a well-formed network with exactly one
      layer per accepted request, in request order, each with the requested
      neuron amount and activation and with every parameter still zero. */
  lemma {:induction false} BuildShape(specs: seq<LayerSpec>)
    ensures BuiltFrom(Build(specs), Accepted(specs))
  {
    if |specs| > 0 {
      var prefix := specs[..|specs| - 1];
      BuildShape(prefix);
      var last := specs[|specs| - 1];
      if last.neuronAmount == 0 {
        assert Accepted(specs) == Accepted(prefix) + [] == Accepted(prefix);
      } else {
        assert Accepted(specs) == Accepted(prefix) + [last];
        AddAccepted(Build(prefix), Accepted(prefix), last);
      }
    }
  }

  /** One accepted request extends a built network by the requested layer. */
  lemma AddAccepted(n: Network, acc: seq<LayerSpec>, spec: LayerSpec)
    requires BuiltFrom(n, acc) && spec.neuronAmount > 0
    ensures BuiltFrom(AddLayer(n, spec.neuronAmount, spec.activation), acc + [spec])
  {
    var after := AddLayer(n, spec.neuronAmount, spec.activation);
    AddLayerZeroed(n, spec.neuronAmount, spec.activation);
    forall i | 0 <= i < |acc|
      ensures after.layers[i] == n.layers[i]
    {
      assert after.layers[..|n.layers|][i] == n.layers[i];
    }
  }

  /** The layer `SW_AddNetworkLayer` appends starts with every parameter and
      output zero. */
  lemma AddLayerZeroed(n: Network, neuronAmount: nat, activation: Activation)
    requires neuronAmount > 0
    ensures Zeroed(AddLayer(n, neuronAmount, activation).layers[|n.layers|])
  {
    var top := AddLayer(n, neuronAmount, activation).layers[|n.layers|];
    forall j | 0 <= j < |top.neurons|
      ensures IsZeroNeuron(top.neurons[j])
    {
      var width := if |n.layers| == 0 then 0 else n.layers[|n.layers| - 1].neuronAmount;
      assert top.neurons[j] == ZeroNeuron(width);
    }
  }

  // ---------------------------------------------------------------------------
  // Input
  // ---------------------------------------------------------------------------

  /** `SW_SetNetworkInput`: an empty network or a null input changes nothing;
      otherwise the outputs of the input layer become the first
      `neuronAmount` input values and nothing else changes. */
  function SetInput(n: Network, input: Option<seq<real>>): (r: Network)
    requires WellFormed(n)
    requires |n.layers| > 0 && input.Some? ==> |input.value| >= n.layers[0].neuronAmount
    ensures |n.layers| == 0 || input.None? ==> r == n
    ensures |n.layers| > 0 && input.Some? ==>
      && |r.layers| == |n.layers|
      && r.layers[1..] == n.layers[1..]
      && r.layers[0].neuronAmount == n.layers[0].neuronAmount
      && r.layers[0].activation == n.layers[0].activation
      && |r.layers[0].neurons| == |n.layers[0].neurons|
      && (forall k :: 0 <= k < |n.layers[0].neurons| ==>
           r.layers[0].neurons[k] == n.layers[0].neurons[k].(output := input.value[k]))
      && Outputs(r.layers[0]) == input.value[..n.layers[0].neuronAmount]
    ensures WellFormed(r) && SameParameters(n.layers, r.layers)
  {
    if |n.layers| == 0 || input.None? then n
    else
      var first := n.layers[0];
      var neurons := seq(|first.neurons|, k requires 0 <= k < |first.neurons| =>
                         first.neurons[k].(output := input.value[k]));
      var r := Network(n.layers[0 := first.(neurons := neurons)]);
      assert SameParameters(n.layers, r.layers) by {
        forall i | 0 <= i < |n.layers|
          ensures SameLayerParameters(n.layers[i], r.layers[i])
        {
        }
      }
      SameParametersShaped(n.layers, r.layers);
      assert LayerFits(first, 0);
      r
  }

  // ---------------------------------------------------------------------------
  // Forward pass
  // ---------------------------------------------------------------------------

  /** The outputs of a layer's neurons, in order. */
  function Outputs(layer: Layer): (out: seq<real>)
    ensures |out| == |layer.neurons|
  {
    seq(|layer.neurons|, k requires 0 <= k < |layer.neurons| => layer.neurons[k].output)
  }

  /** The first `k` terms of a neuron's input: each incoming connection
      contributes its source output times its weight, plus its bias. */
  function PartialInput(prev: seq<real>, weights: seq<real>, biases: seq<real>, k: nat): real
    requires k <= |prev| && k <= |weights| && k <= |biases|
  {
    if k == 0 then 0.0
    else PartialInput(prev, weights, biases, k - 1) + prev[k - 1] * weights[k - 1] + biases[k - 1]
  }

  /** The pre-activation of a neuron fed by the outputs `prev`. */
  function PreActivation(prev: seq<real>, nu: Neuron): real
    requires |nu.weights| == |prev| && |nu.biases| == |prev|
  {
    PartialInput(prev, nu.weights, nu.biases, |prev|)
  }

  /** Σ prev[k] * weights[k] over the first `k` connections. */
  function WeightedSum(prev: seq<real>, weights: seq<real>, k: nat): real
    requires k <= |prev| && k <= |weights|
  {
    if k == 0 then 0.0 else WeightedSum(prev, weights, k - 1) + prev[k - 1] * weights[k - 1]
  }

  /** Σ biases[k] over the first `k` connections. */
  function BiasSum(biases: seq<real>, k: nat): real
    requires k <= |biases|
  {
    if k == 0 then 0.0 else BiasSum(biases, k - 1) + biases[k - 1]
  }

  /** The pre-activation is the weighted sum plus the sum of the per-connection
      biases: every bias is added once, for its own connection. */
  lemma {:induction false} PartialInputSplit(prev: seq<real>, weights: seq<real>, biases: seq<real>, k: nat)
    requires k <= |prev| && k <= |weights| && k <= |biases|
    ensures PartialInput(prev, weights, biases, k) == WeightedSum(prev, weights, k) + BiasSum(biases, k)
  {
    if k > 0 {
      PartialInputSplit(prev, weights, biases, k - 1);
    }
  }

  /** When every connection carries the same bias `b`, it enters the
      pre-activation once per incoming connection, not once per neuron. */
  lemma {:induction false} UniformBias(prev: seq<real>, weights: seq<real>, biases: seq<real>, k: nat, b: real)
    requires k <= |prev| && k <= |weights| && k <= |biases|
    requires forall m :: 0 <= m < k ==> biases[m] == b
    ensures PartialInput(prev, weights, biases, k) == WeightedSum(prev, weights, k) + (k as real) * b
  {
    if k > 0 {
      UniformBias(prev, weights, biases, k - 1, b);
    }
  }

  /** A neuron with two incoming connections, each with bias 0.5, fed the
      outputs 1 and -1: the two biases add 1 to the weighted sum. */
  lemma PreActivationExample()
    ensures PreActivation([1.0, -1.0], Neuron([1.0, 0.0], [0.5, 0.5], 0.0)) == 2.0
  {
    var prev, w, b := [1.0, -1.0], [1.0, 0.0], [0.5, 0.5];
    assert PartialInput(prev, w, b, 1) == 1.5;
    assert PartialInput(prev, w, b, 2) == 1.5 + (-1.0) * 0.0 + 0.5;
  }

  /** The value a neuron stores after the activation switch, given its
      pre-activation `x` and its previous output. */
  function Activate(m: MathLib, activation: Activation, x: real, previous: real): (y: real)
    ensures activation == ReLU ==> y >= 0.0 && (y == x || y == 0.0) && (y == x <==> x >= 0.0)
    ensures activation == Softmax ==> y == previous
    ensures activation.Unrecognized? ==> y == x
  {
    match activation
    case ReLU => if x > 0.0 then x else 0.0
    case Softmax => previous
    case Sigmoid => 1.0 / (1.0 + m.exp(-x))
    case Tanh => m.tanh(x) * 0.5 + 0.5
    case Unrecognized(_) => x
  }

  /** Neuron `nu` of a layer with activation `activation`, recomputed from the
      outputs `prev` of the layer before. */
  function UpdateNeuron(m: MathLib, activation: Activation, prev: seq<real>, nu: Neuron): Neuron
    requires |nu.weights| == |prev| && |nu.biases| == |prev|
  {
    nu.(output := Activate(m, activation, PreActivation(prev, nu), nu.output))
  }

  /** Layer `cur` recomputed from the outputs of the layer before it. */
  function UpdateLayer(m: MathLib, prev: Layer, cur: Layer): (r: Layer)
    requires forall j :: 0 <= j < |cur.neurons| ==>
               |cur.neurons[j].weights| == |prev.neurons| && |cur.neurons[j].biases| == |prev.neurons|
    ensures SameLayerParameters(cur, r)
  {
    var out := Outputs(prev);
    cur.(neurons := seq(|cur.neurons|, j requires 0 <= j < |cur.neurons| =>
                          UpdateNeuron(m, cur.activation, out, cur.neurons[j])))
  }

  /** Recomputes layers `i`, `i + 1`, ... in increasing order, each from the
      already recomputed layer before it. Layers below `i` are kept, and no
      weight or bias changes. */
  function ForwardFrom(m: MathLib, layers: seq<Layer>, i: nat): (r: seq<Layer>)
    requires 1 <= i <= |layers|
    requires Shaped(layers)
    ensures SameParameters(layers, r)
    ensures r[..i] == layers[..i]
    ensures forall l :: i <= l < |r| ==> r[l] == UpdateLayer(m, r[l - 1], layers[l])
    decreases |layers| - i
  {
    if i == |layers| then layers
    else
      var next := Advance(m, layers, i);
      var r := ForwardFrom(m, next, i + 1);
      ForwardFromStep(m, layers, i, next, r);
      r
  }

  /** Recomputes layer `i` alone from layer `i - 1`. */
  function Advance(m: MathLib, layers: seq<Layer>, i: nat): (next: seq<Layer>)
    requires 1 <= i < |layers| && Shaped(layers)
    ensures next == layers[i := UpdateLayer(m, layers[i - 1], layers[i])]
    ensures Shaped(next) && SameParameters(layers, next)
  {
    assert LayerFits(layers[i], InWidth(layers, i));
    assert LayerFits(layers[i - 1], InWidth(layers, i - 1));
    var next := layers[i := UpdateLayer(m, layers[i - 1], layers[i])];
    ReplaceLayer(layers, i, next[i]);
    next
  }

  /** One step of `ForwardFrom`: recomputing layer `i` and then the layers
      above it recomputes everything from `i` on. */
  lemma ForwardFromStep(m: MathLib, layers: seq<Layer>, i: nat, next: seq<Layer>, r: seq<Layer>)
    requires 1 <= i < |layers| && Shaped(layers)
    requires next == layers[i := UpdateLayer(m, layers[i - 1], layers[i])]
    requires Shaped(next) && SameParameters(layers, next) && SameParameters(next, r)
    requires r[..i + 1] == next[..i + 1]
    requires forall l :: i + 1 <= l < |r| ==> r[l] == UpdateLayer(m, r[l - 1], next[l])
    ensures Shaped(r) && SameParameters(layers, r)
    ensures r[..i] == layers[..i]
    ensures forall l :: i <= l < |r| ==> r[l] == UpdateLayer(m, r[l - 1], layers[l])
  {
    SameParametersShaped(next, r);
    SameParametersTransitive(layers, next, r);
    assert r[..i] == layers[..i] by {
      assert r[..i] == r[..i + 1][..i];
      assert next[..i + 1][..i] == layers[..i];
    }
    forall l | i <= l < |r|
      ensures r[l] == UpdateLayer(m, r[l - 1], layers[l])
    {
      if l == i {
        assert r[..i + 1][i] == next[..i + 1][i];
        assert r[..i + 1][i - 1] == next[..i + 1][i - 1];
      } else {
        assert next[l] == layers[l];
      }
    }
  }

  /** Replacing one layer by one with the same parameters keeps the shape. */
  lemma ReplaceLayer(layers: seq<Layer>, i: nat, layer: Layer)
    requires i < |layers| && Shaped(layers)
    requires SameLayerParameters(layers[i], layer)
    ensures SameParameters(layers, layers[i := layer])
    ensures Shaped(layers[i := layer])
  {
    var next := layers[i := layer];
    forall l | 0 <= l < |layers|
      ensures SameLayerParameters(layers[l], next[l])
    {
    }
    SameParametersShaped(layers, next);
  }

  lemma SameParametersTransitive(a: seq<Layer>, b: seq<Layer>, c: seq<Layer>)
    requires SameParameters(a, b) && SameParameters(b, c)
    ensures SameParameters(a, c)
  {
    forall i | 0 <= i < |a|
      ensures SameLayerParameters(a[i], c[i])
    {
      assert SameLayerParameters(a[i], b[i]) && SameLayerParameters(b[i], c[i]);
    }
  }

  /** `SW_ExucuteNetwork`: a network of two layers or fewer is refused and
      left as it is. Otherwise every layer from the second on is recomputed in
      increasing order from the already recomputed layer before it; the input
      layer and all weights and biases are left unchanged. */
  function Execute(m: MathLib, n: Network): (r: Network)
    requires WellFormed(n)
    ensures |n.layers| <= 2 ==> r == n
    ensures WellFormed(r) && SameParameters(n.layers, r.layers)
    ensures |r.layers| > 0 ==> r.layers[0] == n.layers[0]
    ensures |n.layers| > 2 ==>
      forall i :: 1 <= i < |r.layers| ==> r.layers[i] == UpdateLayer(m, r.layers[i - 1], n.layers[i])
  {
    if |n.layers| <= 2 then n
    else
      var r := ForwardFrom(m, n.layers, 1);
      assert r[0] == r[..1][0];
      SameParametersShaped(n.layers, r);
      Network(r)
  }

  /** What one neuron of a recomputed layer holds: its activation applied to
      the sum over incoming connections of source output times weight plus
      bias, the sources being the already recomputed outputs of the layer
      before. */
  lemma ExecuteNeuron(m: MathLib, n: Network, i: nat, j: nat)
    requires WellFormed(n) && |n.layers| > 2
    requires 1 <= i < |n.layers| && j < |n.layers[i].neurons|
    ensures var r := Execute(m, n).layers;
      && |r[i].neurons| == |n.layers[i].neurons|
      && |n.layers[i].neurons[j].weights| == |r[i - 1].neurons|
      && |n.layers[i].neurons[j].biases| == |r[i - 1].neurons|
      && r[i].neurons[j].output
           == Activate(m, n.layers[i].activation,
                       PreActivation(Outputs(r[i - 1]), n.layers[i].neurons[j]),
                       n.layers[i].neurons[j].output)
  {
    var r := Execute(m, n).layers;
    assert LayerFits(n.layers[i], InWidth(n.layers, i));
    assert LayerFits(r[i - 1], InWidth(r, i - 1));
  }

  /** After a forward pass every recomputed ReLU neuron holds a value that is
      at least zero. */
  lemma ExecuteReluNonNegative(m: MathLib, n: Network, i: nat, j: nat)
    requires WellFormed(n) && |n.layers| > 2
    requires 1 <= i < |n.layers| && j < |n.layers[i].neurons|
    requires n.layers[i].activation == ReLU
    ensures Execute(m, n).layers[i].neurons[j].output >= 0.0
  {
    ExecuteNeuron(m, n, i, j);
  }

  /** Softmax layers are not implemented: a forward pass keeps their
      outputs. */
  lemma ExecuteSoftmaxKeeps(m: MathLib, n: Network, i: nat, j: nat)
    requires WellFormed(n) && |n.layers| > 2
    requires 1 <= i < |n.layers| && j < |n.layers[i].neurons|
    requires n.layers[i].activation == Softmax
    ensures Execute(m, n).layers[i].neurons[j] == n.layers[i].neurons[j]
  {
    ExecuteNeuron(m, n, i, j);
  }

  /** The forward pass written as the library's three nested loops, computing
      the same network as `Execute`. */
  method ExecuteLoops(m: MathLib, n: Network) returns (r: Network)
    requires WellFormed(n)
    ensures r == Execute(m, n)
  {
    if |n.layers| <= 2 {
      return n;
    }
    var layers := n.layers;
    var i := 1;
    while i < |layers|
      invariant 1 <= i <= |layers|
      invariant Shaped(layers)
      invariant ForwardFrom(m, layers, i) == Execute(m, n).layers
    {
      assert LayerFits(layers[i], InWidth(layers, i));
      assert LayerFits(layers[i - 1], InWidth(layers, i - 1));
      var updated := LayerLoop(m, layers[i - 1], layers[i]);
      ReplaceLayer(layers, i, updated);
      layers := layers[i := updated];
      i := i + 1;
    }
    return Network(layers);
  }

  /** The loop over the neurons `j` of one layer. */
  method LayerLoop(m: MathLib, previous: Layer, current: Layer) returns (r: Layer)
    requires forall j :: 0 <= j < |current.neurons| ==>
               |current.neurons[j].weights| == |previous.neurons| && |current.neurons[j].biases| == |previous.neurons|
    ensures r == UpdateLayer(m, previous, current)
  {
    var target := UpdateLayer(m, previous, current);
    var neurons := current.neurons;
    var j := 0;
    while j < |current.neurons|
      invariant 0 <= j <= |current.neurons|
      invariant |neurons| == |current.neurons|
      invariant forall q :: 0 <= q < j ==> neurons[q] == target.neurons[q]
      invariant forall q :: j <= q < |neurons| ==> neurons[q] == current.neurons[q]
    {
      var nu := current.neurons[j];
      var input := NeuronInputLoop(previous, nu);
      neurons := neurons[j := nu.(output := Activate(m, current.activation, input, nu.output))];
      j := j + 1;
    }
    return current.(neurons := neurons);
  }

  /** The loop over the incoming connections `k` of one neuron. */
  method NeuronInputLoop(previous: Layer, nu: Neuron) returns (input: real)
    requires |nu.weights| == |previous.neurons| && |nu.biases| == |previous.neurons|
    ensures input == PreActivation(Outputs(previous), nu)
  {
    input := 0.0;
    var k := 0;
    while k < |previous.neurons|
      invariant 0 <= k <= |previous.neurons|
      invariant input == PartialInput(Outputs(previous), nu.weights, nu.biases, k)
    {
      input := input + previous.neurons[k].output * nu.weights[k] + nu.biases[k];
      k := k + 1;
    }
  }

  // ---------------------------------------------------------------------------
  // Randomisation
  // ---------------------------------------------------------------------------

  /** glibc's `RAND_MAX`. */
  const RAND_MAX: nat := 0x7FFF_FFFF

  /** A value `rand()` can return. */
  type RandDraw = x: int | 0 <= x <= RAND_MAX

  /** The values successive calls of `rand()` return after seeding:
      `rng(t)` is the result of call number `t`. */
  type Rng = nat -> RandDraw

  /** `rand() / RAND_MAX * 2 - 1`: a draw scaled into [-1, 1]. */
  function Scale(d: RandDraw): (v: real)
    ensures -1.0 <= v <= 1.0
    ensures d == 0 ==> v == -1.0
    ensures d == RAND_MAX ==> v == 1.0
  {
    var u := (d as real) / (RAND_MAX as real);
    assert 0.0 <= u <= 1.0 by {
      assert u * (RAND_MAX as real) == d as real;
    }
    u * 2.0 - 1.0
  }

  /** Every weight and every bias of a layer lies in [-1, 1]. */
  predicate UnitParameters(layer: Layer) {
    && (forall j, k :: 0 <= j < |layer.neurons| && 0 <= k < |layer.neurons[j].weights| ==>
          -1.0 <= layer.neurons[j].weights[k] <= 1.0)
    && (forall j, k :: 0 <= j < |layer.neurons| && 0 <= k < |layer.neurons[j].biases| ==>
          -1.0 <= layer.neurons[j].biases[k] <= 1.0)
  }

  /** Two layers with the same neuron amount, activation and outputs. */
  predicate SameShape(x: Layer, y: Layer) {
    && x.neuronAmount == y.neuronAmount
    && x.activation == y.activation
    && Outputs(x) == Outputs(y)
  }

  /** One neuron with `width` connections randomised from draw `t` on: the
      weight and the bias of connection `k` take draws `t + 2k` and
      `t + 2k + 1`. */
  function RandomizeNeuron(rng: Rng, nu: Neuron, width: nat, t: nat): (r: Neuron)
    ensures |r.weights| == width && |r.biases| == width
    ensures r.output == nu.output
    ensures forall k :: 0 <= k < width ==>
      && r.weights[k] == Scale(rng(t + 2 * k)) && -1.0 <= r.weights[k] <= 1.0
      && r.biases[k] == Scale(rng(t + 2 * k + 1)) && -1.0 <= r.biases[k] <= 1.0
  {
    nu.(weights := seq(width, k requires 0 <= k < width => Scale(rng(t + 2 * k))),
        biases := seq(width, k requires 0 <= k < width => Scale(rng(t + 2 * k + 1))))
  }

  /** The draws a layer of `amount` neurons with `width` connections each
      consumes. */
  function LayerDraws(amount: nat, width: nat): nat {
    2 * amount * width
  }

  /** One layer randomised from draw `t` on, neuron after neuron: neuron `j`
      starts at the draw after the `2 * width * j` its predecessors used, and
      gets `width` fresh weights and biases. */
  function RandomizeLayer(rng: Rng, layer: Layer, width: nat, t: nat): (r: Layer)
    ensures SameShape(layer, r) && |r.neurons| == |layer.neurons|
    ensures LayerFits(layer, width) ==> LayerFits(r, width)
    ensures UnitParameters(r)
    ensures forall j :: 0 <= j < |r.neurons| ==> |r.neurons[j].weights| == width && |r.neurons[j].biases| == width
    ensures forall j, k :: 0 <= j < |r.neurons| && 0 <= k < width ==>
      && r.neurons[j].weights[k] == Scale(rng(t + LayerDraws(j, width) + 2 * k))
      && r.neurons[j].biases[k] == Scale(rng(t + LayerDraws(j, width) + 2 * k + 1))
  {
    layer.(neurons := seq(|layer.neurons|, j requires 0 <= j < |layer.neurons| =>
                            RandomizeNeuron(rng, layer.neurons[j], width, t + LayerDraws(j, width))))
  }

  /** The draws randomising layers `i .. l - 1` consumes: the draw layer `l`
      starts at, counted from the draw layer `i` starts at. */
  function DrawsBefore(layers: seq<Layer>, i: nat, l: nat): nat
    requires 1 <= i <= l <= |layers|
    decreases l - i
  {
    if i == l then 0
    else LayerDraws(layers[i].neuronAmount, layers[i - 1].neuronAmount) + DrawsBefore(layers, i + 1, l)
  }

  /** The draw count only depends on the neuron amounts. */
  lemma {:induction false} DrawsBeforeAmounts(a: seq<Layer>, b: seq<Layer>, i: nat, l: nat)
    requires 1 <= i <= l <= |a| == |b|
    requires forall m :: 0 <= m < |a| ==> a[m].neuronAmount == b[m].neuronAmount
    ensures DrawsBefore(a, i, l) == DrawsBefore(b, i, l)
    decreases l - i
  {
    if i < l {
      DrawsBeforeAmounts(a, b, i + 1, l);
    }
  }

  /** Layers are randomised one after the other: layer `l + 1` starts at
      the draw right after the `2 * width * amount` draws of layer `l`. */
  lemma {:induction false} DrawsBeforeNext(layers: seq<Layer>, i: nat, l: nat)
    requires 1 <= i <= l < |layers|
    ensures DrawsBefore(layers, i, l + 1)
              == DrawsBefore(layers, i, l) + LayerDraws(layers[l].neuronAmount, layers[l - 1].neuronAmount)
    decreases l - i
  {
    if i < l {
      DrawsBeforeNext(layers, i + 1, l);
    }
  }

  /** When randomisation starts at layer `i` and draw `t`, layer `l` of
      `after` is layer `l` of `before` randomised from the draw after those
      layers `i .. l - 1` consumed, with one weight and one bias per neuron of
      layer `l - 1`. */
  predicate RandomizedAt(rng: Rng, before: seq<Layer>, after: seq<Layer>, i: nat, t: nat, l: nat)
    requires 1 <= i <= l < |before| && l < |after|
  {
    after[l] == RandomizeLayer(rng, before[l], before[l - 1].neuronAmount, t + DrawsBefore(before, i, l))
  }

  /** Randomises layers `i`, `i + 1`, ... starting at draw `t`: layer `l`
      is randomised from the draw after those its predecessors from `i` on
      consumed. Layers below `i` are kept. */
  function RandomizeFrom(rng: Rng, layers: seq<Layer>, i: nat, t: nat): (r: seq<Layer>)
    requires 1 <= i <= |layers|
    ensures |r| == |layers|
    ensures r[..i] == layers[..i]
    ensures forall l :: 0 <= l < |r| ==> SameShape(layers[l], r[l])
    ensures forall l :: i <= l < |r| ==> RandomizedAt(rng, layers, r, i, t, l)
    decreases |layers| - i
  {
    if i == |layers| then layers
    else
      var next := layers[i := RandomizeLayer(rng, layers[i], layers[i - 1].neuronAmount, t)];
      var above := i + 1;
      var u := t + LayerDraws(layers[i].neuronAmount, layers[i - 1].neuronAmount);
      var r := RandomizeFrom(rng, next, above, u);
      RandomizeFromStep(rng, layers, i, t, next, above, u, r);
      r
  }

  /** One step of `RandomizeFrom`: randomising layer `i` and then the layers
      above it randomises everything from `i` on. */
  lemma RandomizeFromStep(rng: Rng, layers: seq<Layer>, i: nat, t: nat, next: seq<Layer>, above: nat, u: nat, r: seq<Layer>)
    requires 1 <= i < |layers|
    requires next == layers[i := RandomizeLayer(rng, layers[i], layers[i - 1].neuronAmount, t)]
    requires |r| == |next|
    requires r[..i + 1] == next[..i + 1]
    requires forall l :: 0 <= l < |r| ==> SameShape(next[l], r[l])
    requires above == i + 1 && u == t + LayerDraws(layers[i].neuronAmount, layers[i - 1].neuronAmount)
    requires forall l :: above <= l < |r| ==> RandomizedAt(rng, next, r, above, u, l)
    ensures r[..i] == layers[..i]
    ensures forall l :: 0 <= l < |r| ==> SameShape(layers[l], r[l])
    ensures forall l :: i <= l < |r| ==> RandomizedAt(rng, layers, r, i, t, l)
  {
    assert r[..i] == layers[..i] by {
      assert r[..i] == r[..i + 1][..i];
      assert forall l :: 0 <= l < i ==> next[..i + 1][l] == layers[l];
    }
    assert r[i] == next[i] by {
      assert r[..i + 1][i] == next[..i + 1][i];
    }
    forall l | 0 <= l < |r|
      ensures SameShape(layers[l], r[l])
    {
      assert SameShape(next[l], r[l]);
      if l != i {
        assert next[l] == layers[l];
      }
    }
    assert RandomizedAt(rng, layers, r, i, t, i);
    forall l | i < l < |r|
      ensures RandomizedAt(rng, layers, r, i, t, l)
    {
      assert RandomizedAt(rng, next, r, above, u, l);
      assert next[l] == layers[l];
      assert next[l - 1].neuronAmount == layers[l - 1].neuronAmount;
      DrawsBeforeAmounts(layers, next, i + 1, l);
    }
  }

  /** Randomising every layer above the input layer of a well-formed network
      keeps it well-formed and puts every parameter in [-1, 1]. */
  lemma RandomizedShaped(rng: Rng, layers: seq<Layer>, r: seq<Layer>)
    requires Shaped(layers) && 0 < |layers| == |r| && r[0] == layers[0]
    requires forall l :: 0 <= l < |r| ==> SameShape(layers[l], r[l])
    requires forall l :: 1 <= l < |r| ==> RandomizedAt(rng, layers, r, 1, 0, l)
    ensures Shaped(r)
    ensures forall l :: 0 <= l < |r| ==> UnitParameters(r[l])
  {
    forall l | 0 <= l < |r|
      ensures LayerFits(r[l], InWidth(r, l)) && UnitParameters(r[l])
    {
      assert LayerFits(layers[l], InWidth(layers, l));
      if l > 0 {
        assert RandomizedAt(rng, layers, r, 1, 0, l);
        assert SameShape(layers[l - 1], r[l - 1]);
      }
    }
  }

  /** `SW_RandomizeNetwork`: every weight and bias of every layer after the
      first is overwritten with a value in [-1, 1]; the input layer, the
      neuron outputs and the shape are left unchanged. */
  function Randomize(rng: Rng, n: Network): (r: Network)
    requires WellFormed(n)
    ensures WellFormed(r) && |r.layers| == |n.layers|
    ensures |n.layers| > 0 ==> r.layers[0] == n.layers[0]
    ensures forall l :: 0 <= l < |r.layers| ==>
      SameShape(n.layers[l], r.layers[l]) && UnitParameters(r.layers[l])
    ensures forall l :: 1 <= l < |r.layers| ==> RandomizedAt(rng, n.layers, r.layers, 1, 0, l)
  {
    if |n.layers| == 0 then n
    else
      var r := RandomizeFrom(rng, n.layers, 1, 0);
      assert r[0] == r[..1][0];
      RandomizedShaped(rng, n.layers, r);
      Network(r)
  }
}
