/** Loss evaluation of the Swan library: feed an input through the network and
    score the last layer's outputs against the expected outputs. */
module SwLoss {
  import opened SwNetwork

  /** The loss tags `SW_CalculateLoss` accepts; `UnrecognizedLoss` stands for
      any other value of the C enumeration. */
  datatype LossFunction = CrossEntropy | MeanSquaredError | UnrecognizedLoss(tag: int)

  /** Targets below this are not passed to the logarithm ... */
  const TargetFloor: real := 0.000001
  /** ... this value is used in their place. */
  const TargetSubstitute: real := 0.0001

  /** The argument the cross-entropy passes to `log` for a target: the target
      itself, or the substitute when the target is below the floor. The
      argument is always positive. */
  function LogArgument(target: real): (a: real)
    ensures a >= TargetFloor > 0.0
    ensures target >= TargetFloor ==> a == target
    ensures target < TargetFloor ==> a == TargetSubstitute
  {
    if target < TargetFloor then TargetSubstitute else target
  }

  /** `- Σ out[i] * log(LogArgument(target[i]))` over the first `k` outputs,
      accumulated left to right. */
  function CrossEntropySum(m: MathLib, out: seq<real>, target: seq<real>, k: nat): real
    requires k <= |out| && k <= |target|
  {
    if k == 0 then 0.0
    else CrossEntropySum(m, out, target, k - 1) - out[k - 1] * m.log(LogArgument(target[k - 1]))
  }

  /** The cross-entropy weighs each log term by the predicted output, so it is
      zero whenever every predicted output is zero, whatever the targets. */
  lemma {:induction false} CrossEntropyZeroOutputs(m: MathLib, out: seq<real>, target: seq<real>, k: nat)
    requires k <= |out| && k <= |target|
    requires forall i :: 0 <= i < k ==> out[i] == 0.0
    ensures CrossEntropySum(m, out, target, k) == 0.0
  {
    if k > 0 {
      CrossEntropyZeroOutputs(m, out, target, k - 1);
    }
  }

  /** Targets below the floor all score as the substitute: the cross-entropy
      only depends on the targets through `LogArgument`. */
  lemma {:induction false} CrossEntropyClampedTargets(m: MathLib, out: seq<real>, t1: seq<real>, t2: seq<real>, k: nat)
    requires k <= |out| && k <= |t1| && k <= |t2|
    requires forall i :: 0 <= i < k ==> LogArgument(t1[i]) == LogArgument(t2[i])
    ensures CrossEntropySum(m, out, t1, k) == CrossEntropySum(m, out, t2, k)
  {
    if k > 0 {
      CrossEntropyClampedTargets(m, out, t1, t2, k - 1);
    }
  }

  /** `Σ (target[i] - out[i])²` over the first `k` outputs. */
  function SquaredErrorSum(out: seq<real>, target: seq<real>, k: nat): real
    requires k <= |out| && k <= |target|
  {
    if k == 0 then 0.0
    else SquaredErrorSum(out, target, k - 1) + Square(target[k - 1] - out[k - 1])
  }

  function Square(d: real): real {
    d * d
  }

  /** The squared error is never negative and is zero exactly when the first
      `k` outputs equal their targets. */
  lemma {:induction false} SquaredErrorSumZero(out: seq<real>, target: seq<real>, k: nat)
    requires k <= |out| && k <= |target|
    ensures SquaredErrorSum(out, target, k) >= 0.0
    ensures SquaredErrorSum(out, target, k) == 0.0 <==> forall i :: 0 <= i < k ==> out[i] == target[i]
  {
    if k > 0 {
      SquaredErrorSumZero(out, target, k - 1);
      var d := target[k - 1] - out[k - 1];
      SquareSign(d);
      if d != 0.0 {
        assert out[k - 1] != target[k - 1];
      } else {
        assert (forall i :: 0 <= i < k ==> out[i] == target[i])
          <==> (forall i :: 0 <= i < k - 1 ==> out[i] == target[i]);
      }
    }
  }

  /** A square is never negative, and is zero only for zero. */
  lemma SquareSign(d: real)
    ensures Square(d) >= 0.0
    ensures Square(d) == 0.0 <==> d == 0.0
  {
    if d > 0.0 {
      calc {
        Square(d);
      ==
        d * d;
      >
        0.0;
      }
    } else if d < 0.0 {
      calc {
        Square(d);
      ==
        d * d;
      >
        0.0;
      }
    }
  }

  /** The mean squared error over the `|out|` outputs of the last layer. */
  function MeanSquaredErrorOf(out: seq<real>, target: seq<real>): (r: real)
    requires 0 < |out| <= |target|
    ensures r >= 0.0
    ensures r == 0.0 <==> forall i :: 0 <= i < |out| ==> out[i] == target[i]
  {
    SquaredErrorSumZero(out, target, |out|);
    SquaredErrorSum(out, target, |out|) / (|out| as real)
  }

  /** Two concrete values of the mean squared error. */
  lemma MeanSquaredErrorExamples()
    ensures MeanSquaredErrorOf([1.0, 0.0], [1.0, 0.0]) == 0.0
    ensures MeanSquaredErrorOf([0.0, 0.0], [1.0, 1.0]) == 1.0
  {
    assert SquaredErrorSum([0.0, 0.0], [1.0, 1.0], 2) == 2.0;
  }

  /** The score `SW_CalculateLoss` gives the outputs `out` of the last layer
      against the expected outputs: cross-entropy, mean squared error, or zero
      for an unrecognised loss tag, which reads no expected output. */
  function Score(m: MathLib, lossFunction: LossFunction, out: seq<real>, correct: seq<real>): (loss: real)
    requires 0 < |out|
    requires lossFunction.UnrecognizedLoss? || |out| <= |correct|
    ensures lossFunction == CrossEntropy ==> loss == CrossEntropySum(m, out, correct, |out|)
    ensures lossFunction == MeanSquaredError ==>
      && loss == SquaredErrorSum(out, correct, |out|) / (|out| as real)
      && loss >= 0.0
      && (loss == 0.0 <==> forall i :: 0 <= i < |out| ==> out[i] == correct[i])
    ensures lossFunction.UnrecognizedLoss? ==> loss == 0.0
  {
    match lossFunction
    case CrossEntropy => CrossEntropySum(m, out, correct, |out|)
    case MeanSquaredError => MeanSquaredErrorOf(out, correct)
    case UnrecognizedLoss(_) => 0.0
  }

  /** What `SW_CalculateLoss` returns, together with the network it leaves
      behind (it sets the input and runs a forward pass first). */
  datatype Evaluation = Evaluation(loss: real, network: Network)

  /** The outputs of the last layer, one per neuron: what `SW_CalculateLoss`
      scores. An empty network has none. */
  function LastOutputs(n: Network): (out: seq<real>)
    ensures |n.layers| > 0 ==> out == Outputs(n.layers[|n.layers| - 1])
    ensures WellFormed(n) && |n.layers| > 0 ==> |out| == n.layers[|n.layers| - 1].neuronAmount > 0
  {
    if |n.layers| == 0 then []
    else
      var last := n.layers[|n.layers| - 1];
      assert WellFormed(n) ==> LayerFits(last, InWidth(n.layers, |n.layers| - 1));
      Outputs(last)
  }

  /** The first two steps of `SW_CalculateLoss`: set the input, then run the
      forward pass. The network keeps its shape, and its last layer keeps
      one output per neuron. */
  function Run(m: MathLib, n: Network, input: Option<seq<real>>): (r: Network)
    requires WellFormed(n) && |n.layers| > 0
    requires input.Some? ==> |input.value| >= n.layers[0].neuronAmount
    ensures WellFormed(r) && |r.layers| == |n.layers|
    ensures 0 < |LastOutputs(r)| == n.layers[|n.layers| - 1].neuronAmount
  {
    var given := SetInput(n, input);
    var after := Execute(m, given);
    SameParametersTransitive(n.layers, given.layers, after.layers);
    LastLayerKept(n.layers, after.layers);
    after
  }

  /** Layers with the same parameters end in a layer of the same width. */
  lemma LastLayerKept(a: seq<Layer>, b: seq<Layer>)
    requires SameParameters(a, b) && |a| > 0
    ensures |b| == |a| && b[|b| - 1].neuronAmount == a[|a| - 1].neuronAmount
  {
    assert SameLayerParameters(a[|a| - 1], b[|b| - 1]);
  }

  /** `SW_CalculateLoss`: sets the input, runs the forward pass, then scores
      the outputs of the last layer, which has as many neurons as before. */
  function CalculateLoss(m: MathLib, n: Network, lossFunction: LossFunction,
                         input: Option<seq<real>>, correct: seq<real>): (r: Evaluation)
    requires WellFormed(n) && |n.layers| > 0
    requires input.Some? ==> |input.value| >= n.layers[0].neuronAmount
    requires lossFunction.UnrecognizedLoss? || |correct| >= n.layers[|n.layers| - 1].neuronAmount
    ensures r.network == Run(m, n, input)
    ensures r.loss == Score(m, lossFunction, LastOutputs(r.network), correct)
  {
    var after := Run(m, n, input);
    Evaluation(Score(m, lossFunction, LastOutputs(after), correct), after)
  }
}
