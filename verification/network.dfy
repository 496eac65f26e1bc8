/**
  The network of the training program: its layer sizes and the weight and bias matrix
  of every non-input layer, with initialisation, inference and the loss used in
  evaluation. The logistic function is a parameter `sigmoid`: the model fixes how it is
  applied (to every cell, after the affine step) but not its values.
 */
module Networks {
  import opened Matrices
  import opened MatrixOps

  /**
    `numberOfLayers` counts all layers, input included; `weights[i]` maps layer i to
    layer i + 1 and `biases[i]` is the bias column of layer i + 1.
   */
  datatype Network = Network(numberOfLayers: nat, sizes: seq<nat>, biases: seq<Matrix>, weights: seq<Matrix>)

  /** The shapes `init(layersSize:)` fixes: weights[i] is sizes[i+1] x sizes[i], biases[i] is sizes[i+1] x 1. */
  predicate WellShaped(net: Network) {
    && net.numberOfLayers == |net.sizes| >= 1
    && |net.weights| == |net.sizes| - 1 && |net.biases| == |net.sizes| - 1
    && (forall i {:trigger net.weights[i]} :: 0 <= i < |net.weights| ==>
          Valid(net.weights[i]) && net.weights[i].rows == net.sizes[i + 1] && net.weights[i].columns == net.sizes[i])
    && (forall i {:trigger net.biases[i]} :: 0 <= i < |net.biases| ==>
          Valid(net.biases[i]) && net.biases[i].rows == net.sizes[i + 1] && net.biases[i].columns == 1)
  }

  /**
    Every layer has a neuron. A matrix product reads the first cell of its left operand,
    so a layer of size 0 stops every pass through a network that has a weight matrix.
   */
  predicate Positive(net: Network) {
    forall i :: 0 <= i < |net.sizes| ==> net.sizes[i] >= 1
  }

  /** The rows x columns matrix of one layer whose cell (r, c) is `draw(layer, r, c)`. */
  function DrawMatrix(rows: nat, columns: nat, draw: (nat, nat, nat) -> real, layer: nat): (m: Matrix)
    ensures Valid(m) && m.rows == rows && m.columns == columns
    ensures forall r: nat, c: nat :: r < rows && c < columns ==> Get(m, r, c) == draw(layer, r, c)
  {
    Generate(rows, columns, (r: nat, c: nat) => draw(layer, r, c))
  }

  /** Layer i's weight matrix maps sizes[i] inputs to sizes[i+1] outputs; its bias is one column of sizes[i+1]. */
  predicate LayerShaped(net: Network, i: nat)
    requires i < |net.weights| && i < |net.biases| && i + 1 < |net.sizes|
  {
    && Valid(net.weights[i]) && net.weights[i].rows == net.sizes[i + 1] && net.weights[i].columns == net.sizes[i]
    && Valid(net.biases[i]) && net.biases[i].rows == net.sizes[i + 1] && net.biases[i].columns == 1
  }

  /** Every cell of layer i's weights and biases holds the value drawn for it. */
  predicate Drawn(net: Network, i: nat, biasDraw: (nat, nat, nat) -> real, weightDraw: (nat, nat, nat) -> real)
    requires i < |net.weights| && i < |net.biases| && i + 1 < |net.sizes| && LayerShaped(net, i)
  {
    && (forall r: nat, c: nat :: r < net.sizes[i + 1] && c < net.sizes[i] ==> Get(net.weights[i], r, c) == weightDraw(i, r, c))
    && (forall r: nat :: r < net.sizes[i + 1] ==> Get(net.biases[i], r, 0) == biasDraw(i, r, 0))
  }

  lemma WellShapedByLayers(net: Network)
    requires net.numberOfLayers == |net.sizes| >= 1
    requires |net.weights| == |net.sizes| - 1 && |net.biases| == |net.sizes| - 1
    requires forall i :: 0 <= i < |net.weights| ==> LayerShaped(net, i)
    ensures WellShaped(net)
  {
    forall i | 0 <= i < |net.weights|
      ensures Valid(net.weights[i]) && net.weights[i].rows == net.sizes[i + 1] && net.weights[i].columns == net.sizes[i]
      ensures Valid(net.biases[i]) && net.biases[i].rows == net.sizes[i + 1] && net.biases[i].columns == 1
    {
      assert LayerShaped(net, i);
    }
  }

  /**
    The loop of `init(layersSize:)` over its first n layers: bias column and weight matrix of
    layer i are appended in turn, drawn by `biasDraw` and `weightDraw`.
   */
  function DrawLayers(sizes: seq<nat>, n: nat, biasDraw: (nat, nat, nat) -> real, weightDraw: (nat, nat, nat) -> real):
    (net: Network)
    requires n < |sizes|
    ensures net.numberOfLayers == |sizes| && net.sizes == sizes && |net.biases| == n && |net.weights| == n
    ensures forall i :: 0 <= i < n ==> LayerShaped(net, i) && Drawn(net, i, biasDraw, weightDraw)
    decreases n
  {
    if n == 0 then Network(|sizes|, sizes, [], [])
    else
      var previous := DrawLayers(sizes, n - 1, biasDraw, weightDraw);
      var b, w := DrawMatrix(sizes[n], 1, biasDraw, n - 1), DrawMatrix(sizes[n], sizes[n - 1], weightDraw, n - 1);
      var net := previous.(biases := previous.biases + [b], weights := previous.weights + [w]);
      forall i | 0 <= i < n
        ensures LayerShaped(net, i) && Drawn(net, i, biasDraw, weightDraw)
      {
        if i < n - 1 {
          assert net.weights[i] == previous.weights[i] && net.biases[i] == previous.biases[i];
          assert LayerShaped(previous, i) && Drawn(previous, i, biasDraw, weightDraw);
        } else {
          assert net.weights[i] == w && net.biases[i] == b;
        }
      }
      net
  }

  /**
    `init(layersSize:)`. The original draws every bias and weight from a random source; here
    `biasDraw(i, r, c)` and `weightDraw(i, r, c)` stand for the values drawn for cell (r, c)
    of layer i's matrices. The layer loop `1..<sizes.count` needs at least one size.
   */
  function Init(sizes: seq<nat>, biasDraw: (nat, nat, nat) -> real, weightDraw: (nat, nat, nat) -> real): (net: Network)
    requires |sizes| >= 1
    ensures WellShaped(net) && net.sizes == sizes
    ensures forall i :: 0 <= i < |sizes| - 1 ==> Drawn(net, i, biasDraw, weightDraw)
  {
    var net := DrawLayers(sizes, |sizes| - 1, biasDraw, weightDraw);
    WellShapedByLayers(net);
    net
  }

  // ---------------------------------------------------------------------------
  // Inference

  /** The per-cell closure handed to `apply`/`map`: `f` of the old value, whatever the cell. */
  function Cellwise(f: real -> real): (nat, nat, real) -> real {
    (i: nat, j: nat, x: real) => f(x)
  }

  /** `sigmoidPrime`: sigmoid(x) * (1 - sigmoid(x)). */
  function Derivative(sigmoid: real -> real, x: real): real {
    sigmoid(x) * (1.0 - sigmoid(x))
  }

  /**
    What a pass through layer i reads of its input vector: one column (the bias column
    fixes that) and at least sizes[i] rows (rows beyond those are never read).
   */
  predicate FitsLayer(net: Network, i: nat, vec: Matrix)
    requires i < |net.sizes|
  {
    Valid(vec) && vec.columns == 1 && vec.rows >= net.sizes[i]
  }

  /** The weighted input of layer i + 1: weights[i] * vec + biases[i]. */
  function WeightedInput(net: Network, i: nat, vec: Matrix): (z: Matrix)
    requires WellShaped(net) && Positive(net) && i < |net.weights| && FitsLayer(net, i, vec)
    ensures Valid(z) && z.rows == net.sizes[i + 1] && z.columns == 1
  {
    var w := net.weights[i];
    IdxBelow(w.rows, w.columns, 0, 0);
    var p := Product(w, vec);
    IdxBelow(p.rows, p.columns, 0, 0);
    CoversOwnShape(net.biases[i], p.rows, p.columns);
    Add(p, net.biases[i])
  }

  /** The activation of layer i + 1: sigmoid applied to every cell of the weighted input. */
  function Activate(net: Network, i: nat, vec: Matrix, sigmoid: real -> real): (a: Matrix)
    requires WellShaped(net) && Positive(net) && i < |net.weights| && FitsLayer(net, i, vec)
    ensures Valid(a) && a.rows == net.sizes[i + 1] && a.columns == 1
    ensures forall r: nat :: r < a.rows ==> Get(a, r, 0) == sigmoid(Get(WeightedInput(net, i, vec), r, 0))
  {
    Apply(WeightedInput(net, i, vec), Cellwise(sigmoid))
  }

  /** What `feedForward` accepts without stopping: with any layer to pass, positive sizes and an input that fits layer 0. */
  predicate Accepts(net: Network, input: Matrix) {
    && WellShaped(net) && Valid(input)
    && (|net.weights| > 0 ==> Positive(net) && FitsLayer(net, 0, input))
  }

  /** The loop of `feedForward` from layer i on. */
  function FeedFrom(net: Network, i: nat, vec: Matrix, sigmoid: real -> real): (out: Matrix)
    requires WellShaped(net) && i <= |net.weights|
    requires i < |net.weights| ==> Positive(net) && FitsLayer(net, i, vec)
    ensures i < |net.weights| ==> Valid(out) && out.rows == net.sizes[|net.sizes| - 1] && out.columns == 1
    ensures i == |net.weights| ==> out == vec
    decreases |net.weights| - i
  {
    if i == |net.weights| then vec
    else FeedFrom(net, i + 1, Activate(net, i, vec, sigmoid), sigmoid)
  }

  /**
    `feedForward(with:)`: for every layer in turn, multiply by the weights, add the biases and
    apply sigmoid to every cell. The output is a sizes.last x 1 column; a network without
    weight matrices returns its input.
   */
  function FeedForward(net: Network, input: Matrix, sigmoid: real -> real): (out: Matrix)
    requires Accepts(net, input)
    ensures |net.weights| > 0 ==> Valid(out) && out.rows == net.sizes[|net.sizes| - 1] && out.columns == 1
    ensures |net.weights| == 0 ==> out == input
  {
    FeedFrom(net, 0, input, sigmoid)
  }

  // ---------------------------------------------------------------------------
  // A network whose weights and biases are all zero

  predicate AllZero(m: Matrix)
    requires Valid(m)
  {
    forall i: nat, j: nat :: i < m.rows && j < m.columns ==> Get(m, i, j) == 0.0
  }

  lemma {:induction false} DotZeroRow(w: Matrix, v: Matrix, i: nat, n: nat)
    requires Valid(w) && Valid(v) && AllZero(w) && i < w.rows && n <= w.columns && n <= v.rows && v.columns == 1
    ensures Dot(w, v, i, 0, n) == 0.0
    decreases n
  {
    if n > 0 {
      DotZeroRow(w, v, i, n - 1);
      var x, y := Get(w, i, n - 1), Get(v, n - 1, 0);
      assert x == 0.0;
      assert Dot(w, v, i, 0, n) == Dot(w, v, i, 0, n - 1) + x * y;
    }
  }

  /** Every weight and every bias of the network is zero. */
  predicate ZeroParameters(net: Network)
    requires WellShaped(net)
  {
    forall k :: 0 <= k < |net.weights| ==> AllZero(net.weights[k]) && AllZero(net.biases[k])
  }

  /** m is a valid column of at least n rows whose first n cells all equal x. */
  predicate ConstantColumn(m: Matrix, n: nat, x: real) {
    Valid(m) && m.columns == 1 && n <= m.rows && forall r: nat :: r < n ==> Get(m, r, 0) == x
  }

  /** A layer with zero weights and biases activates every row to sigmoid(0), whatever its input. */
  lemma ActivateZeroLayer(net: Network, i: nat, vec: Matrix, sigmoid: real -> real)
    requires WellShaped(net) && Positive(net) && i < |net.weights| && FitsLayer(net, i, vec)
    requires AllZero(net.weights[i]) && AllZero(net.biases[i])
    ensures ConstantColumn(Activate(net, i, vec, sigmoid), net.sizes[i + 1], sigmoid(0.0))
  {
    var w := net.weights[i];
    IdxBelow(w.rows, w.columns, 0, 0);
    var p := Product(w, vec);
    forall r: nat | r < net.sizes[i + 1]
      ensures Get(WeightedInput(net, i, vec), r, 0) == 0.0
    {
      DotZeroRow(w, vec, r, w.columns);
      assert Get(p, r, 0) == 0.0;
    }
  }

  lemma {:induction false} FeedFromZero(net: Network, i: nat, vec: Matrix, sigmoid: real -> real)
    requires WellShaped(net) && Positive(net) && ZeroParameters(net) && i < |net.weights| && FitsLayer(net, i, vec)
    ensures ConstantColumn(FeedFrom(net, i, vec, sigmoid), net.sizes[|net.sizes| - 1], sigmoid(0.0))
    decreases |net.weights| - i
  {
    var a := Activate(net, i, vec, sigmoid);
    ActivateZeroLayer(net, i, vec, sigmoid);
    if i + 1 < |net.weights| {
      FeedFromZero(net, i + 1, a, sigmoid);
    }
  }

  /** With all weights and biases zero, every output cell is sigmoid(0), whatever the input. */
  lemma FeedForwardZeroNetwork(net: Network, input: Matrix, sigmoid: real -> real)
    requires Accepts(net, input) && |net.weights| > 0 && ZeroParameters(net)
    ensures ConstantColumn(FeedForward(net, input, sigmoid), net.sizes[|net.sizes| - 1], sigmoid(0.0))
  {
    FeedFromZero(net, 0, input, sigmoid);
  }

  // ---------------------------------------------------------------------------
  // Loss

  /** What `getLoss` needs beyond `Accepts`: an output with a cell (0, 0) for `maxRow` to start from. */
  predicate HasPrediction(net: Network, input: Matrix)
    requires Accepts(net, input)
  {
    |net.weights| > 0 || (input.rows > 0 && input.columns > 0)
  }

  /** The class the network predicts: the first row of the largest output cell. */
  function Predict(net: Network, input: Matrix, sigmoid: real -> real): (k: nat)
    requires Accepts(net, input) && HasPrediction(net, input)
    ensures var out := FeedForward(net, input, sigmoid);
            && Valid(out) && 0 < out.columns && k < out.rows
            && (forall i: nat :: i < out.rows ==> Get(out, i, 0) <= Get(out, k, 0))
            && (forall i: nat :: i < k ==> Get(out, i, 0) < Get(out, k, 0))
  {
    var out := FeedForward(net, input, sigmoid);
    assert |net.weights| > 0 ==> out.rows == net.sizes[|net.sizes| - 1] >= 1;
    MaxRow(out, 0)
  }

  /**
    `getLoss(from:expected:)` as written: it compares the prediction with itself, so the loss is
    0 for every input and every expected output.
   */
  function GetLoss(net: Network, from: Matrix, expected: Matrix, sigmoid: real -> real): (loss: real)
    requires Accepts(net, from) && HasPrediction(net, from)
    ensures loss == 0.0
  {
    if Predict(net, from, sigmoid) == Predict(net, from, sigmoid) then 0.0 else 1.0
  }

  /** The loss evidently intended: 0 when the predicted class is the expected one, 1 otherwise. */
  function Misclassified(net: Network, from: Matrix, expected: Matrix, sigmoid: real -> real): (loss: real)
    requires Accepts(net, from) && HasPrediction(net, from)
    requires Valid(expected) && expected.rows > 0 && expected.columns > 0
    ensures loss == 0.0 <==> Predict(net, from, sigmoid) == MaxRow(expected, 0)
    ensures loss == 1.0 <==> Predict(net, from, sigmoid) != MaxRow(expected, 0)
  {
    if Predict(net, from, sigmoid) == MaxRow(expected, 0) then 0.0 else 1.0
  }

  /** Whenever the prediction is wrong, the original still reports no loss. */
  lemma GetLossMissesErrors(net: Network, from: Matrix, expected: Matrix, sigmoid: real -> real)
    requires Accepts(net, from) && HasPrediction(net, from)
    requires Valid(expected) && expected.rows > 0 && expected.columns > 0
    requires Predict(net, from, sigmoid) != MaxRow(expected, 0)
    ensures GetLoss(net, from, expected, sigmoid) == 0.0 && Misclassified(net, from, expected, sigmoid) == 1.0
  {
  }
}
