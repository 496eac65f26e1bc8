/**
  `backpropagate`: a forward pass that records every weighted input and activation,
  followed by a backward pass that turns the output error into one bias gradient and one
  weight gradient per layer. The program's version is modelled as written, together with
  the version its structure evidently intends (the usual backpropagation equations).
 */
module Backprop {
  import opened Wrappers
  import opened Matrices
  import opened MatrixOps
  import opened Networks

  // ---------------------------------------------------------------------------
  // Recorded forward pass

  /** The activations (input first) and weighted inputs the forward pass records. */
  datatype Pass = Pass(activations: seq<Matrix>, zs: seq<Matrix>)

  /**
    One recorded layer: l is a layer the network has, `a` fits it, z is the weighted input
    weights[l] * a + biases[l] and `next` is sigmoid applied to every cell of z.
   */
  predicate Step(net: Network, l: nat, a: Matrix, z: Matrix, next: Matrix, sigmoid: real -> real) {
    && WellShaped(net) && Positive(net) && l < |net.weights| && FitsLayer(net, l, a)
    && z == WeightedInput(net, l, a)
    && next == Apply(z, Cellwise(sigmoid))
  }

  /**
    The first loop of `backpropagate`, from layer i on: the same multiply, add and
    activate as `feedForward`, keeping every z and every activation. What each recorded
    layer holds is stated by `ForwardSteps`.
   */
  function ForwardFrom(net: Network, i: nat, vec: Matrix, sigmoid: real -> real): (p: Pass)
    requires WellShaped(net) && i <= |net.weights|
    requires i < |net.weights| ==> Positive(net) && FitsLayer(net, i, vec)
    ensures |p.activations| == |net.weights| - i + 1 && |p.zs| == |net.weights| - i
    ensures p.activations[0] == vec
    ensures forall k {:trigger p.zs[k]} :: 0 <= k < |p.zs| ==>
              Valid(p.zs[k]) && p.zs[k].rows == net.sizes[i + k + 1] && p.zs[k].columns == 1
    ensures forall k {:trigger p.activations[k]} :: 0 < k < |p.activations| ==>
              Valid(p.activations[k]) && p.activations[k].rows == net.sizes[i + k] && p.activations[k].columns == 1
    decreases |net.weights| - i
  {
    if i == |net.weights| then Pass([vec], [])
    else
      var z := WeightedInput(net, i, vec);
      var rest := ForwardFrom(net, i + 1, Activate(net, i, vec, sigmoid), sigmoid);
      Pass([vec] + rest.activations, [z] + rest.zs)
  }

  /** Every layer of pass p, which starts at layer i, is a `Step` of the network. */
  predicate Recorded(net: Network, i: nat, p: Pass, sigmoid: real -> real) {
    && |p.activations| == |p.zs| + 1
    && forall k {:trigger p.zs[k]} :: 0 <= k < |p.zs| ==>
         Step(net, i + k, p.activations[k], p.zs[k], p.activations[k + 1], sigmoid)
  }

  /** Each recorded z is the weighted input of its layer, and the next activation is sigmoid of it. */
  lemma {:induction false} ForwardSteps(net: Network, i: nat, vec: Matrix, sigmoid: real -> real)
    requires WellShaped(net) && i <= |net.weights|
    requires i < |net.weights| ==> Positive(net) && FitsLayer(net, i, vec)
    ensures Recorded(net, i, ForwardFrom(net, i, vec, sigmoid), sigmoid)
    decreases |net.weights| - i
  {
    if i < |net.weights| {
      var a := Activate(net, i, vec, sigmoid);
      ForwardSteps(net, i + 1, a, sigmoid);
      var p, rest := ForwardFrom(net, i, vec, sigmoid), ForwardFrom(net, i + 1, a, sigmoid);
      assert p.zs == [WeightedInput(net, i, vec)] + rest.zs;
      assert p.activations == [vec] + rest.activations;
      forall k | 0 <= k < |p.zs|
        ensures Step(net, i + k, p.activations[k], p.zs[k], p.activations[k + 1], sigmoid)
      {
        if k > 0 {
          var j := k - 1;
          assert Step(net, i + 1 + j, rest.activations[j], rest.zs[j], rest.activations[j + 1], sigmoid);
        }
      }
    }
  }

  /** The recorded forward pass ends on what `feedForward` returns. */
  lemma {:induction false} ForwardEndsOnFeedForward(net: Network, i: nat, vec: Matrix, sigmoid: real -> real)
    requires WellShaped(net) && i <= |net.weights|
    requires i < |net.weights| ==> Positive(net) && FitsLayer(net, i, vec)
    ensures var p := ForwardFrom(net, i, vec, sigmoid);
            p.activations[|p.activations| - 1] == FeedFrom(net, i, vec, sigmoid)
    decreases |net.weights| - i
  {
    if i < |net.weights| {
      ForwardEndsOnFeedForward(net, i + 1, Activate(net, i, vec, sigmoid), sigmoid);
    }
  }

  // ---------------------------------------------------------------------------
  // Gradients

  /** One bias gradient and one weight gradient per layer, in the order of the network's own. */
  datatype Gradients = Gradients(biases: seq<Matrix>, weights: seq<Matrix>)

  /** Every bias and weight gradient has the shape of the parameter it belongs to. */
  predicate ShapedLike(net: Network, g: Gradients)
    requires WellShaped(net)
  {
    && |g.biases| == |net.biases| && |g.weights| == |net.weights|
    && (forall k {:trigger g.biases[k]} :: 0 <= k < |g.biases| ==>
          Valid(g.biases[k]) && SameShape(g.biases[k], net.biases[k]))
    && (forall k {:trigger g.weights[k]} :: 0 <= k < |g.weights| ==>
          Valid(g.weights[k]) && SameShape(g.weights[k], net.weights[k]))
  }

  /** The zero matrix of the given shape. */
  predicate IsZero(m: Matrix, rows: nat, columns: nat) {
    Valid(m) && m.rows == rows && m.columns == columns && AllZero(m)
  }

  /** The zero matrix of bias k's shape. */
  function ZeroBias(net: Network, k: nat): (m: Matrix)
    requires WellShaped(net) && k < |net.biases|
    ensures Valid(m) && SameShape(m, net.biases[k]) && AllZero(m)
  {
    Fill(net.sizes[k + 1], 1, 0.0)
  }

  /** The zero matrix of weight matrix k's shape. */
  function ZeroWeight(net: Network, k: nat): (m: Matrix)
    requires WellShaped(net) && k < |net.weights|
    ensures Valid(m) && SameShape(m, net.weights[k]) && AllZero(m)
  {
    Fill(net.sizes[k + 1], net.sizes[k], 0.0)
  }

  /** The gradients `backpropagate` starts from: one zero matrix per bias and per weight matrix. */
  function ZeroGradients(net: Network): (g: Gradients)
    requires WellShaped(net)
    ensures ShapedLike(net, g)
    ensures forall k :: 0 <= k < |g.biases| ==> AllZero(g.biases[k]) && AllZero(g.weights[k])
  {
    var n := |net.sizes| - 1;
    Gradients(seq(n, k requires 0 <= k < n => ZeroBias(net, k)), seq(n, k requires 0 <= k < n => ZeroWeight(net, k)))
  }

  /** g with layer l's gradients replaced by dB and dW; every other layer's are unchanged. */
  function WithLayer(net: Network, g: Gradients, l: nat, dB: Matrix, dW: Matrix): (r: Gradients)
    requires WellShaped(net) && ShapedLike(net, g) && l < |g.biases|
    requires Valid(dB) && SameShape(dB, net.biases[l]) && Valid(dW) && SameShape(dW, net.weights[l])
    ensures ShapedLike(net, r)
    ensures r.biases[l] == dB && r.weights[l] == dW
    ensures forall k :: 0 <= k < |g.biases| && k != l ==> r.biases[k] == g.biases[k] && r.weights[k] == g.weights[k]
  {
    Gradients(g.biases[l := dB], g.weights[l := dW])
  }

  // ---------------------------------------------------------------------------
  // Backpropagation as written

  /** `costDerivative`: the output minus the expected output, cell by cell. */
  function CostDerivative(out: Matrix, expected: Matrix): (d: Matrix)
    requires Valid(out) && |out.buffer| > 0 && CoversShape(expected, out.rows, out.columns)
    ensures Valid(d) && SameShape(d, out)
    ensures forall r: nat, c: nat :: r < out.rows && c < out.columns ==>
              Idx(expected.columns, r, c) < |expected.buffer| && Get(d, r, c) == Get(out, r, c) - Get(expected, r, c)
  {
    Sub(out, expected)
  }

  /** sigmoidPrime applied to every cell of z. */
  function SigmoidPrime(z: Matrix, sigmoid: real -> real): (s: Matrix)
    requires Valid(z) && |z.buffer| > 0
    ensures Valid(s) && SameShape(s, z)
    ensures forall r: nat, c: nat :: r < z.rows && c < z.columns ==> Get(s, r, c) == Derivative(sigmoid, Get(z, r, c))
  {
    Map(z, Cellwise(x => Derivative(sigmoid, x)))
  }

  /**
    The layers the backward loop `for l in (2..<numberOfLayers-1).reversed()` visits, highest
    first; None where forming the range stops the program because its upper bound is
    below its lower bound.
   */
  function BackwardRange(layers: nat): (r: Option<seq<nat>>)
  {
    if layers - 1 < 2 then None
    else Some(seq(layers - 3, k requires 0 <= k < layers - 3 => layers - 2 - k))
  }

  /**
    The backward loop completes exactly for three layers, where it visits nothing: with
    fewer the range cannot be formed, and with more its first step, l = layers - 2, reads
    weights[l + 1] = weights[layers - 1], one past the last weight matrix.
   */
  lemma BackwardLoopRunsOnlyForThreeLayers(layers: nat)
    ensures layers == 3 ==> BackwardRange(layers) == Some([])
    ensures (BackwardRange(layers).Some? && forall l :: l in BackwardRange(layers).value ==> l + 1 < layers - 1)
            <==> layers == 3
  {
    if layers > 3 {
      assert BackwardRange(layers).value[0] == layers - 2;
      assert layers - 2 in BackwardRange(layers).value;
    }
  }

  /**
    delta is the output error as line 136 computes it: costDerivative(out, expected) *
    sigmoidPrime(z) with the matrix product, which for two columns multiplies every cell of
    the left one by the first cell of the right one.
   */
  predicate IsOutputErrorAsWritten(delta: Matrix, out: Matrix, expected: Matrix, z: Matrix, sigmoid: real -> real) {
    && Valid(out) && out.columns == 1 && out.rows > 0 && Valid(z) && SameShape(z, out)
    && Valid(delta) && SameShape(delta, out)
    && forall r: nat :: r < out.rows ==>
         Idx(expected.columns, r, 0) < |expected.buffer| &&
         Get(delta, r, 0) == (Get(out, r, 0) - Get(expected, r, 0)) * Derivative(sigmoid, Get(z, 0, 0))
  }

  /** dW is the outer product delta * a.transpose() of two columns: cell (r, c) = delta(r) * a(c). */
  predicate IsWeightGradient(dW: Matrix, delta: Matrix, a: Matrix) {
    && Valid(delta) && delta.columns == 1 && Valid(a) && a.columns == 1
    && Valid(dW) && dW.rows == delta.rows && dW.columns == a.rows
    && forall r: nat, c: nat :: r < delta.rows && c < a.rows ==> Get(dW, r, c) == Get(delta, r, 0) * Get(a, c, 0)
  }

  /** The output error of line 136. */
  function OutputErrorAsWritten(out: Matrix, expected: Matrix, z: Matrix, sigmoid: real -> real): (delta: Matrix)
    requires Valid(out) && out.columns == 1 && out.rows > 0 && CoversShape(expected, out.rows, 1)
    requires Valid(z) && SameShape(z, out)
    ensures IsOutputErrorAsWritten(delta, out, expected, z, sigmoid)
  {
    TimesPositive(out.rows, 1);
    var error := CostDerivative(out, expected);
    var sp := SigmoidPrime(z, sigmoid);
    forall r: nat | r < out.rows
      ensures Get(Product(error, sp), r, 0) == Get(error, r, 0) * Get(sp, 0, 0)
    {
      ColumnVectorProduct(error, sp, r);
    }
    Product(error, sp)
  }

  /** delta * a.transpose(): the weight gradient of a layer with error delta and input activation a. */
  function WeightGradient(delta: Matrix, a: Matrix): (dW: Matrix)
    requires Valid(delta) && delta.columns == 1 && delta.rows > 0
    requires Valid(a) && a.columns == 1 && a.rows > 0
    ensures IsWeightGradient(dW, delta, a)
  {
    OuterProduct(delta, a);
    Product(delta, Transpose(a))
  }

  /**
    `backpropagate` as written. It returns without stopping only for a three-layer network
    (see `BackwardLoopRunsOnlyForThreeLayers`), and then only the top layer's gradients are
    ever set: the first layer's stay the zero matrices they start as. The top layer's bias
    gradient scales the output error by sigmoidPrime of the layer's first weighted input only.
   */
  function Backpropagate(net: Network, input: Matrix, output: Matrix, sigmoid: real -> real): (g: Gradients)
    requires WellShaped(net) && net.numberOfLayers == 3 && Positive(net) && FitsLayer(net, 0, input)
    requires CoversShape(output, net.sizes[2], 1)
    ensures ShapedLike(net, g)
    ensures AllZero(g.biases[0]) && AllZero(g.weights[0])
    ensures var p := ForwardFrom(net, 0, input, sigmoid);
            && IsOutputErrorAsWritten(g.biases[1], p.activations[2], output, p.zs[1], sigmoid)
            && IsWeightGradient(g.weights[1], g.biases[1], p.activations[1])
  {
    var zero := ZeroGradients(net);
    var p := ForwardFrom(net, 0, input, sigmoid);
    var delta := OutputErrorAsWritten(p.activations[2], output, p.zs[1], sigmoid);
    var dW := WeightGradient(delta, p.activations[1]);
    BackwardLoopRunsOnlyForThreeLayers(net.numberOfLayers);
    WithLayer(net, zero, 1, delta, dW)
  }

  // ---------------------------------------------------------------------------
  // Backpropagation as intended

  /** The shapes a forward pass from layer 0 records: one column per layer, of that layer's size. */
  predicate PassShaped(net: Network, p: Pass)
    requires WellShaped(net)
  {
    && |p.activations| == |net.weights| + 1 && |p.zs| == |net.weights|
    && (forall k {:trigger p.zs[k]} :: 0 <= k < |p.zs| ==>
          Valid(p.zs[k]) && p.zs[k].rows == net.sizes[k + 1] && p.zs[k].columns == 1)
    && (forall k {:trigger p.activations[k]} :: 0 <= k < |p.activations| ==>
          Valid(p.activations[k]) && p.activations[k].rows == net.sizes[k] && p.activations[k].columns == 1)
  }

  /** The forward pass of an input with exactly sizes[0] rows has the shapes of the network's layers. */
  lemma ForwardShaped(net: Network, input: Matrix, sigmoid: real -> real)
    requires WellShaped(net) && Positive(net) && FitsLayer(net, 0, input) && input.rows == net.sizes[0]
    ensures PassShaped(net, ForwardFrom(net, 0, input, sigmoid))
  {
    var p := ForwardFrom(net, 0, input, sigmoid);
    forall k | 0 <= k < |p.activations|
      ensures Valid(p.activations[k]) && p.activations[k].rows == net.sizes[k] && p.activations[k].columns == 1
    {
      if k == 0 {
        assert p.activations[0] == input;
      }
    }
  }

  /** The output error of the usual backpropagation equations: (out - expected) times sigmoidPrime(z), cell by cell. */
  predicate IsOutputError(delta: Matrix, out: Matrix, expected: Matrix, z: Matrix, sigmoid: real -> real) {
    && Valid(out) && out.columns == 1 && Valid(z) && SameShape(z, out)
    && Valid(delta) && SameShape(delta, out)
    && forall r: nat :: r < out.rows ==>
         Idx(expected.columns, r, 0) < |expected.buffer| &&
         Get(delta, r, 0) == (Get(out, r, 0) - Get(expected, r, 0)) * Derivative(sigmoid, Get(z, r, 0))
  }

  /** Row r of w.transpose() * d: the sum over m < n of w(m, r) * d(m), in increasing m. */
  function BackSum(w: Matrix, d: Matrix, r: nat, n: nat): real
    requires Valid(w) && r < w.columns && n <= w.rows
    requires Valid(d) && d.columns == 1 && n <= d.rows
    decreases n
  {
    if n == 0 then 0.0 else BackSum(w, d, r, n - 1) + Get(w, n - 1, r) * Get(d, n - 1, 0)
  }

  /** t is the transpose of w: w's columns as rows. */
  predicate IsTransposeOf(t: Matrix, w: Matrix) {
    && Valid(t) && Valid(w) && t.rows == w.columns && t.columns == w.rows
    && forall i: nat, j: nat :: i < w.rows && j < w.columns ==> Get(t, j, i) == Get(w, i, j)
  }

  /** Multiplying by the transpose reads the matrix down its columns. */
  lemma {:induction false} DotTranspose(t: Matrix, w: Matrix, d: Matrix, r: nat, n: nat)
    requires IsTransposeOf(t, w) && r < w.columns && n <= w.rows
    requires Valid(d) && d.columns == 1 && n <= d.rows
    ensures Dot(t, d, r, 0, n) == BackSum(w, d, r, n)
    decreases n
  {
    if n > 0 {
      DotTranspose(t, w, d, r, n - 1);
    }
  }

  /**
    The error of a hidden layer from the error `above` of the layer over it, whose weight
    matrix is w: (w.transpose() * above) times sigmoidPrime(z), cell by cell.
   */
  predicate IsHiddenError(delta: Matrix, w: Matrix, above: Matrix, z: Matrix, sigmoid: real -> real) {
    && Valid(w) && Valid(above) && above.columns == 1 && above.rows == w.rows
    && Valid(z) && z.columns == 1 && z.rows == w.columns
    && Valid(delta) && SameShape(delta, z)
    && forall r: nat :: r < z.rows ==>
         Get(delta, r, 0) == BackSum(w, above, r, w.rows) * Derivative(sigmoid, Get(z, r, 0))
  }

  /** The output error with the cellwise (Hadamard) product line 136 evidently means. */
  function OutputError(out: Matrix, expected: Matrix, z: Matrix, sigmoid: real -> real): (delta: Matrix)
    requires Valid(out) && out.columns == 1 && out.rows > 0 && CoversShape(expected, out.rows, 1)
    requires Valid(z) && SameShape(z, out)
    ensures IsOutputError(delta, out, expected, z, sigmoid)
  {
    TimesPositive(out.rows, 1);
    Hadamard(CostDerivative(out, expected), SigmoidPrime(z, sigmoid))
  }

  /** w.transpose() * above: the error of the layer above carried back through its weights. */
  function CarriedBack(w: Matrix, above: Matrix): (back: Matrix)
    requires Valid(w) && w.rows > 0 && w.columns > 0
    requires Valid(above) && above.columns == 1 && above.rows == w.rows
    ensures Valid(back) && back.rows == w.columns && back.columns == 1
    ensures forall r: nat :: r < w.columns ==> Get(back, r, 0) == BackSum(w, above, r, w.rows)
  {
    TimesPositive(w.rows, w.columns);
    var t := Transpose(w);
    forall r: nat | r < w.columns
      ensures Get(Product(t, above), r, 0) == BackSum(w, above, r, w.rows)
    {
      DotTranspose(t, w, above, r, w.rows);
    }
    Product(t, above)
  }

  /** The hidden error line 143 evidently means: transpose of the weights above, then a cellwise product. */
  function HiddenError(w: Matrix, above: Matrix, z: Matrix, sigmoid: real -> real): (delta: Matrix)
    requires Valid(w) && w.rows > 0 && w.columns > 0
    requires Valid(above) && above.columns == 1 && above.rows == w.rows
    requires Valid(z) && z.columns == 1 && z.rows == w.columns
    ensures IsHiddenError(delta, w, above, z, sigmoid)
  {
    TimesPositive(z.rows, 1);
    Hadamard(CarriedBack(w, above), SigmoidPrime(z, sigmoid))
  }

  /**
    The error of layer k (0 for the first weight matrix) of a recorded pass p: the output
    error for the top layer, otherwise the hidden error propagated from layer k + 1.
   */
  function LayerError(net: Network, p: Pass, output: Matrix, sigmoid: real -> real, k: nat): (delta: Matrix)
    requires WellShaped(net) && Positive(net) && PassShaped(net, p) && k < |net.weights|
    requires CoversShape(output, net.sizes[|net.weights|], 1)
    ensures Valid(delta) && delta.rows == net.sizes[k + 1] && delta.columns == 1
    ensures var n := |net.weights|;
            if k == n - 1 then IsOutputError(delta, p.activations[n], output, p.zs[n - 1], sigmoid)
            else IsHiddenError(delta, net.weights[k + 1], LayerError(net, p, output, sigmoid, k + 1), p.zs[k], sigmoid)
    decreases |net.weights| - k
  {
    var n := |net.weights|;
    if k == n - 1 then OutputError(p.activations[n], output, p.zs[n - 1], sigmoid)
    else HiddenError(net.weights[k + 1], LayerError(net, p, output, sigmoid, k + 1), p.zs[k], sigmoid)
  }

  /** The error of every layer, the first weight matrix's first. */
  function LayerErrors(net: Network, p: Pass, output: Matrix, sigmoid: real -> real): (errors: seq<Matrix>)
    requires WellShaped(net) && Positive(net) && PassShaped(net, p)
    requires CoversShape(output, net.sizes[|net.weights|], 1)
    ensures |errors| == |net.weights|
    ensures forall k {:trigger errors[k]} :: 0 <= k < |errors| ==> errors[k] == LayerError(net, p, output, sigmoid, k)
  {
    seq(|net.weights|, k requires 0 <= k < |net.weights| => LayerError(net, p, output, sigmoid, k))
  }

  /** The weight gradient of every layer: its error times the transpose of its input activation. */
  function WeightGradients(net: Network, p: Pass, errors: seq<Matrix>): (dWs: seq<Matrix>)
    requires WellShaped(net) && Positive(net) && PassShaped(net, p) && |errors| == |net.weights|
    requires forall k {:trigger errors[k]} :: 0 <= k < |errors| ==>
               Valid(errors[k]) && errors[k].rows == net.sizes[k + 1] && errors[k].columns == 1
    ensures |dWs| == |errors|
    ensures forall k {:trigger dWs[k]} :: 0 <= k < |dWs| ==>
              IsWeightGradient(dWs[k], errors[k], p.activations[k]) && SameShape(dWs[k], net.weights[k])
  {
    seq(|errors|, k requires 0 <= k < |errors| => WeightGradient(errors[k], p.activations[k]))
  }

  /**
    `backpropagate` as its structure evidently intends, for any network with at least one
    weight matrix: every layer's bias gradient is its error and its weight gradient is the
    outer product of that error with the layer's input activation.
   */
  function BackpropagateCorrected(net: Network, input: Matrix, output: Matrix, sigmoid: real -> real): (g: Gradients)
    requires WellShaped(net) && net.numberOfLayers >= 2 && Positive(net)
    requires FitsLayer(net, 0, input) && input.rows == net.sizes[0]
    requires CoversShape(output, net.sizes[net.numberOfLayers - 1], 1)
    ensures ShapedLike(net, g)
    ensures var p := ForwardFrom(net, 0, input, sigmoid);
            && PassShaped(net, p)
            && forall k {:trigger g.biases[k]} :: 0 <= k < |g.biases| ==>
                 && g.biases[k] == LayerError(net, p, output, sigmoid, k)
                 && IsWeightGradient(g.weights[k], g.biases[k], p.activations[k])
  {
    var p := ForwardFrom(net, 0, input, sigmoid);
    ForwardShaped(net, input, sigmoid);
    var errors := LayerErrors(net, p, output, sigmoid);
    Gradients(errors, WeightGradients(net, p, errors))
  }

  /**
    Row r of the output error as written agrees with the intended one exactly when the
    output is right there or sigmoidPrime takes the same value at z(r) as at z(0).
   */
  lemma OutputErrorsAgree(asWritten: Matrix, intended: Matrix, out: Matrix, expected: Matrix, z: Matrix, sigmoid: real -> real)
    requires IsOutputErrorAsWritten(asWritten, out, expected, z, sigmoid)
    requires IsOutputError(intended, out, expected, z, sigmoid)
    ensures forall r: nat :: r < out.rows ==>
              (Get(asWritten, r, 0) == Get(intended, r, 0) <==>
               Get(out, r, 0) == Get(expected, r, 0) || Derivative(sigmoid, Get(z, 0, 0)) == Derivative(sigmoid, Get(z, r, 0)))
  {
    forall r: nat | r < out.rows
      ensures Get(asWritten, r, 0) == Get(intended, r, 0) <==>
              Get(out, r, 0) == Get(expected, r, 0) || Derivative(sigmoid, Get(z, 0, 0)) == Derivative(sigmoid, Get(z, r, 0))
    {
      var e := Get(out, r, 0) - Get(expected, r, 0);
      var a, b := Derivative(sigmoid, Get(z, 0, 0)), Derivative(sigmoid, Get(z, r, 0));
      assert Get(asWritten, r, 0) == e * a && Get(intended, r, 0) == e * b;
      CancelFactor(e, a, b);
    }
  }

  /** A common factor cancels exactly when it is not zero. */
  lemma CancelFactor(e: real, a: real, b: real)
    ensures e * a == e * b <==> e == 0.0 || a == b
  {
    if e != 0.0 && e * a == e * b {
      calc {
        a;
        (e * a) / e;
        (e * b) / e;
        b;
      }
    }
  }

  /** A zero matrix equals a matrix of its shape exactly when that one is zero too. */
  lemma OnlyZeroEqualsZero(zero: Matrix, m: Matrix)
    requires Valid(zero) && Valid(m) && SameShape(zero, m) && AllZero(zero)
    ensures zero == m <==> AllZero(m)
  {
    if AllZero(m) {
      Extensionality(zero, m);
    }
  }

  /**
    For a three-layer network the first layer's bias gradient as written equals the
    intended one only when the intended one is zero: the backward loop never reaches it.
   */
  lemma FirstLayerGradientLost(net: Network, input: Matrix, output: Matrix, sigmoid: real -> real)
    requires WellShaped(net) && net.numberOfLayers == 3 && Positive(net)
    requires FitsLayer(net, 0, input) && input.rows == net.sizes[0]
    requires CoversShape(output, net.sizes[2], 1)
    ensures var intended := BackpropagateCorrected(net, input, output, sigmoid).biases[0];
            Valid(intended) && (Backpropagate(net, input, output, sigmoid).biases[0] == intended <==> AllZero(intended))
  {
    var asWritten := Backpropagate(net, input, output, sigmoid);
    var intended := BackpropagateCorrected(net, input, output, sigmoid);
    OnlyZeroEqualsZero(asWritten.biases[0], intended.biases[0]);
  }
}
