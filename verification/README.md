# NIST digit network in Dafny

A Dafny model of the core of a small Swift program that trains a fully connected
sigmoid network on the MNIST (NIST) handwritten digits. The model has three parts:

- **Dense matrices** (`matrix.dfy`, module `Matrices`, and `matrix_ops.dfy`, module `MatrixOps`).
  A row-major `Matrix` holds a flat `buffer` plus `rows` and `columns`, and cell (i, j) sits
  at position `i * columns + j`. The model covers the initialisers (fill value, per-cell
  generator, nested arrays), `getAt`/`setAt` for a cell, a row and a column, `set`, `apply`,
  `map`, `transpose`, the triple-loop matrix product, entrywise `+`/`-`, scalar `*`, `+` and `-`
  broadcasts, and `maxRow`. The scalar is `real`, because the program instantiates its
  numeric protocol only with `Double`.
- **Batching and the network** (`batching.dfy`, `network.dfy`, `backprop.dfy`). It models `zip`
  and `makeBatch`, and the network's initialisation shapes. `feedForward` is modelled with
  sigmoid as a function parameter. It also models `getLoss` and `backpropagate`: the forward
  pass that records every weighted input and activation, then the backward pass.
- **The IDX byte format** (`nist.dfy`, module `Nist`). This covers `asInt8` and
  `asBigUInt32`, and `readLabels`/`readImages` as parsers over an in-memory byte sequence.
  It also covers the brightness bands of `asColorChar`, the 28 x 28 text layout of
  `Image.toString`, and the label vector `Int8.asVector`.

Where the program stops on an out-of-range access (a Swift trap), the model does one of two
things. For operations inside the program, it puts the exact condition in a `requires`, next
to `Valid` (the buffer holds rows * columns scalars, as every matrix the program builds does). For
the byte parsers, whose input comes from a file, it returns the error `Trap` instead.

Only these need a nonempty matrix: `init(_ values:)`, which reads `values[0][0]`;
`transpose()`, which seeds its result with `self.buffer[0]`; `maxRow(atCol:)`, which starts
from `getAt(0, column)`; and the operators that seed their result with cell (0, 0) (`map`, the
scalar operators, `+`, `-`, `*`). The
fill-value and generator initialisers accept zero rows or columns, so `Matrices.Fill` and
`Matrices.Generate` take any shape.

## Model

| member | source | states |
|---|---|---|
| Matrices.Fill | Sources/NIST/Matrix.swift:30-34 | the buffer holds rows * columns scalars and every cell (i, j) holds the fill value |
| Matrices.Generate | Sources/NIST/Matrix.swift:36-43 | the result is rows x columns and cell (i, j) is generator(i, j) for every in-range i, j |
| Matrices.FromRows | Sources/NIST/Matrix.swift:45-48 | nested rows give a rows.count x rows[0].count matrix with cell (i, j) = values[i][j]; it needs a first row with a first cell |
| Matrices.Set | Sources/NIST/Matrix.swift:50-52 | writing a cell keeps the shape, stores the value at its flat position and leaves every other buffer position unchanged |
| Matrices.SetGet | Sources/NIST/Matrix.swift:101-103 | reading back an in-range cell after a write gives the written value there and the old value at every other cell |
| Matrices.ApplyInPlace | Sources/NIST/Matrix.swift:54-60 | the in-place row-major pass (each cell read, then overwritten) leaves cell (i, j) = f(i, j, old cell) for every cell |
| Matrices.Map | Sources/NIST/Matrix.swift:62-71 | map returns a same-shaped matrix with cell (i, j) = f(i, j, old cell); the input must not be empty because the original seeds the result with cell (0, 0) |
| Matrices.SetRow | Sources/NIST/Matrix.swift:73-81 | values go to the flat positions from row * columns on, so values longer than a row spill into the next rows; when they fit, only cells (row, j < count) change |
| Matrices.SetColumn | Sources/NIST/Matrix.swift:83-91 | it needs only the last write's flat position to exist; values[i] lands at position i * columns + column for every i < values.count and every other position is unchanged; for column < columns that is cell (i, column) = values[i] with every other cell unchanged |
| Matrices.SetRows | Sources/NIST/Matrix.swift:93-99 | it needs every row at least as long as the first and the last write's flat position to exist; position i * columns + j holds values[i][j] for j < length of the first row when j < columns or i is the last row, and positions no row reaches are unchanged; for rows no wider than the matrix that is cell (i, j) = values[i][j] with all other cells unchanged |
| Matrices.Transpose | Sources/NIST/Matrix.swift:105-114 | transpose is columns x rows with cell (j, i) = cell (i, j) |
| Matrices.TransposeTwice | Sources/NIST/Matrix.swift:105-114 | transposing twice gives back the original matrix |
| MatrixOps.DotLoop | Sources/NIST/Matrix.swift:121-124 | the inner loop, with its sum starting at 0, computes the sum over k < lhs.columns of lhs(i, k) * rhs(k, j) |
| MatrixOps.Product | Sources/NIST/Matrix.swift:116-129 | lhs * rhs is lhs.rows x rhs.columns and cell (i, j) is the sum over k < lhs.columns of lhs(i, k) * rhs(k, j); it needs a nonempty lhs and, when rhs has columns, lhs.columns <= rhs.rows |
| MatrixOps.Multiply | Sources/NIST/Matrix.swift:116-129 | the triple loop gives exactly the lhs.rows x rhs.columns matrix whose cell (i, j) is that sum |
| MatrixOps.ProductIdentityRight | Sources/NIST/Matrix.swift:116-129 | multiplying by the identity on the right gives back the matrix |
| MatrixOps.ProductIdentityLeft | Sources/NIST/Matrix.swift:116-129 | multiplying by the identity on the left gives back the matrix |
| MatrixOps.ColumnVectorProduct | Sources/NIST/Matrix.swift:116-129 | the product of an n x 1 and an m x 1 column reads only rhs(0, 0): cell i is lhs(i, 0) * rhs(0, 0) |
| MatrixOps.Scale | Sources/NIST/Matrix.swift:131-140 | matrix * scalar keeps the shape and multiplies every cell by the scalar |
| MatrixOps.ScaleLeft | Sources/NIST/Matrix.swift:142-144 | scalar * matrix gives cell (i, j) = s * cell |
| MatrixOps.Add | Sources/NIST/Matrix.swift:146-154 | matrix + matrix has lhs's shape and cell (i, j) = lhs(i, j) + rhs(i, j), reading rhs through its own layout |
| MatrixOps.AddCommutes | Sources/NIST/Matrix.swift:146-154 | on matrices of one shape, a + b and b + a are the same matrix |
| MatrixOps.AddAssociates | Sources/NIST/Matrix.swift:146-154 | on matrices of one shape, (a + b) + c and a + (b + c) are the same matrix |
| MatrixOps.Sub | Sources/NIST/Matrix.swift:165-173 | matrix - matrix has lhs's shape and cell (i, j) = lhs(i, j) - rhs(i, j), reading rhs through its own layout |
| MatrixOps.SubUndoesAdd | Sources/NIST/Matrix.swift:146-173 | subtracting b from a + b gives back every cell of a |
| MatrixOps.AddScalar | Sources/NIST/Matrix.swift:156-159 | matrix + scalar adds the scalar to every cell |
| MatrixOps.ScalarAdd | Sources/NIST/Matrix.swift:161-163 | scalar + matrix adds the scalar to every cell |
| MatrixOps.SubScalar | Sources/NIST/Matrix.swift:175-178 | matrix - scalar subtracts the scalar from every cell |
| MatrixOps.ScalarSub | Sources/NIST/Matrix.swift:180-182 | scalar - matrix as written: every cell becomes cell - s |
| MatrixOps.ScalarMinus | Sources/NIST/Matrix.swift:180-182 | the intended s - M: every cell becomes s - cell |
| MatrixOps.ScalarSubWitness | Sources/NIST/Matrix.swift:180-182 | for s = 1 and the 1 x 1 zero matrix, the operator as written gives -1 where s - M is 1 |
| MatrixOps.ColumnProductIsNotHadamard | Sources/NIST/Matrix.swift:116-129 | for the columns [1, 1] and [1, 2] the product gives a different result from the cellwise product |
| MatrixOps.ScalarSubIsNegated | Sources/NIST/Matrix.swift:180-182 | what is computed for s - M is exactly -1 times the intended s - M |
| MatrixOps.MaxRow | Sources/NIST/Matrix.swift:184-196 | maxRow is a row below rows whose value is at least every value in the column, and every earlier row is strictly smaller |
| MatrixOps.MaxRowScan | Sources/NIST/Matrix.swift:184-196 | the scan with a strict > returns exactly that lowest row of the maximum |
| Batching.Zip | Sources/NIST/Network.swift:3-9 | zip has lhs.count pairs and pair i is (lhs[i], rhs[i]); rhs must be at least as long |
| Batching.UnzipZip | Sources/NIST/Network.swift:3-9 | the first components of zip are lhs and the second ones are the first lhs.count elements of rhs |
| Batching.LoopIsChunking | Sources/NIST/Network.swift:14-24 | for size >= 1 the element loop closes exactly the chunks of size elements of what is open and still to come |
| Batching.MakeBatch | Sources/NIST/Network.swift:11-27 | size >= 1 gives the chunks of the source; an empty source gives no batches; size 0 gives [[], source]; a negative size gives [source] |
| Batching.MakeBatchProperties | Sources/NIST/Network.swift:11-27 | for size >= 1 the batches concatenate to the source, each holds 1 to size elements, all but the last hold exactly size, and there are ceil(n / size) of them |
| Networks.DrawLayers | Sources/NIST/Network.swift:47-50 | after the layer loop, layer i has a sizes[i+1] x 1 bias and a sizes[i+1] x sizes[i] weight matrix whose cells are the values drawn for them |
| Networks.Init | Sources/NIST/Network.swift:37-51 | init gives weights.count == biases.count == sizes.count - 1 with the layer shapes above; it needs at least one size |
| Networks.FeedForward | Sources/NIST/Network.swift:53-67 | with at least one layer, feedForward returns a sizes.last x 1 column; with none it returns its input |
| Networks.FeedForwardZeroNetwork | Sources/NIST/Network.swift:53-67 | with all weights and biases zero, every output cell is sigmoid(0) whatever the input |
| Networks.Predict | Sources/NIST/Network.swift:69-71 | the predicted class is a row of the network's output whose column-0 value is at least every other row's, and every earlier row's value is strictly smaller (the lowest row of the maximum) |
| Networks.GetLoss | Sources/NIST/Network.swift:69-72 | getLoss is 0 for every input and every expected output |
| Networks.Misclassified | Sources/NIST/Network.swift:69-72 | the intended loss is 0 exactly when the predicted class is maxRow of the expected output, and 1 otherwise |
| Networks.GetLossMissesErrors | Sources/NIST/Network.swift:69-72 | whenever the prediction is wrong, getLoss still reports 0 while the intended loss is 1 |
| Backprop.ForwardFrom | Sources/NIST/Network.swift:123-134 | the recorded forward pass holds one activation more than there are weighted inputs, starting with the input; each is a column of its layer's size |
| Backprop.ForwardSteps | Sources/NIST/Network.swift:128-134 | each recorded z is weights[l] * a + biases[l] of the activation before it, and the next activation is sigmoid applied to every cell of z |
| Backprop.ForwardEndsOnFeedForward | Sources/NIST/Network.swift:123-134 | the last recorded activation is what feedForward returns |
| Backprop.ZeroGradients | Sources/NIST/Network.swift:117-120 | the gradients start with one zero matrix per bias and per weight matrix, each of that parameter's shape |
| Backprop.CostDerivative | Sources/NIST/Network.swift:162-164 | costDerivative is the output minus the expected output, cell by cell |
| Backprop.SigmoidPrime | Sources/NIST/Network.swift:174-178 | sigmoidPrime applied to every cell is sigmoid(x) * (1 - sigmoid(x)) there |
| Backprop.BackwardLoopRunsOnlyForThreeLayers | Sources/NIST/Network.swift:140-146 | the backward loop range exists and stays inside the weights exactly for three layers, and then it is empty |
| Backprop.OutputErrorAsWritten | Sources/NIST/Network.swift:136 | the output error as written is (out(r) - expected(r)) * sigmoidPrime(z(0)) in every row r |
| Backprop.WeightGradient | Sources/NIST/Network.swift:138 | delta * a.transpose() is the outer product: cell (r, c) = delta(r) * a(c) |
| Backprop.Backpropagate | Sources/NIST/Network.swift:113-149 | for a three-layer network the gradients have the parameters' shapes, the first layer's stay zero, and the top layer's are the output error as written and its outer product with the hidden activation |
| Backprop.DotTranspose | Sources/NIST/Network.swift:143 | row r of w.transpose() * d is the sum over m of w(m, r) * d(m) |
| Backprop.OutputError | Sources/NIST/Network.swift:136 | the intended output error is (out(r) - expected(r)) * sigmoidPrime(z(r)) in every row r |
| Backprop.HiddenError | Sources/NIST/Network.swift:143 | the intended hidden error is (sum over m of w(m, r) * above(m)) * sigmoidPrime(z(r)) in every row r |
| Backprop.LayerError | Sources/NIST/Network.swift:136-146 | the top layer's error is the output error; every lower layer's error is the hidden error carried back from the layer above |
| Backprop.BackpropagateCorrected | Sources/NIST/Network.swift:113-149 | for any network with a weight matrix, every layer's bias gradient is its error and its weight gradient is that error times its input activation transposed |
| Backprop.OutputErrorsAgree | Sources/NIST/Network.swift:136 | row r of the error as written equals the intended one exactly when out(r) = expected(r) or sigmoidPrime(z(0)) = sigmoidPrime(z(r)) |
| Backprop.FirstLayerGradientLost | Sources/NIST/Network.swift:140-146 | for three layers, the first bias gradient as written equals the intended one only when the intended one is zero |
| Nist.AsInt8 | Sources/NIST/NIST.swift:137-142 | asInt8 is nil exactly for empty data; otherwise it is the first byte, which must be at most 127 |
| Nist.AsBigUInt32 | Sources/NIST/NIST.swift:144-160 | asBigUInt32 is nil exactly for fewer than 4 bytes; otherwise it is below 2^32 |
| Nist.BigEndianRoundTrip | Sources/NIST/NIST.swift:144-160 | reading the 4 big-endian bytes of n gives n, whatever follows them |
| Nist.BigEndianOfRead | Sources/NIST/NIST.swift:144-160 | the big-endian bytes of the value read from 4 bytes are those 4 bytes |
| Nist.LabelsFrom | Sources/NIST/NIST.swift:65-69 | the label loop succeeds exactly when every remaining label byte exists and is at most 127, and label k is byte 8 + k |
| Nist.ReadLabels | Sources/NIST/NIST.swift:52-72 | InvalidHeader exactly when bytes 0..3 are not 0, 0, 8, 1; success exactly when the header is right, count labels follow and each is at most 127; label i is byte 8 + i |
| Nist.ReadEncodedLabels | Sources/NIST/NIST.swift:52-72 | reading an encoded labels file gives back its labels |
| Nist.ImagesFrom | Sources/NIST/NIST.swift:86-94 | the image loop succeeds exactly when the last image's bytes exist, and image k is the 784 bytes from 16 + k * 784 |
| Nist.ReadImages | Sources/NIST/NIST.swift:74-97 | InvalidHeader exactly when bytes 0..3 are not 0, 0, 8, 3; on success there are count images of 784 bytes and pixel j of image i is byte 16 + i * 784 + j |
| Nist.ReadEncodedImages | Sources/NIST/NIST.swift:74-97 | reading an encoded images file gives back its images |
| Nist.ColorChar | Sources/NIST/NIST.swift:100-123 | the character is the palette entry of the number of thresholds (20, 50, 100, 150, 200, 240) the byte is above |
| Nist.ColorCharMonotone | Sources/NIST/NIST.swift:100-123 | a smaller byte's character comes no later in the palette than a larger byte's (the bands are monotone) |
| Nist.TextFrom | Sources/NIST/NIST.swift:40-45 | the lines from row i on are 29 characters each, the pixel characters of their row followed by a newline |
| Nist.ImageText | Sources/NIST/NIST.swift:38-47 | toString is 28 lines; character j of line i renders pixel i * 28 + j and each line ends in a newline |
| Nist.LabelAsVector | Sources/NIST/NIST.swift:126-133 | asVector is 10 x 1, with 0.0 exactly in the label's row and 1.0 in every other row |
| Nist.OneHot | Sources/NIST/NIST.swift:126-133 | the intended vector is 10 x 1, with 1.0 exactly in the label's row and 0.0 elsewhere |
| Nist.LabelVectorIsInverted | Sources/NIST/NIST.swift:126-133 | every cell of asVector is 1 minus the intended cell |
| Nist.MaxRowOfLabelVectors | Sources/NIST/NIST.swift:126-133 | maxRow reads a digit back from the intended vector, but reads row 0 (row 1 for digit 0) from asVector |

## Left out

- File reading (`Data(contentsOf:)`) in `readLabels`/`readImages`: the parsers take the file's bytes as a sequence. The bytes are indexed from 0, as a freshly read `Data` is.
- `sigmoid`, `exp` and floating-point rounding: sigmoid is a parameter `sigmoid: real -> real`, and scalars are exact reals.
- `Double.random` in `init(layersSize:)`: the drawn values are the parameters `biasDraw`/`weightDraw`.
- `SGD(input:output:...)`, its `trainPack.shuffle()`, the mini-batch update `SGD(batch:eta:)` and `evaluate`: these are floating-point training and console output.
- `Image.asFloatArray` and `Image.asVector`: floating-point scaling by 1/255.
- `Matrix.description` and every `print`: console output.
- The `Algebraic` protocol: the scalar is `real`, with 0.0 as `sumDefault`.
- Swift `Int` overflow in index arithmetic (`row * columns + column`): integers are unbounded.
- Backprop.Backpropagate: requires exactly three layers. With two layers the range `2..<1` traps, and with four or more the first backward step reads `weights[numberOfLayers - 1]`, past the end (`BackwardLoopRunsOnlyForThreeLayers`). So the as-written line 143 never runs without a trap and is modelled only in its intended form.
- Backprop.BackpropagateCorrected: requires an input of exactly sizes[0] rows. The program accepts longer inputs, but then the first weight gradient would not have the weights' shape.
- MatrixOps.Hadamard is not an operator of the program. It is the cellwise product the intended backward pass uses.
- Matrices.Generate: the generator is asked to be defined only on the cells. The original also calls `generator(0, 0)` to seed the buffer, even for zero rows or columns, so a generator that stops at (0, 0) outside the cells is not modelled.
- Matrices.SetRows: the cell-by-cell form is stated only for rows no wider than the matrix. For wider rows the contract states the flat positions instead, which fixes every position of the result.
- Nist.ImageText: requires at least 784 bytes, because `toString` indexes `source[i*28+j]` up to 783 and traps below that.

## Findings

| source | as written | input that shows it | evidently intended | confidence | as-written member | corrected member |
|---|---|---|---|---|---|---|
| Sources/NIST/Matrix.swift:180-182 | scalar `-` matrix returns `rhs - lhs`, i.e. M - s | 1 - [[0]] gives [[-1]] | s - M, cell by cell | not executed | MatrixOps.ScalarSubWitness | MatrixOps.ScalarMinus |
| Sources/NIST/Network.swift:69-72 | getLoss compares `out.maxRow(atCol: 0)` with itself, so it is always 0 | any input whose predicted class differs from the expected one | 0 when the predicted class is the expected one, 1 otherwise | not executed | Networks.GetLossMissesErrors | Networks.Misclassified |
| Sources/NIST/NIST.swift:126-133 | asVector puts 0.0 in the label's row and 1.0 elsewhere | label 3 gives [1, 1, 1, 0, 1, ...], whose maxRow is 0 | one-hot: 1.0 in the label's row | not executed | Nist.MaxRowOfLabelVectors | Nist.OneHot |
| Sources/NIST/Network.swift:136 | the output error multiplies two columns with the matrix product, which reads only the first cell of sigmoidPrime(z) | costDerivative [1, 1] with sigmoidPrime(z) = [1, 2] gives [1, 1] instead of [1, 2] | the cellwise product | not executed | Backprop.OutputErrorsAgree | Backprop.OutputError |
| Sources/NIST/Network.swift:140-146 | the backward loop `(2..<numberOfLayers-1).reversed()` is empty for three layers and traps for every other count, so lower layers never get gradients | a three-layer network whose first-layer error is nonzero gets a zero first bias gradient | a backward pass over every lower layer with delta = (weights[l+1]^T delta) times sigmoidPrime(z), cell by cell, and weight gradient delta times that layer's input activation transposed (line 145 reads `activations[l - 1]`, one layer too low) | not executed | Backprop.FirstLayerGradientLost | Backprop.BackpropagateCorrected |
