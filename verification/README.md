# Swan: neuron network and MNIST helpers, modelled in Dafny

Swan is a small C neural-network library. This project models two parts of it.

- **The layered neuron network** (`src/Swan/SW_network.c`), in module `SwNetwork` (`network.dfy`) and module `SwLoss` (`loss.dfy`).
  - A network is a sequence of layers. Each layer has a neuron amount, an activation tag and its neurons.
  - Each neuron of layer i ≥ 1 holds one weight and one bias per neuron of layer i − 1, plus an output.
  - Layer 0 is a bare input layer.
  - Networks are immutable values. Every operation returns the network the C code would leave behind.
  - The operations are init, add-layer, set-input, the forward pass (`SW_ExucuteNetwork`), randomisation and loss evaluation.
- **The IDX/MNIST helpers** (`src/Swan/SW_parse.c`), in module `SwParse` (`parse.dfy`).
  - `reverse32` is modelled on `bv32`.
  - Header words are decoded by `fread` plus `reverse32`.
  - The label and image magic checks accept either byte order.
  - `SW_printMNISTImage` renders an image as ASCII art into a fixed-size stack buffer.

Modelling choices:

- Values are Dafny `real`s. ReLU is exact.
- `expf`, `tanh` and `logf` are fields of a `MathLib` parameter. Nothing is assumed about them, except that `exp` is never negative. That keeps `1 + exp(-x)` from being zero.
- `rand()` is a parameter `rng: nat -> RandDraw`, where `rng(t)` is what call number `t` returns. A draw lies in `[0, RAND_MAX]`.
- `RAND_MAX` is glibc's value, `0x7FFFFFFF`.
- Weight and bias draws interleave. Connection k of neuron j of layer i takes draws `t + 2·(width·j + k)` and the one after it.
- The C code leaves the input layer's neurons uninitialised. It never reads their weights or biases, and it reads their outputs only when the forward pass runs before any input is set, or when the loss of a one-layer network is evaluated with a null input. The model gives each such neuron empty weight and bias sequences and a zero output.
- A null `input` pointer is `None`.
- Aborts become `Result.Failure` values (`LabelsCorrupted`, `ImagesCorrupted`, `BufferOverflow`).
- The brightness bucket `round(p / 255.0 * 10)` is computed on integers as `(20p + 255) / 510`. `BucketNearest` proves that this is the nearest integer to 10p/255. It also proves that 10p/255 is never a .5 tie, so the rounding mode does not matter.
- The stack buffer of `SW_printMNISTImage` is modelled by the text written so far. Its length is the C code's write index.
- The renderer's `int32_t` dimensions meet the `uint32_t` loop counters, so C converts them to `uint32_t` (`ToUint32`, reduction modulo 2^32). The buffer length is converted the same way (`BufferLength`).
- Row offsets are written with `Times(a, b)`, which is a·b computed by repeated addition (`TimesIsMul`). This keeps the layout proofs linear.

The C code differs from the textbook formulation of such a network in these ways:

- The code keeps per-neuron weight arrays and one bias per connection. It does not use weight and bias matrices, and it adds each bias once per incoming connection (`PartialInputSplit`, `UniformBias`).
- The forward pass refuses any network of two layers or fewer, not only an empty one.
- A zero-sized layer is reported and ignored. The process does not abort.
- Randomisation only touches layers 1 and up.
- Cross-entropy replaces a target below 1e-6 by 1e-4. It does not clamp every target to at least 1e-4.

The matrix module (`SW_matrix`) is not part of this model.

## Model

| member | source | states |
|---|---|---|
| SwNetwork.Init | src/Swan/SW_network.c:11-15 | a fresh network has no layers and satisfies the shape invariant |
| SwNetwork.AddLayer | src/Swan/SW_network.c:17-58 | a zero neuron amount leaves the network unchanged. Otherwise exactly one layer is appended with the given amount and activation, earlier layers are untouched, every new neuron is a zero neuron with one weight and one bias per neuron of the previous layer, and the shape invariant is preserved |
| SwNetwork.AddLayerZeroed | src/Swan/SW_network.c:43-57 | every weight, bias and output of the appended layer is zero |
| SwNetwork.BuildShape | src/Swan/SW_network.c:17-57 | init followed by any sequence of add-layer calls gives a well-formed network (`BuiltFrom`). It has one layer per positive request, in request order, with the requested amount and activation and all parameters zero |
| SwNetwork.AddAccepted | src/Swan/SW_network.c:36-57 | one add-layer call with a positive amount extends such a network by exactly the requested layer and keeps the layers before it |
| SwNetwork.SetInput | src/Swan/SW_network.c:93-109 | an empty network or a null input changes nothing. Otherwise only the input layer's outputs change, and they become `input[0..n0)` |
| SwNetwork.PartialInputSplit | src/Swan/SW_network.c:127-130 | a neuron's input is the weighted sum of the previous outputs plus the sum of its per-connection biases |
| SwNetwork.UniformBias | src/Swan/SW_network.c:127-130 | with equal biases b, the bias enters the input once per incoming connection (k·b), not once per neuron |
| SwNetwork.PreActivationExample | src/Swan/SW_network.c:127-130 | concrete case: outputs (1, −1), weights (1, 0), biases 0.5 each give input 2 |
| SwNetwork.Activate | src/Swan/SW_network.c:133-158 | ReLU yields x when x ≥ 0 and otherwise 0, so never a negative value. Softmax keeps the neuron's previous output. An unrecognised tag stores x unchanged |
| SwNetwork.ForwardFrom | src/Swan/SW_network.c:120-160 | recomputing from layer i on keeps the layers below i and all weights and biases, and each layer l ≥ i is recomputed from the already recomputed layer l − 1 |
| SwNetwork.Execute | src/Swan/SW_network.c:111-161 | networks of at most two layers are unchanged. Otherwise the input layer, all weights and biases and the shape are kept, and layers are updated in increasing order from their already updated predecessor |
| SwNetwork.ExecuteNeuron | src/Swan/SW_network.c:125-158 | after the forward pass, neuron j of layer i holds its activation applied to Σ_k (new output of neuron k of layer i−1 · w[k] + b[k]) |
| SwNetwork.ExecuteReluNonNegative | src/Swan/SW_network.c:135-140 | every recomputed ReLU neuron's output is ≥ 0 |
| SwNetwork.ExecuteSoftmaxKeeps | src/Swan/SW_network.c:142-144 | a Softmax layer's neurons are left exactly as they were |
| SwNetwork.ExecuteLoops | src/Swan/SW_network.c:111-161 | the three nested loops of the C code compute the same network as `Execute` |
| SwNetwork.LayerLoop | src/Swan/SW_network.c:125-159 | the loop over one layer's neurons produces the recomputed layer |
| SwNetwork.NeuronInputLoop | src/Swan/SW_network.c:127-130 | the accumulation loop over incoming connections computes the neuron's pre-activation |
| SwNetwork.Scale | src/Swan/SW_network.c:88-89 | `rand()/RAND_MAX*2−1` lies in [−1, 1]. Draw 0 gives −1 and draw RAND_MAX gives 1 |
| SwNetwork.RandomizeNeuron | src/Swan/SW_network.c:86-90 | a neuron randomised from draw t keeps its output and gets `width` weights and biases. Weight k is `Scale(rng(t + 2k))` and bias k is `Scale(rng(t + 2k + 1))`, both in [−1, 1] |
| SwNetwork.RandomizeLayer | src/Swan/SW_network.c:85-90 | a randomised layer keeps its shape, amount, activation and outputs, and every weight and bias lies in [−1, 1]. Weight k of neuron j is draw `t + 2·width·j + 2k`, and its bias is the draw after it |
| SwNetwork.DrawsBeforeNext | src/Swan/SW_network.c:84-89 | layers are randomised one after the other: layer l + 1 starts 2·(amount of l)·(amount of l − 1) draws after layer l |
| SwNetwork.RandomizeFrom | src/Swan/SW_network.c:84-90 | randomising from layer i and draw t keeps the layers below i, and the amounts, activations and outputs of all layers. Each layer l ≥ i equals `RandomizeLayer` of the original layer l, with width = amount of layer l − 1, started at draw t + `DrawsBefore(i, l)` (the draws layers i .. l − 1 consumed) |
| SwNetwork.RandomizedShaped | src/Swan/SW_network.c:79-91 | randomising every layer from 1 on keeps the shape invariant and puts every weight and bias in [−1, 1] |
| SwNetwork.Randomize | src/Swan/SW_network.c:79-91 | randomisation leaves the input layer untouched and keeps the shape invariant and every layer's amount, activation and outputs. Each layer l ≥ 1 is `RandomizeLayer` of the original layer l started at draw `DrawsBefore(1, l)`, so its values are exactly the draws the C loops consume in order, scaled to [−1, 1] |
| SwLoss.LogArgument | src/Swan/SW_network.c:179-182 | the log argument is the target when the target is ≥ 1e-6, and 1e-4 otherwise, so it is always positive |
| SwLoss.CrossEntropyZeroOutputs | src/Swan/SW_network.c:174-183 | the cross-entropy weighs each log term by the predicted output, so it is 0 whenever all predicted outputs are 0 |
| SwLoss.CrossEntropyClampedTargets | src/Swan/SW_network.c:177-182 | the cross-entropy depends on the targets only through the clamped log argument |
| SwLoss.SquaredErrorSumZero | src/Swan/SW_network.c:185-189 | the sum of squared errors is ≥ 0, and it is 0 exactly when every output equals its target |
| SwLoss.MeanSquaredErrorOf | src/Swan/SW_network.c:185-192 | the MSE is ≥ 0, and it is 0 if and only if the outputs equal the targets |
| SwLoss.MeanSquaredErrorExamples | src/Swan/SW_network.c:185-192 | MSE([1,0],[1,0]) = 0 and MSE([0,0],[1,1]) = 1 |
| SwLoss.Score | src/Swan/SW_network.c:172-200 | cross-entropy is the clamped-log sum over the outputs. MSE is the sum of squared errors divided by the output count; it is ≥ 0, and 0 exactly when every output equals its target. An unrecognised loss tag scores 0 |
| SwLoss.Run | src/Swan/SW_network.c:165-168 | setting the input and then running the forward pass keeps the network shape-invariant with the same number of layers, and its last layer still yields one output per neuron, at least one |
| SwLoss.LastOutputs | src/Swan/SW_network.c:168 | the scored values are the outputs of the last layer; in a shape-invariant network there is one per neuron of that layer, at least one |
| SwLoss.LastLayerKept | src/Swan/SW_network.c:165-168 | layer lists with the same parameters have the same length and end in layers of the same width, so the last layer read after the forward pass is as wide as before |
| SwLoss.CalculateLoss | src/Swan/SW_network.c:163-201 | the network left behind is `Run` (the forward pass after setting the input), and the loss is `Score` of its `LastOutputs` (one per neuron of the last layer) against the targets |
| SwParse.Reverse32 | src/Swan/SW_parse.c:12-15 | byte i of the result is byte 3 − i of the input, for i in 0..3 |
| SwParse.Reverse32Involution | src/Swan/SW_parse.c:12-15 | swapping twice gives the word back |
| SwParse.BigEndianWord | src/Swan/SW_parse.c:18-24 | the most significant byte of the header word is the first file byte, and so on down to the last |
| SwParse.ReadHeaderWordValue | src/Swan/SW_parse.c:18-24 | on a little-endian host, `freadReverse32` yields the big-endian value of the four file bytes. On a big-endian host it yields their little-endian value |
| SwParse.LabelMagicSwapClosed | src/Swan/SW_parse.c:88 | the accepted label magics are 2049 and `reverse32(2049)` = 17301504, so the accepted set is closed under `reverse32` |
| SwParse.ImageMagicSwapClosed | src/Swan/SW_parse.c:121 | the accepted image magics are 2051 and `reverse32(2051)` = 50855936, so the accepted set is closed under `reverse32` |
| SwParse.MagicBytes | src/Swan/SW_parse.c:83-92 | on either host, the decoded header is an accepted label (image) magic exactly when the file bytes are 00 00 08 01 or 01 08 00 00 (00 00 08 03 or 03 08 00 00) |
| SwParse.CheckLabelHeader | src/Swan/SW_parse.c:83-92 | the label-file check succeeds exactly for file bytes 00 00 08 01 or 01 08 00 00 and otherwise fails with `LabelsCorrupted` |
| SwParse.CheckImageHeader | src/Swan/SW_parse.c:114-125 | the image-file check succeeds exactly for file bytes 00 00 08 03 or 03 08 00 00 and otherwise fails with `ImagesCorrupted` |
| SwParse.PackUnpack | src/Swan/SW_parse.c:18-24 | splitting any word into its four bytes and reading them back big-endian gives the word back |
| SwParse.BucketNearest | src/Swan/SW_parse.c:40 | the integer bucket is strictly within 1/2 of 10p/255, so it is the nearest integer and there is no tie |
| SwParse.Lightness | src/Swan/SW_parse.c:40-42 | the level always indexes the 10-entry table |
| SwParse.LightnessCap | src/Swan/SW_parse.c:40-42 | the level equals the bucket, except that bucket 10 is capped to 9. Pixel 0 gives level 0 and pixel 255 gives level 9 |
| SwParse.LightnessMonotone | src/Swan/SW_parse.c:40-42 | a brighter pixel never gets a darker level |
| SwParse.LightCharTable | src/Swan/SW_parse.c:25-44 | every pixel character comes from the brightness table. Pixel 0 renders as ' ' and pixel 255 as '@' |
| SwParse.RenderLength | src/Swan/SW_parse.c:34-51 | the rendering has `Times(rows, columns + 1)` = rows·(columns+1) characters |
| SwParse.RenderAt | src/Swan/SW_parse.c:34-51 | the rendering has rows·(columns+1) characters. Row i starts at i·(columns+1); its column j < columns holds the character of pixel i·columns + j, and its column `columns` holds '\n' |
| SwParse.RenderCell | src/Swan/SW_parse.c:34-51 | the same character-by-character layout with `Times` offsets, by induction on the number of rows |
| SwParse.RenderAlphabet | src/Swan/SW_parse.c:36-51 | every rendered character is a brightness character or a newline |
| SwParse.PrintImage | src/Swan/SW_parse.c:29-54 | the dimensions are converted to `uint32_t` and the buffer length is `rows*columns+rows+8` converted to `uint32_t`. The renderer aborts with `BufferOverflow` exactly when rows·(columns+1) reaches the buffer length; otherwise the text is the rendering followed by a NUL and fits the buffer |
| SwParse.WriteRows | src/Swan/SW_parse.c:34-53 | the two loops succeed exactly when `Times(rows, columns + 1)` is below the buffer length, and then produce the rendering plus a NUL within the buffer; otherwise they abort with `BufferOverflow` |
| SwParse.WriteRow | src/Swan/SW_parse.c:38-50 | one pass of the outer loop succeeds exactly when the text so far, the row and its newline leave the write index below the buffer length. It then appends the row's characters and a newline; otherwise it aborts with `BufferOverflow` |
| SwParse.PrintImageFits | src/Swan/SW_parse.c:29-36 | with non-negative dimensions and no signed overflow, the conversions change nothing and the rendering plus its NUL always fits, so the abort never fires |
| SwParse.NegativeRowsWrap | src/Swan/SW_parse.c:31-50 | rows = −100 and columns = 0 give a buffer length of 2^32 − 92 and a row bound of 2^32 − 100, so no abort fires and the renderer succeeds |
| SwParse.NegativeRowsOverflow | src/Swan/SW_parse.c:31-50 | rows = −1 and columns = 0 give a 7-character buffer and a row bound of 2^32 − 1, so the abort fires |

## Left out

- `SW_UnloadNetwork` (`src/Swan/SW_network.c:60-77`): it only frees memory, and the model's networks are values.
- Allocation failure (`realloc` returning NULL, line 27-31): this is memory management, and the model does not fail to allocate.
- `SW_TrainGradientDescent` (`src/Swan/SW_network.c:203-226`): it never updates a parameter, and its loop need not terminate. Nor is its early return for networks of at most two layers modelled.
- Stderr diagnostics (`fputs` to stderr) and `printf` debug output are not modelled. The model only keeps their control flow: return unchanged, or `Failure`.
- `srand(time(NULL))` is not modelled. The clock seed is folded into the `rng` parameter.
- Float semantics are not modelled: rounding, overflow, `inf`/`NaN`, and the float constants `0.000001f` and `0.0001f` taken as exact reals. So there are no numeric bounds for Sigmoid or Tanh.
- The file I/O of `SW_parseMNIST` (`fopen`, `fread`, `realloc`, `fclose`, short reads) is not modelled. Only the header-word decoding and the four magic checks are, as `CheckLabelHeader` for lines 88 and 152 and `CheckImageHeader` for lines 121 and 185.
- The `(int32_t)` cast of the decoded magic is not modelled. It cannot change the comparison, since all four accepted values are below 2^31.
- The item counts, rows and columns read after the magic are not modelled. They are plain `freadReverse32` results, covered by `ReadHeaderWordValue`.
- `SW_MNISTImageToMatrix` (`src/Swan/SW_parse.c:216-220`): it depends on the matrix module, which is not part of this model, and it returns no value.
- `src/main.c` is not modelled. It is the process entry point, and its `reverse32` and `printImageFromPointer` are copies of the code above; the copied renderer has no overflow check.
- SwParse.PrintImage: requires `rows*columns`, `rows*columns+rows` and `rows*columns+rows+8` to stay within `int32_t`, because a signed overflow there is undefined behaviour. It requires a non-zero buffer length, because a zero-length array is undefined behaviour. It requires enough pixels for every read before the rows run out or the abort fires: either `rows·columns` of them (after the `uint32_t` conversion) or at least the buffer length. Negative dimensions are modelled: they become large `uint32_t` loop bounds. When the converted buffer length is small, as for rows −7 to −1 with no columns, the abort fires (`NegativeRowsOverflow`). When `rows*columns+rows+8` is negative, the buffer length wraps to nearly 2^32 and can exceed what the loops write, so they finish without aborting (`NegativeRowsWrap`); only the stack limit below then stops them.
- A buffer too large for the stack is platform behaviour and is not modelled.
- The `fputs` to stdout at the end of the renderer is not modelled. The result is the buffer up to and including the NUL.
- SwLoss.Run: requires at least one layer, a shape-invariant network and enough input values, for the same reasons as `SwLoss.CalculateLoss` below, which it serves.
- SwLoss.CalculateLoss: requires at least one layer (the C code indexes `layers[-1]` otherwise), a shape-invariant network, and enough input values, because the C code reads that array without a length. It also requires enough target values for the cross-entropy and mean-squared-error branches, which read `correctOutput` without a length; the branch for an unrecognised loss tag reads no target and needs none.
- SwNetwork.SetInput, SwNetwork.Execute, SwNetwork.Randomize: these require the shape invariant. Every network built by `Init` and `AddLayer` satisfies it (`BuildShape`), and the C code indexes its arrays assuming it.
- SwNetwork.SetInput: also requires a non-null input to hold at least as many values as the input layer has neurons. The C code reads `input[i]` for every input neuron without knowing the array's length.
- SwNetwork.AddLayer: for the first layer the C code sets only the amount and the activation; its neurons' weights, biases and outputs are never initialised. The model's empty weight and bias sequences and zero output for that layer are a modelling choice, not a promise of the C code. Its claims about zero parameters and zero outputs are what the C code promises for layers 1 and up.
- SwNetwork.AddLayerZeroed: the zero outputs it states for the first layer are the same modelling choice; the C code leaves them uninitialised.
- SwNetwork.BuildShape: likewise, the zero outputs of layer 0 of a built network are a modelling choice.
- Neuron amounts are unbounded naturals. A 32-bit `unsigned int` wrap-around of `neuronAmount` is not modelled.
