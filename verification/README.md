# webgpu-blur, modelled in Dafny

A model of the sequential core of `webgpu-blur`, a small WebGPU library. The library implements a Gaussian blur in two ways. One is a direct 2-D kernel. The other is a separable pipeline of two 1-D passes through a cached working texture. The model covers:

- **Readback layout** (`math_utils.dfy`, `slice_matrix.dfy`, `read_texture.dfy`)
  - `pad` rounds a row up to the 256-byte alignment that texture-to-buffer copies need.
  - `sliceMatrix` checks a padded byte buffer, then copies the first `targetBytesPerRow` bytes of every row at the new stride.
  - `readTextureData` combines the two.
  - `formatMatrix`, with the whitespace trimming it ends with, renders a flat texel array as text.
- **`range`** (`range.dfy`): the integer range generator, with its one-argument form, the zero-step error and both step directions.
- **Format registry** (`texture_metadata.dfy`)
  - The six entries of `TEXTURE_FORMAT_INFO`, looked up as an `Option`.
  - The shader-template helpers `castToFloat` and `channelMask`.
- **`AsyncProcessHandler`** (`coalescer.dfy`): the single-flight, latest-wins executor, as a state machine. Latest-wins is proved for the handler as written and for the corrected one; single-flight holds only for the corrected one (see Findings).
  - The state is `pendingParams` (an `Option`), `isProcessing`, the suspended `request()` calls and an event log.
  - Every `await` is a step boundary.
  - A schedule (a sequence of `Action`s) picks among the enabled steps: a new request, completion or failure of the `process` in flight, or the resumption of a drain loop.
- **Blur pipelines, host side** (`blur_host.dfy`)
  - Output validation and allocation.
  - The working-texture cache and its resize rule.
  - The passes each `blur` records and their `Int32Array` uniform payloads.
  - The create/destroy life cycle of both pipelines.
  - The GPU is an abstract store of live resources plus a log of passes. Each pass records whether every resource it used was alive.
- **Blur pipelines, kernel math** (`blur_kernel.dfy`): the WGSL fragment shaders, computed over `real`.
  - The kernels are stated for any positive weights first. The Gaussian weights then instantiate them.
  - `exp` is a parameter `q` standing for `x ↦ exp(-x)`. It has two stated assumptions: it is positive on the window, and it obeys `exp(-(a+b)) = exp(-a)·exp(-b)` (`ExpLaw`).
  - The model proves the following:
    - the `norm` factor cancels;
    - every output is a convex combination of the texels it reads;
    - a constant window is left unchanged;
    - on interior texels, the separable pipeline produces the direct pipeline's value.

`wrappers.dfy` holds `Option`, `Result` and `Max`.

Where the code and its documentation disagree, the model follows the code:

- **`formatMatrix`.** Its doc comment shows lines without trailing separators. The code appends the separator and a line feed after every row and trims only the ends of the whole text, so every line but the last keeps its trailing separator (`MathUtils.FormatMatrixExample`).
- **`AsyncProcessHandler`.** Its doc comment says the latest parameters are always processed. After a failed `process`, the code rethrows out of the drain loop, so a value written during the failed run may stay pending until the next `request` (`Coalescer.Step`, `Coalescer.LastRunFailed`). It is taken without a new request only when another drain loop is still waiting to re-check its `while` condition (`Coalescer.FailedRunValueTaken`).

## Model

| member | source | states |
|---|---|---|
| MathUtils.CeilDiv | src/utils/math.ts:17 | `Math.ceil(v / m)` over integers: the unique q with (q-1)·m < v ≤ q·m for m > 0, and the mirrored bounds for m < 0 |
| MathUtils.Pad | src/utils/math.ts:16-18 | the result is a multiple of m; for m > 0 it lies in [v, v+m); for m < 0 it lies in (v+m, v] |
| MathUtils.PadIsLeastMultiple | src/utils/math.ts:3-8 | for m > 0, no multiple of m that is at least v lies below pad(v, m): it is the smallest such multiple |
| MathUtils.PadFixedIff | src/utils/math.ts:16-18 | for m > 0, pad(v, m) == v exactly when m divides v |
| MathUtils.PadIdempotent | src/utils/math.ts:16-18 | padding twice is padding once |
| MathUtils.PadExamples | test/node/utils/math.spec.ts:4-43 | the doc comment's pad(7, 3) = 9 and all thirteen integer expectations of the tests, among them pad(0, 5) = 0, pad(-7, 5) = -5, pad(10, 3) = 12 and pad(1000001, 1000) = 1001000; the two fractional inputs are left out |
| MathUtils.TrimStart | src/utils/math.ts:60 | the result is a suffix of s, everything dropped is whitespace, and the result does not start with whitespace |
| MathUtils.TrimEnd | src/utils/math.ts:60 | the result is a prefix of s, everything dropped is whitespace, and the result does not end with whitespace |
| MathUtils.Trim | src/utils/math.ts:60 | `trim()` leaves neither end of the text as whitespace |
| MathUtils.TrimCutsOnlyWhitespace | src/utils/math.ts:60 | s is (leading whitespace) + trim(s) + (trailing whitespace): trim removes only whitespace, only at the ends |
| MathUtils.TrimUnique | src/utils/math.ts:60 | wrapping a trimmed text in whitespace on both sides and trimming gives it back |
| MathUtils.TrimIdempotent | src/utils/math.ts:60 | trimming twice is trimming once |
| MathUtils.JoinAvoids | src/utils/math.ts:57 | `join` introduces no character that is in neither the cells nor the separator |
| MathUtils.RowLineLineFeeds | src/utils/math.ts:57 | a rendered row holds exactly one line feed when the cells and the separator hold none |
| MathUtils.LinesLineFeedCount | src/utils/math.ts:55-58 | the text of n rows holds exactly n line feeds: one matrix row per line |
| MathUtils.FormatMatrix | src/utils/math.ts:50-61 | fails exactly when the length is not channelCount·rows·cols, with that error; otherwise the text is trimmed, is empty for rows ≤ 0, and is otherwise rows lines of cols·channelCount cells each |
| MathUtils.SplitRenderedLines | src/utils/math.ts:55-58 | read back at its line feeds, the text of n rows has exactly n lines, and line i is cells [i·k, (i+1)·k) joined by the separator and followed by it |
| MathUtils.FormatMatrixLines | src/utils/math.ts:50-61 | for cells and a separator without line feeds, the output is the trimmed text of exactly rows lines, line i holding cells [i·k, (i+1)·k) in order, each followed by the separator, for k = cols·channelCount |
| MathUtils.FormatMatrixExample | src/utils/math.ts:33-41 | the documented 2×2 example, with the default separator, renders as "1, 2, \n3, 4,": each row keeps its trailing separator |
| SliceMatrix.SliceRows | src/utils/slice_matrix.ts:56-79 | the output holds height·target bytes, and row r of the output is the first target bytes of source row r |
| SliceMatrix.SliceMatrix | src/utils/slice_matrix.ts:27-82 | the four checks run in the order empty, positive, divisible, target ≤ row, and the first that fails decides the error; it succeeds exactly when all pass; the output has (len / bytesPerRow)·target bytes and copies every row's prefix |
| SliceMatrix.SliceByte | src/utils/slice_matrix.ts:66-79 | out[row·target + k] == in[row·bytesPerRow + k] for every row and every k < target |
| SliceMatrix.RowCopiedByte | src/utils/slice_matrix.ts:78 | one copied row, read byte by byte at both strides |
| SliceMatrix.RowsDetermine | src/utils/slice_matrix.ts:66-79 | two buffers of whole rows that agree row by row are equal |
| SliceMatrix.SliceFullRowsIsIdentity | test/node/utils/slice_matrix.spec.ts:26-31 | with target == bytesPerRow the output is byte-identical to the input |
| Range.CeilDivShift | src/utils/range.ts:41 | one step fewer to go is one element fewer: ceil((v-m)/m) = ceil(v/m) - 1 |
| Range.Progression | src/utils/range.ts:40-48 | element k is start + k·step; every element lies strictly before end in the step's direction; there are max(0, ceil((end - start) / step)) of them |
| Range.PrependStep | src/utils/range.ts:41-42 | pushing start in front of the progression from start + step gives the progression from start |
| Range.Range | src/utils/range.ts:25-51 | fails exactly for step 0; the check runs after the one-argument form is normalised; otherwise the result is the progression between the normalised bounds |
| Range.OneArgumentForm | src/utils/range.ts:27-30 | range(n) equals range(0, n, 1) |
| Range.EmptyIff | src/utils/range.ts:40-47 | the result is empty exactly when start has reached end or the step points away from it; a non-empty result starts with start |
| Range.Consecutive | src/utils/range.ts:40-47 | neighbouring elements differ by exactly step, so the result strictly increases or strictly decreases |
| Range.Membership | src/utils/range.ts:40-47 | x is an element exactly when it lies between start (inclusive) and end (exclusive) and is a whole number of steps from start |
| Range.Examples | test/node/utils/range.spec.ts:6-60 | the doc comment's examples and every integer call of the tests: the twelve exact results, all five empty ones included, the zero-step error, and range(0, 1000, 100) having 10 elements from 0 to 900; the fractional step is left out |
| TextureMetadata.Lookup | src/webgpu/texture_metadata.ts:36-85 | a format is found exactly when it is one of the six supported; every entry found is well formed: bytesPerTexel = channelsCount × per-channel width, the texel type's width is channelsCount and its component is sampleType, the sampler type is 'float' exactly for f32 and 'uint' exactly for u32 |
| TextureMetadata.ExactlySixFormats | src/webgpu/texture_metadata.ts:36-85 | the table has exactly six keys |
| TextureMetadata.ChannelWidths | src/webgpu/texture_metadata.ts:37-84 | the four `8` formats store one byte per channel; the two `32` formats store four |
| TextureMetadata.CastToFloat | src/webgpu/texture_metadata.ts:87-102 | the result has the same vector width and a float component, and float types are left unchanged |
| TextureMetadata.CastToFloatIdempotent | src/webgpu/texture_metadata.ts:87-102 | casting twice is casting once |
| TextureMetadata.ChannelMask | src/webgpu/texture_metadata.ts:104-111 | the mask has n letters and is the length-n prefix of "rgba" |
| ReadTexture.BytesPerRow | src/webgpu/read_texture.ts:31-33 | the row stride is a multiple of 256 in [bytesPerTexel·width, bytesPerTexel·width + 256), and no smaller multiple of 256 holds a row |
| ReadTexture.PaddedIff | src/webgpu/read_texture.ts:61 | the slicing branch is taken exactly when an unpadded row is not a multiple of 256 bytes |
| ReadTexture.SliceCallAccepted | src/webgpu/read_texture.ts:61-68 | for width, height and bytesPerTexel ≥ 1, the `sliceMatrix` call passes all four of its checks, and the staging size divided by the stride is the height |
| ReadTexture.WholeRowsCopied | src/webgpu/read_texture.ts:71 | a buffer of whole rows read at its own stride gives back every row unchanged |
| ReadTexture.ReadTextureData | src/webgpu/read_texture.ts:31-71 | readback fails, with the empty-matrix error, exactly when the height is 0 and rows need padding; otherwise the result has bytesPerTexel·width·height bytes and row r is the unpadded prefix of staging row r, and without padding it is the mapped range unchanged |
| ReadTexture.TexelBytes | src/webgpu/read_texture.ts:61-71 | byte b of texel (r, c) comes from staging offset r·bytesPerRow + c·bytesPerTexel + b |
| ReadTexture.ReadTextureRoundTrip | src/webgpu/read_texture.ts:48-71 | if the staging buffer holds the texture's rows at the padded stride, whatever the padding bytes are, a successful readback returns exactly the texture's bytes |
| Coalescer.StepAsWritten | src/async_process_handler.ts:56-88 | the handler as written: a request is always accepted; a resumed drain loop that finds a value pending starts processing it, whether or not another process is in flight; a loop exits only when nothing is pending; completion and failure both reset isProcessing |
| Coalescer.Step | src/async_process_handler.ts:56-88 | a step is taken exactly when it is enabled; a request always writes its value, and while processing returns at once (logging the request and its return), otherwise starts processing it; completion and failure both reset isProcessing and leave the pending value alone; completion reports that call's result once; failure calls onError with that call's parameters, ends its drain loop and rejects its request(); a loop that exits leaves nothing pending unless a process is running |
| Coalescer.OutstandingIsLastRequest | src/async_process_handler.ts:57 | the value a process call would take now was written by a request with no other request and no start after it |
| Coalescer.StartTakesLatest | src/async_process_handler.ts:77-78 | only the last value written is taken: every process call receives the value of a request with no other request and no other start between the two |
| Coalescer.LatestWinsAppend | src/async_process_handler.ts:77-78 | appending an event keeps "every start took the latest value" when a start takes the outstanding value |
| Coalescer.InitInv | src/async_process_handler.ts:41-42 | the freshly constructed handler satisfies the invariant |
| Coalescer.RequestKeepsInv | src/async_process_handler.ts:56-68 | a request keeps the invariant |
| Coalescer.ResumeKeepsInv | src/async_process_handler.ts:65-67 | the resumption of a drain loop keeps the invariant |
| Coalescer.CompleteKeepsInv | src/async_process_handler.ts:80-87 | a successful completion keeps the invariant |
| Coalescer.FailKeepsInv | src/async_process_handler.ts:82-87 | a failure keeps the invariant |
| Coalescer.StepKeepsInv | src/async_process_handler.ts:56-88 | every step keeps the invariant: no two process calls overlap, isProcessing holds exactly while one is in flight, hasPending reports the last value written since the last start, every start took the latest value, and a pending value always has a loop to take it unless the last run failed |
| Coalescer.RunKeepsInv | src/async_process_handler.ts:56-102 | the invariant holds after any schedule |
| Coalescer.Reachable | src/async_process_handler.ts:8-14 | in every state reached from construction, process calls never overlap, isActive() is true exactly while one is in flight, and every call took the latest value |
| Coalescer.AsWrittenOverlaps | src/async_process_handler.ts:65-67 | as written, a concrete schedule leads to two process calls in flight at once |
| Coalescer.CorrectedDrainsLatest | src/async_process_handler.ts:65-67 | the corrected handler on the same schedule leaves the newest value to the running loop, which takes it after the current run |
| Coalescer.StepAsWrittenKeeps | src/async_process_handler.ts:56-88 | every step of the handler as written keeps pendingParams equal to the last value requested since the last start, and every process call takes the latest value |
| Coalescer.RunAsWrittenKeeps | src/async_process_handler.ts:56-88 | the same holds after any schedule of steps of the handler as written |
| Coalescer.ReachableAsWritten | src/async_process_handler.ts:9-14 | only the last value written is taken, by the handler as written, in every state reached from construction; hasPending() reports that value |
| Coalescer.FailedRunValueTaken | src/async_process_handler.ts:65-67 | a value written during a failed run is taken with no new request when another drain loop is waiting to re-check its condition |
| BlurHost.NewTexture | src/filter/gauss_blur_2d.ts:84-91 | a created texture is new and live, with the requested size and format; nothing else changes |
| BlurHost.NewBuffer | src/filter/gauss_blur_2d.ts:14-17 | a created buffer is new and live, with the requested byte size |
| BlurHost.Destroy | src/filter/gauss_blur_2d.ts:131 | destroying removes exactly that resource from the live set |
| BlurHost.Render | src/filter/gauss_blur_2d.ts:94-124 | a pass appends one entry to the log with its source, target, uniform and payload; the pass is valid exactly when all three resources are live |
| BlurHost.ToInt32 | src/filter/gauss_blur_2d.ts:96 | an `Int32Array` element is in the 32-bit range and congruent to the number modulo 2^32 |
| BlurHost.ToInt32Identity | src/filter/gauss_blur_2d.ts:96 | a radius already in the 32-bit range is stored unchanged |
| BlurHost.ResolveOutput | src/filter/gauss_blur_2d.ts:76-92 | a supplied output with another size fails with the size error, before the format check; one with another format fails with the format error; otherwise it is used as it is; without one, a new texture of the input's size and format is created |
| BlurHost.CreateDirect | src/filter/gauss_blur_2d.ts:10-57 | the direct pipeline owns a new 4-byte uniform buffer |
| BlurHost.DirectBlur | src/filter/gauss_blur_2d.ts:71-128 | fails exactly when output validation fails; otherwise records exactly one pass from the input to the output, with the payload [kernelRadius] |
| BlurHost.DestroyDirect | src/filter/gauss_blur_2d.ts:130-132 | destroying the direct pipeline destroys its uniform buffer |
| BlurHost.Gauss2dBlur | src/filter/gauss_blur_2d.ts:135-149 | the helper destroys the pipeline it created, whether blur returns or throws: only a created output outlives the call; with live textures, its one pass is valid |
| BlurHost.DirectPayloadFits | src/filter/gauss_blur_2d.ts:14-17 | the payload [kernelRadius] fills the 4-byte uniform buffer exactly |
| BlurHost.CreateOptimized | src/filter/gauss_blur_2d_optimized.ts:11-58 | the separable pipeline owns a new 8-byte uniform buffer and starts with no working texture |
| BlurHost.DestroyTexturesAsWritten | src/filter/gauss_blur_2d_optimized.ts:161-164 | as written, the working texture is destroyed but the pipeline still refers to it |
| BlurHost.DestroyTextures | src/filter/gauss_blur_2d_optimized.ts:161-164 | corrected: the working texture is destroyed and the field is cleared |
| BlurHost.EnsureTextures | src/filter/gauss_blur_2d_optimized.ts:105-120 | afterwards the working texture covers the input in both dimensions; without recreation nothing changes; on recreation the old texture is destroyed and a new one sized exactly to the input is created |
| BlurHost.TwoPasses | src/filter/gauss_blur_2d_optimized.ts:99-100 | two passes in order with the same radius: input to working with payload [r, 0], then working to output with payload [r, 1] |
| BlurHost.OptimizedBlur | src/filter/gauss_blur_2d_optimized.ts:72-103 | fails exactly when output validation fails, with its error; otherwise the working texture covers the input and the two passes are recorded in order |
| BlurHost.OptimizedPayloadFits | src/filter/gauss_blur_2d_optimized.ts:15-18 | the payload [kernelRadius, direction] fills the 8-byte uniform buffer exactly |
| BlurHost.DestroyOptimized | src/filter/gauss_blur_2d_optimized.ts:166-169 | `destroy` destroys the working texture and the uniform buffer |
| BlurHost.Gauss2dBlurOptimized | src/filter/gauss_blur_2d_optimized.ts:172-180 | the helper never destroys its pipeline: after a successful call a new resource other than the output stays alive |
| BlurHost.BlurUsesLiveTextures | src/filter/gauss_blur_2d_optimized.ts:72-124 | from a usable pipeline and live input and output, both passes use live resources only, and the pipeline stays usable |
| BlurHost.DestroyTexturesKeepsUsable | src/filter/gauss_blur_2d_optimized.ts:161-164 | the corrected destroyTextures leaves the pipeline usable, with no working texture |
| BlurHost.AsWrittenRendersIntoDestroyed | src/filter/gauss_blur_2d_optimized.ts:161-164 | as written, blur, destroyTextures, then blur of the same input renders both passes through a destroyed texture |
| BlurHost.CorrectedRecreates | src/filter/gauss_blur_2d_optimized.ts:105-124 | with the corrected destroyTextures, the same sequence recreates the working texture and both passes are valid |
| BlurHost.ShrinksInOneDimension | src/filter/gauss_blur_2d_optimized.ts:111-118 | recreation sizes exactly to the input, so 64×32 followed by a 32×64 input leaves a 32×64 texture |
| BlurKernel.SumExt | src/filter/gauss_blur_2d.ts:201-211 | sums of functions that agree on the range are equal |
| BlurKernel.SumScale | src/filter/gauss_blur_2d.ts:207-209 | a constant factor comes out of a sum |
| BlurKernel.SumAdd | src/filter/gauss_blur_2d.ts:209-210 | the sum of pointwise sums is the sum of the sums |
| BlurKernel.SumPositive | src/filter/gauss_blur_2d.ts:210 | a non-empty sum of positive terms is positive |
| BlurKernel.SumMono | src/filter/gauss_blur_2d.ts:209-210 | sums are monotone in their terms |
| BlurKernel.SumSwap | src/filter/gauss_blur_2d.ts:201-202 | the order of the two nested loops does not change the double sum |
| BlurKernel.SeparablePositive | src/filter/gauss_blur_2d_optimized.ts:229 | a product of positive 1-D weights is a positive 2-D weight |
| BlurKernel.DirectWeightSum | src/filter/gauss_blur_2d.ts:199-210 | the direct kernel's weightSum is positive, so the division at the end is defined |
| BlurKernel.PassWeightSum | src/filter/gauss_blur_2d_optimized.ts:226-235 | each 1-D pass's weightSum is positive |
| BlurKernel.DirectNormCancels | src/filter/gauss_blur_2d.ts:193-215 | the constant norm cancels: the direct output does not depend on it |
| BlurKernel.PassNormCancels | src/filter/gauss_blur_2d_optimized.ts:220-239 | the constant norm cancels in a 1-D pass |
| BlurKernel.DirectConvex | src/filter/gauss_blur_2d.ts:201-215 | each direct output lies between the least and the greatest texel of its (2r+1)×(2r+1) window |
| BlurKernel.PassConvex | src/filter/gauss_blur_2d_optimized.ts:228-239 | each 1-D output lies between the least and the greatest texel its pass reads |
| BlurKernel.ConstantWindow | src/filter/gauss_blur_2d.ts:201-215 | a constant window blurs to that constant in the direct kernel and in both 1-D passes |
| BlurKernel.DirectReadsWindow | src/filter/gauss_blur_2d.ts:201-206 | the direct output depends only on the texels at offsets (i, j) with i, j in [-r, r] |
| BlurKernel.PassReadsWindow | src/filter/gauss_blur_2d_optimized.ts:228-231 | a 1-D output depends only on the texels at offsets (i, 0) for direction 0 and (0, j) for direction 1, i, j in [-r, r] |
| BlurKernel.DirectWeightSumIsSquare | src/filter/gauss_blur_2d.ts:199-210 | with a product weight, the direct weight sum is the square of the 1-D weight sum |
| BlurKernel.DirectColumnIsHorizontalPass | src/filter/gauss_blur_2d_optimized.ts:228-236 | column j of the direct numerator is w(j) times the horizontal pass's numerator on row y + j |
| BlurKernel.VerticalPassIsDoubleSum | src/filter/gauss_blur_2d_optimized.ts:253-264 | the vertical pass over the horizontal pass is the direct double sum over the squared 1-D weight sum |
| BlurKernel.DirectIsDoubleSum | src/filter/gauss_blur_2d.ts:201-215 | the direct kernel is the same double sum over the same squared weight sum |
| BlurKernel.TwoPassesEqualDirect | src/filter/gauss_blur_2d_optimized.ts:99-100 | when the working channel holds the horizontal pass on every row the vertical pass reads, the vertical pass gives the direct value for the product weight |
| BlurKernel.TwoSigmaSquared | src/filter/gauss_blur_2d.ts:189 | with sigma = r / 3 and r ≥ 1, 2·sigma² is positive |
| BlurKernel.ExponentSplits | src/filter/gauss_blur_2d.ts:204 | the direct exponent (i² + j²) / (2 sigma²) is the sum of the two 1-D exponents i² / (2 sigma²) and j² / (2 sigma²) |
| BlurKernel.GaussSplitsAt | src/filter/gauss_blur_2d_optimized.ts:229 | under the exponential law, the direct weight at (i, j) is the product of the 1-D weights at i and j |
| BlurKernel.GaussSeparable | src/filter/gauss_blur_2d.ts:203-204 | the direct Gaussian weight is the product of the two 1-D Gaussian weights across the window |
| BlurKernel.GaussPositive | src/filter/gauss_blur_2d_optimized.ts:229 | the 1-D and the 2-D Gaussian weights are positive across the window |
| BlurKernel.Gauss2Symmetric | src/filter/gauss_blur_2d.ts:203-204 | the direct weight is unchanged by flipping either offset's sign or by swapping the offsets |
| BlurKernel.GaussSymmetric | src/filter/gauss_blur_2d_optimized.ts:229 | the 1-D weight is unchanged by flipping the offset's sign |
| BlurKernel.DirectBlur | src/filter/gauss_blur_2d.ts:185-219 | the direct pipeline's output has the input's size, and for 4-channel formats its alpha is 1 everywhere |
| BlurKernel.WorkingPlane | src/filter/gauss_blur_2d_optimized.ts:219-242 | the horizontal pass fills a texture of the working size, with alpha 1 for 4-channel formats |
| BlurKernel.SeparableBlur | src/filter/gauss_blur_2d_optimized.ts:244-285 | the separable pipeline's output has the input's size, with alpha 1 for 4-channel formats |
| BlurKernel.DirectBlurBounded | src/filter/gauss_blur_2d.ts:201-216 | on an interior texel, every colour channel of the output lies between that channel's least and greatest value in the window |
| BlurKernel.SeparableMatchesDirect | src/filter/gauss_blur_2d_optimized.ts:72-103 | on a texel whose window lies inside the input, with a working texture at least as large as the input, the two-pass output equals the direct output in every channel |

## Left out

- WebGPU plumbing is left out:
  - device, queue and command encoders;
  - error scopes and the shader-compile error of the `create` methods;
  - bind groups, the render-pass descriptors and the GPU timer;
  - `mapAsync`, and the unmapping and destruction of the staging buffer in `finally`.

  Resources are abstract identifiers. A pass is an entry in a log, and `readTextureData` starts from the mapped bytes.
- `src/webgpu/timer.ts`, `src/utils/polynomial-regression.ts`, `src/main.ts`, `src/webgpu/generate_texture.ts` and the test harness are not part of this model. They are timing plumbing, a floating-point benchmark fit, DOM wiring and fixtures.
- The shaders are modelled over reals, so f32 rounding is left out. `exp` is a parameter, with positivity and the exponential law as assumptions. `PI`, `sqrt` and the truncated constant only build `norm`, which is a positive parameter because it cancels.
- The final `texelType(blur)` conversion is left out. That conversion truncates for integer formats, and there the intermediate texture of the separable pipeline is truncated too. `SeparableMatchesDirect` therefore holds over reals only.
- Radius 0 is left out: `stdDev = 0` makes every weight `0/0`, so the kernel lemmas require r ≥ 1. The `i32` overflow of `i * i` for huge radii is not modelled.
- Out-of-range `textureLoad` results are backend-defined. They are a parameter (`outside`), and the equality and bounds lemmas are stated for interior texels.
- BlurKernel.DirectBlur, BlurKernel.WorkingPlane and BlurKernel.SeparableBlur: the contracts state only the size and the alpha channel. The colour channels are described by `DirectBlurBounded`, `ConstantWindow` and `SeparableMatchesDirect`.
- `formatMatrix` cells are taken as already-rendered strings, because number-to-string conversion is a JavaScript built-in.
- The `separator` parameter of `formatMatrix` is an argument of `MathUtils.FormatMatrix`; its default `", "` is `MathUtils.DefaultSeparator`, which the documented example uses.
- Non-integer `range` steps are floating point and are left out. So are `NaN` and infinite arguments.
- `pad` with m = 0 (`Infinity` or `NaN` in JavaScript) is excluded by `m != 0`. Its properties are stated for m > 0, its only use. `pad` is over integers: fractional inputs and the negative zero that `Math.ceil` yields for inputs in (-m, 0) are floating-point details.
- `readTextureData` wraps its bytes in the format's typed-array constructor (`Uint8Array`, `Float32Array`, ...). The model returns the bytes, since that view changes only how they are read, not what they are.
- The `console.log` calls in `ensureTextures` and `destroyTextures` are left out: they are diagnostics with no effect on the state.
- ReadTexture.ReadTextureData: requires a supported format, because the source dereferences the table entry with `!`. The staging size is a precondition because mapping is a foreign call.
- BlurHost.CreateDirect and BlurHost.CreateOptimized require a supported format, because the source dereferences the table entry with `!`.
- `onResult` and `onError` are observed as log events. A callback that throws is not modelled.
- Coalescer.Step: on a loop exit, the contract states "nothing pending, or a process running". A value written while a process is running is left to the loop that runs it, which is the corrected behaviour described under Findings.
- BlurHost.Gauss2dBlurOptimized: the contract states that some new resource leaks, not which one. It is the uniform buffer, plus the working texture.

## Findings

| source | as written | input that shows it | evidently intended | confidence | as-written member | corrected member |
|---|---|---|---|---|---|---|
| src/async_process_handler.ts:65-67 | a drain loop that resumes re-checks only `pendingParams`, so it calls `processNext` even when another `request` has started a process since its own `processNext` settled | request(1); process(1) completes; before the first loop resumes, request(2) starts process(2) and request(3) overwrites the pending value; the first loop resumes and starts process(3) while process(2) is in flight | one process at a time (doc comment, lines 9-13): the loop also stops while `isProcessing` is set, leaving the new value to the running loop | not executed; needs another task to call `request` between `processNext` settling and the loop resuming | Coalescer.AsWrittenOverlaps | Coalescer.Reachable |
| src/filter/gauss_blur_2d_optimized.ts:161-164 | `destroyTextures` destroys the working texture but leaves the field set, so `needsRecreation` sees a texture that still fits | blur of a 64×64 `rgba8unorm` texture, `destroyTextures()`, blur of the same texture: both passes use the destroyed working texture | clear the field with the texture, so the next `blur` recreates it | not executed | BlurHost.AsWrittenRendersIntoDestroyed | BlurHost.CorrectedRecreates |
