# ncnn Eltwise and ArgMax layers in Dafny

This project models two layers of the ncnn neural-network inference library.

- **Eltwise** merges N ≥ 2 equally shaped blobs into one. The blobs are stored channel after channel. The merge is an element-wise product, a plain sum, a weighted sum or a maximum. The forward pass folds the operands left to right: operands 0 and 1 form a seed step, and each later operand `b` is folded in by an update step. In the weighted sum, operand `b` is weighted by `coeffs[b]`.
- **ArgMax** pairs every input element with its flat index. It selects the `topk` largest `(value, index)` pairs with `partial_sort` under `std::greater`. It emits their indices, optionally preceded by their values.

Each layer loads its parameters in three ways. The text loader uses `fscanf`. The binary-stream loader uses `fread`. The memory-cursor loader reads raw words and advances a pointer.

Layout:

- `bytes.dfy` (`Bytes`): bytes, and reading and writing 4-byte words.
- `param_io.dfy` (`ParamIO`): the text token model, the fallible `fread` of one word, and runs of words.
- `wrappers.dfy` (`Wrappers`): `Option` and the loader outcome `Loaded` (parameters plus the next position, or the status code).
- `reduce.dfy` (`Reduce`): the four reductions' seed and update steps, the per-element left fold, the closed forms (Σ, Π, weighted Σ, maximum), and the lemmas that equate them.
- `tensors.dfy` (`Tensors`): blobs as `c` channels of `w*h` elements, and the three possible states of an output blob.
- `eltwise.dfy` (`Eltwise`): the Eltwise loaders, the encodings and round trips, and the forward method.
- `topk.dfy` (`TopK`): `(value, index)` pairs, the `partial_sort` selection, its specification `IsTopK`, and the proof that this specification has only one solution.
- `argmax.dfy` (`ArgMax`): the ArgMax loaders, round trips and forward method.

Elements are exact integers. The contracts check the coefficient indexing and the selection order. Over exact integers every operand order gives the same value. So the order 0..N-1 is fixed by the definition of `Reduce.Fold`, and no contract checks it. Float rounding is not checked either.

Three behaviours of the code that the model keeps:

- The weighted sum reads `coeffs[b]` for every `b < N`, so the coefficient buffer must hold at least N entries. A longer buffer is allowed, and its extra entries are never read. The weighted sum is chosen whenever `num_coeff != 0`. A negative `num_coeff` therefore weights the operands with whatever buffer the layer kept from an earlier load.
- An `op_type` that names no operation is not an error. `forward` still allocates the output, writes nothing and returns 0.
- The memory-cursor loader does not test the sign of `num_coeff`. It always advances the cursor by `8 + 4*num_coeff` bytes.

## Model

| member | source | states |
|---|---|---|
| `Eltwise.LoadParamText` | src/layer/eltwise.cpp:30-57 | Returns -1 unless both header ints scan. A `num_coeff` ≤ 0 reads no coefficients and keeps the old buffer. A positive `num_coeff` gives -100 when buffer creation fails. Otherwise it gives -1 exactly when one of the `num_coeff` float scans fails, and the scanned values, in order, when none fails. |
| `Eltwise.LoadParamBin` | src/layer/eltwise.cpp:59-75 | Fails only with -100, and exactly when buffer creation fails for a positive `num_coeff`. A short stream is never reported. Each word it could not supply holds its own indeterminate value. Coefficients are read only when `num_coeff > 0`. |
| `Eltwise.LoadParamMem` | src/layer/eltwise.cpp:78-90 | Always returns 0. `op_type` and `num_coeff` are the first two words. The coefficient view has `num_coeff` entries, taken from the words that follow. The cursor ends `8 + 4*num_coeff` bytes past its start. |
| `Eltwise.MemRoundTrip` | src/layer/eltwise.cpp:78-90 | A cursor pointing at an encoded record, anywhere in a buffer, loads exactly the encoded parameters. It stops just past the record. |
| `Eltwise.BinRoundTrip` | src/layer/eltwise.cpp:59-75 | A stream holding an encoded record loads the encoded parameters and stops just past the record. A layer without coefficients keeps its old buffer. |
| `Eltwise.BinMatchesMem` | src/layer/eltwise.cpp:59-90 | On a complete record with a non-negative count, the stream and cursor loaders read the same fields and stop at the same byte. |
| `Eltwise.TextRoundTrip` | src/layer/eltwise.cpp:30-57 | Scanning the text record of some parameters yields those parameters. It consumes exactly `2 + num_coeff` tokens. |
| `Eltwise.ReloadedSameReduction` | src/layer/eltwise.cpp:138-140 | Reloaded parameters select the same reduction as the originals. When `num_coeff == 0` the kept buffer is never read. |
| `Eltwise.Forward` | src/layer/eltwise.cpp:92-247 | Returns -100 and no output when the output `create` fails. That happens when the allocator fails and whenever `w*h*c == 0`. An unknown `op_type` returns 0, with an output of operand 0's shape that is never written. Otherwise the output has operand 0's shape. Each element at channel `q`, position `i` is the in-order fold of the elements at `q`, `i` of operands 0..N-1, and of nothing else. For PROD that is Π, for SUM Σ, for the weighted SUM Σ `coeffs[b]·op_b`, and for MAX the largest operand. |
| `Eltwise.FoldPlanes` | src/layer/eltwise.cpp:105-244 | The seed loop and then one update loop per later operand. They leave element `i` of plane `q` holding the fold of column `q`, `i` over all operands. |
| `Eltwise.SeedChannels` | src/layer/eltwise.cpp:110-120 | The seed loop over all channels. Afterwards every plane holds the fold of operands 0 and 1. |
| `Eltwise.StepChannels` | src/layer/eltwise.cpp:122-136 | One update loop over all channels. It turns planes holding the fold of operands 0..b-1 into planes holding the fold of operands 0..b. |
| `Eltwise.StepChannel` | src/layer/eltwise.cpp:126-135 | The same step for one channel `q`. |
| `Eltwise.SeedPlane` | src/layer/eltwise.cpp:110-120 | The seed loop for one channel. Element `i` combines element `i` of operands 0 and 1. |
| `Eltwise.StepPlane` | src/layer/eltwise.cpp:126-135 | The update loop for one channel. Element `i` folds element `i` of operand `b` into element `i` of the accumulator. |
| `Eltwise.ColumnStep` | src/layer/eltwise.cpp:122-136 | Folding operand `b` into the fold of operands 0..b-1 gives the fold of operands 0..b. |
| `Eltwise.ClosedForm` | src/layer/eltwise.cpp:105-244 | Each reduction's left fold equals its closed form. |
| `Eltwise.AllClosed` | src/layer/eltwise.cpp:105-244 | Planes holding the fold of every column hold that column's product, sum, weighted sum or maximum. |
| `Reduce.Seed` | src/layer/eltwise.cpp:118-225 | The seed expression of each branch (lines 118, 153, 190 and 225) is the reduction of operands 0 and 1. The weighted branch uses `coeff0` and `coeff1`, which are `coeffs[0]` and `coeffs[1]`. Partner: the `Reduce.FoldIs*` closed forms below. |
| `Reduce.Step` | src/layer/eltwise.cpp:133-240 | The update expression of each branch (lines 133, 168, 206 and 240) is the reduction of the accumulator and operand `b`. The weighted branch uses the coefficient at the operand's own position, `coeffs_ptr[b]`. Partner: the `Reduce.FoldIs*` closed forms below. |
| `Reduce.Fold` | src/layer/eltwise.cpp:105-244 | One output element in the code's operand order: the seed of operands 0 and 1, then the `for (size_t b=2; …)` updates (lines 122, 157, 194 and 229) in increasing `b`. It has no contract of its own. Its partners are `Reduce.FoldIsProduct`, `FoldIsTotal`, `FoldIsWeighted` and `FoldIsMaximum`, which give its closed form for every operand list. |
| `Reduce.Max2` | src/layer/eltwise.cpp:225 | `max(a, b)` is at least both arguments and equals one of them. |
| `Eltwise.ReductionOf` | src/layer/eltwise.cpp:105-212 | PROD, MAX and SUM select their reductions. SUM is the plain sum exactly when `num_coeff == 0`, and otherwise the sum weighted by the coefficient buffer. Any other `op_type` selects nothing. |
| `Reduce.FoldIsProduct` | src/layer/eltwise.cpp:105-137 | `((op0*op1)*op2)*…` equals the product of all operands. |
| `Reduce.FoldIsTotal` | src/layer/eltwise.cpp:140-172 | `((op0+op1)+op2)+…` equals the sum of all operands. |
| `Reduce.FoldIsWeighted` | src/layer/eltwise.cpp:173-210 | The seed `op0*c[0] + op1*c[1]`, followed by updates `+= op_b*c[b]`, equals the sum of `op_b*c[b]` over all operands. The coefficient index is the operand's position. |
| `Reduce.FoldIsMaximum` | src/layer/eltwise.cpp:212-244 | `max(…max(max(op0,op1),op2)…)` is at least every operand and equals one of them. |
| `ParamIO.ScanNums` | src/layer/eltwise.cpp:45-53 | `n` successive scans succeed exactly when each of the `n` tokens scans. On success they yield the tokens' values in order. |
| `ParamIO.ReadWord` | src/layer/eltwise.cpp:61 | One `fread` of a 4-byte item. A complete read yields the `int` whose stored bytes are exactly the four bytes read. A short read yields a value that is indeterminate and chosen separately for each offset. |
| `ParamIO.WordsOfWordBytes` | src/layer/eltwise.cpp:80-87 | Words laid out back to back anywhere in a buffer read back unchanged. |
| `Bytes.Int32At` | src/layer/eltwise.cpp:80-83 | The `*(int*)(mem)` reads, also at argmax.cpp lines 56 and 59: four little-endian bytes read as a 32-bit two's-complement value, always within the `int` range. Partners: `Bytes.ReadWritten` and `Bytes.WrittenRead`. |
| `Bytes.ReadWritten` | src/layer/eltwise.cpp:80-84 | Reading the stored bytes of an `int` gives back the `int`. |
| `Bytes.WrittenRead` | src/layer/eltwise.cpp:80-84 | Storing the `int` read from four bytes reproduces those bytes. |
| `TopK.Greater` | src/layer/argmax.cpp:88 | `std::greater` on `(value, index)` pairs: `b < a` in `std::pair`'s lexicographic sense. |
| `TopK.GreaterIsStrictTotal` | src/layer/argmax.cpp:88 | That comparison is irreflexive, asymmetric and transitive, and it ranks any two distinct pairs. |
| `TopK.Pairs` | src/layer/argmax.cpp:80-85 | Pair `i` is input element `i` with index `i`, so no two pairs are equal. |
| `TopK.Best` | src/layer/argmax.cpp:87-88 | Finds the position of a pair that is greater than every other pair in the range. |
| `TopK.PartialSort` | src/layer/argmax.cpp:87-88 | The first `k` pairs after the partial sort are pairs of the input in strictly decreasing `(value, index)` order. Every pair left out is smaller than all of them. |
| `TopK.TopKUnique` | src/layer/argmax.cpp:87-88 | Only one sequence of `k` pairs meets that description. So the emitted prefix does not depend on how the partial sort is carried out. |
| `ArgMax.LoadParamText` | src/layer/argmax.cpp:32-42 | Returns -1 unless both ints scan. Otherwise it returns 0 with `out_max_val` and `topk`, in that order. |
| `ArgMax.LoadParamBin` | src/layer/argmax.cpp:44-51 | Always returns 0. It reads `out_max_val` and then `topk`. A short stream leaves each field it could not fill indeterminate, independently of the other. |
| `ArgMax.ShortReadsIndependent` | src/layer/argmax.cpp:46-48 | On an empty stream the two fields can come out different. |
| `ArgMax.LoadParamMem` | src/layer/argmax.cpp:54-63 | Always returns 0. It reads `out_max_val` and then `topk`, and advances the cursor by exactly 8 bytes. |
| `ArgMax.MemRoundTrip` | src/layer/argmax.cpp:54-63 | A cursor pointing at an encoded record loads exactly the encoded parameters. |
| `ArgMax.BinRoundTrip` | src/layer/argmax.cpp:44-51 | A stream holding an encoded record loads exactly the encoded parameters. |
| `ArgMax.BinMatchesMem` | src/layer/argmax.cpp:44-63 | On a complete record, the stream and cursor loaders give the same result. |
| `ArgMax.TextRoundTrip` | src/layer/argmax.cpp:32-42 | Scanning the text record of some parameters yields those parameters. |
| `ArgMax.Rows` | src/layer/argmax.cpp:69-72 | The output has 2 rows when `out_max_val` is set and 1 row otherwise. |
| `ArgMax.Emit` | src/layer/argmax.cpp:90-106 | With `out_max_val`, slot `i` holds the i-th pair's value and slot `topk+i` its index. Without it, slot `i` holds the index. |
| `ArgMax.EmittedIndices` | src/layer/argmax.cpp:80-106 | Indices copied from the selected pairs lie in `[0, size)` and are pairwise distinct. Each selected pair's value is the input element at its index. |
| `ArgMax.Forward` | src/layer/argmax.cpp:65-109 | Returns -100 and no output when the output `create` fails. That happens when the allocator fails and whenever `topk == 0`, since the `Mat` then has no elements. Otherwise the output is `topk` wide and 2 rows high with `out_max_val`, 1 row otherwise. The index row lists distinct in-range indices whose `(input[idx], idx)` pairs are the `topk` largest, largest first, larger index first among equal values. With `out_max_val`, slot `i` holds `input[index in slot topk+i]`. |

## Left out

- Float32 arithmetic, rounding and NaN are not modelled. Elements and coefficients are exact integers, so `max` and `std::greater` are total orders here.
- The operand order of the fold is not checked by any contract. Over exact integers `*`, `+` and `max` are associative and commutative, so every order gives the same value. Only float rounding depends on the order, and it is not modelled. The order 0..N-1 is fixed only by the definition of `Reduce.Fold` and by how `Eltwise.FoldPlanes` loops.
- The float32 bit pattern of a coefficient is not modelled. Its four bytes are decoded the same way as an `int` word. This is a stand-in bijection, so round trips still hold.
- Host byte order is not modelled: words are fixed to little-endian two's complement.
- `fscanf`, `fread` and `fprintf` are not modelled. Text is a sequence of tokens that either scan as a number or do not. A binary stream is a byte sequence. A short `fread` leaves its destination indeterminate, represented by a `junk` parameter.
- Failed loads are modelled by their status codes only. The fields a load writes before it fails are not modelled, because the network loader discards a layer whose load failed. For example, the binary loader writes `op_type` and `num_coeff` before its -100 return.
- The `Mat` allocator is not part of this model. Whether it fails is the parameter `allocFails`. A `create` with no elements also leaves the `Mat` empty; the forward passes test that case themselves (`Tensors.CreateFails`). Strides, channel padding (`cstep`) and reference counting are not modelled. ArgMax's input is the flat run of `total()` elements.
- The memory-cursor coefficient view aliases the caller's buffer without copying. The model gives the decoded values. Buffer lifetime is not modelled.
- `Eltwise.LoadParamMem`: a negative `num_coeff` is given an empty coefficient view. The cursor arithmetic is kept as plain integer arithmetic. The source's `Mat` with negative width and its `size_t` pointer arithmetic are undefined for that case.
- `Eltwise.Forward`: two things are preconditions. The operands must have equal shapes. For the weighted sum, the coefficient buffer must hold at least N entries. The source does not check them; a violation reads out of bounds.
- `ArgMax.Forward`: `0 ≤ topk ≤ size` is a precondition unless the allocator fails. `ArgMax::forward` does not check it; a negative `topk` or one above `size` makes the `partial_sort` range invalid. A `topk` of 0 is within the precondition and returns -100. Indices are stored as integers. The source converts them to float, which is exact only below 2^24.
- OpenMP `parallel for` is not modelled. Channels are processed in order. The forward contract shows that channel `q`, position `i` depends only on the same channel and position of each operand, so any channel order gives the same result.
- The source updates the output in place. The model builds each channel's new plane and then replaces the old one, which gives the same values.
- C `int` overflow is not modelled: `w*h`, `%d` scans of out-of-range text, and `size_t` arithmetic.
- The numeric values of the `Operation_*` codes are not modelled. Their header is not part of this model, so it uses 0, 1 and 2; only their being distinct matters.
- Layer construction is not modelled: `DEFINE_LAYER_CREATOR`, the constructors and `windows.h`.
