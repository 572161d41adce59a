# TinyTensor layout and buffer core, in Dafny

This project models the sequential core of TinyTensor, a small C++ tensor library.
It covers five parts:

- `status.dfy` (module `StatusResult`): the `Status` codes, `ToString`, and the `Result` value that every fallible operation returns.
- `aligned_alloc.dfy` (module `AlignedAlloc`): the `AlignedBuffer` RAII owner of one aligned block.
  - Its three fields are `ptr_`, `bytes_` and `alignment_`.
  - Its operations are `allocate`, `release`, the destructor, the sized constructor, and the move operations.
  - The platform allocator is modelled by `Heap`. A request may fail. A granted block is a fresh `array<bv8>`.
  - A ghost ledger of `live` and `freed` blocks expresses "freed at most once".
- `tensor.dfy` (module `TensorCore`): the float32 `Tensor` and its operations.
  - `product` and the byte size of `CreateFloat32`.
  - The rank-1 and rank-2 stride rules.
  - The bounds-checked in-place copies `copy_from` and `copy_to`.
  - The defaulted move operations and destructor.
- `stride_check.dfy` (module `StrideCheck`): the reference row-major and column-major stride loops of the stride-check example.
  - Their closed forms.
  - Their agreement with the library for rank 1 and 2, and their divergence above rank 2.
- `aos_soa.dfy` (module `AosSoaTransform`): the fill loop and the AoS to SoA transpose loop of the layout example.
  - The proof that the transpose is a bijection of `[0, N*C)` and yields a permutation of the data.
  - The whole example run against two tensors.

Integer widths:

- `size_t` values are `SizeT`, a `nat` below 2^64.
- The `size_t` wrap-around of the source is written out explicitly in the members named "as written" (see Findings).
- The rest of the model uses the corrected checks.
- `is_power_of_two` is computed on `bv64`, exactly as the bit expression of the source.

## Model

| member | source | states |
|---|---|---|
| StatusResult.ToString | include/tinytensor/status.hpp:16-24 | every status has a non-empty name, and the name is "Unknown" exactly for `Unknown` |
| StatusResult.ToStringInjective | include/tinytensor/status.hpp:16-24 | distinct statuses have distinct names (both directions) |
| StatusResult.Result.IsOk | include/tinytensor/status.hpp:30 | ok() holds exactly when the status is Ok, i.e. prints as "Ok"; the message plays no part |
| StatusResult.Result.OK | include/tinytensor/status.hpp:28-31 | the success value reports ok and has an empty message |
| StatusResult.Result.Error | include/tinytensor/status.hpp:30-32 | the result carries exactly the given status and message (empty by default), and reports ok iff the status is Ok |
| StatusResult.ErrorWithOkIsOk | include/tinytensor/status.hpp:30-32 | Error does not check its status: Error(Ok, m) reports ok, yet differs from OK() when m is non-empty; with the default message Error(Ok) equals OK() |
| AlignedAlloc.IsPowerOfTwo | src/aligned_alloc.cpp:8-10 | is_power_of_two holds exactly for the words 2^k with k < 64; 0 is rejected |
| AlignedAlloc.IsPowerOfTwoIff | src/aligned_alloc.cpp:8-10 | the bit test x != 0 && (x & (x-1)) == 0 accepts exactly the 64 words 2^0 .. 2^63 |
| AlignedAlloc.PowerOfTwoHasExponent | src/aligned_alloc.cpp:8-10 | a word passing the bit test with no bit at or above k is 2^j for some j < k |
| AlignedAlloc.PowerOfTwoBelow | src/aligned_alloc.cpp:8-10 | a power of two below 2^k other than 2^(k-1) is below 2^(k-1) |
| AlignedAlloc.Heap.Malloc | src/aligned_alloc.cpp:21-25 | the platform allocator either refuses and changes nothing, or grants a fresh block of the requested size and records it as live |
| AlignedAlloc.Heap.Free | src/aligned_alloc.cpp:37 | only a live block can be freed; it moves from live to freed |
| AlignedAlloc.AlignedBuffer.constructor | include/tinytensor/aligned_alloc.hpp:45-47 | a default buffer is null/0/0 |
| AlignedAlloc.AlignedBuffer.Sized | include/tinytensor/aligned_alloc.hpp:14-16 | the alignment defaults to 64; the allocate result is ignored: a rejected or failed request leaves an empty buffer; a granted one holds a fresh block of the requested size and alignment |
| AlignedAlloc.AlignedBuffer.MoveFrom | include/tinytensor/aligned_alloc.hpp:22-25 | the new buffer takes all three fields and the source is reset to null/0/0 |
| AlignedAlloc.AlignedBuffer.Allocate | src/aligned_alloc.cpp:12-30 | the alignment defaults to 64; bytes = 0 gives InvalidArgument before the alignment check; a non-power-of-two alignment gives AlignmentError; allocator failure gives OutOfMemory; every failure leaves fields and heap unchanged; success sets all three fields to a fresh live block without freeing a held one |
| AlignedAlloc.AlignedBuffer.Release | src/aligned_alloc.cpp:32-42 | a no-op when empty; otherwise frees the held block exactly once and resets the fields to null/0/0 |
| AlignedAlloc.AlignedBuffer.Destroy | include/tinytensor/aligned_alloc.hpp:17 | the destructor releases whatever the buffer still holds |
| AlignedAlloc.AlignedBuffer.MoveAssign | include/tinytensor/aligned_alloc.hpp:27-34 | self-assignment changes nothing; otherwise the old block is freed, the source's fields are taken, and the source is emptied |
| AlignedAlloc.ReleaseTwice | src/aligned_alloc.cpp:32-42 | release is idempotent: a second call frees nothing more |
| AlignedAlloc.MovedBlockFreedOnce | include/tinytensor/aligned_alloc.hpp:17-34 | a block handed on only by moves is freed exactly once when all three buffers are destroyed |
| AlignedAlloc.ReallocateLeaks | src/aligned_alloc.cpp:19-29 | after two successful allocates the first block is still live, never freed, and no longer held by the buffer |
| TensorCore.Product | src/tensor.cpp:8-10 | the exact (unbounded) element count, 0 exactly when some dimension is 0; the source's own size_t fold is WrappingProductFrom, which reduces it modulo 2^64 |
| TensorCore.ProductAppend | src/tensor.cpp:8-10 | the product of dims extended by d is the product of dims times d |
| TensorCore.ProductPair | src/tensor.cpp:8-10 | the element count of a two-dimensional shape is N*C |
| TensorCore.WrappingProductFrom | src/tensor.cpp:8-10 | the size_t fold of std::accumulate from acc equals acc times the exact product, reduced modulo 2^64 (so [2^32, 2^32] counts 0 elements) |
| TensorCore.ByteSize | src/tensor.cpp:23-28 | when it fits, the byte size is 0 exactly when some dimension is 0; when it does not fit, every dimension is positive |
| TensorCore.ByteSizeAsWritten | src/tensor.cpp:23-28 | the byte size as the source computes it is the exact size product(dims)*4 reduced modulo 2^64 |
| TensorCore.ByteSizeAsWrittenAgrees | src/tensor.cpp:23-28 | when the exact size fits in size_t, the wrapping computation of the source yields it unchanged |
| TensorCore.ByteSizeAsWrittenWraps | src/tensor.cpp:28 | the shape [2^62+1] needs 2^64+4 bytes, yet the computation as written gives 4 |
| TensorCore.Resize | src/tensor.cpp:26 | vector resize keeps the first n strides and fills the new ones with 0 |
| TensorCore.LibraryStrides | src/tensor.cpp:37-55 | strides are stored exactly for rank 1 and 2, one per dimension; any other rank is rejected |
| TensorCore.LibraryStridesExamples | src/tensor.cpp:37-52 | [10] gives [4]; [2,3] gives [12,4] under AoS and [4,8] under SoA; [2,3,4] is rejected |
| TensorCore.LibraryStridesFit | src/tensor.cpp:37-52 | for a non-empty buffer no stored stride exceeds the byte size, so none wraps |
| TensorCore.CopyFits | src/tensor.cpp:61-68 | the bounds check passes exactly when offset + bytes does not exceed the buffer size |
| TensorCore.CopyRejectedAsWritten | src/tensor.cpp:61-68 | the check as written rejects when offset + bytes exceeds the size, but a sum of 2^64 or more is compared after losing 2^64 |
| TensorCore.CopyGuardAgreesWithoutWrap | src/tensor.cpp:61-68 | when offset + bytes does not wrap, the check as written rejects exactly the copies that do not fit |
| TensorCore.CopyGuardAsWrittenAdmitsOverrun | src/tensor.cpp:61-68 | offset 2^64-8 with 16 bytes into a 16-byte buffer passes the check as written but does not fit |
| TensorCore.Written | src/tensor.cpp:63 | memcpy into the buffer: bytes [offset, offset+n) become the data and all others are kept |
| TensorCore.Read | src/tensor.cpp:70 | memcpy out of the buffer: the n bytes starting at offset |
| TensorCore.ReadAfterWrite | src/tensor.cpp:60-72 | reading back the range just written gives the data written |
| TensorCore.Tensor.constructor | include/tinytensor/tensor.hpp:46-49 | a default tensor has an empty buffer with bytes() == 0, an empty shape, no strides and layout AoS |
| TensorCore.Tensor.MoveFrom | include/tinytensor/tensor.hpp:27 | move construction takes the block, shape, strides and layout, and leaves the source with bytes() == 0 and empty vectors |
| TensorCore.Tensor.MoveAssign | include/tinytensor/tensor.hpp:28 | move assignment frees the target's old block, takes everything from the source, and empties the source's buffer and vectors |
| TensorCore.Tensor.Destroy | include/tinytensor/tensor.hpp:22 | the destructor releases the owned block |
| TensorCore.Tensor.CreateFloat32 | src/tensor.cpp:13-58 | empty dims give InvalidArgument with nothing touched; otherwise shape, layout and the stride count are recorded first. An overflowing size, a zero dimension (bytes=0) and allocator failure each return their error with buffer and heap unchanged. Otherwise the buffer is a fresh, zero-filled, 64-aligned block of product(dims)*4 bytes, and then either the rank-1/2 strides are stored with OK, or InvalidArgument is returned with the block kept |
| TensorCore.Tensor.StoreStrides | src/tensor.cpp:37-57 | rank 1 and 2 store exactly the library strides and return OK; any other rank returns InvalidArgument with the strides untouched |
| TensorCore.ZeroFill | src/tensor.cpp:35 | memset: every byte of the block becomes 0 |
| TensorCore.Tensor.CopyFrom | src/tensor.cpp:60-65 | the offset defaults to 0; succeeds exactly when offset + bytes fits; on success the buffer equals the old contents with src[0, bytes) written at offset; on failure CopyFailed with the buffer unchanged |
| TensorCore.Tensor.CopyTo | src/tensor.cpp:67-72 | the offset defaults to 0; the same bounds check; the buffer is never changed; on success dst[0, bytes) equals buffer[offset, offset+bytes) and the rest of dst is untouched |
| TensorCore.CopyRoundTrip | examples/01_create_and_copy.cpp:13-17 | when copy_from fits, copy_to with the same length and offset also succeeds and gives back the source bytes |
| StrideCheck.ExpectedStrides | examples/04_stride_check.cpp:18-31 | the expected vector equals the closed-form reference strides for the layout |
| StrideCheck.FillRowMajor | examples/04_stride_check.cpp:19-24 | the descending loop yields 4 times the product of the dimensions after each index |
| StrideCheck.FillColMajor | examples/04_stride_check.cpp:25-30 | the ascending loop yields 4 times the product of the dimensions before each index |
| StrideCheck.RowMajorRecurrence | examples/04_stride_check.cpp:21-24 | the row-major closed form has last entry 4, and each entry is the next one times the next dimension |
| StrideCheck.ColMajorRecurrence | examples/04_stride_check.cpp:27-30 | the column-major closed form has first entry 4, and each entry is the previous one times the previous dimension |
| StrideCheck.LibraryAgreesWithReference | src/tensor.cpp:37-52 | for rank 1 and 2 the strides CreateFloat32 stores equal the reference strides, for both layouts |
| StrideCheck.LibraryDivergesAboveRankTwo | src/tensor.cpp:54-55 | above rank 2 the library stores no strides, while the reference defines one positive stride per positive dimension |
| StrideCheck.ReferenceExamples | examples/04_stride_check.cpp:41-60 | [2,3,4] gives [48,16,4] under AoS and [4,8,24] under SoA; [2,3,4,5] gives [240,80,20,4] under AoS |
| StrideCheck.StrideCheckCase | examples/04_stride_check.cpp:45-61 | a fresh tensor of rank 3 or more is rejected; its printed strides are all 0, and they differ from the expected ones when every dimension is positive |
| AosSoaTransform.FlatIndexInRange | examples/02_aos_soa_transform.cpp:17-28 | (i, j) with i < rows and j < width lands in [0, rows*width) |
| AosSoaTransform.FlatIndexDecompose | examples/02_aos_soa_transform.cpp:17-28 | a flat index i*width+j gives back i as its quotient and j as its remainder |
| AosSoaTransform.FlatIndexCovers | examples/02_aos_soa_transform.cpp:17-28 | every index in [0, rows*width) is the flat index of its quotient and remainder |
| AosSoaTransform.TransposeInverse | examples/02_aos_soa_transform.cpp:26-29 | (n, c) to c*N+n and its inverse map [0, N*C) onto itself and undo each other, so every slot is written exactly once |
| AosSoaTransform.MultiplicityIsOccurrences | examples/02_aos_soa_transform.cpp:25-30 | the multiplicity of a value in a buffer is the number of slots holding it |
| AosSoaTransform.SoaSlotImageSize | examples/02_aos_soa_transform.cpp:26-29 | the transpose's slot map is injective: the image of a set of slots has as many slots as the set |
| AosSoaTransform.TransposeIsPermutation | examples/02_aos_soa_transform.cpp:25-30 | a buffer filled by the transpose is a permutation (as a multiset) of the buffer it was filled from |
| AosSoaTransform.AosFill | examples/02_aos_soa_transform.cpp:16-19 | the fill loop stores n*10+c at flat index n*C+c for all n < N and c < C (IsAosFill) |
| AosSoaTransform.AosToSoa | examples/02_aos_soa_transform.cpp:25-30 | soa_data[c*N+n] = tmp[n*C+c] for all samples and channels; every slot j holds tmp[AosSlot(j)] (IsTransposeOf); and the result is a permutation of tmp |
| AosSoaTransform.TransformExample | examples/02_aos_soa_transform.cpp:7-30 | with N = 4 and C = 3, tmp is the AoS fill and soa its transpose and a permutation of it; the value 10 (n = 1, c = 0) sits at AoS index 3 and lands at SoA index 1 |
| AosSoaTransform.ExampleCopiesFit | examples/02_aos_soa_transform.cpp:21-31 | each copy moves N*C*4 bytes into an N*C*4-byte tensor, so it passes the bounds check |
| AosSoaTransform.CreateExampleTensors | examples/02_aos_soa_transform.cpp:9-12 | when both creations succeed, each tensor owns its own fresh 48-byte block with strides [12,4] under AoS and [4,16] under SoA |
| AosSoaTransform.AosSoaExample | examples/02_aos_soa_transform.cpp:7-31 | tmp is the AoS fill of the 4 x 3 buffer and soaData its transpose and a permutation of it (10 at AoS index 3 and at SoA index 1); when both creations succeed, both copies (offset defaulted to 0) succeed and the two tensors hold exactly encode(tmp) and encode(soaData) |

## Left out

- The thread pool (src/thread_pool.cpp, include/tinytensor/thread_pool.hpp) and `Tensor::ParallelAdd` are concurrency. `ParallelAdd` also has no body in the sources modelled.
- The asynchronous pipeline example is a concurrency demonstration with float arithmetic and sleeps.
- Console output and float formatting are left out. Buffer contents are bytes (`bv8`), and the example values are integers.
- In `AosSoaExample`, the float-to-byte encoding is a parameter `encode` that gives 4 bytes per element.
- The platform allocator (`posix_memalign`, `_aligned_malloc`, `free`, `_aligned_free`) is the abstract `Heap`.
  - The model does not check the actual address alignment.
  - The MSVC branch and its different message ("aligned malloc failed") are not modelled; only the POSIX branch is.
- `ToString`'s `default` branch for codes outside the enumeration has no counterpart: a Dafny datatype has no out-of-range values.
- `data()`, `shape()`, `layout()` and `size()`/`alignment()` are plain field reads, with no contract of their own.
  - `Tensor.Bytes` is `buf.bytes`.
  - `Tensor.Stride` requires `dim < |strides|`, because the source indexes without a check.
- Copy construction and copy assignment are deleted in the source. Dafny references do not copy, so nothing models them.
- Moved-from `std::vector` members are modelled as empty. The standard only says they are left valid but unspecified.
- `TensorCore.Tensor.MoveAssign` requires two distinct tensors. Self-move-assignment of the defaulted operator depends on `std::vector` self-move, which the standard leaves unspecified.
- `AlignedAlloc.AlignedBuffer.MoveAssign` requires that two distinct buffers never hold the same block. This is the unique-ownership invariant that moves preserve.
- `TensorCore.Tensor.CreateFloat32` rejects a byte size that overflows `size_t` with InvalidArgument ("size overflow") before allocating. The source wraps instead. The wrapping computation is `ByteSizeAsWritten` (see Findings).
- `TensorCore.Tensor.CopyFrom` and `TensorCore.Tensor.CopyTo` use the exact bounds check `CopyFits`. The source's check wraps. The wrapping check is `CopyRejectedAsWritten` (see Findings).
- `StrideCheck.ExpectedStrides` computes with unbounded naturals, not `size_t`, so it does not model wrap-around of very large strides.

## Findings

| source | as written | input that shows it | evidently intended | confidence | as-written member | corrected member |
|---|---|---|---|---|---|---|
| src/tensor.cpp:61-68 | `offset + bytes > buf_.size()` is summed in size_t and can wrap | a 16-byte buffer, offset 2^64-8, bytes 16: the sum wraps to 8, the copy is admitted, and memcpy writes outside the buffer | reject every copy whose range does not lie inside the buffer | not executed | TensorCore.CopyGuardAsWrittenAdmitsOverrun | TensorCore.CopyFits |
| src/tensor.cpp:23-28 | `product(dims) * sizeof(float)` is computed in size_t and can wrap | shape [2^62+1]: the exact size is 2^64+4 bytes, but the wrapped size is 4, so a 4-byte buffer is allocated for 2^62+1 floats | reject a shape whose byte size does not fit in size_t | not executed | TensorCore.ByteSizeAsWrittenWraps | TensorCore.ByteSize |
