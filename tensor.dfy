/**
 * Tensor creation, strides and byte copies: a float32 tensor owns one
 * 64-aligned buffer, its shape, its layout and one byte stride per dimension.
 */
module TensorCore {
  import opened StatusResult
  import opened AlignedAlloc

  datatype Option<T> = None | Some(value: T)

  /** AoS is row-major (rightmost dimension contiguous), SoA column-major (leftmost contiguous). */
  datatype Layout = AoS | SoA

  datatype Shape = Shape(dims: seq<SizeT>)

  /** Every element is a 32-bit float. */
  const FLOAT_BYTES: nat := 4

  /** The buffer alignment CreateFloat32 asks for. */
  const TENSOR_ALIGNMENT: bv64 := 64

  /** The element count: the product of the dimensions, computed exactly. */
  function Product(dims: seq<nat>): (p: nat)
    ensures p == 0 <==> exists i :: 0 <= i < |dims| && dims[i] == 0
  {
    if dims == [] then 1
    else
      var rest := Product(dims[1..]);
      assert forall i :: 1 <= i < |dims| ==> dims[i] == dims[1..][i - 1];
      dims[0] * rest
  }

  /** The element count of a two-dimensional shape. */
  lemma ProductPair(n: nat, c: nat)
    ensures Product([n, c]) == n * c
  {
    assert [n, c][1..] == [c] && [c][1..] == [];
    assert Product([c]) == c * Product([]);
  }

  /** Product over a sequence extended on the right. */
  lemma {:induction false} ProductAppend(dims: seq<nat>, d: nat)
    ensures Product(dims + [d]) == Product(dims) * d
  {
    if dims != [] {
      assert (dims + [d])[1..] == dims[1..] + [d];
      ProductAppend(dims[1..], d);
    }
  }

  /** ((a mod m) * b) mod m == (a * b) mod m */
  lemma MulModLeft(a: nat, b: nat, m: nat)
    requires m > 0
    ensures ((a % m) * b) % m == (a * b) % m
  {
    var q := a / m;
    assert a * b == (a % m) * b + m * (q * b);
    ModAddMultiple((a % m) * b, q * b, m);
  }

  lemma ModAddMultiple(x: nat, k: nat, m: nat)
    requires m > 0
    ensures (x + m * k) % m == x % m
  {
    var y := x + m * k;
    assert y == (x / m + k) * m + x % m;
    DivModUnique(y, x / m + k, x % m, m);
  }

  /** The quotient and remainder of y by m are determined by y == q * m + r, 0 <= r < m. */
  lemma DivModUnique(y: int, q: int, r: int, m: int)
    requires m > 0 && 0 <= r < m && y == q * m + r
    ensures y / m == q && y % m == r
  {
    var q', r' := y / m, y % m;
    assert q' * m + r' == y;
    MulSub(q, q', m);
    if q > q' {
      MulAtLeast(q - q', m);
    } else if q < q' {
      MulAtLeast(q' - q, m);
    }
  }

  lemma MulSub(a: int, b: int, m: int)
    ensures (a - b) * m == a * m - b * m
  {
  }

  lemma MulAtLeast(a: int, m: int)
    requires a >= 1 && m >= 0
    ensures a * m >= m
  {
    assert a * m == m + (a - 1) * m;
  }

  /**
   * The fold of the source over size_t: std::accumulate with std::multiplies,
   * starting at acc, each step wrapping modulo 2^64. It equals the exact
   * product scaled by acc, reduced modulo 2^64.
   */
  function WrappingProductFrom(acc: SizeT, dims: seq<SizeT>): (r: SizeT)
    ensures r == (acc * Product(dims)) % SIZE_LIMIT
    decreases |dims|
  {
    if dims == [] then
      DivModUnique(acc, 0, acc, SIZE_LIMIT);
      acc
    else
      var acc' := (acc * dims[0]) % SIZE_LIMIT;
      MulModLeft(acc * dims[0], Product(dims[1..]), SIZE_LIMIT);
      assert acc * dims[0] * Product(dims[1..]) == acc * Product(dims);
      WrappingProductFrom(acc', dims[1..])
  }

  /** The byte size as the source computes it, product(dims) * sizeof(float) in size_t: the exact size modulo 2^64. */
  function ByteSizeAsWritten(dims: seq<SizeT>): (r: SizeT)
    ensures r == (Product(dims) * FLOAT_BYTES) % SIZE_LIMIT
  {
    MulModLeft(Product(dims), FLOAT_BYTES, SIZE_LIMIT);
    (WrappingProductFrom(1, dims) * FLOAT_BYTES) % SIZE_LIMIT
  }

  /** The byte size without wrap-around: None when it does not fit in a size_t. */
  function ByteSize(dims: seq<SizeT>): (r: Option<SizeT>)
    ensures r.Some? ==> (r.value == 0 <==> exists i :: 0 <= i < |dims| && dims[i] == 0)
    ensures r.None? ==> forall i :: 0 <= i < |dims| ==> dims[i] > 0
  {
    var exact := Product(dims) * FLOAT_BYTES;
    if exact < SIZE_LIMIT then Some(exact) else None
  }

  /** When the exact size fits, the wrapping computation gives it unchanged. */
  lemma ByteSizeAsWrittenAgrees(dims: seq<SizeT>)
    requires ByteSize(dims).Some?
    ensures ByteSizeAsWritten(dims) == ByteSize(dims).value
  {
    var p := Product(dims);
    DivModUnique(p * 4, 0, p * 4, SIZE_LIMIT);
  }

  /**
   * A one-dimensional shape of 2^62 + 1 elements needs 2^64 + 4 bytes, but the
   * wrapped size is 4: the buffer would be allocated with 4 bytes.
   */
  lemma ByteSizeAsWrittenWraps()
    ensures Product([0x4000_0000_0000_0001]) * FLOAT_BYTES == SIZE_LIMIT + 4
    ensures ByteSizeAsWritten([0x4000_0000_0000_0001]) == 4
    ensures ByteSize([0x4000_0000_0000_0001]).None?
  {
    assert WrappingProductFrom(1, [0x4000_0000_0000_0001]) == 0x4000_0000_0000_0001 by {
      assert [0x4000_0000_0000_0001][1..] == [];
    }
  }

  /** std::vector::resize: keep the first n entries, fill any new ones with 0. */
  function Resize(s: seq<nat>, n: nat): (r: seq<nat>)
    ensures |r| == n
    ensures forall i :: 0 <= i < n ==> r[i] == if i < |s| then s[i] else 0
  {
    if n <= |s| then s[..n] else s + seq(n - |s|, _ => 0)
  }

  /** The strides CreateFloat32 stores: rank 1 and rank 2 only; any other rank is rejected. */
  function LibraryStrides(dims: seq<nat>, layout: Layout): (r: Option<seq<nat>>)
    ensures r.Some? <==> 1 <= |dims| <= 2
    ensures r.Some? ==> |r.value| == |dims|
  {
    if |dims| == 1 then Some([FLOAT_BYTES])
    else if |dims| == 2 then
      if layout == AoS then Some([dims[1] * FLOAT_BYTES, FLOAT_BYTES])
      else Some([FLOAT_BYTES, dims[0] * FLOAT_BYTES])
    else None
  }

  /** The two-dimensional cases of the source: [2,3] gives [12,4] (AoS) and [4,8] (SoA). */
  lemma LibraryStridesExamples()
    ensures LibraryStrides([10], AoS) == Some([4])
    ensures LibraryStrides([2, 3], AoS) == Some([12, 4])
    ensures LibraryStrides([2, 3], SoA) == Some([4, 8])
    ensures LibraryStrides([2, 3, 4], AoS).None?
  {
  }

  /** Once the buffer is sized and non-empty, no stored stride exceeds the byte size, so none wraps. */
  lemma LibraryStridesFit(dims: seq<SizeT>, layout: Layout)
    requires LibraryStrides(dims, layout).Some?
    requires ByteSize(dims).Some? && ByteSize(dims).value > 0
    ensures forall i :: 0 <= i < |dims| ==> LibraryStrides(dims, layout).value[i] <= ByteSize(dims).value
  {
    if |dims| == 1 {
      assert dims[1..] == [];
    } else {
      var n: nat, c: nat := dims[0], dims[1];
      assert dims == [n, c];
      ProductPair(n, c);
      assert n >= 1 && c >= 1;
      MulAtLeast(n, c);
      MulAtLeast(c, n);
      assert c * n == n * c;
    }
  }

  /** The bounds check of copy_from and copy_to, decided without wrap-around. */
  function CopyFits(size: SizeT, offset: SizeT, bytes: SizeT): (ok: bool)
    ensures ok <==> offset + bytes <= size
  {
    offset <= size && bytes <= size - offset
  }

  /**
   * The bounds check as the source writes it: offset + bytes is summed in
   * size_t, so a sum of 2^64 or more is compared after losing 2^64.
   */
  function CopyRejectedAsWritten(size: SizeT, offset: SizeT, bytes: SizeT): (rejected: bool)
    ensures offset + bytes < SIZE_LIMIT ==> (rejected <==> offset + bytes > size)
    ensures offset + bytes >= SIZE_LIMIT ==> (rejected <==> offset + bytes - SIZE_LIMIT > size)
  {
    var sum := offset + bytes;
    if sum < SIZE_LIMIT then
      DivModUnique(sum, 0, sum, SIZE_LIMIT);
      sum % SIZE_LIMIT > size
    else
      DivModUnique(sum, 1, sum - SIZE_LIMIT, SIZE_LIMIT);
      sum % SIZE_LIMIT > size
  }

  /** Without wrap-around the source's check rejects exactly the copies that do not fit. */
  lemma CopyGuardAgreesWithoutWrap(size: SizeT, offset: SizeT, bytes: SizeT)
    requires offset + bytes < SIZE_LIMIT
    ensures CopyRejectedAsWritten(size, offset, bytes) <==> !CopyFits(size, offset, bytes)
  {
  }

  /**
   * Offset 2^64 - 8 and 16 bytes into a 16-byte buffer: the wrapped sum is 8,
   * so the source's check lets through a copy that starts 8 bytes before the
   * buffer.
   */
  lemma CopyGuardAsWrittenAdmitsOverrun()
    ensures !CopyRejectedAsWritten(16, SIZE_LIMIT - 8, 16)
    ensures !CopyFits(16, SIZE_LIMIT - 8, 16)
  {
  }

  /** mem with data copied in at offset (memcpy into the buffer). */
  function Written(mem: seq<bv8>, data: seq<bv8>, offset: nat): (r: seq<bv8>)
    requires offset + |data| <= |mem|
    ensures |r| == |mem|
    ensures forall i :: 0 <= i < |mem| ==>
              r[i] == if offset <= i < offset + |data| then data[i - offset] else mem[i]
  {
    mem[..offset] + data + mem[offset + |data|..]
  }

  /** The bytes [offset, offset + bytes) of mem (memcpy out of the buffer). */
  function Read(mem: seq<bv8>, offset: nat, bytes: nat): (r: seq<bv8>)
    requires offset + bytes <= |mem|
    ensures |r| == bytes
    ensures forall i :: 0 <= i < bytes ==> r[i] == mem[offset + i]
  {
    mem[offset..offset + bytes]
  }

  /** Reading back the range just written yields the data written. */
  lemma ReadAfterWrite(mem: seq<bv8>, data: seq<bv8>, offset: nat)
    requires offset + |data| <= |mem|
    ensures Read(Written(mem, data, offset), offset, |data|) == data
  {
  }

  /** A float32 tensor: move-only owner of one aligned buffer, with shape, strides and layout. */
  class Tensor {
    var buf: AlignedBuffer
    var shape: Shape
    var strides: seq<nat>
    var layout: Layout

    ghost predicate Valid(heap: Heap)
      reads this, buf, heap
    {
      buf.Valid(heap)
    }

    /** The bytes of the owned buffer (none while it is empty). */
    ghost function Contents(): seq<bv8>
      reads this, buf, buf.ptr
    {
      if buf.ptr == null then [] else buf.ptr[..]
    }

    /** bytes(): the owned buffer's size. */
    function Bytes(): SizeT
      reads this, buf
    {
      buf.bytes
    }

    /** stride(dim): unchecked in the source, so only defined for an existing dimension. */
    function Stride(dim: nat): nat
      reads this
      requires dim < |strides|
    {
      strides[dim]
    }

    /** A default tensor: empty buffer, empty shape, no strides, layout AoS. */
    constructor ()
      ensures fresh(buf) && buf.IsEmpty() && Bytes() == 0
      ensures shape == Shape([]) && strides == [] && layout == AoS
    {
      buf := new AlignedBuffer();
      shape, strides, layout := Shape([]), [], AoS;
    }

    /** The defaulted move constructor: the buffer moves, the vectors are emptied, the layout is copied. */
    constructor MoveFrom(other: Tensor)
      modifies other, other.buf
      ensures fresh(buf)
      ensures buf.ptr == old(other.buf.ptr) && buf.bytes == old(other.buf.bytes)
      ensures buf.alignment == old(other.buf.alignment)
      ensures shape == old(other.shape) && strides == old(other.strides) && layout == old(other.layout)
      ensures other.buf == old(other.buf) && other.buf.IsEmpty() && other.Bytes() == 0
      ensures other.shape == Shape([]) && other.strides == [] && other.layout == old(other.layout)
    {
      buf := new AlignedBuffer.MoveFrom(other.buf);
      shape, strides, layout := other.shape, other.strides, other.layout;
      new;
      other.shape, other.strides := Shape([]), [];
    }

    /**
     * The defaulted move assignment, member by member: the buffer's move
     * assignment releases this tensor's old block and takes the other's.
     */
    method MoveAssign(heap: Heap, other: Tensor)
      requires this != other && buf != other.buf
      requires heap.Valid() && Valid(heap) && other.Valid(heap)
      requires buf.ptr == null || buf.ptr != other.buf.ptr
      modifies this, buf, other, other.buf, heap
      ensures heap.Valid() && Valid(heap) && other.Valid(heap)
      ensures buf == old(buf) && other.buf == old(other.buf)
      ensures buf.ptr == old(other.buf.ptr) && buf.bytes == old(other.buf.bytes)
      ensures buf.alignment == old(other.buf.alignment)
      ensures shape == old(other.shape) && strides == old(other.strides) && layout == old(other.layout)
      ensures other.buf.IsEmpty() && other.Bytes() == 0
      ensures other.shape == Shape([]) && other.strides == [] && other.layout == old(other.layout)
      ensures old(buf.ptr) == null ==> unchanged(heap)
      ensures old(buf.ptr) != null ==> heap.live == old(heap.live) - {old(buf.ptr)}
                                       && heap.freed == old(heap.freed) + {old(buf.ptr)}
    {
      buf.MoveAssign(heap, other.buf);
      shape, strides, layout := other.shape, other.strides, other.layout;
      other.shape, other.strides := Shape([]), [];
    }

    /** The defaulted destructor: the buffer releases its block. */
    method Destroy(heap: Heap)
      requires heap.Valid() && Valid(heap)
      modifies buf, heap
      ensures heap.Valid() && buf.IsEmpty() && Bytes() == 0
      ensures old(buf.ptr) == null ==> unchanged(heap)
      ensures old(buf.ptr) != null ==> heap.live == old(heap.live) - {old(buf.ptr)}
                                       && heap.freed == old(heap.freed) + {old(buf.ptr)}
    {
      buf.Destroy(heap);
    }

    /**
     * CreateFloat32: validate the shape, record shape and layout, size the
     * stride vector, allocate a 64-aligned buffer of product(dims) * 4 bytes,
     * zero it, then store the rank-1 or rank-2 strides; any higher rank is
     * rejected after the buffer has been allocated and zeroed.
     */
    static method CreateFloat32(heap: Heap, shape: Shape, layout: Layout, out: Tensor) returns (r: Result)
      requires heap.Valid() && out.Valid(heap)
      modifies out, out.buf, heap
      ensures heap.Valid() && out.Valid(heap) && out.buf == old(out.buf)
      ensures old(heap.live) <= heap.live && heap.freed == old(heap.freed)
      // an empty shape is rejected before anything is touched
      ensures |shape.dims| == 0 ==>
                r == Result.Error(InvalidArgument, "dims empty") && unchanged(out, out.buf, heap)
      // otherwise shape, layout and the stride count are recorded first
      ensures |shape.dims| > 0 ==>
                out.shape == shape && out.layout == layout && |out.strides| == |shape.dims|
      // a size that does not fit in size_t is rejected before allocating
      ensures |shape.dims| > 0 && ByteSize(shape.dims).None? ==>
                && r == Result.Error(InvalidArgument, "size overflow")
                && unchanged(out.buf, heap)
                && out.strides == Resize(old(out.strides), |shape.dims|)
      // a zero dimension gives 0 bytes, which allocate rejects
      ensures |shape.dims| > 0 && ByteSize(shape.dims) == Some(0) ==>
                && r == Result.Error(InvalidArgument, "bytes=0")
                && unchanged(out.buf, heap)
                && out.strides == Resize(old(out.strides), |shape.dims|)
      // allocator failure is passed on
      ensures r.status == OutOfMemory ==>
                && r == Result.Error(OutOfMemory, "posix_memalign failed")
                && unchanged(out.buf, heap)
                && out.strides == Resize(old(out.strides), |shape.dims|)
      // otherwise a fresh zeroed block of exactly the byte size, 64-aligned
      ensures |shape.dims| > 0 && ByteSize(shape.dims).Some? && ByteSize(shape.dims).value > 0
              && r.status != OutOfMemory ==>
                && out.buf.ptr != null && fresh(out.buf.ptr)
                && out.Bytes() == ByteSize(shape.dims).value == Product(shape.dims) * FLOAT_BYTES
                && out.buf.alignment == TENSOR_ALIGNMENT
                && (forall i :: 0 <= i < out.buf.ptr.Length ==> out.buf.ptr[i] == 0)
                && heap.live == old(heap.live) + {out.buf.ptr} && heap.freed == old(heap.freed)
                && match LibraryStrides(shape.dims, layout)
                   case Some(st) => r == Result.OK() && out.strides == st
                   case None =>
                     && r == Result.Error(InvalidArgument, "only 1D/2D supported in demo")
                     && out.strides == Resize(old(out.strides), |shape.dims|)
    {
      if |shape.dims| == 0 {
        return Result.Error(InvalidArgument, "dims empty");
      }
      out.shape := shape;
      out.layout := layout;
      out.strides := Resize(out.strides, |shape.dims|);
      var size := ByteSize(shape.dims);
      if size.None? {
        return Result.Error(InvalidArgument, "size overflow");
      }
      var bytes := size.value;
      r := out.buf.Allocate(heap, bytes, TENSOR_ALIGNMENT);
      if !r.IsOk() {
        return r;
      }
      ZeroFill(out.buf.ptr);
      r := out.StoreStrides(shape.dims, layout);
    }

    /**
     * The last step of CreateFloat32: write the rank-1 or rank-2 strides into
     * the already sized stride vector, or reject any other rank and leave it.
     */
    method StoreStrides(dims: seq<SizeT>, layout: Layout) returns (r: Result)
      requires |strides| == |dims| >= 1
      modifies this
      ensures buf == old(buf) && shape == old(shape) && this.layout == old(this.layout)
      ensures match LibraryStrides(dims, layout)
              case Some(st) => r == Result.OK() && strides == st
              case None =>
                && r == Result.Error(InvalidArgument, "only 1D/2D supported in demo")
                && strides == old(strides)
    {
      var n := dims[0];
      if |dims| == 1 {
        strides := strides[0 := FLOAT_BYTES];
      } else if |dims| == 2 {
        var c := dims[1];
        if layout == AoS {
          strides := strides[1 := FLOAT_BYTES];
          strides := strides[0 := c * FLOAT_BYTES];
        } else {
          strides := strides[1 := n * FLOAT_BYTES];
          strides := strides[0 := FLOAT_BYTES];
        }
      } else {
        return Result.Error(InvalidArgument, "only 1D/2D supported in demo");
      }
      return Result.OK();
    }

    /**
     * copy_from: when offset + bytes fits in the buffer, copy the first bytes
     * of src to [offset, offset + bytes); otherwise fail with CopyFailed and
     * leave the buffer as it was.
     */
    method CopyFrom(src: seq<bv8>, bytes: SizeT, offset: SizeT := 0) returns (r: Result)
      requires buf.SizeMatches() && bytes <= |src|
      modifies buf.ptr
      ensures r.IsOk() <==> offset + bytes <= Bytes()
      ensures !r.IsOk() ==> r == Result.Error(CopyFailed, "copy_from overflow") && Contents() == old(Contents())
      ensures r.IsOk() ==> r == Result.OK() && Contents() == Written(old(Contents()), src[..bytes], offset)
    {
      if !CopyFits(buf.bytes, offset, bytes) {
        return Result.Error(CopyFailed, "copy_from overflow");
      }
      var block := buf.ptr;
      if block != null {
        forall i | offset <= i < offset + bytes {
          block[i] := src[i - offset];
        }
      }
      return Result.OK();
    }

    /**
     * copy_to: the same bounds check; on success dst[0, bytes) receives the
     * buffer's bytes [offset, offset + bytes). The buffer is never modified.
     */
    method CopyTo(dst: array<bv8>, bytes: SizeT, offset: SizeT := 0) returns (r: Result)
      requires buf.SizeMatches() && bytes <= dst.Length && dst != buf.ptr
      modifies dst
      ensures Contents() == old(Contents())
      ensures r.IsOk() <==> offset + bytes <= Bytes()
      ensures !r.IsOk() ==> r == Result.Error(CopyFailed, "copy_to overflow") && unchanged(dst)
      ensures r.IsOk() ==> r == Result.OK() && dst[..bytes] == Read(Contents(), offset, bytes)
                           && dst[bytes..] == old(dst[bytes..])
    {
      if !CopyFits(buf.bytes, offset, bytes) {
        return Result.Error(CopyFailed, "copy_to overflow");
      }
      var block := buf.ptr;
      if block != null {
        forall i | 0 <= i < bytes {
          dst[i] := block[offset + i];
        }
      }
      return Result.OK();
    }
  }

  /** memset(block, 0, size): every byte of the block becomes 0. */
  method ZeroFill(block: array<bv8>)
    modifies block
    ensures forall i :: 0 <= i < block.Length ==> block[i] == 0
  {
    forall i | 0 <= i < block.Length {
      block[i] := 0;
    }
  }

  /** copy_from then copy_to with the same length and offset gives back the source bytes. */
  method CopyRoundTrip(t: Tensor, src: seq<bv8>, offset: SizeT, dst: array<bv8>) returns (r1: Result, r2: Result)
    requires t.buf.SizeMatches() && |src| < SIZE_LIMIT && |src| <= dst.Length && dst != t.buf.ptr
    modifies t.buf.ptr, dst
    ensures r1.IsOk() <==> offset + |src| <= t.Bytes()
    ensures r1.IsOk() ==> r2.IsOk() && dst[..|src|] == src
  {
    r1 := t.CopyFrom(src, |src|, offset);
    r2 := t.CopyTo(dst, |src|, offset);
    if r1.IsOk() {
      ReadAfterWrite(old(t.Contents()), src, offset);
    }
  }
}
