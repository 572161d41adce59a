/**
 * The aligned raw buffer: one block from the platform allocator, owned by
 * exactly one AlignedBuffer and released exactly once.
 */
module AlignedAlloc {
  import opened StatusResult

  /** size_t: the values of a 64-bit unsigned integer. */
  const SIZE_LIMIT: int := 0x1_0000_0000_0000_0000
  type SizeT = x: nat | x < SIZE_LIMIT

  /** 2^k as a 64-bit word; exponents are 7-bit words below 64. */
  function Pow2(k: bv7): bv64
    requires k < 64
  {
    1 << k
  }

  /** The bit test of the source: nonzero, and clearing the lowest set bit leaves nothing. */
  function IsPowerOfTwo(x: bv64): (b: bool)
    ensures b <==> exists k: bv7 :: k < 64 && x == Pow2(k)
  {
    IsPowerOfTwoIff(x);
    SingleBit(x)
  }

  /** x has exactly one bit set: x != 0 and x & (x - 1) == 0. */
  predicate SingleBit(x: bv64) {
    x != 0 && x & (x - 1) == 0
  }

  /** A single-bit word below 2^k that is not 2^(k-1) lies below 2^(k-1). */
  lemma PowerOfTwoBelow(x: bv64, k: bv7)
    requires SingleBit(x) && 1 <= k <= 64 && x >> k == 0 && x != Pow2(k - 1)
    ensures x >> (k - 1) == 0
  {
  }

  lemma {:induction false} PowerOfTwoHasExponent(x: bv64, k: bv7)
    requires SingleBit(x) && 1 <= k <= 64 && x >> k == 0
    ensures exists j: bv7 :: j < k && x == Pow2(j)
    decreases k
  {
    if x == Pow2(k - 1) {
    } else if k == 1 {
      assert false;
    } else {
      PowerOfTwoBelow(x, k);
      PowerOfTwoHasExponent(x, k - 1);
    }
  }

  /** The bit test accepts exactly the 64 words 2^0 .. 2^63; in particular 0 is rejected. */
  lemma IsPowerOfTwoIff(x: bv64)
    ensures SingleBit(x) <==> exists k: bv7 :: k < 64 && x == Pow2(k)
  {
    if SingleBit(x) {
      PowerOfTwoHasExponent(x, 64);
    }
    if exists k: bv7 :: k < 64 && x == Pow2(k) {
      var k: bv7 :| k < 64 && x == Pow2(k);
      assert Pow2(k) & (Pow2(k) - 1) == 0;
    }
  }

  /**
   * The platform allocator (posix_memalign / free), kept abstract: a request
   * may fail, and a granted block is a fresh array. The ghost ledger records
   * which blocks are live and which have been freed.
   */
  class Heap {
    ghost var live: set<array<bv8>>
    ghost var freed: set<array<bv8>>

    /** No block is both live and freed. */
    ghost predicate Valid()
      reads this
    {
      live !! freed
    }

    constructor ()
      ensures Valid() && live == {} && freed == {}
    {
      live, freed := {}, {};
    }

    /** Request a block of n bytes; the platform may refuse (a null result). */
    method Malloc(n: nat) returns (p: array?<bv8>)
      requires Valid()
      modifies this
      ensures Valid()
      ensures p == null ==> unchanged(this)
      ensures p != null ==> fresh(p) && p.Length == n && live == old(live) + {p} && freed == old(freed)
    {
      var granted: bool :| true;
      if granted {
        p := new bv8[n];
        live := live + {p};
      } else {
        p := null;
      }
    }

    /** Return a live block; a block can only be freed while it is live, hence at most once. */
    method Free(p: array<bv8>)
      requires Valid() && p in live
      modifies this
      ensures Valid()
      ensures live == old(live) - {p} && freed == old(freed) + {p}
    {
      live := live - {p};
      freed := freed + {p};
    }
  }

  /** An owning handle to one aligned block: pointer, size in bytes, alignment. */
  class AlignedBuffer {
    var ptr: array?<bv8>
    var bytes: SizeT
    var alignment: bv64

    /** The size field describes the block: 0 when null, its length otherwise. */
    ghost predicate SizeMatches()
      reads this
    {
      if ptr == null then bytes == 0 && alignment == 0 else ptr.Length == bytes
    }

    /** Empty (null/0/0), or holding a live block of exactly `bytes` bytes with a power-of-two alignment. */
    ghost predicate Valid(heap: Heap)
      reads this, heap
    {
      && SizeMatches()
      && (ptr != null ==> bytes > 0 && IsPowerOfTwo(alignment) && ptr in heap.live)
    }

    ghost predicate IsEmpty()
      reads this
    {
      ptr == null && bytes == 0 && alignment == 0
    }

    /** The default buffer is null/0/0. */
    constructor ()
      ensures IsEmpty()
    {
      ptr, bytes, alignment := null, 0, 0;
    }

    /** The sized constructor: calls allocate and discards its result. */
    constructor Sized(heap: Heap, bytes: SizeT, alignment: bv64 := 64)
      requires heap.Valid()
      modifies heap
      ensures heap.Valid() && Valid(heap)
      ensures bytes == 0 || !IsPowerOfTwo(alignment) ==> IsEmpty() && unchanged(heap)
      ensures ptr == null ==> IsEmpty() && unchanged(heap)
      ensures ptr != null ==> fresh(ptr) && this.bytes == bytes && this.alignment == alignment
                              && heap.live == old(heap.live) + {ptr} && heap.freed == old(heap.freed)
    {
      ptr, this.bytes, this.alignment := null, 0, 0;
      new;
      var _ := Allocate(heap, bytes, alignment);
    }

    /** Move construction: take all three fields and leave the source empty. */
    constructor MoveFrom(other: AlignedBuffer)
      modifies other
      ensures ptr == old(other.ptr) && bytes == old(other.bytes) && alignment == old(other.alignment)
      ensures other.IsEmpty()
    {
      ptr, bytes, alignment := other.ptr, other.bytes, other.alignment;
      new;
      other.ptr, other.bytes, other.alignment := null, 0, 0;
    }

    /**
     * allocate: checks bytes, then alignment, then asks the platform. Every
     * failure leaves the fields as they were. On success the fields are
     * overwritten without releasing a block already held.
     */
    method Allocate(heap: Heap, bytes: SizeT, alignment: bv64 := 64) returns (r: Result)
      requires heap.Valid() && Valid(heap)
      modifies this, heap
      ensures heap.Valid() && Valid(heap)
      ensures bytes == 0 ==> r == Result.Error(InvalidArgument, "bytes=0")
      ensures bytes != 0 && !IsPowerOfTwo(alignment) ==>
                r == Result.Error(AlignmentError, "alignment not power of two")
      ensures bytes != 0 && IsPowerOfTwo(alignment) ==>
                r == Result.OK() || r == Result.Error(OutOfMemory, "posix_memalign failed")
      ensures !r.IsOk() ==> unchanged(this) && unchanged(heap)
      ensures r.IsOk() ==> ptr != null && fresh(ptr) && this.bytes == bytes && this.alignment == alignment
                           && heap.live == old(heap.live) + {ptr} && heap.freed == old(heap.freed)
    {
      if bytes == 0 {
        return Result.Error(InvalidArgument, "bytes=0");
      }
      if !IsPowerOfTwo(alignment) {
        return Result.Error(AlignmentError, "alignment not power of two");
      }
      var p := heap.Malloc(bytes);
      if p == null {
        return Result.Error(OutOfMemory, "posix_memalign failed");
      }
      ptr := p;
      this.bytes := bytes;
      this.alignment := alignment;
      return Result.OK();
    }

    /** release: a no-op when empty; otherwise frees the block and resets to null/0/0. */
    method Release(heap: Heap)
      requires heap.Valid() && Valid(heap)
      modifies this, heap
      ensures heap.Valid() && Valid(heap) && IsEmpty()
      ensures old(ptr) == null ==> unchanged(heap)
      ensures old(ptr) != null ==> heap.live == old(heap.live) - {old(ptr)}
                                   && heap.freed == old(heap.freed) + {old(ptr)}
    {
      if ptr == null {
        return;
      }
      heap.Free(ptr);
      ptr, bytes, alignment := null, 0, 0;
    }

    /** The destructor releases whatever the buffer still owns. */
    method Destroy(heap: Heap)
      requires heap.Valid() && Valid(heap)
      modifies this, heap
      ensures heap.Valid() && IsEmpty()
      ensures old(ptr) == null ==> unchanged(heap)
      ensures old(ptr) != null ==> heap.live == old(heap.live) - {old(ptr)}
                                   && heap.freed == old(heap.freed) + {old(ptr)}
    {
      Release(heap);
    }

    /**
     * Move assignment: a no-op on self; otherwise release the old block, take
     * the source's fields and empty the source. Two distinct buffers never
     * hold the same block (unique ownership).
     */
    method MoveAssign(heap: Heap, other: AlignedBuffer)
      requires heap.Valid() && Valid(heap) && other.Valid(heap)
      requires this != other ==> ptr == null || ptr != other.ptr
      modifies this, other, heap
      ensures heap.Valid() && Valid(heap) && other.Valid(heap)
      ensures this == other ==> unchanged(this) && unchanged(heap)
      ensures this != other ==>
                && ptr == old(other.ptr) && bytes == old(other.bytes) && alignment == old(other.alignment)
                && other.IsEmpty()
                && (old(ptr) == null ==> unchanged(heap))
                && (old(ptr) != null ==> heap.live == old(heap.live) - {old(ptr)}
                                         && heap.freed == old(heap.freed) + {old(ptr)})
    {
      if this != other {
        Release(heap);
        ptr, bytes, alignment := other.ptr, other.bytes, other.alignment;
        other.ptr, other.bytes, other.alignment := null, 0, 0;
      }
    }
  }

  /** release is idempotent: a second call changes nothing. */
  method ReleaseTwice(heap: Heap, b: AlignedBuffer)
    requires heap.Valid() && b.Valid(heap)
    modifies b, heap
    ensures heap.Valid() && b.IsEmpty()
    ensures old(b.ptr) != null ==> heap.live == old(heap.live) - {old(b.ptr)}
                                   && heap.freed == old(heap.freed) + {old(b.ptr)}
    ensures old(b.ptr) == null ==> unchanged(heap)
  {
    b.Release(heap);
    ghost var once := heap.freed;
    b.Release(heap);
    assert heap.freed == once;
  }

  /**
   * A block handed on only by moves (move construction, then move assignment
   * into an empty buffer) is freed exactly once when the three buffers are
   * destroyed.
   */
  method MovedBlockFreedOnce(heap: Heap) returns (ghost block: array?<bv8>)
    requires heap.Valid()
    modifies heap
    ensures heap.Valid()
    ensures block == null ==> unchanged(heap)
    ensures block != null ==> block !in heap.live && heap.freed == old(heap.freed) + {block}
                              && heap.live == old(heap.live)
  {
    var a := new AlignedBuffer.Sized(heap, 256, 64);
    block := a.ptr;
    var b := new AlignedBuffer.MoveFrom(a);
    var c := new AlignedBuffer();
    c.MoveAssign(heap, b);
    a.Destroy(heap);
    b.Destroy(heap);
    c.Destroy(heap);
  }

  /**
   * A second successful allocate overwrites the held block without freeing it:
   * the first block stays live and no buffer refers to it any more (a leak).
   */
  method ReallocateLeaks(heap: Heap, b: AlignedBuffer) returns (r1: Result, r2: Result)
    requires heap.Valid() && b.Valid(heap)
    modifies b, heap
    ensures heap.Valid() && b.Valid(heap)
    ensures r1.IsOk() && r2.IsOk() ==>
              exists first :: first in heap.live && first !in heap.freed && first != b.ptr && fresh(first)
  {
    r1 := b.Allocate(heap, 64, 64);
    ghost var first := b.ptr;
    r2 := b.Allocate(heap, 128, 64);
    if r1.IsOk() && r2.IsOk() {
      assert first in heap.live && first != b.ptr;
    }
  }
}
