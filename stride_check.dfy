/**
 * The reference stride rule of the stride-check example, for any rank:
 * row-major (AoS) from the right, column-major (SoA) from the left.
 */
module StrideCheck {
  import opened StatusResult
  import opened AlignedAlloc
  import opened TensorCore

  /** Row-major closed form: stride i is 4 times the product of the dimensions after i. */
  function RowMajorStrides(dims: seq<nat>): seq<nat> {
    seq(|dims|, i requires 0 <= i < |dims| => FLOAT_BYTES * Product(dims[i + 1..]))
  }

  /** Column-major closed form: stride i is 4 times the product of the dimensions before i. */
  function ColMajorStrides(dims: seq<nat>): seq<nat> {
    seq(|dims|, i requires 0 <= i < |dims| => FLOAT_BYTES * Product(dims[..i]))
  }

  function ReferenceStrides(dims: seq<nat>, layout: Layout): seq<nat> {
    if layout == AoS then RowMajorStrides(dims) else ColMajorStrides(dims)
  }

  /**
   * The `expected` vector of print_strides: AoS sets the last entry to 4 and
   * walks down, SoA sets the first entry to 4 and walks up.
   */
  method ExpectedStrides(dims: seq<nat>, layout: Layout) returns (expected: seq<nat>)
    requires |dims| >= 1
    ensures expected == ReferenceStrides(dims, layout)
  {
    var e := new nat[|dims|];
    if layout == AoS {
      FillRowMajor(dims, e);
    } else {
      FillColMajor(dims, e);
    }
    expected := e[..];
  }

  /** The descending loop: the last entry is 4, each entry the next one times the next dimension. */
  method FillRowMajor(dims: seq<nat>, e: array<nat>)
    requires e.Length == |dims| >= 1
    modifies e
    ensures e[..] == RowMajorStrides(dims)
  {
    var n := |dims|;
    e[n - 1] := FLOAT_BYTES;
    assert dims[n..] == [];
    var i := n - 2;
    while i >= 0
      invariant -1 <= i <= n - 2
      invariant forall j :: i < j < n ==> e[j] == FLOAT_BYTES * Product(dims[j + 1..])
    {
      assert dims[i + 1..][1..] == dims[i + 2..];
      e[i] := e[i + 1] * dims[i + 1];
      i := i - 1;
    }
  }

  /** The ascending loop: the first entry is 4, each entry the previous one times the previous dimension. */
  method FillColMajor(dims: seq<nat>, e: array<nat>)
    requires e.Length == |dims| >= 1
    modifies e
    ensures e[..] == ColMajorStrides(dims)
  {
    var n := |dims|;
    e[0] := FLOAT_BYTES;
    assert dims[..0] == [];
    for i := 1 to n
      invariant forall j :: 0 <= j < i ==> e[j] == FLOAT_BYTES * Product(dims[..j])
    {
      assert dims[..i] == dims[..i - 1] + [dims[i - 1]];
      ProductAppend(dims[..i - 1], dims[i - 1]);
      e[i] := e[i - 1] * dims[i - 1];
    }
  }

  /** Row-major: the last stride is 4 and each stride is the next one times the next dimension. */
  lemma RowMajorRecurrence(dims: seq<nat>)
    requires |dims| >= 1
    ensures RowMajorStrides(dims)[|dims| - 1] == FLOAT_BYTES
    ensures forall i :: 0 <= i < |dims| - 1 ==>
              RowMajorStrides(dims)[i] == RowMajorStrides(dims)[i + 1] * dims[i + 1]
  {
    assert dims[|dims|..] == [];
    forall i | 0 <= i < |dims| - 1
      ensures RowMajorStrides(dims)[i] == RowMajorStrides(dims)[i + 1] * dims[i + 1]
    {
      assert dims[i + 1..][1..] == dims[i + 2..];
    }
  }

  /** Column-major: the first stride is 4 and each stride is the previous one times the previous dimension. */
  lemma ColMajorRecurrence(dims: seq<nat>)
    requires |dims| >= 1
    ensures ColMajorStrides(dims)[0] == FLOAT_BYTES
    ensures forall i :: 0 < i < |dims| ==>
              ColMajorStrides(dims)[i] == ColMajorStrides(dims)[i - 1] * dims[i - 1]
  {
    assert dims[..0] == [];
    forall i | 0 < i < |dims|
      ensures ColMajorStrides(dims)[i] == ColMajorStrides(dims)[i - 1] * dims[i - 1]
    {
      assert dims[..i] == dims[..i - 1] + [dims[i - 1]];
      ProductAppend(dims[..i - 1], dims[i - 1]);
    }
  }

  /** For rank 1 and 2 the strides CreateFloat32 stores are exactly the reference strides. */
  lemma LibraryAgreesWithReference(dims: seq<nat>, layout: Layout)
    requires 1 <= |dims| <= 2
    ensures LibraryStrides(dims, layout) == Some(ReferenceStrides(dims, layout))
  {
    assert dims[..0] == [] && dims[|dims|..] == [];
    assert Product([]) == 1;
    if |dims| == 1 {
      assert ReferenceStrides(dims, layout) == [FLOAT_BYTES];
    } else {
      assert dims[1..] == [dims[1]] && dims[..1] == [dims[0]];
      assert Product([dims[1]]) == dims[1] && Product([dims[0]]) == dims[0] by {
        assert [dims[1]][1..] == [] && [dims[0]][1..] == [];
      }
      assert ReferenceStrides(dims, layout)
             == if layout == AoS then [dims[1] * FLOAT_BYTES, FLOAT_BYTES] else [FLOAT_BYTES, dims[0] * FLOAT_BYTES];
    }
  }

  /** For rank 3 and more the library stores no strides while the reference still defines them. */
  lemma LibraryDivergesAboveRankTwo(dims: seq<nat>, layout: Layout)
    requires |dims| >= 3
    ensures LibraryStrides(dims, layout).None?
    ensures |ReferenceStrides(dims, layout)| == |dims|
    ensures (forall i :: 0 <= i < |dims| ==> dims[i] > 0) ==>
              forall i :: 0 <= i < |dims| ==> ReferenceStrides(dims, layout)[i] > 0
  {
  }

  /** The worked cases of the stride-check example. */
  lemma ReferenceExamples()
    ensures ReferenceStrides([2, 3, 4], AoS) == [48, 16, 4]
    ensures ReferenceStrides([2, 3, 4], SoA) == [4, 8, 24]
    ensures ReferenceStrides([2, 3, 4, 5], AoS) == [240, 80, 20, 4]
  {
    var a, b := [2, 3, 4], [2, 3, 4, 5];
    assert Product([5]) == 5 && Product([4]) == 4 && Product([2]) == 2 by {
      assert [5][1..] == [] && [4][1..] == [] && [2][1..] == [];
    }
    assert Product([4, 5]) == 20 && Product([2, 3]) == 6 by {
      assert [4, 5][1..] == [5] && [2, 3][1..] == [3];
      assert Product([3]) == 3 by { assert [3][1..] == []; }
    }
    assert Product([3, 4]) == 12 by { assert [3, 4][1..] == [4]; }
    assert Product([3, 4, 5]) == 60 by { assert [3, 4, 5][1..] == [4, 5]; }
    assert a[1..] == [3, 4] && a[2..] == [4] && a[3..] == [];
    assert a[..0] == [] && a[..1] == [2] && a[..2] == [2, 3];
    assert b[1..] == [3, 4, 5] && b[2..] == [4, 5] && b[3..] == [5] && b[4..] == [];
    assert RowMajorStrides(a) == [48, 16, 4];
    assert ColMajorStrides(a) == [4, 8, 24];
    assert RowMajorStrides(b) == [240, 80, 20, 4];
  }

  /**
   * One case of the stride-check example: a fresh tensor of rank 3 or more
   * is rejected, so the strides it prints are all 0 while the expected ones
   * are the reference strides.
   */
  method StrideCheckCase(heap: Heap, shape: Shape, layout: Layout)
      returns (r: Result, calculated: seq<nat>, expected: seq<nat>)
    requires heap.Valid() && |shape.dims| >= 3
    modifies heap
    ensures heap.Valid()
    ensures r.status == InvalidArgument || r.status == OutOfMemory
    ensures calculated == seq(|shape.dims|, _ => 0)
    ensures expected == ReferenceStrides(shape.dims, layout)
    ensures (forall i :: 0 <= i < |shape.dims| ==> shape.dims[i] > 0) ==> calculated != expected
  {
    var t := new Tensor();
    r := Tensor.CreateFloat32(heap, shape, layout, t);
    calculated := t.strides;
    expected := ExpectedStrides(shape.dims, layout);
    LibraryDivergesAboveRankTwo(shape.dims, layout);
    if forall i :: 0 <= i < |shape.dims| ==> shape.dims[i] > 0 {
      assert calculated[0] == 0 < expected[0];
    }
  }
}
