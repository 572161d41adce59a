/**
 * The AoS to SoA example: fill an N x C row-major buffer, then transpose it
 * so that each channel is contiguous, and copy both into tensors.
 */
module AosSoaTransform {
  import opened StatusResult
  import opened AlignedAlloc
  import opened TensorCore

  /** Flat index of (i, j) in an array of rows of length width. */
  function FlatIndex(i: nat, j: nat, width: nat): nat {
    i * width + j
  }

  /** Where sample n, channel c sits in the AoS buffer: [n][c]. */
  function AosIndex(n: nat, c: nat, C: nat): nat {
    FlatIndex(n, c, C)
  }

  /** Where sample n, channel c sits in the SoA buffer: [c][n]. */
  function SoaIndex(n: nat, c: nat, N: nat): nat {
    FlatIndex(c, n, N)
  }

  /** (i, j) with i < rows and j < width lands inside [0, rows * width). */
  lemma FlatIndexInRange(i: nat, j: nat, rows: nat, width: nat)
    requires i < rows && j < width
    ensures FlatIndex(i, j, width) < rows * width
  {
    MulAtLeast(rows - i, width);
    assert (rows - i) * width == rows * width - i * width by { MulSub(rows, i, width); }
  }

  /** A flat index determines its row and column. */
  lemma FlatIndexDecompose(i: nat, j: nat, width: nat)
    requires j < width
    ensures FlatIndex(i, j, width) / width == i && FlatIndex(i, j, width) % width == j
  {
    DivModUnique(FlatIndex(i, j, width), i, j, width);
  }

  /** Every k in [0, rows * width) is the flat index of (k / width, k % width). */
  lemma FlatIndexCovers(k: nat, rows: nat, width: nat)
    requires k < rows * width
    ensures width > 0 && k / width < rows && k % width < width
    ensures FlatIndex(k / width, k % width, width) == k
  {
    if width == 0 {
      assert false;
    } else if k / width >= rows {
      MulLeq(rows, k / width, width);
      assert false;
    }
  }

  lemma MulLeq(a: nat, b: nat, m: nat)
    requires a <= b
    ensures a * m <= b * m
  {
  }

  /** The SoA slot that receives AoS element k. */
  function SoaSlot(k: nat, N: nat, C: nat): nat
    requires C > 0
  {
    SoaIndex(k / C, k % C, N)
  }

  /** The AoS element that SoA slot j receives. */
  function AosSlot(j: nat, N: nat, C: nat): nat
    requires N > 0
  {
    AosIndex(j % N, j / N, C)
  }

  /**
   * (n, c) -> c * N + n is a bijection of [0, N * C): SoaSlot and AosSlot map
   * the range into itself and undo each other, so every slot is written
   * exactly once and the SoA buffer is a permutation of the AoS buffer.
   */
  lemma TransposeInverse(N: nat, C: nat)
    ensures N * C > 0 ==> N > 0 && C > 0
    ensures forall k :: 0 <= k < N * C ==>
              SoaSlot(k, N, C) < N * C && AosSlot(SoaSlot(k, N, C), N, C) == k
    ensures forall j :: 0 <= j < N * C ==>
              AosSlot(j, N, C) < N * C && SoaSlot(AosSlot(j, N, C), N, C) == j
  {
    forall k | 0 <= k < N * C
      ensures SoaSlot(k, N, C) < N * C && AosSlot(SoaSlot(k, N, C), N, C) == k
    {
      FlatIndexCovers(k, N, C);
      var n, c := k / C, k % C;
      FlatIndexInRange(c, n, C, N);
      assert C * N == N * C;
      FlatIndexDecompose(c, n, N);
    }
    forall j | 0 <= j < N * C
      ensures AosSlot(j, N, C) < N * C && SoaSlot(AosSlot(j, N, C), N, C) == j
    {
      assert C * N == N * C;
      FlatIndexCovers(j, C, N);
      var n, c := j % N, j / N;
      FlatIndexInRange(n, c, N, C);
      FlatIndexDecompose(n, c, C);
    }
  }

  /** tmp is the AoS fill of an N x C buffer: value n * 10 + c at [n][c]. */
  ghost predicate IsAosFill(tmp: seq<int>, N: nat, C: nat) {
    && |tmp| == N * C
    && forall n, c :: 0 <= n < N && 0 <= c < C ==>
         AosIndex(n, c, C) < N * C && tmp[AosIndex(n, c, C)] == n * 10 + c
  }

  /** soa is the SoA transpose of tmp: every slot j holds the AoS element AosSlot(j) names. */
  ghost predicate IsTransposeOf(soa: seq<int>, tmp: seq<int>, N: nat, C: nat) {
    && |tmp| == N * C && |soa| == N * C
    && forall j :: 0 <= j < N * C ==> AosSlot(j, N, C) < N * C && soa[j] == tmp[AosSlot(j, N, C)]
  }

  /** The positions of s that hold x. */
  function Occurrences(s: seq<int>, x: int): set<nat> {
    set i: nat | i < |s| && s[i] == x
  }

  /** The multiplicity of x in s is the number of positions holding it. */
  lemma {:induction false} MultiplicityIsOccurrences(s: seq<int>, x: int)
    ensures multiset(s)[x] == |Occurrences(s, x)|
    decreases |s|
  {
    if s != [] {
      var n := |s| - 1;
      var init := s[..n];
      assert s == init + [s[n]];
      MultiplicityIsOccurrences(init, x);
      if s[n] == x {
        assert Occurrences(s, x) == Occurrences(init, x) + {n};
      } else {
        assert Occurrences(s, x) == Occurrences(init, x);
      }
    }
  }

  /** The image of a set of AoS slots under SoaSlot has as many elements as the set. */
  lemma {:induction false} SoaSlotImageSize(S: set<nat>, N: nat, C: nat)
    requires forall k :: k in S ==> k < N * C
    ensures C > 0 || S == {}
    ensures C > 0 ==> |set k | k in S :: SoaSlot(k, N, C)| == |S|
    decreases S
  {
    if S != {} {
      var k0 :| k0 in S;
      assert C > 0;
      var rest := S - {k0};
      SoaSlotImageSize(rest, N, C);
      TransposeInverse(N, C);
      var img := set k | k in S :: SoaSlot(k, N, C);
      var imgRest := set k | k in rest :: SoaSlot(k, N, C);
      assert img == imgRest + {SoaSlot(k0, N, C)};
      assert SoaSlot(k0, N, C) !in imgRest;
    }
  }

  /** A buffer filled by the transpose holds the same values, each as often, as the one it was filled from. */
  lemma TransposeIsPermutation(tmp: seq<int>, soa: seq<int>, N: nat, C: nat)
    requires IsTransposeOf(soa, tmp, N, C)
    ensures multiset(soa) == multiset(tmp)
  {
    TransposeInverse(N, C);
    forall x
      ensures multiset(soa)[x] == multiset(tmp)[x]
    {
      MultiplicityIsOccurrences(soa, x);
      MultiplicityIsOccurrences(tmp, x);
      var T := Occurrences(tmp, x);
      if C > 0 {
        SoaSlotImageSize(T, N, C);
        assert (set k | k in T :: SoaSlot(k, N, C)) == Occurrences(soa, x) by {
          forall j | j in Occurrences(soa, x)
            ensures j in (set k | k in T :: SoaSlot(k, N, C))
          {
            assert AosSlot(j, N, C) in T;
          }
        }
      } else {
        assert N * C == 0;
      }
    }
  }

  /** Row (i, width) is the start of row i + 1. */
  lemma FlatIndexNext(i: nat, width: nat)
    ensures FlatIndex(i, width, width) == FlatIndex(i + 1, 0, width)
  {
  }

  /** The fill loop: value n * 10 + c at AoS position [n][c]. */
  method AosFill(N: nat, C: nat) returns (tmp: seq<int>)
    ensures IsAosFill(tmp, N, C)
  {
    var a := new int[N * C];
    // the loops visit the flat indices in increasing order
    for n := 0 to N
      invariant FlatIndex(n, 0, C) <= N * C
      invariant forall k :: 0 <= k < FlatIndex(n, 0, C) ==> a[k] == (k / C) * 10 + k % C
    {
      for c := 0 to C
        invariant FlatIndex(n, c, C) <= N * C
        invariant forall k :: 0 <= k < FlatIndex(n, c, C) ==> a[k] == (k / C) * 10 + k % C
      {
        FlatIndexInRange(n, c, N, C);
        FlatIndexDecompose(n, c, C);
        a[AosIndex(n, c, C)] := n * 10 + c;
      }
      FlatIndexNext(n, C);
      MulLeq(n + 1, N, C);
    }
    tmp := a[..];
    forall n, c | 0 <= n < N && 0 <= c < C
      ensures AosIndex(n, c, C) < N * C && tmp[AosIndex(n, c, C)] == n * 10 + c
    {
      FlatIndexInRange(n, c, N, C);
      FlatIndexDecompose(n, c, C);
    }
  }

  /** The transpose loop: soa[c * N + n] = tmp[n * C + c] for every sample and channel. */
  method AosToSoa(tmp: seq<int>, N: nat, C: nat) returns (soa: seq<int>)
    requires |tmp| == N * C
    ensures IsTransposeOf(soa, tmp, N, C)
    ensures forall n, c :: 0 <= n < N && 0 <= c < C ==>
              SoaIndex(n, c, N) < N * C && AosIndex(n, c, C) < N * C
              && soa[SoaIndex(n, c, N)] == tmp[AosIndex(n, c, C)]
    ensures multiset(soa) == multiset(tmp)
  {
    var a := new int[N * C];
    assert C * N == N * C;
    // the loops visit the SoA slots in increasing order
    for c := 0 to C
      invariant FlatIndex(c, 0, N) <= N * C
      invariant forall j :: 0 <= j < FlatIndex(c, 0, N) ==>
                  AosSlot(j, N, C) < N * C && a[j] == tmp[AosSlot(j, N, C)]
    {
      for n := 0 to N
        invariant FlatIndex(c, n, N) <= N * C
        invariant forall j :: 0 <= j < FlatIndex(c, n, N) ==>
                    AosSlot(j, N, C) < N * C && a[j] == tmp[AosSlot(j, N, C)]
      {
        FlatIndexInRange(c, n, C, N);
        FlatIndexInRange(n, c, N, C);
        FlatIndexDecompose(c, n, N);
        a[SoaIndex(n, c, N)] := tmp[AosIndex(n, c, C)];
      }
      FlatIndexNext(c, N);
      MulLeq(c + 1, C, N);
    }
    soa := a[..];
    forall n, c | 0 <= n < N && 0 <= c < C
      ensures SoaIndex(n, c, N) < N * C && AosIndex(n, c, C) < N * C
              && soa[SoaIndex(n, c, N)] == tmp[AosIndex(n, c, C)]
    {
      FlatIndexInRange(c, n, C, N);
      FlatIndexInRange(n, c, N, C);
      FlatIndexDecompose(c, n, N);
    }
    TransposeIsPermutation(tmp, soa, N, C);
  }

  /** With N = 4 and C = 3, the value 10 (n = 1, c = 0) sits at AoS index 3 and lands at SoA index 1. */
  method TransformExample() returns (tmp: seq<int>, soa: seq<int>)
    ensures IsAosFill(tmp, 4, 3) && IsTransposeOf(soa, tmp, 4, 3) && multiset(soa) == multiset(tmp)
    ensures |tmp| == 12 && |soa| == 12
    ensures tmp[3] == 10 && soa[1] == 10
  {
    tmp := AosFill(4, 3);
    soa := AosToSoa(tmp, 4, 3);
    assert AosIndex(1, 0, 3) == 3 && SoaIndex(1, 0, 4) == 1;
  }

  /** Each copy of the example moves N * C * 4 bytes into an N * C * 4-byte tensor, so it passes the bounds check. */
  lemma ExampleCopiesFit(N: SizeT, C: SizeT)
    requires ByteSize([N, C]).Some?
    ensures ByteSize([N, C]).value == N * C * FLOAT_BYTES
    ensures CopyFits(ByteSize([N, C]).value, 0, N * C * FLOAT_BYTES)
  {
    assert [N, C][1..] == [C] && [C][1..] == [];
    assert Product([C]) == C;
    assert Product([N, C]) == N * C;
  }

  /** The two CreateFloat32 calls of the example: on success each tensor owns its own 48-byte block. */
  method CreateExampleTensors(heap: Heap) returns (r1: Result, r2: Result, aos: Tensor, soa: Tensor)
    requires heap.Valid()
    modifies heap
    ensures heap.Valid() && aos.buf.SizeMatches() && soa.buf.SizeMatches()
    ensures r1.IsOk() && r2.IsOk() ==>
              && aos.buf.ptr != null && soa.buf.ptr != null && aos.buf.ptr != soa.buf.ptr
              && fresh(aos.buf.ptr) && fresh(soa.buf.ptr)
              && aos.Bytes() == 48 && soa.Bytes() == 48
              && aos.layout == AoS && soa.layout == SoA && aos.strides == [12, 4] && soa.strides == [4, 16]
  {
    assert [4, 3][1..] == [3] && [3][1..] == [];
    assert Product([4, 3]) == 12;
    ExampleCopiesFit(4, 3);
    assert LibraryStrides([4, 3], AoS) == Some([12, 4]) && LibraryStrides([4, 3], SoA) == Some([4, 16]);
    aos := new Tensor();
    soa := new Tensor();
    r1 := Tensor.CreateFloat32(heap, Shape([4, 3]), AoS, aos);
    r2 := Tensor.CreateFloat32(heap, Shape([4, 3]), SoA, soa);
  }

  /**
   * The example program: create an AoS and an SoA tensor of shape [4, 3],
   * fill the AoS data and copy it into the first, transpose it and copy the
   * result into the second. `encode` stands for the bytes of a float vector.
   */
  method AosSoaExample(heap: Heap, encode: seq<int> -> seq<bv8>)
      returns (r1: Result, r2: Result, c1: Result, c2: Result,
               aos: Tensor, soa: Tensor, tmp: seq<int>, soaData: seq<int>)
    requires heap.Valid()
    requires forall v :: |encode(v)| == FLOAT_BYTES * |v|
    modifies heap
    ensures heap.Valid()
    ensures IsAosFill(tmp, 4, 3) && IsTransposeOf(soaData, tmp, 4, 3) && multiset(soaData) == multiset(tmp)
    ensures |tmp| == 12 && |soaData| == 12 && tmp[3] == 10 && soaData[1] == 10
    ensures r1.IsOk() && r2.IsOk() ==>
              && c1.IsOk() && c2.IsOk()
              && aos.Contents() == encode(tmp) && soa.Contents() == encode(soaData)
  {
    tmp, soaData := TransformExample();
    r1, r2, aos, soa := CreateExampleTensors(heap);
    if !r1.IsOk() || !r2.IsOk() {
      c1, c2 := r1, r2;
      return;
    }
    var aosBytes, soaBytes := encode(tmp), encode(soaData);
    c1 := aos.CopyFrom(aosBytes, 48);
    c2 := soa.CopyFrom(soaBytes, 48);
  }
}
