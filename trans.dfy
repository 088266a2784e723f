/**
 * The matrix transpose kernels of the cache lab: B becomes the transpose of
 * A, where A has N rows and M columns (`int A[N][M]`) and B has M rows and
 * N columns (`int B[M][N]`).
 *
 * The kernels work in place on B with nested loops, as the C code does; the
 * blocked ones copy through local temporaries and, for N == 64, park half a
 * block in B and move it later.  Every method is proved against the
 * predicate TransposedOn, and none of them may write A.
 */
module Trans {

  /**
   * Every cell (r, c) of A with r0 <= r < r1 and c0 <= c < c1 that lies in
   * the matrix has been copied to B[c, r].
   */
  ghost predicate TransposedOn(A: array2<int>, B: array2<int>, r0: int, r1: int, c0: int, c1: int)
    reads A, B
  {
    forall r, c ::
      r0 <= r < r1 && c0 <= c < c1 &&
      0 <= r < A.Length0 && 0 <= c < A.Length1 && c < B.Length0 && r < B.Length1
      ==> B[c, r] == A[r, c]
  }

  /** B has the transposed shape of A and holds A's transpose. */
  ghost predicate IsTransposeOf(A: array2<int>, B: array2<int>)
    reads A, B
  {
    B.Length0 == A.Length1 && B.Length1 == A.Length0 &&
    TransposedOn(A, B, 0, A.Length0, 0, A.Length1)
  }

  /** `is_transpose`: 1 when B is the transpose of A, 0 at the first cell that differs. */
  method IsTranspose(A: array2<int>, B: array2<int>) returns (r: int)
    requires B.Length0 == A.Length1 && B.Length1 == A.Length0
    ensures r == 0 || r == 1
    ensures r == 1 <==> IsTransposeOf(A, B)
    ensures r == 0 <==> exists i, j :: 0 <= i < A.Length0 && 0 <= j < A.Length1 && A[i, j] != B[j, i]
  {
    var i := 0;
    while i < A.Length0
      invariant 0 <= i <= A.Length0
      invariant TransposedOn(A, B, 0, i, 0, A.Length1)
    {
      var j := 0;
      while j < A.Length1
        invariant 0 <= j <= A.Length1
        invariant TransposedOn(A, B, 0, i, 0, A.Length1)
        invariant TransposedOn(A, B, i, i + 1, 0, j)
      {
        if A[i, j] != B[j, i] {
          return 0;
        }
        j := j + 1;
      }
      i := i + 1;
    }
    return 1;
  }

  /** `trans`: the baseline row-wise transpose, for any N and M. */
  method Trans(A: array2<int>, B: array2<int>)
    requires A != B && B.Length0 == A.Length1 && B.Length1 == A.Length0
    modifies B
    ensures IsTransposeOf(A, B)
  {
    var i := 0;
    while i < A.Length0
      invariant 0 <= i <= A.Length0
      invariant TransposedOn(A, B, 0, i, 0, A.Length1)
    {
      var j := 0;
      while j < A.Length1
        invariant 0 <= j <= A.Length1
        invariant TransposedOn(A, B, 0, i, 0, A.Length1)
        invariant TransposedOn(A, B, i, i + 1, 0, j)
      {
        var tmp := A[i, j];
        B[j, i] := tmp;
        j := j + 1;
      }
      i := i + 1;
    }
  }

  // ---------------------------------------------------------------------------
  // transpose_submit, N == 32: 8x8 blocks, one column of A per step
  // ---------------------------------------------------------------------------

  /** One step of the 8x8 kernel: rows i..i+7 of column k of A go to row k of B. */
  method CopyColumn8(A: array2<int>, B: array2<int>, i: int, k: int)
    requires A != B && B.Length0 == A.Length1 && B.Length1 == A.Length0
    requires 0 <= i && i + 8 <= A.Length0 && 0 <= k < A.Length1
    modifies B
    ensures forall c :: i <= c < i + 8 ==> B[k, c] == A[c, k]
    ensures forall r, c :: 0 <= r < B.Length0 && 0 <= c < B.Length1 && (r != k || c < i || i + 8 <= c) ==>
      B[r, c] == old(B[r, c])
  {
    var t1, t2, t3, t4 := A[i + 0, k], A[i + 1, k], A[i + 2, k], A[i + 3, k];
    var t5, t6, t7, t8 := A[i + 4, k], A[i + 5, k], A[i + 6, k], A[i + 7, k];
    B[k, i + 0] := t1;
    B[k, i + 1] := t2;
    B[k, i + 2] := t3;
    B[k, i + 3] := t4;
    B[k, i + 4] := t5;
    B[k, i + 5] := t6;
    B[k, i + 6] := t7;
    B[k, i + 7] := t8;
  }

  /** The N == 32 branch: 8x8 blocks; M must be a multiple of 8 for the blocks to stay in range. */
  method Transpose32(A: array2<int>, B: array2<int>)
    requires A != B && B.Length0 == A.Length1 && B.Length1 == A.Length0
    requires A.Length0 == 32 && A.Length1 % 8 == 0
    modifies B
    ensures IsTransposeOf(A, B)
  {
    var i := 0;
    while i < A.Length0
      invariant 0 <= i <= A.Length0 && i % 8 == 0
      invariant TransposedOn(A, B, 0, i, 0, A.Length1)
    {
      var j := 0;
      while j < A.Length1
        invariant 0 <= j <= A.Length1 && j % 8 == 0
        invariant TransposedOn(A, B, 0, i, 0, A.Length1)
        invariant TransposedOn(A, B, i, i + 8, 0, j)
      {
        var k := j;
        while k < j + 8
          invariant j <= k <= j + 8
          invariant TransposedOn(A, B, 0, i, 0, A.Length1)
          invariant TransposedOn(A, B, i, i + 8, 0, k)
        {
          CopyColumn8(A, B, i, k);
          k := k + 1;
        }
        j := j + 8;
      }
      i := i + 8;
    }
  }

  // ---------------------------------------------------------------------------
  // transpose_submit, N == 64: 8x8 blocks handled as four 4x4 quarters
  // ---------------------------------------------------------------------------

  /**
   * One row k of the first phase: A[k][j..j+3] goes transposed into the
   * top-left quarter of the block in B, and A[k][j+4..j+7] is parked,
   * reversed, in the top-right quarter (column k + 4).
   */
  method StageRow(A: array2<int>, B: array2<int>, j: int, k: int)
    requires A != B && B.Length0 == A.Length1 && B.Length1 == A.Length0
    requires 0 <= j && j + 8 <= A.Length1 && 0 <= k && k + 4 < A.Length0
    modifies B
    ensures forall r, c :: j <= r < j + 4 && c == k ==> B[r, c] == A[c, r]
    ensures forall r, c :: j <= r < j + 4 && c == k + 4 ==> B[r, c] == A[c - 4, 2 * j + 7 - r]
    ensures forall r, c :: 0 <= r < B.Length0 && 0 <= c < B.Length1 && (r < j || j + 4 <= r || (c != k && c != k + 4)) ==>
      B[r, c] == old(B[r, c])
  {
    var v0, v1, v2, v3 := A[k, j], A[k, j + 1], A[k, j + 2], A[k, j + 3];
    var v4, v5, v6, v7 := A[k, j + 4], A[k, j + 5], A[k, j + 6], A[k, j + 7];
    B[j, k] := v0;
    B[j + 1, k] := v1;
    B[j + 2, k] := v2;
    B[j + 3, k] := v3;
    B[j, k + 4] := v7;
    B[j + 1, k + 4] := v6;
    B[j + 2, k + 4] := v5;
    B[j + 3, k + 4] := v4;
  }

  /**
   * The first phase for the block at rows i..i+7, columns j..j+7 of A: the
   * top-left quarter of B's block is final, and the top-right quarter holds
   * A's top-right quarter, transposed and with its rows reversed.
   */
  method Stage(A: array2<int>, B: array2<int>, i: int, j: int)
    requires A != B && B.Length0 == A.Length1 && B.Length1 == A.Length0
    requires 0 <= i && i + 8 <= A.Length0 && 0 <= j && j + 8 <= A.Length1
    modifies B
    ensures forall r, c :: j <= r < j + 4 && i <= c < i + 4 ==> B[r, c] == A[c, r]
    ensures forall r, c :: j <= r < j + 4 && i + 4 <= c < i + 8 ==> B[r, c] == A[c - 4, 2 * j + 7 - r]
    ensures forall r, c :: 0 <= r < B.Length0 && 0 <= c < B.Length1 && (r < j || j + 4 <= r || c < i || i + 8 <= c) ==>
      B[r, c] == old(B[r, c])
  {
    var k := i;
    while k < i + 4
      invariant i <= k <= i + 4
      invariant forall r, c :: j <= r < j + 4 && i <= c < k ==> B[r, c] == A[c, r]
      invariant forall r, c :: j <= r < j + 4 && i + 4 <= c < k + 4 ==> B[r, c] == A[c - 4, 2 * j + 7 - r]
      invariant forall r, c :: 0 <= r < B.Length0 && 0 <= c < B.Length1 && (r < j || j + 4 <= r || c < i || i + 8 <= c) ==>
        B[r, c] == old(B[r, c])
    {
      StageRow(A, B, j, k);
      k := k + 1;
    }
  }

  /**
   * The first half of step l of the second phase: parked row j+3-l of B's
   * top-right quarter is copied, as it stands, to row j+4+l of the
   * bottom-left quarter, where it is final.
   */
  method MoveParked(A: array2<int>, B: array2<int>, i: int, j: int, l: int)
    requires A != B && B.Length0 == A.Length1 && B.Length1 == A.Length0
    requires 0 <= i && i + 8 <= A.Length0 && 0 <= j && j + 8 <= A.Length1 && 0 <= l < 4
    requires forall r, c :: r == j + 3 - l && i + 4 <= c < i + 8 ==> B[r, c] == A[c - 4, 2 * j + 7 - r]
    modifies B
    ensures forall r, c :: r == j + 4 + l && i <= c < i + 4 ==> B[r, c] == A[c, r]
    ensures forall r, c :: 0 <= r < B.Length0 && 0 <= c < B.Length1 && (r != j + 4 + l || c < i || i + 4 <= c) ==>
      B[r, c] == old(B[r, c])
  {
    B[j + 4 + l, i] := B[j + 3 - l, i + 4];
    B[j + 4 + l, i + 1] := B[j + 3 - l, i + 5];
    B[j + 4 + l, i + 2] := B[j + 3 - l, i + 6];
    B[j + 4 + l, i + 3] := B[j + 3 - l, i + 7];
  }

  /**
   * The second half of step l: columns j+3-l and j+4+l of A's bottom half
   * fill rows j+3-l and j+4+l of B's right-hand quarters.
   */
  method PlaceColumns(A: array2<int>, B: array2<int>, i: int, j: int, l: int)
    requires A != B && B.Length0 == A.Length1 && B.Length1 == A.Length0
    requires 0 <= i && i + 8 <= A.Length0 && 0 <= j && j + 8 <= A.Length1 && 0 <= l < 4
    modifies B
    ensures forall r, c :: r == j + 3 - l && i + 4 <= c < i + 8 ==> B[r, c] == A[c, r]
    ensures forall r, c :: r == j + 4 + l && i + 4 <= c < i + 8 ==> B[r, c] == A[c, r]
    ensures forall r, c ::
      0 <= r < B.Length0 && 0 <= c < B.Length1 && ((r != j + 3 - l && r != j + 4 + l) || c < i + 4 || i + 8 <= c)
      ==> B[r, c] == old(B[r, c])
  {
    var v0, v1, v2, v3 := A[i + 4, j + 3 - l], A[i + 5, j + 3 - l], A[i + 6, j + 3 - l], A[i + 7, j + 3 - l];
    var v4, v5, v6, v7 := A[i + 4, j + 4 + l], A[i + 5, j + 4 + l], A[i + 6, j + 4 + l], A[i + 7, j + 4 + l];
    B[j + 3 - l, i + 4] := v0;
    B[j + 3 - l, i + 5] := v1;
    B[j + 3 - l, i + 6] := v2;
    B[j + 3 - l, i + 7] := v3;
    B[j + 4 + l, i + 4] := v4;
    B[j + 4 + l, i + 5] := v5;
    B[j + 4 + l, i + 6] := v6;
    B[j + 4 + l, i + 7] := v7;
  }

  /** The second phase: after the first, it leaves the whole block of B transposed. */
  method Fix(A: array2<int>, B: array2<int>, i: int, j: int)
    requires A != B && B.Length0 == A.Length1 && B.Length1 == A.Length0
    requires 0 <= i && i + 8 <= A.Length0 && 0 <= j && j + 8 <= A.Length1
    requires forall r, c :: j <= r < j + 4 && i <= c < i + 4 ==> B[r, c] == A[c, r]
    requires forall r, c :: j <= r < j + 4 && i + 4 <= c < i + 8 ==> B[r, c] == A[c - 4, 2 * j + 7 - r]
    modifies B
    ensures TransposedOn(A, B, i, i + 8, j, j + 8)
    ensures forall r, c :: 0 <= r < B.Length0 && 0 <= c < B.Length1 && (r < j || j + 8 <= r || c < i || i + 8 <= c) ==>
      B[r, c] == old(B[r, c])
  {
    var l := 0;
    while l < 4
      invariant 0 <= l <= 4
      invariant forall r, c :: j + 4 - l <= r < j + 4 + l && i <= c < i + 8 ==> B[r, c] == A[c, r]
      invariant forall r, c :: j <= r < j + 4 - l && i <= c < i + 4 ==> B[r, c] == A[c, r]
      invariant forall r, c :: j <= r < j + 4 - l && i + 4 <= c < i + 8 ==> B[r, c] == A[c - 4, 2 * j + 7 - r]
      invariant forall r, c :: 0 <= r < B.Length0 && 0 <= c < B.Length1 && (r < j || j + 8 <= r || c < i || i + 8 <= c) ==>
        B[r, c] == old(B[r, c])
    {
      MoveParked(A, B, i, j, l);
      PlaceColumns(A, B, i, j, l);
      l := l + 1;
    }
  }

  /** The N == 64 branch: each 8x8 block in two phases; M must be a multiple of 8. */
  method Transpose64(A: array2<int>, B: array2<int>)
    requires A != B && B.Length0 == A.Length1 && B.Length1 == A.Length0
    requires A.Length0 == 64 && A.Length1 % 8 == 0
    modifies B
    ensures IsTransposeOf(A, B)
  {
    var i := 0;
    while i < A.Length0
      invariant 0 <= i <= A.Length0 && i % 8 == 0
      invariant TransposedOn(A, B, 0, i, 0, A.Length1)
    {
      var j := 0;
      while j < A.Length1
        invariant 0 <= j <= A.Length1 && j % 8 == 0
        invariant TransposedOn(A, B, 0, i, 0, A.Length1)
        invariant TransposedOn(A, B, i, i + 8, 0, j)
      {
        Stage(A, B, i, j);
        Fix(A, B, i, j);
        j := j + 8;
      }
      i := i + 8;
    }
  }

  // ---------------------------------------------------------------------------
  // transpose_submit, N == 67: 16x16 blocks cut off at the matrix edge
  // ---------------------------------------------------------------------------

  /** The N == 67 branch: 16x16 blocks whose loops stop at row N and column M, for any M. */
  method Transpose67(A: array2<int>, B: array2<int>)
    requires A != B && B.Length0 == A.Length1 && B.Length1 == A.Length0
    modifies B
    ensures IsTransposeOf(A, B)
  {
    var i := 0;
    while i < A.Length0
      invariant 0 <= i
      invariant TransposedOn(A, B, 0, i, 0, A.Length1)
    {
      var j := 0;
      while j < A.Length1
        invariant 0 <= j
        invariant TransposedOn(A, B, 0, i, 0, A.Length1)
        invariant TransposedOn(A, B, i, i + 16, 0, j)
      {
        var k := i;
        while k < i + 16 && k < A.Length0
          invariant i <= k
          invariant TransposedOn(A, B, 0, i, 0, A.Length1)
          invariant TransposedOn(A, B, i, i + 16, 0, j)
          invariant TransposedOn(A, B, i, k, j, j + 16)
        {
          var m := j;
          while m < j + 16 && m < A.Length1
            invariant j <= m
            invariant TransposedOn(A, B, 0, i, 0, A.Length1)
            invariant TransposedOn(A, B, i, i + 16, 0, j)
            invariant TransposedOn(A, B, i, k, j, j + 16)
            invariant TransposedOn(A, B, k, k + 1, j, m)
          {
            B[m, k] := A[k, m];
            m := m + 1;
          }
          k := k + 1;
        }
        j := j + 16;
      }
      i := i + 16;
    }
  }

  /**
   * `transpose_submit`: the blocked kernel chosen by N.  For N of 32, 64
   * and 67 B ends up as A's transpose; for any other N nothing is written.
   */
  method TransposeSubmit(A: array2<int>, B: array2<int>)
    requires A != B && B.Length0 == A.Length1 && B.Length1 == A.Length0
    requires A.Length0 == 32 || A.Length0 == 64 ==> A.Length1 % 8 == 0
    modifies B
    ensures A.Length0 in {32, 64, 67} ==> IsTransposeOf(A, B)
    ensures A.Length0 !in {32, 64, 67} ==>
      forall r, c :: 0 <= r < B.Length0 && 0 <= c < B.Length1 ==> B[r, c] == old(B[r, c])
  {
    if A.Length0 == 32 {
      Transpose32(A, B);
    } else if A.Length0 == 64 {
      Transpose64(A, B);
    } else if A.Length0 == 67 {
      Transpose67(A, B);
    }
  }
}
