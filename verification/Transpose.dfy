/** The matrix transposes of sp_04_cachelab/trans.c.  A has N rows of M cells, B has M rows of N. */
module Transpose {

  const TILE := 18

  type Cells = multiset<(int, int)>

  ghost predicate Shapes(A: array2<int>, B: array2<int>)
  {
    A != B && A.Length0 == B.Length1 && A.Length1 == B.Length0
  }

  /** The cells that have been written when the tile at row i, column j of A has been copied up to
      its row ii, and that row up to column jj. */
  predicate Copied(A: array2<int>, i: int, j: int, ii: int, jj: int, r: int, c: int)
  {
    && 0 <= c < A.Length0 && 0 <= r < A.Length1
    && (|| c < i
        || (c < i + TILE && r < j)
        || (c < ii && r < j + TILE)
        || (c == ii && j <= r < jj))
  }

  /** Exactly the cells for which Copied holds have been written, once each, and correctly. */
  ghost predicate Progress(A: array2<int>, B: array2<int>, w: Cells, i: int, j: int, ii: int, jj: int)
    requires Shapes(A, B)
    reads A, B
  {
    && (forall r, c {:trigger w[(r, c)]} :: w[(r, c)] == if Copied(A, i, j, ii, jj, r, c) then 1 else 0)
    && (forall r, c :: 0 <= r < B.Length0 && 0 <= c < B.Length1 && Copied(A, i, j, ii, jj, r, c) ==> B[r, c] == A[c, r])
  }

  ghost predicate Transposed(A: array2<int>, B: array2<int>)
    requires Shapes(A, B)
    reads A, B
  {
    forall r, c :: 0 <= r < B.Length0 && 0 <= c < B.Length1 ==> B[r, c] == A[c, r]
  }

  /** Every cell of B once and no other. */
  ghost predicate EachOnce(B: array2<int>, w: Cells)
  {
    forall r, c {:trigger w[(r, c)]} :: w[(r, c)] == if 0 <= r < B.Length0 && 0 <= c < B.Length1 then 1 else 0
  }

  /** The general case of transpose_submit: tiles of 18 by 18, clipped at the edges. */
  method TransposeTiled(A: array2<int>, B: array2<int>) returns (ghost w: Cells)
    requires Shapes(A, B)
    modifies B
    ensures Transposed(A, B) && EachOnce(B, w)
  {
    var N, M := A.Length0, A.Length1;
    w := multiset{};
    var i := 0;
    while i < N
      invariant 0 <= i && Progress(A, B, w, i, 0, i, 0)
    {
      var j := 0;
      while j < M
        invariant 0 <= j && Progress(A, B, w, i, j, i, j)
      {
        var ii := i;
        while ii < i + TILE && ii < N
          invariant i <= ii <= i + TILE && Progress(A, B, w, i, j, ii, j)
        {
          var jj := j;
          while jj < j + TILE && jj < M
            invariant j <= jj <= j + TILE && Progress(A, B, w, i, j, ii, jj)
          {
            B[jj, ii] := A[ii, jj];
            w := w + multiset{(jj, ii)};
            jj := jj + 1;
          }
          ii := ii + 1;
        }
        j := j + TILE;
      }
      i := i + TILE;
    }
  }

  // ----- the two unrolled cases

  /** The cells written when bands of h rows of B have been filled up to row j, and the band at j up
      to column i. */
  predicate InBands(A: array2<int>, h: int, j: int, i: int, r: int, c: int)
  {
    0 <= c < A.Length0 && 0 <= r < A.Length1 && (r < j || (r < j + h && c < i))
  }

  ghost predicate Bands(A: array2<int>, B: array2<int>, w: Cells, h: int, j: int, i: int)
    requires Shapes(A, B)
    reads A, B
  {
    && (forall r, c {:trigger w[(r, c)]} :: w[(r, c)] == if InBands(A, h, j, i, r, c) then 1 else 0)
    && (forall r, c :: 0 <= r < B.Length0 && 0 <= c < B.Length1 && InBands(A, h, j, i, r, c) ==> B[r, c] == A[c, r])
  }

  /** Eight cells of a row of A are read before eight cells of a column of B are written. */
  method CopyEight(A: array2<int>, B: array2<int>, i: nat, j: nat, ghost w: Cells) returns (ghost v: Cells)
    requires Shapes(A, B) && i < A.Length0 && j + 8 <= A.Length1
    modifies B
    ensures forall r, c :: 0 <= r < B.Length0 && 0 <= c < B.Length1 ==>
      B[r, c] == if c == i && j <= r < j + 8 then A[c, r] else old(B[r, c])
    ensures forall r, c {:trigger v[(r, c)]} :: v[(r, c)] == w[(r, c)] + if c == i && j <= r < j + 8 then 1 else 0
  {
    var b0, b1, b2, b3 := A[i, j], A[i, j + 1], A[i, j + 2], A[i, j + 3];
    var b4, b5, b6, b7 := A[i, j + 4], A[i, j + 5], A[i, j + 6], A[i, j + 7];
    B[j, i] := b0;
    B[j + 1, i] := b1;
    B[j + 2, i] := b2;
    B[j + 3, i] := b3;
    B[j + 4, i] := b4;
    B[j + 5, i] := b5;
    B[j + 6, i] := b6;
    B[j + 7, i] := b7;
    v := w + multiset{(j, i)} + multiset{(j + 1, i)} + multiset{(j + 2, i)} + multiset{(j + 3, i)}
       + multiset{(j + 4, i)} + multiset{(j + 5, i)} + multiset{(j + 6, i)} + multiset{(j + 7, i)};
  }

  /** Four cells of a column of A are read before four cells of a row of B are written. */
  method CopyFour(A: array2<int>, B: array2<int>, i: nat, j: nat, ghost w: Cells) returns (ghost v: Cells)
    requires Shapes(A, B) && i + 4 <= A.Length0 && j < A.Length1
    modifies B
    ensures forall r, c :: 0 <= r < B.Length0 && 0 <= c < B.Length1 ==>
      B[r, c] == if r == j && i <= c < i + 4 then A[c, r] else old(B[r, c])
    ensures forall r, c {:trigger v[(r, c)]} :: v[(r, c)] == w[(r, c)] + if r == j && i <= c < i + 4 then 1 else 0
  {
    var b0, b1, b2, b3 := A[i, j], A[i + 1, j], A[i + 2, j], A[i + 3, j];
    B[j, i] := b0;
    B[j, i + 1] := b1;
    B[j, i + 2] := b2;
    B[j, i + 3] := b3;
    v := w + multiset{(j, i)} + multiset{(j, i + 1)} + multiset{(j, i + 2)} + multiset{(j, i + 3)};
  }

  /** Case 1 of transpose_submit. */
  method Transpose32(A: array2<int>, B: array2<int>) returns (ghost w: Cells)
    requires Shapes(A, B) && A.Length0 == A.Length1 == 32
    modifies B
    ensures Transposed(A, B) && EachOnce(B, w)
  {
    w := multiset{};
    var j := 0;
    while j < 32
      invariant 0 <= j <= 32 && j % 8 == 0 && Bands(A, B, w, 8, j, 0)
    {
      var i := 0;
      while i < 32
        invariant 0 <= i <= 32 && Bands(A, B, w, 8, j, i)
      {
        w := CopyEight(A, B, i, j, w);
        i := i + 1;
      }
      j := j + 8;
    }
  }

  /** Case 2 of transpose_submit. */
  method Transpose64(A: array2<int>, B: array2<int>) returns (ghost w: Cells)
    requires Shapes(A, B) && A.Length0 == A.Length1 == 64
    modifies B
    ensures Transposed(A, B) && EachOnce(B, w)
  {
    w := multiset{};
    var j := 0;
    while j < 64
      invariant 0 <= j <= 64 && j % 4 == 0 && Bands(A, B, w, 4, j, 0)
    {
      var i := 0;
      while i < 64
        invariant 0 <= i <= 64 && i % 8 == 0 && Bands(A, B, w, 4, j, i)
      {
        w := HalfTile(A, B, j, i, w);
        w := HalfTile(A, B, j, i + 4, w);
        i := i + 8;
      }
      j := j + 4;
    }
  }

  /** One of the two inner loops of case 2: four columns of B from `from` on. */
  method HalfTile(A: array2<int>, B: array2<int>, j: nat, from: nat, ghost w0: Cells) returns (ghost w: Cells)
    requires Shapes(A, B) && from + 4 <= A.Length0 && j + 4 <= A.Length1 && Bands(A, B, w0, 4, j, from)
    modifies B
    ensures Bands(A, B, w, 4, j, from + 4)
  {
    w := w0;
    for ii := 0 to 4
      invariant forall r, c :: 0 <= r < B.Length0 && 0 <= c < B.Length1 && InBands(A, 4, j, from, r, c) ==> B[r, c] == A[c, r]
      invariant forall r, c :: 0 <= r < B.Length0 && 0 <= c < B.Length1 && j <= r < j + ii && from <= c < from + 4 ==> B[r, c] == A[c, r]
      invariant forall r, c {:trigger w[(r, c)]} :: w[(r, c)] == w0[(r, c)] + if j <= r < j + ii && from <= c < from + 4 then 1 else 0
    {
      w := CopyFour(A, B, from, j + ii, w);
    }
  }

  /** transpose_submit, for matrices of any size. */
  method TransposeSubmit(A: array2<int>, B: array2<int>) returns (ghost w: Cells)
    requires Shapes(A, B)
    modifies B
    ensures Transposed(A, B) && EachOnce(B, w)
  {
    if A.Length1 == 32 && A.Length0 == 32 {
      w := Transpose32(A, B);
    } else if A.Length1 == 64 && A.Length0 == 64 {
      w := Transpose64(A, B);
    } else {
      w := TransposeTiled(A, B);
    }
  }

  /** trans: row by row. */
  method TransposeRows(A: array2<int>, B: array2<int>)
    requires Shapes(A, B)
    modifies B
    ensures Transposed(A, B)
  {
    for i := 0 to A.Length0
      invariant forall r, c :: 0 <= r < B.Length0 && 0 <= c < i ==> B[r, c] == A[c, r]
    {
      for j := 0 to A.Length1
        invariant forall r, c :: 0 <= r < B.Length0 && 0 <= c < i ==> B[r, c] == A[c, r]
        invariant forall r :: 0 <= r < j ==> B[r, i] == A[i, r]
      {
        B[j, i] := A[i, j];
      }
    }
  }

  /** is_transpose says exactly whether B is the transpose. */
  method IsTranspose(A: array2<int>, B: array2<int>) returns (yes: bool)
    requires Shapes(A, B)
    ensures yes <==> Transposed(A, B)
  {
    for i := 0 to A.Length0
      invariant forall r, c :: 0 <= r < B.Length0 && 0 <= c < i ==> B[r, c] == A[c, r]
    {
      for j := 0 to A.Length1
        invariant forall r :: 0 <= r < j ==> B[r, i] == A[i, r]
      {
        if A[i, j] != B[j, i] {
          return false;
        }
      }
    }
    return true;
  }
}
