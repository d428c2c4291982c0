/** The cache-blocked matrix transposes of cachelab/trans.c. A has N rows of M columns, B has M rows of N columns. */
module Transpose {
  ghost predicate Shapes(A: array2<int>, B: array2<int>) {
    A != B && A.Length0 == B.Length1 && A.Length1 == B.Length0
  }

  // One element is in its place.
  ghost predicate Moved(A: array2<int>, B: array2<int>, i: int, j: int)
    requires Shapes(A, B)
    reads A, B
  {
    0 <= i < A.Length0 && 0 <= j < A.Length1 ==> B[j, i] == A[i, j]
  }

  ghost predicate MovedAll(A: array2<int>, B: array2<int>, rows: (int, int), columns: (int, int))
    requires Shapes(A, B)
    reads A, B
  {
    forall i, j {:trigger Moved(A, B, i, j)} | rows.0 <= i < rows.1 && columns.0 <= j < columns.1 :: Moved(A, B, i, j)
  }

  ghost predicate IsTranspose(A: array2<int>, B: array2<int>)
    requires Shapes(A, B)
    reads A, B
  {
    forall i, j {:trigger A[i, j]} {:trigger B[j, i]} | 0 <= i < A.Length0 && 0 <= j < A.Length1 :: B[j, i] == A[i, j]
  }

  // What was in place stays in place.
  twostate predicate Keeps(A: array2<int>, B: array2<int>)
    requires Shapes(A, B)
    reads A, B
  {
    forall i, j {:trigger Moved(A, B, i, j)} :: old(Moved(A, B, i, j)) ==> Moved(A, B, i, j)
  }

  /** is_transpose decides it. */
  method CheckTranspose(A: array2<int>, B: array2<int>) returns (ok: bool)
    requires Shapes(A, B)
    ensures ok <==> IsTranspose(A, B)
  {
    for i := 0 to A.Length0
      invariant MovedAll(A, B, (0, i), (0, A.Length1))
    {
      for j := 0 to A.Length1
        invariant MovedAll(A, B, (0, i), (0, A.Length1)) && MovedAll(A, B, (i, i + 1), (0, j))
      {
        if A[i, j] != B[j, i] {
          return false;
        }
      }
    }
    AllMoved(A, B);
    return true;
  }

  lemma AllMoved(A: array2<int>, B: array2<int>)
    requires Shapes(A, B) && MovedAll(A, B, (0, A.Length0), (0, A.Length1))
    ensures IsTranspose(A, B)
  {
    forall i, j | 0 <= i < A.Length0 && 0 <= j < A.Length1 ensures B[j, i] == A[i, j] {
      assert Moved(A, B, i, j);
    }
  }

  method Put(A: array2<int>, B: array2<int>, i: int, j: int, v: int)
    requires Shapes(A, B) && 0 <= i < A.Length0 && 0 <= j < A.Length1 && v == A[i, j]
    modifies B
    ensures Keeps(A, B) && Moved(A, B, i, j)
  {
    B[j, i] := v;
  }

  // ---- Blocks with a delayed diagonal -----------------------------------------

  function Min(a: int, b: int): int {
    if a < b then a else b
  }

  // The diagonal element last kept back, with its index in temp3.
  ghost predicate KeptBack(A: array2<int>, temp: int, temp3: int)
    reads A
  {
    0 <= temp3 < A.Length0 && temp3 < A.Length1 && temp == A[temp3, temp3]
  }

  // Row i of the block whose columns start at jj. Its diagonal element is kept back.
  method TransposeRow(A: array2<int>, B: array2<int>, i: int, jj: int, width: int, temp0: int, temp30: int)
    returns (temp: int, temp3: int)
    requires Shapes(A, B) && 0 <= i < A.Length0 && 0 <= jj < A.Length1 && width > 0
    modifies B
    ensures Keeps(A, B)
    ensures forall j {:trigger Moved(A, B, i, j)} | jj <= j < jj + width && j != i :: Moved(A, B, i, j)
    ensures if jj <= i < Min(jj + width, A.Length1) then KeptBack(A, temp, temp3) && temp3 == i
            else (temp, temp3) == (temp0, temp30)
  {
    temp, temp3 := temp0, temp30;
    var j := jj;
    while j < jj + width && j < A.Length1
      invariant jj <= j <= Min(jj + width, A.Length1)
      invariant Keeps(A, B)
      invariant forall c {:trigger Moved(A, B, i, c)} | jj <= c < j && c != i :: Moved(A, B, i, c)
      invariant if jj <= i < j then KeptBack(A, temp, temp3) && temp3 == i else (temp, temp3) == (temp0, temp30)
    {
      if i != j {
        Put(A, B, i, j, A[i, j]);
      } else {
        temp := A[i, j];
        temp3 := i;
      }
      j := j + 1;
    }
  }

  // Blocks of one size that start at different multiples of it share no index.
  ghost predicate Aligned(ii: int, jj: int, width: int) {
    ii == jj || ii + width <= jj || jj + width <= ii
  }

  method TransposeBlock(A: array2<int>, B: array2<int>, ii: int, jj: int, width: int, temp0: int, temp30: int)
    returns (temp: int, temp3: int)
    requires Shapes(A, B) && 0 <= ii < A.Length0 && 0 <= jj < A.Length1 && width > 0 && Aligned(ii, jj, width)
    modifies B
    ensures Keeps(A, B) && MovedAll(A, B, (ii, ii + width), (jj, jj + width))
  {
    temp, temp3 := temp0, temp30;
    var i := ii;
    while i < ii + width && i < A.Length0
      invariant ii <= i <= Min(ii + width, A.Length0)
      invariant Keeps(A, B) && MovedAll(A, B, (ii, i), (jj, jj + width))
      invariant ii == jj && i > ii ==> KeptBack(A, temp, temp3)
    {
      temp, temp3 := TransposeRow(A, B, i, jj, width, temp, temp3);
      if ii == jj {
        Put(A, B, temp3, temp3, temp);
      }
      i := i + 1;
    }
  }

  ghost predicate Multiple(x: int, width: int)
    requires width > 0
    decreases x
  {
    x == 0 || (x >= width && Multiple(x - width, width))
  }

  lemma {:induction false} MultiplesAligned(x: int, y: int, width: int)
    requires width > 0 && Multiple(x, width) && Multiple(y, width)
    ensures Aligned(x, y, width)
    decreases x
  {
    if x != 0 && y != 0 {
      MultiplesAligned(x - width, y - width, width);
    }
  }

  lemma {:induction false} MultipleOfEight(n: nat)
    requires n % 8 == 0
    ensures Multiple(n, 8)
  {
    if n > 0 {
      MultipleOfEight(n - 8);
    }
  }

  /** Blocks of any width, for matrices of any size. */
  method TransposeBlocks(A: array2<int>, B: array2<int>, width: int)
    requires Shapes(A, B) && width > 0
    modifies B
    ensures IsTranspose(A, B)
  {
    var temp: int, temp3: int := *, *;
    var ii := 0;
    while ii < A.Length0
      invariant 0 <= ii && Multiple(ii, width)
      invariant MovedAll(A, B, (0, ii), (0, A.Length1))
    {
      var jj := 0;
      while jj < A.Length1
        invariant 0 <= jj && Multiple(jj, width)
        invariant MovedAll(A, B, (0, ii), (0, A.Length1)) && MovedAll(A, B, (ii, ii + width), (0, jj))
      {
        MultiplesAligned(ii, jj, width);
        temp, temp3 := TransposeBlock(A, B, ii, jj, width, temp, temp3);
        jj := jj + width;
      }
      ii := ii + width;
    }
    AllMoved(A, B);
  }

  // ---- Eight by eight blocks through local variables --------------------------

  // Columns jj to jj + 3 of all eight rows.
  method LeftHalf(A: array2<int>, B: array2<int>, ii: int, jj: int)
    requires Shapes(A, B) && 0 <= ii && ii + 8 <= A.Length0 && 0 <= jj && jj + 8 <= A.Length1
    modifies B
    ensures Keeps(A, B) && MovedAll(A, B, (ii, ii + 8), (jj, jj + 4))
  {
    var temp4, temp5, temp6, temp7: int;
    var i := 0;
    while i < 8
      invariant 0 <= i <= 8 && Keeps(A, B)
      invariant MovedAll(A, B, (ii, ii + i), (jj, jj + 4))
    {
      temp4 := A[ii + i, jj];
      temp5 := A[ii + i, jj + 1];
      temp6 := A[ii + i, jj + 2];
      temp7 := A[ii + i, jj + 3];
      Put(A, B, ii + i, jj, temp4);
      Put(A, B, ii + i, jj + 1, temp5);
      Put(A, B, ii + i, jj + 2, temp6);
      Put(A, B, ii + i, jj + 3, temp7);
      i := i + 1;
    }
  }

  // The other columns from the second row on, but for the last element of the second row.
  method RightHalf(A: array2<int>, B: array2<int>, ii: int, jj: int)
    requires Shapes(A, B) && 0 <= ii && ii + 8 <= A.Length0 && 0 <= jj && jj + 8 <= A.Length1
    modifies B
    ensures Keeps(A, B)
    ensures MovedAll(A, B, (ii + 1, ii + 8), (jj + 4, jj + 7)) && MovedAll(A, B, (ii + 2, ii + 8), (jj + 7, jj + 8))
  {
    var temp4, temp5, temp6, temp7: int;
    var i := 1;
    while i < 8
      invariant 1 <= i <= 8 && Keeps(A, B)
      invariant MovedAll(A, B, (ii + 1, ii + i), (jj + 4, jj + 7))
      invariant MovedAll(A, B, (ii + 2, ii + i), (jj + 7, jj + 8))
    {
      temp4 := A[ii + i, jj + 4];
      temp5 := A[ii + i, jj + 5];
      temp6 := A[ii + i, jj + 6];
      if i != 1 {
        temp7 := A[ii + i, jj + 7];
      }
      Put(A, B, ii + i, jj + 4, temp4);
      Put(A, B, ii + i, jj + 5, temp5);
      Put(A, B, ii + i, jj + 6, temp6);
      if i != 1 {
        Put(A, B, ii + i, jj + 7, temp7);
      }
      i := i + 1;
    }
  }

  method TransposeEight(A: array2<int>, B: array2<int>, ii: int, jj: int)
    requires Shapes(A, B) && 0 <= ii && ii + 8 <= A.Length0 && 0 <= jj && jj + 8 <= A.Length1
    modifies B
    ensures Keeps(A, B) && MovedAll(A, B, (ii, ii + 8), (jj, jj + 8))
  {
    var temp := A[ii, jj + 4];
    var temp1 := A[ii, jj + 5];
    var temp2 := A[ii, jj + 6];
    var temp3 := A[ii, jj + 7];
    var j := A[ii + 1, jj + 7];
    LeftHalf(A, B, ii, jj);
    RightHalf(A, B, ii, jj);
    Put(A, B, ii, jj + 4, temp);
    Put(A, B, ii, jj + 5, temp1);
    Put(A, B, ii, jj + 6, temp2);
    Put(A, B, ii, jj + 7, temp3);
    Put(A, B, ii + 1, jj + 7, j);
  }

  /** The same result for matrices whose sides are multiples of eight. */
  method TransposeEights(A: array2<int>, B: array2<int>)
    requires Shapes(A, B) && Multiple(A.Length0, 8) && Multiple(A.Length1, 8)
    modifies B
    ensures IsTranspose(A, B)
  {
    var ii := 0;
    while ii < A.Length0
      invariant 0 <= ii && Multiple(ii, 8)
      invariant MovedAll(A, B, (0, ii), (0, A.Length1))
    {
      var jj := 0;
      while jj < A.Length1
        invariant 0 <= jj && Multiple(jj, 8)
        invariant MovedAll(A, B, (0, ii), (0, A.Length1)) && MovedAll(A, B, (ii, ii + 8), (0, jj))
      {
        MultiplesAligned(ii, A.Length0, 8);
        MultiplesAligned(jj, A.Length1, 8);
        TransposeEight(A, B, ii, jj);
        jj := jj + 8;
      }
      ii := ii + 8;
    }
    AllMoved(A, B);
  }

  /**
   * transpose_submit transposes the three sizes it is for and leaves B alone on a width it does not know; so it does
   * what it is for exactly on a width it knows, or when B was the transpose before. The first two widths are served at
   * one height each (the block size is not set otherwise), the third at multiples of eight.
   */
  method TransposeSubmit(A: array2<int>, B: array2<int>)
    requires Shapes(A, B) && A.Length0 > 0 && A.Length1 > 0
    requires (A.Length1 == 32 ==> A.Length0 == 32) && (A.Length1 == 61 ==> A.Length0 == 67)
    requires A.Length1 == 64 ==> A.Length0 % 8 == 0
    modifies B
    ensures A.Length1 !in {32, 61, 64} ==> unchanged(B)
    ensures IsTranspose(A, B) <==> A.Length1 in {32, 61, 64} || old(IsTranspose(A, B))
  {
    var temp1: int;
    if A.Length1 == 32 && A.Length0 == 32 {
      temp1 := 8;
    } else if A.Length1 == 61 && A.Length0 == 67 {
      temp1 := 16;
    }
    if A.Length1 == 32 || A.Length1 == 61 {
      TransposeBlocks(A, B, temp1);
    } else if A.Length1 == 64 {
      MultipleOfEight(A.Length0);
      MultipleOfEight(A.Length1);
      TransposeEights(A, B);
    }
  }

  /** A matrix of one element that it leaves untransposed. */
  method LeavesOneElement() returns (A: array2<int>, B: array2<int>)
    ensures Shapes(A, B) && A.Length0 == A.Length1 == 1 && !IsTranspose(A, B)
  {
    A, B := new int[1, 1], new int[1, 1];
    A[0, 0], B[0, 0] := 0, 1;
    TransposeSubmit(A, B);
  }
}
