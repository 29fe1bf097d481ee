/**
 * Cell-by-cell and linear operations. Each writes a freshly created matrix
 * into `result`; the operands are only read.
 */
module Arithmetic {
  import opened Constants
  import opened Grids
  import opened Matrices

  /**
   * INCORRECT for a missing operand, ERR for operands of different shape (no
   * result is created); otherwise the result of creating A's shape, filled
   * with A[i][j] + B[i][j].
   */
  method SumMatrix(a: Matrix?, b: Matrix?, result: Matrix) returns (code: int)
    requires result != a && result != b && result.Valid()
    requires a != null ==> a.Valid()
    requires b != null ==> b.Valid()
    requires a != null && b != null && a.rows == b.rows && a.columns == b.columns ==> a.Readable() && b.Readable()
    modifies result
    ensures result.Valid()
    ensures a == null || b == null ==> code == INCORRECT && unchanged(result)
    ensures a != null && b != null && (a.rows != b.rows || a.columns != b.columns) ==> code == ERR && unchanged(result)
    ensures a != null && b != null && a.rows == b.rows && a.columns == b.columns && (a.rows <= 0 || a.columns <= 0) ==>
              code == INCORRECT && result.matrix == null && result.rows == old(result.rows) && result.columns == old(result.columns)
    ensures a != null && b != null && a.rows == b.rows && a.columns == b.columns && 0 < a.rows && 0 < a.columns ==>
              code == OK && fresh(result.matrix) && result.rows == a.rows && result.columns == a.columns &&
              result.matrix != null && result.Cells() == Add(a.Cells(), b.Cells())
  {
    code := OK;
    if a != null && b != null {
      if a.rows != b.rows || a.columns != b.columns {
        code := ERR;
      } else {
        code := result.Create(a.rows, a.columns);
        if code == OK {
          FillSum(result.matrix, a.matrix, b.matrix);
        }
      }
    } else {
      code := INCORRECT;
    }
  }

  /** As SumMatrix, with A[i][j] - B[i][j]. */
  method SubMatrix(a: Matrix?, b: Matrix?, result: Matrix) returns (code: int)
    requires result != a && result != b && result.Valid()
    requires a != null ==> a.Valid()
    requires b != null ==> b.Valid()
    requires a != null && b != null && a.rows == b.rows && a.columns == b.columns ==> a.Readable() && b.Readable()
    modifies result
    ensures result.Valid()
    ensures a == null || b == null ==> code == INCORRECT && unchanged(result)
    ensures a != null && b != null && (a.rows != b.rows || a.columns != b.columns) ==> code == ERR && unchanged(result)
    ensures a != null && b != null && a.rows == b.rows && a.columns == b.columns && (a.rows <= 0 || a.columns <= 0) ==>
              code == INCORRECT && result.matrix == null && result.rows == old(result.rows) && result.columns == old(result.columns)
    ensures a != null && b != null && a.rows == b.rows && a.columns == b.columns && 0 < a.rows && 0 < a.columns ==>
              code == OK && fresh(result.matrix) && result.rows == a.rows && result.columns == a.columns &&
              result.matrix != null && result.Cells() == Sub(a.Cells(), b.Cells())
  {
    code := OK;
    if a != null && b != null {
      if a.rows != b.rows || a.columns != b.columns {
        code := ERR;
      } else {
        code := result.Create(a.rows, a.columns);
        if code == OK {
          FillDifference(result.matrix, a.matrix, b.matrix);
        }
      }
    } else {
      code := INCORRECT;
    }
  }

  /** INCORRECT for a matrix without storage; otherwise a fresh result of A's shape holding A[i][j] * number. */
  method MultNumber(a: Matrix, number: real, result: Matrix) returns (code: int)
    requires result != a && a.Valid() && result.Valid()
    modifies result
    ensures result.Valid()
    ensures a.matrix == null ==> code == INCORRECT && unchanged(result)
    ensures a.matrix != null ==>
              code == OK && fresh(result.matrix) && result.rows == a.rows && result.columns == a.columns &&
              result.matrix != null && result.Cells() == Scale(a.Cells(), number)
  {
    code := OK;
    if a.matrix != null {
      code := result.Create(a.rows, a.columns);
      if code == OK {
        FillScaled(result.matrix, a.matrix, number);
      }
    } else {
      code := INCORRECT;
    }
  }

  /**
   * INCORRECT unless both operands pass the validity guard, ERR unless
   * A.columns == B.rows; otherwise an A.rows x B.columns result whose cell
   * (i, j) is the sum over k of A[i][k] * B[k][j], added onto the zero cell.
   */
  method MultMatrix(a: Matrix?, b: Matrix?, result: Matrix) returns (code: int)
    requires result != a && result != b && result.Valid()
    requires a != null ==> a.Valid()
    requires b != null ==> b.Valid()
    modifies result
    ensures result.Valid()
    ensures CheckMatrix(a) != OK || CheckMatrix(b) != OK ==> code == INCORRECT && unchanged(result)
    ensures CheckMatrix(a) == OK && CheckMatrix(b) == OK && a.columns != b.rows ==> code == ERR && unchanged(result)
    ensures CheckMatrix(a) == OK && CheckMatrix(b) == OK && a.columns == b.rows ==>
              code == OK && fresh(result.matrix) && result.rows == a.rows && result.columns == b.columns &&
              result.matrix != null && result.Cells() == Product(a.Cells(), b.Cells())
  {
    code := OK;
    if CheckMatrix(a) == OK && CheckMatrix(b) == OK {
      if a.columns == b.rows {
        var created := result.Create(a.rows, b.columns);
        if created == OK {
          FillProduct(result.matrix, a.matrix, b.matrix);
        }
      } else {
        code := ERR;
      }
    } else {
      code := INCORRECT;
    }
  }

  /**
   * The two outer loops of MultMatrix over a zero-filled m: cell (i, j)
   * accumulates row i of am against column j of bm.
   */
  method FillProduct(m: array2<real>, am: array2<real>, bm: array2<real>)
    requires m != am && m != bm
    requires 0 < am.Length0 && 0 < am.Length1 == bm.Length0 && 0 < bm.Length1
    requires m.Length0 == am.Length0 && m.Length1 == bm.Length1
    requires forall p, q :: 0 <= p < m.Length0 && 0 <= q < m.Length1 ==> m[p, q] == 0.0
    modifies m
    ensures CellsOf(m) == Product(CellsOf(am), CellsOf(bm))
  {
    ghost var A, B := CellsOf(am), CellsOf(bm);
    var i := 0;
    while i < am.Length0
      invariant 0 <= i <= am.Length0
      invariant forall p, q :: 0 <= p < i && 0 <= q < bm.Length1 ==> m[p, q] == Dot(A, B, p, q, am.Length1)
      invariant forall p, q :: i <= p < am.Length0 && 0 <= q < bm.Length1 ==> m[p, q] == 0.0
    {
      var j := 0;
      while j < bm.Length1
        invariant 0 <= j <= bm.Length1
        invariant forall p, q :: 0 <= p < i && 0 <= q < bm.Length1 ==> m[p, q] == Dot(A, B, p, q, am.Length1)
        invariant forall q :: 0 <= q < j ==> m[i, q] == Dot(A, B, i, q, am.Length1)
        invariant forall p, q :: i <= p < am.Length0 && 0 <= q < bm.Length1 && (p != i || j <= q) ==> m[p, q] == 0.0
      {
        AccumulateCell(m, am, bm, i, j);
        j := j + 1;
      }
      i := i + 1;
    }
    CellsAre(m, Product(A, B));
  }

  /** The innermost loop of the product: adds A[i][k] * B[k][j] for every k onto cell (i, j), in increasing k. */
  method AccumulateCell(m: array2<real>, am: array2<real>, bm: array2<real>, i: nat, j: nat)
    requires m != am && m != bm
    requires 0 < am.Length1 == bm.Length0
    requires i < am.Length0 && j < bm.Length1
    requires m.Length0 == am.Length0 && m.Length1 == bm.Length1
    modifies m
    ensures m[i, j] == old(m[i, j]) + Dot(CellsOf(am), CellsOf(bm), i, j, am.Length1)
    ensures forall p, q :: 0 <= p < m.Length0 && 0 <= q < m.Length1 && (p != i || q != j) ==> m[p, q] == old(m[p, q])
  {
    ghost var A, B := CellsOf(am), CellsOf(bm);
    var k := 0;
    while k < am.Length1
      invariant 0 <= k <= am.Length1
      invariant m[i, j] == old(m[i, j]) + Dot(A, B, i, j, k)
      invariant forall p, q :: 0 <= p < m.Length0 && 0 <= q < m.Length1 && (p != i || q != j) ==> m[p, q] == old(m[p, q])
    {
      m[i, j] := m[i, j] + am[i, k] * bm[k, j];
      k := k + 1;
    }
  }

  /** The validity guard's code for an invalid input; otherwise a fresh columns x rows result with result[j][i] = A[i][j]. */
  method Transpose(a: Matrix?, result: Matrix) returns (code: int)
    requires result != a && result.Valid()
    requires a != null ==> a.Valid()
    modifies result
    ensures result.Valid()
    ensures CheckMatrix(a) != OK ==> code == ERR && unchanged(result)
    ensures CheckMatrix(a) == OK ==>
              code == OK && fresh(result.matrix) && result.rows == a.columns && result.columns == a.rows &&
              result.matrix != null && result.Cells() == Transposed(a.Cells())
  {
    code := CheckMatrix(a);
    if code == OK {
      code := result.Create(a.columns, a.rows);
      if code == OK {
        FillTransposed(result.matrix, a.matrix);
      }
    }
  }

  /** The loops of SumMatrix: cell (i, j) of m becomes am[i, j] + bm[i, j]. */
  method FillSum(m: array2<real>, am: array2<real>, bm: array2<real>)
    requires m != am && m != bm
    requires am.Length0 == bm.Length0 == m.Length0 && am.Length1 == bm.Length1 == m.Length1
    modifies m
    ensures CellsOf(m) == Add(CellsOf(am), CellsOf(bm))
  {
    var i := 0;
    while i < m.Length0
      invariant 0 <= i <= m.Length0
      invariant forall p, q :: 0 <= p < i && 0 <= q < m.Length1 ==> m[p, q] == am[p, q] + bm[p, q]
    {
      var j := 0;
      while j < m.Length1
        invariant 0 <= j <= m.Length1
        invariant forall p, q :: 0 <= p < i && 0 <= q < m.Length1 ==> m[p, q] == am[p, q] + bm[p, q]
        invariant forall q :: 0 <= q < j ==> m[i, q] == am[i, q] + bm[i, q]
      {
        m[i, j] := am[i, j] + bm[i, j];
        j := j + 1;
      }
      i := i + 1;
    }
    CellsAre(m, Add(CellsOf(am), CellsOf(bm)));
  }

  /** The loops of SubMatrix: cell (i, j) of m becomes am[i, j] - bm[i, j]. */
  method FillDifference(m: array2<real>, am: array2<real>, bm: array2<real>)
    requires m != am && m != bm
    requires am.Length0 == bm.Length0 == m.Length0 && am.Length1 == bm.Length1 == m.Length1
    modifies m
    ensures CellsOf(m) == Sub(CellsOf(am), CellsOf(bm))
  {
    var i := 0;
    while i < m.Length0
      invariant 0 <= i <= m.Length0
      invariant forall p, q :: 0 <= p < i && 0 <= q < m.Length1 ==> m[p, q] == am[p, q] - bm[p, q]
    {
      var j := 0;
      while j < m.Length1
        invariant 0 <= j <= m.Length1
        invariant forall p, q :: 0 <= p < i && 0 <= q < m.Length1 ==> m[p, q] == am[p, q] - bm[p, q]
        invariant forall q :: 0 <= q < j ==> m[i, q] == am[i, q] - bm[i, q]
      {
        m[i, j] := am[i, j] - bm[i, j];
        j := j + 1;
      }
      i := i + 1;
    }
    CellsAre(m, Sub(CellsOf(am), CellsOf(bm)));
  }

  /** The loops of MultNumber: cell (i, j) of m becomes am[i, j] * number. */
  method FillScaled(m: array2<real>, am: array2<real>, number: real)
    requires m != am && am.Length0 == m.Length0 && am.Length1 == m.Length1
    modifies m
    ensures CellsOf(m) == Scale(CellsOf(am), number)
  {
    ghost var A := CellsOf(am);
    var i := 0;
    while i < m.Length0
      invariant 0 <= i <= m.Length0
      invariant forall p, q :: 0 <= p < i && 0 <= q < m.Length1 ==> m[p, q] == A[p][q] * number
    {
      var j := 0;
      while j < m.Length1
        invariant 0 <= j <= m.Length1
        invariant forall p, q :: 0 <= p < i && 0 <= q < m.Length1 ==> m[p, q] == A[p][q] * number
        invariant forall q :: 0 <= q < j ==> m[i, q] == A[i][q] * number
      {
        m[i, j] := am[i, j] * number;
        j := j + 1;
      }
      i := i + 1;
    }
    CellsAre(m, Scale(A, number));
  }

  /** The loops of Transpose: cell (j, i) of m becomes am[i, j]. */
  method FillTransposed(m: array2<real>, am: array2<real>)
    requires m != am && 0 < am.Length0 && am.Length0 == m.Length1 && am.Length1 == m.Length0
    modifies m
    ensures CellsOf(m) == Transposed(CellsOf(am))
  {
    var i := 0;
    while i < am.Length0
      invariant 0 <= i <= am.Length0
      invariant forall p, q :: 0 <= p < i && 0 <= q < am.Length1 ==> m[q, p] == am[p, q]
    {
      var j := 0;
      while j < am.Length1
        invariant 0 <= j <= am.Length1
        invariant forall p, q :: 0 <= p < i && 0 <= q < am.Length1 ==> m[q, p] == am[p, q]
        invariant forall q :: 0 <= q < j ==> m[q, i] == am[i, q]
      {
        m[j, i] := am[i, j];
        j := j + 1;
      }
      i := i + 1;
    }
    CellsAre(m, Transposed(CellsOf(am)));
  }
}
