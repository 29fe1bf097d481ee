/**
 * The matrix record of the library: storage that is either absent (the null
 * pointer) or a rows x columns array of cells, with the construction,
 * release, validity and equality operations.
 */
module Matrices {
  import opened Constants
  import opened Grids

  /** The cells of an array as a value. */
  function CellsOf(m: array2<real>): (g: Grid)
    reads m
    ensures IsMatrix(g, m.Length0, m.Length1)
    ensures forall i, j :: 0 <= i < m.Length0 && 0 <= j < m.Length1 ==> g[i][j] == m[i, j]
  {
    seq(m.Length0, i requires 0 <= i < m.Length0 reads m =>
      seq(m.Length1, j requires 0 <= j < m.Length1 reads m => m[i, j]))
  }

  /** An array whose cells agree with a grid of its shape has that grid as its value. */
  lemma CellsAre(m: array2<real>, g: Grid)
    requires IsMatrix(g, m.Length0, m.Length1)
    requires forall i, j :: 0 <= i < m.Length0 && 0 <= j < m.Length1 ==> m[i, j] == g[i][j]
    ensures CellsOf(m) == g
  {
    var c := CellsOf(m);
    forall i | 0 <= i < m.Length0
      ensures c[i] == g[i]
    {
    }
  }

  class Matrix {
    /** The storage; null when the matrix is empty (never created, released, or a failed creation). */
    var matrix: array2?<real>
    var rows: int
    var columns: int

    /** Storage, when present, has the recorded positive dimensions. */
    ghost predicate Valid()
      reads this
    {
      matrix != null ==> 0 < rows && 0 < columns && matrix.Length0 == rows && matrix.Length1 == columns
    }

    /** Every cell that a loop over rows x columns visits exists. */
    ghost predicate Readable()
      reads this
    {
      matrix != null || rows <= 0 || columns <= 0
    }

    function Cells(): Grid
      reads this, matrix
      requires matrix != null
    {
      CellsOf(matrix)
    }

    /** A declared but not yet created matrix. */
    constructor Empty()
      ensures Valid() && matrix == null && rows == 0 && columns == 0
    {
      matrix := null;
      rows := 0;
      columns := 0;
    }

    /**
     * Allocates rows x columns cells, all 0. Non-positive dimensions give
     * INCORRECT and reset the storage to null, leaving the dimensions as they were.
     */
    method Create(rows: int, columns: int) returns (code: int)
      modifies this
      ensures Valid()
      ensures code == OK <==> 0 < rows && 0 < columns
      ensures code != OK ==> code == INCORRECT && matrix == null
      ensures code != OK ==> this.rows == old(this.rows) && this.columns == old(this.columns)
      ensures code == OK ==> fresh(matrix) && this.rows == rows && this.columns == columns
      ensures code == OK ==> matrix != null && Cells() == Zero(rows, columns)
    {
      code := OK;
      if 0 < rows && 0 < columns {
        matrix := new real[rows, columns]((i, j) => 0.0);
        this.columns := columns;
        this.rows := rows;
        CellsAre(matrix, Zero(rows, columns));
      } else {
        matrix := null;
        code := INCORRECT;
      }
    }

    /** Releases the storage and resets the dimensions to 0; does nothing on an empty matrix. */
    method Remove()
      modifies this
      ensures Valid()
      ensures matrix == null
      ensures old(matrix) != null ==> rows == 0 && columns == 0
      ensures old(matrix) == null ==> rows == old(rows) && columns == old(columns)
    {
      if matrix != null {
        matrix := null;
        rows := 0;
        columns := 0;
      }
    }
  }

  /** The validity guard: OK exactly for a matrix that has storage (which then has positive dimensions). */
  function CheckMatrix(a: Matrix?): (code: int)
    reads a
    requires a != null ==> a.Valid()
    ensures code == OK || code == ERR
    ensures code == OK <==> a != null && a.matrix != null
    ensures code == OK ==> 1 <= a.rows && 1 <= a.columns && IsMatrix(a.Cells(), a.rows, a.columns)
  {
    if a == null || a.matrix == null || a.rows < 1 || a.columns < 1 then ERR else OK
  }

  /**
   * SUCCESS exactly when both matrices exist, have the same dimensions, and
   * every pair of corresponding cells differs by at most PRECISION.
   */
  method EqMatrix(a: Matrix?, b: Matrix?) returns (r: int)
    requires a != null ==> a.Valid()
    requires b != null ==> b.Valid()
    requires a != null && b != null && a.rows == b.rows && a.columns == b.columns ==> a.Readable() && b.Readable()
    ensures r == SUCCESS || r == FAILURE
    ensures r == SUCCESS <==>
              a != null && b != null && a.rows == b.rows && a.columns == b.columns &&
              (0 < a.rows && 0 < a.columns ==> Near(a.Cells(), b.Cells()))
  {
    if a == null || b == null || a.rows != b.rows || a.columns != b.columns {
      return FAILURE;
    }
    var i := 0;
    while i < a.rows
      invariant 0 <= i && (0 < a.rows ==> i <= a.rows)
      invariant 0 < a.rows && 0 < a.columns ==> forall p, q :: 0 <= p < i && 0 <= q < a.columns ==>
                  Close(a.matrix[p, q], b.matrix[p, q])
    {
      var j := 0;
      while j < a.columns
        invariant 0 <= j && (0 < a.columns ==> j <= a.columns)
        invariant 0 < a.columns ==> forall p, q :: 0 <= p < i && 0 <= q < a.columns ==>
                    Close(a.matrix[p, q], b.matrix[p, q])
        invariant 0 < a.columns ==> forall q :: 0 <= q < j ==> Close(a.matrix[i, q], b.matrix[i, q])
      {
        var diff := a.matrix[i, j] - b.matrix[i, j];
        if Abs(diff) > PRECISION {
          assert !Close(a.Cells()[i][j], b.Cells()[i][j]);
          return FAILURE;
        }
        j := j + 1;
      }
      i := i + 1;
    }
    r := SUCCESS;
    if 0 < a.rows && 0 < a.columns {
      assert forall p, q :: 0 <= p < a.rows && 0 <= q < a.columns ==> Close(a.Cells()[p][q], b.Cells()[p][q]);
    }
  }
}
