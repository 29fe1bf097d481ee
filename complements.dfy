/**
 * The cofactor matrix and the inverse. Both build their result in `result`;
 * the cofactors from 3x3 on run the in-place determinant on a scratch minor
 * matrix, and the inverse runs it on a copy of its input, so the input's
 * cells are never changed.
 */
module Complements {
  import opened Constants
  import opened Grids
  import opened GridDet
  import opened GridInverse
  import opened Matrices
  import opened Arithmetic
  import opened Determinants

  /**
   * One cell of the 2x2 cofactor matrix: the 1x1 minor without row i and
   * column j is built in `forMinor`, and its single cell times (-1)^(i+j).
   */
  method CofactorOfTwo(a: Matrix, forMinor: Matrix, i: nat, j: nat) returns (v: real)
    requires a.Valid() && a.matrix != null && a.rows == 2 && a.columns == 2
    requires forMinor.Valid() && forMinor.matrix != null && forMinor.rows == 1 && forMinor.columns == 1
    requires forMinor.matrix != a.matrix && i < 2 && j < 2
    modifies forMinor.matrix
    ensures v == Sign(i + j) * a.matrix[1 - i, 1 - j]
  {
    ghost var A := a.Cells();
    MinorMatrix(i, j, a, forMinor);
    MinorAt(A, i, j);
    v := forMinor.matrix[0, 0] * Sign(i + j);
    assert forMinor.matrix[0, 0] == Minor(A, i, j)[0][0];
  }

  /** A 2x2 grid holding (-1)^(i+j) times the cell opposite (i, j) is the cofactor matrix. */
  lemma CofactorsOfTwoAre(g: Grid, fuel: nat, c: Grid)
    requires Square(g) && |g| == 2 && IsMatrix(c, 2, 2)
    requires forall p, q :: 0 <= p < 2 && 0 <= q < 2 ==> c[p][q] == Sign(p + q) * g[1 - p][1 - q]
    ensures Cofactors(g, fuel) == Some(c)
  {
    CofactorsOfTwo(g, fuel);
    var v := Cofactors(g, fuel).value;
    forall p | 0 <= p < 2
      ensures v[p] == c[p]
    {
      assert forall q :: 0 <= q < 2 ==> v[p][q] == c[p][q];
    }
    assert v == c;
  }

  /** For 2x2: cell (i, j) is the single cell of the minor without row i and column j, times (-1)^(i+j). */
  method ComplementsOfTwo(a: Matrix, result: Matrix, ghost fuel: nat)
    requires a.Valid() && a.matrix != null && a.rows == 2 && a.columns == 2
    requires result.Valid() && result.matrix != null && result.rows == 2 && result.columns == 2
    requires result.matrix != a.matrix
    modifies result.matrix
    ensures Cofactors(a.Cells(), fuel).Some? && result.Cells() == Cofactors(a.Cells(), fuel).value
  {
    ghost var A := a.Cells();
    var forMinor := new Matrix.Empty();
    var created := forMinor.Create(1, 1);
    FillCofactorsOfTwo(a, forMinor, result.matrix);
    forMinor.Remove();
    ghost var c := CellsOf(result.matrix);
    CofactorsOfTwoAre(A, fuel, c);
  }

  /** The two loops of the 2x2 cofactor matrix, each cell from CofactorOfTwo on the shared 1x1 scratch matrix. */
  method FillCofactorsOfTwo(a: Matrix, forMinor: Matrix, rm: array2<real>)
    requires a.Valid() && a.matrix != null && a.rows == 2 && a.columns == 2
    requires forMinor.Valid() && forMinor.matrix != null && forMinor.rows == 1 && forMinor.columns == 1
    requires forMinor.matrix != a.matrix && rm != a.matrix && rm != forMinor.matrix
    requires rm.Length0 == 2 && rm.Length1 == 2
    modifies rm, forMinor.matrix
    ensures forall p, q :: 0 <= p < 2 && 0 <= q < 2 ==> rm[p, q] == Sign(p + q) * a.matrix[1 - p, 1 - q]
  {
    var am, fm := a.matrix, forMinor.matrix;
    var i := 0;
    while i < a.rows
      modifies rm, fm
      invariant 0 <= i <= 2
      invariant forall p, q :: 0 <= p < i && 0 <= q < 2 ==> rm[p, q] == Sign(p + q) * am[1 - p, 1 - q]
    {
      var j := 0;
      while j < a.columns
        modifies rm, fm
        invariant 0 <= j <= 2
        invariant forall p, q :: 0 <= p < i && 0 <= q < 2 ==> rm[p, q] == Sign(p + q) * am[1 - p, 1 - q]
        invariant forall q :: 0 <= q < j ==> rm[i, q] == Sign(i + q) * am[1 - i, 1 - q]
      {
        var v := CofactorOfTwo(a, forMinor, i, j);
        rm[i, j] := v;
        j := j + 1;
      }
      i := i + 1;
    }
  }

  /**
   * The determinants of all minors of g, as a table whose entries are tied
   * to Det only where the minor itself is mentioned, so that the loops below
   * can speak of the table without unfolding Det.
   */
  lemma MinorDets(g: Grid, fuel: nat) returns (D: seq<seq<Outcome<real>>>)
    requires Square(g) && 2 <= |g|
    ensures |D| == |g| && forall p :: 0 <= p < |g| ==> |D[p]| == |g|
    ensures forall p, q {:trigger Minor(g, p, q)} :: 0 <= p < |g| && 0 <= q < |g| ==> D[p][q] == Det(Minor(g, p, q), fuel)
  {
    D := seq(|g|, p requires 0 <= p < |g| => seq(|g|, q requires 0 <= q < |g| => Det(Minor(g, p, q), fuel)));
  }

  /**
   * One cell of the cofactor matrix from 3x3 on: the minor without row i and
   * column j is built in `forMinor`, its determinant is computed there in
   * place, and the cell is that determinant times (-1)^(i+j); or the fault
   * of that determinant. D is the table of MinorDets for A.
   */
  method CofactorFromMinor(a: Matrix, forMinor: Matrix, i: nat, j: nat, fuel: nat, ghost A: Grid, ghost D: seq<seq<Outcome<real>>>)
    returns (v: real, fault: Option<Fault>)
    requires a.Valid() && a.matrix != null && a.rows == a.columns && 3 <= a.rows && a.Cells() == A
    requires forMinor.Valid() && forMinor.matrix != null
    requires forMinor.rows == a.rows - 1 && forMinor.columns == a.columns - 1
    requires forMinor.matrix != a.matrix && i < a.rows && j < a.columns
    requires |D| == |A| && forall p :: 0 <= p < |A| ==> |D[p]| == |A|
    requires forall p, q {:trigger Minor(A, p, q)} :: 0 <= p < |A| && 0 <= q < |A| ==> D[p][q] == Det(Minor(A, p, q), fuel)
    modifies forMinor.matrix
    ensures fault.None? <==> D[i][j].Done?
    ensures fault.None? ==> v == D[i][j].value * Sign(i + j)
  {
    MinorMatrix(i, j, a, forMinor);
    var code, d, f := Determinant(forMinor, 0.0, fuel);
    fault := f;
    v := d * Sign(i + j);
    assert D[i][j] == Det(Minor(A, i, j), fuel);
  }

  /**
   * The two loops of the cofactor matrix from 3x3 on, in row-major order,
   * each cell from CofactorFromMinor on the shared scratch matrix. On a
   * fault, (fi, fj) is the cell whose minor determinant has none.
   */
  method FillCofactors(a: Matrix, forMinor: Matrix, rm: array2<real>, fuel: nat, ghost A: Grid, ghost D: seq<seq<Outcome<real>>>)
    returns (fault: Option<Fault>, ghost fi: nat, ghost fj: nat)
    requires a.Valid() && a.matrix != null && a.rows == a.columns && 3 <= a.rows && a.Cells() == A
    requires forMinor.Valid() && forMinor.matrix != null
    requires forMinor.rows == a.rows - 1 && forMinor.columns == a.columns - 1
    requires forMinor.matrix != a.matrix && rm != a.matrix && rm != forMinor.matrix
    requires rm.Length0 == a.rows && rm.Length1 == a.columns
    requires |D| == |A| && forall p :: 0 <= p < |A| ==> |D[p]| == |A|
    requires forall p, q {:trigger Minor(A, p, q)} :: 0 <= p < |A| && 0 <= q < |A| ==> D[p][q] == Det(Minor(A, p, q), fuel)
    modifies rm, forMinor.matrix
    ensures fault.Some? ==> fi < |A| && fj < |A| && !D[fi][fj].Done?
    ensures fault.None? ==> forall p, q :: 0 <= p < |A| && 0 <= q < |A| ==> D[p][q].Done? && rm[p, q] == D[p][q].value * Sign(p + q)
  {
    ghost var n := a.rows;
    var fm := forMinor.matrix;
    fault, fi, fj := None, 0, 0;
    var i := 0;
    while i < a.rows
      modifies rm, fm
      invariant 0 <= i <= n && a.Cells() == A
      invariant forall p, q :: 0 <= p < i && 0 <= q < n ==> D[p][q].Done? && rm[p, q] == D[p][q].value * Sign(p + q)
    {
      var j := 0;
      while j < a.columns
        modifies rm, fm
        invariant 0 <= j <= n && a.Cells() == A
        invariant forall p, q :: 0 <= p < i && 0 <= q < n ==> D[p][q].Done? && rm[p, q] == D[p][q].value * Sign(p + q)
        invariant forall q :: 0 <= q < j ==> D[i][q].Done? && rm[i, q] == D[i][q].value * Sign(i + q)
      {
        var v, f := CofactorFromMinor(a, forMinor, i, j, fuel, A, D);
        if f.Some? {
          fault, fi, fj := f, i, j;
          return;
        }
        rm[i, j] := v;
        j := j + 1;
      }
      i := i + 1;
    }
  }

  /** From 3x3 on, the cofactor matrix read off a table of the minor determinants. */
  lemma CofactorsOfDets(g: Grid, fuel: nat, D: seq<seq<Outcome<real>>>)
    requires Square(g) && 3 <= |g|
    requires |D| == |g| && forall p :: 0 <= p < |g| ==> |D[p]| == |g|
    requires forall p, q {:trigger Minor(g, p, q)} :: 0 <= p < |g| && 0 <= q < |g| ==> D[p][q] == Det(Minor(g, p, q), fuel)
    ensures Cofactors(g, fuel).Some? <==> forall p, q :: 0 <= p < |g| && 0 <= q < |g| ==> D[p][q].Done?
    ensures Cofactors(g, fuel).Some? ==>
              forall p, q :: 0 <= p < |g| && 0 <= q < |g| ==> Cofactors(g, fuel).value[p][q] == D[p][q].value * Sign(p + q)
  {
    assert forall p, q :: 0 <= p < |g| && 0 <= q < |g| ==> D[p][q] == Det(Minor(g, p, q), fuel);
  }

  /**
   * From 3x3 on: cell (i, j) is the determinant of the minor without row i
   * and column j, times (-1)^(i+j), each determinant computed in place on one
   * shared scratch matrix. Stops with the fault of the first minor, in
   * row-major order, whose determinant has no real-valued outcome.
   */
  method ComplementsFromMinors(a: Matrix, result: Matrix, fuel: nat) returns (fault: Option<Fault>)
    requires a.Valid() && a.matrix != null && a.rows == a.columns && 3 <= a.rows
    requires result.Valid() && result.matrix != null && result.rows == a.rows && result.columns == a.columns
    requires result.matrix != a.matrix
    modifies result.matrix
    ensures fault.None? <==> Cofactors(a.Cells(), fuel).Some?
    ensures fault.None? ==> result.Cells() == Cofactors(a.Cells(), fuel).value
  {
    ghost var A := a.Cells();
    ghost var D: seq<seq<Outcome<real>>> := MinorDets(A, fuel);
    var forMinor := new Matrix.Empty();
    var created := forMinor.Create(a.rows - 1, a.columns - 1);
    ghost var fi, fj;
    fault, fi, fj := FillCofactors(a, forMinor, result.matrix, fuel, A, D);
    forMinor.Remove();
    CofactorsOfDets(A, fuel, D);
    if fault.None? {
      ghost var C := Cofactors(A, fuel).value;
      CellsAre(result.matrix, C);
    }
  }

  /**
   * The cofactor matrix. The validity guard's ERR for an invalid input, with
   * `result` untouched; ERR for a non-square input, with `result` reset to
   * the empty matrix. Otherwise OK with a fresh n x n result holding
   * Cofactors, or the fault of the first minor determinant that has none.
   */
  method CalcComplements(a: Matrix?, result: Matrix, fuel: nat) returns (code: int, fault: Option<Fault>)
    requires result != a && result.Valid()
    requires a != null ==> a.Valid()
    modifies result
    ensures result.Valid()
    ensures CheckMatrix(a) != OK ==> code == ERR && fault == None && unchanged(result)
    ensures CheckMatrix(a) == OK && a.rows != a.columns ==>
              code == ERR && fault == None && result.matrix == null && result.rows == 0 && result.columns == 0
    ensures CheckMatrix(a) == OK && a.rows == a.columns ==>
              code == OK && fresh(result.matrix) && result.matrix != null &&
              result.rows == a.rows && result.columns == a.columns &&
              (fault.None? <==> Cofactors(a.Cells(), fuel).Some?) &&
              (fault.None? ==> result.Cells() == Cofactors(a.Cells(), fuel).value)
  {
    code, fault := CheckMatrix(a), None;
    if code == OK {
      if a.rows == a.columns {
        code := result.Create(a.rows, a.columns);
        if code == OK {
          if a.rows == 1 {
            result.matrix[0, 0] := a.matrix[0, 0];
            CellsAre(result.matrix, a.Cells());
          } else if a.rows == 2 {
            ComplementsOfTwo(a, result, fuel);
          } else {
            fault := ComplementsFromMinors(a, result, fuel);
          }
        }
      } else {
        code := ERR;
        result.matrix := null;
        result.rows := 0;
        result.columns := 0;
      }
    }
  }

  /** The copy loop of the inverse: every cell of `a` into the equally sized `copy`. */
  method CopyCells(a: Matrix, copy: Matrix)
    requires a.Valid() && a.matrix != null && copy.Valid() && copy.matrix != null
    requires copy.rows == a.rows && copy.columns == a.columns && copy.matrix != a.matrix
    modifies copy.matrix
    ensures copy.Cells() == a.Cells()
  {
    var m, cm := a.matrix, copy.matrix;
    var i := 0;
    while i < a.rows
      invariant 0 <= i <= a.rows
      invariant forall p, q :: 0 <= p < i && 0 <= q < a.columns ==> cm[p, q] == m[p, q]
    {
      var j := 0;
      while j < a.columns
        invariant 0 <= j <= a.columns
        invariant forall p, q :: 0 <= p < i && 0 <= q < a.columns ==> cm[p, q] == m[p, q]
        invariant forall q :: 0 <= q < j ==> cm[i, q] == m[i, q]
      {
        cm[i, j] := m[i, j];
        j := j + 1;
      }
      i := i + 1;
    }
    CellsAre(cm, a.Cells());
  }

  /** The final loop of the inverse: every cell multiplied by k in place. */
  method MultiplyCells(m: array2<real>, k: real)
    requires 0 < m.Length0 && 0 < m.Length1
    modifies m
    ensures CellsOf(m) == Scale(old(CellsOf(m)), k)
  {
    ghost var g := CellsOf(m);
    var i := 0;
    while i < m.Length0
      invariant 0 <= i <= m.Length0
      invariant forall p, q :: 0 <= p < m.Length0 && 0 <= q < m.Length1 ==> m[p, q] == if p < i then g[p][q] * k else g[p][q]
    {
      var j := 0;
      while j < m.Length1
        invariant 0 <= j <= m.Length1
        invariant forall p, q :: 0 <= p < m.Length0 && 0 <= q < m.Length1 ==>
                    m[p, q] == if p < i || (p == i && q < j) then g[p][q] * k else g[p][q]
      {
        m[i, j] := m[i, j] * k;
        j := j + 1;
      }
      i := i + 1;
    }
    CellsAre(m, Scale(g, k));
  }

  /** The three ways Inverse can end, read off the determinant and the cofactors of the transpose. */
  lemma InverseCases(g: Grid, fuel: nat)
    requires Square(g) && 1 <= |g|
    ensures Square(Transposed(g)) && |Transposed(g)| == |g|
    ensures Det(g, fuel).Failed? ==> Inverse(g, fuel).Undefined?
    ensures Det(g, fuel).Done? && Abs(Det(g, fuel).value - 0.0) <= PRECISION ==> Inverse(g, fuel).Singular?
    ensures Det(g, fuel).Done? && Abs(Det(g, fuel).value - 0.0) > PRECISION ==>
              (Inverse(g, fuel).Undefined? <==> Cofactors(Transposed(g), fuel).None?) &&
              (Cofactors(Transposed(g), fuel).Some? ==>
                 Inverse(g, fuel) == Inverted(Scale(Cofactors(Transposed(g), fuel).value, 1.0 / Det(g, fuel).value)))
  {
    TransposedSquare(g);
  }

  /**
   * The first half of the inverse: a fresh copy of the square matrix `a`,
   * and the determinant computed in place on that copy, so that `a` keeps
   * its cells.
   */
  method DeterminantOfCopy(a: Matrix, fuel: nat) returns (copy: Matrix, d: real, f: Option<Fault>)
    requires a.Valid() && a.matrix != null && a.rows == a.columns
    ensures fresh(copy) && copy.Valid()
    ensures Det(a.Cells(), fuel) == if f.None? then Done(d) else Failed(f.value)
  {
    ghost var A := a.Cells();
    var res := 0.0;
    copy := new Matrix.Empty();
    var created := copy.Create(a.rows, a.columns);
    CopyCells(a, copy);
    assert copy.Cells() == A;
    var detCode;
    detCode, d, f := Determinant(copy, res, fuel);
  }

  /**
   * The second half of the inverse, for a determinant `det` away from 0:
   * the cofactors of the transpose of `a` into `result`, every cell then
   * multiplied by 1/det; or the fault of a minor determinant.
   */
  method ScaledComplements(a: Matrix, result: Matrix, det: real, fuel: nat) returns (fault: Option<Fault>)
    requires a.Valid() && a.matrix != null && a.rows == a.columns
    requires result != a && result.Valid() && Abs(det - 0.0) > PRECISION
    modifies result
    ensures result.Valid()
    ensures Square(Transposed(a.Cells())) && |Transposed(a.Cells())| == a.rows
    ensures fault.None? <==> Cofactors(Transposed(a.Cells()), fuel).Some?
    ensures fault.None? ==>
              fresh(result.matrix) && result.matrix != null && result.rows == a.rows && result.columns == a.columns &&
              result.Cells() == Scale(Cofactors(Transposed(a.Cells()), fuel).value, 1.0 / det)
  {
    ghost var A := a.Cells();
    TransposedSquare(A);
    var transpose := new Matrix.Empty();
    var transposed := Transpose(a, transpose);
    var complemented;
    complemented, fault := CalcComplements(transpose, result, fuel);
    if fault.None? {
      MultiplyCells(result.matrix, 1.0 / det);
    }
    transpose.Remove();
  }

  /**
   * The inverse. The validity guard's ERR for an invalid input and ERR for a
   * non-square one, both with `result` untouched. Otherwise the determinant
   * is computed on a copy: ERR with `result` untouched when it is within
   * PRECISION of 0, else OK with the cofactors of the transpose times 1/det.
   * A's cells are never changed.
   */
  method InverseMatrix(a: Matrix?, result: Matrix, fuel: nat) returns (code: int, fault: Option<Fault>)
    requires result != a && result.Valid()
    requires a != null ==> a.Valid()
    modifies result
    ensures result.Valid()
    ensures a != null && a.matrix != null ==> unchanged(a.matrix)
    ensures CheckMatrix(a) != OK ==> code == ERR && fault == None && unchanged(result)
    ensures CheckMatrix(a) == OK && a.rows != a.columns ==> code == ERR && fault == None && unchanged(result)
    ensures CheckMatrix(a) == OK && a.rows == a.columns ==> (fault.Some? <==> Inverse(a.Cells(), fuel).Undefined?)
    ensures CheckMatrix(a) == OK && a.rows == a.columns && Inverse(a.Cells(), fuel).Singular? ==>
              code == ERR && unchanged(result)
    ensures CheckMatrix(a) == OK && a.rows == a.columns && Inverse(a.Cells(), fuel).Inverted? ==>
              code == OK && fresh(result.matrix) && result.matrix != null &&
              result.rows == a.rows && result.columns == a.columns &&
              result.Cells() == Inverse(a.Cells(), fuel).grid
  {
    code, fault := CheckMatrix(a), None;
    if code == OK {
      if a.columns == a.rows {
        ghost var A := a.Cells();
        InverseCases(A, fuel);
        var copy, res, f := DeterminantOfCopy(a, fuel);
        if f.Some? {
          fault := f;
          return;
        }
        if Abs(res - 0.0) > PRECISION {
          fault := ScaledComplements(a, result, res, fuel);
          copy.Remove();
        } else {
          copy.Remove();
          code := ERR;
        }
      } else {
        code := ERR;
      }
    }
  }
}
