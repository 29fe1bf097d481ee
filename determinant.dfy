/**
 * The determinant of the library and its helpers, working in place on the
 * storage of a matrix: minor extraction, the zero-line check, the count of
 * zero diagonal cells, the row search and the row-swapping pass, forward
 * elimination and the diagonal product. Each method is proved against the
 * corresponding function of GridDet or Grids.
 */
module Determinants {
  import opened Constants
  import opened Grids
  import opened GridDet
  import opened Matrices

  /** Position in the minor of position k of the original, for k other than gap (the inverse of Skip). */
  function Before(k: nat, gap: nat): nat {
    if k > gap then k - 1 else k
  }

  /**
   * Copies A without row I and column J into the (rows-1) x (columns-1)
   * storage of `result`, in row-major order through the write cursors
   * resI, resJ; the column cursor wraps to 0 after the last column of the
   * result, moving the row cursor down.
   */
  method MinorMatrix(I: nat, J: nat, a: Matrix, result: Matrix)
    requires a.Valid() && a.matrix != null && result.Valid() && result.matrix != null
    requires result.matrix != a.matrix
    requires 2 <= a.rows && 2 <= a.columns && I < a.rows && J < a.columns
    requires result.rows == a.rows - 1 && result.columns == a.columns - 1
    modifies result.matrix
    ensures result.Cells() == Minor(a.Cells(), I, J)
  {
    var m, rm := a.matrix, result.matrix;
    var resI, resJ := 0, 0;
    var i := 0;
    while i < a.rows
      invariant 0 <= i <= a.rows
      invariant resI == Before(i, I) && resJ == 0
      invariant forall r, c :: 0 <= r < result.rows && 0 <= c < result.columns && r < resI ==>
                  rm[r, c] == m[Skip(r, I), Skip(c, J)]
    {
      var j := 0;
      while j < a.columns
        invariant 0 <= j <= a.columns
        invariant i == I ==> resI == I && resJ == 0
        invariant i != I && Before(j, J) < result.columns ==> resI == Before(i, I) && resJ == Before(j, J)
        invariant i != I && Before(j, J) == result.columns ==> resI == Before(i, I) + 1 && resJ == 0
        invariant forall r, c :: 0 <= r < result.rows && 0 <= c < result.columns && (r < resI || (r == resI && c < resJ)) ==>
                    rm[r, c] == m[Skip(r, I), Skip(c, J)]
      {
        if i != I && j != J {
          rm[resI, resJ] := m[i, j];
          if resJ < result.columns - 1 {
            resJ := resJ + 1;
          } else {
            resJ := 0;
            resI := resI + 1;
          }
        }
        j := j + 1;
      }
      i := i + 1;
    }
    MinorAt(a.Cells(), I, J);
    CellsAre(rm, Minor(a.Cells(), I, J));
  }

  /**
   * 1 exactly when some index i has row i entirely zero or column i entirely
   * zero, scanning i upwards and stopping at the first such index; 0 otherwise.
   */
  method ZeroDetCheck(a: Matrix) returns (r: int)
    requires a.Valid() && a.matrix != null && a.rows == a.columns
    ensures r == 0 || r == 1
    ensures r == 1 <==> HasZeroLine(a.Cells())
  {
    var m := a.matrix;
    ghost var g := a.Cells();
    var zeroColumns, zeroRows := 0, 0;
    var i := 0;
    while i < a.rows
      invariant 0 <= i <= a.rows
      invariant zeroColumns == 0 && zeroRows == 0
      invariant forall k :: 0 <= k < i ==> !ZeroRow(g, k) && !ZeroCol(g, k)
    {
      var j := 0;
      while j < a.columns
        invariant 0 <= j <= a.columns
        invariant 0 <= zeroColumns <= j && (zeroColumns == j <==> forall p :: 0 <= p < j ==> m[p, i] == 0.0)
        invariant 0 <= zeroRows <= j && (zeroRows == j <==> forall q :: 0 <= q < j ==> m[i, q] == 0.0)
      {
        if m[j, i] == 0.0 {
          zeroColumns := zeroColumns + 1;
        }
        if m[i, j] == 0.0 {
          zeroRows := zeroRows + 1;
        }
        j := j + 1;
      }
      if zeroColumns == a.rows || zeroRows == a.columns {
        assert ZeroRow(g, i) || ZeroCol(g, i);
        break;
      } else {
        assert !ZeroCol(g, i) by {
          var p :| 0 <= p < a.rows && m[p, i] != 0.0;
          assert g[p][i] != 0.0;
        }
        assert !ZeroRow(g, i) by {
          var q :| 0 <= q < a.columns && m[i, q] != 0.0;
          assert g[i][q] != 0.0;
        }
        zeroColumns, zeroRows := 0, 0;
      }
      i := i + 1;
    }
    r := if zeroColumns == a.rows || zeroRows == a.columns then 1 else 0;
  }

  /** The number of zero cells on the diagonal. */
  method ZeroCnt(a: Matrix) returns (count: int)
    requires a.Valid() && a.matrix != null && a.rows == a.columns
    ensures count == DiagZeros(a.Cells(), a.rows)
    ensures count == 0 <==> forall i :: 0 <= i < a.rows ==> a.Cells()[i][i] != 0.0
  {
    var m := a.matrix;
    ghost var g := a.Cells();
    count := 0;
    var i := 0;
    while i < a.rows
      invariant 0 <= i <= a.rows
      invariant count == DiagZeros(g, i)
    {
      if m[i, i] == 0.0 {
        count := count + 1;
      }
      i := i + 1;
    }
    DiagZerosNone(g, a.rows);
  }

  /** The first row with no zero cell, or `rows` (one past the last row) when every row has a zero. */
  method FindRowToSwap(a: Matrix) returns (row: int)
    requires a.Valid() && a.matrix != null
    ensures 0 <= row <= a.rows
    ensures row == FirstFullRow(a.Cells())
  {
    var m := a.matrix;
    ghost var g := a.Cells();
    var nonZero := 0;
    var i := 0;
    while i < a.rows
      invariant 0 <= i <= a.rows
      invariant nonZero == 0
      invariant forall k :: 0 <= k < i ==> !FullRow(g, k)
    {
      var j := 0;
      while j < a.columns
        invariant 0 <= j <= a.columns
        invariant 0 <= nonZero <= j && (nonZero == j <==> forall q :: 0 <= q < j ==> m[i, q] != 0.0)
      {
        if m[i, j] != 0.0 {
          nonZero := nonZero + 1;
        }
        j := j + 1;
      }
      if nonZero == a.columns {
        assert FullRow(g, i);
        break;
      } else {
        assert !FullRow(g, i) by {
          var q :| 0 <= q < a.columns && m[i, q] == 0.0;
          assert g[i][q] == 0.0;
        }
        nonZero := 0;
      }
      i := i + 1;
    }
    row := i;
    FirstFullRowIs(g, row);
  }

  /** Exchanges rows i and r cell by cell through the buffer; every other row stays as it was. */
  method ExchangeRows(m: array2<real>, buffer: array<real>, i: nat, r: nat)
    requires 0 < m.Length0 == m.Length1 && i < m.Length0 && r < m.Length0
    requires buffer.Length == m.Length1
    modifies m, buffer
    ensures CellsOf(m) == SwapRows(old(CellsOf(m)), i, r)
  {
    ghost var g := CellsOf(m);
    var j := 0;
    while j < m.Length1
      modifies m, buffer
      invariant 0 <= j <= m.Length1
      invariant forall q :: 0 <= q < j ==> m[i, q] == g[r][q] && m[r, q] == g[i][q]
      invariant forall p, q :: 0 <= p < m.Length0 && 0 <= q < m.Length1 && (j <= q || (p != i && p != r)) ==> m[p, q] == g[p][q]
    {
      buffer[j] := m[r, j];
      m[r, j] := m[i, j];
      m[i, j] := buffer[j];
      j := j + 1;
    }
    CellsAre(m, SwapRows(g, i, r));
  }

  /**
   * Row i of a swapping pass: when its diagonal cell is zero, the row is
   * exchanged with the first fully nonzero row and one swap is counted.
   * `inRange` is false when the search found no such row.
   */
  method SwapStep(a: Matrix, buffer: array<real>, i: nat, count: nat) returns (next: nat, inRange: bool)
    requires a.Valid() && a.matrix != null && a.rows == a.columns && i < a.rows
    requires buffer.Length == a.columns
    modifies a.matrix, buffer
    ensures old(a.Cells())[i][i] != 0.0 ==> inRange && next == count && a.Cells() == old(a.Cells())
    ensures old(a.Cells())[i][i] == 0.0 && inRange ==>
              FirstFullRow(old(a.Cells())) < a.rows && next == count + 1 &&
              a.Cells() == SwapRows(old(a.Cells()), i, FirstFullRow(old(a.Cells())))
    ensures !inRange ==> FirstFullRow(old(a.Cells())) == a.rows && a.Cells() == old(a.Cells())
    ensures SwapPassFrom(old(a.Cells()), i, count) ==
            if inRange then SwapPassFrom(a.Cells(), i + 1, next) else Failed(RowOutOfRange)
  {
    var m := a.matrix;
    ghost var before := CellsOf(m);
    next, inRange := count, true;
    if m[i, i] == 0.0 {
      assert before[i][i] == 0.0;
      var row := FindRowToSwap(a);
      if row == a.rows {
        inRange := false;
        return;
      }
      ExchangeRows(m, buffer, i, row);
      next := count + 1;
    } else {
      assert before[i][i] != 0.0;
    }
  }

  /**
   * One swapping pass: every row i whose diagonal cell is zero (when it is
   * reached) is exchanged with the first fully nonzero row, counting one
   * swap. `inRange` is false when a search found no such row: the
   * original then reads the row one past the last, and the pass stops here.
   */
  method SwapMatrix(a: Matrix, swapCnt: nat) returns (count: nat, inRange: bool)
    requires a.Valid() && a.matrix != null && a.rows == a.columns
    modifies a.matrix
    ensures SwapPassFrom(old(a.Cells()), 0, swapCnt) ==
            if inRange then Done(Swapped(a.Cells(), count)) else Failed(RowOutOfRange)
  {
    var m := a.matrix;
    ghost var g := CellsOf(m);
    var buffer := new real[a.columns](_ => 0.0);
    count := swapCnt;
    var i := 0;
    while i < a.rows
      modifies m, buffer
      invariant 0 <= i <= a.rows
      invariant SwapPassFrom(CellsOf(m), i, count) == SwapPassFrom(g, 0, swapCnt)
    {
      count, inRange := SwapStep(a, buffer, i, count);
      if !inRange {
        return;
      }
      i := i + 1;
    }
    inRange := true;
  }

  /** Adds coef times row src to row i from column `from` on. */
  method AddScaledRow(m: array2<real>, i: nat, src: nat, coef: real, from: nat)
    requires 0 < m.Length0 == m.Length1 && i < m.Length0 && src < m.Length0 && i != src
    modifies m
    ensures CellsOf(m) == AddScaled(old(CellsOf(m)), i, src, coef, from)
  {
    ghost var g := CellsOf(m);
    var elem := from;
    while elem < m.Length1
      invariant from <= elem && (from <= m.Length1 ==> elem <= m.Length1)
      invariant forall q :: 0 <= q < m.Length1 && from <= q < elem ==> m[i, q] == g[i][q] + g[src][q] * coef
      invariant forall p, q :: 0 <= p < m.Length0 && 0 <= q < m.Length1 && (p != i || q < from || elem <= q) ==> m[p, q] == g[p][q]
    {
      m[i, elem] := m[i, elem] + m[src, elem] * coef;
      elem := elem + 1;
    }
    CellsAre(m, AddScaled(g, i, src, coef, from));
  }

  /**
   * Cell (i, j) of the forward elimination: a cell below the diagonal
   * farther than PRECISION from 0 is cancelled against row 0 (in column 0)
   * or the row just above (in later columns). `ok` is false when that
   * divisor is zero.
   */
  method EliminateCell(m: array2<real>, i: nat, j: nat) returns (ok: bool)
    requires 0 < m.Length0 == m.Length1 && i < m.Length0 && j < m.Length1
    modifies m
    ensures !(i > j && Abs(old(m[i, j]) - 0.0) > PRECISION) ==> ok && CellsOf(m) == old(CellsOf(m))
    ensures i > j && Abs(old(m[i, j]) - 0.0) > PRECISION && ok ==>
              var src := if j == 0 then 0 else i - 1;
              old(m[src, j]) != 0.0 &&
              CellsOf(m) == AddScaled(old(CellsOf(m)), i, src, (old(m[i, j]) / old(m[src, j])) * -1.0, j)
    ensures !ok ==> CellsOf(m) == old(CellsOf(m))
    ensures ElimFrom(old(CellsOf(m)), i, j) == if ok then ElimFrom(CellsOf(m), i, j + 1) else Failed(ZeroDivisor)
  {
    ghost var g := CellsOf(m);
    ok := true;
    if i > j {
      if Abs(m[i, j] - 0.0) > PRECISION {
        var src := if j == 0 then 0 else i - 1;
        if m[src, j] == 0.0 {
          return false;
        }
        var coef := (m[i, j] / m[src, j]) * -1.0;
        assert coef == (g[i][j] / g[src][j]) * -1.0;
        AddScaledRow(m, i, src, coef, j);
      }
    }
  }

  /**
   * Forward elimination in place, cell by cell in row-major order through
   * EliminateCell. `ok` is false when a divisor is zero.
   */
  method Eliminate(a: Matrix) returns (ok: bool)
    requires a.Valid() && a.matrix != null && a.rows == a.columns
    modifies a.matrix
    ensures ElimFrom(old(a.Cells()), 0, 0) == if ok then Done(a.Cells()) else Failed(ZeroDivisor)
  {
    var m := a.matrix;
    ghost var g := CellsOf(m);
    var i := 0;
    while i < a.rows
      modifies m
      invariant 0 <= i <= a.rows
      invariant ElimFrom(CellsOf(m), i, 0) == ElimFrom(g, 0, 0)
    {
      var j := 0;
      while j < a.columns
        modifies m
        invariant 0 <= j <= a.columns
        invariant ElimFrom(CellsOf(m), i, j) == ElimFrom(g, 0, 0)
      {
        ok := EliminateCell(m, i, j);
        if !ok {
          return;
        }
        j := j + 1;
      }
      i := i + 1;
    }
    ok := true;
  }

  /** The product of the diagonal cells, multiplied onto 1 while scanning every cell. */
  method DiagonalProduct(a: Matrix) returns (p: real)
    requires a.Valid() && a.matrix != null && a.rows == a.columns
    ensures p == DiagProduct(a.Cells(), a.rows)
  {
    var m := a.matrix;
    ghost var g := a.Cells();
    p := 1.0;
    var x := 0;
    while x < a.rows
      invariant 0 <= x <= a.rows
      invariant p == DiagProduct(g, x)
    {
      var y := 0;
      while y < a.columns
        invariant 0 <= y <= a.columns
        invariant p == DiagProduct(g, if x < y then x + 1 else x)
      {
        if x == y {
          p := p * m[x, y];
        }
        y := y + 1;
      }
      x := x + 1;
    }
  }

  /**
   * `while (zero count != 0) swap pass`: repeats swapping passes until no
   * diagonal cell is zero, allowed at most `fuel` passes; reports the fault of
   * a pass that runs off the last row, or the exhausted budget.
   */
  method SwapUntilFull(a: Matrix, fuel: nat) returns (swapCnt: nat, fault: Option<Fault>)
    requires a.Valid() && a.matrix != null && a.rows == a.columns
    modifies a.matrix
    ensures SwapUntil(old(a.Cells()), 0, fuel) ==
            if fault.None? then Done(Swapped(a.Cells(), swapCnt)) else Failed(fault.value)
  {
    var m := a.matrix;
    ghost var g := CellsOf(m);
    swapCnt, fault := 0, None;
    var left := fuel;
    var zeros := ZeroCnt(a);
    ghost var cur, target := g, SwapUntil(g, 0, fuel);
    while zeros != 0
      modifies m
      invariant cur == CellsOf(m)
      invariant zeros == DiagZeros(cur, a.rows)
      invariant SwapUntil(cur, swapCnt, left) == target
      decreases left
    {
      SwapUntilStops(cur, swapCnt, left);
      if left == 0 {
        fault := Some(FuelExhausted);
        return;
      }
      var count, inRange := SwapMatrix(a, swapCnt);
      if !inRange {
        fault := Some(RowOutOfRange);
        return;
      }
      ghost var after := CellsOf(m);
      var rest := left - 1;
      SwapUntilStep(cur, swapCnt, left, after, count, rest);
      swapCnt, left, cur := count, rest, after;
      zeros := ZeroCnt(a);
    }
  }

  /**
   * The determinant, computed in place on A's storage. ERR (with the output
   * left at `prior`) for an invalid or non-square matrix. Otherwise OK, and
   * the value is that of Det, or the fault Det reports; for three rows or
   * more without a zero line, with at most `fuel` swapping passes. A is left
   * as it was for up to two rows or a zero line, and otherwise, when no fault
   * is reported, swapped and then eliminated.
   */
  method Determinant(a: Matrix?, prior: real, fuel: nat) returns (code: int, det: real, fault: Option<Fault>)
    requires a != null ==> a.Valid()
    modifies if a != null && a.matrix != null then {a.matrix} else {}
    ensures CheckMatrix(a) != OK ==> code == ERR && det == prior && fault == None
    ensures CheckMatrix(a) == OK && a.rows != a.columns ==> code == ERR && det == prior && fault == None && unchanged(a.matrix)
    ensures CheckMatrix(a) == OK && a.rows == a.columns ==>
              code == OK && Det(old(a.Cells()), fuel) == if fault.None? then Done(det) else Failed(fault.value)
    ensures CheckMatrix(a) == OK && a.rows == a.columns && (a.rows <= 2 || HasZeroLine(old(a.Cells()))) ==> unchanged(a.matrix)
    ensures CheckMatrix(a) == OK && a.rows == a.columns && 3 <= a.rows && !HasZeroLine(old(a.Cells())) && fault.None? ==>
              SwapUntil(old(a.Cells()), 0, fuel).Done? &&
              ElimFrom(SwapUntil(old(a.Cells()), 0, fuel).value.grid, 0, 0) == Done(a.Cells())
  {
    code, det, fault := CheckMatrix(a), prior, None;
    if code == OK {
      if a.columns == a.rows {
        var m := a.matrix;
        ghost var g0 := a.Cells();
        if a.rows == 1 {
          det := m[0, 0];
          assert Det(g0, fuel) == Done(det);
        } else if a.rows == 2 {
          det := m[0, 0] * m[1, 1] - m[0, 1] * m[1, 0];
          DetClosedForms(g0, fuel);
          assert Det(g0, fuel).value == g0[0][0] * g0[1][1] - g0[0][1] * g0[1][0];
          assert det == g0[0][0] * g0[1][1] - g0[0][1] * g0[1][0];
        } else {
          var zeroLine := ZeroDetCheck(a);
          if zeroLine == 1 {
            det := 0.0;
            assert Det(g0, fuel) == Done(det);
          } else {
            ghost var g := a.Cells();
            var swapCnt, swapFault := SwapUntilFull(a, fuel);
            if swapFault.Some? {
              fault := swapFault;
              assert Det(g, fuel) == Failed(fault.value);
              return;
            }
            ghost var s := a.Cells();
            var ok := Eliminate(a);
            if !ok {
              fault := Some(ZeroDivisor);
              assert SwapUntil(g, 0, fuel) == Done(Swapped(s, swapCnt)) && ElimFrom(s, 0, 0) == Failed(ZeroDivisor);
              assert Det(g, fuel) == Failed(fault.value);
              return;
            }
            ghost var k := a.Cells();
            assert SwapUntil(g, 0, fuel) == Done(Swapped(s, swapCnt)) && ElimFrom(s, 0, 0) == Done(k);
            det := DiagonalProduct(a);
            if swapCnt % 2 != 0 {
              det := det * -1.0;
            }
            assert Det(g, fuel) == Done(det);
          }
        }
      } else {
        code := ERR;
      }
    }
  }
}
