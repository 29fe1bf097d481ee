/**
 * The determinant algorithm of the library as functions on exact values: the
 * zero-line short-circuit, the row-swapping pass repeated while a diagonal
 * cell is zero, the forward elimination, the product of the diagonal with its
 * sign flip, and the cofactor matrix built from minors. Where the original
 * program has no defined real-valued outcome (it reads a row past the end,
 * divides by zero, or may keep swapping forever) the functions return a
 * `Fault` instead.
 */
module GridDet {
  import opened Constants
  import opened Grids

  /** Why a step of the algorithm has no real-valued outcome. */
  datatype Fault =
    | RowOutOfRange   // the row search found no fully nonzero row and the swap reads the row one past the last
    | ZeroDivisor     // an elimination coefficient divides by a zero cell
    | FuelExhausted   // the swapping loop was still running when the pass budget ran out

  datatype Outcome<T> = Done(value: T) | Failed(fault: Fault)

  datatype Option<T> = None | Some(value: T)

  /** A grid after swapping, and the running swap counter. */
  datatype Swapped = Swapped(grid: Grid, count: nat)

  predicate ZeroRow(g: Grid, i: nat)
    requires i < |g|
  {
    forall j :: 0 <= j < |g[i]| ==> g[i][j] == 0.0
  }

  predicate ZeroCol(g: Grid, k: nat)
    requires Square(g) && k < |g|
  {
    forall i :: 0 <= i < |g| ==> g[i][k] == 0.0
  }

  /** Some index i has row i entirely zero or column i entirely zero. */
  predicate HasZeroLine(g: Grid)
    requires Square(g)
  {
    exists i :: 0 <= i < |g| && (ZeroRow(g, i) || ZeroCol(g, i))
  }

  /** Number of zero cells among the first n diagonal cells. */
  function DiagZeros(g: Grid, n: nat): (z: nat)
    requires Square(g) && n <= |g|
    ensures z <= n
  {
    if n == 0 then 0 else DiagZeros(g, n - 1) + (if g[n - 1][n - 1] == 0.0 then 1 else 0)
  }

  /** The count is zero exactly when none of the first n diagonal cells is zero. */
  lemma {:induction false} DiagZerosNone(g: Grid, n: nat)
    requires Square(g) && n <= |g|
    ensures DiagZeros(g, n) == 0 <==> forall i :: 0 <= i < n ==> g[i][i] != 0.0
  {
    if n > 0 {
      DiagZerosNone(g, n - 1);
    }
  }

  /** Row i has no zero cell. */
  predicate FullRow(g: Grid, i: nat)
    requires i < |g|
  {
    forall j :: 0 <= j < |g[i]| ==> g[i][j] != 0.0
  }

  /** The first row at or after k with no zero cell, or |g| when there is none. */
  function FirstFullRowFrom(g: Grid, k: nat): (r: nat)
    ensures r <= |g|
    ensures r < |g| ==> FullRow(g, r)
    decreases |g| - k
  {
    if k >= |g| then |g| else if FullRow(g, k) then k else FirstFullRowFrom(g, k + 1)
  }

  /** The first row with no zero cell, or |g| (one past the last row) when every row holds a zero. */
  function FirstFullRow(g: Grid): (r: nat)
    ensures r <= |g|
    ensures r < |g| ==> FullRow(g, r)
  {
    FirstFullRowFrom(g, 0)
  }

  /** The search result is characterised by: no earlier row is full, and it is full unless it is |g|. */
  lemma {:induction false} FirstFullRowFromIs(g: Grid, k: nat, r: nat)
    requires k <= r <= |g|
    requires forall i :: k <= i < r ==> !FullRow(g, i)
    requires r < |g| ==> FullRow(g, r)
    ensures FirstFullRowFrom(g, k) == r
    decreases r - k
  {
    if k < r {
      FirstFullRowFromIs(g, k + 1, r);
    }
  }

  lemma FirstFullRowIs(g: Grid, r: nat)
    requires r <= |g|
    requires forall i :: 0 <= i < r ==> !FullRow(g, i)
    requires r < |g| ==> FullRow(g, r)
    ensures FirstFullRow(g) == r
  {
    FirstFullRowFromIs(g, 0, r);
  }

  /** The search finds a full row if there is one, and no row before it is full. */
  lemma {:induction false} FirstFullRowFromSpec(g: Grid, k: nat)
    requires k <= |g|
    ensures k <= FirstFullRowFrom(g, k) <= |g|
    ensures FirstFullRowFrom(g, k) < |g| ==> FullRow(g, FirstFullRowFrom(g, k))
    ensures forall i :: k <= i < FirstFullRowFrom(g, k) ==> !FullRow(g, i)
    ensures FirstFullRowFrom(g, k) == |g| ==> forall i :: k <= i < |g| ==> !FullRow(g, i)
    decreases |g| - k
  {
    if k < |g| && !FullRow(g, k) {
      FirstFullRowFromSpec(g, k + 1);
    }
  }

  lemma FirstFullRowSpec(g: Grid)
    ensures FirstFullRow(g) <= |g|
    ensures FirstFullRow(g) < |g| ==> FullRow(g, FirstFullRow(g))
    ensures forall i :: 0 <= i < FirstFullRow(g) ==> !FullRow(g, i)
  {
    FirstFullRowFromSpec(g, 0);
  }

  /** Rows i and r exchanged. */
  function SwapRows(g: Grid, i: nat, r: nat): (h: Grid)
    requires Square(g) && i < |g| && r < |g|
    ensures Square(h) && |h| == |g|
  {
    g[i := g[r]][r := g[i]]
  }

  lemma SwapRowsPermutes(g: Grid, i: nat, r: nat)
    requires Square(g) && i < |g| && r < |g|
    ensures multiset(SwapRows(g, i, r)) == multiset(g)
  {
    if i != r {
      var h := g[i := g[r]];
      assert multiset(h) == multiset(g) - multiset{g[i]} + multiset{g[r]};
      assert multiset(h[r := g[i]]) == multiset(h) - multiset{h[r]} + multiset{g[i]};
    }
  }

  /**
   * One pass of the swapping step from row i on: each row whose diagonal cell
   * is zero is exchanged with the first fully nonzero row, counting one swap;
   * when there is no such row the pass reads past the last row.
   */
  function SwapPassFrom(g: Grid, i: nat, count: nat): (o: Outcome<Swapped>)
    requires Square(g) && i <= |g|
    ensures o.Done? ==> Square(o.value.grid) && |o.value.grid| == |g|
    ensures o.Done? ==> count <= o.value.count <= count + (|g| - i)
    ensures o.Failed? ==> o.fault == RowOutOfRange
    decreases |g| - i
  {
    if i == |g| then Done(Swapped(g, count))
    else if g[i][i] != 0.0 then SwapPassFrom(g, i + 1, count)
    else
      var r := FirstFullRow(g);
      if r >= |g| then Failed(RowOutOfRange)
      else SwapPassFrom(SwapRows(g, i, r), i + 1, count + 1)
  }

  /**
   * A completed pass only reorders the rows.
   */
  lemma {:induction false} SwapPassPermutes(g: Grid, i: nat, count: nat)
    requires Square(g) && i <= |g|
    requires SwapPassFrom(g, i, count).Done?
    ensures multiset(SwapPassFrom(g, i, count).value.grid) == multiset(g)
    decreases |g| - i
  {
    if i < |g| {
      if g[i][i] != 0.0 {
        SwapPassPermutes(g, i + 1, count);
      } else {
        var r := FirstFullRow(g);
        SwapRowsPermutes(g, i, r);
        SwapPassPermutes(SwapRows(g, i, r), i + 1, count + 1);
      }
    }
  }

  /** A pass over a grid with no zero on its diagonal swaps nothing and changes nothing. */
  lemma {:induction false} SwapPassIdle(g: Grid, i: nat, count: nat)
    requires Square(g) && i <= |g|
    requires forall k :: i <= k < |g| ==> g[k][k] != 0.0
    ensures SwapPassFrom(g, i, count) == Done(Swapped(g, count))
    decreases |g| - i
  {
    if i < |g| {
      SwapPassIdle(g, i + 1, count);
    }
  }

  /**
   * The loop `while (zero count != 0) swap pass`, allowed at most `fuel`
   * passes. When it ends, no diagonal cell is zero and the counter has not
   * gone down; it fails only by a pass running off the last row or by the
   * budget running out.
   */
  function SwapUntil(g: Grid, count: nat, fuel: nat): (o: Outcome<Swapped>)
    requires Square(g)
    ensures o.Done? ==> Square(o.value.grid) && |o.value.grid| == |g|
    ensures o.Done? ==> DiagZeros(o.value.grid, |g|) == 0 && count <= o.value.count
    ensures o.Failed? ==> o.fault == RowOutOfRange || o.fault == FuelExhausted
    decreases fuel
  {
    if DiagZeros(g, |g|) == 0 then Done(Swapped(g, count))
    else if fuel == 0 then Failed(FuelExhausted)
    else
      match SwapPassFrom(g, 0, count)
      case Failed(f) => Failed(f)
      case Done(s) => SwapUntil(s.grid, s.count, fuel - 1)
  }

  /** A completed swapping loop leaves a reordering of the rows. */
  lemma {:induction false} SwapUntilSound(g: Grid, count: nat, fuel: nat)
    requires Square(g)
    requires SwapUntil(g, count, fuel).Done?
    ensures multiset(SwapUntil(g, count, fuel).value.grid) == multiset(g)
    decreases fuel
  {
    if DiagZeros(g, |g|) != 0 {
      var s := SwapPassFrom(g, 0, count).value;
      SwapPassPermutes(g, 0, count);
      SwapUntilSound(s.grid, s.count, fuel - 1);
    }
  }

  /** While a diagonal cell is zero, the swapping loop runs one more pass if the budget allows it. */
  lemma SwapUntilStep(g: Grid, count: nat, fuel: nat, h: Grid, next: nat, rest: nat)
    requires Square(g) && DiagZeros(g, |g|) != 0 && fuel == rest + 1
    requires SwapPassFrom(g, 0, count) == Done(Swapped(h, next))
    ensures Square(h) && SwapUntil(h, next, rest) == SwapUntil(g, count, fuel)
  {
  }

  /** A pass that runs off the last row makes the whole loop fail, and an exhausted budget does too. */
  lemma SwapUntilStops(g: Grid, count: nat, fuel: nat)
    requires Square(g) && DiagZeros(g, |g|) != 0
    ensures fuel == 0 ==> SwapUntil(g, count, fuel) == Failed(FuelExhausted)
    ensures fuel > 0 && SwapPassFrom(g, 0, count) == Failed(RowOutOfRange) ==> SwapUntil(g, count, fuel) == Failed(RowOutOfRange)
  {
  }

  /** Row i with, from column `from` on, `coef` times row src added to it. */
  function AddScaled(g: Grid, i: nat, src: nat, coef: real, from: nat): (h: Grid)
    requires Square(g) && i < |g| && src < |g|
    ensures Square(h) && |h| == |g|
    ensures forall k :: 0 <= k < |g| && k != i ==> h[k] == g[k]
  {
    g[i := seq(|g|, e requires 0 <= e < |g| => if e < from then g[i][e] else g[i][e] + g[src][e] * coef)]
  }

  /**
   * Forward elimination, visiting the cells (i, j) in row-major order from
   * (i, j) on. A cell below the diagonal that is farther than PRECISION from 0
   * is eliminated against row 0 (in column 0) or against the row just above it
   * (in a later column), from column j on.
   */
  function ElimFrom(g: Grid, i: nat, j: nat): (o: Outcome<Grid>)
    requires Square(g) && j <= |g|
    ensures o.Done? ==> Square(o.value) && |o.value| == |g|
    ensures o.Done? && 0 < |g| ==> o.value[0] == g[0]
    decreases |g| - i, |g| - j
  {
    if i >= |g| then Done(g)
    else if j == |g| then ElimFrom(g, i + 1, 0)
    else if i > j && Abs(g[i][j] - 0.0) > PRECISION then
      var src := if j == 0 then 0 else i - 1;
      if g[src][j] == 0.0 then Failed(ZeroDivisor)
      else ElimFrom(AddScaled(g, i, src, (g[i][j] / g[src][j]) * -1.0, j), i, j + 1)
    else ElimFrom(g, i, j + 1)
  }

  /** Product of the first n diagonal cells, multiplied onto 1 in increasing order. */
  function DiagProduct(g: Grid, n: nat): (p: real)
    requires Square(g) && n <= |g|
    ensures p == 0.0 <==> exists i :: 0 <= i < n && g[i][i] == 0.0
  {
    if n == 0 then 1.0 else DiagProduct(g, n - 1) * g[n - 1][n - 1]
  }

  /**
   * The determinant as the library computes it, with at most `fuel` swap
   * passes. It has no value only from three rows on and without a zero line.
   */
  function Det(g: Grid, fuel: nat): (o: Outcome<real>)
    requires Square(g) && 1 <= |g|
    ensures o.Failed? ==> 3 <= |g| && !HasZeroLine(g)
  {
    if |g| == 1 then Done(g[0][0])
    else if |g| == 2 then Done(g[0][0] * g[1][1] - g[0][1] * g[1][0])
    else if HasZeroLine(g) then Done(0.0)
    else
      match SwapUntil(g, 0, fuel)
      case Failed(f) => Failed(f)
      case Done(s) =>
        match ElimFrom(s.grid, 0, 0)
        case Failed(f) => Failed(f)
        case Done(k) =>
          var p := DiagProduct(k, |k|);
          Done(if s.count % 2 != 0 then p * -1.0 else p)
  }

  /** The closed forms: the single cell of a 1x1 matrix, ad - bc of a 2x2 matrix. */
  lemma DetClosedForms(g: Grid, fuel: nat)
    requires Square(g) && 1 <= |g| <= 2
    ensures |g| == 1 ==> Det(g, fuel) == Done(g[0][0])
    ensures |g| == 2 ==> Det(g, fuel) == Done(g[0][0] * g[1][1] - g[0][1] * g[1][0])
  {
  }

  /** A matrix with an all-zero row or an all-zero column has determinant exactly 0, at every size. */
  lemma DetOfZeroLine(g: Grid, fuel: nat)
    requires Square(g) && 1 <= |g|
    requires HasZeroLine(g)
    ensures Det(g, fuel) == Done(0.0)
  {
    var i :| 0 <= i < |g| && (ZeroRow(g, i) || ZeroCol(g, i));
    if |g| == 1 {
      assert g[0][0] == 0.0;
      DetClosedForms(g, fuel);
    } else if |g| == 2 {
      if ZeroRow(g, i) {
        assert g[i][0] == 0.0 && g[i][1] == 0.0;
      } else {
        assert g[0][i] == 0.0 && g[1][i] == 0.0;
      }
      var v := g[0][0] * g[1][1] - g[0][1] * g[1][0];
      assert v == 0.0;
      DetClosedForms(g, fuel);
      assert Det(g, fuel) == Done(v);
    }
  }

  /**
   * For three rows or more and no zero line, a defined determinant is the
   * product of the reduced diagonal, negated when the number of swaps is odd;
   * the grid that is reduced is a reordering of the rows of g with no zero on
   * its diagonal, and elimination leaves its first row as it is.
   */
  lemma DetSignFlip(g: Grid, fuel: nat)
    requires Square(g) && 3 <= |g| && !HasZeroLine(g)
    requires Det(g, fuel).Done?
    ensures exists s: Swapped, k: Grid ::
              SwapUntil(g, 0, fuel) == Done(s) && ElimFrom(s.grid, 0, 0) == Done(k) &&
              multiset(s.grid) == multiset(g) &&
              (forall i :: 0 <= i < |g| ==> s.grid[i][i] != 0.0) &&
              k[0] == s.grid[0] &&
              Det(g, fuel).value == (if s.count % 2 == 1 then -DiagProduct(k, |g|) else DiagProduct(k, |g|))
  {
    var s := SwapUntil(g, 0, fuel).value;
    var k := ElimFrom(s.grid, 0, 0).value;
    SwapUntilSound(g, 0, fuel);
    DiagZerosNone(s.grid, |g|);
    assert DiagProduct(k, |g|) * -1.0 == -DiagProduct(k, |g|);
  }

  /**
   * The cofactor matrix as the library computes it: a copy of the single cell
   * for 1x1; for 2x2 the single cell of each minor times (-1)^(i+j); from 3x3
   * on the determinant of each minor times (-1)^(i+j), defined only when
   * every one of those determinants is.
   */
  function Cofactors(g: Grid, fuel: nat): (c: Option<Grid>)
    requires Square(g) && 1 <= |g|
    ensures c.Some? ==> IsMatrix(c.value, |g|, |g|)
  {
    var n := |g|;
    if n == 1 then Some(g)
    else if n == 2 then Some(seq(2, i requires 0 <= i < 2 => seq(2, j requires 0 <= j < 2 => Minor(g, i, j)[0][0] * Sign(i + j))))
    else if forall i, j :: 0 <= i < n && 0 <= j < n ==> Det(Minor(g, i, j), fuel).Done? then
      Some(seq(n, i requires 0 <= i < n => seq(n, j requires 0 <= j < n => Det(Minor(g, i, j), fuel).value * Sign(i + j))))
    else None
  }

  /** For 2x2 the cofactor at (i, j) is (-1)^(i+j) times the cell diagonally opposite. */
  lemma CofactorsOfTwo(g: Grid, fuel: nat)
    requires Square(g) && |g| == 2
    ensures Cofactors(g, fuel).Some?
    ensures forall i, j :: 0 <= i < 2 && 0 <= j < 2 ==>
              Cofactors(g, fuel).value[i][j] == Sign(i + j) * g[1 - i][1 - j]
  {
    forall i, j | 0 <= i < 2 && 0 <= j < 2
      ensures Cofactors(g, fuel).value[i][j] == Sign(i + j) * g[1 - i][1 - j]
    {
      MinorAt(g, i, j);
      assert Minor(g, i, j)[0][0] == g[Skip(0, i)][Skip(0, j)];
    }
  }

  /** For 3x3 every minor is 2x2, so every cofactor is defined: (-1)^(i+j) times ad - bc of the minor. */
  lemma CofactorsOfThree(g: Grid, fuel: nat)
    requires Square(g) && |g| == 3
    ensures Cofactors(g, fuel).Some?
    ensures forall i, j :: 0 <= i < 3 && 0 <= j < 3 ==>
              var m := Minor(g, i, j);
              Cofactors(g, fuel).value[i][j] == (m[0][0] * m[1][1] - m[0][1] * m[1][0]) * Sign(i + j)
  {
  }

  /**
   * A matrix with no zero line on which the row search runs off the end: every
   * row holds a zero, so the swap for the zero at (0, 0) reads the row one
   * past the last; the determinant has no real-valued outcome however large
   * the pass budget.
   */
  lemma RowSearchRunsOff(fuel: nat)
    requires fuel >= 1
    ensures Det([[0.0, 1.0, 1.0], [1.0, 0.0, 1.0], [1.0, 1.0, 0.0]], fuel) == Failed(RowOutOfRange)
  {
    var g := [[0.0, 1.0, 1.0], [1.0, 0.0, 1.0], [1.0, 1.0, 0.0]];
    assert !HasZeroLine(g) by {
      forall i | 0 <= i < 3
        ensures !ZeroRow(g, i) && !ZeroCol(g, i)
      {
        var k := if i == 0 then 1 else 0;
        assert g[i][k] != 0.0 && g[k][i] != 0.0;
      }
    }
    assert DiagZeros(g, 3) == 3;
    assert !FullRow(g, 0) && !FullRow(g, 1) && !FullRow(g, 2) by {
      assert g[0][0] == 0.0 && g[1][1] == 0.0 && g[2][2] == 0.0;
    }
    FirstFullRowIs(g, 3);
    assert SwapPassFrom(g, 0, 0) == Failed(RowOutOfRange);
  }

  /**
   * A matrix with no zero line, and determinant -1, on which the swapping
   * loop never ends: the zero at (0, 0) swaps rows 0 and 2, the zero now at
   * (2, 2) swaps them back, so each pass returns the same grid with the
   * counter up by 2.
   */
  lemma SwapPassCycles(count: nat)
    ensures SwapPassFrom([[0.0, 1.0, 0.0], [1.0, 1.0, 0.0], [1.0, 1.0, 1.0]], 0, count) ==
            Done(Swapped([[0.0, 1.0, 0.0], [1.0, 1.0, 0.0], [1.0, 1.0, 1.0]], count + 2))
  {
    var g := [[0.0, 1.0, 0.0], [1.0, 1.0, 0.0], [1.0, 1.0, 1.0]];
    assert !FullRow(g, 0) && !FullRow(g, 1) by {
      assert g[0][0] == 0.0 && g[1][2] == 0.0;
    }
    FirstFullRowIs(g, 2);
    var h := SwapRows(g, 0, 2);
    assert h == [[1.0, 1.0, 1.0], [1.0, 1.0, 0.0], [0.0, 1.0, 0.0]];
    FirstFullRowIs(h, 0);
    assert SwapRows(h, 2, 0) == g;
    assert SwapPassFrom(h, 1, count + 1) == SwapPassFrom(g, 3, count + 2);
  }

  /** On that matrix the loop is still running however many passes it is allowed. */
  lemma {:induction false} SwapLoopNeverEnds(count: nat, fuel: nat)
    ensures SwapUntil([[0.0, 1.0, 0.0], [1.0, 1.0, 0.0], [1.0, 1.0, 1.0]], count, fuel) == Failed(FuelExhausted)
    decreases fuel
  {
    var g := [[0.0, 1.0, 0.0], [1.0, 1.0, 0.0], [1.0, 1.0, 1.0]];
    assert DiagZeros(g, 3) == 1;
    if fuel > 0 {
      SwapPassCycles(count);
      SwapLoopNeverEnds(count + 2, fuel - 1);
    }
  }

  /** So its determinant has no value for any budget, although the matrix has no zero line. */
  lemma DetNeverEnds(fuel: nat)
    ensures !HasZeroLine([[0.0, 1.0, 0.0], [1.0, 1.0, 0.0], [1.0, 1.0, 1.0]])
    ensures Det([[0.0, 1.0, 0.0], [1.0, 1.0, 0.0], [1.0, 1.0, 1.0]], fuel) == Failed(FuelExhausted)
  {
    var g := [[0.0, 1.0, 0.0], [1.0, 1.0, 0.0], [1.0, 1.0, 1.0]];
    assert !HasZeroLine(g) by {
      forall i | 0 <= i < 3
        ensures !ZeroRow(g, i) && !ZeroCol(g, i)
      {
        assert g[i][1] != 0.0 && g[2][i] != 0.0;
      }
    }
    SwapLoopNeverEnds(0, fuel);
  }

  /** AddScaled replaces row i by the given row, when that row holds the scaled sum cell by cell. */
  lemma AddScaledIs(g: Grid, i: nat, src: nat, coef: real, from: nat, row: seq<real>)
    requires Square(g) && i < |g| && src < |g| && |row| == |g|
    requires forall e :: 0 <= e < |g| ==> row[e] == if e < from then g[i][e] else g[i][e] + g[src][e] * coef
    ensures AddScaled(g, i, src, coef, from) == g[i := row]
  {
    var h := AddScaled(g, i, src, coef, from);
    assert |h[i]| == |row|;
    forall e | 0 <= e < |g|
      ensures h[i][e] == row[e]
    {
    }
    assert h[i] == row;
    assert forall k :: 0 <= k < |g| && k != i ==> h[k] == g[k];
  }

  /**
   * A matrix with no zero line and no zero diagonal cell (the 4x4 Pascal
   * matrix, determinant 1) on which the elimination divides by zero: row 2
   * loses its cell in column 1 against row 1, and row 3 is then eliminated
   * in column 1 against that zero. The determinant then has no value for
   * any budget.
   */
  lemma ElimDividesByZero(fuel: nat)
    ensures !HasZeroLine([[1.0, 1.0, 1.0, 1.0], [1.0, 2.0, 3.0, 4.0], [1.0, 3.0, 6.0, 10.0], [1.0, 4.0, 10.0, 20.0]])
    ensures Det([[1.0, 1.0, 1.0, 1.0], [1.0, 2.0, 3.0, 4.0], [1.0, 3.0, 6.0, 10.0], [1.0, 4.0, 10.0, 20.0]], fuel) == Failed(ZeroDivisor)
    ensures DiagZeros([[1.0, 1.0, 1.0, 1.0], [1.0, 2.0, 3.0, 4.0], [1.0, 3.0, 6.0, 10.0], [1.0, 4.0, 10.0, 20.0]], 4) == 0
    ensures ElimFrom([[1.0, 1.0, 1.0, 1.0], [1.0, 2.0, 3.0, 4.0], [1.0, 3.0, 6.0, 10.0], [1.0, 4.0, 10.0, 20.0]], 0, 0) == Failed(ZeroDivisor)
  {
    var g0 := [[1.0, 1.0, 1.0, 1.0], [1.0, 2.0, 3.0, 4.0], [1.0, 3.0, 6.0, 10.0], [1.0, 4.0, 10.0, 20.0]];
    assert ElimFrom(g0, 0, 0) == ElimFrom(g0, 1, 0) by {
      assert ElimFrom(g0, 0, 2) == ElimFrom(g0, 0, 4) == ElimFrom(g0, 1, 0);
    }
    var g1 := g0[1 := [0.0, 1.0, 2.0, 3.0]];
    AddScaledIs(g0, 1, 0, -1.0, 0, g1[1]);
    assert ElimFrom(g0, 1, 0) == ElimFrom(g1, 1, 1);
    assert ElimFrom(g1, 1, 1) == ElimFrom(g1, 2, 0) by {
      assert ElimFrom(g1, 1, 3) == ElimFrom(g1, 1, 4) == ElimFrom(g1, 2, 0);
    }
    var g2 := g1[2 := [0.0, 2.0, 5.0, 9.0]];
    AddScaledIs(g1, 2, 0, -1.0, 0, g2[2]);
    assert ElimFrom(g1, 2, 0) == ElimFrom(g2, 2, 1);
    var g3 := g2[2 := [0.0, 0.0, 1.0, 3.0]];
    AddScaledIs(g2, 2, 1, -2.0, 1, g3[2]);
    assert ElimFrom(g2, 2, 1) == ElimFrom(g3, 2, 2);
    assert ElimFrom(g3, 2, 2) == ElimFrom(g3, 3, 0) by {
      assert ElimFrom(g3, 2, 3) == ElimFrom(g3, 2, 4) == ElimFrom(g3, 3, 0);
    }
    var g4 := g3[3 := [0.0, 3.0, 9.0, 19.0]];
    AddScaledIs(g3, 3, 0, -1.0, 0, g4[3]);
    assert ElimFrom(g3, 3, 0) == ElimFrom(g4, 3, 1);
    assert g4[2][1] == 0.0 && Abs(g4[3][1] - 0.0) > PRECISION;
    assert !HasZeroLine(g0) by {
      forall i | 0 <= i < 4
        ensures !ZeroRow(g0, i) && !ZeroCol(g0, i)
      {
        assert g0[i][0] != 0.0 && g0[0][i] != 0.0;
      }
    }
    assert DiagZeros(g0, 4) == 0;
  }

  /**
   * The smallest size reached by elimination already has such inputs: on
   * [[1,2,3],[2,4,7],[1,1,1]] (determinant 1, no zero line, no zero diagonal
   * cell) eliminating row 1 in column 0 zeroes its diagonal cell, which row 2
   * then divides by in column 1.
   */
  lemma ThreeByThreeZeroDivisor(fuel: nat)
    ensures !HasZeroLine([[1.0, 2.0, 3.0], [2.0, 4.0, 7.0], [1.0, 1.0, 1.0]])
    ensures DiagZeros([[1.0, 2.0, 3.0], [2.0, 4.0, 7.0], [1.0, 1.0, 1.0]], 3) == 0
    ensures ElimFrom([[1.0, 2.0, 3.0], [2.0, 4.0, 7.0], [1.0, 1.0, 1.0]], 0, 0) == Failed(ZeroDivisor)
    ensures Det([[1.0, 2.0, 3.0], [2.0, 4.0, 7.0], [1.0, 1.0, 1.0]], fuel) == Failed(ZeroDivisor)
  {
    var g0 := [[1.0, 2.0, 3.0], [2.0, 4.0, 7.0], [1.0, 1.0, 1.0]];
    assert ElimFrom(g0, 0, 0) == ElimFrom(g0, 1, 0) by {
      assert ElimFrom(g0, 0, 2) == ElimFrom(g0, 0, 3) == ElimFrom(g0, 1, 0);
    }
    var g1 := g0[1 := [0.0, 0.0, 1.0]];
    AddScaledIs(g0, 1, 0, -2.0, 0, g1[1]);
    assert ElimFrom(g0, 1, 0) == ElimFrom(g1, 1, 1);
    assert ElimFrom(g1, 1, 1) == ElimFrom(g1, 2, 0) by {
      assert ElimFrom(g1, 1, 2) == ElimFrom(g1, 1, 3) == ElimFrom(g1, 2, 0);
    }
    var g2 := g1[2 := [0.0, -1.0, -2.0]];
    AddScaledIs(g1, 2, 0, -1.0, 0, g2[2]);
    assert ElimFrom(g1, 2, 0) == ElimFrom(g2, 2, 1);
    assert g2[1][1] == 0.0 && Abs(g2[2][1] - 0.0) > PRECISION;
    assert !HasZeroLine(g0) by {
      forall i | 0 <= i < 3
        ensures !ZeroRow(g0, i) && !ZeroCol(g0, i)
      {
        assert g0[i][0] != 0.0 && g0[0][i] != 0.0;
      }
    }
    assert DiagZeros(g0, 3) == 0;
  }
}
