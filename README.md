# Dense matrices in Dafny

This project models the dense-matrix library `src/s21_matrix.c` in Dafny. The library has a matrix record holding a storage pointer, `rows` and `columns`, and the operations on it:
- creation and release;
- the validity guard and equality within the tolerance `PRECISION` (1e-7);
- sum, difference, scaling by a number, product and transpose;
- minor extraction;
- the determinant by row swapping and forward elimination;
- the cofactor ("complements") matrix and the inverse.

The record is the class `Matrices.Matrix`:
- fields `matrix: array2?<real>`, `rows` and `columns`;
- a null `matrix` is the library's NULL storage pointer.

Every operation except the validity guard `CheckMatrix` (a function) is a method that works on that storage in place and keeps the C code's loops, cursors and counters. Each method's postcondition ties the new cells (`Cells()`), except after a reported fault, to a pure function on `seq<seq<real>>` values:
- `Grids`: shape, sum, difference, scale, transpose, product, minor;
- `GridDet`: the swapping pass, elimination, the determinant and the cofactors;
- `GridInverse`: the inverse.

Lemmas prove properties of those functions: round trips, order and permutation laws, closed forms, and where each error case arises.

The C code has inputs on which there is no defined real-valued result. The model names each of them with a `Fault` instead of leaving it out:
- **RowOutOfRange.** `s21_find_row_to_swap` returns `rows`, one past the last row, when every row holds a zero. The swap then reads that row. `GridDet.RowSearchRunsOff` shows this happens on `[[0,1,1],[1,0,1],[1,1,0]]`, which has no zero line.
- **ZeroDivisor.** An elimination step divides by a zero cell. This already happens at 3x3, the first size that reaches elimination. `GridDet.ThreeByThreeZeroDivisor` shows it on `[[1,2,3],[2,4,7],[1,1,1]]`: determinant 1, no zero line and no zero diagonal cell. Eliminating row 1 in column 0 turns it into `[0,0,1]`, and row 2 then divides by that zeroed diagonal cell in column 1 (src/s21_matrix.c:286). `GridDet.ElimDividesByZero` shows the same on the 4x4 Pascal matrix `[[1,1,1,1],[1,2,3,4],[1,3,6,10],[1,4,10,20]]`. That matrix has no zero line and no zero diagonal cell, and its determinant is 1. Row 2 loses its column-1 cell against row 1, and row 3 is then eliminated in column 1 against that zero, so C computes 3/0.
- **FuelExhausted.** The loop `while (s21_zero_cnt(A) != 0)` is still running when its budget of `fuel` passes is used up. `GridDet.DetNeverEnds` shows that on `[[0,1,0],[1,1,0],[1,1,1]]` (no zero line, determinant -1) every pass swaps rows 0 and 2 and then back, so the loop never ends for any budget.

The row search always scans from row 0, whatever row the zero diagonal cell is on, and returns `rows` when no row is free of zeros.

Error codes:
- `OK` = 0, `INCORRECT` = 1, `ERR` = 2;
- the equality results are `SUCCESS` = 1 and `FAILURE` = 0 (`Constants`, from `src/s21_matrix.h:4-10`).

## Model

| member | source | states |
|---|---|---|
| Matrices.Matrix.Create | src/s21_matrix.c:3-26 | OK exactly when both dimensions are positive; then fresh rows x columns storage whose cells are all 0. Otherwise INCORRECT with the storage null and the old dimensions kept. |
| Matrices.Matrix.Remove | src/s21_matrix.c:28-39 | The storage becomes null. The dimensions are reset to 0 when there was storage and left alone on an already empty matrix. |
| Matrices.CheckMatrix | src/s21_matrix.c:135-141 | OK exactly for a matrix that exists and has storage (which then has at least one row and one column); ERR otherwise. |
| Matrices.EqMatrix | src/s21_matrix.c:41-55 | SUCCESS exactly when both matrices exist, their dimensions agree, and every pair of corresponding cells is within PRECISION; FAILURE otherwise. |
| Grids.NearReflexive | src/s21_matrix.c:41-55 | Every matrix is equal to itself under the tolerance comparison. |
| Arithmetic.SumMatrix | src/s21_matrix.c:57-75 | INCORRECT for a missing operand and ERR for operands of different shape, both with the result untouched. Otherwise creation's code, and on OK a fresh result of A's shape holding Add(A, B). |
| Arithmetic.FillSum | src/s21_matrix.c:65-68 | After the loops the cells are exactly Add of the operands' cells. |
| Arithmetic.SubMatrix | src/s21_matrix.c:76-94 | As SumMatrix, with Sub(A, B). |
| Arithmetic.FillDifference | src/s21_matrix.c:84-87 | After the loops the cells are exactly Sub of the operands' cells. |
| Grids.SubAfterAdd | src/s21_matrix.c:57-94 | Subtracting B from A + B gives back A, cell for cell. |
| Arithmetic.MultNumber | src/s21_matrix.c:96-110 | INCORRECT with the result untouched for a matrix without storage; otherwise OK and a fresh result of A's shape holding Scale(A, number). |
| Arithmetic.FillScaled | src/s21_matrix.c:101-104 | After the loops the cells are exactly the operand's cells times the number. |
| Arithmetic.MultMatrix | src/s21_matrix.c:112-133 | INCORRECT unless both operands pass the validity guard; ERR when A.columns != B.rows; both with the result untouched. Otherwise OK and a fresh A.rows x B.columns result holding Product(A, B). |
| Arithmetic.FillProduct | src/s21_matrix.c:118-124 | Starting from zero cells, the two outer loops leave exactly Product of the operands. |
| Arithmetic.AccumulateCell | src/s21_matrix.c:120-122 | The innermost loop adds the sum over k of A[i][k] * B[k][j] onto cell (i, j) and changes no other cell. |
| Grids.MulIdentity | src/s21_matrix.c:112-133 | The product by the identity matrix on the right gives back the matrix. |
| Arithmetic.Transpose | src/s21_matrix.c:143-156 | The guard's ERR with the result untouched for an invalid input; otherwise OK and a fresh columns x rows result holding Transposed(A). |
| Arithmetic.FillTransposed | src/s21_matrix.c:148-152 | After the loops, cell (j, i) holds A[i][j], for every cell. |
| Grids.TransposedTwice | src/s21_matrix.c:143-156 | Transposing twice reproduces the matrix. |
| Grids.Minor | src/s21_matrix.c:227-245 | The minor of an n x m matrix is (n-1) x (m-1). |
| Grids.MinorAt | src/s21_matrix.c:227-245 | Minor cell (r, c) is the original cell (r + (r >= I ? 1 : 0), c + (c >= J ? 1 : 0)). |
| Grids.MinorKeepsOrder | src/s21_matrix.c:227-245 | The surviving rows (and columns) stay in range, skip the deleted one, and keep their relative order. |
| Determinants.MinorMatrix | src/s21_matrix.c:227-245 | The write cursors fill the (n-1) x (m-1) destination with exactly Minor(A, I, J). Every write lands inside the destination. |
| Determinants.ZeroDetCheck | src/s21_matrix.c:201-225 | The result is 0 or 1, and it is 1 exactly when some index i has row i or column i entirely zero. |
| Determinants.ZeroCnt | src/s21_matrix.c:247-257 | The count of zero diagonal cells; it is 0 exactly when no diagonal cell is zero. |
| GridDet.DiagZeros | src/s21_matrix.c:247-257 | The count of zero cells among the first n diagonal cells is at most n. |
| GridDet.DiagZerosNone | src/s21_matrix.c:247-257 | The zero-diagonal count is 0 exactly when no diagonal cell is zero. |
| Determinants.FindRowToSwap | src/s21_matrix.c:338-357 | The result lies in 0..rows and is the first row with no zero cell, or rows when every row holds a zero. |
| GridDet.FirstFullRow | src/s21_matrix.c:338-357 | The search result is at most rows, and a row with no zero cell whenever it is below rows. |
| GridDet.FirstFullRowSpec | src/s21_matrix.c:338-357 | The search result is at most rows. It is a fully nonzero row when it is below rows, and no earlier row is fully nonzero. |
| GridDet.FirstFullRowIs | src/s21_matrix.c:338-357 | Any index with no full row before it, which is itself full unless it is rows, is the search result. |
| Determinants.ExchangeRows | src/s21_matrix.c:323-327 | The loop through the buffer leaves the cells equal to SwapRows of the old cells. |
| GridDet.SwapRowsPermutes | src/s21_matrix.c:323-327 | Exchanging two rows keeps the multiset of rows. |
| Determinants.SwapStep | src/s21_matrix.c:320-330 | One row of the pass. With a nonzero diagonal cell nothing changes. With a zero one and a fully nonzero row found, the cells become SwapRows(old, i, FirstFullRow(old)) and the counter goes up by 1. When the search returns rows nothing changes and the step reports it. In every case the rest of the pass ends as SwapPassFrom does from row i. |
| Determinants.SwapMatrix | src/s21_matrix.c:315-336 | The pass leaves exactly SwapPassFrom's grid and counter, or reports RowOutOfRange when a row search found no fully nonzero row. |
| GridDet.SwapPassFrom | src/s21_matrix.c:315-336 | One swapping pass from row i on. A completed pass keeps the shape, and the counter grows by at most one per row visited; the only way a pass fails is RowOutOfRange. |
| GridDet.SwapPassPermutes | src/s21_matrix.c:319-331 | A completed pass keeps the multiset of rows. |
| GridDet.SwapPassIdle | src/s21_matrix.c:319-331 | A pass over a matrix with no zero on its diagonal changes nothing and counts nothing. |
| Determinants.SwapUntilFull | src/s21_matrix.c:273-274 | The swapping loop ends exactly as SwapUntil does: a grid and a swap count, or the fault of a pass or of the exhausted budget. |
| GridDet.SwapUntil | src/s21_matrix.c:273-274 | The swapping loop under a budget of passes. When it ends, no diagonal cell is zero and the counter has not gone down. It fails only with RowOutOfRange or FuelExhausted. |
| GridDet.SwapUntilSound | src/s21_matrix.c:273-274 | A completed swapping loop keeps the multiset of rows. |
| GridDet.SwapUntilStep | src/s21_matrix.c:274 | Helper lemma (one unfolding of SwapUntil): while a diagonal cell is zero and budget remains, the loop's result is that of one more pass followed by the rest of the loop. |
| GridDet.SwapUntilStops | src/s21_matrix.c:274 | Helper lemma (unfolding SwapUntil): an exhausted budget gives FuelExhausted, and a pass that runs off the last row gives RowOutOfRange. |
| Determinants.AddScaledRow | src/s21_matrix.c:280-290 | The loop over elem leaves exactly AddScaled: coef times the source row added to row i from the starting column on. |
| GridDet.AddScaled | src/s21_matrix.c:280-290 | Only row i changes. |
| Determinants.EliminateCell | src/s21_matrix.c:277-292 | One cell of elimination. A cell on or above the diagonal, or within PRECISION of 0, changes nothing. Otherwise, with src row 0 in column 0 and row i-1 in later columns: a zero divisor changes nothing and reports ZeroDivisor, and a nonzero one leaves AddScaled(old, i, src, -(A[i][j] / A[src][j]), j). In every case the rest ends as ElimFrom does from (i, j). |
| Determinants.Eliminate | src/s21_matrix.c:275-294 | The forward elimination ends exactly as ElimFrom(A, 0, 0): the reduced cells, or ZeroDivisor. |
| GridDet.ElimFrom | src/s21_matrix.c:275-294 | The elimination keeps the shape and leaves row 0 as it was. |
| GridDet.DiagProduct | src/s21_matrix.c:295-302 | The product of the first n diagonal cells is 0 exactly when one of them is 0. |
| Determinants.DiagonalProduct | src/s21_matrix.c:295-302 | Multiplying onto 1 while scanning every cell gives the product of the diagonal cells. |
| Determinants.Determinant | src/s21_matrix.c:259-313 | ERR with the output untouched for an invalid or non-square matrix. Otherwise OK with exactly Det of the input, or the fault Det reports. The cells are unchanged for up to two rows and for a zero line. Otherwise, when no fault is reported, A is left swapped by SwapUntil and then eliminated by ElimFrom. |
| GridDet.Det | src/s21_matrix.c:259-313 | The whole determinant algorithm as a value: closed forms up to 2x2, 0 for a zero line, then the swapping loop, the elimination and the signed diagonal product. It has no value only from 3x3 on and without a zero line. |
| GridDet.DetClosedForms | src/s21_matrix.c:264-268 | A 1x1 determinant is the cell; a 2x2 determinant is ad - bc. |
| GridDet.DetOfZeroLine | src/s21_matrix.c:269-271 | A square matrix with an all-zero row or column has determinant exactly 0, at every size. |
| GridDet.DetSignFlip | src/s21_matrix.c:273-305 | From 3x3 on without a zero line, a defined determinant works on a reordering of A's rows with no zero diagonal cell. It is the product of the reduced diagonal, negated exactly when the swap count is odd. |
| GridDet.RowSearchRunsOff | src/s21_matrix.c:321-326 | On [[0,1,1],[1,0,1],[1,1,0]] the row search returns rows, so the determinant has no defined value (RowOutOfRange) for any positive budget. |
| GridDet.AddScaledIs | src/s21_matrix.c:280-290 | Helper lemma: AddScaled replaces row i by a row that holds the scaled sum cell by cell. |
| GridDet.ThreeByThreeZeroDivisor | src/s21_matrix.c:275-294 | [[1,2,3],[2,4,7],[1,1,1]] has no zero line and no zero diagonal cell, yet its elimination ends in ZeroDivisor, so its determinant has no value for any budget. |
| GridDet.ElimDividesByZero | src/s21_matrix.c:275-294 | The 4x4 Pascal matrix has no zero line and no zero diagonal cell, yet its elimination ends in ZeroDivisor, so its determinant has no value for any budget. |
| GridDet.SwapPassCycles | src/s21_matrix.c:315-336 | On [[0,1,0],[1,1,0],[1,1,1]] one pass swaps rows 0 and 2 and then back, returning the same grid with the counter up by 2. |
| GridDet.SwapLoopNeverEnds | src/s21_matrix.c:273-274 | On that matrix the swapping loop is still running (FuelExhausted) for every budget and every starting counter. |
| GridDet.DetNeverEnds | src/s21_matrix.c:259-313 | That matrix has no zero line, and its determinant has no value (FuelExhausted) for every budget. |
| GridDet.Cofactors | src/s21_matrix.c:158-199 | A cofactor matrix, when defined, is n x n. |
| GridDet.CofactorsOfTwo | src/s21_matrix.c:166-175 | For 2x2, cofactor (i, j) is (-1)^(i+j) times A[1-i][1-j]. |
| GridDet.CofactorsOfThree | src/s21_matrix.c:176-189 | For 3x3 every cofactor is defined: (-1)^(i+j) times ad - bc of the minor. |
| Complements.CofactorOfTwo | src/s21_matrix.c:171-172 | One 2x2 cell is (-1)^(i+j) times A[1-i][1-j]. |
| Complements.FillCofactorsOfTwo | src/s21_matrix.c:169-174 | After the 2x2 loops every cell (i, j) holds (-1)^(i+j) times A[1-i][1-j]. |
| Complements.CofactorsOfTwoAre | src/s21_matrix.c:166-175 | A 2x2 grid holding those cells is the cofactor matrix. |
| Complements.ComplementsOfTwo | src/s21_matrix.c:166-175 | The 2x2 branch leaves exactly Cofactors(A). |
| Complements.CofactorFromMinor | src/s21_matrix.c:182-185 | One cell from 3x3 on: the minor's determinant times (-1)^(i+j), or a fault exactly when that determinant has no value. |
| Complements.FillCofactors | src/s21_matrix.c:180-187 | The loops fill every cell as above, or stop at a cell whose minor determinant has no value. |
| Complements.CofactorsOfDets | src/s21_matrix.c:176-189 | From 3x3 on, the cofactors are defined exactly when every minor determinant is, and are read off those determinants. |
| Complements.ComplementsFromMinors | src/s21_matrix.c:176-189 | The branch from 3x3 on leaves exactly Cofactors(A), with a fault exactly when Cofactors has none. |
| Complements.CalcComplements | src/s21_matrix.c:158-199 | The guard's ERR for an invalid input, with the result untouched. ERR for a non-square one, with the result reset to null/0/0. Otherwise OK and a fresh n x n result holding Cofactors(A), a copy of the cell for 1x1. |
| Complements.CopyCells | src/s21_matrix.c:366-370 | The copy loop makes the copy's cells equal to A's. |
| Complements.DeterminantOfCopy | src/s21_matrix.c:362-372 | The determinant computed on a fresh copy is Det(A), with A's storage untouched. |
| Complements.MultiplyCells | src/s21_matrix.c:378-382 | Every cell is multiplied by k in place: the cells become Scale(old cells, k). |
| Complements.ScaledComplements | src/s21_matrix.c:374-384 | For a determinant away from 0, the result holds the cofactors of the transpose scaled by 1/det, or a fault exactly when those cofactors are undefined. |
| Complements.InverseCases | src/s21_matrix.c:359-395 | Helper lemma (unfolding Inverse): the inverse is Undefined when the determinant is, Singular when the determinant is within PRECISION of 0, and otherwise the scaled cofactors of the transpose. |
| Complements.InverseMatrix | src/s21_matrix.c:359-395 | ERR with the result untouched for an invalid or non-square input, or when Inverse(A) is singular. Otherwise OK with a fresh n x n result holding Inverse(A), or a fault exactly when Inverse(A) is undefined. A's cells are never changed. |
| GridInverse.Inverse | src/s21_matrix.c:359-395 | The inverse as written, as a value: Undefined when the determinant or a cofactor has no value, Singular within PRECISION of 0, else the transpose's cofactors times 1/det. Every result has the input's shape, and up to 2x2 there is always an outcome. |
| GridInverse.InverseOfOneCell | src/s21_matrix.c:164-165 | As written, the inverse of [[x]] with x not near 0 is [[1]], which is not an inverse unless x = 1. |
| GridInverse.Adjugate | src/s21_matrix.c:164-175 | The corrected adjugate, when defined, is n x n (1 for a 1x1 matrix). |
| GridInverse.InverseFixed | src/s21_matrix.c:164-165 | The corrected inverse (see Findings): as Inverse, with [[1]] as the adjugate of a 1x1 matrix. Every result has the input's shape, and up to 2x2 there is always an outcome. |
| GridInverse.InverseFixedAgrees | src/s21_matrix.c:359-395 | The corrected inverse agrees with the library's from 2x2 on. |
| GridInverse.InverseFixedOfOneCell | src/s21_matrix.c:164-165 | With the corrected adjugate, [[x]] has inverse [[1/x]], and x times it is the identity. |
| GridInverse.InverseOfTwo | src/s21_matrix.c:359-395 | The 2x2 inverse is [[d, -b], [-c, a]] / (ad - bc). |
| GridInverse.AdjugateProduct | src/s21_matrix.c:359-395 | A 2x2 matrix times its adjugate divided by ad - bc is the identity. |
| GridInverse.InverseFixedOfTwo | src/s21_matrix.c:359-395 | A 2x2 matrix whose determinant is not near 0 times its inverse is the identity. |

## Left out

- Allocation: `calloc` never fails and `free` is not modelled (src/s21_matrix.c:6-19, 28-39). Storage is present or null, and leaks are not tracked.
- Arithmetic.MultMatrix: because allocation never fails, the inner `returnable` that shadows the outer one (src/s21_matrix.c:116) cannot change the result here. In C, a failed creation would still return OK.
- Floating point: cells are exact `real`. `fabs`, `==` against 0 and the PRECISION comparisons are exact. `pow(-1, i + j)` is the exact parity sign `Sign`.
- C `int` width: counters and indices are unbounded. Indices stay below the dimensions. On a matrix where the swapping loop never ends (`GridDet.DetNeverEnds`), the C counter `swap_cnt` would grow past the `int` range; the model cuts the loop off at the pass budget first.
- Determinants.Determinant: when it reports a fault, the postcondition does not say what A's cells are left as; C would go on from an undefined state there.
- Determinants.Determinant: the result equals `Det`, the algorithm as written. Whether `Det` equals the mathematical determinant from 3x3 on is not proved. The elimination divides, and it eliminates against the row above rather than the pivot row. So from 3x3 on it can divide by a cell it has already zeroed, even on a matrix whose determinant is not zero (`GridDet.ThreeByThreeZeroDivisor`, `GridDet.ElimDividesByZero`). From 4x4 on the cofactor matrix inherits this through its 3x3 minors.
- Determinants.SwapUntilFull: the `while` loop at src/s21_matrix.c:274 runs forever on some inputs (`GridDet.SwapLoopNeverEnds`), so it is bounded by `fuel` passes. Running out reports FuelExhausted. Behaviour beyond the budget is not modelled.
- Determinants.SwapMatrix, Determinants.Eliminate: where C reads row `rows` or divides by zero (producing inf/NaN), the model stops with RowOutOfRange or ZeroDivisor. It does not carry on with a value.
- Complements.ComplementsFromMinors, Complements.InverseMatrix: when a minor determinant or the determinant has no defined value, they stop and report the fault. The C code would carry on from an undefined state. For a determinant that divided by zero, C goes on with NaN (or an infinity), and for NaN the singularity test `fabs(det) > PRECISION` (src/s21_matrix.c:375) is false, so C returns ERR as if the matrix were singular.
- Complements.InverseMatrix: it follows the code for 1x1 matrices (see Findings). Full correctness (A times the inverse equals the identity) is proved for 1x1 on the corrected `InverseFixed` (`GridInverse.InverseFixedOfOneCell`) and for 2x2 (`GridInverse.InverseFixedOfTwo`), where `GridInverse.InverseFixedAgrees` makes it hold for the library's own `Inverse` as well. It is not proved from 3x3 on, because it depends on the elimination above.
- Aliasing: an operation's result must be a different record from its operands. For the cofactor matrix and the inverse, scratch storage is distinct from the operand. C places no such restriction, but calling with aliased arguments would overwrite operands while reading them.
- Arithmetic.MultNumber and the internal helpers that take a non-null `Matrix` (Determinants.MinorMatrix, ZeroDetCheck, ZeroCnt, FindRowToSwap, SwapStep, SwapMatrix, SwapUntilFull, Eliminate, DiagonalProduct, and the Complements helpers below CalcComplements and InverseMatrix): every access to a NULL `A` pointer, and every read through null storage with positive dimensions, is undefined in C. It is excluded by preconditions, and `Readable()` covers equality and sum/difference.
- `s21_gen_matrix` is declared at src/s21_matrix.h:33, but its definition is not part of this model.
- Determinants.ZeroDetCheck: the early `break` is kept, but the postcondition states only the returned value. The index at which the scan stops is not observable.

## Findings

| source | as written | input that shows it | evidently intended | confidence | as-written member | corrected member |
|---|---|---|---|---|---|---|
| src/s21_matrix.c:164-165 | `s21_calc_complements` copies the single cell of a 1x1 matrix, and `s21_inverse_matrix` then multiplies it by 1/det, so the inverse of [[x]] is [[1]] | [[5]] gives [[1]] | [[1/x]]; for [[5]], [[0.2]] (the cofactor of a 1x1 matrix is 1) | not executed | GridInverse.InverseOfOneCell | GridInverse.InverseFixedOfOneCell |
