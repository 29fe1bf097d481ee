/**
 * Matrix values as exact reals: a `Grid` is a sequence of rows. These are the
 * reference definitions that the in-place methods of the library are proved
 * against, together with the laws the library's operations promise.
 */
module Grids {
  import opened Constants

  type Grid = seq<seq<real>>

  /** `g` has `r` rows of `c` cells each. */
  predicate IsMatrix(g: Grid, r: int, c: int) {
    |g| == r && forall i :: 0 <= i < |g| ==> |g[i]| == c
  }

  /** Number of columns, read off the first row. */
  function Cols(g: Grid): (c: nat) {
    if |g| == 0 then 0 else |g[0]|
  }

  /** Every row has the same length. */
  predicate Rect(g: Grid) {
    IsMatrix(g, |g|, Cols(g))
  }

  predicate Square(g: Grid) {
    IsMatrix(g, |g|, |g|)
  }

  predicate SameShape(a: Grid, b: Grid) {
    Rect(a) && IsMatrix(b, |a|, Cols(a))
  }

  function Abs(x: real): (r: real)
    ensures 0.0 <= r && (r == x || r == -x)
  {
    if x < 0.0 then -x else x
  }

  /** The contents of a freshly created matrix: every cell 0. */
  function Zero(r: nat, c: nat): (z: Grid)
    ensures IsMatrix(z, r, c)
  {
    seq(r, i => seq(c, j => 0.0))
  }

  function Add(a: Grid, b: Grid): (s: Grid)
    requires SameShape(a, b)
    ensures IsMatrix(s, |a|, Cols(a))
  {
    seq(|a|, i requires 0 <= i < |a| => seq(Cols(a), j requires 0 <= j < Cols(a) => a[i][j] + b[i][j]))
  }

  function Sub(a: Grid, b: Grid): (d: Grid)
    requires SameShape(a, b)
    ensures IsMatrix(d, |a|, Cols(a))
  {
    seq(|a|, i requires 0 <= i < |a| => seq(Cols(a), j requires 0 <= j < Cols(a) => a[i][j] - b[i][j]))
  }

  function Scale(a: Grid, k: real): (s: Grid)
    requires Rect(a)
    ensures IsMatrix(s, |a|, Cols(a))
  {
    seq(|a|, i requires 0 <= i < |a| => seq(Cols(a), j requires 0 <= j < Cols(a) => a[i][j] * k))
  }

  /** Two cells differ by at most the tolerance PRECISION. */
  predicate Close(x: real, y: real) {
    Abs(x - y) <= PRECISION
  }

  /** Cell-by-cell equality up to the tolerance. */
  predicate Near(a: Grid, b: Grid) {
    SameShape(a, b) &&
    forall i, j :: 0 <= i < |a| && 0 <= j < Cols(a) ==> Close(a[i][j], b[i][j])
  }

  lemma NearReflexive(g: Grid)
    requires Rect(g)
    ensures Near(g, g)
  {
  }

  /** Subtracting what was added gives back the first operand, cell for cell. */
  lemma SubAfterAdd(a: Grid, b: Grid)
    requires SameShape(a, b)
    ensures SameShape(Add(a, b), b)
    ensures Sub(Add(a, b), b) == a
  {
    var s := Add(a, b);
    assert |s| == |a| && (|a| > 0 ==> Cols(s) == Cols(a));
    var d := Sub(s, b);
    forall i | 0 <= i < |a|
      ensures d[i] == a[i]
    {
      assert |d[i]| == |a[i]|;
    }
  }

  function Transposed(g: Grid): (t: Grid)
    requires Rect(g)
    ensures IsMatrix(t, Cols(g), |g|)
  {
    seq(Cols(g), j requires 0 <= j < Cols(g) => seq(|g|, i requires 0 <= i < |g| => g[i][j]))
  }

  /** Transposing twice gives back the matrix (for at least one column, as a valid matrix has). */
  lemma TransposedTwice(g: Grid)
    requires Rect(g) && Cols(g) > 0
    ensures Transposed(Transposed(g)) == g
  {
    var t := Transposed(g);
    assert Cols(t) == |g|;
    var tt := Transposed(t);
    assert |tt| == |g|;
    forall i | 0 <= i < |g|
      ensures tt[i] == g[i]
    {
      assert |tt[i]| == |g[i]|;
    }
  }

  /** Sum over k < n of a[i][k] * b[k][j], accumulated from 0 in increasing k. */
  function Dot(a: Grid, b: Grid, i: nat, j: nat, n: nat): (d: real)
    requires Rect(a) && Rect(b) && i < |a| && j < Cols(b) && n <= Cols(a) && n <= |b|
  {
    if n == 0 then 0.0 else Dot(a, b, i, j, n - 1) + a[i][n - 1] * b[n - 1][j]
  }

  function Product(a: Grid, b: Grid): (p: Grid)
    requires Rect(a) && Rect(b) && Cols(a) == |b|
    ensures IsMatrix(p, |a|, Cols(b))
  {
    seq(|a|, i requires 0 <= i < |a| => seq(Cols(b), j requires 0 <= j < Cols(b) => Dot(a, b, i, j, Cols(a))))
  }

  function Identity(n: nat): (e: Grid)
    ensures Square(e) && |e| == n
  {
    seq(n, i => seq(n, j => if i == j then 1.0 else 0.0))
  }

  lemma {:induction false} DotIdentity(a: Grid, i: nat, j: nat, n: nat)
    requires Rect(a) && i < |a| && j < Cols(a) && n <= Cols(a)
    ensures Dot(a, Identity(Cols(a)), i, j, n) == if j < n then a[i][j] else 0.0
  {
    if n > 0 {
      DotIdentity(a, i, j, n - 1);
    }
  }

  /** Multiplying by the identity on the right gives back the matrix. */
  lemma MulIdentity(a: Grid)
    requires Rect(a)
    ensures Product(a, Identity(Cols(a))) == a
  {
    var e := Identity(Cols(a));
    assert |a| > 0 ==> Cols(e) == Cols(a);
    var p := Product(a, e);
    forall i | 0 <= i < |a|
      ensures p[i] == a[i]
    {
      forall j | 0 <= j < Cols(a)
        ensures p[i][j] == a[i][j]
      {
        DotIdentity(a, i, j, Cols(a));
      }
    }
  }

  /** `s` with its element at position k deleted. */
  function Without<T>(s: seq<T>, k: nat): (r: seq<T>)
    requires k < |s|
    ensures |r| == |s| - 1
  {
    s[..k] + s[k + 1..]
  }

  /** Position in the original of position k after deleting position gap. */
  function Skip(k: nat, gap: nat): nat {
    if k < gap then k else k + 1
  }

  /** The matrix with row I and column J deleted. */
  function Minor(g: Grid, I: nat, J: nat): (m: Grid)
    requires Rect(g) && I < |g| && J < Cols(g)
    ensures IsMatrix(m, |g| - 1, Cols(g) - 1)
  {
    var rows := seq(|g|, i requires 0 <= i < |g| => Without(g[i], J));
    assert forall i :: 0 <= i < |g| - 1 ==> Without(rows, I)[i] == rows[Skip(i, I)];
    Without(rows, I)
  }

  /** Each cell of a minor is the cell of the original at the shifted row and the shifted column. */
  lemma MinorAt(g: Grid, I: nat, J: nat)
    requires Rect(g) && I < |g| && J < Cols(g)
    ensures forall r, c :: 0 <= r < |g| - 1 && 0 <= c < Cols(g) - 1 ==>
              Minor(g, I, J)[r][c] == g[Skip(r, I)][Skip(c, J)]
  {
    var rows := seq(|g|, i requires 0 <= i < |g| => Without(g[i], J));
    forall r, c | 0 <= r < |g| - 1 && 0 <= c < Cols(g) - 1
      ensures Minor(g, I, J)[r][c] == g[Skip(r, I)][Skip(c, J)]
    {
      assert Minor(g, I, J)[r] == rows[Skip(r, I)];
      assert Without(g[Skip(r, I)], J)[c] == g[Skip(r, I)][Skip(c, J)];
    }
  }

  /** The rows (likewise the columns) that survive a deletion keep their relative order and skip the deleted one. */
  lemma MinorKeepsOrder(n: nat, gap: nat)
    requires gap < n
    ensures forall k :: 0 <= k < n - 1 ==> Skip(k, gap) < n && Skip(k, gap) != gap
    ensures forall k, l :: 0 <= k < l < n - 1 ==> Skip(k, gap) < Skip(l, gap)
  {
  }

  /** (-1)^(i+j) as an exact sign. */
  function Sign(k: nat): (s: real)
    ensures s == 1.0 || s == -1.0
  {
    if k % 2 == 0 then 1.0 else -1.0
  }
}
