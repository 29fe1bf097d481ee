/**
 * The inverse as the library computes it, as a value: the determinant, the
 * singularity test against PRECISION, the cofactor matrix of the transpose,
 * and every cell divided by the determinant. Also the corrected adjugate of a
 * 1x1 matrix, with the inverse law proved for the closed-form sizes.
 */
module GridInverse {
  import opened Constants
  import opened Grids
  import opened GridDet

  /** What an inversion yields: no real-valued outcome, the singular-matrix error, or a matrix. */
  datatype Inversion = Undefined | Singular | Inverted(grid: Grid)

  /** A 1x1 grid is determined by its cell. */
  lemma OneByOne(s: Grid, x: real)
    requires IsMatrix(s, 1, 1) && s[0][0] == x
    ensures s == [[x]]
  {
    assert s[0] == [x];
  }

  /** A 2x2 grid is determined by its cells. */
  lemma TwoByTwo(s: Grid, a: real, b: real, c: real, d: real)
    requires IsMatrix(s, 2, 2) && s[0][0] == a && s[0][1] == b && s[1][0] == c && s[1][1] == d
    ensures s == [[a, b], [c, d]]
  {
    assert s[0] == [a, b];
    assert s[1] == [c, d];
  }

  /** The transpose of a square matrix is square of the same size. */
  lemma TransposedSquare(g: Grid)
    requires Square(g) && 1 <= |g|
    ensures Square(Transposed(g)) && |Transposed(g)| == |g|
  {
  }

  /**
   * The inverse as written: Undefined when the determinant or a cofactor has
   * no real-valued outcome, Singular when the determinant is within
   * PRECISION of 0, otherwise the cofactors of the transpose times 1/det.
   * Every matrix it returns has the input's shape, and up to two rows it
   * always has an outcome.
   */
  function Inverse(g: Grid, fuel: nat): (v: Inversion)
    requires Square(g) && 1 <= |g|
    ensures v.Inverted? ==> IsMatrix(v.grid, |g|, |g|)
    ensures |g| <= 2 ==> v != Undefined
  {
    TransposedSquare(g);
    match Det(g, fuel)
    case Failed(_) => Undefined
    case Done(d) =>
      if Abs(d - 0.0) <= PRECISION then Singular
      else
        match Cofactors(Transposed(g), fuel)
        case None => Undefined
        case Some(c) => Inverted(Scale(c, 1.0 / d))
  }

  /** The inverse of a 1x1 matrix [[x]] with x not near 0 comes out as [[1]], whatever x is. */
  lemma InverseOfOneCell(x: real, fuel: nat)
    requires Abs(x) > PRECISION
    ensures Inverse([[x]], fuel) == Inverted([[1.0]])
    ensures x != 1.0 ==> Product([[x]], [[1.0]]) != Identity(1)
  {
    var g := [[x]];
    assert Det(g, fuel) == Done(x);
    var t := Transposed(g);
    OneByOne(t, x);
    var s := Scale(g, 1.0 / x);
    assert s[0][0] == x * (1.0 / x) == 1.0;
    OneByOne(s, 1.0);
    if x != 1.0 {
      assert Product([[x]], [[1.0]])[0][0] == Dot([[x]], [[1.0]], 0, 0, 1) == x;
    }
  }

  /** The adjugate: the cofactor matrix of the transpose, with the cofactor of a 1x1 matrix being 1. */
  function Adjugate(g: Grid, fuel: nat): (c: Option<Grid>)
    requires Square(g) && 1 <= |g|
    ensures c.Some? ==> IsMatrix(c.value, |g|, |g|)
  {
    TransposedSquare(g);
    if |g| == 1 then Some([[1.0]]) else Cofactors(Transposed(g), fuel)
  }

  /** The inverse with the corrected 1x1 adjugate; otherwise as the library computes it. */
  function InverseFixed(g: Grid, fuel: nat): (v: Inversion)
    requires Square(g) && 1 <= |g|
    ensures v.Inverted? ==> IsMatrix(v.grid, |g|, |g|)
    ensures |g| <= 2 ==> v != Undefined
  {
    match Det(g, fuel)
    case Failed(_) => Undefined
    case Done(d) =>
      if Abs(d - 0.0) <= PRECISION then Singular
      else
        match Adjugate(g, fuel)
        case None => Undefined
        case Some(c) => Inverted(Scale(c, 1.0 / d))
  }

  /** The corrected and the original inverse differ only on 1x1 matrices. */
  lemma InverseFixedAgrees(g: Grid, fuel: nat)
    requires Square(g) && 2 <= |g|
    ensures InverseFixed(g, fuel) == Inverse(g, fuel)
  {
  }

  /** With the corrected adjugate a 1x1 matrix [[x]] not near 0 has inverse [[1/x]], and x times it is 1. */
  lemma InverseFixedOfOneCell(x: real, fuel: nat)
    requires Abs(x) > PRECISION
    ensures InverseFixed([[x]], fuel) == Inverted([[1.0 / x]])
    ensures Product([[x]], [[1.0 / x]]) == Identity(1)
  {
    var g := [[x]];
    assert Det(g, fuel) == Done(x);
    var s := Scale([[1.0]], 1.0 / x);
    assert s[0][0] == 1.0 * (1.0 / x) == 1.0 / x;
    OneByOne(s, 1.0 / x);
    var p := Product([[x]], [[1.0 / x]]);
    assert p[0][0] == Dot([[x]], [[1.0 / x]], 0, 0, 1) == x * (1.0 / x) == 1.0;
    OneByOne(p, 1.0);
    OneByOne(Identity(1), 1.0);
  }

  /** The cells of the 2x2 inverse: the adjugate [[d, -b], [-c, a]] divided by ad - bc. */
  lemma InverseOfTwo(g: Grid, fuel: nat, k: real)
    requires Square(g) && |g| == 2
    requires Abs(Det(g, fuel).value) > PRECISION && k == 1.0 / Det(g, fuel).value
    ensures InverseFixed(g, fuel).Inverted?
    ensures InverseFixed(g, fuel).grid ==
              [[g[1][1] * k, -g[0][1] * k], [-g[1][0] * k, g[0][0] * k]]
  {
    DetClosedForms(g, fuel);
    var t := Transposed(g);
    TransposedSquare(g);
    CofactorsOfTwo(t, fuel);
    var c := Cofactors(t, fuel).value;
    assert c[0][0] == g[1][1] && c[0][1] == -g[0][1] && c[1][0] == -g[1][0] && c[1][1] == g[0][0];
    var s := Scale(c, k);
    TwoByTwo(s, g[1][1] * k, -g[0][1] * k, -g[1][0] * k, g[0][0] * k);
  }

  /** The product of two 2x2 matrices, cell by cell. */
  lemma ProductOfTwo(g: Grid, v: Grid)
    requires Square(g) && |g| == 2 && Square(v) && |v| == 2
    ensures Product(g, v) == [[g[0][0] * v[0][0] + g[0][1] * v[1][0], g[0][0] * v[0][1] + g[0][1] * v[1][1]],
                              [g[1][0] * v[0][0] + g[1][1] * v[1][0], g[1][0] * v[0][1] + g[1][1] * v[1][1]]]
  {
    var p := Product(g, v);
    forall i, j | 0 <= i < 2 && 0 <= j < 2
      ensures p[i][j] == g[i][0] * v[0][j] + g[i][1] * v[1][j]
    {
      assert Dot(g, v, i, j, 1) == g[i][0] * v[0][j];
    }
    TwoByTwo(p, g[0][0] * v[0][0] + g[0][1] * v[1][0], g[0][0] * v[0][1] + g[0][1] * v[1][1],
                g[1][0] * v[0][0] + g[1][1] * v[1][0], g[1][0] * v[0][1] + g[1][1] * v[1][1]);
  }

  /** [[a, b], [c, d]] times [[d, -b], [-c, a]] / (ad - bc) is the identity. */
  lemma AdjugateCancels(a: real, b: real, c: real, d: real, k: real, w: real, x: real, y: real, z: real)
    requires (a * d - b * c) * k == 1.0
    requires w == d * k && x == -b * k && y == -c * k && z == a * k
    ensures a * w + b * y == 1.0 && a * x + b * z == 0.0
    ensures c * w + d * y == 0.0 && c * x + d * z == 1.0
  {
  }

  /** A 2x2 matrix times its corrected inverse is the identity, whenever the determinant is not near 0. */
  lemma InverseFixedOfTwo(g: Grid, fuel: nat)
    requires Square(g) && |g| == 2
    requires Abs(Det(g, fuel).value) > PRECISION
    ensures InverseFixed(g, fuel).Inverted?
    ensures Product(g, InverseFixed(g, fuel).grid) == Identity(2)
  {
    DetClosedForms(g, fuel);
    var k := 1.0 / Det(g, fuel).value;
    assert (g[0][0] * g[1][1] - g[0][1] * g[1][0]) * k == 1.0;
    InverseOfTwo(g, fuel, k);
    AdjugateProduct(g, k);
  }

  /** g times its adjugate scaled by k is the identity when k is 1 / (ad - bc). */
  lemma AdjugateProduct(g: Grid, k: real)
    requires Square(g) && |g| == 2
    requires (g[0][0] * g[1][1] - g[0][1] * g[1][0]) * k == 1.0
    ensures Product(g, [[g[1][1] * k, -g[0][1] * k], [-g[1][0] * k, g[0][0] * k]]) == Identity(2)
  {
    var v := [[g[1][1] * k, -g[0][1] * k], [-g[1][0] * k, g[0][0] * k]];
    ProductOfTwo(g, v);
    AdjugateCancels(g[0][0], g[0][1], g[1][0], g[1][1], k, v[0][0], v[0][1], v[1][0], v[1][1]);
    var p := Product(g, v);
    assert p[0][0] == 1.0 && p[0][1] == 0.0 && p[1][0] == 0.0 && p[1][1] == 1.0;
    TwoByTwo(p, 1.0, 0.0, 0.0, 1.0);
    TwoByTwo(Identity(2), 1.0, 0.0, 0.0, 1.0);
  }
}
