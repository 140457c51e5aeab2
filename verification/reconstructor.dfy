/**
  `combine_shares` of sss.c: Lagrange interpolation at x = 0 over the field.
  For every share i it multiplies the factors (-x_j) * (x_i - x_j)^-1 over
  the other shares j, and sums y_i times that product, reducing with C's `%`
  after every step.

  The contract relates the result to Lagrange.InterpolationSum and, through
  Lagrange.LagrangeAtZero, to the constant term of any polynomial of low
  enough degree through the shares. Nothing checks the shares: a repeated x
  makes mult_inverse return 0 and silently zeroes that share's term.
 */
module Reconstructor {
  import opened CArith
  import opened Modular
  import opened FieldArithmetic
  import opened Polynomial
  import opened Lagrange
  import opened ShareTypes

  /** The shares lie on the polynomial c in the field. */
  ghost predicate OnPolynomial(c: seq<int>, shares: seq<Share>)
  {
    forall k :: 0 <= k < |shares| ==> Cong(shares[k].y, PolyValue(c, shares[k].x))
  }

  /** No two shares have the same x in the field. */
  predicate DistinctPoints(shares: seq<Share>)
  {
    forall i, j :: 0 <= i < |shares| && 0 <= j < |shares| && i != j ==> shares[i].x % P != shares[j].x % P
  }

  predicate NonNegativeXs(shares: seq<Share>)
  {
    forall k :: 0 <= k < |shares| ==> shares[k].x >= 0
  }

  predicate NonNegativeYs(shares: seq<Share>)
  {
    forall k :: 0 <= k < |shares| ==> shares[k].y >= 0
  }

  /** Among the first n shares, one other than share i has the same x as
      share i in the field. */
  predicate TwinAmong(shares: seq<Share>, i: int, n: int)
    requires 0 <= i < |shares| && n <= |shares|
  {
    exists j :: 0 <= j < n && j != i && shares[j].x % P == shares[i].x % P
  }

  /** Row i of the factor table and the inverses behind it: each factor
      stands for -x_j * inverse, and for x_i >= 0 each inverse inverts
      x_i - x_j whenever the two points differ in the field. */
  ghost predicate FactorRow(row: seq<int>, invRow: seq<int>, shares: seq<Share>, i: int)
  {
    && 0 <= i < |shares|
    && |row| == |shares| && |invRow| == |shares|
    && (forall j :: 0 <= j < |shares| && j != i ==> Cong(row[j], (0 - shares[j].x) * invRow[j]))
    && (forall j :: 0 <= j < |shares| && j != i && shares[i].x >= 0 && shares[i].x % P != shares[j].x % P ==>
          Cong(invRow[j] * (shares[i].x - shares[j].x), 1))
  }

  /** The first n rows of the factor table and of the inverse table. */
  ghost predicate FactorRows(g: seq<seq<int>>, inv: seq<seq<int>>, shares: seq<Share>, n: int)
  {
    && |g| == n && |inv| == n && n <= |shares|
    && (forall k :: 0 <= k < n ==> |g[k]| == |shares|)
    && (forall k :: 0 <= k < n ==> FactorRow(g[k], inv[k], shares, k))
  }

  lemma FactorRowsAppend(g: seq<seq<int>>, inv: seq<seq<int>>, row: seq<int>, invRow: seq<int>, shares: seq<Share>, n: int)
    requires FactorRows(g, inv, shares, n)
    requires FactorRow(row, invRow, shares, n)
    ensures FactorRows(g + [row], inv + [invRow], shares, n + 1)
  {
    assert (g + [row])[n] == row && (inv + [invRow])[n] == invRow;
    forall k | 0 <= k < n
      ensures (g + [row])[k] == g[k] && (inv + [invRow])[k] == inv[k]
    {
    }
  }

  /** `combine_shares(num_shares, shares)`. The result lies in (-P, P), and
      in [0, P) when no y is negative. When the x's are non-negative and
      distinct in the field, it is the constant term, in the field, of every
      polynomial with at most |shares| coefficients through the shares: with
      enough shares of one secret it recovers the secret. When every share
      has a twin x in the field, every factor row contains 0 and the result
      is 0 whatever the y's. */
  method CombineShares(shares: seq<Share>) returns (res: int)
    ensures -P < res < P
    ensures NonNegativeYs(shares) ==> 0 <= res
    ensures NonNegativeXs(shares) && DistinctPoints(shares) ==>
              forall c :: |c| <= |shares| && OnPolynomial(c, shares) ==> Cong(res, PolyValue(c, 0))
    ensures NonNegativeXs(shares) && NonNegativeYs(shares) && DistinctPoints(shares) ==>
              forall c :: |c| <= |shares| && OnPolynomial(c, shares) ==> res == PolyValue(c, 0) % P
    ensures (forall i :: 0 <= i < |shares| ==> TwinAmong(shares, i, |shares|)) ==> res == 0
  {
    var m := |shares|;
    ghost var g: seq<seq<int>> := [];
    ghost var inv: seq<seq<int>> := [];
    res := 0;
    var i := 0;
    while i < m
      invariant 0 <= i <= m
      invariant Accumulated(shares, g, inv, i, res)
    {
      var prod, row, invRow := RowProduct(shares, i);
      AccumulateRow(shares, g, inv, i, res, prod, row, invRow);
      res := CRem(res + CRem(prod * shares[i].y, P), P);
      g, inv, i := g + [row], inv + [invRow], i + 1;
    }
    if NonNegativeXs(shares) && DistinctPoints(shares) {
      CombineIsInterpolation(shares, g, inv, res);
    }
  }

  /** The state of `combine_shares` after the first i shares: res is the
      partial Lagrange sum over those shares, in (-P, P), non-negative when
      no y is negative, and 0 while every share so far has a twin. */
  ghost predicate Accumulated(shares: seq<Share>, g: seq<seq<int>>, inv: seq<seq<int>>, i: int, res: int)
  {
    && 0 <= i <= |shares|
    && FactorRows(g, inv, shares, i)
    && -P < res < P
    && (NonNegativeYs(shares) ==> 0 <= res)
    && Cong(res, InterpolationSum(g, Ys(shares), i))
    && ((forall k :: 0 <= k < i ==> TwinAmong(shares, k, |shares|)) ==> res == 0)
  }

  /** One pass of the outer loop of `combine_shares`: adding
      `(y_i * prod) % SSS_P` and reducing keeps the accumulated state, and
      neither the product nor the sum overflows a 32-bit int. */
  lemma AccumulateRow(shares: seq<Share>, g: seq<seq<int>>, inv: seq<seq<int>>, i: int, res: int,
                      prod: int, row: seq<int>, invRow: seq<int>)
    requires Accumulated(shares, g, inv, i, res) && i < |shares|
    requires 0 <= prod < P && FactorRow(row, invRow, shares, i)
    requires Cong(prod, ProdSkip(row, i, |shares|))
    requires TwinAmong(shares, i, |shares|) ==> prod == 0
    ensures Abs(shares[i].y) <= MaxSafeY ==> FitsInt(prod * shares[i].y)
    ensures FitsInt(res + CRem(prod * shares[i].y, P))
    ensures Accumulated(shares, g + [row], inv + [invRow], i + 1, CRem(res + CRem(prod * shares[i].y, P), P))
  {
    var y := shares[i].y;
    var next := CRem(res + CRem(prod * y, P), P);
    FactorRowsAppend(g, inv, row, invRow, shares, i);
    AccumulateSum(shares, g, row, i, res, prod);
    if NonNegativeYs(shares) {
      assert y >= 0;
    }
    if forall k :: 0 <= k < i + 1 ==> TwinAmong(shares, k, |shares|) {
      assert TwinAmong(shares, i, |shares|) && prod == 0 && res == 0;
    }
  }

  /** The sum part of one outer pass: the new res is congruent to the
      interpolation sum over one more share. */
  lemma AccumulateSum(shares: seq<Share>, g: seq<seq<int>>, row: seq<int>, i: int, res: int, prod: int)
    requires 0 <= i < |shares| && |g| == i && |row| == |shares|
    requires forall k :: 0 <= k < i ==> |g[k]| == |shares|
    requires -P < res < P && 0 <= prod < P
    requires Cong(res, InterpolationSum(g, Ys(shares), i))
    requires Cong(prod, ProdSkip(row, i, |shares|))
    ensures forall k :: 0 <= k < i + 1 ==> |(g + [row])[k]| == |shares|
    ensures Cong(CRem(res + CRem(prod * shares[i].y, P), P), InterpolationSum(g + [row], Ys(shares), i + 1))
    ensures -P < CRem(res + CRem(prod * shares[i].y, P), P) < P
    ensures res >= 0 && shares[i].y >= 0 ==> CRem(res + CRem(prod * shares[i].y, P), P) >= 0
    ensures res == 0 && prod == 0 ==> CRem(res + CRem(prod * shares[i].y, P), P) == 0
    ensures Abs(shares[i].y) <= MaxSafeY ==> FitsInt(prod * shares[i].y)
    ensures FitsInt(res + CRem(prod * shares[i].y, P))
  {
    var ys := Ys(shares);
    InterpolationSumAppend(g, row, ys, i);
    assert ys[i] == shares[i].y;
    AccumulateStep(res, prod, shares[i].y, InterpolationSum(g, ys, i), ProdSkip(row, i, |shares|),
                   InterpolationSum(g + [row], ys, i + 1));
  }

  /** With non-negative x's distinct in the field, the rows computed by
      `combine_shares` form a factor table for Lagrange.LagrangeAtZero. */
  lemma CombineIsInterpolation(shares: seq<Share>, g: seq<seq<int>>, inv: seq<seq<int>>, res: int)
    requires NonNegativeXs(shares) && DistinctPoints(shares)
    requires FactorRows(g, inv, shares, |shares|)
    requires Cong(res, InterpolationSum(g, Ys(shares), |shares|))
    ensures forall c :: |c| <= |shares| && OnPolynomial(c, shares) ==> Cong(res, PolyValue(c, 0))
    ensures 0 <= res < P ==> forall c :: |c| <= |shares| && OnPolynomial(c, shares) ==> res == PolyValue(c, 0) % P
  {
    var xs, ys := Xs(shares), Ys(shares);
    TablesFromRows(shares, g, inv);
    forall c | |c| <= |shares| && OnPolynomial(c, shares)
      ensures Cong(res, PolyValue(c, 0))
      ensures 0 <= res < P ==> res == PolyValue(c, 0) % P
    {
      LagrangeAtZero(g, xs, ys, inv, c);
    }
  }

  lemma TablesFromRows(shares: seq<Share>, g: seq<seq<int>>, inv: seq<seq<int>>)
    requires NonNegativeXs(shares) && DistinctPoints(shares)
    requires |g| == |shares| && |inv| == |shares|
    requires forall k :: 0 <= k < |shares| ==> FactorRow(g[k], inv[k], shares, k)
    ensures FactorTable(g, Xs(shares), inv)
    ensures InverseTable(Xs(shares), inv)
  {
    var xs := Xs(shares);
    forall i, j | 0 <= i < |xs| && 0 <= j < |xs| && i != j
      ensures Cong(g[i][j], (0 - xs[j]) * inv[i][j])
      ensures Cong(inv[i][j] * (xs[i] - xs[j]), 1)
    {
      assert FactorRow(g[i], inv[i], shares, i);
    }
  }

  /** The inner loop of `combine_shares` for share i: the product over
      j != i of the factor -x_j times the inverse of x_i - x_j (both written
      with NEG_MOD, so that the operands are non-negative), reduced after
      every factor. The ghost outputs are the factors and the
      inverses used. */
  method RowProduct(shares: seq<Share>, i: int) returns (prod: int, ghost row: seq<int>, ghost invRow: seq<int>)
    requires 0 <= i < |shares|
    ensures 0 <= prod < P
    ensures FactorRow(row, invRow, shares, i)
    ensures Cong(prod, ProdSkip(row, i, |shares|))
    ensures TwinAmong(shares, i, |shares|) ==> prod == 0
  {
    prod := 1;
    row, invRow := [], [];
    var j := 0;
    while j < |shares|
      invariant 0 <= j <= |shares|
      invariant |row| == j && |invRow| == j
      invariant 0 <= prod < P
      invariant Cong(prod, ProdSkip(row, i, j))
      invariant forall k :: 0 <= k < j && k != i ==> Cong(row[k], (0 - shares[k].x) * invRow[k])
      invariant forall k :: 0 <= k < j && k != i && shares[i].x >= 0 && shares[i].x % P != shares[k].x % P ==>
                  Cong(invRow[k] * (shares[i].x - shares[k].x), 1)
      invariant TwinAmong(shares, i, j) ==> prod == 0
    {
      TwinStep(shares, i, j);
      if j == i {
        ProdSkipAppend(row, 1, i);
        row, invRow := row + [1], invRow + [0];
      } else {
        var negXj := NegMod(-shares[j].x);
        var inverse := MultInverse(CRem(shares[i].x, P) + negXj);
        var factor := CRem(negXj * inverse, P);
        FactorStep(shares[i].x, shares[j].x, negXj, inverse, factor);
        ProdSkipAppend(row, factor, i);
        MultiplyStep(prod, factor, ProdSkip(row, i, j));
        prod := prod * factor;
        prod := CRem(prod, P);
        row, invRow := row + [factor], invRow + [inverse];
      }
      j := j + 1;
    }
  }

  /** A twin among the first j + 1 shares is a twin among the first j or
      share j itself. */
  lemma TwinStep(shares: seq<Share>, i: int, j: int)
    requires 0 <= i < |shares| && 0 <= j < |shares|
    ensures TwinAmong(shares, i, j + 1) ==>
              TwinAmong(shares, i, j) || (j != i && shares[j].x % P == shares[i].x % P)
  {
  }

  /** One factor of the inner loop: a field element standing for
      -x_j / (x_i - x_j) when x_i >= 0 and the points differ, and 0 when the
      two points coincide in the field. */
  lemma FactorStep(xi: int, xj: int, negXj: int, inverse: int, factor: int)
    requires negXj == NegMod(-xj)
    requires 0 <= inverse < P
    requires (CRem(xi, P) + negXj) % P == 0 ==> inverse == 0
    requires CRem(xi, P) + negXj >= 0 && (CRem(xi, P) + negXj) % P != 0 ==> Cong(inverse * (CRem(xi, P) + negXj), 1)
    requires factor == CRem(negXj * inverse, P)
    ensures 0 <= factor < P
    ensures Cong(factor, (0 - xj) * inverse)
    ensures xi % P == xj % P ==> factor == 0
    ensures xi >= 0 && xi % P != xj % P ==> Cong(inverse * (xi - xj), 1)
  {
    var arg := CRem(xi, P) + negXj;
    InverseArgument(xi, xj, negXj);
    SameResidueOfDifference(arg, xi, xj);
    FactorValue(xj, negXj, inverse, factor);
    if xi >= 0 && xi % P != xj % P {
      CongMul(inverse, inverse, arg, xi - xj);
    }
  }

  /** A representative of a - b is 0 in the field exactly when a and b agree. */
  lemma SameResidueOfDifference(arg: int, a: int, b: int)
    requires Cong(arg, a - b)
    ensures arg % P == 0 <==> a % P == b % P
  {
  }

  /** `x_i % SSS_P + NEG_MOD(-x_j)` stands for x_i - x_j, and is
      non-negative when x_i is. The sum fits in an `int`; the negation of
      x_j inside NEG_MOD does so for every int x_j except INT_MIN. */
  lemma InverseArgument(xi: int, xj: int, negXj: int)
    requires negXj == NegMod(-xj)
    ensures Cong(CRem(xi, P) + negXj, xi - xj)
    ensures xi >= 0 ==> CRem(xi, P) + negXj > 0
    ensures FitsInt(CRem(xi, P) + negXj)
    ensures IntMin < xj <= IntMax ==> FitsInt(-xj)
    ensures xj == IntMin ==> !FitsInt(-xj)
  {
    CRemCong(xi);
    CongAdd(CRem(xi, P), xi, negXj, -xj);
  }

  /** `(NEG_MOD(-x_j) * inverse) % SSS_P` is a reduced representative of
      -x_j * inverse; NEG_MOD stays below 2P, so the product stays below
      2P^2 < 2^31. */
  lemma FactorValue(xj: int, negXj: int, inverse: int, factor: int)
    requires negXj == NegMod(-xj)
    requires 0 <= inverse < P
    requires factor == CRem(negXj * inverse, P)
    ensures 0 <= factor < P
    ensures Cong(factor, (0 - xj) * inverse)
    ensures inverse == 0 ==> factor == 0
    ensures FitsInt(negXj * inverse)
  {
    assert 0 < negXj < 2 * P;
    assert negXj * inverse >= 0;
    ProductBound(negXj, inverse, 2 * P, P);
    CRemCong(negXj * inverse);
    CongMul(negXj, -xj, inverse, inverse);
  }

  /** Multiplying the running row product by a factor and reducing with C's
      remainder keeps a reduced representative of the product, and the
      product of two reduced values fits in an int. */
  lemma MultiplyStep(prod: int, factor: int, acc: int)
    requires 0 <= prod < P && 0 <= factor < P
    requires Cong(prod, acc)
    ensures 0 <= CRem(prod * factor, P) < P
    ensures Cong(CRem(prod * factor, P), acc * factor)
    ensures prod == 0 || factor == 0 ==> CRem(prod * factor, P) == 0
    ensures FitsInt(prod * factor)
  {
    ProductBound(prod, factor, P, P);
    CRemCong(prod * factor);
    CongMul(prod, acc, factor, factor);
  }

  /** The largest |y| whose product with a reduced row product (at most
      P - 1) fits in an `int`. */
  const MaxSafeY: int := 65576

  /** The bound is tight: for any larger |y| the row product P - 1 (which
      the second share of (1, _), (2, _) gets: its one factor is -1)
      overflows `prod_res * y`. */
  lemma OverflowBeyondMaxSafeY(y: int)
    requires Abs(y) > MaxSafeY
    ensures !FitsInt((P - 1) * y)
  {
  }

  /** The row product P - 1 is reached: for the shares (1, y1), (2, y2) the
      second row has the single factor -1 * (2 - 1)^-1. With that product,
      any |y2| > MaxSafeY makes the C's `prod_res * y` overflow. */
  method MaximalRowProduct(y1: int, y2: int) returns (prod: int)
    ensures prod == P - 1
    ensures Abs(y2) > MaxSafeY ==> !FitsInt(prod * y2)
  {
    var shares := [Share(1, y1), Share(2, y2)];
    ghost var row, invRow;
    prod, row, invRow := RowProduct(shares, 1);
    assert Cong(invRow[0] * (2 - 1), 1);
    assert Cong(row[0], (0 - 1) * invRow[0]);
    assert ProdSkip(row, 1, 1) == row[0];
    assert ProdSkip(row, 1, 2) == row[0];
    if Abs(y2) > MaxSafeY {
      OverflowBeyondMaxSafeY(y2);
    }
  }

  /** Adding the reduced product of the row product and y to the running sum,
      then reducing the sum, adds the share's term to the interpolation sum;
      for |y| <= MaxSafeY nothing overflows. */
  lemma AccumulateStep(res: int, prod: int, y: int, acc: int, exact: int, total: int)
    requires -P < res < P && 0 <= prod < P
    requires Cong(res, acc) && Cong(prod, exact)
    requires total == acc + exact * y
    ensures -P < CRem(res + CRem(prod * y, P), P) < P
    ensures Cong(CRem(res + CRem(prod * y, P), P), total)
    ensures res >= 0 && y >= 0 ==> CRem(res + CRem(prod * y, P), P) >= 0
    ensures res == 0 && prod == 0 ==> CRem(res + CRem(prod * y, P), P) == 0
    ensures Abs(y) <= MaxSafeY ==> FitsInt(prod * y)
    ensures FitsInt(res + CRem(prod * y, P))
  {
    if Abs(y) <= MaxSafeY {
      ProductBound(prod, y, P - 1, MaxSafeY);
    }
    CongMul(prod, exact, y, y);
    CRemCong(prod * y);
    CongAdd(res, acc, CRem(prod * y, P), exact * y);
    CRemCong(res + CRem(prod * y, P));
    if y >= 0 {
      assert prod * y >= 0;
    }
  }
}
