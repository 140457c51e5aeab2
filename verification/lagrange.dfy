/**
  Lagrange interpolation at 0 over the field: the mathematics behind
  `combine_shares`. For m points x_0 .. x_{m-1}, distinct in the field, and
  factors G[i][j] = -x_j / (x_i - x_j), the sum

      sum_i  y_i * prod_{j != i} G[i][j]

  is, in the field, the value at 0 of every polynomial with at most m
  coefficients that passes through the points (x_i, y_i).

  The proof builds the interpolating polynomial L(X) = sum_i w_i * B_i(X),
  with B_i(X) = prod_{j != i} (X - x_j), shows that L takes the value y_k at
  each x_k, and concludes from Polynomial.VanishingPolynomial that C - L,
  which has at most m coefficients and m roots, vanishes at 0 as well.
 */
module Lagrange {
  import opened Modular
  import opened FieldArithmetic
  import opened Polynomial

  /** prod_{j < n, j != i} s[j]. */
  function ProdSkip(s: seq<int>, i: int, n: nat): int
    requires n <= |s|
  {
    if n == 0 then 1
    else ProdSkip(s, i, n - 1) * (if n - 1 == i then 1 else s[n - 1])
  }

  /** prod_{j < n, j != i} (z - xs[j]), the value of BasisPoly at z. */
  function DiffProd(xs: seq<int>, i: int, n: nat, z: int): int
    requires n <= |xs|
  {
    if n == 0 then 1
    else DiffProd(xs, i, n - 1, z) * (if n - 1 == i then 1 else z - xs[n - 1])
  }

  /** Coefficients of prod_{j < n, j != i} (X - xs[j]). */
  function BasisPoly(xs: seq<int>, i: int, n: nat): seq<int>
    requires n <= |xs|
  {
    if n == 0 then [1]
    else if n - 1 == i then BasisPoly(xs, i, n - 1)
    else MulLinear(BasisPoly(xs, i, n - 1), xs[n - 1])
  }

  /** The interpolation formula that `combine_shares` evaluates: the sum over
      the first k points of y_i times the product of its row of factors. */
  function InterpolationSum(g: seq<seq<int>>, ys: seq<int>, k: nat): int
    requires k <= |g| && k <= |ys|
    requires forall i :: 0 <= i < k ==> |g[i]| == |ys|
  {
    if k == 0 then 0
    else InterpolationSum(g, ys, k - 1) + ProdSkip(g[k - 1], k - 1, |ys|) * ys[k - 1]
  }

  /** A product over the first n entries ignores what follows them. */
  lemma {:induction false} ProdSkipExtend(s: seq<int>, v: int, i: int, n: nat)
    requires n <= |s|
    ensures ProdSkip(s + [v], i, n) == ProdSkip(s, i, n)
    decreases n
  {
    if n > 0 {
      ProdSkipExtend(s, v, i, n - 1);
    }
  }

  /** Adding row k adds its term to the sum. */
  lemma InterpolationSumAppend(g: seq<seq<int>>, row: seq<int>, ys: seq<int>, k: nat)
    requires |g| == k < |ys|
    requires forall i :: 0 <= i < k ==> |g[i]| == |ys|
    requires |row| == |ys|
    ensures InterpolationSum(g + [row], ys, k + 1) == InterpolationSum(g, ys, k) + ProdSkip(row, k, |ys|) * ys[k]
  {
    InterpolationSumExtend(g, row, ys, k);
    assert (g + [row])[k] == row;
  }

  /** Appending an entry multiplies the product by it, unless it sits at
      the skipped index. */
  lemma ProdSkipAppend(s: seq<int>, v: int, i: int)
    ensures ProdSkip(s + [v], i, |s| + 1) == ProdSkip(s, i, |s|) * (if |s| == i then 1 else v)
  {
    ProdSkipExtend(s, v, i, |s|);
  }

  /** A sum over the first k rows ignores the rows that follow them. */
  lemma {:induction false} InterpolationSumExtend(g: seq<seq<int>>, row: seq<int>, ys: seq<int>, k: nat)
    requires k <= |g| && k <= |ys|
    requires forall i :: 0 <= i < k ==> |g[i]| == |ys|
    ensures InterpolationSum(g + [row], ys, k) == InterpolationSum(g, ys, k)
    decreases k
  {
    if k > 0 {
      InterpolationSumExtend(g, row, ys, k - 1);
      assert (g + [row])[k - 1] == g[k - 1];
    }
  }

  /** Weight of point i in the interpolating polynomial: y_i / prod_{j != i} (x_i - x_j). */
  function Weight(ys: seq<int>, inv: seq<seq<int>>, i: nat): int
    requires i < |ys| && i < |inv|
  {
    ys[i] * ProdSkip(inv[i], i, |inv[i]|)
  }

  /** sum_{i < k} Weight(i) * B_i(z). */
  function LagrangeSum(xs: seq<int>, ys: seq<int>, inv: seq<seq<int>>, k: nat, z: int): int
    requires k <= |xs| == |ys| == |inv|
  {
    if k == 0 then 0
    else LagrangeSum(xs, ys, inv, k - 1, z) + Weight(ys, inv, k - 1) * DiffProd(xs, k - 1, |xs|, z)
  }

  /** Coefficients of sum_{i < k} Weight(i) * B_i(X), all of length |xs|. */
  function LagrangePoly(xs: seq<int>, ys: seq<int>, inv: seq<seq<int>>, k: nat): (r: seq<int>)
    requires k <= |xs| == |ys| == |inv|
    ensures |r| == |xs|
  {
    if k == 0 then seq(|xs|, _ => 0)
    else
      BasisPolyShape(xs, k - 1, |xs|);
      AddPoly(LagrangePoly(xs, ys, inv, k - 1),
              ScalePoly(Weight(ys, inv, k - 1), BasisPoly(xs, k - 1, |xs|)))
  }

  // ---------------------------------------------------------------------

  lemma {:induction false} BasisPolyShape(xs: seq<int>, i: int, n: nat)
    requires n <= |xs|
    ensures |BasisPoly(xs, i, n)| == if 0 <= i < n then n else n + 1
    decreases n
  {
    if n > 0 {
      BasisPolyShape(xs, i, n - 1);
    }
  }

  lemma {:induction false} BasisPolyValue(xs: seq<int>, i: int, n: nat, z: int)
    requires n <= |xs|
    ensures PolyValue(BasisPoly(xs, i, n), z) == DiffProd(xs, i, n, z)
    decreases n
  {
    if n == 0 {
      ConstantValue(1, z);
    } else {
      var b := BasisPoly(xs, i, n - 1);
      BasisPolyValue(xs, i, n - 1, z);
      var d := DiffProd(xs, i, n - 1, z);
      if n - 1 != i {
        var a := xs[n - 1];
        MulLinearValue(b, a, z);
        assert BasisPoly(xs, i, n) == MulLinear(b, a);
        assert DiffProd(xs, i, n, z) == d * (z - a);
        assert d * (z - a) == (z - a) * d;
      } else {
        assert BasisPoly(xs, i, n) == b;
        assert DiffProd(xs, i, n, z) == d * 1;
      }
    }
  }

  lemma {:induction false} ZeroPolyValue(m: nat, z: int)
    ensures PolyValue(seq(m, _ => 0), z) == 0
    decreases m
  {
    if m > 0 {
      assert seq(m, _ => 0)[..m - 1] == seq(m - 1, _ => 0);
      ZeroPolyValue(m - 1, z);
    }
  }

  lemma {:induction false} LagrangePolyValue(xs: seq<int>, ys: seq<int>, inv: seq<seq<int>>, k: nat, z: int)
    requires k <= |xs| == |ys| == |inv|
    ensures PolyValue(LagrangePoly(xs, ys, inv, k), z) == LagrangeSum(xs, ys, inv, k, z)
    decreases k
  {
    if k == 0 {
      ZeroPolyValue(|xs|, z);
    } else {
      LagrangePolyValue(xs, ys, inv, k - 1, z);
      LagrangePolyStep(xs, ys, inv, k, z);
    }
  }

  /** Adding the k-th term to the polynomial adds its value at every z. */
  lemma LagrangePolyStep(xs: seq<int>, ys: seq<int>, inv: seq<seq<int>>, k: nat, z: int)
    requires 0 < k <= |xs| == |ys| == |inv|
    ensures PolyValue(LagrangePoly(xs, ys, inv, k), z)
         == PolyValue(LagrangePoly(xs, ys, inv, k - 1), z) + Weight(ys, inv, k - 1) * DiffProd(xs, k - 1, |xs|, z)
  {
    BasisPolyShape(xs, k - 1, |xs|);
    var b := BasisPoly(xs, k - 1, |xs|);
    BasisPolyValue(xs, k - 1, |xs|, z);
    AddScaledValue(LagrangePoly(xs, ys, inv, k - 1), Weight(ys, inv, k - 1), b, z);
  }

  lemma AddScaledValue(a: seq<int>, w: int, b: seq<int>, z: int)
    requires |a| == |b|
    ensures PolyValue(AddPoly(a, ScalePoly(w, b)), z) == PolyValue(a, z) + w * PolyValue(b, z)
  {
    PolyValueAdd(a, ScalePoly(w, b), z);
    PolyValueScale(w, b, z);
  }

  /** B_i vanishes at every other point x_q. */
  lemma {:induction false} DiffProdAtOtherPoint(xs: seq<int>, i: int, n: nat, q: nat)
    requires q < n <= |xs| && q != i
    ensures DiffProd(xs, i, n, xs[q]) == 0
    decreases n
  {
    if q < n - 1 {
      DiffProdAtOtherPoint(xs, i, n - 1, q);
    }
  }

  /** If each factor inv[j] inverts (x_i - x_j), the products over j != i
      are inverse to each other. */
  lemma {:induction false} InverseProducts(xs: seq<int>, invRow: seq<int>, i: int, n: nat)
    requires n <= |xs| && n <= |invRow| && 0 <= i < |xs|
    requires forall j :: 0 <= j < n && j != i ==> Cong(invRow[j] * (xs[i] - xs[j]), 1)
    ensures Cong(ProdSkip(invRow, i, n) * DiffProd(xs, i, n, xs[i]), 1)
    decreases n
  {
    if n > 0 {
      InverseProducts(xs, invRow, i, n - 1);
      var a := ProdSkip(invRow, i, n - 1);
      var b := DiffProd(xs, i, n - 1, xs[i]);
      if n - 1 != i {
        var u := invRow[n - 1];
        var v := xs[i] - xs[n - 1];
        assert ProdSkip(invRow, i, n) * DiffProd(xs, i, n, xs[i]) == (a * b) * (u * v);
        CongMul(a * b, 1, u * v, 1);
      }
    }
  }

  /** Each factor G[j] is -x_j times inv[j], so the row product splits. */
  lemma {:induction false} RowProductSplit(g: seq<int>, xs: seq<int>, invRow: seq<int>, i: int, n: nat)
    requires n <= |g| && n <= |xs| && n <= |invRow|
    requires forall j :: 0 <= j < n && j != i ==> Cong(g[j], (0 - xs[j]) * invRow[j])
    ensures Cong(ProdSkip(g, i, n), ProdSkip(invRow, i, n) * DiffProd(xs, i, n, 0))
    decreases n
  {
    if n > 0 {
      RowProductSplit(g, xs, invRow, i, n - 1);
      var a := ProdSkip(invRow, i, n - 1);
      var b := DiffProd(xs, i, n - 1, 0);
      if n - 1 != i {
        var u := invRow[n - 1];
        var v := 0 - xs[n - 1];
        CongMul(ProdSkip(g, i, n - 1), a * b, g[n - 1], v * u);
        assert (a * b) * (v * u) == (a * u) * (b * v);
      }
    }
  }

  /** At a node x_q only the q-th term of the Lagrange sum survives. */
  lemma {:induction false} LagrangeSumAtNode(xs: seq<int>, ys: seq<int>, inv: seq<seq<int>>, k: nat, q: nat)
    requires k <= |xs| == |ys| == |inv| && q < |xs|
    ensures LagrangeSum(xs, ys, inv, k, xs[q])
         == if q < k then Weight(ys, inv, q) * DiffProd(xs, q, |xs|, xs[q]) else 0
    decreases k
  {
    if k > 0 {
      LagrangeSumAtNode(xs, ys, inv, k - 1, q);
      if k - 1 != q {
        DiffProdAtOtherPoint(xs, k - 1, |xs|, q);
      }
    }
  }

  /** The interpolating polynomial passes through every point. */
  lemma LagrangeSumInterpolates(xs: seq<int>, ys: seq<int>, inv: seq<seq<int>>, q: nat)
    requires |xs| == |ys| && InverseTable(xs, inv) && q < |xs|
    ensures Cong(LagrangeSum(xs, ys, inv, |xs|, xs[q]), ys[q])
  {
    LagrangeSumAtNode(xs, ys, inv, |xs|, q);
    InverseProducts(xs, inv[q], q, |xs|);
    var a := ProdSkip(inv[q], q, |xs|);
    var b := DiffProd(xs, q, |xs|, xs[q]);
    assert Weight(ys, inv, q) * b == ys[q] * (a * b);
    CongMul(ys[q], ys[q], a * b, 1);
  }

  /** The Lagrange sum at z is, in the field, the value at z of every
      polynomial with at most |xs| coefficients through the points. */
  lemma LagrangeSumIsValue(xs: seq<int>, ys: seq<int>, inv: seq<seq<int>>, c: seq<int>, z: int)
    requires |xs| == |ys| && InverseTable(xs, inv)
    requires |c| <= |xs|
    requires forall k :: 0 <= k < |xs| ==> Cong(ys[k], PolyValue(c, xs[k]))
    ensures Cong(LagrangeSum(xs, ys, inv, |xs|, z), PolyValue(c, z))
  {
    var m := |xs|;
    var l := LagrangePoly(xs, ys, inv, m);
    var d := AddPoly(Pad(c, m), ScalePoly(-1, l));
    forall k | 0 <= k < m
      ensures Cong(PolyValue(d, xs[k]), 0)
    {
      DifferenceValue(c, l, m, xs[k]);
      LagrangePolyValue(xs, ys, inv, m, xs[k]);
      LagrangeSumInterpolates(xs, ys, inv, k);
      CongCancel(PolyValue(d, xs[k]), PolyValue(c, xs[k]), PolyValue(l, xs[k]), ys[k]);
    }
    VanishingPolynomial(d, xs, inv, m, z);
    DifferenceValue(c, l, m, z);
    LagrangePolyValue(xs, ys, inv, m, z);
    CongFromDifference(PolyValue(d, z), PolyValue(c, z), PolyValue(l, z));
  }

  lemma CongCancel(dv: int, cv: int, lv: int, y: int)
    requires dv == cv - lv && Cong(lv, y) && Cong(y, cv)
    ensures Cong(dv, 0)
  {
  }

  lemma CongFromDifference(dv: int, cv: int, lv: int)
    requires dv == cv - lv && Cong(dv, 0)
    ensures Cong(lv, cv)
  {
  }

  lemma DifferenceValue(c: seq<int>, l: seq<int>, m: nat, x: int)
    requires |c| <= m == |l|
    ensures PolyValue(AddPoly(Pad(c, m), ScalePoly(-1, l)), x) == PolyValue(c, x) - PolyValue(l, x)
  {
    PolyValueAdd(Pad(c, m), ScalePoly(-1, l), x);
    PolyValuePad(c, m, x);
    PolyValueScale(-1, l, x);
  }

  /** Shapes of the tables `combine_shares` works with: one row of m factors
      per point, each factor G[i][j] a representative of -x_j * inv[i][j]. */
  ghost predicate FactorTable(g: seq<seq<int>>, xs: seq<int>, inv: seq<seq<int>>)
  {
    && |g| == |xs| == |inv|
    && (forall i :: 0 <= i < |g| ==> |g[i]| == |xs| && |inv[i]| == |xs|)
    && (forall i, j :: 0 <= i < |xs| && 0 <= j < |xs| && i != j ==>
          Cong(g[i][j], (0 - xs[j]) * inv[i][j]))
  }

  lemma {:induction false} InterpolationSumIsLagrangeSum(g: seq<seq<int>>, xs: seq<int>, ys: seq<int>, inv: seq<seq<int>>, k: nat)
    requires FactorTable(g, xs, inv) && |ys| == |xs| && k <= |xs|
    ensures Cong(InterpolationSum(g, ys, k), LagrangeSum(xs, ys, inv, k, 0))
    decreases k
  {
    if k > 0 {
      var i := k - 1;
      InterpolationSumIsLagrangeSum(g, xs, ys, inv, i);
      RowProductSplit(g[i], xs, inv[i], i, |xs|);
      var a := ProdSkip(inv[i], i, |xs|);
      var b := DiffProd(xs, i, |xs|, 0);
      CongMul(ProdSkip(g[i], i, |xs|), a * b, ys[i], ys[i]);
      assert (a * b) * ys[i] == Weight(ys, inv, i) * b;
      CongAdd(InterpolationSum(g, ys, i), LagrangeSum(xs, ys, inv, i, 0),
              ProdSkip(g[i], i, |xs|) * ys[i], Weight(ys, inv, i) * b);
    }
  }

  /** Lagrange interpolation at 0: with points distinct in the field and the
      factors -x_j / (x_i - x_j), the interpolation sum is the value at 0 of
      any polynomial with at most |xs| coefficients through the points. */
  lemma LagrangeAtZero(g: seq<seq<int>>, xs: seq<int>, ys: seq<int>, inv: seq<seq<int>>, c: seq<int>)
    requires FactorTable(g, xs, inv) && InverseTable(xs, inv) && |ys| == |xs|
    requires |c| <= |xs|
    requires forall k :: 0 <= k < |xs| ==> Cong(ys[k], PolyValue(c, xs[k]))
    ensures Cong(InterpolationSum(g, ys, |xs|), PolyValue(c, 0))
  {
    InterpolationSumIsLagrangeSum(g, xs, ys, inv, |xs|);
    LagrangeSumIsValue(xs, ys, inv, c, 0);
  }
}
