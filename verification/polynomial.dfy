/**
  Polynomials as coefficient sequences, lowest degree first, and
  `evaluate_poly` of sss.c. PolyValue is the exact integer sum
  c[0] + c[1]*x + ... ; the field value is its residue mod P.

  The second half is the algebra that reconstruction rests on: dividing out
  a root, and the fact that a polynomial with fewer coefficients than it has
  distinct roots in the field is zero everywhere in the field.
 */
module Polynomial {
  import opened CArith
  import opened Modular
  import opened FieldArithmetic

  /** Sum of c[i] * x^i over all coefficients. */
  function PolyValue(c: seq<int>, x: int): int
    decreases |c|
  {
    if |c| == 0 then 0 else PolyValue(c[..|c| - 1], x) + c[|c| - 1] * Pow(x, |c| - 1)
  }

  /** How many coefficients `evaluate_poly` reads for a given degree. */
  function TermCount(degree: int): nat
  {
    if degree >= 0 then degree + 1 else 0
  }

  /** The first n coefficients are non-negative. */
  predicate NonNegative(c: seq<int>, n: nat)
    requires n <= |c|
  {
    forall k :: 0 <= k < n ==> c[k] >= 0
  }

  /** `evaluate_poly(x, poly_coeffs, degree)`: accumulates
      `(poly_coeffs[i] * power(x, i)) % SSS_P` for i = 0 .. degree, reducing
      after each term. The result is the field value of the polynomial made
      of the first degree + 1 coefficients; for a non-negative point and
      non-negative coefficients it is that value reduced into [0, P). */
  method EvaluatePoly(x: int, coeffs: seq<int>, degree: int) returns (res: int)
    requires degree < |coeffs|
    ensures Cong(res, PolyValue(coeffs[..TermCount(degree)], x))
    ensures -P < res < P
    ensures x >= 0 && NonNegative(coeffs, TermCount(degree)) ==> res == PolyValue(coeffs[..TermCount(degree)], x) % P
  {
    ghost var nonNeg := x >= 0 && NonNegative(coeffs, TermCount(degree));
    res := 0;
    var i := 0;
    while i < degree + 1
      invariant 0 <= i <= TermCount(degree)
      invariant Cong(res, PolyValue(coeffs[..i], x))
      invariant -P < res < P
      invariant nonNeg ==> res == PolyValue(coeffs[..i], x) % P
    {
      var p := Power(x, i);
      assert coeffs[..i + 1][..i] == coeffs[..i];
      EvaluateStep(res, coeffs[i], p, x, i, PolyValue(coeffs[..i], x), nonNeg);
      res := res + CRem(coeffs[i] * p, P);
      res := CRem(res, P);
      i := i + 1;
    }
  }

  /** One round of the `evaluate_poly` loop adds the term c * x^i to the
      field value it has accumulated; with a reduced coefficient no
      intermediate leaves the int range. */
  lemma EvaluateStep(res: int, c: int, p: int, x: int, i: nat, acc: int, nonNeg: bool)
    requires Cong(res, acc) && -P < res < P
    requires Cong(p, Pow(x, i)) && -P < p < P
    requires nonNeg ==> c >= 0 && x >= 0 && p == Pow(x, i) % P && res == acc % P
    ensures Cong(CRem(res + CRem(c * p, P), P), acc + c * Pow(x, i))
    ensures -P < CRem(res + CRem(c * p, P), P) < P
    ensures nonNeg ==> CRem(res + CRem(c * p, P), P) == (acc + c * Pow(x, i)) % P
    ensures Abs(c) < P ==> FitsInt(c * p)
    ensures FitsInt(res + CRem(c * p, P))
  {
    if Abs(c) < P {
      ProductBound(c, p, P, P);
    }
    CongMul(c, c, p, Pow(x, i));
    CRemCong(c * p);
    var term := CRem(c * p, P);
    CongAdd(res, acc, term, c * Pow(x, i));
    CRemCong(res + term);
    if nonNeg {
      assert c * p >= 0;
    }
  }

  // ---------------------------------------------------------------------
  // Coefficient-sequence algebra

  function AddPoly(a: seq<int>, b: seq<int>): (r: seq<int>)
    requires |a| == |b|
    ensures |r| == |a|
  {
    seq(|a|, i requires 0 <= i < |a| => a[i] + b[i])
  }

  function ScalePoly(k: int, c: seq<int>): (r: seq<int>)
    ensures |r| == |c|
  {
    seq(|c|, i requires 0 <= i < |c| => k * c[i])
  }

  /** The coefficients of (X - a) * C(X). */
  function MulLinear(c: seq<int>, a: int): (r: seq<int>)
    ensures |r| == |c| + 1
  {
    AddPoly([0] + c, ScalePoly(-a, c + [0]))
  }

  /** `c` extended with zero coefficients up to length m. */
  function Pad(c: seq<int>, m: nat): (r: seq<int>)
    ensures |r| == if |c| <= m then m else |c|
  {
    if |c| >= m then c else c + seq(m - |c|, _ => 0)
  }

  /** The quotient of C(X) by (X - a) in synthetic division. */
  function Quotient(c: seq<int>, a: int): seq<int>
    decreases |c|
  {
    if |c| <= 1 then [] else [PolyValue(c[1..], a)] + Quotient(c[1..], a)
  }

  lemma {:induction false} PolyValueAdd(a: seq<int>, b: seq<int>, x: int)
    requires |a| == |b|
    ensures PolyValue(AddPoly(a, b), x) == PolyValue(a, x) + PolyValue(b, x)
    decreases |a|
  {
    if |a| > 0 {
      var n := |a| - 1;
      assert AddPoly(a, b)[..n] == AddPoly(a[..n], b[..n]);
      PolyValueAdd(a[..n], b[..n], x);
      assert (a[n] + b[n]) * Pow(x, n) == a[n] * Pow(x, n) + b[n] * Pow(x, n);
    }
  }

  lemma {:induction false} PolyValueScale(k: int, c: seq<int>, x: int)
    ensures PolyValue(ScalePoly(k, c), x) == k * PolyValue(c, x)
    decreases |c|
  {
    if |c| > 0 {
      var n := |c| - 1;
      assert ScalePoly(k, c)[..n] == ScalePoly(k, c[..n]);
      PolyValueScale(k, c[..n], x);
      assert k * c[n] * Pow(x, n) == k * (c[n] * Pow(x, n));
      assert k * PolyValue(c, x) == k * PolyValue(c[..n], x) + k * (c[n] * Pow(x, n));
    }
  }

  /** Horner's rule: the polynomial a + X * D(X). */
  lemma {:induction false} Horner(a: int, d: seq<int>, x: int)
    ensures PolyValue([a] + d, x) == a + x * PolyValue(d, x)
    decreases |d|
  {
    if |d| > 0 {
      var n := |d| - 1;
      assert ([a] + d)[..n + 1] == [a] + d[..n];
      Horner(a, d[..n], x);
      assert Pow(x, n + 1) == x * Pow(x, n);
      assert d[n] * Pow(x, n + 1) == x * (d[n] * Pow(x, n));
      assert x * PolyValue(d, x) == x * PolyValue(d[..n], x) + x * (d[n] * Pow(x, n));
    }
  }

  lemma PolyValueAppendZero(c: seq<int>, x: int)
    ensures PolyValue(c + [0], x) == PolyValue(c, x)
  {
    assert (c + [0])[..|c|] == c;
  }

  lemma {:induction false} PolyValuePad(c: seq<int>, m: nat, x: int)
    ensures PolyValue(Pad(c, m), x) == PolyValue(c, x)
    decreases m
  {
    if |c| < m {
      assert Pad(c, m) == Pad(c, m - 1) + [0];
      PolyValueAppendZero(Pad(c, m - 1), x);
      PolyValuePad(c, m - 1, x);
    }
  }

  lemma MulLinearValue(c: seq<int>, a: int, x: int)
    ensures PolyValue(MulLinear(c, a), x) == (x - a) * PolyValue(c, x)
  {
    PolyValueAdd([0] + c, ScalePoly(-a, c + [0]), x);
    Horner(0, c, x);
    PolyValueScale(-a, c + [0], x);
    PolyValueAppendZero(c, x);
    assert (x - a) * PolyValue(c, x) == x * PolyValue(c, x) + -a * PolyValue(c, x);
  }

  /** A constant polynomial takes its value everywhere. */
  lemma ConstantValue(v: int, x: int)
    ensures PolyValue([v], x) == v
  {
    assert [v][..0] == [];
    assert Pow(x, 0) == 1;
  }

  /** A polynomial's value at 0 is its constant coefficient. */
  lemma ValueAtZero(c: seq<int>)
    requires |c| > 0
    ensures PolyValue(c, 0) == c[0]
  {
    assert c == [c[0]] + c[1..];
    Horner(c[0], c[1..], 0);
  }

  /** Synthetic division: C(X) = C(a) + (X - a) * Q(X) with one coefficient
      fewer in Q. It holds over the integers, hence in the field. */
  lemma {:induction false} QuotientValue(c: seq<int>, a: int, x: int)
    requires |c| > 0
    ensures |Quotient(c, a)| == |c| - 1
    ensures PolyValue(c, x) == PolyValue(c, a) + (x - a) * PolyValue(Quotient(c, a), x)
    decreases |c|
  {
    var d := c[1..];
    assert c == [c[0]] + d;
    Horner(c[0], d, x);
    Horner(c[0], d, a);
    var vdx, vda := PolyValue(d, x), PolyValue(d, a);
    if |c| > 1 {
      var q := Quotient(d, a);
      QuotientValue(d, a, x);
      assert Quotient(c, a) == [vda] + q;
      Horner(vda, q, x);
      QuotientAlgebra(c[0], x, a, vdx, vda, PolyValue(q, x));
    } else {
      assert d == [];
      assert Quotient(c, a) == [];
    }
  }

  /** The arithmetic step of synthetic division: from D(x) = D(a) + (x - a) * Q(x)
      follows c + x * D(x) = (c + a * D(a)) + (x - a) * (D(a) + x * Q(x)). */
  lemma QuotientAlgebra(c: int, x: int, a: int, vdx: int, vda: int, vqx: int)
    requires vdx == vda + (x - a) * vqx
    ensures c + x * vdx == (c + a * vda) + (x - a) * (vda + x * vqx)
  {
    assert x * vdx == x * vda + x * ((x - a) * vqx);
    assert (x - a) * (vda + x * vqx) == (x - a) * vda + (x - a) * (x * vqx);
    assert x * ((x - a) * vqx) == (x - a) * (x * vqx);
  }

  // ---------------------------------------------------------------------
  // Roots

  /** `inv` holds, for every ordered pair of distinct indices, an inverse of
      the difference of the two points: the points are distinct in the field. */
  ghost predicate InverseTable(xs: seq<int>, inv: seq<seq<int>>)
  {
    && |inv| == |xs|
    && (forall i :: 0 <= i < |xs| ==> |inv[i]| == |xs|)
    && (forall i, j :: 0 <= i < |xs| && 0 <= j < |xs| && i != j ==>
          Cong(inv[i][j] * (xs[i] - xs[j]), 1))
  }

  /** A root of C(X) other than `a`, at a distance from `a` that has an
      inverse, is a root of the quotient of C(X) by (X - a). */
  lemma RootOfQuotient(c: seq<int>, a: int, y: int, inv: int)
    requires |c| > 0
    requires Cong(PolyValue(c, a), 0) && Cong(PolyValue(c, y), 0)
    requires Cong(inv * (y - a), 1)
    ensures Cong(PolyValue(Quotient(c, a), y), 0)
  {
    var w := PolyValue(Quotient(c, a), y);
    QuotientValue(c, a, y);
    CongDifference(PolyValue(c, y), PolyValue(c, a), (y - a) * w);
    CancelInvertible(y - a, w, inv);
  }

  /** A polynomial with at most n coefficients that vanishes in the field at
      n distinct points vanishes at every point. */
  lemma {:induction false} VanishingPolynomial(c: seq<int>, xs: seq<int>, inv: seq<seq<int>>, n: nat, z: int)
    requires InverseTable(xs, inv)
    requires |c| <= n <= |xs|
    requires forall k :: 0 <= k < n ==> Cong(PolyValue(c, xs[k]), 0)
    ensures Cong(PolyValue(c, z), 0)
    decreases n
  {
    if |c| > 0 {
      var a := xs[n - 1];
      var q := Quotient(c, a);
      QuotientValue(c, a, z);
      forall k | 0 <= k < n - 1
        ensures Cong(PolyValue(q, xs[k]), 0)
      {
        RootOfQuotient(c, a, xs[k], inv[k][n - 1]);
      }
      VanishingPolynomial(q, xs, inv, n - 1, z);
      var vq := PolyValue(q, z);
      CongMul(z - a, z - a, vq, 0);
      assert Cong(PolyValue(c, a), 0);
      CongAdd(PolyValue(c, a), 0, (z - a) * vq, (z - a) * 0);
    }
  }
}
