/**
  Field arithmetic of sss.c: the NEG_MOD macro, `power` and `mult_inverse`.
  The methods follow the C loops statement by statement, with every C `/` and
  `%` written as CDiv / CRem; their contracts relate them to the
  mathematical power and to the field inverse.
 */
module FieldArithmetic {
  import opened CArith
  import opened Modular

  /** Integer exponentiation, the reference for `power`. */
  function Pow(b: int, e: nat): int
  {
    if e == 0 then 1 else b * Pow(b, e - 1)
  }

  /** The NEG_MOD macro, `(v % SSS_P) + SSS_P` with C's `%`. It names the same
      field element as `v`; for `v <= 0` it lies in [1, P] and is P exactly
      when `v` is a multiple of P, so it is not always reduced. */
  function NegMod(v: int): (r: int)
    ensures Cong(r, v)
    ensures v <= 0 ==> 1 <= r <= P && r == P - (-v) % P
    ensures v >= 0 ==> P <= r < 2 * P
    ensures r == P <==> v % P == 0
  {
    CRemCong(v);
    CRem(v, P) + P
  }

  /** `power(base, p)`: starting from 1, `p` rounds each multiply by the base
      and reduce with C's `%`. A non-positive exponent gives 1 whatever the
      base, 0 included. For a non-negative base the result is base^p reduced
      into [0, P); for a negative base C's `%` can return a negative
      representative of the same element (an odd power of it, for instance). */
  method Power(base: int, p: int) returns (n: int)
    ensures p <= 0 ==> n == 1
    ensures Cong(n, Pow(base, if p > 0 then p else 0))
    ensures base >= 0 ==> n == Pow(base, if p > 0 then p else 0) % P
    ensures -P < n < P
  {
    n := 1;
    var e := p;
    ghost var done: nat := 0;
    while e > 0
      invariant e + done == p
      invariant p > 0 ==> e >= 0
      invariant p <= 0 ==> done == 0
      invariant done == 0 ==> n == 1
      invariant Cong(n, Pow(base, done))
      invariant -P < n < P
      invariant base >= 0 ==> n == Pow(base, done) % P
      decreases e
    {
      PowerStep(n, base, done);
      n := CRem(n * base, P);
      e := e - 1;
      done := done + 1;
    }
  }

  /** One round of the `power` loop multiplies the field value by the base. */
  lemma PowerStep(n: int, base: int, done: nat)
    requires Cong(n, Pow(base, done)) && -P < n < P
    requires base >= 0 ==> n == Pow(base, done) % P
    ensures Cong(CRem(n * base, P), Pow(base, done + 1))
    ensures -P < CRem(n * base, P) < P
    ensures base >= 0 ==> CRem(n * base, P) == Pow(base, done + 1) % P
  {
    var pw := Pow(base, done);
    assert Pow(base, done + 1) == base * pw;
    assert base * pw == pw * base;
    CongMul(n, pw, base, base);
    CRemCong(n * base);
    if base >= 0 {
      assert n >= 0;
      assert n * base >= 0;
    }
  }

  /** `mult_inverse(x)`: the extended Euclidean algorithm on (SSS_P, x).
      For `x` not a multiple of P the result is a nonzero field element that
      inverts `x`, or, when C's truncating division drives the remainders
      negative (only possible for `x < 0`), one that inverts `-x`. For a
      multiple of P (0 and P included) there is no inverse and the routine
      silently returns 0 instead of signalling an error. */
  method MultInverse(x: int) returns (inv: int)
    ensures 0 <= inv < P
    ensures x % P == 0 ==> inv == 0
    ensures x % P != 0 ==> inv != 0 && (Cong(inv * x, 1) || Cong(inv * x, -1))
    ensures x >= 0 && x % P != 0 ==> Cong(inv * x, 1)
  {
    var r, oldR := P, x;
    var s, oldS := 0, 1;
    var t, oldT := 1, 0;
    while r != 0
      invariant oldS * x + oldT * P == oldR
      invariant s * x + t * P == r
      invariant SameCommonDivisors(oldR, r, x)
      invariant x >= 0 ==> oldR >= 0 && r >= 0
      invariant x % P != 0 ==> oldR != 0
      invariant x % P == 0 ==> (r == P && oldR == x && s == 0 && oldS == 1) || (r == 0 && oldS == 0)
      decreases Abs(r)
    {
      var quotient := CDiv(oldR, r);
      EuclidStep(x, oldR, r, quotient, s, oldS, t, oldT);

      var tmp := r;
      r := oldR - quotient * r;
      oldR := tmp;

      tmp := s;
      s := oldS - quotient * s;
      oldS := tmp;

      tmp := t;
      t := oldT - quotient * t;
      oldT := tmp;
    }
    inv := if oldS >= 0 then CRem(oldS, P) else NegMod(oldS);
    if x % P != 0 {
      GcdIsUnit(x, oldR);
      InverseFromBezout(x, oldR, oldS, oldT, inv);
    }
  }

  /** The pair (a, b) has the same positive common divisors as (x, P). */
  ghost predicate SameCommonDivisors(a: int, b: int, x: int)
  {
    forall d :: Divides(d, a) && Divides(d, b) <==> Divides(d, x) && Divides(d, P)
  }

  /** One round of the Euclid loop keeps the two Bezout equations, the common
      divisors and the sign of the remainders, and shrinks the remainder. */
  lemma EuclidStep(x: int, oldR: int, r: int, q: int, s: int, oldS: int, t: int, oldT: int)
    requires r != 0 && q == CDiv(oldR, r)
    requires oldS * x + oldT * P == oldR
    requires s * x + t * P == r
    requires SameCommonDivisors(oldR, r, x)
    ensures (oldS - q * s) * x + (oldT - q * t) * P == oldR - q * r
    ensures SameCommonDivisors(r, oldR - q * r, x)
    ensures oldR - q * r == CRem(oldR, r)
    ensures Abs(oldR - q * r) < Abs(r)
    ensures oldR >= 0 ==> oldR - q * r >= 0
    ensures oldR % P == 0 && r == P ==> oldR - q * r == 0
  {
    BezoutStep(x, oldR, r, q, s, oldS, t, oldT);
    RemainderStep(oldR, r, q);
    DivisorsStep(x, oldR, r, q);
    if oldR % P == 0 && r == P {
      MultipleRemainder(oldR);
    }
  }

  /** `old_r - quotient * r` is C's remainder of old_r by r. */
  lemma RemainderStep(oldR: int, r: int, q: int)
    requires r != 0 && q == CDiv(oldR, r)
    ensures oldR - q * r == CRem(oldR, r)
    ensures Abs(oldR - q * r) < Abs(r)
    ensures oldR >= 0 ==> oldR - q * r >= 0
  {
    assert oldR == q * r + CRem(oldR, r);
  }

  /** Replacing (old_r, r) by (r, old_r - q * r) keeps the common divisors. */
  lemma DivisorsStep(x: int, oldR: int, r: int, q: int)
    requires SameCommonDivisors(oldR, r, x)
    ensures SameCommonDivisors(r, oldR - q * r, x)
  {
    forall d | Divides(d, r)
      ensures Divides(d, oldR) <==> Divides(d, oldR - q * r)
    {
      DividesStep(d, oldR, r, q);
    }
  }

  /** C's remainder of a multiple of P by P is 0. */
  lemma MultipleRemainder(a: int)
    requires a % P == 0
    ensures CRem(a, P) == 0
  {
    CRemCong(a);
  }

  /** The Bezout equations are linear, so subtracting q times the second
      from the first gives the equation for the new remainder. */
  lemma BezoutStep(x: int, oldR: int, r: int, q: int, s: int, oldS: int, t: int, oldT: int)
    requires oldS * x + oldT * P == oldR
    requires s * x + t * P == r
    ensures (oldS - q * s) * x + (oldT - q * t) * P == oldR - q * r
  {
    assert (oldS - q * s) * x == oldS * x - q * (s * x);
    assert (oldT - q * t) * P == oldT * P - q * (t * P);
    assert q * (s * x) + q * (t * P) == q * r;
  }

  /** When x is not a multiple of P, the last nonzero remainder of Euclid's
      algorithm on (x, P) is 1 or -1, because P is prime. */
  lemma GcdIsUnit(x: int, g: int)
    requires x % P != 0 && g != 0
    requires SameCommonDivisors(g, 0, x)
    ensures g == 1 || g == -1
  {
    var a := Abs(g);
    assert Divides(a, g) by {
      if g < 0 {
        DividesNegate(a, -g);
      }
    }
    assert Divides(a, 0);
    PrimeModulus(a);
  }

  /** The Bezout equation with gcd +-1 makes the reduced coefficient an
      inverse of x or of -x. */
  lemma InverseFromBezout(x: int, g: int, oldS: int, oldT: int, inv: int)
    requires x % P != 0
    requires g == 1 || g == -1
    requires oldS * x + oldT * P == g
    requires inv == if oldS >= 0 then CRem(oldS, P) else NegMod(oldS)
    ensures 0 < inv < P
    ensures Cong(inv * x, g)
  {
    BezoutCoefficient(x, g, oldS, oldT);
    if oldS >= 0 {
      ReducedCong(oldS);
    }
    CongMul(inv, oldS, x, x);
  }

  /** Reading the Bezout equation in the field: the coefficient of x times x
      is g, so the coefficient is not a multiple of P. */
  lemma BezoutCoefficient(x: int, g: int, oldS: int, oldT: int)
    requires g == 1 || g == -1
    requires oldS * x + oldT * P == g
    ensures Cong(oldS * x, g)
    ensures oldS % P != 0
  {
    ModAddMultiple(g, P, -oldT);
    assert oldS * x == g + P * -oldT;
    if oldS % P == 0 {
      CongMul(oldS, 0, x, x);
      assert false;
    }
  }
}
