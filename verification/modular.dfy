/**
  Arithmetic modulo the field prime SSS_P: congruence, divisibility and the
  primality of the modulus. Everything here is about mathematical integers;
  the C operators live in CArith.
 */
module Modular {
  import opened CArith

  /** The field modulus, 2^15 - 19. Small enough that the product of two
      field elements fits a 32-bit `int`. */
  const P: int := 32749

  /** `a` and `b` denote the same field element. */
  predicate Cong(a: int, b: int)
  {
    a % P == b % P
  }

  /** `d` is a positive divisor of `a`. */
  predicate Divides(d: int, a: int)
  {
    d > 0 && a % d == 0
  }

  // ---------------------------------------------------------------------
  // Congruence

  lemma CongAdd(a: int, a2: int, b: int, b2: int)
    requires Cong(a, a2) && Cong(b, b2)
    ensures Cong(a + b, a2 + b2)
  {
  }

  lemma CongMul(a: int, a2: int, b: int, b2: int)
    requires Cong(a, a2) && Cong(b, b2)
    ensures Cong(a * b, a2 * b2)
  {
    var ka := a / P - a2 / P;
    var kb := b / P - b2 / P;
    assert a == a2 + P * ka;
    assert b == b2 + P * kb;
    var k := MultipleProduct(a2, ka, b2, kb, P);
    assert a * b == a2 * b2 + P * k;
    ModAddMultiple(a2 * b2, P, k);
  }

  /** (a + m*ka) * (b + m*kb) differs from a * b by a multiple of m. */
  lemma MultipleProduct(a: int, ka: int, b: int, kb: int, m: int) returns (k: int)
    ensures (a + m * ka) * (b + m * kb) == a * b + m * k
  {
    k := ka * b + a * kb + m * ka * kb;
  }

  /** A C remainder by P names the same field element as its dividend. */
  lemma CRemCong(a: int)
    ensures Cong(CRem(a, P), a)
  {
    assert CRem(a, P) == a - P * CDiv(a, P);
  }

  /** Reducing mod P keeps the field element. */
  lemma ReducedCong(a: int)
    ensures Cong(a % P, a)
  {
    var r := a % P;
    assert 0 <= r < P;
    assert r % P == r;
  }

  /** If u = v + s and u, v are zero in the field, so is s. */
  lemma CongDifference(u: int, v: int, s: int)
    requires u == v + s
    requires Cong(u, 0) && Cong(v, 0)
    ensures Cong(s, 0)
  {
  }

  /** Cancelling an invertible factor: if u has an inverse and u*w is zero
      in the field, then w is. */
  lemma CancelInvertible(u: int, w: int, inv: int)
    requires Cong(inv * u, 1)
    requires Cong(u * w, 0)
    ensures Cong(w, 0)
  {
    CongMul(inv * u, 1, w, w);
    CongMul(inv, inv, u * w, 0);
    assert (inv * u) * w == inv * (u * w);
  }

  // ---------------------------------------------------------------------
  // Divisibility (for any positive divisor)

  lemma MulAtLeast(d: int, m: int)
    requires d > 0 && m >= 1
    ensures d * m >= d
  {
    assert d * m == d + d * (m - 1);
  }

  lemma ModAddMultiple(a: int, d: int, k: int)
    requires d > 0
    ensures (a + d * k) % d == a % d
  {
    var u := a + d * k;
    var m := a / d + k - u / d;
    assert u % d - a % d == d * m;
    if m >= 1 {
      MulAtLeast(d, m);
    } else if m <= -1 {
      MulAtLeast(d, -m);
    }
  }

  /** Subtracting a multiple of a common divisor keeps it a divisor:
      the step of Euclid's algorithm preserves the common divisors. */
  lemma DividesStep(d: int, a: int, b: int, q: int)
    requires Divides(d, b)
    ensures Divides(d, a) <==> Divides(d, a - q * b)
  {
    var kb := b / d;
    assert b == d * kb;
    assert a - q * b == a + d * (-q * kb);
    ModAddMultiple(a, d, -q * kb);
  }

  lemma DividesMultiple(d: int, k: int)
    requires d > 0
    ensures Divides(d, d * k)
  {
    ModAddMultiple(0, d, k);
  }

  lemma DividesNegate(d: int, a: int)
    requires Divides(d, a)
    ensures Divides(d, -a)
  {
    assert -a == d * -(a / d);
    DividesMultiple(d, -(a / d));
  }

  /** A positive number's divisors are no larger than it. */
  lemma DividesBound(d: int, a: int)
    requires Divides(d, a) && a > 0
    ensures d <= a
  {
    var k := a / d;
    assert a == d * k;
    if k > 0 {
      MulAtLeast(d, k);
    }
  }

  // ---------------------------------------------------------------------
  // Primality of P

  /** No d in [2, hi] divides P. */
  predicate NoDivisorUpTo(hi: int)
    decreases hi
  {
    hi < 2 || (P % hi != 0 && NoDivisorUpTo(hi - 1))
  }

  lemma {:induction false} NoDivisorUpToSound(hi: int, d: int)
    requires NoDivisorUpTo(hi)
    requires 2 <= d <= hi
    ensures P % d != 0
    decreases hi
  {
    if d < hi {
      NoDivisorUpToSound(hi - 1, d);
    }
  }

  /** Trial division up to 181, the integer square root of P, in four
      stretches so that each proof unfolds NoDivisorUpTo a bounded number
      of times. */
  lemma TrialDivision45()
    ensures NoDivisorUpTo(45)
  {
    assert NoDivisorUpTo(5);
    assert NoDivisorUpTo(10);
    assert NoDivisorUpTo(15);
    assert NoDivisorUpTo(20);
    assert NoDivisorUpTo(25);
    assert NoDivisorUpTo(30);
    assert NoDivisorUpTo(35);
    assert NoDivisorUpTo(40);
    assert NoDivisorUpTo(45);
  }

  lemma TrialDivision90()
    ensures NoDivisorUpTo(90)
  {
    TrialDivision45();
    assert NoDivisorUpTo(50);
    assert NoDivisorUpTo(55);
    assert NoDivisorUpTo(60);
    assert NoDivisorUpTo(65);
    assert NoDivisorUpTo(70);
    assert NoDivisorUpTo(75);
    assert NoDivisorUpTo(80);
    assert NoDivisorUpTo(85);
    assert NoDivisorUpTo(90);
  }

  lemma TrialDivision135()
    ensures NoDivisorUpTo(135)
  {
    TrialDivision90();
    assert NoDivisorUpTo(95);
    assert NoDivisorUpTo(100);
    assert NoDivisorUpTo(105);
    assert NoDivisorUpTo(110);
    assert NoDivisorUpTo(115);
    assert NoDivisorUpTo(120);
    assert NoDivisorUpTo(125);
    assert NoDivisorUpTo(130);
    assert NoDivisorUpTo(135);
  }

  lemma TrialDivision181()
    ensures NoDivisorUpTo(181)
  {
    TrialDivision135();
    assert NoDivisorUpTo(140);
    assert NoDivisorUpTo(145);
    assert NoDivisorUpTo(150);
    assert NoDivisorUpTo(155);
    assert NoDivisorUpTo(160);
    assert NoDivisorUpTo(165);
    assert NoDivisorUpTo(170);
    assert NoDivisorUpTo(175);
    assert NoDivisorUpTo(180);
  }

  /** P is prime: its only positive divisors are 1 and P. */
  lemma PrimeModulus(d: int)
    requires Divides(d, P)
    ensures d == 1 || d == P
  {
    DividesBound(d, P);
    if 1 < d < P {
      TrialDivision181();
      if d <= 181 {
        NoDivisorUpToSound(181, d);
      } else {
        var q := P / d;
        assert P == d * q;
        if q >= 2 {
          assert 182 * q <= d * q by {
            assert d * q - 182 * q == (d - 182) * q;
            MulAtLeast(q, d - 182 + 1);
          }
          assert P == q * d;
          DividesMultiple(q, d);
          NoDivisorUpToSound(181, q);
        }
      }
    }
  }
}
