/**
  The C integer operators the source relies on. Dafny's `/` and `%` are
  Euclidean (the remainder is never negative); C's `/` truncates toward zero
  and its `%` takes the sign of the dividend. Every `/` and `%` of the source
  is modelled with CDiv and CRem so that negative operands behave as in C.
 */
module CArith {

  function Abs(a: int): nat
  {
    if a < 0 then -a else a
  }

  /** C's `a / b`: the mathematical quotient rounded toward zero. Its sign
      is the sign of the exact quotient, it is 0 when the dividend is smaller
      in size than the divisor, and it agrees with Dafny's `/` when both
      operands are non-negative. */
  function CDiv(a: int, b: int): (r: int)
    requires b != 0
    ensures (a < 0) == (b < 0) ==> r >= 0
    ensures (a < 0) != (b < 0) ==> r <= 0
    ensures Abs(a) < Abs(b) ==> r == 0
    ensures a >= 0 && b > 0 ==> r == a / b
  {
    DivOfNatural(Abs(a), Abs(b));
    var q := Abs(a) / Abs(b);
    if (a < 0) == (b < 0) then q else -q
  }

  /** Euclidean division of a natural number by a positive one gives a
      natural quotient, and 0 for a smaller dividend. */
  lemma DivOfNatural(x: int, y: int)
    requires x >= 0 && y > 0
    ensures x / y >= 0
    ensures x < y ==> x / y == 0
  {
  }

  /** Rounding toward zero: `CDiv(a, b) * b` never exceeds `a` in size and
      falls short of it by less than one divisor, whatever the signs. */
  lemma CDivTruncates(a: int, b: int)
    requires b != 0
    ensures Abs(CDiv(a, b) * b) <= Abs(a) < Abs(CDiv(a, b) * b) + Abs(b)
    ensures Abs(CDiv(a, b) * b) == Abs(CDiv(a, b)) * Abs(b)
  {
    var q := Abs(a) / Abs(b);
    DivOfNatural(Abs(a), Abs(b));
    assert Abs(a) == q * Abs(b) + Abs(a) % Abs(b);
    assert Abs(CDiv(a, b)) == q;
    AbsProduct(CDiv(a, b), b);
  }

  /** The size of a product is the product of the sizes. */
  lemma AbsProduct(a: int, b: int)
    ensures Abs(a * b) == Abs(a) * Abs(b)
  {
    if a < 0 && b >= 0 {
      assert a * b == -((-a) * b);
    } else if a >= 0 && b < 0 {
      assert a * b == -(a * (-b));
    } else if a < 0 && b < 0 {
      assert a * b == (-a) * (-b);
    }
  }

  /** C's `a % b`: what is left after subtracting CDiv(a, b) copies of `b`,
      so that `(a / b) * b + a % b == a` holds as the C standard demands. */
  function CRem(a: int, b: int): (r: int)
    requires b != 0
    ensures a == CDiv(a, b) * b + r
    ensures Abs(r) < Abs(b)
    ensures a >= 0 ==> r >= 0
    ensures a <= 0 ==> r <= 0
    ensures a >= 0 && b > 0 ==> r == a % b
  {
    var q, m := Abs(a) / Abs(b), Abs(a) % Abs(b);
    assert Abs(a) == q * Abs(b) + m;
    assert (if (a < 0) == (b < 0) then q else -q) * b == (if a < 0 then -(q * Abs(b)) else q * Abs(b));
    if a < 0 then -m else m
  }

  /** The range of the C `int` the source computes in, 32 bits wide on the
      platforms it targets. */
  const IntMin: int := -0x8000_0000
  const IntMax: int := 0x7fff_ffff

  predicate FitsInt(v: int)
  {
    IntMin <= v <= IntMax
  }

  /** Bounds on the factors bound the product. */
  lemma ProductBound(a: int, b: int, ma: int, mb: int)
    requires Abs(a) <= ma && Abs(b) <= mb
    ensures Abs(a * b) <= ma * mb
  {
    assert Abs(a * b) == Abs(a) * Abs(b);
    assert Abs(a) * Abs(b) <= ma * Abs(b);
    assert ma * Abs(b) <= ma * mb;
  }
}
