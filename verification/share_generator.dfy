/**
  `get_shares` of sss.c: normalise the secret, draw the random coefficients
  of a polynomial whose constant term is the secret, and evaluate it at
  x = 1 .. n.

  The entropy source is a parameter: `draws` lists the successive values
  `random()` returns (non-negative, as random() promises). Seeding it from
  the clock is not modelled.
 */
module ShareGenerator {
  import opened CArith
  import opened Modular
  import opened Polynomial
  import opened ShareTypes

  /** The secret is reduced with C's remainder and, when that is negative,
      moved up by P. The result is the secret's residue in [0, P), so a
      negative secret -k (with k < P) is shared as P - k. */
  function NormaliseSecret(secret: int): (r: int)
    ensures r == secret % P
    ensures 0 <= r < P
    ensures -P < secret < 0 ==> r == P + secret
  {
    CRemCong(secret);
    var s := CRem(secret, P);
    if s < 0 then s + P else s
  }

  /** The residues mod P of the draws, in order, with every zero residue
      dropped: the values that survive the rejection loop that redraws
      while a coefficient comes out 0. */
  function NonzeroResidues(draws: seq<int>): (r: seq<int>)
    ensures |r| <= |draws|
    ensures forall k :: 0 <= k < |r| ==> 1 <= r[k] < P
    decreases |draws|
  {
    if |draws| == 0 then []
    else
      var rest := NonzeroResidues(draws[..|draws| - 1]);
      var v := draws[|draws| - 1] % P;
      if v != 0 then rest + [v] else rest
  }

  /** The polynomial `get_shares` builds: the normalised secret followed by
      the first t - 1 nonzero residues of the draws. */
  function Coefficients(secret: int, t: int, draws: seq<int>): seq<int>
    requires 1 <= t && t - 1 <= |NonzeroResidues(draws)|
  {
    [NormaliseSecret(secret)] + NonzeroResidues(draws)[..t - 1]
  }

  /** The coefficient loop: coefficient 0 is the (normalised) secret; each of
      coefficients 1 .. t-1 takes `random() % SSS_P`, drawing again while
      that is 0. The loop consumes the draws in order. */
  method DrawCoefficients(secret: int, t: int, draws: seq<int>) returns (coeffs: seq<int>)
    requires 1 <= t
    requires forall k :: 0 <= k < |draws| ==> draws[k] >= 0
    requires t - 1 <= |NonzeroResidues(draws)|
    ensures coeffs == [secret] + NonzeroResidues(draws)[..t - 1]
    ensures |coeffs| == t && coeffs[0] == secret
    ensures forall k :: 1 <= k < t ==> 1 <= coeffs[k] < P
  {
    coeffs := [secret];
    var next := 0;
    var i := 1;
    while i < t
      invariant 1 <= i <= t
      invariant 0 <= next <= |draws|
      invariant coeffs == [secret] + NonzeroResidues(draws[..next])
      invariant |NonzeroResidues(draws[..next])| == i - 1
    {
      var c := 0;
      while c == 0
        invariant 0 <= next <= |draws|
        invariant c == 0 ==> coeffs == [secret] + NonzeroResidues(draws[..next])
        invariant c != 0 ==> coeffs + [c] == [secret] + NonzeroResidues(draws[..next])
        invariant |NonzeroResidues(draws[..next])| == if c == 0 then i - 1 else i
        decreases |draws| - next
      {
        UnreadDrawsRemain(draws, next);
        NextDraw(draws, next);
        c := CRem(draws[next], P);
        next := next + 1;
      }
      coeffs := coeffs + [c];
      i := i + 1;
    }
    NonzeroResiduesPrefix(draws, next);
  }

  /** Reading one more draw appends its residue when that is nonzero. */
  lemma NextDraw(draws: seq<int>, k: nat)
    requires k < |draws| && draws[k] >= 0
    ensures CRem(draws[k], P) == draws[k] % P
    ensures NonzeroResidues(draws[..k + 1])
         == NonzeroResidues(draws[..k]) + (if draws[k] % P != 0 then [draws[k] % P] else [])
  {
    assert draws[..k + 1][..k] == draws[..k];
  }

  /** While fewer residues than all the draws give have been collected, a
      draw remains unread. */
  lemma UnreadDrawsRemain(draws: seq<int>, k: nat)
    requires k <= |draws|
    requires |NonzeroResidues(draws[..k])| < |NonzeroResidues(draws)|
    ensures k < |draws|
  {
    assert draws[..|draws|] == draws;
  }

  /** The nonzero residues of a prefix of the draws are a prefix of those of
      all the draws. */
  lemma {:induction false} NonzeroResiduesPrefix(draws: seq<int>, k: nat)
    requires k <= |draws|
    ensures |NonzeroResidues(draws[..k])| <= |NonzeroResidues(draws)|
    ensures NonzeroResidues(draws[..k]) == NonzeroResidues(draws)[..|NonzeroResidues(draws[..k])|]
    decreases |draws|
  {
    if k < |draws| {
      var init := draws[..|draws| - 1];
      assert init[..k] == draws[..k];
      NonzeroResiduesPrefix(init, k);
    } else {
      assert draws[..k] == draws;
    }
  }

  /** Shape of the polynomial: t coefficients, the secret's residue first,
      then nonzero field elements. */
  lemma CoefficientsShape(secret: int, t: int, draws: seq<int>)
    requires 1 <= t && t - 1 <= |NonzeroResidues(draws)|
    ensures |Coefficients(secret, t, draws)| == t
    ensures Coefficients(secret, t, draws)[0] == secret % P
    ensures forall k :: 1 <= k < t ==> 1 <= Coefficients(secret, t, draws)[k] < P
    ensures forall k :: 0 <= k < t ==> 0 <= Coefficients(secret, t, draws)[k] < P
  {
  }

  /** Secrets that agree mod P are shared with the same polynomial, so
      `get_shares(-5, ...)` and `get_shares(SSS_P - 5, ...)` agree on the same draws. */
  lemma SameResidueSamePolynomial(s1: int, s2: int, t: int, draws: seq<int>)
    requires 1 <= t && t - 1 <= |NonzeroResidues(draws)|
    requires s1 % P == s2 % P
    ensures Coefficients(s1, t, draws) == Coefficients(s2, t, draws)
  {
  }

  /** The shares are the points (i + 1, f(i + 1) mod P) for i = 0 .. n-1. */
  ghost predicate SharesOf(shares: seq<Share>, c: seq<int>, n: int)
  {
    && |shares| == n
    && forall i :: 0 <= i < |shares| ==> shares[i] == Share(i + 1, PolyValue(c, i + 1) % P)
  }

  /** `get_shares(secret, t, n, shares)`: fails with TooFewShares, producing
      nothing, exactly when n < t; otherwise returns the n points
      (i + 1, f(i + 1) mod P) of the polynomial Coefficients(secret, t, draws). */
  method GetShares(secret: int, t: int, n: int, draws: seq<int>) returns (r: Result<seq<Share>>)
    requires 1 <= t
    requires forall k :: 0 <= k < |draws| ==> draws[k] >= 0
    requires n >= t ==> t - 1 <= |NonzeroResidues(draws)|
    ensures r.Err? <==> n < t
    ensures r.Err? ==> r.error == TooFewShares
    ensures r.Ok? ==> SharesOf(r.value, Coefficients(secret, t, draws), n)
  {
    if n < t {
      return Err(TooFewShares);
    }
    var s := NormaliseSecret(secret);
    var coeffs := DrawCoefficients(s, t, draws);
    var shares: seq<Share> := [];
    var i := 0;
    while i < n
      invariant 0 <= i <= n
      invariant SharesOf(shares, coeffs, i)
    {
      assert coeffs[..TermCount(t - 1)] == coeffs;
      var y := EvaluatePoly(i + 1, coeffs, t - 1);
      shares := shares + [Share(i + 1, y)];
      i := i + 1;
    }
    return Ok(shares);
  }

  /** The x coordinates of generated shares are 1 .. n: nonzero, pairwise
      distinct, and, when n <= P, pairwise distinct in the field; every y is
      a reduced field element on the polynomial. */
  lemma GeneratedSharesArePoints(shares: seq<Share>, c: seq<int>, n: int)
    requires SharesOf(shares, c, n)
    ensures forall i :: 0 <= i < |shares| ==> shares[i].x == i + 1 && 0 <= shares[i].y < P
    ensures forall i, j :: 0 <= i < j < |shares| ==> shares[i].x != shares[j].x
    ensures n <= P ==> forall i, j :: 0 <= i < j < |shares| ==> shares[i].x % P != shares[j].x % P
    ensures forall i :: 0 <= i < |shares| ==> Cong(shares[i].y, PolyValue(c, shares[i].x))
  {
    forall i | 0 <= i < |shares|
      ensures Cong(shares[i].y, PolyValue(c, shares[i].x))
    {
      ReducedCong(PolyValue(c, i + 1));
    }
    if n <= P {
      forall i, j | 0 <= i < j < |shares|
        ensures shares[i].x % P != shares[j].x % P
      {
        DistinctSmallResidues(i + 1, j + 1);
      }
    }
  }

  /** Distinct numbers in [1, P] are distinct in the field. */
  lemma DistinctSmallResidues(a: int, b: int)
    requires 1 <= a < b <= P
    ensures a % P != b % P
  {
    assert a % P == a;
    if b < P {
      assert b % P == b;
    } else {
      assert b % P == 0;
    }
  }
}
