/**
  The round trip the library exists for: split a secret with `get_shares`,
  hand any t or more distinct shares to `combine_shares`, and get the
  normalised secret back.
 */
module EndToEnd {
  import opened Modular
  import opened Polynomial
  import opened ShareTypes
  import opened ShareGenerator
  import opened Reconstructor

  /** The shares at the given positions, in the given order. */
  function Pick(shares: seq<Share>, picks: seq<int>): (chosen: seq<Share>)
    requires forall k :: 0 <= k < |picks| ==> 0 <= picks[k] < |shares|
    ensures |chosen| == |picks|
    ensures forall k :: 0 <= k < |picks| ==> chosen[k] == shares[picks[k]]
  {
    seq(|picks|, k requires 0 <= k < |picks| => shares[picks[k]])
  }

  /** `get_shares(secret, t, n, shares)` followed by `combine_shares` on the
      shares at positions `picks`: at least t of them, pairwise distinct,
      each below n. With n <= P the x's 1 .. n are distinct in the field,
      and the result is the secret reduced into [0, P). */
  method ShareAndReconstruct(secret: int, t: int, n: int, draws: seq<int>, picks: seq<int>)
    returns (recovered: int)
    requires 1 <= t <= n <= P
    requires forall k :: 0 <= k < |draws| ==> draws[k] >= 0
    requires t - 1 <= |NonzeroResidues(draws)|
    requires t <= |picks|
    requires forall k :: 0 <= k < |picks| ==> 0 <= picks[k] < n
    requires forall a, b :: 0 <= a < b < |picks| ==> picks[a] != picks[b]
    ensures recovered == secret % P
  {
    var r := GetShares(secret, t, n, draws);
    var shares := r.value;
    ghost var c := Coefficients(secret, t, draws);
    var chosen := Pick(shares, picks);
    CoefficientsShape(secret, t, draws);
    PickedSharesDetermineSecret(shares, c, n, picks);
    recovered := CombineShares(chosen);
    assert |c| <= |chosen| && OnPolynomial(c, chosen);
    assert recovered == PolyValue(c, 0) % P;
    SecretIsConstantTerm(secret, t, draws);
  }

  /** The polynomial's value at 0 is the normalised secret. */
  lemma SecretIsConstantTerm(secret: int, t: int, draws: seq<int>)
    requires 1 <= t && t - 1 <= |NonzeroResidues(draws)|
    ensures PolyValue(Coefficients(secret, t, draws), 0) == secret % P
    ensures PolyValue(Coefficients(secret, t, draws), 0) % P == secret % P
  {
    ValueAtZero(Coefficients(secret, t, draws));
  }

  /** Distinct positions among generated shares give points with
      non-negative coordinates, distinct in the field, on the polynomial. */
  lemma PickedSharesDetermineSecret(shares: seq<Share>, c: seq<int>, n: int, picks: seq<int>)
    requires SharesOf(shares, c, n) && n <= P
    requires forall k :: 0 <= k < |picks| ==> 0 <= picks[k] < n
    requires forall a, b :: 0 <= a < b < |picks| ==> picks[a] != picks[b]
    ensures NonNegativeXs(Pick(shares, picks)) && NonNegativeYs(Pick(shares, picks))
    ensures DistinctPoints(Pick(shares, picks))
    ensures OnPolynomial(c, Pick(shares, picks))
  {
    GeneratedSharesArePoints(shares, c, n);
    var chosen := Pick(shares, picks);
    forall a, b | 0 <= a < |chosen| && 0 <= b < |chosen| && a != b
      ensures chosen[a].x % P != chosen[b].x % P
    {
      if a < b {
        assert shares[picks[a]].x % P != shares[picks[b]].x % P;
      } else {
        assert shares[picks[b]].x % P != shares[picks[a]].x % P;
      }
    }
  }
}
