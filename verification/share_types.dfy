/**
  The data of sss.h: a share is a point (x, y) of the secret polynomial.
  `get_shares` reports failure with -1 and otherwise falls off its end
  without a return value; the model gives it a result type instead.
 */
module ShareTypes {

  /** `share_t`: a point (x, y); y is meant to be f(x) mod SSS_P. */
  datatype Share = Share(x: int, y: int)

  /** The one failure `get_shares` reports: fewer shares requested than are
      needed to reconstruct. */
  datatype SharingError = TooFewShares

  datatype Result<T> = Ok(value: T) | Err(error: SharingError)

  /** The x coordinates of a list of shares. */
  function Xs(shares: seq<Share>): (xs: seq<int>)
    ensures |xs| == |shares|
    ensures forall k :: 0 <= k < |shares| ==> xs[k] == shares[k].x
  {
    seq(|shares|, k requires 0 <= k < |shares| => shares[k].x)
  }

  /** The y coordinates of a list of shares. */
  function Ys(shares: seq<Share>): (ys: seq<int>)
    ensures |ys| == |shares|
    ensures forall k :: 0 <= k < |shares| ==> ys[k] == shares[k].y
  {
    seq(|shares|, k requires 0 <= k < |shares| => shares[k].y)
  }
}
