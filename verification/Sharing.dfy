/** What a share of the secret reveals: t shares fix the polynomial, t - 1 shares fit every secret. */
module Sharing {
  import opened Modular
  import opened Curve
  import opened Polynomial
  import opened Lagrange
  import opened Frost

  lemma IndicesApart(q: Modulus, indices: seq<uint32>)
    requires TWO_32 < q && Distinct(indices)
    ensures Apart(q, indices)
  {
    hide Mod;
    forall i, j | 0 <= i < j < |indices| ensures Mod(q, indices[i]) != Mod(q, indices[j]) {
      ModSmall(q, indices[i]);
      ModSmall(q, indices[j]);
    }
  }

  /** As many shares as coefficients fix the polynomial. */
  lemma SharesFixPolynomial(q: Modulus, indices: seq<uint32>, cs: seq<int>, ds: seq<int>)
    requires Prime(q) && TWO_32 < q && Distinct(indices) && |cs| == |ds| == |indices|
    requires Reduced(q, cs) && Reduced(q, ds)
    requires forall i | i in indices :: Mod(q, Eval(cs, i)) == Mod(q, Eval(ds, i))
    ensures cs == ds
  {
    hide Mod, Prime, Eval;
    IndicesApart(q, indices);
    var values := seq(|indices|, k requires 0 <= k < |indices| => Eval(cs, indices[k]));
    FitIsUnique(q, cs, ds, indices, values);
  }

  /** The polynomials of one coefficient more than there are shares that take these values at these
      indices and the claimed secret at zero. */
  ghost predicate Explains(q: Modulus, cs: seq<int>, indices: seq<uint32>, values: seq<int>, secret: int)
    requires |indices| == |values|
  {
    && |cs| == |indices| + 1 && Reduced(q, cs)
    && Mod(q, Eval(cs, 0)) == Mod(q, secret)
    && forall k | 0 <= k < |indices| :: Mod(q, Eval(cs, indices[k])) == Mod(q, values[k])
  }

  /** One share fewer than the threshold fits every claimed secret, in exactly one way: such shares
      say nothing about the secret. */
  lemma SharesHideSecret(q: Modulus, indices: seq<uint32>, values: seq<int>, secret: int) returns (cs: seq<int>)
    requires Prime(q) && TWO_32 < q && Distinct(indices) && 0 !in indices && |values| == |indices|
    ensures Explains(q, cs, indices, values, secret)
    ensures forall ds | Explains(q, ds, indices, values, secret) :: ds == cs
  {
    hide Mod, Prime, Eval;
    var zero: seq<uint32> := [0];
    var points, targets := zero + indices, [secret] + values;
    IndicesApart(q, points);
    cs := FitExists(q, points, targets);
    FitsMeansExplains(q, cs, indices, values, secret);
    forall ds | Explains(q, ds, indices, values, secret) ensures ds == cs {
      FitsMeansExplains(q, ds, indices, values, secret);
      FitIsUnique(q, ds, cs, points, targets);
    }
  }

  lemma FitsMeansExplains(q: Modulus, cs: seq<int>, indices: seq<uint32>, values: seq<int>, secret: int)
    requires |indices| == |values| && |cs| == |indices| + 1 && Reduced(q, cs)
    ensures Explains(q, cs, indices, values, secret) <==> Fits(q, cs, [0] + indices, [secret] + values)
  {
    hide Mod, Eval;
    var points, targets := [0] + indices, [secret] + values;
    if Fits(q, cs, points, targets) {
      assert Mod(q, Eval(cs, points[0])) == Mod(q, targets[0]);
      forall k | 0 <= k < |indices| ensures Mod(q, Eval(cs, indices[k])) == Mod(q, values[k]) {
        assert points[k + 1] == indices[k] && targets[k + 1] == values[k];
      }
    }
  }
}
