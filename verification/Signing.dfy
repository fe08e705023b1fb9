/** FROST signing: binding factors, partial signatures, aggregation, the Taproot tweak and BIP-340
    verification. */
module Signing {
  import opened Wrappers
  import opened Modular
  import opened Curve
  import opened Lagrange
  import opened Bytes
  import Frost

  type uint32 = Frost.uint32
  type Message = Bytes

  datatype Error = SignerNotInSession | NoCommitment | NoPartials

  /** The hash functions, uninterpreted; their digests are reduced into the scalar field. */
  datatype Hashes = Hashes(
    binding: (nat, Message, seq<(int, int)>) -> nat,
    challenge: (int, int, Message) -> nat,
    tapTweak: int -> nat)

  datatype NonceSecret = NonceSecret(d: int, e: int)

  datatype NonceCommitment = NonceCommitment(index: uint32, D: Point, E: Point)

  datatype PartialSignature = PartialSignature(index: uint32, z: int)

  datatype Session = Session(
    message: Message, groupKey: Point, commitments: seq<NonceCommitment>, signers: seq<uint32>)

  ghost predicate ValidNonce(q: Modulus, n: NonceSecret) {
    0 < n.d < q && 0 < n.e < q
  }

  /** The random nonces are an input: neither is zero, so both commitments are public keys. */
  method GenerateNonce(c: Curve, index: uint32, random: NonceSecret) returns (commitment: NonceCommitment)
    requires Valid(c) && ValidNonce(c.q, random)
    ensures commitment == CommitNonce(c, index, random)
    ensures ToPublicKey(c, commitment.D) == Some(commitment.D) && ToPublicKey(c, commitment.E) == Some(commitment.E)
  {
    hide Valid, Mul, ToPublicKey, OnCurve;
    ModSmall(c.q, random.d);
    ModSmall(c.q, random.e);
    commitment := NonceCommitment(index, Mul(c, random.d, c.g), Mul(c, random.e, c.g));
    GenIsPublicKey(c, random.d);
    GenIsPublicKey(c, random.e);
  }

  function CommitNonce(c: Curve, index: uint32, n: NonceSecret): NonceCommitment {
    NonceCommitment(index, Gen(c, n.d), Gen(c, n.e))
  }

  lemma GenIsPublicKey(c: Curve, k: int)
    requires Valid(c) && Mod(c.q, k) != 0
    ensures ToPublicKey(c, Gen(c, k)) == Some(Gen(c, k))
  {
    hide *;
    GenOnCurve(c, k);
    GenZero(c, k);
    PublicKeyRoundTrip(c, Gen(c, k));
  }

  // ----- Sorting the commitments -----

  ghost predicate SortedByIndex(cs: seq<NonceCommitment>) {
    forall i, j | 0 <= i < j < |cs| :: cs[i].index <= cs[j].index
  }

  ghost predicate IsSortOf(sorted: seq<NonceCommitment>, cs: seq<NonceCommitment>) {
    SortedByIndex(sorted) && multiset(sorted) == multiset(cs)
  }

  ghost predicate DistinctIndices(cs: seq<NonceCommitment>) {
    forall i, j | 0 <= i < j < |cs| :: cs[i].index != cs[j].index
  }

  /** The library's sort promises a sorted permutation, and no order among equal indices. */
  method SortCommitments(cs: seq<NonceCommitment>) returns (sorted: seq<NonceCommitment>)
    ensures IsSortOf(sorted, cs)
  {
    sorted := [];
    for i := 0 to |cs|
      invariant IsSortOf(sorted, cs[..i])
    {
      sorted := InsertSorted(sorted, cs[i]);
      assert cs[..i + 1] == cs[..i] + [cs[i]];
    }
    assert cs[..|cs|] == cs;
  }

  method InsertSorted(cs: seq<NonceCommitment>, x: NonceCommitment) returns (r: seq<NonceCommitment>)
    requires SortedByIndex(cs)
    ensures SortedByIndex(r) && multiset(r) == multiset(cs) + multiset{x}
  {
    var k := |cs|;
    while k > 0 && cs[k - 1].index > x.index
      invariant 0 <= k <= |cs|
      invariant forall j | k <= j < |cs| :: cs[j].index > x.index
    {
      k := k - 1;
    }
    InsertKeeps(cs, x, k);
    r := cs[..k] + [x] + cs[k..];
  }

  lemma InsertKeeps(cs: seq<NonceCommitment>, x: NonceCommitment, k: nat)
    requires SortedByIndex(cs) && k <= |cs|
    requires k > 0 ==> cs[k - 1].index <= x.index
    requires forall j | k <= j < |cs| :: cs[j].index > x.index
    ensures SortedByIndex(cs[..k] + [x] + cs[k..])
    ensures multiset(cs[..k] + [x] + cs[k..]) == multiset(cs) + multiset{x}
  {
    InsertMultiset(cs, x, k);
    var r := cs[..k] + [x] + cs[k..];
    forall i, j | 0 <= i < j < |r| ensures r[i].index <= r[j].index {
      assert r[i] == if i < k then cs[i] else if i == k then x else cs[i - 1];
      assert r[j] == if j < k then cs[j] else if j == k then x else cs[j - 1];
    }
  }

  lemma InsertMultiset<T>(cs: seq<T>, x: T, k: nat)
    requires k <= |cs|
    ensures multiset(cs[..k] + [x] + cs[k..]) == multiset(cs) + multiset{x}
  {
    assert cs == cs[..k] + cs[k..];
  }

  // ----- Binding factors and the aggregate nonce -----

  function XOnly(cs: seq<NonceCommitment>): (xs: seq<(int, int)>)
    ensures |xs| == |cs| && forall k | 0 <= k < |cs| :: xs[k] == (XOf(cs[k].D), XOf(cs[k].E))
  {
    if cs == [] then [] else [(XOf(cs[0].D), XOf(cs[0].E))] + XOnly(cs[1..])
  }

  function BindingFactor(c: Curve, h: Hashes, index: nat, message: Message, sorted: seq<NonceCommitment>): (rho: int)
    ensures 0 <= rho < c.q
  {
    Mod(c.q, h.binding(index, message, XOnly(sorted)))
  }

  /** What the binding factor hashes: the index, the message, and every commitment's two
      x-coordinates, in order. */
  ghost predicate AreXOnly(cs: seq<NonceCommitment>, xs: seq<(int, int)>) {
    |xs| == |cs| && forall k | 0 <= k < |cs| :: xs[k] == (XOf(cs[k].D), XOf(cs[k].E))
  }

  lemma BindingHash(c: Curve, h: Hashes, index: nat, message: Message, sorted: seq<NonceCommitment>,
      xs: seq<(int, int)>)
    requires AreXOnly(sorted, xs)
    ensures BindingFactor(c, h, index, message, sorted) == Mod(c.q, h.binding(index, message, xs))
  {
    assert xs == XOnly(sorted);
  }

  method ComputeBindingFactors(c: Curve, h: Hashes, message: Message, sorted: seq<NonceCommitment>)
    returns (factors: map<uint32, int>)
    ensures forall k | 0 <= k < |sorted| :: sorted[k].index in factors
    ensures forall i | i in factors :: factors[i] == BindingFactor(c, h, i, message, sorted)
    ensures forall xs, i | AreXOnly(sorted, xs) && i in factors :: factors[i] == Mod(c.q, h.binding(i, message, xs))
  {
    hide Mod;
    factors := map[];
    for k := 0 to |sorted|
      invariant forall j | 0 <= j < k :: sorted[j].index in factors
      invariant forall i | i in factors :: factors[i] == BindingFactor(c, h, i, message, sorted)
    {
      factors := factors[sorted[k].index := BindingFactor(c, h, sorted[k].index, message, sorted)];
    }
    forall xs, i | AreXOnly(sorted, xs) && i in factors ensures factors[i] == Mod(c.q, h.binding(i, message, xs)) {
      BindingHash(c, h, i, message, sorted, xs);
    }
  }

  /** The sum of D + rho * E over the commitments in cs; every rho hashes all of sorted. */
  function NoncePoint(c: Curve, h: Hashes, message: Message, sorted: seq<NonceCommitment>,
      cs: seq<NonceCommitment>): Point {
    if cs == [] then Infinity else
      var last := cs[|cs| - 1];
      var rho := BindingFactor(c, h, last.index, message, sorted);
      c.add(NoncePoint(c, h, message, sorted, cs[..|cs| - 1]), c.add(last.D, Mul(c, rho, last.E)))
  }

  method AggregateNonce(c: Curve, h: Hashes, message: Message, sorted: seq<NonceCommitment>, factors: map<uint32, int>)
    returns (point: Point)
    requires forall k | 0 <= k < |sorted| :: sorted[k].index in factors
    requires forall i | i in factors :: factors[i] == BindingFactor(c, h, i, message, sorted)
    ensures point == NoncePoint(c, h, message, sorted, sorted)
  {
    point := Infinity;
    for k := 0 to |sorted|
      invariant point == NoncePoint(c, h, message, sorted, sorted[..k])
    {
      assert sorted[..k + 1][..k] == sorted[..k];
      var cm := sorted[k];
      var term := c.add(cm.D, Mul(c, factors[cm.index], cm.E));
      point := c.add(point, term);
    }
    assert sorted[..|sorted|] == sorted;
  }

  // ----- Lagrange coefficient -----

  method LagrangeCoefficient(q: Modulus, i: uint32, signers: seq<uint32>) returns (weight: int)
    ensures weight == Weight(q, i, signers)
  {
    weight := 1;
    var negated: int := i;
    assert Weight(q, i, []) == 1;
    hide Mod, Inverse, Weight;
    for k := 0 to |signers|
      invariant weight == Weight(q, i, signers[..k])
    {
      assert signers[..k + 1][..k] == signers[..k];
      WeightLast(q, i, signers[..k + 1]);
      var j := signers[k];
      if j != i {
        var num := Mod(q, j);
        var denom := Mod(q, num + Mod(q, -negated));
        var term := Mod(q, num * Inverse(q, denom));
        ReducedRatio(q, j, i);
        weight := Mod(q, weight * term);
      }
    }
    assert signers[..|signers|] == signers;
  }

  lemma ReducedRatio(q: Modulus, j: int, i: int)
    ensures Mod(q, Mod(q, j) * Inverse(q, Mod(q, Mod(q, j) + Mod(q, -i)))) == Mod(q, j * Inverse(q, j - i))
  {
    assert Inverse(q, Mod(q, j - i)) == Inverse(q, j - i) by { ModMod(q, j - i); }
    hide *;
    ModSum(q, j, -i);
    ModProduct(q, j, Inverse(q, j - i));
  }

  // ----- Partial signatures -----

  function Challenge(c: Curve, h: Hashes, r: Point, key: Point, message: Message): (e: int)
    ensures 0 <= e < c.q
  {
    Mod(c.q, h.challenge(XOf(r), XOf(key), message))
  }

  function Signed(odd: bool): int {
    if odd then -1 else 1
  }

  /** A signer's two nonces bound together: d + e * rho. */
  function Bound(c: Curve, h: Hashes, message: Message, sorted: seq<NonceCommitment>, i: nat, nonce: NonceSecret): int {
    nonce.d + Times(nonce.e, BindingFactor(c, h, i, message, sorted))
  }

  /** z = ±(d + e * rho) + weight * share * challenge, with the sign that makes R even. */
  function PartialScalar(c: Curve, h: Hashes, s: Session, sorted: seq<NonceCommitment>, i: nat, share: int,
      nonce: NonceSecret): (z: int)
    ensures 0 <= z < c.q
  {
    var r := NoncePoint(c, h, s.message, sorted, sorted);
    Mod(c.q, Times(Signed(IsOdd(r)), Bound(c, h, s.message, sorted, i, nonce))
      + Times(Challenge(c, h, r, s.groupKey, s.message), Times(Weight(c.q, i, s.signers), share)))
  }

  lemma PartialScalarIs(c: Curve, h: Hashes, s: Session, sorted: seq<NonceCommitment>, i: nat, share: int,
      nonce: NonceSecret)
    ensures var r := NoncePoint(c, h, s.message, sorted, sorted);
      var rho := BindingFactor(c, h, i, s.message, sorted);
      PartialScalar(c, h, s, sorted, i, share, nonce) == Mod(c.q, Signed(IsOdd(r)) * (nonce.d + nonce.e * rho)
        + Challenge(c, h, r, s.groupKey, s.message) * (Weight(c.q, i, s.signers) * share))
  {
    hide Mod, NoncePoint, Weight, Challenge, BindingFactor, Signed, IsOdd;
    var r, weight := NoncePoint(c, h, s.message, sorted, sorted), Weight(c.q, i, s.signers);
    var rho, e := BindingFactor(c, h, i, s.message, sorted), Challenge(c, h, r, s.groupKey, s.message);
    TimesIsProduct(nonce.e, rho);
    TimesIsProduct(Signed(IsOdd(r)), nonce.d + nonce.e * rho);
    TimesIsProduct(weight, share);
    TimesIsProduct(e, weight * share);
  }

  /** The ghost result is the order in which the commitments were sorted. */
  method Sign(c: Curve, h: Hashes, s: Session, my: uint32, share: int, nonce: NonceSecret)
    returns (r: Result<PartialSignature, Error>, ghost sorted: seq<NonceCommitment>)
    ensures r.Ok? <==> my in s.signers && exists k :: 0 <= k < |s.commitments| && s.commitments[k].index == my
    ensures r == Err(SignerNotInSession) <==> my !in s.signers
    ensures r.Ok? ==> IsSortOf(sorted, s.commitments)
    ensures r.Ok? ==> r.value == PartialSignature(my, PartialScalar(c, h, s, sorted, my, share, nonce))
  {
    hide Mod, NoncePoint, Weight, Neg, PartialScalar;
    if my !in s.signers {
      return Err(SignerNotInSession), [];
    }
    if !exists k :: 0 <= k < |s.commitments| && s.commitments[k].index == my {
      return Err(NoCommitment), [];
    }
    ghost var k :| 0 <= k < |s.commitments| && s.commitments[k].index == my;
    var order := SortCommitments(s.commitments);
    sorted := order;
    SortKeeps(order, s.commitments, k);
    var factors := ComputeBindingFactors(c, h, s.message, order);
    var point := AggregateNonce(c, h, s.message, order, factors);
    var negateNonces := IsOdd(point);
    var even := EvenY(c, point);
    var weight := LagrangeCoefficient(c.q, my, s.signers);
    var e := Challenge(c, h, even, s.groupKey, s.message);
    var z := CombinePartial(c.q, negateNonces, nonce, factors[my], weight, share, e);
    PartialScalarIs(c, h, s, order, my, share, nonce);
    return Ok(PartialSignature(my, z)), sorted;
  }

  lemma SortKeeps(sorted: seq<NonceCommitment>, cs: seq<NonceCommitment>, k: nat)
    requires IsSortOf(sorted, cs) && k < |cs|
    ensures exists j :: 0 <= j < |sorted| && sorted[j].index == cs[k].index
  {
    assert cs[k] in multiset(cs);
    assert cs[k] in multiset(sorted);
  }

  /** The scalar updates of Sign, each reduced as it is made. */
  method CombinePartial(q: Modulus, negateNonces: bool, nonce: NonceSecret, rho: int, weight: int, share: int, e: int)
    returns (z: int)
    ensures z == Mod(q, Signed(negateNonces) * (nonce.d + nonce.e * rho) + e * (weight * share))
  {
    hide *;
    z := nonce.d;
    if negateNonces {
      z := Mod(q, -z);
    }
    var eRho := Mod(q, nonce.e * rho);
    if negateNonces {
      eRho := Mod(q, -eRho);
    }
    var contribution := Mod(q, weight * share);
    contribution := Mod(q, contribution * e);
    PartialTerms(q, negateNonces, nonce.d, z, nonce.e * rho, eRho, weight * share, e, contribution);
    z := Mod(q, z + eRho);
    z := Mod(q, z + contribution);
  }

  lemma PartialTerms(q: Modulus, negate: bool, d: int, z: int, er: int, eRho: int, lx: int, e: int, contribution: int)
    requires z == if negate then Mod(q, -d) else d
    requires eRho == if negate then Mod(q, -Mod(q, er)) else Mod(q, er)
    requires contribution == Mod(q, Mod(q, lx) * e)
    ensures Mod(q, Mod(q, z + eRho) + contribution) == Mod(q, Signed(negate) * (d + er) + e * lx)
  {
    hide *;
    SignedTerms(q, negate, d, z, er, eRho);
    ProductTerm(q, lx, e);
    SumOfThree(q, z, Signed(negate) * d, eRho, Signed(negate) * er, contribution, e * lx);
    SignOfSum(Signed(negate), d, er);
  }

  lemma SignOfSum(sign: int, a: int, b: int)
    ensures sign * (a + b) == sign * a + sign * b
  {
  }

  lemma SignedTerms(q: Modulus, negate: bool, d: int, z: int, er: int, eRho: int)
    requires z == if negate then Mod(q, -d) else d
    requires eRho == if negate then Mod(q, -Mod(q, er)) else Mod(q, er)
    ensures Mod(q, z) == Mod(q, Signed(negate) * d)
    ensures Mod(q, eRho) == Mod(q, Signed(negate) * er)
  {
    hide Mod;
    ModMod(q, er);
    if negate {
      ModMod(q, -d);
      ModMod(q, -Mod(q, er));
      CongNegate(q, Mod(q, er), er);
      assert -1 * d == -d && -1 * er == -er;
    } else {
      assert 1 * d == d && 1 * er == er;
    }
  }

  lemma ProductTerm(q: Modulus, a: int, e: int)
    ensures Mod(q, Mod(q, Mod(q, a) * e)) == Mod(q, e * a)
  {
    hide *;
    ModProduct(q, a, e);
    ModMod(q, a * e);
    CommuteProduct(a, e);
  }

  lemma SumOfThree(q: Modulus, x: int, a: int, y: int, b: int, z: int, c: int)
    requires Mod(q, x) == Mod(q, a) && Mod(q, y) == Mod(q, b) && Mod(q, z) == Mod(q, c)
    ensures Mod(q, Mod(q, x + y) + z) == Mod(q, a + b + c)
  {
    hide *;
    ModSum(q, x + y, z);
    CongSum(q, x, a, y, b);
    CongSum(q, x + y, a + b, z, c);
  }

  // ----- Aggregation -----

  function SumZ(partials: seq<PartialSignature>): int {
    if partials == [] then 0 else SumZ(partials[..|partials| - 1]) + partials[|partials| - 1].z
  }

  function Signature(x: nat, s: nat): (sig: Bytes)
    ensures |sig| == 64
  {
    Word(x) + Word(s)
  }

  method Aggregate(c: Curve, h: Hashes, s: Session, partials: seq<PartialSignature>)
    returns (r: Result<Bytes, Error>, ghost sorted: seq<NonceCommitment>)
    ensures r.Ok? <==> partials != []
    ensures r.Ok? ==> IsSortOf(sorted, s.commitments)
    ensures r.Ok? ==> r.value == Signature(XOf(NoncePoint(c, h, s.message, sorted, sorted)), Mod(c.q, SumZ(partials)))
  {
    if partials == [] {
      return Err(NoPartials), [];
    }
    var order := SortCommitments(s.commitments);
    sorted := order;
    var factors := ComputeBindingFactors(c, h, s.message, order);
    var point := AggregateNonce(c, h, s.message, order, factors);
    var total := 0;
    ModSmall(c.q, 0);
    hide Mod, NoncePoint, Word, Neg;
    for k := 0 to |partials|
      invariant total == Mod(c.q, SumZ(partials[..k]))
    {
      assert partials[..k + 1][..k] == partials[..k];
      ModSum(c.q, SumZ(partials[..k]), partials[k].z);
      total := Mod(c.q, total + partials[k].z);
    }
    assert partials[..|partials|] == partials;
    return Ok(Signature(XOf(EvenY(c, point)), total)), sorted;
  }

  // ----- BIP-340 verification -----

  /** The equation s * G == R + e * P of BIP-340, checked on the 64-byte signature. */
  predicate VerifySchnorr(c: Curve, h: Hashes, key: Point, message: Message, sig: Bytes) {
    && |sig| == 64
    && var x, s := FromBytes(sig[..32]), FromBytes(sig[32..]);
    && x < c.p && s < c.q
    && var lifted := LiftX(c, XOf(key));
    && lifted.Some?
    && var e := Mod(c.q, h.challenge(x, XOf(lifted.value), message));
    && var r := c.add(Mul(c, s, c.g), Neg(c, Mul(c, e, lifted.value)));
    && r != Infinity && !IsOdd(r) && XOf(r) == x
  }

  // ----- Taproot -----

  function TapTweak(c: Curve, h: Hashes, key: Point): (t: int)
    ensures 0 <= t < c.q
  {
    Mod(c.q, h.tapTweak(XOf(key)))
  }

  /** The output key Q = lift_x(P) + t * G. */
  function OutputKey(c: Curve, h: Hashes, key: Point): Point {
    c.add(EvenY(c, key), Mul(c, TapTweak(c, h, key), c.g))
  }

  /** What a signer adds to their share before signing, with both parity corrections. */
  function TweakShare(c: Curve, h: Hashes, share: int, key: Point): int {
    var adjusted := if IsOdd(key) then Mod(c.q, -share) else share;
    var result := Mod(c.q, adjusted + TapTweak(c, h, key));
    if IsOdd(OutputKey(c, h, key)) then Mod(c.q, -result) else result
  }
}
