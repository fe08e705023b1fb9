/** The end-to-end theorem: any set of signers large enough produces one valid BIP-340 signature
    under the Taproot output key of the group. */
module Threshold {
  import opened Modular
  import opened Curve
  import opened Polynomial
  import opened Lagrange
  import opened Bytes
  import opened Signing
  import Frost

  // ----- Signers and coordinator agree -----

  /** A list without repetitions holds each element at most once. */
  lemma {:induction false} AtMostOnce<T>(s: seq<T>, x: T)
    requires forall i, j | 0 <= i < j < |s| :: s[i] != s[j]
    ensures multiset(s)[x] <= 1
  {
    if s != [] {
      var rest := s[1..];
      assert s == [s[0]] + rest;
      AtMostOnce(rest, x);
      assert s[0] == x ==> x !in rest by {
        assert forall k | 0 <= k < |rest| :: rest[k] == s[k + 1];
      }
    }
  }

  lemma TwiceInMultiset<T>(s: seq<T>, i: nat, j: nat)
    requires i < j < |s| && s[i] == s[j]
    ensures multiset(s)[s[i]] >= 2
  {
    assert s == s[..i] + [s[i]] + s[i + 1..j] + [s[j]] + s[j + 1..];
  }

  lemma ElementOf<T>(s: seq<T>, t: seq<T>, k: nat) returns (j: nat)
    requires multiset(s) == multiset(t) && k < |s|
    ensures j < |t| && t[j] == s[k]
  {
    assert s[k] in multiset(t);
    j :| 0 <= j < |t| && t[j] == s[k];
  }

  lemma PermutedDistinct(cs: seq<NonceCommitment>, ds: seq<NonceCommitment>)
    requires multiset(cs) == multiset(ds) && DistinctIndices(cs)
    ensures DistinctIndices(ds)
  {
    forall i, j | 0 <= i < j < |ds| ensures ds[i].index != ds[j].index {
      var m := ElementOf(ds, cs, i);
      var n := ElementOf(ds, cs, j);
      if ds[i].index == ds[j].index {
        TwiceInMultiset(ds, i, j);
        AtMostOnce(cs, ds[i]);
      }
    }
  }

  lemma SameFirst(a: seq<NonceCommitment>, b: seq<NonceCommitment>)
    requires SortedByIndex(a) && SortedByIndex(b) && multiset(a) == multiset(b) && DistinctIndices(a)
    requires a != [] && b != []
    ensures a[0] == b[0] && multiset(a[1..]) == multiset(b[1..])
  {
    var k := ElementOf(a, b, 0);
    var m := ElementOf(b, a, 0);
    assert a[0].index <= a[m].index && b[0].index <= b[k].index;
    assert m == 0;
    hide SortedByIndex, DistinctIndices;
    TailMultiset(a);
    TailMultiset(b);
  }

  lemma TailMultiset<T>(a: seq<T>)
    requires a != []
    ensures multiset(a[1..]) == multiset(a) - multiset{a[0]}
  {
    assert a == [a[0]] + a[1..];
  }

  lemma {:induction false} SortIsUnique(a: seq<NonceCommitment>, b: seq<NonceCommitment>)
    requires SortedByIndex(a) && SortedByIndex(b) && multiset(a) == multiset(b) && DistinctIndices(a)
    ensures a == b
  {
    assert |a| == |multiset(a)| == |multiset(b)| == |b|;
    if a != [] {
      SameFirst(a, b);
      SortIsUnique(a[1..], b[1..]);
    }
  }

  /** Commitments with different indices have only one sorted order, so every signer and the
      coordinator hash the same list, whatever order they received it in. */
  lemma SortsAgree(cs: seq<NonceCommitment>, ds: seq<NonceCommitment>, a: seq<NonceCommitment>, b: seq<NonceCommitment>)
    requires multiset(cs) == multiset(ds) && DistinctIndices(cs) && IsSortOf(a, cs) && IsSortOf(b, ds)
    ensures a == b
  {
    PermutedDistinct(cs, a);
    SortIsUnique(a, b);
  }

  lemma {:induction false} SumZDrop(ps: seq<PartialSignature>, k: nat)
    requires k < |ps|
    ensures SumZ(ps) == SumZ(Drop(ps, k)) + ps[k].z
  {
    var n := |ps| - 1;
    if k == n {
      assert Drop(ps, n) == ps[..n];
    } else {
      SumZDrop(ps[..n], k);
      assert Drop(ps, k)[..n - 1] == Drop(ps[..n], k);
    }
  }

  lemma {:induction false} SumZPermutation(ps: seq<PartialSignature>, qs: seq<PartialSignature>)
    requires multiset(ps) == multiset(qs)
    ensures SumZ(ps) == SumZ(qs)
  {
    assert |ps| == |multiset(ps)| == |multiset(qs)| == |qs|;
    if ps != [] {
      var k := DropMatching(ps, qs);
      SumZDrop(ps, 0);
      SumZDrop(qs, k);
      assert Drop(ps, 0) == ps[1..];
      SumZPermutation(ps[1..], Drop(qs, k));
    }
  }

  /** The aggregate depends on which commitments and partial signatures there are, not on their order. */
  lemma AggregateIgnoresOrder(c: Curve, h: Hashes, s: Session, t: Session, a: seq<NonceCommitment>,
      b: seq<NonceCommitment>, ps: seq<PartialSignature>, qs: seq<PartialSignature>)
    requires s.message == t.message
    requires multiset(s.commitments) == multiset(t.commitments) && DistinctIndices(s.commitments)
    requires IsSortOf(a, s.commitments) && IsSortOf(b, t.commitments) && multiset(ps) == multiset(qs)
    ensures Signature(XOf(NoncePoint(c, h, s.message, a, a)), Mod(c.q, SumZ(ps)))
         == Signature(XOf(NoncePoint(c, h, t.message, b, b)), Mod(c.q, SumZ(qs)))
  {
    hide *;
    SortsAgree(s.commitments, t.commitments, a, b);
    SumZPermutation(ps, qs);
  }

  /** Lists without repetitions that hold the same elements are permutations of each other. */
  lemma SameElements(s: seq<nat>, t: seq<nat>)
    requires Distinct(s) && Distinct(t) && forall x :: x in s <==> x in t
    ensures multiset(s) == multiset(t)
  {
    forall x: nat ensures multiset(s)[x] == multiset(t)[x] {
      AtMostOnce(s, x);
      AtMostOnce(t, x);
      assert x in multiset(s) <==> x in s;
      assert x in multiset(t) <==> x in t;
    }
  }

  // ----- Secrets behind points -----

  /** BIP-340: the secret of the even-y point, d itself or its negation. */
  function EvenSecret(c: Curve, d: int): (r: int)
    ensures 0 <= r < c.q
  {
    if IsOdd(Gen(c, d)) then Mod(c.q, -d) else Mod(c.q, d)
  }

  lemma EvenSecretCorrect(c: Curve, d: int)
    requires Valid(c)
    ensures Gen(c, EvenSecret(c, d)) == EvenY(c, Gen(c, d))
  {
    hide Valid, Gen, Mod, Neg;
    GenNeg(c, d);
    ModMod(c.q, d);
    ModMod(c.q, -d);
    GenMod(c, Mod(c.q, d), d);
    GenMod(c, Mod(c.q, -d), -d);
  }

  /** taproot_tweak_seckey of "Constructing and spending Taproot outputs" in BIP-341, for a spend
      without scripts. */
  function TaprootTweakSeckey(c: Curve, h: Hashes, d: int): (r: int)
    ensures 0 <= r < c.q
  {
    Mod(c.q, EvenSecret(c, d) + TapTweak(c, h, Gen(c, d)))
  }

  /** The secret of the even-y point is behind a point with the same x and an even y. */
  lemma EvenSecretIsEven(c: Curve, d: int)
    requires Valid(c) && Gen(c, d) != Infinity
    ensures var pt := Gen(c, EvenSecret(c, d));
      pt != Infinity && pt.x == Gen(c, d).x && pt.y % 2 == 0
  {
    hide Valid, Gen, Mod, OnCurve, EvenSecret, EvenY;
    GenOnCurve(c, d);
    EvenSecretCorrect(c, d);
    EvenYIsEven(c, Gen(c, d));
  }

  /** The secret of a point depends on its residue only. */
  lemma EvenSecretMod(c: Curve, j: int, k: int)
    requires Mod(c.q, j) == Mod(c.q, k)
    ensures EvenSecret(c, j) == EvenSecret(c, k)
  {
    hide Mod, Gen;
    GenMod(c, j, k);
    CongNegate(c.q, j, k);
  }

  /** The tweak hashes the x-coordinate of the group key. */
  lemma TweakHash(c: Curve, h: Hashes, d: int)
    ensures Mod(c.q, TaprootTweakSeckey(c, h, d)) == Mod(c.q, EvenSecret(c, d) + h.tapTweak(XOf(Gen(c, d))))
  {
    hide Mod, Gen, EvenSecret;
    var even, t := EvenSecret(c, d), h.tapTweak(XOf(Gen(c, d)));
    ModMod(c.q, even + Mod(c.q, t));
    ModSum(c.q, even, t);
  }

  /** The output key is G times the even secret plus the hash of the group key's x-coordinate: what
      taproot_tweak_seckey computes. */
  lemma OutputKeySecret(c: Curve, h: Hashes, d: int)
    requires Valid(c)
    ensures Gen(c, TaprootTweakSeckey(c, h, d)) == OutputKey(c, h, Gen(c, d))
    ensures OutputKey(c, h, Gen(c, d)) == Gen(c, EvenSecret(c, d) + h.tapTweak(XOf(Gen(c, d))))
  {
    hide *;
    TweakHash(c, h, d);
    GenMod(c, TaprootTweakSeckey(c, h, d), EvenSecret(c, d) + h.tapTweak(XOf(Gen(c, d))));
    EvenSecretCorrect(c, d);
    OutputKeyOf(c, h, d, EvenSecret(c, d), TapTweak(c, h, Gen(c, d)));
  }

  lemma OutputKeyOf(c: Curve, h: Hashes, d: int, even: int, t: int)
    requires Valid(c) && Gen(c, even) == EvenY(c, Gen(c, d))
    requires even == EvenSecret(c, d) && t == TapTweak(c, h, Gen(c, d))
    ensures Gen(c, TaprootTweakSeckey(c, h, d)) == OutputKey(c, h, Gen(c, d))
  {
    hide Valid, Gen, Mod, EvenSecret, TapTweak, EvenY, Mul;
    MulOfGenerator(c, t);
    GenAdd(c, even, t);
    ModMod(c.q, even + t);
    GenMod(c, Mod(c.q, even + t), even + t);
  }

  /** The tweaked share is a fixed linear function of the share: the same for every signer. */
  lemma TweakShareLinear(c: Curve, h: Hashes, x: int, key: Point)
    ensures Mod(c.q, TweakShare(c, h, x, key))
         == Mod(c.q, Signed(IsOdd(key)) * Signed(IsOdd(OutputKey(c, h, key))) * x
                   + Signed(IsOdd(OutputKey(c, h, key))) * TapTweak(c, h, key))
  {
    var t := TapTweak(c, h, key);
    var a, b := Signed(IsOdd(key)), Signed(IsOdd(OutputKey(c, h, key)));
    var adjusted := if IsOdd(key) then Mod(c.q, -x) else x;
    hide *;
    NegatedResidue(c.q, IsOdd(key), x);
    CongSum(c.q, adjusted, a * x, t, t);
    SecondCorrection(c, h, x, key, adjusted, a * x + t);
    ExpandProduct(a, b, x, t);
  }

  lemma SecondCorrection(c: Curve, h: Hashes, x: int, key: Point, adjusted: int, sum: int)
    requires adjusted == if IsOdd(key) then Mod(c.q, -x) else x
    requires Mod(c.q, adjusted + TapTweak(c, h, key)) == Mod(c.q, sum)
    ensures Mod(c.q, TweakShare(c, h, x, key)) == Mod(c.q, Signed(IsOdd(OutputKey(c, h, key))) * sum)
  {
    hide Mod, TapTweak, OutputKey, IsOdd, Signed;
    var odd, result := IsOdd(OutputKey(c, h, key)), Mod(c.q, adjusted + TapTweak(c, h, key));
    assert TweakShare(c, h, x, key) == if odd then Mod(c.q, -result) else result;
    hide TweakShare;
    NegatedResidue(c.q, odd, result);
    ModMod(c.q, adjusted + TapTweak(c, h, key));
    CongProduct(c.q, Signed(odd), Signed(odd), result, sum);
  }

  lemma ExpandProduct(a: int, b: int, x: int, t: int)
    ensures b * (a * x + t) == a * b * x + b * t
  {
    assert b * (a * x) == a * b * x;
  }

  lemma NegatedResidue(q: Modulus, odd: bool, x: int)
    ensures Mod(q, if odd then Mod(q, -x) else x) == Mod(q, Signed(odd) * x)
  {
    hide Mod;
    ModMod(q, -x);
    assert -1 * x == -x && 1 * x == x;
  }

  /** Every signer's tweaked share, as a function of the signer. */
  ghost function TweakedShares(c: Curve, h: Hashes, f: seq<int>, key: Point): nat -> int {
    (i: nat) => TweakShare(c, h, Mod(c.q, Eval(f, i)), key)
  }

  /** The Lagrange-weighted sum of the tweaked shares is the secret of the even-y output key, in
      all four combinations of the parities of internal and output key. */
  lemma TweakedSharesInterpolate(c: Curve, h: Hashes, signers: seq<uint32>, f: seq<int>)
    requires Valid(c) && Distinct(signers) && 1 <= |f| <= |signers|
    ensures Mod(c.q, WeightedSum(c.q, signers, TweakedShares(c, h, f, Gen(c, f[0]))))
         == EvenSecret(c, TaprootTweakSeckey(c, h, f[0]))
         == EvenSecret(c, EvenSecret(c, f[0]) + h.tapTweak(XOf(Gen(c, f[0]))))
  {
    hide *;
    var key := Gen(c, f[0]);
    TweakHash(c, h, f[0]);
    EvenSecretMod(c, TaprootTweakSeckey(c, h, f[0]), EvenSecret(c, f[0]) + h.tapTweak(XOf(key)));
    WeightedTweaks(c, h, signers, f, key);
    OutputKeySecret(c, h, f[0]);
    TweakedSecret(c, h, f[0]);
  }

  lemma WeightedTweaks(c: Curve, h: Hashes, signers: seq<uint32>, f: seq<int>, key: Point)
    requires Valid(c) && Distinct(signers) && 1 <= |f| <= |signers|
    ensures Mod(c.q, WeightedSum(c.q, signers, TweakedShares(c, h, f, key)))
         == Mod(c.q, Signed(IsOdd(key)) * Signed(IsOdd(OutputKey(c, h, key))) * f[0]
                   + Signed(IsOdd(OutputKey(c, h, key))) * TapTweak(c, h, key))
  {
    var q, out, t := c.q, IsOdd(OutputKey(c, h, key)), TapTweak(c, h, key);
    var a, b := Signed(IsOdd(key)) * Signed(out), Signed(out) * t;
    hide Valid, Mod, TweakShare, TapTweak, OutputKey, IsOdd, Signed, WeightedSum, Eval;
    Basics(c);
    UInt32InRange(c, signers);
    forall i: nat ensures Mod(q, TweakedShares(c, h, f, key)(i)) == Mod(q, a * ValueAt(f)(i) + b * One()(i)) {
      TweakShareLinear(c, h, Mod(q, Eval(f, i)), key);
      ModMod(q, Eval(f, i));
      CongProduct(q, a, a, Mod(q, Eval(f, i)), Eval(f, i));
      CongSum(q, a * Mod(q, Eval(f, i)), a * Eval(f, i), b, b);
    }
    WeightedSumLinear(q, signers, TweakedShares(c, h, f, key), a, ValueAt(f), b, One());
    InterpolateAtZero(q, signers, f);
    WeightsSumToOne(q, signers);
    ModSmall(q, 1);
    CongProduct(q, a, a, WeightedSum(q, signers, ValueAt(f)), f[0]);
    CongProduct(q, b, b, WeightedSum(q, signers, One()), 1);
    CongSum(q, a * WeightedSum(q, signers, ValueAt(f)), a * f[0], b * WeightedSum(q, signers, One()), b * 1);
  }

  lemma UInt32InRange(c: Curve, signers: seq<uint32>)
    requires TWO_32 < c.q
    ensures InRange(c.q, signers)
  {
  }

  lemma TweakedSecret(c: Curve, h: Hashes, d: int)
    requires Gen(c, TaprootTweakSeckey(c, h, d)) == OutputKey(c, h, Gen(c, d))
    ensures EvenSecret(c, TaprootTweakSeckey(c, h, d))
         == Mod(c.q, Signed(IsOdd(Gen(c, d))) * Signed(IsOdd(OutputKey(c, h, Gen(c, d)))) * d
                   + Signed(IsOdd(OutputKey(c, h, Gen(c, d)))) * TapTweak(c, h, Gen(c, d)))
  {
    var q, key := c.q, Gen(c, d);
    var t, out := TapTweak(c, h, key), IsOdd(OutputKey(c, h, key));
    var a, b := Signed(IsOdd(key)), Signed(out);
    hide Mod, TapTweak, OutputKey, IsOdd, Gen;
    assert EvenSecret(c, d) == Mod(q, a * d) by { assert -1 * d == -d && 1 * d == d; }
    ModSum(q, a * d, t);
    var s := TaprootTweakSeckey(c, h, d);
    assert s == Mod(q, a * d + t);
    assert EvenSecret(c, s) == Mod(q, b * s) by { assert -1 * s == -s && 1 * s == s; }
    ModProduct(q, b, a * d + t);
    assert b * (a * d + t) == a * b * d + b * t;
  }

  // ----- The verification equation -----

  /** A pair (x(R), s) with s = even secret of R + e * even secret of Q verifies under Q exactly
      when neither R nor Q is the identity. */
  lemma SignatureVerifies(c: Curve, h: Hashes, r: int, k: int, message: Message, s: int)
    requires Valid(c) && 0 <= s < c.q
    requires var e := Challenge(c, h, Gen(c, r), Gen(c, k), message);
      s == Mod(c.q, EvenSecret(c, r) + Times(e, EvenSecret(c, k)))
    ensures VerifySchnorr(c, h, Gen(c, k), message, Signature(XOf(Gen(c, r)), s))
       <==> Gen(c, r) != Infinity && Gen(c, k) != Infinity
  {
    var pr, pk := Gen(c, r), Gen(c, k);
    var e := Challenge(c, h, pr, pk, message);
    hide Valid, Gen, Mod, OnCurve, LiftX, EvenY, EvenSecret, Mul, Neg, Word, FromBytes, XOf, IsOdd, TWO_256;
    Basics(c);
    GenOnCurve(c, r);
    GenOnCurve(c, k);
    SignatureParts(c, pr, s);
    LiftXOfPoint(c, pk);
    if pk != Infinity {
      EvenYIsEven(c, pk);
      EvenYIsEven(c, pr);
      ResponsePoint(c, r, k, e, s);
    }
  }

  /** s * G - e * lift_x(Q) is the even-y point of R. */
  lemma ResponsePoint(c: Curve, r: int, k: int, e: nat, s: nat)
    requires Valid(c) && s == Mod(c.q, EvenSecret(c, r) + Times(e, EvenSecret(c, k)))
    ensures c.add(Mul(c, s, c.g), Neg(c, Mul(c, e, EvenY(c, Gen(c, k))))) == EvenY(c, Gen(c, r))
  {
    hide *;
    var a, b := EvenSecret(c, r), EvenSecret(c, k);
    TimesIsProduct(e, b);
    EvenSecretCorrect(c, r);
    EvenSecretCorrect(c, k);
    GenMul(c, e, b);
    GenNeg(c, e * b);
    MulOfGenerator(c, s);
    ModMod(c.q, a + e * b);
    GenMod(c, s, a + e * b);
    GenAdd(c, a + e * b, -(e * b));
  }

  lemma SignatureParts(c: Curve, r: Point, s: nat)
    requires OnCurve(c, r) && s < c.q < TWO_256 && c.p < TWO_256
    ensures FromBytes(Signature(XOf(r), s)[..32]) == XOf(r) < c.p
    ensures FromBytes(Signature(XOf(r), s)[32..]) == s
  {
    hide Word, FromBytes, Mod, TWO_256;
    assert XOf(r) < c.p;
    assert Signature(XOf(r), s)[..32] == Word(XOf(r));
    assert Signature(XOf(r), s)[32..] == Word(s);
    WordRoundTrip(XOf(r));
    WordRoundTrip(s);
  }

  // ----- Nonces and partial signatures -----

  type Nonces = nat -> NonceSecret

  function Indices(cs: seq<NonceCommitment>): (s: seq<uint32>)
    ensures |s| == |cs| && forall k | 0 <= k < |s| :: s[k] == cs[k].index
  {
    if cs == [] then [] else Indices(cs[..|cs| - 1]) + [cs[|cs| - 1].index]
  }

  /** One commitment per signer, each to that signer's nonces, in any order. */
  ghost predicate HonestCommitments(c: Curve, signers: seq<uint32>, nonces: Nonces, cs: seq<NonceCommitment>) {
    && DistinctIndices(cs)
    && (forall i: nat :: i in signers <==> i in Indices(cs))
    && CommitTo(c, nonces, cs)
  }

  ghost predicate CommitTo(c: Curve, nonces: Nonces, cs: seq<NonceCommitment>) {
    forall k | 0 <= k < |cs| :: cs[k] == CommitNonce(c, cs[k].index, nonces(cs[k].index))
  }

  /** The bound nonce of every signer. */
  ghost function BoundNonce(c: Curve, h: Hashes, message: Message, sorted: seq<NonceCommitment>,
      nonces: Nonces): nat -> int {
    (i: nat) => Bound(c, h, message, sorted, i, nonces(i))
  }

  lemma {:induction false} NoncePointIsGen(c: Curve, h: Hashes, message: Message, sorted: seq<NonceCommitment>,
      nonces: Nonces, cs: seq<NonceCommitment>)
    requires Valid(c) && CommitTo(c, nonces, cs)
    ensures NoncePoint(c, h, message, sorted, cs)
         == Gen(c, Sum(Indices(cs), BoundNonce(c, h, message, sorted, nonces)))
  {
    hide Valid, Gen, BindingFactor, Mul, BoundNonce;
    if cs == [] {
      Frost.GenOfZero(c);
    } else {
      var n := |cs| - 1;
      NoncePointIsGen(c, h, message, sorted, nonces, cs[..n]);
      var f := BoundNonce(c, h, message, sorted, nonces);
      SumAppend(Indices(cs[..n]), f, cs[n].index);
      NonceTerm(c, h, message, sorted, nonces, cs[n].index);
      GenAdd(c, Sum(Indices(cs[..n]), f), f(cs[n].index));
    }
  }

  /** The aggregate nonce in terms of the hash: G times the sum of d + e * H(i, message, all
      commitments). */
  lemma NoncePointHashes(c: Curve, h: Hashes, message: Message, sorted: seq<NonceCommitment>, nonces: Nonces,
      xs: seq<(int, int)>, f: nat -> int)
    requires Valid(c) && CommitTo(c, nonces, sorted) && AreXOnly(sorted, xs)
    requires forall i: nat :: f(i) == nonces(i).d + nonces(i).e * Mod(c.q, h.binding(i, message, xs))
    ensures NoncePoint(c, h, message, sorted, sorted) == Gen(c, Sum(Indices(sorted), f))
  {
    hide Valid, Gen, Mod, NoncePoint, AreXOnly, CommitTo;
    NoncePointIsGen(c, h, message, sorted, nonces, sorted);
    forall i: nat ensures f(i) == BoundNonce(c, h, message, sorted, nonces)(i) {
      BindingHash(c, h, i, message, sorted, xs);
      TimesIsProduct(nonces(i).e, BindingFactor(c, h, i, message, sorted));
    }
    hide BoundNonce;
    SumOfEqual(Indices(sorted), f, BoundNonce(c, h, message, sorted, nonces));
  }

  lemma {:induction false} SumOfEqual(s: seq<nat>, f: nat -> int, g: nat -> int)
    requires forall i: nat :: f(i) == g(i)
    ensures Sum(s, f) == Sum(s, g)
  {
    if s != [] { SumOfEqual(s[1..], f, g); }
  }

  lemma NonceTerm(c: Curve, h: Hashes, message: Message, sorted: seq<NonceCommitment>, nonces: Nonces, i: uint32)
    requires Valid(c)
    ensures var cm := CommitNonce(c, i, nonces(i));
      c.add(cm.D, Mul(c, BindingFactor(c, h, i, message, sorted), cm.E))
        == Gen(c, BoundNonce(c, h, message, sorted, nonces)(i))
  {
    var n, rho := nonces(i), BindingFactor(c, h, i, message, sorted);
    TimesIsProduct(n.e, rho);
    hide Valid, Gen, BindingFactor, Mul;
    GenMul(c, rho, n.e);
    CommuteProduct(rho, n.e);
    GenAdd(c, n.d, n.e * rho);
  }

  /** The partial signature scalar of every signer. */
  ghost function PartialScalars(c: Curve, h: Hashes, s: Session, sorted: seq<NonceCommitment>, shares: nat -> int,
      nonces: Nonces): nat -> int {
    (i: nat) => PartialScalar(c, h, s, sorted, i, shares(i), nonces(i))
  }

  /** The partial scalars add up to the even secret of R plus the challenge times the weighted sum
      of the shares. */
  lemma SumOfPartialScalars(c: Curve, h: Hashes, s: Session, sorted: seq<NonceCommitment>, shares: nat -> int,
      nonces: Nonces, r: int)
    requires Valid(c) && r == Sum(s.signers, BoundNonce(c, h, s.message, sorted, nonces))
    requires NoncePoint(c, h, s.message, sorted, sorted) == Gen(c, r)
    ensures Mod(c.q, Sum(s.signers, PartialScalars(c, h, s, sorted, shares, nonces)))
         == Mod(c.q, EvenSecret(c, r) + Times(Challenge(c, h, Gen(c, r), s.groupKey, s.message),
           WeightedSum(c.q, s.signers, shares)))
  {
    var f, g := BoundNonce(c, h, s.message, sorted, nonces), Weighted(c.q, s.signers, shares);
    var z := PartialScalars(c, h, s, sorted, shares, nonces);
    var sign, e := Signed(IsOdd(Gen(c, r))), Challenge(c, h, Gen(c, r), s.groupKey, s.message);
    hide Valid, Mod, Gen, NoncePoint, Weight, Challenge, Bound, IsOdd, Sum, EvenSecret, Signed;
    forall i: nat ensures Mod(c.q, z(i)) == Mod(c.q, sign * f(i) + e * g(i)) {
      PartialTermIs(c, h, s, sorted, shares, nonces, r, i);
      ModMod(c.q, sign * f(i) + e * g(i));
    }
    TimesIsProduct(e, Sum(s.signers, g));
    SumLinear(c.q, s.signers, z, sign, f, e, g);
    EvenSecretSigned(c, r);
    CongSum(c.q, sign * r, EvenSecret(c, r), e * Sum(s.signers, g), e * Sum(s.signers, g));
  }

  lemma PartialTermIs(c: Curve, h: Hashes, s: Session, sorted: seq<NonceCommitment>, shares: nat -> int, nonces: Nonces,
      r: int, i: nat)
    requires NoncePoint(c, h, s.message, sorted, sorted) == Gen(c, r)
    ensures PartialScalars(c, h, s, sorted, shares, nonces)(i)
         == Mod(c.q, Signed(IsOdd(Gen(c, r))) * BoundNonce(c, h, s.message, sorted, nonces)(i)
              + Challenge(c, h, Gen(c, r), s.groupKey, s.message) * Weighted(c.q, s.signers, shares)(i))
  {
    hide Mod, Gen, NoncePoint, Weight, Challenge, Bound, IsOdd, Signed;
    TimesIsProduct(Signed(IsOdd(Gen(c, r))), Bound(c, h, s.message, sorted, i, nonces(i)));
    TimesIsProduct(Challenge(c, h, Gen(c, r), s.groupKey, s.message), Times(Weight(c.q, i, s.signers), shares(i)));
    hide Times;
  }

  lemma EvenSecretSigned(c: Curve, d: int)
    ensures Mod(c.q, EvenSecret(c, d)) == Mod(c.q, Signed(IsOdd(Gen(c, d))) * d)
  {
    hide Mod, Gen, IsOdd;
    ModMod(c.q, d);
    ModMod(c.q, -d);
    assert -1 * d == -d && 1 * d == d;
  }

  function PartialIndices(ps: seq<PartialSignature>): (s: seq<uint32>)
    ensures |s| == |ps| && forall k | 0 <= k < |s| :: s[k] == ps[k].index
  {
    if ps == [] then [] else PartialIndices(ps[..|ps| - 1]) + [ps[|ps| - 1].index]
  }

  /** Exactly one partial signature per signer, each computed as Sign does, in any order. */
  ghost predicate HonestPartials(c: Curve, h: Hashes, s: Session, sorted: seq<NonceCommitment>, shares: nat -> int,
      nonces: Nonces, ps: seq<PartialSignature>) {
    && Distinct(PartialIndices(ps))
    && (forall i: nat :: i in s.signers <==> i in PartialIndices(ps))
    && forall k | 0 <= k < |ps| :: ps[k].z == PartialScalars(c, h, s, sorted, shares, nonces)(ps[k].index)
  }

  lemma {:induction false} SumZIsSum(ps: seq<PartialSignature>, f: nat -> int)
    requires forall k | 0 <= k < |ps| :: ps[k].z == f(ps[k].index)
    ensures SumZ(ps) == Sum(PartialIndices(ps), f)
  {
    if ps != [] {
      var n := |ps| - 1;
      SumZIsSum(ps[..n], f);
      SumAppend(PartialIndices(ps[..n]), f, ps[n].index);
    }
  }

  lemma SumZOfHonest(c: Curve, h: Hashes, s: Session, sorted: seq<NonceCommitment>, shares: nat -> int,
      nonces: Nonces, ps: seq<PartialSignature>)
    requires Distinct(s.signers) && HonestPartials(c, h, s, sorted, shares, nonces, ps)
    ensures SumZ(ps) == Sum(s.signers, PartialScalars(c, h, s, sorted, shares, nonces))
  {
    var f := PartialScalars(c, h, s, sorted, shares, nonces);
    hide PartialScalars, Sum;
    SumZIsSum(ps, f);
    SameElements(s.signers, PartialIndices(ps));
    SumPermutation(s.signers, PartialIndices(ps), f);
  }

  lemma NonceOfSession(c: Curve, h: Hashes, s: Session, sorted: seq<NonceCommitment>, nonces: Nonces)
    requires Valid(c) && Distinct(s.signers) && HonestCommitments(c, s.signers, nonces, s.commitments)
    requires IsSortOf(sorted, s.commitments)
    ensures NoncePoint(c, h, s.message, sorted, sorted)
         == Gen(c, Sum(s.signers, BoundNonce(c, h, s.message, sorted, nonces)))
  {
    hide Valid, Gen, NoncePoint, Sum, BoundNonce, CommitNonce;
    SortedIsHonest(c, s.signers, nonces, s.commitments, sorted);
    NoncePointIsGen(c, h, s.message, sorted, nonces, sorted);
    SameElements(s.signers, Indices(sorted));
    SumPermutation(s.signers, Indices(sorted), BoundNonce(c, h, s.message, sorted, nonces));
  }

  lemma SortedIsHonest(c: Curve, signers: seq<uint32>, nonces: Nonces, cs: seq<NonceCommitment>,
      sorted: seq<NonceCommitment>)
    requires HonestCommitments(c, signers, nonces, cs) && IsSortOf(sorted, cs)
    ensures HonestCommitments(c, signers, nonces, sorted) && Distinct(Indices(sorted))
  {
    hide CommitNonce, SortedByIndex;
    PermutedDistinct(cs, sorted);
    forall k | 0 <= k < |sorted| ensures sorted[k] == CommitNonce(c, sorted[k].index, nonces(sorted[k].index)) {
      var j := ElementOf(sorted, cs, k);
    }
    forall i: nat ensures i in Indices(cs) <==> i in Indices(sorted) {
      if i in Indices(cs) {
        var k :| 0 <= k < |cs| && Indices(cs)[k] == i;
        var j := ElementOf(cs, sorted, k);
        assert Indices(sorted)[j] == i;
      }
      if i in Indices(sorted) {
        var k :| 0 <= k < |sorted| && Indices(sorted)[k] == i;
        var j := ElementOf(sorted, cs, k);
        assert Indices(cs)[j] == i;
      }
    }
  }

  // ----- The end-to-end theorem -----

  /** A signing session as Spend sets it up: different signers, at least as many as the group
      polynomial has coefficients, shares on that polynomial, honest commitments, and the Taproot
      output key of the group key as the key to sign for. */
  ghost predicate SigningSetup(c: Curve, h: Hashes, s: Session, f: seq<int>, nonces: Nonces) {
    && Valid(c) && Distinct(s.signers) && 1 <= |f| <= |s.signers|
    && s.groupKey == OutputKey(c, h, Gen(c, f[0]))
    && HonestCommitments(c, s.signers, nonces, s.commitments)
  }

  /** A total congruent to the sum of the signers' partial scalars completes a valid signature. */
  lemma SessionTotalVerifies(c: Curve, h: Hashes, s: Session, sorted: seq<NonceCommitment>, f: seq<int>,
      nonces: Nonces, total: int)
    requires SigningSetup(c, h, s, f, nonces) && IsSortOf(sorted, s.commitments)
    requires Mod(c.q, total)
          == Mod(c.q, Sum(s.signers, PartialScalars(c, h, s, sorted, TweakedShares(c, h, f, Gen(c, f[0])), nonces)))
    ensures VerifySchnorr(c, h, s.groupKey, s.message,
              Signature(XOf(NoncePoint(c, h, s.message, sorted, sorted)), Mod(c.q, total)))
       <==> NoncePoint(c, h, s.message, sorted, sorted) != Infinity && s.groupKey != Infinity
  {
    hide Valid, HonestCommitments, IsSortOf, Gen, Mod, NoncePoint, BoundNonce, PartialScalars, Sum, Distinct,
      WeightedSum, TweakedShares, TaprootTweakSeckey, EvenSecret, OutputKey, VerifySchnorr, Signature, Challenge, XOf;
    var shares := TweakedShares(c, h, f, Gen(c, f[0]));
    var k := TaprootTweakSeckey(c, h, f[0]);
    var r := Sum(s.signers, BoundNonce(c, h, s.message, sorted, nonces));
    var e := Challenge(c, h, Gen(c, r), s.groupKey, s.message);
    NonceOfSession(c, h, s, sorted, nonces);
    SumOfPartialScalars(c, h, s, sorted, shares, nonces, r);
    TweakedSharesInterpolate(c, h, s.signers, f);
    OutputKeySecret(c, h, f[0]);
    ReplaceWeighted(c.q, EvenSecret(c, r), e, WeightedSum(c.q, s.signers, shares), EvenSecret(c, k));
    SignatureVerifies(c, h, r, k, s.message, Mod(c.q, total));
  }

  /** Any such session, for any message, any nonces and partial signatures in any order, yields a
      signature that BIP-340 verification accepts under the output key; it is rejected only when
      the aggregate nonce or the output key is the identity. */
  lemma ThresholdSignatureVerifies(c: Curve, h: Hashes, s: Session, sorted: seq<NonceCommitment>, f: seq<int>,
      nonces: Nonces, ps: seq<PartialSignature>)
    requires SigningSetup(c, h, s, f, nonces) && IsSortOf(sorted, s.commitments)
    requires HonestPartials(c, h, s, sorted, TweakedShares(c, h, f, Gen(c, f[0])), nonces, ps)
    ensures VerifySchnorr(c, h, s.groupKey, s.message,
              Signature(XOf(NoncePoint(c, h, s.message, sorted, sorted)), Mod(c.q, SumZ(ps))))
       <==> NoncePoint(c, h, s.message, sorted, sorted) != Infinity && s.groupKey != Infinity
  {
    hide *;
    DistinctSigners(c, h, s, f, nonces);
    SumZOfHonest(c, h, s, sorted, TweakedShares(c, h, f, Gen(c, f[0])), nonces, ps);
    SessionTotalVerifies(c, h, s, sorted, f, nonces, SumZ(ps));
  }

  lemma DistinctSigners(c: Curve, h: Hashes, s: Session, f: seq<int>, nonces: Nonces)
    requires SigningSetup(c, h, s, f, nonces)
    ensures Distinct(s.signers) && f != []
  {
    hide Valid, HonestCommitments, Distinct;
  }

  lemma ReplaceWeighted(q: Modulus, a: int, e: int, w: int, k: int)
    requires 0 <= k < q && Mod(q, w) == k
    ensures Mod(q, a + Times(e, w)) == Mod(q, a + Times(e, k))
  {
    hide *;
    TimesIsProduct(e, w);
    TimesIsProduct(e, k);
    ModSmall(q, k);
    CongProduct(q, e, e, w, k);
    CongSum(q, a, a, e * w, e * k);
  }
}
