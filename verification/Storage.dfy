/** Partial signatures stored in the PSBT lose nothing: what is read back aggregates to the same
    signature, and an honest set of them is accepted. */
module Storage {
  import opened Modular
  import opened Curve
  import opened Lagrange
  import opened Bytes
  import opened Signing
  import opened Threshold
  import opened Psbt
  import opened Verification
  import Frost

  /** The map after storing every partial signature of the list, as SignInput does one by one. */
  function StoreAll(stored: map<uint32, Bytes>, ps: seq<PartialSignature>): map<uint32, Bytes>
    requires forall k | 0 <= k < |ps| :: ps[k].z >= 0
  {
    if ps == [] then stored else
      var last := ps[|ps| - 1];
      StoreAll(stored, ps[..|ps| - 1])[last.index := Word(last.z)]
  }

  ghost predicate ReducedPartials(q: Modulus, ps: seq<PartialSignature>) {
    forall k | 0 <= k < |ps| :: 0 <= ps[k].z < q
  }

  lemma {:induction false} StoreAllKeys(ps: seq<PartialSignature>)
    requires forall k | 0 <= k < |ps| :: ps[k].z >= 0
    ensures StoreAll(map[], ps).Keys == set i | i in PartialIndices(ps)
  {
    hide Word;
    if ps != [] {
      StoreAllKeys(ps[..|ps| - 1]);
    }
  }

  lemma {:induction false} StoreAllAt(ps: seq<PartialSignature>, k: nat)
    requires (forall j | 0 <= j < |ps| :: ps[j].z >= 0) && Distinct(PartialIndices(ps)) && k < |ps|
    ensures ps[k].index in StoreAll(map[], ps) && StoreAll(map[], ps)[ps[k].index] == Word(ps[k].z)
  {
    hide Word;
    var n := |ps| - 1;
    if k < n {
      var s := PartialIndices(ps);
      assert s[k] != s[n];
      assert PartialIndices(ps[..n]) == s[..n];
      StoreAllAt(ps[..n], k);
    }
  }

  /** Thirty-two big-endian bytes and arbitrary map order in between do not change the aggregate. */
  lemma StorageRoundTrip(q: Modulus, ps: seq<PartialSignature>)
    requires q < TWO_256 && ReducedPartials(q, ps) && Distinct(PartialIndices(ps))
    ensures StoredTotal(q, StoreAll(map[], ps)) == SumZ(ps)
  {
    hide Mod, Word, FromBytes, Distinct, TWO_256, StoreAll;
    var stored := StoreAll(map[], ps);
    var f := StoredScalars(q, stored);
    StoreAllKeys(ps);
    forall k | 0 <= k < |ps| ensures ps[k].z == f(ps[k].index) {
      StoreAllAt(ps, k);
      WordRoundTrip(ps[k].z);
      ModSmall(q, ps[k].z);
    }
    SumZIsSum(ps, f);
    Frost.SetSumOfList(stored.Keys, PartialIndices(ps), f);
  }

  /** Exactly one honest partial signature per session signer, as stored bytes. */
  ghost predicate StoresHonestPartials(c: Curve, h: Hashes, s: Session, sorted: seq<NonceCommitment>,
      shares: nat -> int, nonces: Nonces, stored: map<uint32, Bytes>) {
    && stored.Keys == (set i | i in s.signers)
    && forall i | i in stored :: stored[i] == Word(PartialScalar(c, h, s, sorted, i, shares(i), nonces(i)))
  }

  lemma StoredTotalOfHonest(c: Curve, h: Hashes, s: Session, sorted: seq<NonceCommitment>, shares: nat -> int,
      nonces: Nonces, stored: map<uint32, Bytes>)
    requires c.q < TWO_256 && Distinct(s.signers) && StoresHonestPartials(c, h, s, sorted, shares, nonces, stored)
    ensures Mod(c.q, StoredTotal(c.q, stored))
         == Mod(c.q, Sum(s.signers, PartialScalars(c, h, s, sorted, shares, nonces)))
  {
    var f, g := StoredScalars(c.q, stored), PartialScalars(c, h, s, sorted, shares, nonces);
    hide Mod, Word, FromBytes, Distinct, PartialScalar, TWO_256, Sum;
    Frost.SetSumOfList(stored.Keys, s.signers, f);
    forall i | i in s.signers ensures Mod(c.q, f(i)) == Mod(c.q, g(i)) {
      WordRoundTrip(g(i));
      ModMod(c.q, g(i));
    }
    SumCong(c.q, s.signers, f, g);
  }

  /** FinalizeInput accepts an input that holds one honest partial signature per signer, unless the
      aggregate nonce or the output key is the identity. */
  lemma HonestInputAccepted(c: Curve, h: Hashes, s: Session, sorted: seq<NonceCommitment>, f: seq<int>,
      nonces: Nonces, stored: map<uint32, Bytes>)
    requires SigningSetup(c, h, s, f, nonces) && IsSortOf(sorted, s.commitments)
    requires StoresHonestPartials(c, h, s, sorted, TweakedShares(c, h, f, Gen(c, f[0])), nonces, stored)
    ensures VerifySchnorr(c, h, s.groupKey, s.message, SignatureOf(c, h, s, sorted, stored))
       <==> NoncePoint(c, h, s.message, sorted, sorted) != Infinity && s.groupKey != Infinity
  {
    hide SigningSetup, IsSortOf, StoresHonestPartials, VerifySchnorr, NoncePoint, Mod, StoredTotal, Sum, Signature,
      TweakedShares, Gen;
    DistinctSigners(c, h, s, f, nonces);
    ValidSetup(c, h, s, f, nonces);
    StoredTotalOfHonest(c, h, s, sorted, TweakedShares(c, h, f, Gen(c, f[0])), nonces, stored);
    SessionTotalVerifies(c, h, s, sorted, f, nonces, StoredTotal(c.q, stored));
  }

  /** Changing any single stored partial signature of an accepted input makes it rejected. */
  lemma AlteredPartialRejected(c: Curve, h: Hashes, s: Session, sorted: seq<NonceCommitment>,
      stored: map<uint32, Bytes>, i: uint32, other: Bytes)
    requires Valid(c) && OnCurve(c, s.groupKey) && i in stored
    requires Mod(c.q, FromBytes(other)) != Mod(c.q, FromBytes(stored[i]))
    requires VerifySchnorr(c, h, s.groupKey, s.message, SignatureOf(c, h, s, sorted, stored))
    ensures !VerifySchnorr(c, h, s.groupKey, s.message, SignatureOf(c, h, s, sorted, stored[i := other]))
  {
    hide *;
    var sig, sig' := SignatureOf(c, h, s, sorted, stored), SignatureOf(c, h, s, sorted, stored[i := other]);
    AlteredTotal(c.q, stored, i, other);
    TotalOfSignature(c, h, s, sorted, stored);
    TotalOfSignature(c, h, s, sorted, stored[i := other]);
    if VerifySchnorr(c, h, s.groupKey, s.message, sig') {
      SignatureIsUnique(c, h, s.groupKey, s.message, sig, sig');
    }
  }

  lemma TotalOfSignature(c: Curve, h: Hashes, s: Session, sorted: seq<NonceCommitment>, stored: map<uint32, Bytes>)
    requires Valid(c)
    ensures var sig := SignatureOf(c, h, s, sorted, stored);
      && |sig| == 64 && sig[..32] == Word(XOf(NoncePoint(c, h, s.message, sorted, sorted)))
      && FromBytes(sig[32..]) == Mod(c.q, StoredTotal(c.q, stored))
  {
    hide Valid, NoncePoint, Mod, StoredTotal, Word, FromBytes, TWO_256;
    Basics(c);
    var x, total := XOf(NoncePoint(c, h, s.message, sorted, sorted)), Mod(c.q, StoredTotal(c.q, stored));
    assert Signature(x, total)[..32] == Word(x) && Signature(x, total)[32..] == Word(total);
    WordRoundTrip(total);
  }

  lemma AlteredTotal(q: Modulus, stored: map<uint32, Bytes>, i: uint32, other: Bytes)
    requires i in stored && Mod(q, FromBytes(other)) != Mod(q, FromBytes(stored[i]))
    ensures Mod(q, StoredTotal(q, stored[i := other])) != Mod(q, StoredTotal(q, stored))
  {
    var f, g := StoredScalars(q, stored), StoredScalars(q, stored[i := other]);
    hide Mod, FromBytes, Frost.SetSum;
    var keys, rest := stored.Keys, stored.Keys - {i};
    assert stored[i := other].Keys == keys;
    Frost.SetSumRemove(keys, f, i);
    Frost.SetSumRemove(keys, g, i);
    SetSumSame(rest, f, g);
    var a, b, t := Mod(q, FromBytes(stored[i])), Mod(q, FromBytes(other)), Frost.SetSum(rest, f);
    if Mod(q, b + t) == Mod(q, a + t) {
      CongSum(q, b + t, a + t, -t, -t);
      ModMod(q, FromBytes(other));
      ModMod(q, FromBytes(stored[i]));
    }
  }

  lemma {:induction false} SetSumSame(keys: set<uint32>, f: nat -> int, g: nat -> int)
    requires forall j | j in keys :: f(j) == g(j)
    ensures Frost.SetSum(keys, f) == Frost.SetSum(keys, g)
  {
    if keys != {} {
      var j :| j in keys;
      Frost.SetSumRemove(keys, f, j);
      Frost.SetSumRemove(keys, g, j);
      SetSumSame(keys - {j}, f, g);
    }
  }

  lemma ValidSetup(c: Curve, h: Hashes, s: Session, f: seq<int>, nonces: Nonces)
    requires SigningSetup(c, h, s, f, nonces)
    ensures c.q < TWO_256
  {
    hide Valid, HonestCommitments, Distinct;
    Basics(c);
  }
}
