/** Signing every input of a built transaction, as a spend does. */
module InputSigning {
  import opened Wrappers
  import opened Modular
  import opened Curve
  import opened Polynomial
  import opened Lagrange
  import opened Bytes
  import opened Signing
  import opened Threshold
  import opened Psbt
  import opened Storage
  import opened Ceremony

  datatype SignError = ParticipantNotReady(index: uint32) | SigningFailed(index: uint32) | AggregationFailed

  predicate Ready(ps: Participants, i: uint32) {
    i in ps && ps[i].dkg.Some?
  }

  ghost predicate AllReady(ps: Participants, signers: seq<uint32>) {
    forall i | i in signers :: Ready(ps, i)
  }

  /** The only way collecting signatures fails: the first signer of the list that is not ready. */
  ghost predicate FirstUnready(ps: Participants, signers: seq<uint32>, e: SignError) {
    exists k :: 0 <= k < |signers| && UnreadyAt(ps, signers, k) && e == ParticipantNotReady(signers[k])
  }

  ghost predicate UnreadyAt(ps: Participants, signers: seq<uint32>, k: nat)
    requires k < |signers|
  {
    !Ready(ps, signers[k]) && forall j | 0 <= j < k :: Ready(ps, signers[j])
  }

  // ----- Nonces -----

  /** The nonces of the signers; of a repeated signer the last ones. */
  function SecretsOf(signers: seq<uint32>, random: seq<NonceSecret>): map<uint32, NonceSecret>
    requires |signers| == |random|
  {
    if signers == [] then map[] else
      var n := |signers| - 1;
      SecretsOf(signers[..n], random[..n])[signers[n] := random[n]]
  }

  lemma {:induction false} SecretsCover(signers: seq<uint32>, random: seq<NonceSecret>)
    requires |signers| == |random|
    ensures forall i :: i in SecretsOf(signers, random) <==> i in signers
    ensures Distinct(signers) ==> forall k | 0 <= k < |signers| :: SecretsOf(signers, random)[signers[k]] == random[k]
  {
    if signers != [] {
      var n := |signers| - 1;
      SecretsCover(signers[..n], random[..n]);
      assert signers == signers[..n] + [signers[n]];
    }
  }

  /** One commitment per entry of the signer list; a repeated signer keeps only its last secret. */
  method MakeNonces(c: Curve, signers: seq<uint32>, random: seq<NonceSecret>)
    returns (nonces: map<uint32, NonceSecret>, commitments: seq<NonceCommitment>)
    requires Valid(c) && |random| == |signers| && forall k | 0 <= k < |random| :: ValidNonce(c.q, random[k])
    ensures commitments == CommitAll(c, signers, random) && nonces == SecretsOf(signers, random)
    ensures forall i :: i in nonces <==> i in signers
    ensures Distinct(signers) ==> forall k | 0 <= k < |signers| :: nonces[signers[k]] == random[k]
  {
    hide Valid, ValidNonce, CommitNonce, ToPublicKey, CommitAll, SecretsOf, Distinct;
    nonces, commitments := map[], [];
    NoneMade(c);
    for k := 0 to |signers|
      invariant commitments == CommitAll(c, signers[..k], random[..k])
      invariant nonces == SecretsOf(signers[..k], random[..k])
    {
      var commitment := GenerateNonce(c, signers[k], random[k]);
      CommitNext(c, signers, random, k);
      nonces := nonces[signers[k] := random[k]];
      commitments := commitments + [commitment];
    }
    assert signers[..|signers|] == signers && random[..|random|] == random;
    SecretsCover(signers, random);
  }

  lemma NoneMade(c: Curve)
    ensures CommitAll(c, [], []) == [] && SecretsOf([], []) == map[]
  {
  }

  lemma CommitNext(c: Curve, signers: seq<uint32>, random: seq<NonceSecret>, k: nat)
    requires k < |signers| == |random|
    ensures CommitAll(c, signers[..k + 1], random[..k + 1])
         == CommitAll(c, signers[..k], random[..k]) + [CommitNonce(c, signers[k], random[k])]
    ensures SecretsOf(signers[..k + 1], random[..k + 1])
         == SecretsOf(signers[..k], random[..k])[signers[k] := random[k]]
  {
    hide CommitNonce;
    assert signers[..k + 1][..k] == signers[..k] && random[..k + 1][..k] == random[..k];
  }

  function CommitAll(c: Curve, signers: seq<uint32>, random: seq<NonceSecret>): (cs: seq<NonceCommitment>)
    requires |signers| == |random|
    ensures |cs| == |signers| && forall k | 0 <= k < |cs| :: cs[k] == CommitNonce(c, signers[k], random[k])
  {
    if signers == [] then [] else
      var n := |signers| - 1;
      CommitAll(c, signers[..n], random[..n]) + [CommitNonce(c, signers[n], random[n])]
  }

  ghost function NonceOf(nonces: map<uint32, NonceSecret>): Nonces {
    (i: nat) => if i < TWO_32 && i in nonces then nonces[i] else NonceSecret(0, 0)
  }

  // ----- Partial signatures for one input -----

  /** p is what Sign returns to signer i with this tweaked share. */
  ghost predicate IsPartialOf(c: Curve, h: Hashes, s: Session, i: uint32, share: int, nonce: NonceSecret,
      p: PartialSignature) {
    exists sorted :: IsSortOf(sorted, s.commitments)
      && p == PartialSignature(i, PartialScalar(c, h, s, sorted, i, share, nonce))
  }

  ghost predicate Collected(c: Curve, h: Hashes, ps: Participants, s: Session, groupKey: Point,
      nonces: map<uint32, NonceSecret>, partials: seq<PartialSignature>) {
    && |partials| == |s.signers|
    && forall k | 0 <= k < |partials| ::
         && Ready(ps, s.signers[k]) && s.signers[k] in nonces
         && IsPartialOf(c, h, s, s.signers[k], TweakShare(c, h, ps[s.signers[k]].dkg.value.secretShare, groupKey),
              nonces[s.signers[k]], partials[k])
  }

  method CollectPartials(c: Curve, h: Hashes, ps: Participants, s: Session, groupKey: Point,
      nonces: map<uint32, NonceSecret>)
    returns (r: Result<seq<PartialSignature>, SignError>)
    requires forall i | i in s.signers ::
      i in nonces && exists k :: 0 <= k < |s.commitments| && s.commitments[k].index == i
    ensures r.Ok? <==> AllReady(ps, s.signers)
    ensures r.Err? ==> FirstUnready(ps, s.signers, r.error)
    ensures r.Ok? ==> Collected(c, h, ps, s, groupKey, nonces, r.value)
  {
    hide TweakShare, IsSortOf, PartialScalar;
    var partials: seq<PartialSignature> := [];
    for k := 0 to |s.signers|
      invariant |partials| == k
      invariant forall j | 0 <= j < k ::
        && Ready(ps, s.signers[j])
        && IsPartialOf(c, h, s, s.signers[j], TweakShare(c, h, ps[s.signers[j]].dkg.value.secretShare, groupKey),
             nonces[s.signers[j]], partials[j])
    {
      var i := s.signers[k];
      if !Ready(ps, i) {
        assert UnreadyAt(ps, s.signers, k);
        return Err(ParticipantNotReady(i));
      }
      var tweaked := TweakShare(c, h, ps[i].dkg.value.secretShare, groupKey);
      var signed, sorted := Sign(c, h, s, i, tweaked, nonces[i]);
      if signed.Err? {
        return Err(SigningFailed(i));
      }
      partials := partials + [signed.value];
    }
    return Ok(partials);
  }

  method StorePartials(c: Curve, h: Hashes, packet: Packet, i: nat, partials: seq<PartialSignature>)
    requires i < |packet.inputs| && packet.inputs[i].partialSigs == map[]
    requires forall k | 0 <= k < |partials| :: partials[k].z >= 0
    modifies packet`inputs
    ensures packet.inputs == old(packet.inputs)[i := old(packet.inputs)[i].(partialSigs := StoreAll(map[], partials))]
    ensures old(packet.AllVerified(c, h)) ==> packet.AllVerified(c, h)
  {
    hide VerifySchnorr, Word;
    assert packet.inputs == packet.inputs[i := packet.inputs[i].(partialSigs := StoreAll(map[], partials[..0]))];
    for k := 0 to |partials|
      invariant packet.inputs
        == old(packet.inputs)[i := old(packet.inputs)[i].(partialSigs := StoreAll(map[], partials[..k]))]
      invariant old(packet.AllVerified(c, h)) ==> packet.AllVerified(c, h)
    {
      assert partials[..k + 1][..k] == partials[..k];
      var stored := packet.SignInput(c, h, i, partials[k]);
    }
    assert partials[..|partials|] == partials;
  }

  lemma CollectedReduced(c: Curve, h: Hashes, ps: Participants, s: Session, groupKey: Point,
      nonces: map<uint32, NonceSecret>, partials: seq<PartialSignature>)
    requires Collected(c, h, ps, s, groupKey, nonces, partials)
    ensures forall k | 0 <= k < |partials| :: 0 <= partials[k].z < c.q && partials[k].index == s.signers[k]
  {
    hide TweakShare, IsSortOf, Challenge, Weight, NoncePoint, Bound;
  }

  // ----- One input -----

  /** Different signers whose shares lie on f, whose constant term is the group secret. */
  ghost predicate HonestSigners(c: Curve, ps: Participants, signers: seq<uint32>, f: seq<int>) {
    && Distinct(signers) && 1 <= |f| <= |signers|
    && forall i | i in signers :: Ready(ps, i) && ps[i].dkg.value.secretShare == Mod(c.q, Eval(f, i))
  }

  /** The aggregate nonce of a session, in every order its commitments may be sorted. */
  ghost predicate NonceIsNotIdentity(c: Curve, h: Hashes, s: Session) {
    forall sorted | IsSortOf(sorted, s.commitments) :: NoncePoint(c, h, s.message, sorted, sorted) != Infinity
  }

  lemma {:induction false} HonestlyCollected(c: Curve, h: Hashes, ps: Participants, s: Session, f: seq<int>,
      nonces: map<uint32, NonceSecret>, partials: seq<PartialSignature>, sorted: seq<NonceCommitment>)
    requires HonestSigners(c, ps, s.signers, f) && DistinctIndices(s.commitments) && IsSortOf(sorted, s.commitments)
    requires Collected(c, h, ps, s, Gen(c, f[0]), nonces, partials)
    requires forall k | 0 <= k < |partials| :: partials[k].z >= 0
    ensures StoresHonestPartials(c, h, s, sorted, TweakedShares(c, h, f, Gen(c, f[0])), NonceOf(nonces),
      StoreAll(map[], partials))
  {
    hide TweakShare, PartialScalar, Word, Mod, Gen, StoreAll, Distinct, IsSortOf, DistinctIndices, Eval;
    CollectedReduced(c, h, ps, s, Gen(c, f[0]), nonces, partials);
    var shares, stored := TweakedShares(c, h, f, Gen(c, f[0])), StoreAll(map[], partials);
    assert PartialIndices(partials) == s.signers;
    StoreAllKeys(partials);
    forall i | i in stored
      ensures stored[i] == Word(PartialScalar(c, h, s, sorted, i, shares(i), NonceOf(nonces)(i)))
    {
      var k :| 0 <= k < |s.signers| && s.signers[k] == i;
      StoreAllAt(partials, k);
      OwnPartial(c, h, s, i, shares(i), nonces[i], partials[k], sorted);
    }
  }

  lemma OwnPartial(c: Curve, h: Hashes, s: Session, i: uint32, share: int, nonce: NonceSecret, p: PartialSignature,
      sorted: seq<NonceCommitment>)
    requires IsPartialOf(c, h, s, i, share, nonce, p)
    requires DistinctIndices(s.commitments) && IsSortOf(sorted, s.commitments)
    ensures p.z == PartialScalar(c, h, s, sorted, i, share, nonce)
  {
    hide IsSortOf, DistinctIndices, PartialScalar;
    var own :| IsSortOf(own, s.commitments) && p == PartialSignature(i, PartialScalar(c, h, s, own, i, share, nonce));
    SortsAgree(s.commitments, s.commitments, own, sorted);
  }

  /** The session of one input: the output key, this input's sighash, everybody's commitments. */
  ghost predicate InputSession(c: Curve, h: Hashes, s: Session, groupKey: Point, nonces: map<uint32, NonceSecret>) {
    && s.groupKey == OutputKey(c, h, groupKey)
    && |s.commitments| == |s.signers|
    && (forall k | 0 <= k < |s.signers| :: s.commitments[k].index == s.signers[k] && s.signers[k] in nonces)
    && (Distinct(s.signers) ==>
          forall k | 0 <= k < |s.signers| :: s.commitments[k] == CommitNonce(c, s.signers[k], nonces[s.signers[k]]))
  }

  lemma SetupOf(c: Curve, h: Hashes, ps: Participants, s: Session, f: seq<int>, nonces: map<uint32, NonceSecret>)
    requires Valid(c) && HonestSigners(c, ps, s.signers, f) && InputSession(c, h, s, Gen(c, f[0]), nonces)
    ensures SigningSetup(c, h, s, f, NonceOf(nonces)) && DistinctIndices(s.commitments)
  {
    hide Valid, OutputKey, Gen, CommitNonce, Mod, Eval, Ready;
    assert Indices(s.commitments) == s.signers;
    forall i, j | 0 <= i < j < |s.commitments| ensures s.commitments[i].index != s.commitments[j].index {
      assert s.signers[i] != s.signers[j];
    }
  }

  /** Honest signers get the input accepted unless the nonce or the output key is the identity. */
  lemma HonestInput(c: Curve, h: Hashes, ps: Participants, s: Session, f: seq<int>,
      nonces: map<uint32, NonceSecret>, partials: seq<PartialSignature>, sorted: seq<NonceCommitment>)
    requires Valid(c) && HonestSigners(c, ps, s.signers, f) && InputSession(c, h, s, Gen(c, f[0]), nonces)
    requires Collected(c, h, ps, s, Gen(c, f[0]), nonces, partials) && IsSortOf(sorted, s.commitments)
    requires forall k | 0 <= k < |partials| :: partials[k].z >= 0
    ensures VerifySchnorr(c, h, s.groupKey, s.message, SignatureOf(c, h, s, sorted, StoreAll(map[], partials)))
       <==> NonceIsNotIdentity(c, h, s) && s.groupKey != Infinity
  {
    hide Valid, HonestSigners, InputSession, Collected, IsSortOf, DistinctIndices, SigningSetup, VerifySchnorr,
      SignatureOf, StoresHonestPartials, StoreAll, NoncePoint, TweakedShares, Gen;
    NonEmptyPolynomial(c, ps, s.signers, f);
    SetupOf(c, h, ps, s, f, nonces);
    HonestlyCollected(c, h, ps, s, f, nonces, partials, sorted);
    HonestInputAccepted(c, h, s, sorted, f, NonceOf(nonces), StoreAll(map[], partials));
    forall other | IsSortOf(other, s.commitments) ensures other == sorted {
      SortsAgree(s.commitments, s.commitments, other, sorted);
    }
  }

  lemma NonEmptyPolynomial(c: Curve, ps: Participants, signers: seq<uint32>, f: seq<int>)
    requires HonestSigners(c, ps, signers, f)
    ensures f != []
  {
    hide Distinct, Eval, Mod;
  }

  // ----- The listed signers' aggregate -----

  /** sig is what aggregating the stored partial signatures of the listed signers gives, whoever they
      are and however often they are listed.  Only the order among commitments of a repeated signer
      is open. */
  ghost predicate IsAggregateOf(c: Curve, h: Hashes, ps: Participants, s: Session, groupKey: Point,
      nonces: map<uint32, NonceSecret>, sig: Bytes) {
    exists partials, sorted ::
      && Collected(c, h, ps, s, groupKey, nonces, partials) && IsSortOf(sorted, s.commitments)
      && AggregatesTo(c, h, s, partials, sorted, sig)
  }

  ghost predicate AggregatesTo(c: Curve, h: Hashes, s: Session, partials: seq<PartialSignature>,
      sorted: seq<NonceCommitment>, sig: Bytes) {
    && (forall k | 0 <= k < |partials| :: partials[k].z >= 0)
    && sig == SignatureOf(c, h, s, sorted, StoreAll(map[], partials))
  }

  /** The listed signers' aggregate verifies, or it does not. */
  ghost predicate AggregateVerifies(c: Curve, h: Hashes, ps: Participants, s: Session, groupKey: Point,
      nonces: map<uint32, NonceSecret>, good: bool) {
    exists sig :: IsAggregateOf(c, h, ps, s, groupKey, nonces, sig)
      && (VerifySchnorr(c, h, s.groupKey, s.message, sig) <==> good)
  }

  /** What finalising sets: the aggregate if it verifies, and nothing otherwise. */
  ghost predicate IsFinalised(c: Curve, h: Hashes, ps: Participants, s: Session, groupKey: Point,
      nonces: map<uint32, NonceSecret>, accepted: Bytes) {
    exists sig :: IsAggregateOf(c, h, ps, s, groupKey, nonces, sig)
      && accepted == if VerifySchnorr(c, h, s.groupKey, s.message, sig) then sig else []
  }

  lemma FinalisedBy(c: Curve, h: Hashes, ps: Participants, s: Session, groupKey: Point,
      nonces: map<uint32, NonceSecret>, partials: seq<PartialSignature>, sorted: seq<NonceCommitment>, accepted: Bytes)
    requires Collected(c, h, ps, s, groupKey, nonces, partials) && IsSortOf(sorted, s.commitments)
    requires forall k | 0 <= k < |partials| :: partials[k].z >= 0
    requires var sig := SignatureOf(c, h, s, sorted, StoreAll(map[], partials));
      accepted == if VerifySchnorr(c, h, s.groupKey, s.message, sig) then sig else []
    ensures IsFinalised(c, h, ps, s, groupKey, nonces, accepted)
  {
    hide Collected, IsSortOf, SignatureOf, StoreAll, VerifySchnorr;
    var sig := SignatureOf(c, h, s, sorted, StoreAll(map[], partials));
    assert AggregatesTo(c, h, s, partials, sorted, sig);
    assert IsAggregateOf(c, h, ps, s, groupKey, nonces, sig);
    hide IsAggregateOf;
  }

  lemma FinalisedVerifies(c: Curve, h: Hashes, ps: Participants, s: Session, groupKey: Point,
      nonces: map<uint32, NonceSecret>, accepted: Bytes)
    requires IsFinalised(c, h, ps, s, groupKey, nonces, accepted)
    ensures AggregateVerifies(c, h, ps, s, groupKey, nonces, accepted != [])
  {
    hide IsAggregateOf;
    var sig :| IsAggregateOf(c, h, ps, s, groupKey, nonces, sig)
      && accepted == if VerifySchnorr(c, h, s.groupKey, s.message, sig) then sig else [];
    assert VerifySchnorr(c, h, s.groupKey, s.message, sig) ==> |sig| == 64;
    hide VerifySchnorr;
  }

  /** Signers that are listed once have one aggregate. */
  lemma AggregateIsUnique(c: Curve, h: Hashes, ps: Participants, s: Session, groupKey: Point,
      nonces: map<uint32, NonceSecret>, sig: Bytes, other: Bytes)
    requires DistinctIndices(s.commitments)
    requires IsAggregateOf(c, h, ps, s, groupKey, nonces, sig) && IsAggregateOf(c, h, ps, s, groupKey, nonces, other)
    ensures sig == other
  {
    hide Collected, IsSortOf, DistinctIndices, SignatureOf, StoreAll;
    var p, a :| Collected(c, h, ps, s, groupKey, nonces, p) && IsSortOf(a, s.commitments)
      && AggregatesTo(c, h, s, p, a, sig);
    var q, b :| Collected(c, h, ps, s, groupKey, nonces, q) && IsSortOf(b, s.commitments)
      && AggregatesTo(c, h, s, q, b, other);
    SortsAgree(s.commitments, s.commitments, a, b);
    CollectedOnce(c, h, ps, s, groupKey, nonces, p, q, a);
  }

  lemma CollectedOnce(c: Curve, h: Hashes, ps: Participants, s: Session, groupKey: Point,
      nonces: map<uint32, NonceSecret>, p: seq<PartialSignature>, q: seq<PartialSignature>,
      sorted: seq<NonceCommitment>)
    requires DistinctIndices(s.commitments) && IsSortOf(sorted, s.commitments)
    requires Collected(c, h, ps, s, groupKey, nonces, p) && Collected(c, h, ps, s, groupKey, nonces, q)
    ensures p == q
  {
    hide DistinctIndices, IsSortOf, PartialScalar, TweakShare, IsPartialOf;
    CollectedReduced(c, h, ps, s, groupKey, nonces, p);
    CollectedReduced(c, h, ps, s, groupKey, nonces, q);
    forall k | 0 <= k < |p| ensures p[k] == q[k] {
      var i := s.signers[k];
      var share := TweakShare(c, h, ps[i].dkg.value.secretShare, groupKey);
      OwnPartial(c, h, s, i, share, nonces[i], p[k], sorted);
      OwnPartial(c, h, s, i, share, nonces[i], q[k], sorted);
    }
  }

  /** The aggregate of honest signers verifies exactly when nothing is the identity. */
  lemma HonestAggregateVerifies(c: Curve, h: Hashes, ps: Participants, s: Session, f: seq<int>,
      nonces: map<uint32, NonceSecret>, good: bool)
    requires Valid(c) && f != [] && HonestSigners(c, ps, s.signers, f) && InputSession(c, h, s, Gen(c, f[0]), nonces)
    requires AggregateVerifies(c, h, ps, s, Gen(c, f[0]), nonces, good)
    ensures good <==> NonceIsNotIdentity(c, h, s) && s.groupKey != Infinity
  {
    hide Valid, HonestSigners, InputSession, Gen, Collected, IsSortOf, VerifySchnorr, SignatureOf, StoreAll,
      NonceIsNotIdentity;
    var sig :| IsAggregateOf(c, h, ps, s, Gen(c, f[0]), nonces, sig)
      && (VerifySchnorr(c, h, s.groupKey, s.message, sig) <==> good);
    var partials, sorted :| Collected(c, h, ps, s, Gen(c, f[0]), nonces, partials) && IsSortOf(sorted, s.commitments)
      && AggregatesTo(c, h, s, partials, sorted, sig);
    HonestInput(c, h, ps, s, f, nonces, partials, sorted);
  }

  /** A signature that is set has passed verification. */
  ghost predicate OnlyVerified(c: Curve, h: Hashes, key: Point, message: Message, sig: Bytes) {
    sig == [] || VerifySchnorr(c, h, key, message, sig)
  }

  lemma NotSetOrVerified(c: Curve, h: Hashes, key: Point, message: Message, sig: Bytes)
    requires sig == [] || VerifySchnorr(c, h, key, message, sig)
    ensures OnlyVerified(c, h, key, message, sig)
  {
  }

  /** Collects, aggregates, stores and finalises one input.  What FinalizeInput answers is ignored,
      as the spend does: a signature that fails verification is simply not set. */
  method SignOneInput(c: Curve, h: Hashes, ps: Participants, packet: Packet, i: nat, s: Session, groupKey: Point,
      nonces: map<uint32, NonceSecret>)
    returns (r: Result<(), SignError>)
    requires Valid(c) && s.signers != [] && InputSession(c, h, s, groupKey, nonces)
    requires i < |packet.inputs| && packet.inputs[i].partialSigs == map[] && packet.inputs[i].keySpendSig == []
    modifies packet`inputs, packet`acceptedIn
    ensures |packet.inputs| == |old(packet.inputs)|
    ensures forall j | 0 <= j < |packet.inputs| && j != i :: packet.inputs[j] == old(packet.inputs[j])
    ensures r.Ok? <==> AllReady(ps, s.signers)
    ensures r.Err? ==> FirstUnready(ps, s.signers, r.error)
    ensures OnlyVerified(c, h, s.groupKey, s.message, packet.inputs[i].keySpendSig)
    ensures r.Ok? ==> IsFinalised(c, h, ps, s, groupKey, nonces, packet.inputs[i].keySpendSig)
    ensures r.Ok? ==> forall f | f != [] && HonestSigners(c, ps, s.signers, f) && groupKey == Gen(c, f[0]) ::
      packet.inputs[i].keySpendSig != [] <==> NonceIsNotIdentity(c, h, s) && s.groupKey != Infinity
  {
    hide *;
    SessionCovers(c, h, s, groupKey, nonces);
    var collected := CollectPartials(c, h, ps, s, groupKey, nonces);
    NotSetOrVerified(c, h, s.groupKey, s.message, []);
    if collected.Err? {
      return Err(collected.error);
    }
    var partials := collected.value;
    CollectedReduced(c, h, ps, s, groupKey, nonces, partials);
    CollectedLength(c, h, ps, s, groupKey, nonces, partials);
    var aggregated, order := Aggregate(c, h, s, partials);
    if aggregated.Err? {
      return Err(AggregationFailed);
    }
    StorePartials(c, h, packet, i, partials);
    StoredIsNotEmpty(partials);
    ghost var stored := packet.inputs[i].partialSigs;
    var finalized, sorted := packet.FinalizeInput(c, h, i, s);
    SignatureLength(c, h, s, sorted, stored);
    FinalisedBy(c, h, ps, s, groupKey, nonces, partials, sorted, packet.inputs[i].keySpendSig);
    NotSetOrVerified(c, h, s.groupKey, s.message, packet.inputs[i].keySpendSig);
    forall f | f != [] && HonestSigners(c, ps, s.signers, f) && groupKey == Gen(c, f[0])
      ensures packet.inputs[i].keySpendSig != [] <==> NonceIsNotIdentity(c, h, s) && s.groupKey != Infinity
    {
      HonestInput(c, h, ps, s, f, nonces, partials, sorted);
    }
    return Ok(());
  }

  lemma SessionCovers(c: Curve, h: Hashes, s: Session, groupKey: Point, nonces: map<uint32, NonceSecret>)
    requires InputSession(c, h, s, groupKey, nonces)
    ensures forall i | i in s.signers ::
      i in nonces && exists k :: 0 <= k < |s.commitments| && s.commitments[k].index == i
  {
    hide CommitNonce, OutputKey, Distinct;
    forall i | i in s.signers
      ensures i in nonces && exists k :: 0 <= k < |s.commitments| && s.commitments[k].index == i
    {
      var k :| 0 <= k < |s.signers| && s.signers[k] == i;
      assert s.commitments[k].index == i;
    }
  }

  lemma CollectedLength(c: Curve, h: Hashes, ps: Participants, s: Session, groupKey: Point,
      nonces: map<uint32, NonceSecret>, partials: seq<PartialSignature>)
    requires Collected(c, h, ps, s, groupKey, nonces, partials)
    ensures |partials| == |s.signers|
  {
    hide TweakShare, IsPartialOf;
  }

  lemma StoredIsNotEmpty(partials: seq<PartialSignature>)
    requires partials != [] && forall k | 0 <= k < |partials| :: partials[k].z >= 0
    ensures StoreAll(map[], partials) != map[]
  {
    assert partials[|partials| - 1].index in StoreAll(map[], partials);
    hide Word;
  }

  lemma SignatureLength(c: Curve, h: Hashes, s: Session, sorted: seq<NonceCommitment>, stored: map<uint32, Bytes>)
    ensures |SignatureOf(c, h, s, sorted, stored)| == 64
  {
    hide Word, NoncePoint, Mod, StoredTotal;
  }

  // ----- All inputs -----

  /** Signs the inputs in order, one session per sighash.  A signature that gets set has passed
      verification for that input's own sighash under the output key, whoever the signers are. */
  method SignAllInputs(c: Curve, h: Hashes, ps: Participants, packet: Packet, sigHashes: seq<Message>,
      signers: seq<uint32>, commitments: seq<NonceCommitment>, groupKey: Point, nonces: map<uint32, NonceSecret>)
    returns (r: Result<(), SignError>)
    requires Valid(c) && signers != [] && |sigHashes| == |packet.inputs|
    requires forall m: Message ::
      InputSession(c, h, SessionFor(c, h, m, signers, commitments, groupKey), groupKey, nonces)
    requires forall i | 0 <= i < |packet.inputs| ::
      packet.inputs[i].partialSigs == map[] && packet.inputs[i].keySpendSig == []
    modifies packet`inputs, packet`acceptedIn
    ensures |packet.inputs| == |sigHashes|
    ensures forall i | 0 <= i < |packet.inputs| ::
      OnlyVerified(c, h, OutputKey(c, h, groupKey), sigHashes[i], packet.inputs[i].keySpendSig)
    ensures r.Ok? <==> sigHashes == [] || AllReady(ps, signers)
    ensures r.Err? ==> FirstUnready(ps, signers, r.error)
    ensures r.Ok? ==> forall i | 0 <= i < |packet.inputs| :: IsFinalised(c, h, ps,
      SessionFor(c, h, sigHashes[i], signers, commitments, groupKey), groupKey, nonces, packet.inputs[i].keySpendSig)
    ensures r.Ok? ==> forall f, i |
      f != [] && HonestSigners(c, ps, signers, f) && groupKey == Gen(c, f[0]) && 0 <= i < |packet.inputs| ::
      packet.inputs[i].keySpendSig != [] <==>
        && NonceIsNotIdentity(c, h, SessionFor(c, h, sigHashes[i], signers, commitments, groupKey))
        && OutputKey(c, h, groupKey) != Infinity
  {
    hide Valid, AllReady, FirstUnready, HonestSigners, Gen, OutputKey, NonceIsNotIdentity, SessionFor, InputSession,
      VerifySchnorr, IsFinalised;
    for i := 0 to |sigHashes|
      invariant |packet.inputs| == |sigHashes| && (i > 0 ==> AllReady(ps, signers))
      invariant forall j | i <= j < |packet.inputs| ::
        packet.inputs[j].partialSigs == map[] && packet.inputs[j].keySpendSig == []
      invariant forall j | 0 <= j < i ::
        OnlyVerified(c, h, OutputKey(c, h, groupKey), sigHashes[j], packet.inputs[j].keySpendSig)
      invariant forall j | 0 <= j < i :: IsFinalised(c, h, ps,
        SessionFor(c, h, sigHashes[j], signers, commitments, groupKey), groupKey, nonces, packet.inputs[j].keySpendSig)
      invariant forall f, j | f != [] && HonestSigners(c, ps, signers, f) && groupKey == Gen(c, f[0]) && 0 <= j < i ::
        packet.inputs[j].keySpendSig != [] <==>
          && NonceIsNotIdentity(c, h, SessionFor(c, h, sigHashes[j], signers, commitments, groupKey))
          && OutputKey(c, h, groupKey) != Infinity
    {
      var s := Session(sigHashes[i], OutputKey(c, h, groupKey), commitments, signers);
      SessionForIs(c, h, sigHashes[i], signers, commitments, groupKey);
      var signed := SignOneInput(c, h, ps, packet, i, s, groupKey, nonces);
      if signed.Err? {
        return Err(signed.error);
      }
    }
    return Ok(());
  }

  function SessionFor(c: Curve, h: Hashes, message: Message, signers: seq<uint32>, commitments: seq<NonceCommitment>,
      groupKey: Point): Session {
    Session(message, OutputKey(c, h, groupKey), commitments, signers)
  }

  lemma SessionForIs(c: Curve, h: Hashes, message: Message, signers: seq<uint32>, commitments: seq<NonceCommitment>,
      groupKey: Point)
    ensures SessionFor(c, h, message, signers, commitments, groupKey) == Session(message, OutputKey(c, h, groupKey),
      commitments, signers)
  {
  }

  /** The nonces and commitments made for a signer list fit a session for any message. */
  lemma SessionsFit(c: Curve, h: Hashes, message: Message, signers: seq<uint32>, random: seq<NonceSecret>,
      nonces: map<uint32, NonceSecret>, groupKey: Point)
    requires |signers| == |random| && forall i :: i in nonces <==> i in signers
    requires Distinct(signers) ==> forall k | 0 <= k < |signers| :: nonces[signers[k]] == random[k]
    ensures InputSession(c, h, SessionFor(c, h, message, signers, CommitAll(c, signers, random), groupKey), groupKey,
      nonces)
  {
    hide OutputKey, Distinct, Gen;
  }

  lemma VerifiedIsComplete(c: Curve, h: Hashes, key: Point, message: Message, sig: Bytes)
    requires OnlyVerified(c, h, key, message, sig)
    ensures |sig| == 64 <==> sig != []
    ensures |sig| == 64 ==> VerifySchnorr(c, h, key, message, sig)
  {
  }

  lemma HonestAreReady(c: Curve, ps: Participants, signers: seq<uint32>, f: seq<int>)
    requires HonestSigners(c, ps, signers, f)
    ensures forall i | i in signers :: Ready(ps, i)
  {
    hide Mod, Eval, Distinct;
  }
}
