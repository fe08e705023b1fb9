/** What key generation guarantees: soundness against dishonest senders, and the outcome of an
    honest ceremony. */
module Dkg {
  import opened Wrappers
  import opened Modular
  import opened Curve
  import opened Polynomial
  import opened Lagrange
  import opened Frost

  /** The senders of the broadcasts, in broadcast order. */
  function Senders(round1: seq<Round1Output>): (s: seq<uint32>)
    ensures |s| == |round1| && forall k | 0 <= k < |s| :: s[k] == round1[k].index
  {
    if round1 == [] then [] else Senders(round1[..|round1| - 1]) + [round1[|round1| - 1].index]
  }

  ghost predicate AllCommitmentsOnCurve(c: Curve, round1: seq<Round1Output>) {
    forall k | 0 <= k < |round1| :: AllOnCurve(c, round1[k].commitments)
  }

  /** The value at x of the sum of all committed polynomials. */
  ghost function CommittedSum(c: Curve, round1: seq<Round1Output>, x: int): int {
    if round1 == [] then 0 else
      var n := |round1| - 1;
      CommittedSum(c, round1[..n], x) + PowerSum(Committed(c, round1[n].commitments), x)
  }

  lemma {:induction false} VerificationPointIsGen(c: Curve, round1: seq<Round1Output>, m: nat)
    requires Valid(c) && AllCommitmentsOnCurve(c, round1)
    ensures VerificationPoint(c, round1, m) == Gen(c, CommittedSum(c, round1, m))
  {
    hide Valid, Gen, OnCurve, AllOnCurve, CommitEval, Committed, PowerSum;
    if round1 == [] {
      GenOfZero(c);
    } else {
      var n := |round1| - 1;
      VerificationPointIsGen(c, round1[..n], m);
      CommitEvalIsGen(c, round1[n].commitments, m);
      GenAdd(c, CommittedSum(c, round1[..n], m), PowerSum(Committed(c, round1[n].commitments), m));
    }
  }

  lemma PowerSumAtZero(cs: seq<int>)
    requires cs != []
    ensures PowerSum(cs, 0) == cs[0] == Eval(cs, 0)
  {
    HornerIsPowerSum(cs, 0);
  }

  lemma {:induction false} GroupPointIsGen(c: Curve, round1: seq<Round1Output>)
    requires Valid(c) && AllCommitmentsOnCurve(c, round1) && NonEmpty(round1)
    ensures GroupPoint(c, round1) == Gen(c, CommittedSum(c, round1, 0))
  {
    hide Valid, Gen, OnCurve, PowerSum;
    if round1 == [] {
      GenOfZero(c);
    } else {
      var n := |round1| - 1;
      var cs := Committed(c, round1[n].commitments);
      GroupPointIsGen(c, round1[..n]);
      PowerSumAtZero(cs);
      LogCorrect(c, round1[n].commitments[0]);
      GenAdd(c, CommittedSum(c, round1[..n], 0), cs[0]);
    }
  }

  lemma {:induction false} LookupSender(round1: seq<Round1Output>, k: nat)
    requires Distinct(Senders(round1)) && k < |round1|
    ensures Lookup(round1, round1[k].index) == Some(round1[k])
  {
    var n := |round1| - 1;
    var s := Senders(round1);
    if k < n {
      assert s[k] != s[n];
      assert Senders(round1[..n]) == s[..n];
      LookupSender(round1[..n], k);
    }
  }

  /** An accepted share is the value at this index of the polynomial its sender committed to. */
  lemma AcceptedShare(c: Curve, index: uint32, round1: seq<Round1Output>, shares: map<uint32, int>, k: nat)
    requires Valid(c) && AllCommitmentsOnCurve(c, round1) && Distinct(Senders(round1)) && k < |round1|
    requires round1[k].index in shares && 0 <= shares[round1[k].index] < c.q
    ensures ShareAccepted(c, index, round1, round1[k].index, shares[round1[k].index])
       <==> shares[round1[k].index] == Mod(c.q, PowerSum(Committed(c, round1[k].commitments), index))
  {
    hide Valid, Gen, OnCurve, PowerSum, Mod, ShareMatches, Committed, Lookup;
    LookupSender(round1, k);
    ShareMatchesCommitted(c, shares[round1[k].index], round1[k].commitments, index);
  }

  /** Every share is the value at this index of the polynomial its sender committed to. */
  ghost predicate SharesAreCommitted(c: Curve, index: nat, round1: seq<Round1Output>, shares: map<uint32, int>) {
    forall k | 0 <= k < |round1| ::
      && round1[k].index in shares
      && shares[round1[k].index] == Mod(c.q, PowerSum(Committed(c, round1[k].commitments), index))
  }

  lemma {:induction false} SumOfAcceptedShares(c: Curve, index: uint32, round1: seq<Round1Output>,
      shares: map<uint32, int>)
    requires SharesAreCommitted(c, index, round1, shares)
    ensures Mod(c.q, Sum(Senders(round1), ValueOf(shares))) == Mod(c.q, CommittedSum(c, round1, index))
  {
    hide Mod, PowerSum, Committed;
    if round1 != [] {
      var n := |round1| - 1;
      var front, j := round1[..n], round1[n].index;
      SumOfAcceptedShares(c, index, front, shares);
      SumAppend(Senders(front), ValueOf(shares), j);
      ModMod(c.q, PowerSum(Committed(c, round1[n].commitments), index));
      CongSum(c.q, Sum(Senders(front), ValueOf(shares)), CommittedSum(c, front, index),
        shares[j], PowerSum(Committed(c, round1[n].commitments), index));
    }
  }

  /** The shares come from exactly the senders of the broadcasts, who are all different. */
  ghost predicate FromSenders(round1: seq<Round1Output>, shares: map<uint32, int>) {
    Distinct(Senders(round1)) && shares.Keys == set j | j in Senders(round1)
  }

  ghost predicate AllReduced(q: Modulus, shares: map<uint32, int>) {
    forall j | j in shares :: 0 <= shares[j] < q
  }

  /** Whatever the senders committed to, accepted shares lie on the committed polynomials. */
  lemma AcceptedSharesAreCommitted(c: Curve, index: uint32, round1: seq<Round1Output>, shares: map<uint32, int>)
    requires Valid(c) && AllCommitmentsOnCurve(c, round1) && FromSenders(round1, shares) && AllReduced(c.q, shares)
    requires SharesAccepted(c, index, round1, shares)
    ensures SharesAreCommitted(c, index, round1, shares)
  {
    hide Valid, OnCurve, AllOnCurve, AllCommitmentsOnCurve, PowerSum, Mod, ShareAccepted, Committed;
    forall k | 0 <= k < |round1|
      ensures round1[k].index in shares
        && shares[round1[k].index] == Mod(c.q, PowerSum(Committed(c, round1[k].commitments), index))
    {
      assert round1[k].index == Senders(round1)[k];
      AcceptedShare(c, index, round1, shares, k);
    }
  }

  /** Soundness of finalisation, whatever the senders committed to: the secret share is the sum of
      the committed polynomials at this index, it is the one behind this participant's public
      verification share, and the group key is behind their sum at zero. */
  lemma FinaliseSound(c: Curve, p: Participant, round1: seq<Round1Output>, shares: map<uint32, int>, r: DkgResult)
    requires Valid(c) && NonEmpty(round1) && AllCommitmentsOnCurve(c, round1)
    requires FromSenders(round1, shares) && AllReduced(c.q, shares) && 1 <= p.index <= p.total
    requires SharesAccepted(c, p.index, round1, shares) && IsResultOf(c, r, p, round1, shares)
    ensures r.secretShare == Mod(c.q, CommittedSum(c, round1, p.index))
    ensures p.index in r.verificationShares && Gen(c, r.secretShare) == r.verificationShares[p.index]
    ensures r.groupKey == Gen(c, CommittedSum(c, round1, 0))
  {
    hide Valid, Gen, OnCurve, AllOnCurve, AllCommitmentsOnCurve, PowerSum, Mod, CommittedSum, VerificationPoint,
      GroupPoint, ToPublicKey, SharesAccepted, SharesAreCommitted, Committed;
    AcceptedSharesAreCommitted(c, p.index, round1, shares);
    SumOfAcceptedShares(c, p.index, round1, shares);
    SetSumOfList(shares.Keys, Senders(round1), ValueOf(shares));
    VerificationPointIsGen(c, round1, p.index);
    GroupPointIsGen(c, round1);
    ModMod(c.q, CommittedSum(c, round1, p.index));
    GenMod(c, r.secretShare, CommittedSum(c, round1, p.index));
    GenOnCurve(c, CommittedSum(c, round1, p.index));
    GenOnCurve(c, CommittedSum(c, round1, 0));
    PublicKeyRoundTrip(c, VerificationPoint(c, round1, p.index));
    PublicKeyRoundTrip(c, GroupPoint(c, round1));
  }

  // ----- Missing shares -----

  /** The broadcasts whose senders' shares have arrived, or the others. */
  function Where(round1: seq<Round1Output>, keys: set<uint32>, arrived: bool): (some: seq<Round1Output>)
    ensures forall k | 0 <= k < |some| :: (some[k].index in keys) == arrived && some[k] in round1
  {
    if round1 == [] then [] else
      var last := round1[|round1| - 1];
      Where(round1[..|round1| - 1], keys, arrived) + if (last.index in keys) == arrived then [last] else []
  }

  lemma {:induction false} CommittedSumSplits(c: Curve, round1: seq<Round1Output>, keys: set<uint32>, x: int)
    ensures CommittedSum(c, round1, x)
         == CommittedSum(c, Where(round1, keys, true), x) + CommittedSum(c, Where(round1, keys, false), x)
  {
    hide PowerSum, Committed;
    if round1 != [] {
      var n := |round1| - 1;
      CommittedSumSplits(c, round1[..n], keys, x);
      assert CommittedSum(c, round1, x)
        == CommittedSum(c, round1[..n], x) + PowerSum(Committed(c, round1[n].commitments), x);
      CommittedSumStep(c, round1, keys, x);
      hide CommittedSum, Where;
    }
  }

  lemma CommittedSumStep(c: Curve, round1: seq<Round1Output>, keys: set<uint32>, x: int)
    requires round1 != []
    ensures var n := |round1| - 1;
      var arrived := round1[n].index in keys;
      && CommittedSum(c, Where(round1, keys, !arrived), x) == CommittedSum(c, Where(round1[..n], keys, !arrived), x)
      && CommittedSum(c, Where(round1, keys, arrived), x)
         == CommittedSum(c, Where(round1[..n], keys, arrived), x) + PowerSum(Committed(c, round1[n].commitments), x)
  {
    hide PowerSum, Committed;
    var n := |round1| - 1;
    var arrived := round1[n].index in keys;
    var front := Where(round1[..n], keys, arrived);
    assert Where(round1, keys, arrived) == front + [round1[n]];
    assert (front + [round1[n]])[..|front|] == front;
    var others := Where(round1[..n], keys, !arrived);
    assert Where(round1, keys, !arrived) == others + [] == others;
  }

  lemma WhereNext(round1: seq<Round1Output>, keys: set<uint32>)
    requires round1 != []
    ensures var n := |round1| - 1;
      var front := Where(round1[..n], keys, true);
      Where(round1, keys, true) == if round1[n].index in keys then front + [round1[n]] else front
  {
    var front := Where(round1[..|round1| - 1], keys, true);
    assert front + [] == front;
  }

  lemma SendersNext(front: seq<Round1Output>, last: Round1Output, j: uint32)
    ensures Senders(front + [last]) == Senders(front) + [last.index]
    ensures j in Senders(front + [last]) <==> j in Senders(front) || j == last.index
    ensures Lookup(front + [last], j) == if j == last.index then Some(last) else Lookup(front, j)
  {
    assert (front + [last])[..|front|] == front;
  }

  /** A sender whose share has arrived is still found. */
  lemma {:induction false} ArrivedSender(round1: seq<Round1Output>, keys: set<uint32>, j: uint32)
    ensures j in keys ==> Lookup(Where(round1, keys, true), j) == Lookup(round1, j)
    ensures j in Senders(Where(round1, keys, true)) <==> j in keys && j in Senders(round1)
    ensures Lookup(round1, j).Some? <==> j in Senders(round1)
  {
    if round1 != [] {
      var n := |round1| - 1;
      ArrivedSender(round1[..n], keys, j);
      WhereNext(round1, keys);
      assert round1 == round1[..n] + [round1[n]];
      hide Where, Senders, Lookup;
      SendersNext(Where(round1[..n], keys, true), round1[n], j);
      SendersNext(round1[..n], round1[n], j);
    }
  }

  lemma {:induction false} ArrivedDistinct(round1: seq<Round1Output>, keys: set<uint32>)
    requires Distinct(Senders(round1))
    ensures Distinct(Senders(Where(round1, keys, true)))
  {
    if round1 != [] {
      var n := |round1| - 1;
      var s := Senders(round1);
      assert Senders(round1[..n]) == s[..n];
      assert s[n] == round1[n].index && s[n] !in s[..n];
      ArrivedDistinct(round1[..n], keys);
      ArrivedSender(round1[..n], keys, round1[n].index);
      WhereNext(round1, keys);
      hide Where, Senders, Lookup;
      SendersNext(Where(round1[..n], keys, true), round1[n], round1[n].index);
    }
  }

  /** The code does not check that every sender's share has arrived.  When some are missing, the secret
      share is the sum of the others, and it is the one behind this participant's verification share
      exactly when what the missing senders committed to at this index sums to zero. */
  lemma FinaliseWithMissing(c: Curve, p: Participant, round1: seq<Round1Output>, shares: map<uint32, int>, r: DkgResult)
    requires Valid(c) && NonEmpty(round1) && AllCommitmentsOnCurve(c, round1) && Distinct(Senders(round1))
    requires AllReduced(c.q, shares) && 1 <= p.index <= p.total
    requires SharesAccepted(c, p.index, round1, shares) && IsResultOf(c, r, p, round1, shares)
    ensures r.secretShare == Mod(c.q, CommittedSum(c, Where(round1, shares.Keys, true), p.index))
    ensures p.index in r.verificationShares
    ensures Gen(c, r.secretShare) == r.verificationShares[p.index]
       <==> Mod(c.q, CommittedSum(c, Where(round1, shares.Keys, false), p.index)) == 0
  {
    hide Valid, Gen, OnCurve, AllOnCurve, AllCommitmentsOnCurve, PowerSum, Mod, CommittedSum, VerificationPoint,
      GroupPoint, ToPublicKey, SharesAccepted, SharesAreCommitted, Committed, Distinct, Where, NonEmpty, Senders;
    var arrived := Where(round1, shares.Keys, true);
    ArrivedFromSenders(c, p.index, round1, shares);
    AcceptedSharesAreCommitted(c, p.index, arrived, shares);
    SumOfAcceptedShares(c, p.index, arrived, shares);
    SetSumOfList(shares.Keys, Senders(arrived), ValueOf(shares));
    VerificationPointIsGen(c, round1, p.index);
    GenOnCurve(c, CommittedSum(c, round1, p.index));
    PublicKeyRoundTrip(c, VerificationPoint(c, round1, p.index));
    CommittedSumSplits(c, round1, shares.Keys, p.index);
    PartOfSum(c, r.secretShare, CommittedSum(c, arrived, p.index),
      CommittedSum(c, Where(round1, shares.Keys, false), p.index));
  }

  lemma ArrivedFromSenders(c: Curve, index: uint32, round1: seq<Round1Output>, shares: map<uint32, int>)
    requires AllCommitmentsOnCurve(c, round1) && Distinct(Senders(round1))
    requires SharesAccepted(c, index, round1, shares)
    ensures var arrived := Where(round1, shares.Keys, true);
      AllCommitmentsOnCurve(c, arrived) && FromSenders(arrived, shares) && SharesAccepted(c, index, arrived, shares)
  {
    hide AllOnCurve, Distinct, ShareMatches, Lookup, Where, Senders;
    ArrivedDistinct(round1, shares.Keys);
    forall j: uint32
      ensures j in shares ==> Lookup(Where(round1, shares.Keys, true), j) == Lookup(round1, j)
      ensures j in Senders(Where(round1, shares.Keys, true)) <==> j in shares
    {
      ArrivedSender(round1, shares.Keys, j);
      if j in shares {
        assert ShareAccepted(c, index, round1, j, shares[j]);
      }
    }
  }

  lemma PartOfSum(c: Curve, share: int, a: int, b: int)
    requires Valid(c) && share == Mod(c.q, a)
    ensures Gen(c, share) == Gen(c, a + b) <==> Mod(c.q, b) == 0
  {
    hide *;
    ModMod(c.q, a);
    GenInjective(c, share, a + b);
    CongDifference(c.q, a + b, a);
    assert a + b - a == b;
  }

  /** Changing any single share makes finalisation fail. */
  lemma AlteredShareRejected(c: Curve, p: Participant, round1: seq<Round1Output>, shares: map<uint32, int>,
      j: uint32, share: int)
    requires Valid(c) && NonEmpty(round1) && AllCommitmentsOnCurve(c, round1)
    requires FromSenders(round1, shares) && AllReduced(c.q, shares) && Accepts(c, p, round1, shares)
    requires j in shares && 0 <= share < c.q && share != shares[j]
    ensures !Accepts(c, p, round1, shares[j := share])
  {
    hide Valid, Gen, OnCurve, AllOnCurve, PowerSum, Mod, VerificationPoint, GroupPoint, ToPublicKey, ShareAccepted,
      Committed;
    var k :| 0 <= k < |round1| && Senders(round1)[k] == j;
    AcceptedShare(c, p.index, round1, shares, k);
    AcceptedShare(c, p.index, round1, shares[j := share], k);
    assert ShareAccepted(c, p.index, round1, j, shares[j]);
  }

  // ----- The honest ceremony -----

  function AddPolynomials(cs: seq<int>, ds: seq<int>): (es: seq<int>)
    requires |cs| == |ds|
    ensures |es| == |cs| && forall k | 0 <= k < |es| :: es[k] == cs[k] + ds[k]
  {
    if cs == [] then [] else [cs[0] + ds[0]] + AddPolynomials(cs[1..], ds[1..])
  }

  lemma {:induction false} AddPolynomialsEval(cs: seq<int>, ds: seq<int>, x: int)
    requires |cs| == |ds|
    ensures Eval(AddPolynomials(cs, ds), x) == Eval(cs, x) + Eval(ds, x)
  {
    if cs != [] {
      EvalHead(cs, x);
      EvalHead(ds, x);
      EvalHead(AddPolynomials(cs, ds), x);
      hide Eval;
      AddPolynomialsEval(cs[1..], ds[1..], x);
      assert AddPolynomials(cs, ds)[1..] == AddPolynomials(cs[1..], ds[1..]);
      assert x * (Eval(cs[1..], x) + Eval(ds[1..], x)) == x * Eval(cs[1..], x) + x * Eval(ds[1..], x);
    }
  }

  ghost predicate SameLength(polys: seq<seq<int>>, t: nat) {
    forall k | 0 <= k < |polys| :: |polys[k]| == t
  }

  /** The sum of everybody's polynomials; its constant term is the group secret. */
  ghost function GroupPolynomial(polys: seq<seq<int>>, t: nat): (f: seq<int>)
    requires SameLength(polys, t)
    ensures |f| == t
  {
    if polys == [] then seq(t, k => 0) else
      AddPolynomials(GroupPolynomial(polys[..|polys| - 1], t), polys[|polys| - 1])
  }

  ghost predicate AllPolynomialsReduced(q: Modulus, polys: seq<seq<int>>) {
    forall k | 0 <= k < |polys| :: Reduced(q, polys[k])
  }

  ghost predicate HonestBroadcasts(c: Curve, polys: seq<seq<int>>, round1: seq<Round1Output>) {
    && |round1| == |polys|
    && forall k | 0 <= k < |round1| :: round1[k].index == k + 1 && round1[k].commitments == Commit(c, polys[k])
  }

  ghost predicate HonestShares(q: Modulus, polys: seq<seq<int>>, index: nat, shares: map<uint32, int>) {
    && (forall j: uint32 :: j in shares <==> 1 <= j <= |polys|)
    && forall j: uint32 | 1 <= j <= |polys| :: shares[j] == Mod(q, PowerSum(polys[j - 1], index))
  }

  lemma {:induction false} ZeroPolynomial(cs: seq<int>, x: int)
    requires forall k | 0 <= k < |cs| :: cs[k] == 0
    ensures Eval(cs, x) == 0
  {
    if cs != [] {
      ZeroPolynomial(cs[1..], x);
      EvalHead(cs, x);
    }
  }

  lemma {:induction false} HonestCommittedSum(c: Curve, polys: seq<seq<int>>, t: nat, round1: seq<Round1Output>, x: int)
    requires Valid(c) && SameLength(polys, t) && AllPolynomialsReduced(c.q, polys) && HonestBroadcasts(c, polys, round1)
    ensures AllCommitmentsOnCurve(c, round1)
    ensures CommittedSum(c, round1, x) == Eval(GroupPolynomial(polys, t), x)
  {
    hide Valid, OnCurve, AllOnCurve, Reduced, Commit, Committed, Eval, PowerSum;
    if polys == [] {
      ZeroPolynomial(GroupPolynomial(polys, t), x);
    } else {
      var n := |polys| - 1;
      HonestCommittedSum(c, polys[..n], t, round1[..n], x);
      CommittedOfCommit(c, polys[n]);
      HornerIsPowerSum(polys[n], x);
      AddPolynomialsEval(GroupPolynomial(polys[..n], t), polys[n], x);
      forall k | 0 <= k < |round1| ensures AllOnCurve(c, round1[k].commitments) {
        if k < n { assert round1[..n][k] == round1[k]; }
      }
    }
  }

  ghost predicate Honest(c: Curve, polys: seq<seq<int>>, t: nat, p: Participant, round1: seq<Round1Output>,
      shares: map<uint32, int>) {
    && 1 <= t && SameLength(polys, t) && AllPolynomialsReduced(c.q, polys)
    && 1 <= p.index <= p.total == |polys|
    && HonestBroadcasts(c, polys, round1) && HonestShares(c.q, polys, p.index, shares)
  }

  /** No value of f at 0, 1, ..., n is zero. */
  ghost predicate NonZeroUpTo(q: Modulus, f: seq<int>, n: nat) {
    forall m | 0 <= m <= n :: Mod(q, Eval(f, m)) != 0
  }

  lemma HonestSenders(c: Curve, polys: seq<seq<int>>, t: nat, p: Participant, round1: seq<Round1Output>,
      shares: map<uint32, int>)
    requires Honest(c, polys, t, p, round1, shares)
    ensures NonEmpty(round1) && FromSenders(round1, shares) && AllReduced(c.q, shares)
  {
    hide Gen, Mod, PowerSum, Reduced;
    var s := Senders(round1);
    forall j: uint32 ensures j in shares <==> j in s {
      if j in shares { assert s[j - 1] == j; }
    }
  }

  lemma HonestShareAccepted(c: Curve, polys: seq<seq<int>>, t: nat, p: Participant, round1: seq<Round1Output>,
      shares: map<uint32, int>, j: uint32)
    requires Valid(c) && Honest(c, polys, t, p, round1, shares) && j in shares
    requires AllCommitmentsOnCurve(c, round1) && FromSenders(round1, shares) && AllReduced(c.q, shares)
    ensures ShareAccepted(c, p.index, round1, j, shares[j])
  {
    hide Valid, OnCurve, AllOnCurve, AllCommitmentsOnCurve, Gen, Mod, PowerSum, Committed, ShareAccepted, Reduced,
      Commit, Distinct;
    CommittedOfCommit(c, polys[j - 1]);
    AcceptedShare(c, p.index, round1, shares, j - 1);
  }

  lemma HonestSetup(c: Curve, polys: seq<seq<int>>, t: nat, p: Participant, round1: seq<Round1Output>,
      shares: map<uint32, int>)
    requires Valid(c) && Honest(c, polys, t, p, round1, shares)
    ensures NonEmpty(round1) && AllCommitmentsOnCurve(c, round1)
    ensures FromSenders(round1, shares) && AllReduced(c.q, shares)
    ensures SharesAccepted(c, p.index, round1, shares)
  {
    hide Valid, AllCommitmentsOnCurve, NonEmpty, FromSenders, AllReduced, ShareAccepted, HonestBroadcasts, HonestShares,
      SameLength, AllPolynomialsReduced, GroupPolynomial, CommittedSum, Eval;
    HonestCommittedSum(c, polys, t, round1, 0);
    HonestSenders(c, polys, t, p, round1, shares);
    forall j | j in shares ensures ShareAccepted(c, p.index, round1, j, shares[j]) {
      HonestShareAccepted(c, polys, t, p, round1, shares, j);
    }
  }

  lemma HonestPoint(c: Curve, polys: seq<seq<int>>, t: nat, round1: seq<Round1Output>, m: nat)
    requires Valid(c) && SameLength(polys, t) && AllPolynomialsReduced(c.q, polys) && HonestBroadcasts(c, polys, round1)
    ensures VerificationPoint(c, round1, m) == Gen(c, Eval(GroupPolynomial(polys, t), m))
    ensures NonEmpty(round1) ==> GroupPoint(c, round1) == Gen(c, Eval(GroupPolynomial(polys, t), 0))
    ensures ToPublicKey(c, Gen(c, Eval(GroupPolynomial(polys, t), m)))
         == if Mod(c.q, Eval(GroupPolynomial(polys, t), m)) != 0
            then Some(Gen(c, Eval(GroupPolynomial(polys, t), m))) else None
  {
    hide *;
    HonestCommittedSum(c, polys, t, round1, m);
    HonestCommittedSum(c, polys, t, round1, 0);
    VerificationPointIsGen(c, round1, m);
    if NonEmpty(round1) { GroupPointIsGen(c, round1); }
    var v := Eval(GroupPolynomial(polys, t), m);
    GenOnCurve(c, v);
    GenZero(c, v);
    PublicKeyRoundTrip(c, Gen(c, v));
  }

  /** In an honest ceremony every participant finalises exactly when no value of the group
      polynomial at 0, ..., n is zero, and then holds its value at their own index. */
  lemma HonestFinalise(c: Curve, polys: seq<seq<int>>, t: nat, p: Participant, round1: seq<Round1Output>,
      shares: map<uint32, int>)
    requires Valid(c) && Honest(c, polys, t, p, round1, shares)
    ensures NonEmpty(round1) && AllReduced(c.q, shares)
    ensures Accepts(c, p, round1, shares) <==> NonZeroUpTo(c.q, GroupPolynomial(polys, t), |polys|)
  {
    hide Valid, OnCurve, Gen, Mod, GroupPolynomial, VerificationPoint, GroupPoint, ToPublicKey, SharesAccepted, Eval,
      NonEmpty, FromSenders, AllCommitmentsOnCurve, AllReduced;
    HonestSetup(c, polys, t, p, round1, shares);
    HonestPoints(c, polys, t, round1);
    if Accepts(c, p, round1, shares) {
      forall m | 0 <= m <= |polys| ensures Mod(c.q, Eval(GroupPolynomial(polys, t), m)) != 0 {
        if m > 0 {
          var i: uint32 := m;
          assert ToPublicKey(c, VerificationPoint(c, round1, i)).Some?;
        }
      }
    }
  }

  lemma HonestPoints(c: Curve, polys: seq<seq<int>>, t: nat, round1: seq<Round1Output>)
    requires Valid(c) && SameLength(polys, t) && AllPolynomialsReduced(c.q, polys) && HonestBroadcasts(c, polys, round1)
    requires NonEmpty(round1)
    ensures ToPublicKey(c, GroupPoint(c, round1)).Some? <==> Mod(c.q, Eval(GroupPolynomial(polys, t), 0)) != 0
    ensures forall m: nat ::
      ToPublicKey(c, VerificationPoint(c, round1, m)).Some? <==> Mod(c.q, Eval(GroupPolynomial(polys, t), m)) != 0
  {
    hide *;
    forall m: nat
      ensures ToPublicKey(c, VerificationPoint(c, round1, m)).Some?
         <==> Mod(c.q, Eval(GroupPolynomial(polys, t), m)) != 0
    {
      HonestPoint(c, polys, t, round1, m);
    }
    HonestPoint(c, polys, t, round1, 0);
  }

  lemma HonestResult(c: Curve, polys: seq<seq<int>>, t: nat, p: Participant, round1: seq<Round1Output>,
      shares: map<uint32, int>, r: DkgResult)
    requires Valid(c) && Honest(c, polys, t, p, round1, shares) && NonEmpty(round1)
    requires IsResultOf(c, r, p, round1, shares)
    ensures r.groupKey == Gen(c, Eval(GroupPolynomial(polys, t), 0))
    ensures r.secretShare == Mod(c.q, Eval(GroupPolynomial(polys, t), p.index))
    ensures forall m: uint32 :: m in r.verificationShares <==> 1 <= m <= p.total
    ensures forall m: uint32 | 1 <= m <= p.total ::
      r.verificationShares[m] == Gen(c, Eval(GroupPolynomial(polys, t), m))
  {
    hide Valid, OnCurve, Gen, Mod, GroupPolynomial, CommittedSum, VerificationPoint, GroupPoint, ToPublicKey,
      Accepts, Eval, PowerSum, NonEmpty, SetSum, FromSenders, AllCommitmentsOnCurve, HonestBroadcasts, HonestShares,
      SameLength, AllPolynomialsReduced;
    HonestSetup(c, polys, t, p, round1, shares);
    FinaliseSound(c, p, round1, shares, r);
    HonestCommittedSum(c, polys, t, round1, 0);
    HonestCommittedSum(c, polys, t, round1, p.index);
    forall m: uint32 | 1 <= m <= p.total ensures r.verificationShares[m] == Gen(c, Eval(GroupPolynomial(polys, t), m)) {
      HonestPoint(c, polys, t, round1, m);
    }
  }
}
