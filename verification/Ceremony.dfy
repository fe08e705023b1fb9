/** The steps of the orchestrated key-generation ceremony. */
module Ceremony {
  import opened Wrappers
  import opened Modular
  import opened Curve
  import opened Polynomial
  import opened Frost
  import opened Dkg

  datatype ParticipantState = ParticipantState(index: uint32, participant: Participant, dkg: Option<DkgResult>)

  type Participants = map<uint32, ParticipantState>

  /** Participants 1 to total exist, each with its own polynomial of threshold coefficients. */
  ghost predicate Initialised(c: Curve, ps: Participants, threshold: uint32, total: uint32) {
    && 1 <= threshold <= total < TWO_32 - 1
    && (forall i: uint32 :: i in ps <==> 1 <= i <= total)
    && forall i: uint32 | 1 <= i <= total ::
         && WellFormed(c, ps[i].participant)
         && ps[i].participant.index == i == ps[i].index
         && ps[i].participant.threshold == threshold && ps[i].participant.total == total
  }

  /** The secret polynomials, in participant order. */
  ghost function Polynomials(ps: Participants, total: uint32): (polys: seq<seq<int>>)
    ensures |polys| == total
    ensures forall k | 0 <= k < total :: k + 1 < TWO_32 && k + 1 in ps ==> polys[k] == ps[k + 1].participant.poly
  {
    seq(total, k requires 0 <= k < total => if k + 1 < TWO_32 && k + 1 in ps then ps[k + 1].participant.poly else [])
  }

  lemma PolynomialsFit(c: Curve, ps: Participants, threshold: uint32, total: uint32)
    requires Initialised(c, ps, threshold, total)
    ensures SameLength(Polynomials(ps, total), threshold) && AllPolynomialsReduced(c.q, Polynomials(ps, total))
  {
    hide Commit, Mod;
    var polys := Polynomials(ps, total);
    forall k | 0 <= k < total ensures |polys[k]| == threshold && Reduced(c.q, polys[k]) {
      var i: uint32 := k + 1;
      assert WellFormed(c, ps[i].participant);
    }
  }

  /** The polynomial whose constant term is the group secret; nobody computes it. */
  ghost function Group(c: Curve, ps: Participants, threshold: uint32, total: uint32): (f: seq<int>)
    requires Initialised(c, ps, threshold, total)
    ensures |f| == threshold
  {
    PolynomialsFit(c, ps, threshold, total);
    GroupPolynomial(Polynomials(ps, total), threshold)
  }

  method Broadcast(c: Curve, ps: Participants, threshold: uint32, total: uint32) returns (round1: seq<Round1Output>)
    requires Initialised(c, ps, threshold, total)
    ensures HonestBroadcasts(c, Polynomials(ps, total), round1)
  {
    hide Commit, Mod, Reduced, Initialised, WellFormed, Polynomials;
    TotalInRange(c, ps, threshold, total);
    round1 := [];
    var i: uint32 := 1;
    while i <= total
      invariant 1 <= i <= total + 1 < TWO_32 && |round1| == i - 1
      invariant forall k | 0 <= k < |round1| ::
        round1[k].index == k + 1 && round1[k].commitments == Commit(c, Polynomials(ps, total)[k])
    {
      KnownSender(c, ps, threshold, total, i);
      IsCommitted(c, ps[i].participant);
      round1 := round1 + [Round1Output(i, ps[i].participant.commitments)];
      i := i + 1;
    }
  }

  /** One sender's evaluations for every recipient. */
  method DealFrom(c: Curve, p: Participant, total: uint32) returns (shares: seq<int>)
    requires WellFormed(c, p) && total < TWO_32 - 1
    ensures |shares| == total && forall r | 0 <= r < total :: shares[r] == Mod(c.q, PowerSum(p.poly, r + 1))
  {
    shares := [];
    var r: uint32 := 1;
    while r <= total
      invariant 1 <= r <= total + 1 && |shares| == r - 1
      invariant forall k | 0 <= k < |shares| :: shares[k] == Mod(c.q, PowerSum(p.poly, k + 1))
    {
      var share := ShareFor(c, p, r);
      shares := shares + [share];
      r := r + 1;
    }
  }

  method Deliver(all: seq<map<uint32, int>>, sender: uint32, shares: seq<int>) returns (r: seq<map<uint32, int>>)
    requires |all| == |shares|
    ensures |r| == |all| && forall k | 0 <= k < |r| :: r[k] == all[k][sender := shares[k]]
  {
    r := all;
    for i := 0 to |all|
      invariant |r| == |all|
      invariant forall k | 0 <= k < i :: r[k] == all[k][sender := shares[k]]
      invariant forall k | i <= k < |r| :: r[k] == all[k]
    {
      var updated: map<uint32, int> := r[i][sender := shares[i]];
      r := r[i := updated];
    }
  }

  /** The shares a recipient has received from the senders 1 to n. */
  ghost predicate ReceivedFrom(q: Modulus, polys: seq<seq<int>>, n: nat, index: nat, shares: map<uint32, int>)
    requires n <= |polys|
  {
    && (forall j: uint32 :: j in shares <==> 1 <= j <= n)
    && forall j: uint32 | 1 <= j <= n :: shares[j] == Mod(q, PowerSum(polys[j - 1], index))
  }

  method DealShares(c: Curve, ps: Participants, threshold: uint32, total: uint32) returns (all: seq<map<uint32, int>>)
    requires Initialised(c, ps, threshold, total)
    ensures |all| == total
    ensures forall k | 0 <= k < total :: HonestShares(c.q, Polynomials(ps, total), k + 1, all[k])
  {
    hide Mod, PowerSum, ReceivedFrom, Initialised, WellFormed, HonestShares, Polynomials;
    ghost var polys := Polynomials(ps, total);
    all := seq(total, k => map[]);
    TotalInRange(c, ps, threshold, total);
    forall k | 0 <= k < total ensures ReceivedFrom(c.q, polys, 0, k + 1, all[k]) {
      ReceivedNothing(c.q, polys, k + 1);
    }
    var sender: uint32 := 1;
    while sender <= total
      invariant 1 <= sender <= total + 1 < TWO_32 && |all| == total
      invariant forall k | 0 <= k < total :: ReceivedFrom(c.q, polys, sender - 1, k + 1, all[k])
    {
      KnownSender(c, ps, threshold, total, sender);
      var shares := DealFrom(c, ps[sender].participant, total);
      ghost var before := all;
      all := Deliver(all, sender, shares);
      forall k | 0 <= k < total ensures ReceivedFrom(c.q, polys, sender, k + 1, all[k]) {
        ReceiveNext(c.q, polys, sender, k + 1, before[k]);
      }
      sender := sender + 1;
    }
    forall k | 0 <= k < total ensures HonestShares(c.q, polys, k + 1, all[k]) {
      ReceivedAll(c.q, polys, k + 1, all[k]);
    }
  }

  lemma IsCommitted(c: Curve, p: Participant)
    requires WellFormed(c, p)
    ensures p.commitments == Commit(c, p.poly)
  {
    hide Commit;
  }

  lemma TotalInRange(c: Curve, ps: Participants, threshold: uint32, total: uint32)
    requires Initialised(c, ps, threshold, total)
    ensures 1 <= total < TWO_32 - 1
  {
    hide WellFormed;
  }

  lemma KnownSender(c: Curve, ps: Participants, threshold: uint32, total: uint32, i: uint32)
    requires Initialised(c, ps, threshold, total) && 1 <= i <= total
    ensures i in ps && WellFormed(c, ps[i].participant)
    ensures Polynomials(ps, total)[i - 1] == ps[i].participant.poly
  {
    hide WellFormed;
    assert i - 1 + 1 == i;
  }

  lemma ReceivedNothing(q: Modulus, polys: seq<seq<int>>, index: nat)
    ensures ReceivedFrom(q, polys, 0, index, map[])
  {
  }

  lemma ReceiveNext(q: Modulus, polys: seq<seq<int>>, sender: uint32, index: nat, shares: map<uint32, int>)
    requires 1 <= sender <= |polys| && ReceivedFrom(q, polys, sender - 1, index, shares)
    ensures ReceivedFrom(q, polys, sender, index, shares[sender := Mod(q, PowerSum(polys[sender - 1], index))])
  {
    hide Mod, PowerSum;
  }

  lemma ReceivedAll(q: Modulus, polys: seq<seq<int>>, index: nat, shares: map<uint32, int>)
    requires ReceivedFrom(q, polys, |polys|, index, shares)
    ensures HonestShares(q, polys, index, shares)
  {
    hide Mod, PowerSum;
  }

  /** Everybody finalises in turn.  The broadcasts are honest, so all or none succeed, with the same
      group key. */
  method FinaliseAll(c: Curve, ps: Participants, threshold: uint32, total: uint32,
      round1: seq<Round1Output>, all: seq<map<uint32, int>>)
    returns (r: Result<Point, CeremonyError>, done: Participants)
    requires Valid(c) && Initialised(c, ps, threshold, total)
    requires HonestBroadcasts(c, Polynomials(ps, total), round1) && |all| == total
    requires forall k | 0 <= k < total :: HonestShares(c.q, Polynomials(ps, total), k + 1, all[k])
    ensures r.Ok? <==> NonZeroUpTo(c.q, Group(c, ps, threshold, total), total)
    ensures r.Err? ==> done == ps && r.error.FinaliseFailed? && r.error.index == 1
    ensures r.Ok? ==> r.value == Gen(c, Eval(Group(c, ps, threshold, total), 0))
    ensures r.Ok? ==> Completed(c, ps, done, threshold, total)
  {
    hide Valid, Gen, Eval, NonZeroUpTo, HonestBroadcasts, HonestShares, Group, Initialised, FinishedBelow;
    ghost var f := Group(c, ps, threshold, total);
    ghost var key := Gen(c, Eval(f, 0));
    done := ps;
    StartFinishing(c, ps, threshold, total, f);
    var groupKey: Option<Point> := None;
    var i: uint32 := 1;
    while i <= total
      invariant 1 <= i <= total + 1 <= TWO_32 - 1
      invariant FinishedBelow(c, ps, done, f, i, total)
      invariant i > 1 ==> NonZeroUpTo(c.q, f, total)
      invariant i == 1 ==> done == ps
      invariant groupKey == if i == 1 then None else Some(key)
    {
      KnownParticipant(c, ps, done, f, threshold, total, i);
      var result := FinaliseOne(c, ps, threshold, total, i, round1, all[i - 1]);
      if result.Err? {
        return Err(FinaliseFailed(i, result.error)), done;
      }
      FinishNext(c, ps, done, f, i, total, result.value);
      done := done[i := ps[i].(dkg := Some(result.value))];
      if groupKey.None? {
        groupKey := Some(result.value.groupKey);
      } else if groupKey.value != result.value.groupKey {
        return Err(DifferentGroupKey), done;
      }
      i := i + 1;
    }
    AllFinished(c, ps, done, threshold, total);
    return Ok(groupKey.value), done;
  }

  /** Participants below i have finished, the others are as they were. */
  ghost predicate FinishedBelow(c: Curve, ps: Participants, done: Participants, f: seq<int>, i: nat, total: uint32) {
    && done.Keys == ps.Keys
    && (forall j: uint32 | i <= j <= total :: j in ps && done[j] == ps[j])
    && forall j: uint32 | 1 <= j < i :: j in ps && FinishedAs(c, ps[j], done[j], f, total)
  }

  lemma StartFinishing(c: Curve, ps: Participants, threshold: uint32, total: uint32, f: seq<int>)
    requires Initialised(c, ps, threshold, total)
    ensures 1 <= total && total + 1 <= TWO_32 - 1 && FinishedBelow(c, ps, ps, f, 1, total)
  {
    hide WellFormed, FinishedAs;
  }

  lemma KnownParticipant(c: Curve, ps: Participants, done: Participants, f: seq<int>, threshold: uint32,
      total: uint32, i: uint32)
    requires Initialised(c, ps, threshold, total) && FinishedBelow(c, ps, done, f, i, total) && 1 <= i <= total
    ensures i in ps && i in done
  {
    hide WellFormed, FinishedAs;
  }

  lemma FinishNext(c: Curve, ps: Participants, done: Participants, f: seq<int>, i: uint32, total: uint32, r: DkgResult)
    requires 1 <= i <= total && i in ps && FinishedBelow(c, ps, done, f, i, total)
    requires FinishedAs(c, ps[i], ps[i].(dkg := Some(r)), f, total)
    ensures FinishedBelow(c, ps, done[i := ps[i].(dkg := Some(r))], f, i + 1, total)
  {
    hide FinishedAs;
  }

  lemma AllFinished(c: Curve, ps: Participants, done: Participants, threshold: uint32, total: uint32)
    requires Initialised(c, ps, threshold, total)
    requires FinishedBelow(c, ps, done, Group(c, ps, threshold, total), total + 1, total)
    ensures Completed(c, ps, done, threshold, total)
  {
    hide WellFormed, FinishedAs, Group;
  }

  datatype CeremonyError = NotInitialised | FinaliseFailed(index: uint32, cause: Error) | DifferentGroupKey

  /** What an honest ceremony leaves with one participant. */
  ghost predicate FinishedAs(c: Curve, before: ParticipantState, after: ParticipantState, f: seq<int>, total: uint32) {
    && after == before.(dkg := after.dkg) && after.dkg.Some?
    && var r := after.dkg.value;
    && r.groupKey == Gen(c, Eval(f, 0))
    && r.secretShare == Mod(c.q, Eval(f, before.index))
    && (forall m: uint32 :: m in r.verificationShares <==> 1 <= m <= total)
    && forall m: uint32 | 1 <= m <= total :: r.verificationShares[m] == Gen(c, Eval(f, m))
  }

  ghost predicate Completed(c: Curve, before: Participants, after: Participants, threshold: uint32, total: uint32)
    requires Initialised(c, before, threshold, total)
  {
    && (forall j: uint32 :: j in after <==> j in before)
    && forall j: uint32 | 1 <= j <= total ::
         FinishedAs(c, before[j], after[j], Group(c, before, threshold, total), total)
  }

  method FinaliseOne(c: Curve, ps: Participants, threshold: uint32, total: uint32, i: uint32,
      round1: seq<Round1Output>, shares: map<uint32, int>)
    returns (r: Result<DkgResult, Error>)
    requires Valid(c) && Initialised(c, ps, threshold, total) && 1 <= i <= total
    requires HonestBroadcasts(c, Polynomials(ps, total), round1)
    requires HonestShares(c.q, Polynomials(ps, total), i, shares)
    ensures r.Ok? <==> NonZeroUpTo(c.q, Group(c, ps, threshold, total), total)
    ensures r.Ok? ==> r.value.groupKey == Gen(c, Eval(Group(c, ps, threshold, total), 0))
    ensures r.Ok? ==> FinishedAs(c, ps[i], ps[i].(dkg := Some(r.value)), Group(c, ps, threshold, total), total)
  {
    hide Valid, Mod, Gen, Eval, NonZeroUpTo, HonestBroadcasts, HonestShares, Accepts, IsResultOf, NonEmpty,
      GroupPolynomial,
      SameLength, AllPolynomialsReduced, AllReduced;
    var p := ps[i].participant;
    ghost var polys := Polynomials(ps, total);
    PolynomialsFit(c, ps, threshold, total);
    HonestParticipant(c, ps, threshold, total, i, round1, shares);
    HonestFinalise(c, polys, threshold, p, round1, shares);
    r := FinaliseReduced(c, p, round1, shares);
    if r.Ok? {
      HonestResult(c, polys, threshold, p, round1, shares, r.value);
    }
  }

  lemma HonestParticipant(c: Curve, ps: Participants, threshold: uint32, total: uint32, i: uint32,
      round1: seq<Round1Output>, shares: map<uint32, int>)
    requires Initialised(c, ps, threshold, total) && 1 <= i <= total
    requires HonestBroadcasts(c, Polynomials(ps, total), round1)
    requires HonestShares(c.q, Polynomials(ps, total), i, shares)
    ensures Honest(c, Polynomials(ps, total), threshold, ps[i].participant, round1, shares)
  {
    hide HonestBroadcasts, HonestShares, SameLength, AllPolynomialsReduced, Polynomials, WellFormed;
    PolynomialsFit(c, ps, threshold, total);
  }

  method FinaliseReduced(c: Curve, p: Participant, round1: seq<Round1Output>, shares: map<uint32, int>)
    returns (r: Result<DkgResult, Error>)
    requires p.total < TWO_32 - 1 && NonEmpty(round1) && AllReduced(c.q, shares)
    ensures r.Ok? <==> Accepts(c, p, round1, shares)
    ensures r.Ok? ==> IsResultOf(c, r.value, p, round1, shares)
  {
    hide Accepts, IsResultOf, NonEmpty;
    r := Finalise(c, p, round1, shares);
  }
}
