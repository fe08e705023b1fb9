/** Distributed key generation: one participant's polynomial, Feldman's check, and finalisation. */
module Frost {
  import opened Wrappers
  import opened Modular
  import opened Curve
  import opened Polynomial
  import opened Lagrange

  type uint32 = n: nat | n < TWO_32

  datatype Error =
    | BadIndex | BadThreshold
    | WrongRound1Count | UnknownSender | BadShare | GroupKeyIsIdentity | VerificationShareIsIdentity

  // ----- Polynomial evaluation and commitments -----

  /** Horner's rule, from the highest coefficient down. */
  method Evaluate(q: Modulus, cs: seq<int>, x: uint32) returns (result: int)
    requires cs != [] && Reduced(q, cs)
    ensures result == Mod(q, PowerSum(cs, x))
  {
    hide Mod, Eval, PowerSum;
    result := cs[|cs| - 1];
    ModSmall(q, result);
    EvalHead(cs[|cs| - 1..], x);
    var i := |cs| - 2;
    while i >= 0
      invariant -1 <= i <= |cs| - 2
      invariant result == Mod(q, Eval(cs[i + 1..], x))
    {
      HornerStep(q, cs, x, i);
      result := Mod(q, result * x);
      result := Mod(q, result + cs[i]);
      i := i - 1;
    }
    assert cs[0..] == cs;
    HornerIsPowerSum(cs, x);
  }

  lemma HornerStep(q: Modulus, cs: seq<int>, x: int, i: nat)
    requires i < |cs| - 1
    ensures Mod(q, Mod(q, Mod(q, Eval(cs[i + 1..], x)) * x) + cs[i]) == Mod(q, Eval(cs[i..], x))
  {
    hide *;
    var tail := Eval(cs[i + 1..], x);
    assert cs[i..][1..] == cs[i + 1..];
    EvalHead(cs[i..], x);
    ModProduct(q, tail, x);
    ModSum(q, tail * x, cs[i]);
    CommuteProduct(tail, x);
  }

  method FeldmanCommitments(c: Curve, cs: seq<int>) returns (commits: seq<Point>)
    requires Reduced(c.q, cs)
    ensures commits == Commit(c, cs)
  {
    commits := [];
    for i := 0 to |cs|
      invariant commits == Commit(c, cs[..i])
    {
      ModSmall(c.q, cs[i]);
      commits := commits + [Mul(c, cs[i], c.g)];
      assert cs[..i + 1][..i] == cs[..i];
    }
    assert cs[..|cs|] == cs;
  }

  /** Every coefficient times the generator. */
  function Commit(c: Curve, cs: seq<int>): (commits: seq<Point>)
    ensures |commits| == |cs|
    ensures forall k | 0 <= k < |cs| :: commits[k] == Gen(c, cs[k])
  {
    if cs == [] then [] else Commit(c, cs[..|cs| - 1]) + [Gen(c, cs[|cs| - 1])]
  }

  /** The committed polynomial at x, computed on points: the sum of x^k * commits[k]. */
  function CommitEval(c: Curve, commits: seq<Point>, x: nat): Point {
    if commits == [] then Infinity else
      var n := |commits| - 1;
      c.add(CommitEval(c, commits[..n], x), Mul(c, Mod(c.q, Power(x, n)), commits[n]))
  }

  method EvaluateCommitments(c: Curve, commits: seq<Point>, x: uint32) returns (point: Point)
    ensures point == CommitEval(c, commits, x)
  {
    point := Infinity;
    var xPow := 1;
    ModSmall(c.q, 1);
    assert Power(x, 0) == 1;
    hide Mod, Power;
    for k := 0 to |commits|
      invariant point == CommitEval(c, commits[..k], x)
      invariant xPow == Mod(c.q, Power(x, k))
    {
      assert commits[..k + 1][..k] == commits[..k];
      var term := Mul(c, xPow, commits[k]);
      point := c.add(point, term);
      ModProduct(c.q, Power(x, k), x);
      PowerStep(x, k);
      xPow := Mod(c.q, xPow * x);
    }
    assert commits[..|commits|] == commits;
  }

  /** Feldman's check of a share against the sender's commitments. */
  method VerifyShare(c: Curve, share: int, commits: seq<Point>, recipient: uint32) returns (ok: bool)
    requires 0 <= share < c.q
    ensures ok <==> ShareMatches(c, share, commits, recipient)
  {
    ModSmall(c.q, share);
    var lhs := Mul(c, share, c.g);
    var rhs := EvaluateCommitments(c, commits, recipient);
    ok := lhs == rhs;
  }

  predicate ShareMatches(c: Curve, share: int, commits: seq<Point>, recipient: nat) {
    Gen(c, share) == CommitEval(c, commits, recipient)
  }

  ghost predicate AllOnCurve(c: Curve, pts: seq<Point>) {
    forall k | 0 <= k < |pts| :: OnCurve(c, pts[k])
  }

  /** The polynomial a sender has committed to, honest or not. */
  ghost function Committed(c: Curve, commits: seq<Point>): (cs: seq<int>)
    ensures |cs| == |commits| && Reduced(c.q, cs)
    ensures forall k | 0 <= k < |cs| :: cs[k] == Log(c, commits[k])
  {
    if commits == [] then [] else
      Committed(c, commits[..|commits| - 1]) + [Log(c, commits[|commits| - 1])]
  }

  lemma {:induction false} CommitEvalIsGen(c: Curve, commits: seq<Point>, x: nat)
    requires Valid(c) && AllOnCurve(c, commits)
    ensures CommitEval(c, commits, x) == Gen(c, PowerSum(Committed(c, commits), x))
  {
    hide Valid, OnCurve, Mod, Log, Gen, Power;
    if commits == [] {
      GenOfZero(c);
    } else {
      var n := |commits| - 1;
      var front, cs := commits[..n], Committed(c, commits);
      CommitEvalIsGen(c, front, x);
      assert cs[..n] == Committed(c, front);
      LogCorrect(c, commits[n]);
      PowerSumLast(cs, x);
      CommitTerm(c, PowerSum(cs[..n], x), Power(x, n), cs[n]);
    }
  }

  lemma GenOfZero(c: Curve)
    ensures Gen(c, 0) == Infinity
  {
    ModSmall(c.q, 0);
  }

  lemma CommitTerm(c: Curve, front: int, power: int, coefficient: int)
    requires Valid(c)
    ensures c.add(Gen(c, front), Mul(c, Mod(c.q, power), Gen(c, coefficient))) == Gen(c, front + power * coefficient)
  {
    hide *;
    GenMul(c, Mod(c.q, power), coefficient);
    ModProduct(c.q, power, coefficient);
    GenMod(c, Mod(c.q, power) * coefficient, power * coefficient);
    GenAdd(c, front, power * coefficient);
  }

  /** Feldman's check accepts exactly one share: the committed polynomial's value. */
  lemma ShareMatchesCommitted(c: Curve, share: int, commits: seq<Point>, recipient: nat)
    requires Valid(c) && AllOnCurve(c, commits) && 0 <= share < c.q
    ensures ShareMatches(c, share, commits, recipient)
       <==> share == Mod(c.q, PowerSum(Committed(c, commits), recipient))
  {
    ModSmall(c.q, share);
    hide Valid, OnCurve, Mod, Gen, CommitEval, Committed, PowerSum;
    CommitEvalIsGen(c, commits, recipient);
    GenInjective(c, share, PowerSum(Committed(c, commits), recipient));
  }

  /** For honest commitments that value is the sender's own evaluation at the recipient. */
  lemma HonestShareMatches(c: Curve, share: int, cs: seq<int>, recipient: nat)
    requires Valid(c) && Reduced(c.q, cs) && 0 <= share < c.q
    ensures AllOnCurve(c, Commit(c, cs)) && Committed(c, Commit(c, cs)) == cs
    ensures ShareMatches(c, share, Commit(c, cs), recipient) <==> share == Mod(c.q, PowerSum(cs, recipient))
  {
    CommittedOfCommit(c, cs);
    ShareMatchesCommitted(c, share, Commit(c, cs), recipient);
  }

  lemma CommittedOfCommit(c: Curve, cs: seq<int>)
    requires Valid(c) && Reduced(c.q, cs)
    ensures AllOnCurve(c, Commit(c, cs)) && Committed(c, Commit(c, cs)) == cs
  {
    hide Valid, OnCurve, Gen, Mod;
    var commits := Commit(c, cs);
    forall k | 0 <= k < |cs| ensures OnCurve(c, commits[k]) {
      GenOnCurve(c, cs[k]);
    }
    var ds := Committed(c, commits);
    forall k | 0 <= k < |cs| ensures ds[k] == cs[k] {
      LogCorrect(c, commits[k]);
      GenInjective(c, ds[k], cs[k]);
      ModSmall(c.q, ds[k]);
      ModSmall(c.q, cs[k]);
    }
  }

  // ----- Participants -----

  datatype Participant = Participant(
    index: uint32, threshold: uint32, total: uint32, poly: seq<int>, commitments: seq<Point>)

  ghost predicate WellFormed(c: Curve, p: Participant) {
    && 1 <= p.index <= p.total && 1 <= p.threshold <= p.total
    && |p.poly| == p.threshold && Reduced(c.q, p.poly) && p.commitments == Commit(c, p.poly)
  }

  /** The random coefficients are an input: threshold many, none of them zero. */
  method NewParticipant(c: Curve, index: uint32, threshold: uint32, total: uint32, random: seq<int>)
    returns (r: Result<Participant, Error>)
    requires |random| == threshold && forall k | 0 <= k < |random| :: 0 < random[k] < c.q
    ensures r.Ok? <==> 1 <= index <= total && 1 <= threshold <= total
    ensures r.Ok? ==> WellFormed(c, r.value) && r.value.poly == random
    ensures r.Ok? ==> r.value.index == index && r.value.threshold == threshold && r.value.total == total
  {
    if index == 0 || index > total {
      return Err(BadIndex);
    }
    if threshold == 0 || threshold > total {
      return Err(BadThreshold);
    }
    var commitments := FeldmanCommitments(c, random);
    return Ok(Participant(index, threshold, total, random, commitments));
  }

  method ShareFor(c: Curve, p: Participant, peer: uint32) returns (share: int)
    requires WellFormed(c, p)
    ensures share == Mod(c.q, PowerSum(p.poly, peer))
  {
    share := Evaluate(c.q, p.poly, peer);
  }

  // ----- Finalisation -----

  datatype Round1Output = Round1Output(index: uint32, commitments: seq<Point>)

  datatype DkgResult = DkgResult(
    groupKey: Point, secretShare: int, verificationShares: map<uint32, Point>, threshold: uint32, total: uint32)

  /** What the index built from the broadcasts holds for a sender: its last output. */
  function Lookup(round1: seq<Round1Output>, sender: uint32): Option<Round1Output> {
    if round1 == [] then None
    else if round1[|round1| - 1].index == sender then Some(round1[|round1| - 1])
    else Lookup(round1[..|round1| - 1], sender)
  }

  method IndexOutputs(round1: seq<Round1Output>) returns (byIndex: map<uint32, Round1Output>)
    ensures forall j: uint32 :: Lookup(round1, j) == if j in byIndex then Some(byIndex[j]) else None
  {
    byIndex := map[];
    for i := 0 to |round1|
      invariant forall j: uint32 :: Lookup(round1[..i], j) == if j in byIndex then Some(byIndex[j]) else None
    {
      assert round1[..i + 1][..i] == round1[..i];
      byIndex := byIndex[round1[i].index := round1[i]];
    }
    assert round1[..|round1|] == round1;
  }

  ghost predicate ShareAccepted(c: Curve, index: uint32, round1: seq<Round1Output>, sender: uint32, share: int) {
    var r := Lookup(round1, sender);
    r.Some? && ShareMatches(c, share, r.value.commitments, index)
  }

  ghost predicate SharesAccepted(c: Curve, index: uint32, round1: seq<Round1Output>, shares: map<uint32, int>) {
    forall j | j in shares :: ShareAccepted(c, index, round1, j, shares[j])
  }

  /** The shares are checked in whatever order the map is iterated. */
  method CheckShares(c: Curve, index: uint32, round1: seq<Round1Output>, shares: map<uint32, int>)
    returns (r: Result<(), Error>)
    requires forall j | j in shares :: 0 <= shares[j] < c.q
    ensures r.Ok? <==> SharesAccepted(c, index, round1, shares)
  {
    var byIndex := IndexOutputs(round1);
    var pending := shares.Keys;
    while pending != {}
      invariant pending <= shares.Keys
      invariant forall j | j in shares && j !in pending :: ShareAccepted(c, index, round1, j, shares[j])
    {
      var j :| j in pending;
      pending := pending - {j};
      assert Lookup(round1, j) == if j in byIndex then Some(byIndex[j]) else None;
      if j !in byIndex {
        return Err(UnknownSender);
      }
      var ok := VerifyShare(c, shares[j], byIndex[j].commitments, index);
      if !ok {
        return Err(BadShare);
      }
    }
    return Ok(());
  }

  /** A sum over a set of indices, in an order nobody chooses. */
  ghost function SetSum(s: set<uint32>, f: nat -> int): int {
    if s == {} then 0 else
      var x :| x in s;
      f(x) + SetSum(s - {x}, f)
  }

  lemma {:induction false} SetSumRemove(s: set<uint32>, f: nat -> int, x: uint32)
    requires x in s
    ensures SetSum(s, f) == f(x) + SetSum(s - {x}, f)
  {
    var y :| y in s && SetSum(s, f) == f(y) + SetSum(s - {y}, f);
    if y != x {
      SetSumRemove(s - {y}, f, x);
      SetSumRemove(s - {x}, f, y);
      assert s - {y} - {x} == s - {x} - {y};
    }
  }

  /** A list without repetitions sums like the set of its elements. */
  lemma {:induction false} SetSumOfList(s: set<uint32>, t: seq<uint32>, f: nat -> int)
    requires Distinct(t) && s == set j | j in t
    ensures SetSum(s, f) == Sum(t, f)
  {
    if t != [] {
      SetSumRemove(s, f, t[0]);
      var rest := t[1..];
      assert s - {t[0]} == set j | j in rest by {
        forall j: uint32 ensures j in s - {t[0]} <==> j in rest {
          if j in rest { var k :| 0 <= k < |rest| && rest[k] == j; assert t[k + 1] == j; }
          if j in t && j != t[0] { var k :| 0 <= k < |t| && t[k] == j; assert rest[k - 1] == j; }
        }
      }
      SetSumOfList(s - {t[0]}, rest, f);
    }
  }

  ghost function ValueOf(m: map<uint32, int>): nat -> int {
    (i: nat) => if i < TWO_32 && i in m then m[i] else 0
  }

  method SumShares(q: Modulus, shares: map<uint32, int>) returns (total: int)
    ensures total == Mod(q, SetSum(shares.Keys, ValueOf(shares)))
  {
    total := 0;
    ghost var done: set<uint32>, f := {}, ValueOf(shares);
    var pending := shares.Keys;
    ModSmall(q, 0);
    hide Mod;
    while pending != {}
      invariant done == shares.Keys - pending && pending <= shares.Keys
      invariant total == Mod(q, SetSum(done, f))
    {
      var j :| j in pending;
      SetSumRemove(done + {j}, f, j);
      assert done + {j} - {j} == done;
      ModSum(q, SetSum(done, f), shares[j]);
      total := Mod(q, total + shares[j]);
      pending, done := pending - {j}, done + {j};
    }
    assert done == shares.Keys;
  }

  ghost predicate NonEmpty(round1: seq<Round1Output>) {
    forall k | 0 <= k < |round1| :: round1[k].commitments != []
  }

  /** The sum of the constant-term commitments. */
  function GroupPoint(c: Curve, round1: seq<Round1Output>): Point
    requires forall k | 0 <= k < |round1| :: round1[k].commitments != []
  {
    if round1 == [] then Infinity else
      var n := |round1| - 1;
      c.add(GroupPoint(c, round1[..n]), round1[n].commitments[0])
  }

  method SumGroupPoint(c: Curve, round1: seq<Round1Output>) returns (point: Point)
    requires NonEmpty(round1)
    ensures point == GroupPoint(c, round1)
  {
    point := Infinity;
    for i := 0 to |round1|
      invariant point == GroupPoint(c, round1[..i])
    {
      assert round1[..i + 1][..i] == round1[..i];
      point := c.add(point, round1[i].commitments[0]);
    }
    assert round1[..|round1|] == round1;
  }

  /** The sum of all committed polynomials at m, on points. */
  function VerificationPoint(c: Curve, round1: seq<Round1Output>, m: nat): Point {
    if round1 == [] then Infinity else
      var n := |round1| - 1;
      c.add(VerificationPoint(c, round1[..n], m), CommitEval(c, round1[n].commitments, m))
  }

  method SumVerificationPoint(c: Curve, round1: seq<Round1Output>, m: uint32) returns (point: Point)
    ensures point == VerificationPoint(c, round1, m)
  {
    point := Infinity;
    for i := 0 to |round1|
      invariant point == VerificationPoint(c, round1[..i], m)
    {
      assert round1[..i + 1][..i] == round1[..i];
      var contribution := EvaluateCommitments(c, round1[i].commitments, m);
      point := c.add(point, contribution);
    }
    assert round1[..|round1|] == round1;
  }

  ghost predicate Accepts(c: Curve, p: Participant, round1: seq<Round1Output>, shares: map<uint32, int>)
    requires NonEmpty(round1)
  {
    && |round1| == p.total
    && SharesAccepted(c, p.index, round1, shares)
    && ToPublicKey(c, GroupPoint(c, round1)).Some?
    && forall m: uint32 | 1 <= m <= p.total :: ToPublicKey(c, VerificationPoint(c, round1, m)).Some?
  }

  ghost predicate IsResultOf(c: Curve, r: DkgResult, p: Participant, round1: seq<Round1Output>,
      shares: map<uint32, int>)
    requires NonEmpty(round1)
  {
    && ToPublicKey(c, GroupPoint(c, round1)) == Some(r.groupKey)
    && r.secretShare == Mod(c.q, SetSum(shares.Keys, ValueOf(shares)))
    && (forall m: uint32 :: m in r.verificationShares <==> 1 <= m <= p.total)
    && (forall m: uint32 | 1 <= m <= p.total ::
          ToPublicKey(c, VerificationPoint(c, round1, m)) == Some(r.verificationShares[m]))
    && r.threshold == p.threshold && r.total == p.total
  }

  /** Commitments are non-empty because the code indexes the first of each without a check. */
  method Finalise(c: Curve, p: Participant, round1: seq<Round1Output>, shares: map<uint32, int>)
    returns (r: Result<DkgResult, Error>)
    requires p.total < TWO_32 - 1 && NonEmpty(round1)
    requires forall j | j in shares :: 0 <= shares[j] < c.q
    ensures r.Ok? <==> Accepts(c, p, round1, shares)
    ensures r.Ok? ==> IsResultOf(c, r.value, p, round1, shares)
  {
    hide ToPublicKey, SharesAccepted, GroupPoint, VerificationPoint, NonEmpty, SetSum;
    if |round1| != p.total {
      return Err(WrongRound1Count);
    }
    var checked := CheckShares(c, p.index, round1, shares);
    if checked.Err? {
      return Err(checked.error);
    }
    var secretShare := SumShares(c.q, shares);
    var groupPoint := SumGroupPoint(c, round1);
    var groupKey := ToPublicKey(c, groupPoint);
    if groupKey.None? {
      return Err(GroupKeyIsIdentity);
    }
    var verificationShares: map<uint32, Point> := map[];
    var m: uint32 := 1;
    while m <= p.total
      invariant 1 <= m <= p.total + 1
      invariant forall k: uint32 :: k in verificationShares <==> 1 <= k < m
      invariant forall k: uint32 | 1 <= k < m ::
        ToPublicKey(c, VerificationPoint(c, round1, k)) == Some(verificationShares[k])
    {
      var point := SumVerificationPoint(c, round1, m);
      var key := ToPublicKey(c, point);
      if key.None? {
        return Err(VerificationShareIsIdentity);
      }
      verificationShares := verificationShares[m := key.value];
      m := m + 1;
    }
    return Ok(DkgResult(groupKey.value, secretShare, verificationShares, p.threshold, p.total));
  }
}
