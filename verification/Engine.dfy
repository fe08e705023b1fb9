/** The policy engine: every rule must allow a request; velocity rules are updated once signed. */
module Engine {
  import opened Velocity

  datatype Destination = Destination(address: string, amount: int)

  datatype Approval = Approval(approver: string, approvedAt: int)

  datatype Request = Request(
    destinations: seq<Destination>, totalAmount: int, requestedBy: string, requestedAt: int, approvals: seq<Approval>)

  /** A rule is a velocity limit or anything that decides from the request and the time it is asked
      at: approvals, for one, expire. */
  datatype Rule = Velocity(limit: VelocityRule) | Other(allows: (Request, int) -> bool)

  /** The full history of every velocity rule. */
  type Histories = map<VelocityRule, seq<Entry>>

  // ----- What the rules answer -----

  /** Whether the full history leaves room for the amount in the window that ends now. */
  ghost predicate Fits(limit: VelocityRule, history: seq<Entry>, now: int, amount: int) {
    WindowTotal(history, limit.window, now) + amount <= limit.maxAmount
  }

  /** Whether a rule allows the request when asked now. */
  ghost predicate Passes(rule: Rule, hs: Histories, now: int, req: Request) {
    match rule
    case Velocity(limit) => limit in hs && Fits(limit, hs[limit], now, req.totalAmount)
    case Other(allows) => allows(req, now)
  }

  /** Times between lo and hi that never go back. */
  ghost predicate InTurn(times: seq<int>, lo: int, hi: int) {
    && (forall k | 0 <= k < |times| :: lo <= times[k] <= hi)
    && forall j, k | 0 <= j < k < |times| :: times[j] <= times[k]
  }

  /** The k-th rule passes when asked at the k-th time. */
  ghost predicate PassAt(rules: seq<Rule>, hs: Histories, times: seq<int>, req: Request)
    requires |times| == |rules|
  {
    forall k | 0 <= k < |rules| :: Passes(rules[k], hs, times[k], req)
  }

  /** There are rules and, asked in turn between lo and hi, each passes at its own time. */
  ghost predicate Allows(rules: seq<Rule>, hs: Histories, req: Request, lo: int, hi: int) {
    rules != [] && exists times :: InTurn(times, lo, hi) && |times| == |rules| && PassAt(rules, hs, times, req)
  }

  lemma AllowsLater(rules: seq<Rule>, hs: Histories, req: Request, lo: int, hi: int, later: int)
    requires Allows(rules, hs, req, lo, hi) && hi <= later
    ensures Allows(rules, hs, req, lo, later)
  {
    hide PassAt;
    var times :| InTurn(times, lo, hi) && |times| == |rules| && PassAt(rules, hs, times, req);
    assert InTurn(times, lo, later);
  }

  /** There are no rules or, asked in turn between lo and hi, some rule is the first not to pass. */
  ghost predicate Denies(rules: seq<Rule>, hs: Histories, req: Request, lo: int, hi: int) {
    rules == [] || exists times :: InTurn(times, lo, hi) && DeniesAt(rules, hs, times, req)
  }

  ghost predicate DeniesAt(rules: seq<Rule>, hs: Histories, times: seq<int>, req: Request) {
    && 1 <= |times| <= |rules|
    && var k := |times| - 1;
    && PassAt(rules[..k], hs, times[..k], req) && !Passes(rules[k], hs, times[k], req)
  }

  // ----- Consequences for the velocity limits -----

  /** The limits whose histories are kept are rules of the engine. */
  ghost predicate Listed(rules: seq<Rule>, hs: Histories) {
    forall l | l in hs :: Velocity(l) in rules
  }

  ghost predicate NoNegatives(hs: Histories) {
    forall l | l in hs :: NonNegative(hs[l])
  }

  /** Nothing has been recorded after now. */
  ghost predicate RecordedBy(hs: Histories, now: int) {
    forall l | l in hs :: NoLaterThan(hs[l], now)
  }

  /** As time passes, room in the window only grows. */
  lemma FitsLater(limit: VelocityRule, history: seq<Entry>, now: int, later: int, amount: int)
    requires NonNegative(history) && NoLaterThan(history, now) && now <= later
    ensures Fits(limit, history, now, amount) ==> Fits(limit, history, later, amount)
  {
    Earlier(history, now, later);
    BetweenUpTo(history, now - limit.window, now, later);
    BetweenMonotone(history, now - limit.window, later, later - limit.window, later);
  }

  ghost predicate AllFit(hs: Histories, now: int, amount: int) {
    forall l | l in hs :: Fits(l, hs[l], now, amount)
  }

  /** Whenever the rules were asked, an allowed amount fits every limit from then on. */
  lemma AllowedFits(rules: seq<Rule>, hs: Histories, req: Request, lo: int, hi: int)
    requires Allows(rules, hs, req, lo, hi) && Listed(rules, hs) && RecordedBy(hs, lo) && NoNegatives(hs)
    ensures AllFit(hs, hi, req.totalAmount)
  {
    hide Fits, NonNegative, NoLaterThan;
    var times :| InTurn(times, lo, hi) && |times| == |rules| && PassAt(rules, hs, times, req);
    forall l | l in hs ensures Fits(l, hs[l], hi, req.totalAmount) {
      var k :| 0 <= k < |rules| && rules[k] == Velocity(l);
      assert Passes(rules[k], hs, times[k], req);
      Earlier(hs[l], lo, times[k]);
      FitsLater(l, hs[l], times[k], hi, req.totalAmount);
    }
  }

  /** Limits with room at lo, and other rules that pass at any time from lo to hi. */
  ghost predicate PassThroughout(rules: seq<Rule>, hs: Histories, req: Request, lo: int, hi: int) {
    && rules != []
    && (forall k | 0 <= k < |rules| && rules[k].Velocity? :: Passes(rules[k], hs, lo, req))
    && forall k, t | 0 <= k < |rules| && rules[k].Other? && lo <= t <= hi :: Passes(rules[k], hs, t, req)
  }

  /** Then the request cannot be denied, however long the rules take to answer. */
  lemma NotDenied(rules: seq<Rule>, hs: Histories, req: Request, lo: int, asked: int, hi: int)
    requires PassThroughout(rules, hs, req, lo, hi) && lo <= asked && RecordedBy(hs, lo) && NoNegatives(hs)
    ensures !Denies(rules, hs, req, asked, hi)
  {
    hide Fits, NonNegative, NoLaterThan;
    if Denies(rules, hs, req, asked, hi) {
      var times :| InTurn(times, asked, hi) && DeniesAt(rules, hs, times, req);
      var k := |times| - 1;
      if rules[k].Velocity? {
        assert Passes(rules[k], hs, lo, req);
        FitsLater(rules[k].limit, hs[rules[k].limit], lo, times[k], req.totalAmount);
      }
    }
  }

  /** The safety property of one velocity rule. */
  ghost predicate Safe(limit: VelocityRule, history: seq<Entry>) {
    WithinLimit(history, limit.maxAmount, limit.window)
  }

  ghost predicate AllSafe(hs: Histories) {
    forall l | l in hs :: Safe(l, hs[l])
  }

  // ----- What is recorded -----

  /** How often a velocity rule is listed. */
  ghost function Listings(rules: seq<Rule>, limit: VelocityRule): nat {
    if rules == [] then 0 else
      Listings(rules[..|rules| - 1], limit) + if rules[|rules| - 1] == Velocity(limit) then 1 else 0
  }

  ghost predicate ListedOnce(rules: seq<Rule>, hs: Histories) {
    forall l | l in hs :: Listings(rules, l) == 1
  }

  /** h1 is h0 with n more entries of the amount, recorded between lo and hi. */
  ghost predicate Extends(h0: seq<Entry>, h1: seq<Entry>, n: nat, amount: int, lo: int, hi: int) {
    && |h1| == |h0| + n && h1[..|h0|] == h0
    && forall k | |h0| <= k < |h1| :: h1[k].amount == amount && lo <= h1[k].time <= hi
  }

  /** Every velocity rule has one more entry for each time it is listed. */
  ghost predicate AllExtend(rules: seq<Rule>, hs: Histories, after: Histories, amount: int, lo: int, hi: int) {
    after.Keys == hs.Keys && forall l | l in hs :: Extends(hs[l], after[l], Listings(rules, l), amount, lo, hi)
  }

  lemma ExtendNone(hs: Histories, amount: int, lo: int, hi: int)
    ensures AllExtend([], hs, hs, amount, lo, hi)
  {
  }

  lemma ExtendNext(rules: seq<Rule>, i: nat, hs: Histories, before: Histories, amount: int, lo: int, t: int)
    requires i < |rules| && AllExtend(rules[..i], hs, before, amount, lo, t) && lo <= t
    ensures rules[i].Velocity? && rules[i].limit in hs ==>
      var longer := before[rules[i].limit] + [Entry(amount, t)];
      AllExtend(rules[..i + 1], hs, before[rules[i].limit := longer], amount, lo, t)
    ensures rules[i].Other? ==> AllExtend(rules[..i + 1], hs, before, amount, lo, t)
  {
    assert rules[..i + 1][..i] == rules[..i];
    forall l | l in hs ensures Listings(rules[..i + 1], l) ==
      Listings(rules[..i], l) + if rules[i] == Velocity(l) then 1 else 0
    {
    }
    if rules[i].Velocity? && rules[i].limit in hs {
      var l, e := rules[i].limit, Entry(amount, t);
      ExtendOne(hs[l], before[l], Listings(rules[..i], l), e, lo);
    }
    hide Listings;
  }

  lemma ExtendOne(h0: seq<Entry>, h1: seq<Entry>, n: nat, e: Entry, lo: int)
    requires Extends(h0, h1, n, e.amount, lo, e.time) && lo <= e.time
    ensures Extends(h0, h1 + [e], n + 1, e.amount, lo, e.time)
  {
    assert (h1 + [e])[..|h0|] == h1[..|h0|];
  }

  lemma ExtendLater(rules: seq<Rule>, hs: Histories, after: Histories, amount: int, lo: int, hi: int, earlier: int,
      later: int)
    requires AllExtend(rules, hs, after, amount, lo, hi) && earlier <= lo && hi <= later
    ensures AllExtend(rules, hs, after, amount, earlier, later)
  {
    hide Listings;
  }

  // ----- The engine -----

  class Engine {
    var rules: seq<Rule>

    constructor (rules: seq<Rule>)
      ensures this.rules == rules
    {
      this.rules := rules;
    }

    ghost function Limits(): (s: set<VelocityRule>)
      reads this
      ensures forall i | 0 <= i < |rules| && rules[i].Velocity? :: rules[i].limit in s
      ensures forall l | l in s :: Velocity(l) in rules
    {
      set i | 0 <= i < |rules| && rules[i].Velocity? :: rules[i].limit
    }

    ghost function History(): (hs: Histories)
      reads this, Limits()
      ensures hs.Keys == Limits() && Listed(rules, hs)
    {
      map l | l in Limits() :: l.history
    }

    /** Every velocity rule agrees with its full history. */
    ghost predicate Valid(now: int)
      reads this, Limits()
      ensures Valid(now) ==> RecordedBy(History(), now)
    {
      forall l | l in Limits() :: l.Valid(now)
    }

    lemma ValidLater(now: int, later: int)
      requires Valid(now) && now <= later
      ensures Valid(later)
    {
      hide Sorted;
    }

    method AddRule(rule: Rule, ghost now: int)
      requires Valid(now) && (rule.Velocity? ==> rule.limit.Valid(now))
      modifies this
      ensures rules == old(rules) + [rule] && Valid(now)
    {
      rules := rules + [rule];
      assert forall l | l in Limits() :: l in old(Limits()) || rule == Velocity(l);
    }

    /** A velocity rule looks at the clock, and any other rule may. */
    method EvaluateRule(clock: Clock, i: nat, req: Request) returns (allowed: bool)
      requires Valid(clock.now) && i < |rules|
      modifies clock, Limits()
      ensures old(clock.now) <= clock.now && Valid(clock.now) && History() == old(History())
      ensures allowed <==> Passes(rules[i], History(), clock.now, req)
    {
      hide Between, WindowTotal, Sorted, NoLaterThan, RecordedBy, Listed, Step, Prune, Total;
      match rules[i]
      case Velocity(limit) =>
        ghost var before := clock.now;
        allowed := limit.Evaluate(clock, req.totalAmount);
        forall l | l in Limits() && l != limit ensures l.Valid(clock.now) {
          l.StaysValid(before, clock.now);
        }
        assert limit.history == History()[limit];
      case Other(allows) =>
        ghost var before := clock.now;
        var now := clock.Now();
        ValidLater(before, now);
        allowed := allows(req, now);
    }

    /** Denies by default; otherwise the rules are asked in turn and the first denial decides. */
    method Evaluate(clock: Clock, req: Request) returns (allowed: bool)
      requires Valid(clock.now)
      modifies clock, Limits()
      ensures old(clock.now) <= clock.now && Valid(clock.now) && History() == old(History())
      ensures allowed ==> Allows(rules, History(), req, old(clock.now), clock.now)
      ensures !allowed ==> Denies(rules, History(), req, old(clock.now), clock.now)
    {
      hide Passes, Valid;
      if rules == [] {
        return false;
      }
      ghost var times := [];
      for i := 0 to |rules|
        invariant old(clock.now) <= clock.now && Valid(clock.now) && History() == old(History())
        invariant |times| == i && InTurn(times, old(clock.now), clock.now)
        invariant PassAt(rules[..i], History(), times, req)
      {
        allowed := EvaluateRule(clock, i, req);
        times := times + [clock.now];
        assert times[..i] + [clock.now] == times;
        if !allowed {
          assert DeniesAt(rules, History(), times, req);
          return false;
        }
      }
      assert rules[..|rules|] == rules;
      return true;
    }

    /** Rule i records the amount once. */
    method RecordAt(clock: Clock, i: nat, amount: int)
      requires Valid(clock.now) && i < |rules| && rules[i].Velocity?
      modifies clock, rules[i].limit
      ensures old(clock.now) <= clock.now && Valid(clock.now)
      ensures History() == old(History())[rules[i].limit := old(rules[i].limit.history) + [Entry(amount, clock.now)]]
    {
      ghost var before := clock.now;
      var limit := rules[i].limit;
      limit.RecordTransaction(clock, amount);
      forall l | l in Limits() && l != limit ensures l.Valid(clock.now) {
        l.StaysValid(before, clock.now);
      }
    }

    /** Every velocity rule records the amount once for each time it is listed. */
    method RecordTransaction(clock: Clock, amount: int)
      requires Valid(clock.now)
      modifies clock, Limits()
      ensures old(clock.now) <= clock.now && Valid(clock.now)
      ensures AllExtend(rules, old(History()), History(), amount, old(clock.now), clock.now)
    {
      hide Valid, AllExtend;
      ExtendNone(History(), amount, clock.now, clock.now);
      assert rules[..0] == [];
      for i := 0 to |rules|
        invariant old(clock.now) <= clock.now && Valid(clock.now)
        invariant AllExtend(rules[..i], old(History()), History(), amount, old(clock.now), clock.now)
      {
        ghost var before, start := History(), clock.now;
        if rules[i].Velocity? {
          RecordAt(clock, i, amount);
        }
        ExtendLater(rules[..i], old(History()), before, amount, old(clock.now), start, old(clock.now), clock.now);
        ExtendNext(rules, i, old(History()), before, amount, old(clock.now), clock.now);
      }
      assert rules[..|rules|] == rules;
    }
  }

  // ----- Safety -----

  /** A request that was allowed, recorded later with nothing recorded in between, leaves every
      velocity rule within its limit in every window of its history, if none is listed twice and no
      amount is negative. */
  lemma RecordingKeepsSafe(rules: seq<Rule>, hs: Histories, after: Histories, req: Request, asked: int, lo: int,
      hi: int)
    requires Allows(rules, hs, req, asked, lo) && Listed(rules, hs) && RecordedBy(hs, asked)
    requires AllExtend(rules, hs, after, req.totalAmount, lo, hi)
    requires ListedOnce(rules, hs) && NoNegatives(hs) && req.totalAmount >= 0 && AllSafe(hs)
    ensures AllSafe(after) && NoNegatives(after)
  {
    hide WithinLimit, WindowTotal, Extends, NonNegative, NoLaterThan, Allows, Listings;
    AllowedFits(rules, hs, req, asked, lo);
    assert asked <= lo by { AllowedInOrder(rules, hs, req, asked, lo); }
    forall l | l in after ensures Safe(l, after[l]) && NonNegative(after[l]) {
      Earlier(hs[l], asked, lo);
      assert Fits(l, hs[l], lo, req.totalAmount);
      ExtendedIsSafe(hs[l], after[l], l.maxAmount, l.window, req.totalAmount, lo, hi);
    }
  }

  lemma AllowedInOrder(rules: seq<Rule>, hs: Histories, req: Request, lo: int, hi: int)
    requires Allows(rules, hs, req, lo, hi)
    ensures lo <= hi
  {
    var times :| InTurn(times, lo, hi) && |times| == |rules| && PassAt(rules, hs, times, req);
    assert lo <= times[0] <= hi;
  }

  lemma ExtendedIsSafe(h0: seq<Entry>, h1: seq<Entry>, max: int, window: int, amount: int, lo: int, hi: int)
    requires Extends(h0, h1, 1, amount, lo, hi) && amount >= 0
    requires NonNegative(h0) && NoLaterThan(h0, lo) && WithinLimit(h0, max, window)
    requires WindowTotal(h0, window, lo) + amount <= max
    ensures WithinLimit(h1, max, window) && NonNegative(h1)
  {
    hide WithinLimit, Between, Total;
    var t := h1[|h0|].time;
    RecordKeepsLimit(h0, max, window, amount, lo, t);
    assert h1 == h0 + [Entry(amount, t)];
  }

  // ----- Which configurations keep their limits -----

  /** The velocity rules, in the order in which they are listed. */
  ghost function LimitsOf(rules: seq<Rule>): seq<VelocityRule> {
    if rules == [] then [] else
      var last := rules[|rules| - 1];
      LimitsOf(rules[..|rules| - 1]) + if last.Velocity? then [last.limit] else []
  }

  /** A request is allowed and its amount, not negative, recorded, with nothing recorded in between:
      all limits held before. */
  ghost predicate Records(rules: seq<Rule>, hs: Histories, after: Histories, req: Request, asked: int, lo: int,
      hi: int) {
    && hs.Keys == (set l | l in LimitsOf(rules))
    && RecordedBy(hs, asked) && NoNegatives(hs) && AllSafe(hs) && req.totalAmount >= 0
    && Allows(rules, hs, req, asked, lo) && AllExtend(rules, hs, after, req.totalAmount, lo, hi)
  }

  /** No rule with a window is listed twice, or some limit allows no positive amount at all. */
  ghost predicate KeepsLimits(limits: seq<VelocityRule>) {
    || (exists l :: l in limits && l.maxAmount <= 0)
    || forall l | l in limits && l.window > 0 :: multiset(limits)[l] == 1
  }

  /** Whatever other rules an engine has besides these velocity rules, recording what it allows keeps
      every limit in every window; exactly if the velocity rules keep their limits as listed. */
  lemma RecordingKeepsSafeExactly(limits: seq<VelocityRule>)
    ensures (forall rules, hs, after, req, asked, lo, hi |
      LimitsOf(rules) == limits && Records(rules, hs, after, req, asked, lo, hi) ::
      AllSafe(after)) <==> KeepsLimits(limits)
  {
    hide LimitsOf, Records, AllSafe, KeepsLimits;
    if KeepsLimits(limits) {
      forall rules, hs, after, req, asked, lo, hi |
        LimitsOf(rules) == limits && Records(rules, hs, after, req, asked, lo, hi)
        ensures AllSafe(after)
      {
        KeptLimits(rules, hs, after, req, asked, lo, hi);
      }
    } else {
      var rules, hs, after, req := BrokenLimit(limits);
    }
  }

  lemma {:induction false} ListingsCount(rules: seq<Rule>, l: VelocityRule)
    ensures Listings(rules, l) == multiset(LimitsOf(rules))[l]
    ensures l in LimitsOf(rules) <==> Velocity(l) in rules
  {
    if rules != [] {
      var n := |rules| - 1;
      ListingsCount(rules[..n], l);
      assert rules == rules[..n] + [rules[n]];
    }
  }

  lemma KeptLimits(rules: seq<Rule>, hs: Histories, after: Histories, req: Request, asked: int, lo: int, hi: int)
    requires KeepsLimits(LimitsOf(rules)) && Records(rules, hs, after, req, asked, lo, hi)
    ensures AllSafe(after)
  {
    hide Allows, Listings, LimitsOf, Extends, NonNegative, NoLaterThan, Fits, WithinLimit;
    forall l | l in hs ensures Velocity(l) in rules && Listings(rules, l) == multiset(LimitsOf(rules))[l] {
      ListingsCount(rules, l);
    }
    AllowedFits(rules, hs, req, asked, lo);
    AllowedInOrder(rules, hs, req, asked, lo);
    if exists l :: l in LimitsOf(rules) && l.maxAmount <= 0 {
      var l :| l in LimitsOf(rules) && l.maxAmount <= 0;
      FitsAtMost(l, hs[l], lo, req.totalAmount);
    }
    forall l | l in after ensures Safe(l, after[l]) {
      Earlier(hs[l], asked, lo);
      if l.window <= 0 {
        NoWindow(after[l], l.maxAmount, l.window);
      } else if req.totalAmount == 0 {
        FitsAtMost(l, hs[l], lo, 0);
        ZerosAreSafe(hs[l], after[l], Listings(rules, l), l.maxAmount, l.window, lo, hi);
      } else {
        OneEntryIsSafe(l, hs[l], after[l], req.totalAmount, lo, hi);
      }
    }
  }

  lemma FitsAtMost(l: VelocityRule, history: seq<Entry>, now: int, amount: int)
    requires NonNegative(history) && Fits(l, history, now, amount)
    ensures amount <= l.maxAmount
  {
    BetweenMonotone(history, now - l.window, now, now - l.window, now);
  }

  lemma OneEntryIsSafe(l: VelocityRule, h0: seq<Entry>, h1: seq<Entry>, amount: int, lo: int, hi: int)
    requires Extends(h0, h1, 1, amount, lo, hi) && amount >= 0
    requires NonNegative(h0) && NoLaterThan(h0, lo) && Safe(l, h0) && Fits(l, h0, lo, amount)
    ensures Safe(l, h1)
  {
    hide WithinLimit, WindowTotal, Extends, NonNegative, NoLaterThan;
    ExtendedIsSafe(h0, h1, l.maxAmount, l.window, amount, lo, hi);
  }

  lemma NoWindow(history: seq<Entry>, max: int, window: int)
    requires window <= 0
    ensures WithinLimit(history, max, window)
  {
    forall lo, hi | hi == lo + window ensures Between(history, lo, hi) == [] {
      NothingBetween(history, lo, hi);
    }
  }

  lemma {:induction false} NothingBetween(es: seq<Entry>, lo: int, hi: int)
    requires hi <= lo
    ensures Between(es, lo, hi) == []
  {
    if es != [] { NothingBetween(es[1..], lo, hi); }
  }

  /** Entries of nothing add nothing to any window. */
  lemma ZerosAreSafe(h0: seq<Entry>, h1: seq<Entry>, n: nat, max: int, window: int, lo: int, hi: int)
    requires Extends(h0, h1, n, 0, lo, hi) && WithinLimit(h0, max, window) && max >= 0
    ensures WithinLimit(h1, max, window)
  {
    hide Between, Total;
    var zeros := h1[|h0|..];
    assert h1 == h0 + zeros;
    forall a, b | b == a + window && Between(h1, a, b) != [] ensures Total(Between(h1, a, b)) <= max {
      BetweenConcat(h0, zeros, a, b);
      TotalConcat(Between(h0, a, b), Between(zeros, a, b));
      TotalOfZeros(zeros, a, b);
      NothingTotal();
    }
  }

  lemma NothingTotal()
    ensures Total([]) == 0
  {
  }

  lemma {:induction false} TotalOfZeros(es: seq<Entry>, lo: int, hi: int)
    requires forall k | 0 <= k < |es| :: es[k].amount == 0
    ensures Total(Between(es, lo, hi)) == 0
  {
    if es != [] {
      TotalOfZeros(es[1..], lo, hi);
      assert ([es[0]] + Between(es[1..], lo, hi))[1..] == Between(es[1..], lo, hi);
    }
  }

  /** Velocity rules of which one, with a window, is listed more than once: one less than its limit
      has been recorded, one more is allowed, and is recorded more than once. */
  lemma BrokenLimit(limits: seq<VelocityRule>) returns (rules: seq<Rule>, hs: Histories, after: Histories, req: Request)
    requires !KeepsLimits(limits)
    ensures LimitsOf(rules) == limits && Records(rules, hs, after, req, 0, 0, 0) && !AllSafe(after)
  {
    var broken :| broken in limits && broken.window > 0 && multiset(limits)[broken] != 1;
    rules, req := Rules(limits), Request([], 1, "", 0, []);
    hs := SpentUp(limits, broken);
    after := OneMore(rules, hs);
    hide Listings, LimitsOf, SpentUp, OneMore, AllSafe, AllExtend, Safe;
    RulesHaveLimits(limits);
    SpentUpIsReady(limits, broken, req);
    OneMoreExtends(rules, hs);
    ListingsCount(rules, broken);
    OneMoreIsTooMuch(limits, broken);
  }

  /** One less than the limit is spent of one rule, nothing of the others. */
  ghost function SpentUp(limits: seq<VelocityRule>, broken: VelocityRule): (hs: Histories)
    ensures hs.Keys == set l | l in limits
  {
    map l | l in limits :: if l == broken then [Entry(broken.maxAmount - 1, 0)] else []
  }

  ghost function OneMore(rules: seq<Rule>, hs: Histories): (after: Histories)
    ensures after.Keys == hs.Keys
  {
    map l | l in hs :: hs[l] + Ones(Listings(rules, l))
  }

  lemma SpentUpIsReady(limits: seq<VelocityRule>, broken: VelocityRule, req: Request)
    requires broken in limits && req.totalAmount == 1 && forall l | l in limits :: l.maxAmount > 0
    ensures var hs := SpentUp(limits, broken);
      RecordedBy(hs, 0) && NoNegatives(hs) && AllSafe(hs) && Allows(Rules(limits), hs, req, 0, 0)
  {
    var rules, hs := Rules(limits), SpentUp(limits, broken);
    forall l | l in limits
      ensures Safe(l, hs[l]) && Fits(l, hs[l], 0, 1) && NonNegative(hs[l]) && NoLaterThan(hs[l], 0)
    {
      UpToOneEntry(l, hs[l]);
    }
    hide Safe, Fits, NonNegative, NoLaterThan, SpentUp;
    forall k | 0 <= k < |rules| ensures Passes(rules[k], hs, 0, req) {
      assert rules[k] == Velocity(limits[k]) && limits[k] in limits;
    }
    AllowedAtOnce(rules, hs, req, 0);
  }

  lemma OneMoreExtends(rules: seq<Rule>, hs: Histories)
    ensures AllExtend(rules, hs, OneMore(rules, hs), 1, 0, 0)
  {
    hide Listings;
  }

  lemma OneMoreIsTooMuch(limits: seq<VelocityRule>, broken: VelocityRule)
    requires broken in limits && broken.window > 0 && Listings(Rules(limits), broken) >= 2
    ensures !AllSafe(OneMore(Rules(limits), SpentUp(limits, broken)))
  {
    hide Listings, Safe;
    var n, spent := Listings(Rules(limits), broken), Entry(broken.maxAmount - 1, 0);
    MoreThanTheLimit(broken, spent, n);
    assert OneMore(Rules(limits), SpentUp(limits, broken))[broken] == [spent] + Ones(n);
  }

  function Ones(n: nat): (es: seq<Entry>)
    ensures |es| == n && forall k | 0 <= k < n :: es[k] == Entry(1, 0)
  {
    seq(n, _ => Entry(1, 0))
  }

  ghost function Rules(limits: seq<VelocityRule>): (rules: seq<Rule>)
    ensures |rules| == |limits| && forall k | 0 <= k < |rules| :: rules[k] == Velocity(limits[k])
  {
    seq(|limits|, k requires 0 <= k < |limits| => Velocity(limits[k]))
  }

  lemma {:induction false} RulesHaveLimits(limits: seq<VelocityRule>)
    ensures LimitsOf(Rules(limits)) == limits
  {
    if limits != [] {
      var n := |limits| - 1;
      RulesHaveLimits(limits[..n]);
      assert Rules(limits)[..n] == Rules(limits[..n]);
      assert limits == limits[..n] + [limits[n]];
    }
  }

  lemma AllowedAtOnce(rules: seq<Rule>, hs: Histories, req: Request, t: int)
    requires rules != [] && forall k | 0 <= k < |rules| :: Passes(rules[k], hs, t, req)
    ensures Allows(rules, hs, req, t, t)
  {
    hide Passes;
    var times := seq(|rules|, _ => t);
    assert PassAt(rules, hs, times, req) && InTurn(times, t, t);
  }

  lemma UpToOneEntry(l: VelocityRule, h: seq<Entry>)
    requires l.maxAmount > 0 && (h == [] || h == [Entry(l.maxAmount - 1, 0)])
    ensures Safe(l, h) && Fits(l, h, 0, 1) && NonNegative(h) && NoLaterThan(h, 0)
  {
    forall lo, hi ensures 0 <= Total(Between(h, lo, hi)) <= l.maxAmount - 1 {
      assert h == [] || (h[1..] == [] && [h[0]] + [] == h);
    }
  }

  lemma MoreThanTheLimit(l: VelocityRule, spent: Entry, n: nat)
    requires l.window > 0 && spent == Entry(l.maxAmount - 1, 0) && n >= 2
    ensures !Safe(l, [spent] + Ones(n))
  {
    var h := [spent] + Ones(n);
    AllBetween(h, -1, l.window - 1);
    TotalConcat([spent], Ones(n));
    TotalOfOnes(n);
    assert Total([spent]) == spent.amount;
  }

  lemma {:induction false} AllBetween(es: seq<Entry>, lo: int, hi: int)
    requires forall k | 0 <= k < |es| :: lo < es[k].time <= hi
    ensures Between(es, lo, hi) == es
  {
    if es != [] {
      AllBetween(es[1..], lo, hi);
      assert es == [es[0]] + es[1..];
    }
  }

  lemma {:induction false} TotalOfOnes(n: nat)
    ensures Total(Ones(n)) == n
  {
    if n > 0 {
      TotalOfOnes(n - 1);
      assert Ones(n)[1..] == Ones(n - 1);
    }
  }

  /** A rule listed twice is checked for the amount but records it twice: 60 fits a limit of 100,
      and 120 is recorded. */
  lemma TwiceListedPassesLimit(limit: VelocityRule, req: Request, after: Histories)
    requires limit.maxAmount == 100 && limit.window == 10 && req.totalAmount == 60
    requires AllExtend([Velocity(limit), Velocity(limit)], map[limit := []], after, 60, 0, 5)
    ensures Allows([Velocity(limit), Velocity(limit)], map[limit := []], req, 0, 0) && !AllSafe(after)
  {
    var rules, hs: Histories := [Velocity(limit), Velocity(limit)], map[limit := []];
    assert PassAt(rules, hs, [0, 0], req) && InTurn([0, 0], 0, 0);
    TwoListings(limit);
    hide Listings, Passes, Between, Total;
    var h := after[limit];
    assert Extends([], h, 2, 60, 0, 5);
    TwoEntries(h);
    assert !Safe(limit, h);
  }

  lemma TwoListings(limit: VelocityRule)
    ensures Listings([Velocity(limit), Velocity(limit)], limit) == 2
  {
    var rules := [Velocity(limit), Velocity(limit)];
    assert rules[..1] == [Velocity(limit)] && rules[..1][..0] == [];
    assert Listings(rules[..1], limit) == 1;
  }

  lemma TwoEntries(h: seq<Entry>)
    requires Extends([], h, 2, 60, 0, 5)
    ensures Between(h, -1, 9) == h && Total(h) == 120
  {
    assert h == [h[0]] + [h[1]] && h[1..] == [h[1]] && h[1..][1..] == [];
    assert Between(h[1..], -1, 9) == h[1..] + Between(h[1..][1..], -1, 9) == h[1..];
    assert Between(h, -1, 9) == h && Total(h[1..]) == 60;
  }
}
