/** The sliding-window velocity limit: a pruned ledger that answers like the full history, and a
    limit that holds over every window of every run. */
module Velocity {
  datatype Entry = Entry(amount: int, time: int)

  /** Time only moves forward; how far is not known.  Times are in nanoseconds. */
  class Clock {
    var now: int

    method Now() returns (t: int)
      modifies this
      ensures t == now && old(now) <= now
    {
      t :| now <= t;
      now := t;
    }
  }

  function Total(es: seq<Entry>): int {
    if es == [] then 0 else es[0].amount + Total(es[1..])
  }

  /** What prune keeps: everything from the first entry later than the cutoff. */
  function Prune(es: seq<Entry>, cutoff: int): seq<Entry> {
    if es == [] || es[0].time > cutoff then es else Prune(es[1..], cutoff)
  }

  /** The entries later than lo and no later than hi, wherever they stand. */
  function Between(es: seq<Entry>, lo: int, hi: int): seq<Entry> {
    if es == [] then []
    else if lo < es[0].time <= hi then [es[0]] + Between(es[1..], lo, hi)
    else Between(es[1..], lo, hi)
  }

  ghost predicate Sorted(es: seq<Entry>) {
    forall i, j | 0 <= i < j < |es| :: es[i].time <= es[j].time
  }

  ghost predicate NoLaterThan(es: seq<Entry>, t: int) {
    forall i | 0 <= i < |es| :: es[i].time <= t
  }

  ghost predicate NonNegative(es: seq<Entry>) {
    forall i | 0 <= i < |es| :: es[i].amount >= 0
  }

  /** Pruning a sorted ledger keeps exactly the entries inside the window. */
  lemma {:induction false} PruneIsWindow(es: seq<Entry>, cutoff: int, now: int)
    requires Sorted(es) && NoLaterThan(es, now)
    ensures Prune(es, cutoff) == Between(es, cutoff, now)
  {
    if es != [] {
      PruneIsWindow(es[1..], cutoff, now);
      if es[0].time > cutoff {
        assert es[1..] == Prune(es[1..], cutoff) by {
          if |es| > 1 { assert es[1].time > cutoff; }
        }
        assert es == [es[0]] + es[1..];
      }
    }
  }

  lemma {:induction false} BetweenConcat(a: seq<Entry>, b: seq<Entry>, lo: int, hi: int)
    ensures Between(a + b, lo, hi) == Between(a, lo, hi) + Between(b, lo, hi)
  {
    if a == [] {
      assert a + b == b;
    } else {
      BetweenConcat(a[1..], b, lo, hi);
      assert (a + b)[1..] == a[1..] + b;
      AppendAssociates([a[0]], Between(a[1..], lo, hi), Between(b, lo, hi));
    }
  }

  lemma AppendAssociates<T>(a: seq<T>, b: seq<T>, c: seq<T>)
    ensures a + (b + c) == (a + b) + c
  {
  }

  lemma {:induction false} TotalConcat(a: seq<Entry>, b: seq<Entry>)
    ensures Total(a + b) == Total(a) + Total(b)
  {
    if a == [] {
      assert a + b == b;
    } else {
      TotalConcat(a[1..], b);
      assert (a + b)[1..] == a[1..] + b;
    }
  }

  lemma {:induction false} BetweenOfOld(es: seq<Entry>, lo: int, hi: int)
    requires NoLaterThan(es, lo)
    ensures Between(es, lo, hi) == []
  {
    if es != [] { BetweenOfOld(es[1..], lo, hi); }
  }

  /** A smaller interval holds no larger total. */
  lemma {:induction false} BetweenMonotone(es: seq<Entry>, lo: int, hi: int, lo': int, hi': int)
    requires NonNegative(es) && lo <= lo' && hi' <= hi
    ensures 0 <= Total(Between(es, lo', hi')) <= Total(Between(es, lo, hi))
  {
    if es != [] {
      BetweenMonotone(es[1..], lo, hi, lo', hi');
      var e := es[0];
      assert ([e] + Between(es[1..], lo, hi))[1..] == Between(es[1..], lo, hi);
      assert ([e] + Between(es[1..], lo', hi'))[1..] == Between(es[1..], lo', hi');
    }
  }

  // ----- The limit -----

  /** The amount recorded in the window that ends now. */
  function WindowTotal(history: seq<Entry>, window: int, now: int): int {
    Total(Between(history, now - window, now))
  }

  /** No half-open interval of window length, anywhere in the history, exceeds the limit.  Times
      being whole nanoseconds, (lo, lo + window] ranges over all such intervals. */
  ghost predicate WithinLimit(history: seq<Entry>, max: int, window: int) {
    forall lo, hi | hi == lo + window :: Between(history, lo, hi) != [] ==> Total(Between(history, lo, hi)) <= max
  }

  /** Every interval that ends at the given time, up to window length, has room for the amount. */
  ghost predicate RoomUpTo(history: seq<Entry>, max: int, window: int, amount: int, at: int) {
    forall lo | at - window <= lo < at :: Total(Between(history, lo, at)) + amount <= max
  }

  /** Recording one entry, of any amount, keeps every interval within the limit exactly when there is
      room for it in every interval that ends at its time. */
  lemma RecordKeepsLimitExactly(history: seq<Entry>, max: int, window: int, amount: int, at: int)
    requires NoLaterThan(history, at) && WithinLimit(history, max, window)
    ensures WithinLimit(history + [Entry(amount, at)], max, window) <==> RoomUpTo(history, max, window, amount, at)
  {
    var e := Entry(amount, at);
    forall lo, hi | hi == lo + window
      ensures Between(history + [e], lo, hi) == Between(history, lo, hi) + if lo < at <= hi then [e] else []
    {
      BetweenConcat(history, [e], lo, hi);
    }
    if WithinLimit(history + [e], max, window) {
      forall lo | at - window <= lo < at ensures Total(Between(history, lo, at)) + amount <= max {
        IntervalWithEntry(history, e, lo, lo + window);
      }
    }
    if RoomUpTo(history, max, window, amount, at) {
      forall lo, hi | hi == lo + window && Between(history + [e], lo, hi) != []
        ensures Total(Between(history + [e], lo, hi)) <= max
      {
        if lo < at <= hi {
          IntervalWithEntry(history, e, lo, hi);
        } else {
          assert Between(history, lo, hi) + [] == Between(history, lo, hi);
        }
      }
    }
  }

  /** The total of an interval that contains the last entry. */
  lemma IntervalWithEntry(history: seq<Entry>, e: Entry, lo: int, hi: int)
    requires NoLaterThan(history, e.time) && lo < e.time <= hi
    ensures Between(history + [e], lo, hi) != []
    ensures Total(Between(history + [e], lo, hi)) == Total(Between(history, lo, e.time)) + e.amount
  {
    BetweenConcat(history, [e], lo, hi);
    BetweenUpTo(history, lo, hi, e.time);
    TotalConcat(Between(history, lo, hi), [e]);
    assert Between([e], lo, hi) == [e] && Total([e]) == e.amount;
  }

  /** Recording an amount that was checked earlier, with nothing recorded in between, keeps every
      interval within the limit: without negative amounts the widest interval needs the most room. */
  lemma RecordKeepsLimit(history: seq<Entry>, max: int, window: int, amount: int, checkedAt: int, recordedAt: int)
    requires NonNegative(history) && NoLaterThan(history, checkedAt) && checkedAt <= recordedAt && amount >= 0
    requires WithinLimit(history, max, window)
    requires WindowTotal(history, window, checkedAt) + amount <= max
    ensures WithinLimit(history + [Entry(amount, recordedAt)], max, window)
  {
    Earlier(history, checkedAt, recordedAt);
    RecordKeepsLimitExactly(history, max, window, amount, recordedAt);
    forall lo | recordedAt - window <= lo < recordedAt
      ensures Total(Between(history, lo, recordedAt)) + amount <= max
    {
      BetweenUpTo(history, lo, recordedAt, checkedAt);
      BetweenMonotone(history, checkedAt - window, checkedAt, lo, checkedAt);
    }
  }

  lemma {:induction false} BetweenUpTo(es: seq<Entry>, lo: int, hi: int, hi': int)
    requires NoLaterThan(es, hi) && NoLaterThan(es, hi')
    ensures Between(es, lo, hi) == Between(es, lo, hi')
  {
    if es != [] { BetweenUpTo(es[1..], lo, hi, hi'); }
  }

  // ----- The rule -----

  class VelocityRule {
    const maxAmount: int
    const window: int
    var ledger: seq<Entry>
    /** Everything ever recorded; the ledger is its unpruned end. */
    ghost var history: seq<Entry>
    /** The latest cutoff used for pruning. */
    ghost var horizon: int

    constructor (maxAmount: int, window: int, ghost now: int)
      ensures this.maxAmount == maxAmount && this.window == window
      ensures Valid(now) && history == []
    {
      this.maxAmount, this.window := maxAmount, window;
      ledger := [];
      history, horizon := [], now - window;
    }

    ghost predicate Valid(now: int)
      reads this
    {
      && Sorted(history) && NoLaterThan(history, now)
      && |ledger| <= |history| && ledger == history[|history| - |ledger|..]
      && NoLaterThan(history[..|history| - |ledger|], horizon)
      && horizon <= now - window
    }

    /** The rule as a state of the runs below. */
    ghost function Snapshot(): State
      reads this
    {
      State(ledger, history)
    }

    method PruneLedger(clock: Clock)
      requires Valid(clock.now)
      modifies clock, this`ledger, this`horizon
      ensures old(clock.now) <= clock.now && Valid(clock.now)
      ensures Snapshot() == Step(old(Snapshot()), Query(clock.now), maxAmount, window)
      ensures ledger == Between(history, clock.now - window, clock.now)
    {
      hide Between, Prune, Sorted, NoLaterThan;
      ghost var before := clock.now;
      var now := clock.Now();
      StaysValid(before, now);
      var cutoff := now - window;
      var i := FirstInWindow(ledger, cutoff);
      PrunedEnd(history, ledger, i, horizon, cutoff, now);
      if i > 0 {
        ledger := ledger[i..];
      }
      horizon := cutoff;
    }

    lemma StaysValid(now: int, later: int)
      requires Valid(now) && now <= later
      ensures Valid(later)
    {
    }

    /** Allows exactly what the full history leaves room for. */
    method Evaluate(clock: Clock, amount: int) returns (allowed: bool)
      requires Valid(clock.now)
      modifies clock, this`ledger, this`horizon
      ensures old(clock.now) <= clock.now && Valid(clock.now)
      ensures allowed <==> WindowTotal(history, window, clock.now) + amount <= maxAmount
      ensures Snapshot() == Step(old(Snapshot()), Query(clock.now), maxAmount, window)
      ensures allowed <==> Total(ledger) + amount <= maxAmount
    {
      var currentSpend := CurrentSpend(clock);
      allowed := currentSpend + amount <= maxAmount;
    }

    method RecordTransaction(clock: Clock, amount: int)
      requires Valid(clock.now)
      modifies clock, this`ledger, this`history
      ensures old(clock.now) <= clock.now && Valid(clock.now)
      ensures history == old(history) + [Entry(amount, clock.now)]
      ensures ledger == old(ledger) + [Entry(amount, clock.now)]
    {
      var now := clock.Now();
      ghost var n := |history| - |ledger|;
      ledger := ledger + [Entry(amount, now)];
      history := history + [Entry(amount, now)];
      assert history[n..] == ledger;
      assert history[..n] == old(history)[..n];
    }

    /** How a spend uses the rule: an amount that is allowed is recorded later.  This is one step of
        the runs whose limit is proved below. */
    method CheckThenRecord(clock: Clock, amount: int) returns (allowed: bool, ghost checkedAt: int)
      requires Valid(clock.now)
      modifies clock, this`ledger, this`history, this`horizon
      ensures old(clock.now) <= checkedAt <= clock.now && Valid(clock.now)
      ensures Snapshot() == Step(old(Snapshot()), Spend(amount, checkedAt, clock.now), maxAmount, window)
      ensures allowed <==> history != old(history)
    {
      allowed := Evaluate(clock, amount);
      checkedAt := clock.now;
      if allowed {
        RecordTransaction(clock, amount);
      }
    }

    method CurrentSpend(clock: Clock) returns (total: int)
      requires Valid(clock.now)
      modifies clock, this`ledger, this`horizon
      ensures old(clock.now) <= clock.now && Valid(clock.now)
      ensures total == WindowTotal(history, window, clock.now) == Total(ledger)
      ensures Snapshot() == Step(old(Snapshot()), Query(clock.now), maxAmount, window)
    {
      PruneLedger(clock);
      total := SumEntries(ledger);
    }

    method RemainingAllowance(clock: Clock) returns (allowance: int)
      requires Valid(clock.now)
      modifies clock, this`ledger, this`horizon
      ensures old(clock.now) <= clock.now && Valid(clock.now)
      ensures allowance == maxAmount - WindowTotal(history, window, clock.now)
    {
      var spent := CurrentSpend(clock);
      allowance := maxAmount - spent;
    }
  }

  method FirstInWindow(ledger: seq<Entry>, cutoff: int) returns (i: nat)
    ensures i <= |ledger| && NoLaterThan(ledger[..i], cutoff) && (i < |ledger| ==> ledger[i].time > cutoff)
    ensures ledger[i..] == Prune(ledger, cutoff)
  {
    i := 0;
    while i < |ledger|
      invariant i <= |ledger| && NoLaterThan(ledger[..i], cutoff)
      invariant Prune(ledger, cutoff) == Prune(ledger[i..], cutoff)
    {
      if ledger[i].time > cutoff {
        break;
      }
      assert ledger[i..][1..] == ledger[i + 1..];
      i := i + 1;
    }
  }

  method SumEntries(es: seq<Entry>) returns (total: int)
    ensures total == Total(es)
  {
    total := 0;
    for i := 0 to |es|
      invariant total == Total(es[..i])
    {
      TotalConcat(es[..i], [es[i]]);
      assert es[..i + 1] == es[..i] + [es[i]];
      total := total + es[i].amount;
    }
    assert es[..|es|] == es;
  }

  /** What pruning i entries from the ledger leaves is the window of the full history. */
  lemma PrunedEnd(history: seq<Entry>, ledger: seq<Entry>, i: nat, horizon: int, cutoff: int, now: int)
    requires Sorted(history) && NoLaterThan(history, now)
    requires |ledger| <= |history| && ledger == history[|history| - |ledger|..]
    requires NoLaterThan(history[..|history| - |ledger|], horizon) && horizon <= cutoff
    requires i <= |ledger| && NoLaterThan(ledger[..i], cutoff) && ledger[i..] == Prune(ledger, cutoff)
    ensures ledger[i..] == Between(history, cutoff, now)
    ensures NoLaterThan(history[..|history| - |ledger| + i], cutoff)
  {
    hide Sorted, NoLaterThan, Between, Prune;
    var m := |history| - |ledger|;
    var dropped := history[..m];
    assert history == dropped + ledger;
    OldEntries(dropped, ledger[..i], horizon, cutoff);
    assert history[..m + i] == dropped + ledger[..i];
    Earlier(dropped, horizon, cutoff);
    SuffixKeeps(dropped, ledger, now);
    BetweenConcat(dropped, ledger, cutoff, now);
    BetweenOfOld(dropped, cutoff, now);
    assert [] + Between(ledger, cutoff, now) == Between(ledger, cutoff, now);
    PruneIsWindow(ledger, cutoff, now);
  }

  lemma Earlier(es: seq<Entry>, s: int, t: int)
    requires NoLaterThan(es, s) && s <= t
    ensures NoLaterThan(es, t)
  {
  }

  lemma OldEntries(a: seq<Entry>, b: seq<Entry>, s: int, t: int)
    requires NoLaterThan(a, s) && s <= t && NoLaterThan(b, t)
    ensures NoLaterThan(a + b, t)
  {
  }

  lemma SuffixKeeps(a: seq<Entry>, b: seq<Entry>, now: int)
    requires Sorted(a + b) && NoLaterThan(a + b, now)
    ensures Sorted(b) && NoLaterThan(b, now)
  {
    assert forall k | 0 <= k < |b| :: b[k] == (a + b)[|a| + k];
  }

  // ----- Whole runs -----

  /** A spend is checked at one time and, when allowed, recorded at a later one; a query only prunes. */
  datatype Event = Spend(amount: int, checkedAt: int, recordedAt: int) | Query(at: int)

  datatype State = State(ledger: seq<Entry>, history: seq<Entry>)

  /** One step of the rule as the code takes it, deciding from the pruned ledger alone. */
  function Step(s: State, e: Event, max: int, window: int): State {
    match e
    case Query(at) => s.(ledger := Prune(s.ledger, at - window))
    case Spend(amount, checkedAt, recordedAt) =>
      var ledger := Prune(s.ledger, checkedAt - window);
      if Total(ledger) + amount > max then s.(ledger := ledger)
      else State(ledger + [Entry(amount, recordedAt)], s.history + [Entry(amount, recordedAt)])
  }

  function Run(events: seq<Event>, max: int, window: int): State {
    if events == [] then State([], []) else
      Step(Run(events[..|events| - 1], max, window), events[|events| - 1], max, window)
  }

  function Start(e: Event): int {
    match e case Spend(_, checkedAt, _) => checkedAt case Query(at) => at
  }

  function End(e: Event): int {
    match e case Spend(_, _, recordedAt) => recordedAt case Query(at) => at
  }

  /** The clock never goes back. */
  ghost predicate WellTimed(events: seq<Event>) {
    && (forall i | 0 <= i < |events| :: Start(events[i]) <= End(events[i]))
    && forall i, j | 0 <= i < j < |events| :: End(events[i]) <= Start(events[j])
  }

  ghost predicate NoNegativeAmounts(events: seq<Event>) {
    forall i | 0 <= i < |events| && events[i].Spend? :: events[i].amount >= 0
  }

  /** The ledger agrees with the history inside every window that can still be asked about. */
  ghost predicate Agrees(s: State, window: int, now: int) {
    && Sorted(s.history) && NoLaterThan(s.history, now) && NonNegative(s.history)
    && Sorted(s.ledger) && NoLaterThan(s.ledger, now)
    && forall cutoff | cutoff >= now - window :: Prune(s.ledger, cutoff) == Prune(s.history, cutoff)
  }

  lemma AgreesLater(s: State, window: int, now: int, later: int)
    requires Agrees(s, window, now) && now <= later
    ensures Agrees(s, window, later)
  {
    hide Prune;
  }

  lemma {:induction false} PrunePrune(es: seq<Entry>, a: int, b: int)
    requires a <= b
    ensures Prune(Prune(es, a), b) == Prune(es, b)
  {
    if es != [] && es[0].time <= a { PrunePrune(es[1..], a, b); }
  }

  lemma {:induction false} PruneKeeps(es: seq<Entry>, cutoff: int, now: int)
    requires Sorted(es) && NoLaterThan(es, now)
    ensures Sorted(Prune(es, cutoff)) && NoLaterThan(Prune(es, cutoff), now)
  {
    if es != [] { PruneKeeps(es[1..], cutoff, now); }
  }

  lemma {:induction false} PruneAppend(es: seq<Entry>, e: Entry, cutoff: int)
    requires Sorted(es + [e])
    ensures Prune(es + [e], cutoff) == if e.time > cutoff then Prune(es, cutoff) + [e] else []
  {
    if es == [] {
      assert es + [e] == [e];
    } else {
      var all := es + [e];
      assert all[0] == es[0] && all[1..] == es[1..] + [e];
      assert all[0].time <= all[|es|].time;
      if es[0].time <= cutoff {
        forall i, j | 0 <= i < j < |all[1..]| ensures all[1..][i].time <= all[1..][j].time {
          assert all[1..][i] == all[i + 1] && all[1..][j] == all[j + 1];
        }
        PruneAppend(es[1..], e, cutoff);
      }
    }
  }

  lemma PruneAgrees(s: State, window: int, now: int)
    requires Agrees(s, window, now)
    ensures Agrees(s.(ledger := Prune(s.ledger, now - window)), window, now)
  {
    PruneKeeps(s.ledger, now - window, now);
    forall cutoff | cutoff >= now - window
      ensures Prune(Prune(s.ledger, now - window), cutoff) == Prune(s.history, cutoff)
    {
      PrunePrune(s.ledger, now - window, cutoff);
    }
    hide Prune;
  }

  lemma AppendAgrees(s: State, window: int, now: int, e: Entry)
    requires Agrees(s, window, now) && now <= e.time && e.amount >= 0
    ensures Agrees(State(s.ledger + [e], s.history + [e]), window, e.time)
  {
    hide Prune;
    forall cutoff | cutoff >= e.time - window
      ensures Prune(s.ledger + [e], cutoff) == Prune(s.history + [e], cutoff)
    {
      PruneAppend(s.ledger, e, cutoff);
      PruneAppend(s.history, e, cutoff);
    }
  }

  /** Velocity safety: deciding from the pruned ledger, the rule never lets the recorded total of
      any interval of window length exceed the limit, over any run. */
  lemma {:induction false} RunStaysWithinLimit(events: seq<Event>, max: int, window: int)
    requires WellTimed(events) && NoNegativeAmounts(events)
    ensures WithinLimit(Run(events, max, window).history, max, window)
    ensures events != [] ==> Agrees(Run(events, max, window), window, End(events[|events| - 1]))
  {
    if events != [] {
      var n := |events| - 1;
      var s, e := Run(events[..n], max, window), events[n];
      RunStaysWithinLimit(events[..n], max, window);
      if n > 0 {
        AgreesLater(s, window, End(events[n - 1]), Start(e));
      } else {
        assert s == State([], []);
      }
      StepKeepsLimit(s, e, max, window);
    }
  }

  /** The code accepts negative amounts, and with them the limit can be passed: -1000 makes room for
      1000 while both are in the window, but an interval may hold the second alone. */
  lemma NegativeAmountPassesLimit()
    ensures var events := [Spend(-1000, 0, 0), Spend(1000, 1, 1)];
      WellTimed(events) && !WithinLimit(Run(events, 100, 10).history, 100, 10)
  {
    var first, second := Spend(-1000, 0, 0), Spend(1000, 1, 1);
    var events := [first, second];
    assert events[..1] == [first] && [first][..0] == [];
    var s := Run([first], 100, 10);
    assert s == State([Entry(-1000, 0)], [Entry(-1000, 0)]) by {
      assert Run([], 100, 10) == State([], []) && [] + [Entry(-1000, 0)] == [Entry(-1000, 0)];
    }
    var history := [Entry(-1000, 0), Entry(1000, 1)];
    assert Prune(s.ledger, 1 - 10) == s.ledger && Total(s.ledger) == -1000 by {
      assert s.ledger[1..] == [];
    }
    assert Run(events, 100, 10).history == history;
    assert Between(history, 0, 10) == [Entry(1000, 1)] by {
      assert history[1..] == [Entry(1000, 1)] && history[1..][1..] == [];
    }
    assert Total(Between(history, 0, 10)) == 1000;
  }

  lemma StepKeepsLimit(s: State, e: Event, max: int, window: int)
    requires Agrees(s, window, Start(e)) && Start(e) <= End(e) && (e.Spend? ==> e.amount >= 0)
    requires WithinLimit(s.history, max, window)
    ensures WithinLimit(Step(s, e, max, window).history, max, window)
    ensures Agrees(Step(s, e, max, window), window, End(e))
  {
    var now := Start(e);
    PruneAgrees(s, window, now);
    var pruned := s.(ledger := Prune(s.ledger, now - window));
    AgreesLater(pruned, window, now, End(e));
    if e.Spend? && Total(pruned.ledger) + e.amount <= max {
      PruneIsWindow(s.history, now - window, now);
      hide Prune, WithinLimit, Between, Agrees, Total;
      StepRecords(s, pruned, e, max, window);
    }
  }

  lemma StepRecords(s: State, pruned: State, e: Event, max: int, window: int)
    requires e.Spend? && e.amount >= 0 && e.checkedAt <= e.recordedAt
    requires Agrees(pruned, window, e.checkedAt) && pruned.history == s.history
    requires WithinLimit(s.history, max, window)
    requires pruned.ledger == Prune(s.ledger, e.checkedAt - window) && Total(pruned.ledger) + e.amount <= max
    requires pruned.ledger == Between(s.history, e.checkedAt - window, e.checkedAt)
    ensures WithinLimit(Step(s, e, max, window).history, max, window)
    ensures Agrees(Step(s, e, max, window), window, End(e))
  {
    hide Prune, WithinLimit, Between, Total;
    RecordKeepsLimit(s.history, max, window, e.amount, e.checkedAt, e.recordedAt);
    AppendAgrees(pruned, window, e.checkedAt, Entry(e.amount, e.recordedAt));
  }
}
