/** The signing schedule, and the scan for the next allowed time.

    Instants are nanoseconds since the start of the year 1, a Monday, in UTC; a timezone gives the
    offset of local time at every instant. */
module Schedule {
  import opened Wrappers

  const HOUR := 3_600_000_000_000
  const HALF_HOUR := 1_800_000_000_000
  const HOURS_IN_A_WEEK := 168

  type Zone = int -> int

  const UTC: Zone := t => 0

  datatype ZoneError = InvalidTimezone(name: string)

  /** Weekdays are numbered from Sunday, 0, to Saturday, 6. */
  datatype ScheduleRule = ScheduleRule(allowedDays: set<int>, startHour: int, endHour: int, zone: Zone)

  /** The timezone database is an input. */
  method NewScheduleRule(days: seq<int>, startHour: int, endHour: int, timezone: string, load: string -> Option<Zone>)
    returns (r: Result<ScheduleRule, ZoneError>)
    ensures r.Err? <==> timezone != "" && load(timezone).None?
    ensures r.Ok? ==> r.value.zone == if timezone == "" then UTC else load(timezone).value
    ensures r.Ok? ==> r.value.allowedDays == if days == [] then {1, 2, 3, 4, 5} else set d | d in days
    ensures r.Ok? ==>
      (r.value.startHour, r.value.endHour) == if startHour == 0 && endHour == 0 then (9, 18) else (startHour, endHour)
  {
    var zone := UTC;
    if timezone != "" {
      var loaded := load(timezone);
      if loaded.None? {
        return Err(InvalidTimezone(timezone));
      }
      zone := loaded.value;
    }
    var allowed: set<int> := {};
    var list := if days == [] then [1, 2, 3, 4, 5] else days;
    for i := 0 to |list|
      invariant allowed == set d | d in list[..i]
    {
      assert list[..i + 1] == list[..i] + [list[i]];
      allowed := allowed + {list[i]};
    }
    assert list[..|list|] == list;
    if startHour == 0 && endHour == 0 {
      return Ok(ScheduleRule(allowed, 9, 18, zone));
    }
    return Ok(ScheduleRule(allowed, startHour, endHour, zone));
  }

  predicate IsWithinHours(r: ScheduleRule, hour: int) {
    if r.startHour <= r.endHour then r.startHour <= hour < r.endHour
    else hour >= r.startHour || hour < r.endHour
  }

  /** For how many hours the window is open. */
  function OpenHours(r: ScheduleRule): int {
    r.endHour - r.startHour + if r.startHour <= r.endHour then 0 else 24
  }

  /** Going round the clock from the start hour, an hour is within exactly when it comes before the end
      hour: in normal and in wrapped windows alike. */
  lemma WithinRoundTheClock(r: ScheduleRule, hour: int)
    requires 0 <= hour < 24 && 0 <= r.startHour <= 24 && 0 <= r.endHour <= 24
    ensures IsWithinHours(r, hour) <==> (hour - r.startHour) % 24 < OpenHours(r)
    ensures r.startHour < 24 && r.endHour < 24 ==> OpenHours(r) == (r.endHour - r.startHour) % 24
  {
  }

  /** The number of whole local hours since the start of time. */
  function Slot(offset: int, t: int): int {
    (t + offset) / HOUR
  }

  predicate SlotAllowed(r: ScheduleRule, slot: int) {
    (slot / 24 + 1) % 7 in r.allowedDays && IsWithinHours(r, slot % 24)
  }

  predicate IsAllowedAt(r: ScheduleRule, t: int) {
    SlotAllowed(r, Slot(r.zone(t), t))
  }

  /** The day of the week at local time, from Sunday, 0; the year 1 began on a Monday. */
  function Weekday(local: int): int {
    (local / (24 * HOUR) + 1) % 7
  }

  function HourOfDay(local: int): (hour: int)
    ensures 0 <= hour < 24
  {
    local % (24 * HOUR) / HOUR
  }

  /** An instant is allowed exactly when its local weekday is one of the allowed days and its local
      hour comes, round the clock from the start hour, before the end hour. */
  lemma AllowedInLocalTime(r: ScheduleRule, t: int)
    requires 0 <= r.startHour <= 24 && 0 <= r.endHour <= 24
    ensures var local := t + r.zone(t);
      IsAllowedAt(r, t) <==>
        && Weekday(local) in r.allowedDays
        && (HourOfDay(local) - r.startHour) % 24 < OpenHours(r)
  {
    var local := t + r.zone(t);
    LocalSlot(local);
    WithinRoundTheClock(r, HourOfDay(local));
    hide IsWithinHours, HourOfDay, Weekday;
  }

  lemma LocalSlot(local: int)
    ensures local / HOUR / 24 == local / (24 * HOUR) && local / HOUR % 24 == HourOfDay(local)
  {
  }

  /** The default rule: Monday to Friday from 9:00 until 18:00, in UTC. */
  lemma DefaultIsOfficeHours(t: int)
    ensures IsAllowedAt(ScheduleRule({1, 2, 3, 4, 5}, 9, 18, UTC), t)
       <==> 1 <= Weekday(t) <= 5 && 9 <= HourOfDay(t) < 18
  {
    var r := ScheduleRule({1, 2, 3, 4, 5}, 9, 18, UTC);
    hide HourOfDay, Weekday, IsAllowedAt;
    AllowedInLocalTime(r, t);
  }

  // ----- The scan -----

  /** The first allowed one among the instants an hour apart, from t on, before end. */
  function Scan(r: ScheduleRule, t: int, end: int): Option<int>
    decreases end - t
  {
    if t >= end then None else if IsAllowedAt(r, t) then Some(t) else Scan(r, t + HOUR, end)
  }

  function NextHour(t: int): int {
    t - t % HOUR + HOUR
  }

  /** Nothing when signing is allowed now; otherwise what a week's whole hours of UTC hold. */
  function NextAllowed(r: ScheduleRule, from: int): Option<int> {
    if IsAllowedAt(r, from) then None else Scan(r, NextHour(from), NextHour(from) + HOURS_IN_A_WEEK * HOUR)
  }

  method NextAllowedTime(r: ScheduleRule, from: int) returns (next: Option<int>)
    ensures next == NextAllowed(r, from)
    ensures next == None <==> IsAllowedAt(r, from) || NoneAllowed(r, NextHour(from), HOURS_IN_A_WEEK)
    ensures next.Some? ==>
      exists k: nat :: k < HOURS_IN_A_WEEK && next.value == NextHour(from) + k * HOUR
        && FirstAllowed(r, NextHour(from), k)
  {
    hide IsAllowedAt, NextHour, NoneAllowed, FirstAllowed;
    ScanFinds(r, NextHour(from), HOURS_IN_A_WEEK);
    if IsAllowedAt(r, from) {
      return None;
    }
    var t := NextHour(from);
    var i := 0;
    while i < HOURS_IN_A_WEEK
      invariant 0 <= i <= HOURS_IN_A_WEEK
      invariant t == NextHour(from) + i * HOUR
      invariant NextAllowed(r, from) == Scan(r, t, NextHour(from) + HOURS_IN_A_WEEK * HOUR)
    {
      if IsAllowedAt(r, t) {
        return Some(t);
      }
      t := t + HOUR;
      i := i + 1;
    }
    return None;
  }

  ghost predicate NoneAllowed(r: ScheduleRule, t: int, hours: nat) {
    forall k | 0 <= k < hours :: !IsAllowedAt(r, t + k * HOUR)
  }

  /** The scan finds exactly the first allowed hour, if there is one. */
  lemma {:induction false} ScanFinds(r: ScheduleRule, t: int, hours: nat)
    ensures Scan(r, t, t + hours * HOUR) == None <==> NoneAllowed(r, t, hours)
    ensures Scan(r, t, t + hours * HOUR).Some? ==>
      exists k: nat :: k < hours && Scan(r, t, t + hours * HOUR).value == t + k * HOUR && FirstAllowed(r, t, k)
    decreases hours
  {
    hide IsAllowedAt;
    var end := t + hours * HOUR;
    if hours > 0 {
      if IsAllowedAt(r, t) {
        assert t + 0 * HOUR == t && FirstAllowed(r, t, 0);
      } else {
        ScanFinds(r, t + HOUR, hours - 1);
        assert t + HOUR + (hours - 1) * HOUR == end;
        forall k ensures t + HOUR + (k - 1) * HOUR == t + k * HOUR {}
        if Scan(r, t, end).Some? {
          var k: nat :| Scan(r, t, end).value == t + HOUR + k * HOUR && k < hours - 1 && FirstAllowed(r, t + HOUR, k);
          FirstAllowedNext(r, t, k);
          assert t + HOUR + k * HOUR == t + (k + 1) * HOUR;
        } else {
          forall k | 0 <= k < hours ensures !IsAllowedAt(r, t + k * HOUR) {
            if k > 0 { assert !IsAllowedAt(r, t + HOUR + (k - 1) * HOUR); }
          }
        }
      }
    }
  }

  ghost predicate FirstAllowed(r: ScheduleRule, t: int, k: nat) {
    IsAllowedAt(r, t + k * HOUR) && NoneAllowed(r, t, k)
  }

  lemma FirstAllowedNext(r: ScheduleRule, t: int, k: nat)
    requires !IsAllowedAt(r, t) && FirstAllowed(r, t + HOUR, k)
    ensures FirstAllowed(r, t, k + 1)
  {
    hide IsAllowedAt;
    assert t + HOUR + k * HOUR == t + (k + 1) * HOUR;
    forall j | 0 <= j < k + 1 ensures !IsAllowedAt(r, t + j * HOUR) {
      if j > 0 {
        assert t + j * HOUR == t + HOUR + (j - 1) * HOUR;
        assert !IsAllowedAt(r, t + HOUR + (j - 1) * HOUR);
      } else {
        assert t + j * HOUR == t;
      }
    }
  }

  /** What is found first is what the scan returns. */
  lemma {:induction false} FirstIsFound(r: ScheduleRule, t: int, hours: nat, k: nat)
    requires k < hours && FirstAllowed(r, t, k)
    ensures Scan(r, t, t + hours * HOUR) == Some(t + k * HOUR)
    decreases hours
  {
    hide IsAllowedAt;
    assert t + HOUR + (hours - 1) * HOUR == t + hours * HOUR;
    if k == 0 {
      assert t + 0 * HOUR == t;
    } else {
      assert t + 0 * HOUR == t && !IsAllowedAt(r, t + 0 * HOUR);
      assert t + HOUR + (k - 1) * HOUR == t + k * HOUR;
      forall j | 0 <= j < k - 1 ensures !IsAllowedAt(r, t + HOUR + j * HOUR) {
        assert t + HOUR + j * HOUR == t + (j + 1) * HOUR;
        assert !IsAllowedAt(r, t + (j + 1) * HOUR);
      }
      FirstIsFound(r, t + HOUR, hours - 1, k - 1);
    }
  }

  lemma NextIsFirst(r: ScheduleRule, from: int, k: nat)
    requires !IsAllowedAt(r, from) && k < HOURS_IN_A_WEEK && FirstAllowed(r, NextHour(from), k)
    ensures NextAllowed(r, from) == Some(NextHour(from) + k * HOUR)
  {
    hide IsAllowedAt, NextHour, FirstAllowed;
    FirstIsFound(r, NextHour(from), HOURS_IN_A_WEEK, k);
  }

  /** In any zone, nothing is returned exactly when signing is allowed now or at no whole hour of the
      coming week. */
  lemma NextIsNone(r: ScheduleRule, from: int)
    ensures NextAllowed(r, from) == None <==> IsAllowedAt(r, from) || NoneAllowed(r, NextHour(from), HOURS_IN_A_WEEK)
  {
    hide IsAllowedAt, NextHour, NoneAllowed, FirstAllowed;
    ScanFinds(r, NextHour(from), HOURS_IN_A_WEEK);
  }

  // ----- What the scan is for -----

  /** Instant t is the first allowed one after from. */
  ghost predicate IsEarliest(r: ScheduleRule, from: int, t: int) {
    from < t && IsAllowedAt(r, t) && forall u | from < u < t :: !IsAllowedAt(r, u)
  }

  ghost predicate NeverAllowed(r: ScheduleRule) {
    forall t: int :: !IsAllowedAt(r, t)
  }

  /** The scan returns the earliest allowed instant, and nothing only if signing is allowed now or
      never. */
  ghost predicate ScanIsRight(r: ScheduleRule, from: int) {
    match NextAllowed(r, from)
    case None => IsAllowedAt(r, from) || NeverAllowed(r)
    case Some(t) => IsEarliest(r, from, t)
  }

  /** The k-th instant the scan visits. */
  function HourAt(from: int, k: int): int {
    NextHour(from) + k * HOUR
  }

  lemma NextIsHour(r: ScheduleRule, from: int) returns (k: nat)
    requires NextAllowed(r, from).Some?
    ensures k < HOURS_IN_A_WEEK && NextAllowed(r, from).value == HourAt(from, k) && IsAllowedAt(r, HourAt(from, k))
    ensures forall j | 0 <= j < k :: !IsAllowedAt(r, HourAt(from, j))
    ensures !IsAllowedAt(r, from)
  {
    hide IsAllowedAt, NextHour;
    ScanFinds(r, NextHour(from), HOURS_IN_A_WEEK);
    k :| 0 <= k < HOURS_IN_A_WEEK && NextAllowed(r, from).value == NextHour(from) + k * HOUR
      && FirstAllowed(r, NextHour(from), k);
  }

  lemma NoHourAllowed(r: ScheduleRule, from: int)
    requires NextAllowed(r, from) == None && !IsAllowedAt(r, from)
    ensures forall k | 0 <= k < HOURS_IN_A_WEEK :: !IsAllowedAt(r, HourAt(from, k))
  {
    hide IsAllowedAt, NextHour, NextAllowed;
    NextIsNone(r, from);
  }

  // ----- The hours of the week -----

  lemma SlotIsWeekly(r: ScheduleRule, slot: int)
    ensures SlotAllowed(r, slot + HOURS_IN_A_WEEK) == SlotAllowed(r, slot)
  {
    assert (slot + 168) / 24 == slot / 24 + 7;
  }

  lemma {:induction false} SlotRepeats(r: ScheduleRule, slot: int, weeks: nat)
    ensures SlotAllowed(r, slot + weeks * HOURS_IN_A_WEEK) == SlotAllowed(r, slot)
  {
    hide SlotAllowed;
    if weeks > 0 {
      SlotRepeats(r, slot, weeks - 1);
      SlotIsWeekly(r, slot + (weeks - 1) * HOURS_IN_A_WEEK);
    }
  }

  /** A slot is allowed like the same hour of the first week. */
  lemma SlotInWeek(r: ScheduleRule, slot: int)
    ensures SlotAllowed(r, slot) == SlotAllowed(r, slot % HOURS_IN_A_WEEK)
  {
    hide SlotAllowed;
    var weeks := slot / HOURS_IN_A_WEEK;
    assert slot == slot % HOURS_IN_A_WEEK + weeks * HOURS_IN_A_WEEK;
    if weeks >= 0 {
      SlotRepeats(r, slot % HOURS_IN_A_WEEK, weeks);
    } else {
      SlotRepeats(r, slot, -weeks);
    }
  }

  /** 168 consecutive hours cover every slot of the week: if none is allowed, no instant ever is,
      whatever the zone does. */
  lemma WeekCoversAll(r: ScheduleRule, first: int)
    requires forall s | first <= s < first + HOURS_IN_A_WEEK :: !SlotAllowed(r, s)
    ensures NeverAllowed(r)
  {
    hide SlotAllowed;
    forall t: int ensures !IsAllowedAt(r, t) {
      var slot := Slot(r.zone(t), t);
      var s := first + (slot - first) % HOURS_IN_A_WEEK;
      assert s % HOURS_IN_A_WEEK == slot % HOURS_IN_A_WEEK;
      SlotInWeek(r, slot);
      SlotInWeek(r, s);
    }
  }

  /** The hour of the local week, from 0 to 167. */
  function WeekSlot(zone: Zone, t: int): (w: int)
    ensures 0 <= w < HOURS_IN_A_WEEK
  {
    Slot(zone(t), t) % HOURS_IN_A_WEEK
  }

  /** An instant is allowed like every other in the same hour of the local week. */
  lemma AllowedByWeekSlot(r: ScheduleRule, t: int)
    ensures IsAllowedAt(r, t) == SlotAllowed(r, WeekSlot(r.zone, t))
  {
    hide SlotAllowed;
    SlotInWeek(r, Slot(r.zone(t), t));
  }

  /** The rule that allows one hour of the week and no other. */
  function OnlyHour(zone: Zone, w: int): ScheduleRule {
    ScheduleRule({(w / 24 + 1) % 7}, w % 24, w % 24 + 1, zone)
  }

  lemma OnlyHourAllows(zone: Zone, w: int, t: int)
    requires 0 <= w < HOURS_IN_A_WEEK
    ensures IsAllowedAt(OnlyHour(zone, w), t) <==> WeekSlot(zone, t) == w
  {
    AllowedByWeekSlot(OnlyHour(zone, w), t);
    OnlyHourInWeek(zone, w, WeekSlot(zone, t));
    hide SlotAllowed, IsAllowedAt;
  }

  lemma OnlyHourInWeek(zone: Zone, w: int, v: int)
    requires 0 <= w < HOURS_IN_A_WEEK && 0 <= v < HOURS_IN_A_WEEK
    ensures SlotAllowed(OnlyHour(zone, w), v) <==> v == w
  {
    assert 0 <= w / 24 < 7 && 0 <= v / 24 < 7;
  }

  // ----- When the scan is right, in any zone -----

  /** An hour of the week is the one of from, or of an instant visited by the given time. */
  ghost predicate Shown(zone: Zone, from: int, w: int, until: int) {
    || w == WeekSlot(zone, from)
    || exists k :: 0 <= k < HOURS_IN_A_WEEK && HourAt(from, k) <= until && WeekSlot(zone, HourAt(from, k)) == w
  }

  /** Every hour of the week that the zone ever has is seen by the scan. */
  ghost predicate ShowsAll(zone: Zone, from: int) {
    forall t :: Shown(zone, from, WeekSlot(zone, t), HourAt(from, HOURS_IN_A_WEEK))
  }

  /** And, of those that occur before the scan ends, none before the scan sees it. */
  ghost predicate ShowsInTime(zone: Zone, from: int) {
    forall u | from < u < HourAt(from, HOURS_IN_A_WEEK) :: Shown(zone, from, WeekSlot(zone, u), u)
  }

  /** In any zone: when the scan finds nothing, for whichever rule, signing is never allowed; exactly
      if the scan sees every hour of the week that the zone ever has. */
  lemma NothingFoundExactly(zone: Zone, from: int)
    ensures (forall r: ScheduleRule | r.zone == zone && !IsAllowedAt(r, from) && NextAllowed(r, from) == None ::
      NeverAllowed(r)) <==> ShowsAll(zone, from)
  {
    hide IsAllowedAt, NextAllowed, NeverAllowed, WeekSlot, HourAt, Shown;
    if ShowsAll(zone, from) {
      forall r: ScheduleRule | r.zone == zone && !IsAllowedAt(r, from) && NextAllowed(r, from) == None
        ensures NeverAllowed(r)
      {
        NothingFoundIsNever(r, from);
      }
    } else {
      var t :| !Shown(zone, from, WeekSlot(zone, t), HourAt(from, HOURS_IN_A_WEEK));
      MissedHour(zone, from, t);
    }
  }

  lemma NothingFoundIsNever(r: ScheduleRule, from: int)
    requires !IsAllowedAt(r, from) && NextAllowed(r, from) == None && ShowsAll(r.zone, from)
    ensures NeverAllowed(r)
  {
    hide IsAllowedAt, NextAllowed, WeekSlot, HourAt;
    NoHourAllowed(r, from);
    forall t ensures !IsAllowedAt(r, t) {
      assert Shown(r.zone, from, WeekSlot(r.zone, t), HourAt(from, HOURS_IN_A_WEEK));
      AllowedByWeekSlot(r, t);
      AllowedByWeekSlot(r, from);
      forall k ensures IsAllowedAt(r, HourAt(from, k)) == SlotAllowed(r, WeekSlot(r.zone, HourAt(from, k))) {
        AllowedByWeekSlot(r, HourAt(from, k));
      }
      hide SlotAllowed;
    }
  }

  /** The rule for an hour of the week that the scan misses: nothing is found, and it is allowed at t. */
  lemma MissedHour(zone: Zone, from: int, t: int)
    requires !Shown(zone, from, WeekSlot(zone, t), HourAt(from, HOURS_IN_A_WEEK))
    ensures var r := OnlyHour(zone, WeekSlot(zone, t));
      !IsAllowedAt(r, from) && NextAllowed(r, from) == None && IsAllowedAt(r, t) && !NeverAllowed(r)
  {
    var w := WeekSlot(zone, t);
    var r := OnlyHour(zone, w);
    hide IsAllowedAt, NextHour, WeekSlot, OnlyHour;
    OnlyHourAllows(zone, w, t);
    OnlyHourAllows(zone, w, from);
    forall k | 0 <= k < HOURS_IN_A_WEEK ensures !IsAllowedAt(r, NextHour(from) + k * HOUR) {
      OnlyHourAllows(zone, w, HourAt(from, k));
      assert HourAt(from, k) <= HourAt(from, HOURS_IN_A_WEEK);
    }
    hide NextAllowed, Shown, HourAt;
    assert NoneAllowed(r, NextHour(from), HOURS_IN_A_WEEK);
    NextIsNone(r, from);
  }

  /** In any zone: the scan is right for every rule exactly if it sees every hour of the week that the
      zone ever has, and each as soon as it occurs. */
  lemma ScanIsRightExactly(zone: Zone, from: int)
    ensures (forall r: ScheduleRule | r.zone == zone :: ScanIsRight(r, from))
       <==> ShowsAll(zone, from) && ShowsInTime(zone, from)
  {
    hide IsAllowedAt, NextAllowed, NeverAllowed, IsEarliest, WeekSlot, HourAt, Shown, OnlyHour;
    if ShowsAll(zone, from) && ShowsInTime(zone, from) {
      forall r: ScheduleRule | r.zone == zone ensures ScanIsRight(r, from) {
        if NextAllowed(r, from).Some? {
          FoundInTime(r, from);
        } else if !IsAllowedAt(r, from) {
          NothingFoundIsNever(r, from);
        }
      }
    } else if !ShowsAll(zone, from) {
      var t :| !Shown(zone, from, WeekSlot(zone, t), HourAt(from, HOURS_IN_A_WEEK));
      MissedHour(zone, from, t);
      assert OnlyHour(zone, WeekSlot(zone, t)).zone == zone by { ZoneOfOnlyHour(zone, WeekSlot(zone, t)); }
      assert !ScanIsRight(OnlyHour(zone, WeekSlot(zone, t)), from);
    } else {
      var u :| from < u < HourAt(from, HOURS_IN_A_WEEK) && !Shown(zone, from, WeekSlot(zone, u), u);
      assert Shown(zone, from, WeekSlot(zone, u), HourAt(from, HOURS_IN_A_WEEK));
      LateHour(zone, from, u);
      ZoneOfOnlyHour(zone, WeekSlot(zone, u));
      assert !ScanIsRight(OnlyHour(zone, WeekSlot(zone, u)), from);
    }
  }

  lemma ZoneOfOnlyHour(zone: Zone, w: int)
    ensures OnlyHour(zone, w).zone == zone
  {
  }

  lemma FoundInTime(r: ScheduleRule, from: int)
    requires NextAllowed(r, from).Some? && ShowsInTime(r.zone, from)
    ensures IsEarliest(r, from, NextAllowed(r, from).value)
  {
    hide IsAllowedAt, NextAllowed, WeekSlot;
    var n := NextIsHour(r, from);
    HoursAhead(from, n);
    forall u | from < u < HourAt(from, n) ensures !IsAllowedAt(r, u) {
      assert Shown(r.zone, from, WeekSlot(r.zone, u), u);
      AllowedByWeekSlot(r, u);
      AllowedByWeekSlot(r, from);
      forall k ensures IsAllowedAt(r, HourAt(from, k)) == SlotAllowed(r, WeekSlot(r.zone, HourAt(from, k))) {
        AllowedByWeekSlot(r, HourAt(from, k));
      }
      hide SlotAllowed, NextHour;
    }
  }

  lemma HoursAhead(from: int, n: nat)
    requires n < HOURS_IN_A_WEEK
    ensures from < HourAt(from, 0) <= HourAt(from, n) < HourAt(from, HOURS_IN_A_WEEK)
    ensures forall k :: HourAt(from, k) < HourAt(from, n) ==> k < n
  {
  }

  /** The rule for an hour of the week that occurs at u, before the scan sees it: what the scan
      returns comes later. */
  lemma LateHour(zone: Zone, from: int, u: int)
    requires from < u && !Shown(zone, from, WeekSlot(zone, u), u)
    requires Shown(zone, from, WeekSlot(zone, u), HourAt(from, HOURS_IN_A_WEEK))
    ensures var r := OnlyHour(zone, WeekSlot(zone, u));
      NextAllowed(r, from).Some? && !IsEarliest(r, from, NextAllowed(r, from).value)
  {
    var w := WeekSlot(zone, u);
    var r := OnlyHour(zone, w);
    hide IsAllowedAt, NextAllowed, WeekSlot, OnlyHour, HourAt;
    OnlyHourAllows(zone, w, u);
    OnlyHourAllows(zone, w, from);
    var k :| 0 <= k < HOURS_IN_A_WEEK && WeekSlot(zone, HourAt(from, k)) == w;
    OnlyHourAllows(zone, w, HourAt(from, k));
    if NextAllowed(r, from) == None {
      NoHourAllowed(r, from);
    } else {
      var n := NextIsHour(r, from);
      OnlyHourAllows(zone, w, HourAt(from, n));
      assert HourAt(from, n) > u;
    }
  }

  // ----- Zones whose offset does not change meanwhile -----

  ghost predicate FixedOver(zone: Zone, offset: int, lo: int, hi: int) {
    forall t | lo <= t <= hi :: zone(t) == offset
  }

  lemma SlotOfHour(offset: int, t: int, k: int)
    ensures Slot(offset, t + k * HOUR) == Slot(offset, t) + k
  {
  }

  /** Among 168 consecutive hours of one offset there is one in every hour of the week. */
  lemma HourOfWeek(zone: Zone, offset: int, t: int, w: int) returns (k: nat)
    requires FixedOver(zone, offset, t, t + HOURS_IN_A_WEEK * HOUR) && 0 <= w < HOURS_IN_A_WEEK
    ensures k < HOURS_IN_A_WEEK && WeekSlot(zone, t + k * HOUR) == w
  {
    var first := Slot(offset, t);
    k := (w - first) % HOURS_IN_A_WEEK;
    SlotOfHour(offset, t, k);
    assert zone(t + k * HOUR) == offset;
    hide Slot;
    assert (first + (w - first) % HOURS_IN_A_WEEK) % HOURS_IN_A_WEEK == w;
  }

  /** An offset that does not change over the scanned week is enough for the scan to see every hour
      of the week, whatever the zone does before and after. */
  lemma FixedWeekShowsAll(zone: Zone, offset: int, from: int)
    requires FixedOver(zone, offset, HourAt(from, 0), HourAt(from, HOURS_IN_A_WEEK))
    ensures ShowsAll(zone, from)
  {
    hide WeekSlot, NextHour, FixedOver;
    forall t ensures Shown(zone, from, WeekSlot(zone, t), HourAt(from, HOURS_IN_A_WEEK)) {
      var k := HourOfWeek(zone, offset, HourAt(from, 0), WeekSlot(zone, t));
      assert HourAt(from, 0) + k * HOUR == HourAt(from, k);
    }
  }

  /** Nothing is returned exactly when signing is allowed now or never will be; otherwise the
      result is the earliest allowed instant, delayed by the part of an hour in the offset. */
  lemma ScanInFixedWeek(r: ScheduleRule, offset: int, from: int)
    requires FixedOver(r.zone, offset, from, HourAt(from, HOURS_IN_A_WEEK))
    ensures NextAllowed(r, from) == None <==> IsAllowedAt(r, from) || NeverAllowed(r)
    ensures NextAllowed(r, from).Some? ==> IsEarliest(r, from, NextAllowed(r, from).value - offset % HOUR)
  {
    HoursAhead(from, 0);
    hide IsAllowedAt, IsEarliest, NextAllowed, HourAt;
    if NextAllowed(r, from).Some? {
      var k := NextIsHour(r, from);
      FoundIsEarliest(r, offset, from, k);
    } else if !IsAllowedAt(r, from) {
      FixedWeekShowsAll(r.zone, offset, from);
      NothingFoundIsNever(r, from);
    }
  }

  /** The scan starts in the slot of from or in the next one. */
  lemma FirstScannedSlot(offset: int, from: int)
    ensures Slot(offset, from) <= Slot(offset, HourAt(from, 0)) <= Slot(offset, from) + 1
    ensures forall k :: HourAt(from, k) % HOUR == 0
  {
  }

  lemma FoundIsEarliest(r: ScheduleRule, offset: int, from: int, k: nat)
    requires FixedOver(r.zone, offset, from, HourAt(from, k)) && from < HourAt(from, 0) <= HourAt(from, k)
    requires !IsAllowedAt(r, from) && IsAllowedAt(r, HourAt(from, k))
    requires forall j | 0 <= j < k :: !IsAllowedAt(r, HourAt(from, j))
    ensures IsEarliest(r, from, HourAt(from, k) - offset % HOUR)
  {
    hide IsAllowedAt, SlotAllowed, Slot, HourAt, FixedOver;
    var t := HourAt(from, k);
    var e := t - offset % HOUR;
    FirstScannedSlot(offset, from);
    StartOfSlot(offset, t);
    ScannedSlots(offset, from, k);
    AllowedInFixed(r, offset, from, t, from);
    AllowedInFixed(r, offset, from, t, t);
    assert from < e by {
      if Slot(offset, e) == Slot(offset, from) {
        assert false;
      }
      BeforeSlot(offset, from, e);
    }
    AllowedInFixed(r, offset, from, t, e);
    forall u | from < u < e ensures !IsAllowedAt(r, u) {
      BetweenScans(r, offset, from, k, u);
    }
  }

  /** No instant before the slot that is found is allowed. */
  lemma BetweenScans(r: ScheduleRule, offset: int, from: int, k: nat, u: int)
    requires FixedOver(r.zone, offset, from, HourAt(from, k)) && HourAt(from, 0) <= HourAt(from, k)
    requires !IsAllowedAt(r, from) && forall j | 0 <= j < k :: !IsAllowedAt(r, HourAt(from, j))
    requires from < u < HourAt(from, k) - offset % HOUR
    ensures !IsAllowedAt(r, u)
  {
    hide IsAllowedAt, SlotAllowed, Slot, HourAt, FixedOver;
    var t := HourAt(from, k);
    FirstScannedSlot(offset, from);
    StartOfSlot(offset, t);
    ScannedSlots(offset, from, k);
    SlotOrder(offset, from, u);
    BeforeStart(offset, u, t - offset % HOUR);
    AllowedInFixed(r, offset, from, t, from);
    AllowedInFixed(r, offset, from, t, u);
    if Slot(offset, u) > Slot(offset, from) {
      var j := Slot(offset, u) - Slot(offset, HourAt(from, 0));
      HourOrder(from, j, k);
      AllowedInFixed(r, offset, from, t, HourAt(from, j));
    }
  }

  lemma HourOrder(from: int, j: int, k: int)
    requires 0 <= j <= k
    ensures from < HourAt(from, j) <= HourAt(from, k)
  {
  }

  lemma ScannedSlots(offset: int, from: int, k: nat)
    ensures forall j :: Slot(offset, HourAt(from, j)) == Slot(offset, HourAt(from, 0)) + j
  {
    forall j ensures Slot(offset, HourAt(from, j)) == Slot(offset, HourAt(from, 0)) + j {
      SlotOfHour(offset, NextHour(from), j);
    }
  }

  lemma AllowedInFixed(r: ScheduleRule, offset: int, lo: int, hi: int, t: int)
    requires FixedOver(r.zone, offset, lo, hi) && lo <= t <= hi
    ensures IsAllowedAt(r, t) == SlotAllowed(r, Slot(offset, t))
  {
    hide SlotAllowed, Slot;
  }

  lemma StartOfSlot(offset: int, t: int)
    requires t % HOUR == 0
    ensures var e := t - offset % HOUR;
      e <= t && (e + offset) % HOUR == 0 && Slot(offset, e) == Slot(offset, t)
  {
  }

  lemma SlotOrder(offset: int, t: int, u: int)
    requires t <= u
    ensures Slot(offset, t) <= Slot(offset, u)
  {
  }

  lemma BeforeSlot(offset: int, t: int, u: int)
    requires Slot(offset, t) < Slot(offset, u)
    ensures t < u
  {
  }

  lemma BeforeStart(offset: int, u: int, e: int)
    requires u < e && (e + offset) % HOUR == 0
    ensures Slot(offset, u) < Slot(offset, e)
  {
  }

  lemma EarliestIsUnique(r: ScheduleRule, from: int, t: int, u: int)
    requires IsEarliest(r, from, t) && IsEarliest(r, from, u)
    ensures t == u
  {
  }

  /** The instant returned is the earliest one exactly when the offset is a whole number of hours:
      the scan only ever visits whole hours of UTC. */
  lemma ScanIsExactInWholeHourZones(r: ScheduleRule, offset: int, from: int)
    requires FixedOver(r.zone, offset, from, HourAt(from, HOURS_IN_A_WEEK)) && NextAllowed(r, from).Some?
    ensures IsEarliest(r, from, NextAllowed(r, from).value) <==> offset % HOUR == 0
  {
    hide IsAllowedAt, IsEarliest, NextAllowed, HourAt;
    var next := NextAllowed(r, from).value;
    ScanInFixedWeek(r, offset, from);
    if IsEarliest(r, from, next) {
      EarliestIsUnique(r, from, next, next - offset % HOUR);
    }
  }

  /** Over a week of one offset the scan is right for every rule exactly in whole-hour zones. */
  lemma ScanIsRightInFixedWeek(zone: Zone, offset: int, from: int)
    requires FixedOver(zone, offset, from, HourAt(from, HOURS_IN_A_WEEK))
    ensures (forall r: ScheduleRule | r.zone == zone :: ScanIsRight(r, from)) <==> offset % HOUR == 0
  {
    hide IsAllowedAt, IsEarliest, NextAllowed, HourAt, NeverAllowed, OnlyHour, FixedOver;
    forall r: ScheduleRule | r.zone == zone && offset % HOUR == 0 ensures ScanIsRight(r, from) {
      ScanInFixedWeek(r, offset, from);
    }
    var r := LaterHour(zone, offset, from);
    ScanInFixedWeek(r, offset, from);
    ScanIsExactInWholeHourZones(r, offset, from);
    if forall r: ScheduleRule | r.zone == zone :: ScanIsRight(r, from) {
      assert ScanIsRight(r, from);
    }
  }

  /** A rule for which the scan finds something. */
  lemma LaterHour(zone: Zone, offset: int, from: int) returns (r: ScheduleRule)
    requires FixedOver(zone, offset, from, HourAt(from, HOURS_IN_A_WEEK))
    ensures r.zone == zone && NextAllowed(r, from).Some?
  {
    hide IsAllowedAt, NextAllowed, HourAt, OnlyHour, Slot;
    var t := HourAt(from, 1);
    HourOrder(from, 0, 1);
    HourOrder(from, 1, HOURS_IN_A_WEEK);
    FirstScannedSlot(offset, from);
    ScannedSlots(offset, from, 1);
    var w := WeekSlot(zone, t);
    r := OnlyHour(zone, w);
    ZoneOfOnlyHour(zone, w);
    OnlyHourAllows(zone, w, t);
    OnlyHourAllows(zone, w, from);
    assert WeekSlot(zone, from) != w;
    if NextAllowed(r, from) == None {
      NoHourAllowed(r, from);
    }
  }

  /** Weekdays from 9 to 18 in a zone 5:30 ahead. */
  function HalfHourRule(): ScheduleRule {
    ScheduleRule({1, 2, 3, 4, 5}, 9, 18, t => 11 * HALF_HOUR)
  }

  /** Asked when a Monday begins there, 5:30 before it does in UTC: signing opens after nine hours,
      at 9:00, and the scan says 9:30. */
  lemma HalfHourZoneIsLate()
    ensures NextAllowed(HalfHourRule(), 325 * HALF_HOUR) == Some(325 * HALF_HOUR + 9 * HOUR + HALF_HOUR)
    ensures IsEarliest(HalfHourRule(), 325 * HALF_HOUR, 325 * HALF_HOUR + 9 * HOUR)
  {
    hide IsAllowedAt, NextHour, HalfHourRule, NextAllowed;
    HourAfterMidnight();
    forall u | 325 * HALF_HOUR <= u < 343 * HALF_HOUR ensures !IsAllowedAt(HalfHourRule(), u) {
      MondayMorning(u);
    }
    MondayMorning(343 * HALF_HOUR);
    MondayMorning(344 * HALF_HOUR);
    assert NoneAllowed(HalfHourRule(), 326 * HALF_HOUR, 9);
    NextIsFirst(HalfHourRule(), 325 * HALF_HOUR, 9);
  }

  lemma HourAfterMidnight()
    ensures NextHour(325 * HALF_HOUR) == 326 * HALF_HOUR
  {
  }

  lemma MondayMorning(t: int)
    requires 325 * HALF_HOUR <= t < 345 * HALF_HOUR
    ensures IsAllowedAt(HalfHourRule(), t) <==> t >= 343 * HALF_HOUR
  {
    MondaySlot(Slot(11 * HALF_HOUR, t));
    hide SlotAllowed;
  }

  lemma MondaySlot(slot: int)
    requires 168 <= slot < 178
    ensures SlotAllowed(HalfHourRule(), slot) <==> slot == 177
  {
  }

  // ----- Windows that never open, and zones that change -----

  /** No hour of the day is within the hours of the rule. */
  predicate EmptyWindow(r: ScheduleRule) {
    if r.startHour <= r.endHour then r.startHour == r.endHour || r.startHour >= 24 || r.endHour <= 0
    else r.startHour >= 24 && r.endHour <= 0
  }

  /** In a zone that keeps one offset for a week, at any time, signing is never allowed exactly when
      the window is empty or no day is allowed. */
  lemma NeverAllowedExactly(r: ScheduleRule, offset: int, t: int)
    requires FixedOver(r.zone, offset, t, t + HOURS_IN_A_WEEK * HOUR)
    ensures NeverAllowed(r) <==> EmptyWindow(r) || forall d | 0 <= d < 7 :: d !in r.allowedDays
  {
    if !EmptyWindow(r) && exists d :: 0 <= d < 7 && d in r.allowedDays {
      var d :| 0 <= d < 7 && d in r.allowedDays;
      var hour := FirstOpenHour(r);
      var w := (d + 6) % 7 * 24 + hour;
      assert w / 24 == (d + 6) % 7 && w % 24 == hour && (w / 24 + 1) % 7 == d;
      assert SlotAllowed(r, w);
      hide SlotAllowed, EmptyWindow;
      var k := HourOfWeek(r.zone, offset, t, w);
      AllowedByWeekSlot(r, t + k * HOUR);
    } else {
      forall u ensures !IsAllowedAt(r, u) {
      }
    }
  }

  /** An hour of the day within the hours of the rule. */
  function FirstOpenHour(r: ScheduleRule): (hour: int)
    requires !EmptyWindow(r)
    ensures 0 <= hour < 24 && IsWithinHours(r, hour)
  {
    if r.startHour < 0 || (r.startHour > r.endHour && r.startHour >= 24) then 0 else r.startHour
  }

  /** Every day from 9 to 9 is a configuration the constructor accepts, and nothing is ever allowed. */
  lemma EqualHoursNeverOpen(from: int)
    ensures var r := ScheduleRule({0, 1, 2, 3, 4, 5, 6}, 9, 9, UTC);
      !IsAllowedAt(r, from) && NextAllowed(r, from) == None
  {
    var r := ScheduleRule({0, 1, 2, 3, 4, 5, 6}, 9, 9, UTC);
    hide NextAllowed, IsAllowedAt;
    NeverAllowedExactly(r, 0, from);
    ScanInFixedWeek(r, 0, from);
  }

  /** Sundays from 2 to 3, in a zone that skips that hour one Sunday: asked the day before, the scan
      finds nothing, although signing is allowed eight days later. */
  lemma SkippedHourIsNotFound()
    ensures !IsAllowedAt(SundayRule(), 122 * HOUR)
    ensures NextAllowed(SundayRule(), 122 * HOUR) == None && IsAllowedAt(SundayRule(), 313 * HOUR)
  {
    var r := SundayRule();
    NoOtherSlot(122);
    forall k | 0 <= k < 168 ensures !IsAllowedAt(r, 123 * HOUR + k * HOUR) {
      var slot := if k < 23 then 123 + k else 124 + k;
      SkippingSlot(k);
      NoOtherSlot(slot);
    }
    assert NextHour(122 * HOUR) == 123 * HOUR;
    assert Slot(HOUR, 313 * HOUR) == 314 && SlotAllowed(r, 314);
    hide IsAllowedAt, NextAllowed;
    NextIsNone(r, 122 * HOUR);
  }

  function SundayRule(): ScheduleRule {
    ScheduleRule({0}, 2, 3, t => if t < 146 * HOUR then 0 else HOUR)
  }

  lemma NoOtherSlot(slot: int)
    requires 24 <= slot < 24 * 13 && slot != 146
    ensures !SlotAllowed(SundayRule(), slot)
  {
  }

  lemma SkippingSlot(k: nat)
    ensures Slot(SundayRule().zone(123 * HOUR + k * HOUR), 123 * HOUR + k * HOUR) == if k < 23 then 123 + k else 124 + k
  {
  }
}
