// Instants at which housing payment reminders fire
// (relay/internal/scheduling/firetimes.go).
//
// Instants and wall clocks are nanosecond counts; a calendar date is a day number.  A time zone is
// what a caller can observe of it: the offset in force at an instant, and the instant that the
// library picks for a wall clock reading.
module FireTimes {
  import opened Wrappers

  const Second := 1_000_000_000
  const Hour := 3600 * Second
  const Day := 24 * Hour
  const LocalFireHour := 14

  type Instant = int

  datatype Zone = Zone(offsetAt: Instant -> int, instantOf: int -> Instant)
  {
    function WallClock(t: Instant): int {
      t + offsetAt(t)
    }

    function DateOf(t: Instant): int {
      WallClock(t) / Day
    }

    // Midnight and 14:00 of a calendar date, as the library resolves them.
    function Midnight(date: int): Instant {
      instantOf(date * Day)
    }

    function FireOn(date: int): Instant {
      instantOf(date * Day + LocalFireHour * Hour)
    }

    // A wall clock reading that occurs is resolved to an instant showing it; one that a clock
    // change skips is resolved to an instant showing less than a day earlier or later; and offsets
    // move by less than 24 hours from one day to the next.
    ghost predicate Lawful() {
      && (forall t :: WallClock(instantOf(WallClock(t))) == WallClock(t))
      && (forall w :: -Day < WallClock(instantOf(w)) - w < Day)
      && (forall v, w :: v + Day <= w ==> instantOf(v) < instantOf(w))
    }

    // No clock change skips this midnight.
    predicate ShowsMidnight(date: int) {
      WallClock(Midnight(date)) == date * Day
    }

    // 14:00 of this date is after an instant exactly when the wall clock says so.
    predicate OrdersFire(date: int, t: Instant) {
      FireOn(date) > t <==> date * Day + LocalFireHour * Hour > WallClock(t)
    }
  }

  // How many days before the due date J a reminder fires; 0 is J itself.
  function BeforeDateDayOffsets(recurrencePeriodDays: int): (offsets: seq<int>)
    ensures forall i, j :: 0 <= i < j < |offsets| ==> offsets[i] >= offsets[j] + 2
    ensures 0 in offsets && forall k :: k in offsets ==> 0 <= k <= 6
  {
    if recurrencePeriodDays < 20 then [2, 0]
    else if recurrencePeriodDays <= 40 then [4, 2, 0]
    else [6, 2, 0]
  }

  function DueCalendarDate(dueAt: Instant, zone: Zone): Instant {
    zone.Midnight(zone.DateOf(dueAt))
  }

  // Move an instant by whole calendar days, keeping its wall clock time of day.
  function AddDays(date: Instant, days: int, zone: Zone): Instant {
    zone.instantOf((zone.DateOf(date) + days) * Day + zone.WallClock(date) % Day)
  }

  function LocalFireAt(calendarDate: Instant, zone: Zone): Instant {
    zone.FireOn(zone.DateOf(calendarDate))
  }

  // The reminder instant `days` after the due date, before any cut-off is applied.
  function FireFromDue(dueAt: Instant, days: int, zone: Zone): Instant {
    LocalFireAt(AddDays(DueCalendarDate(dueAt, zone), days, zone), zone)
  }

  function KeepAfter(instants: seq<Instant>, cutoff: Instant): (kept: seq<Instant>)
    ensures forall t :: t in kept <==> t in instants && t > cutoff
  {
    if instants == [] then []
    else
      var rest := KeepAfter(instants[1..], cutoff);
      if instants[0] > cutoff then [instants[0]] + rest else rest
  }

  lemma KeepAfterSnoc(instants: seq<Instant>, last: Instant, cutoff: Instant)
    ensures KeepAfter(instants + [last], cutoff)
         == KeepAfter(instants, cutoff) + (if last > cutoff then [last] else [])
  {
    if instants != [] {
      KeepAfterSnoc(instants[1..], last, cutoff);
      assert (instants + [last])[1..] == instants[1..] + [last];
    }
  }

  function OffsetFires(dueAt: Instant, offsets: seq<int>, zone: Zone): (fires: seq<Instant>)
    ensures |fires| == |offsets|
    ensures forall i :: 0 <= i < |fires| ==> fires[i] == FireFromDue(dueAt, -offsets[i], zone)
  {
    seq(|offsets|, i requires 0 <= i < |offsets| => FireFromDue(dueAt, -offsets[i], zone))
  }

  function BeforeDateFires(dueAt: Instant, recurrencePeriodDays: int, loc: Option<Zone>,
                           materializeAfter: Instant): seq<Instant> {
    match loc
    case None => []
    case Some(zone) => KeepAfter(OffsetFires(dueAt, BeforeDateDayOffsets(recurrencePeriodDays), zone), materializeAfter)
  }

  method HousingBeforeDateFires(dueAt: Instant, recurrencePeriodDays: int, loc: Option<Zone>, materializeAfter: Instant)
    returns (fires: seq<Instant>)
    ensures fires == BeforeDateFires(dueAt, recurrencePeriodDays, loc, materializeAfter)
  {
    fires := [];
    if loc == None { return; }
    var zone := loc.value;
    var j := DueCalendarDate(dueAt, zone);
    var offsets := BeforeDateDayOffsets(recurrencePeriodDays);
    ghost var all := OffsetFires(dueAt, offsets, zone);
    for i := 0 to |offsets|
      invariant fires == KeepAfter(all[..i], materializeAfter)
    {
      var fireLocal := LocalFireAt(AddDays(j, -offsets[i], zone), zone);
      KeepAfterSnoc(all[..i], all[i], materializeAfter);
      assert all[..i + 1] == all[..i] + [all[i]];
      if fireLocal > materializeAfter {
        fires := fires + [fireLocal];
      }
    }
    assert all[..|offsets|] == all;
  }

  // 14:00 on the day after J, unless that instant is not after `materializeAfter`.
  function HousingOverdueFire(dueAt: Instant, loc: Option<Zone>, materializeAfter: Instant): Option<Instant> {
    match loc
    case None => None
    case Some(zone) =>
      var fireLocal := FireFromDue(dueAt, 1, zone);
      if fireLocal > materializeAfter then Some(fireLocal) else None
  }

  // ---------------------------------------------------------------------------------------------
  // Order of the instants

  ghost predicate StrictlyIncreasing(s: seq<int>) {
    forall i, j :: 0 <= i < j < |s| ==> s[i] < s[j]
  }

  lemma {:induction false} KeepAfterOrdered(s: seq<Instant>, cutoff: Instant)
    requires StrictlyIncreasing(s)
    ensures StrictlyIncreasing(KeepAfter(s, cutoff))
  {
    if s != [] {
      KeepAfterOrdered(s[1..], cutoff);
      var rest := KeepAfter(s[1..], cutoff);
      forall j | 0 <= j < |rest| ensures s[0] < rest[j] {
        assert rest[j] in s[1..];
      }
    }
  }

  // Where a date lands after adding calendar days to the due date: it slips by at most one day.
  lemma DatesFromDue(dueAt: Instant, zone: Zone, days: int) returns (slip: int)
    requires zone.Lawful()
    ensures var j := DueCalendarDate(dueAt, zone);
            && zone.DateOf(AddDays(j, days, zone)) == zone.DateOf(j) + days + slip
            && -1 <= slip <= 1 && (days == 0 ==> slip == 0)
  {
    var j := DueCalendarDate(dueAt, zone);
    var wall := (zone.DateOf(j) + days) * Day + zone.WallClock(j) % Day;
    var shown := zone.WallClock(zone.instantOf(wall));
    SameClock(zone.WallClock(j), days);
    slip := DaySlip(zone.WallClock(j), days, shown);
  }

  lemma SameClock(wall: int, days: int)
    ensures (wall / Day + days) * Day + wall % Day == wall + days * Day
  {
  }

  lemma DaySlip(wall: int, days: int, shown: int) returns (slip: int)
    requires -Day < shown - (wall + days * Day) < Day
    ensures shown / Day == wall / Day + days + slip && -1 <= slip <= 1
    ensures shown == wall + days * Day ==> slip == 0
  {
    var q, r := wall / Day, wall % Day;
    var q', r' := shown / Day, shown % Day;
    slip := q' - (q + days);
    assert shown - (wall + days * Day) == slip * Day + r' - r;
  }

  lemma FiresFollowDates(zone: Zone, d: int, e: int)
    requires zone.Lawful()
    ensures d < e <==> zone.FireOn(d) < zone.FireOn(e)
  {
    var v, w := d * Day + LocalFireHour * Hour, e * Day + LocalFireHour * Hour;
    if d < e { assert v + Day <= w; } else if e < d { assert w + Day <= v; }
  }

  // The instants of two day counts are ordered as the dates they land on.
  lemma FiresOrdered(dueAt: Instant, zone: Zone, a: int, b: int)
    requires zone.Lawful()
    ensures var j := DueCalendarDate(dueAt, zone);
            var d, e := zone.DateOf(AddDays(j, a, zone)), zone.DateOf(AddDays(j, b, zone));
            && (d < e <==> FireFromDue(dueAt, a, zone) < FireFromDue(dueAt, b, zone))
            && (d == e <==> FireFromDue(dueAt, a, zone) == FireFromDue(dueAt, b, zone))
  {
    hide Zone.Lawful, Zone.DateOf, AddDays, DueCalendarDate, Zone.FireOn;
    var j := DueCalendarDate(dueAt, zone);
    FiresFollowDates(zone, zone.DateOf(AddDays(j, a, zone)), zone.DateOf(AddDays(j, b, zone)));
    FiresFollowDates(zone, zone.DateOf(AddDays(j, b, zone)), zone.DateOf(AddDays(j, a, zone)));
  }

  // Instants two days apart never swap; more than two days apart, or up to the due day, they never
  // collide either, whatever clock changes lie between.
  lemma SpacedFiresIncrease(dueAt: Instant, zone: Zone, a: int, b: int)
    requires zone.Lawful()
    requires a + 2 <= b
    ensures FireFromDue(dueAt, a, zone) <= FireFromDue(dueAt, b, zone)
    ensures a + 3 <= b || b == 0 ==> FireFromDue(dueAt, a, zone) < FireFromDue(dueAt, b, zone)
  {
    hide Zone.Lawful, Zone.DateOf, AddDays, DueCalendarDate, FireFromDue;
    var s := DatesFromDue(dueAt, zone, a);
    var t := DatesFromDue(dueAt, zone, b);
    FiresOrdered(dueAt, zone, a, b);
  }

  // The one way for two before-date reminders to fall on one instant: the period has reminders both
  // four and two days ahead, clock changes land both on the same date, and it is after the cut-off.
  predicate Collides(dueAt: Instant, recurrencePeriodDays: int, zone: Zone, materializeAfter: Instant) {
    var j := DueCalendarDate(dueAt, zone);
    && 20 <= recurrencePeriodDays <= 40
    && zone.DateOf(AddDays(j, -4, zone)) == zone.DateOf(AddDays(j, -2, zone))
    && FireFromDue(dueAt, -4, zone) > materializeAfter
  }

  // Before-date reminders are exactly the instants after the cut-off, and they come in strictly
  // increasing order except where two collide.
  lemma BeforeDateFiresOrdered(dueAt: Instant, recurrencePeriodDays: int, zone: Zone, materializeAfter: Instant)
    requires zone.Lawful()
    ensures var fires := BeforeDateFires(dueAt, recurrencePeriodDays, Some(zone), materializeAfter);
            && (StrictlyIncreasing(fires) <==> !Collides(dueAt, recurrencePeriodDays, zone, materializeAfter))
            && forall t :: t in fires <==>
                 t > materializeAfter &&
                 exists k :: k in BeforeDateDayOffsets(recurrencePeriodDays) && t == FireFromDue(dueAt, -k, zone)
  {
    var offsets := BeforeDateDayOffsets(recurrencePeriodDays);
    OffsetFiresMembers(dueAt, offsets, zone);
    hide FireFromDue, KeepAfter, OffsetFires, Zone.Lawful, Zone.DateOf, AddDays, DueCalendarDate;
    var all := OffsetFires(dueAt, offsets, zone);
    if |offsets| == 2 {
      SpacedFiresIncrease(dueAt, zone, -offsets[0], 0);
      KeepAfterOrdered(all, materializeAfter);
    } else {
      SpacedFiresIncrease(dueAt, zone, -offsets[0], -2);
      SpacedFiresIncrease(dueAt, zone, -offsets[0], 0);
      SpacedFiresIncrease(dueAt, zone, -2, 0);
      FiresOrdered(dueAt, zone, -4, -2);
      assert all == [all[0], all[1], all[2]];
      ThreeOrdered(all[0], all[1], all[2], materializeAfter);
    }
  }

  lemma ThreeOrdered(a: Instant, b: Instant, c: Instant, cutoff: Instant)
    requires a <= b < c
    ensures StrictlyIncreasing(KeepAfter([a, b, c], cutoff)) <==> !(a == b && a > cutoff)
  {
    assert [a, b, c][1..] == [b, c] && [b, c][1..] == [c] && [c][1..] == [];
    assert KeepAfter([c], cutoff) == if c > cutoff then [c] else [];
    assert KeepAfter([b, c], cutoff) == (if b > cutoff then [b] else []) + KeepAfter([c], cutoff);
    var kept := KeepAfter([a, b, c], cutoff);
    if a > cutoff { assert kept[0] == a && kept[1] == b; }
  }

  // In particular they are strictly increasing when the due date has its midnight.
  lemma NoCollisionFromMidnight(dueAt: Instant, recurrencePeriodDays: int, zone: Zone, materializeAfter: Instant)
    requires zone.Lawful() && zone.ShowsMidnight(zone.DateOf(dueAt))
    ensures !Collides(dueAt, recurrencePeriodDays, zone, materializeAfter)
  {
    hide FireFromDue;
    var date := zone.DateOf(dueAt);
    WholeDay(date);
    MidnightSlip(zone, date - 4);
    MidnightSlip(zone, date - 2);
  }

  lemma MidnightSlip(zone: Zone, date: int)
    requires zone.Lawful()
    ensures date - 1 <= zone.DateOf(zone.Midnight(date)) <= date
  {
    var shown := zone.WallClock(zone.Midnight(date));
    assert -Day < shown - date * Day < Day;
    var slip := DaySlip(date * Day, 0, shown);
    WholeDay(date);
  }

  lemma OffsetFiresMembers(dueAt: Instant, offsets: seq<int>, zone: Zone)
    ensures forall t :: t in OffsetFires(dueAt, offsets, zone) <==>
      exists k :: k in offsets && t == FireFromDue(dueAt, -k, zone)
  {
    hide FireFromDue, OffsetFires;
    var all := OffsetFires(dueAt, offsets, zone);
    forall k | k in offsets ensures FireFromDue(dueAt, -k, zone) in all {
      var i :| 0 <= i < |offsets| && offsets[i] == k;
      assert all[i] == FireFromDue(dueAt, -k, zone);
    }
    forall t | t in all ensures exists k :: k in offsets && t == FireFromDue(dueAt, -k, zone) {
      var i :| 0 <= i < |all| && all[i] == t;
      assert offsets[i] in offsets;
    }
  }

  // The overdue reminder never precedes a before-date reminder, and it follows all of them
  // exactly when the day after the due date is reached by adding one calendar day.  When a clock
  // change skips that midnight backwards it is not, and both fire at the same instant.
  lemma OverdueFollowsExactly(dueAt: Instant, recurrencePeriodDays: int, zone: Zone)
    requires zone.Lawful()
    ensures var j := DueCalendarDate(dueAt, zone);
            var offsets := BeforeDateDayOffsets(recurrencePeriodDays);
            var overdue := FireFromDue(dueAt, 1, zone);
            && (forall k :: k in offsets ==> FireFromDue(dueAt, -k, zone) <= overdue)
            && ((forall k :: k in offsets ==> FireFromDue(dueAt, -k, zone) < overdue)
                <==> zone.DateOf(AddDays(j, 1, zone)) > zone.DateOf(j))
  {
    hide Zone.Lawful, Zone.DateOf, FireFromDue, AddDays, DueCalendarDate;
    var offsets := BeforeDateDayOffsets(recurrencePeriodDays);
    var s := DatesFromDue(dueAt, zone, 1);
    var t := DatesFromDue(dueAt, zone, 0);
    FiresOrdered(dueAt, zone, 0, 1);
    forall k | k in offsets && k != 0 ensures FireFromDue(dueAt, -k, zone) < FireFromDue(dueAt, 1, zone) {
      SpacedFiresIncrease(dueAt, zone, -k, 1);
    }
    assert 0 in offsets && FireFromDue(dueAt, -0, zone) == FireFromDue(dueAt, 0, zone);
  }

  // A reminder falls at 14:00 of the calendar day counted from the due date exactly when adding the
  // days to the due date, as the library does it, reaches that day.
  lemma FiresOnDateExactly(dueAt: Instant, days: int, zone: Zone)
    requires zone.Lawful()
    ensures FireFromDue(dueAt, days, zone) == zone.FireOn(zone.DateOf(dueAt) + days)
       <==> zone.DateOf(AddDays(DueCalendarDate(dueAt, zone), days, zone)) == zone.DateOf(dueAt) + days
  {
    hide Zone.Lawful, Zone.DateOf, AddDays, DueCalendarDate, Zone.FireOn;
    var landed := zone.DateOf(AddDays(DueCalendarDate(dueAt, zone), days, zone));
    FiresFollowDates(zone, landed, zone.DateOf(dueAt) + days);
    FiresFollowDates(zone, zone.DateOf(dueAt) + days, landed);
  }

  // It does when neither the midnight of the due date nor that of the day counted is skipped.
  lemma FiresOnCalendarDays(dueAt: Instant, days: int, zone: Zone)
    requires zone.ShowsMidnight(zone.DateOf(dueAt)) && zone.ShowsMidnight(zone.DateOf(dueAt) + days)
    ensures zone.DateOf(AddDays(DueCalendarDate(dueAt, zone), days, zone)) == zone.DateOf(dueAt) + days
    ensures FireFromDue(dueAt, days, zone) == zone.FireOn(zone.DateOf(dueAt) + days)
  {
    var date := zone.DateOf(dueAt);
    var j := DueCalendarDate(dueAt, zone);
    WholeDay(date);
    WholeDay(date + days);
    assert zone.DateOf(j) == date;
    assert AddDays(j, days, zone) == zone.Midnight(date + days);
  }

  lemma WholeDay(date: int)
    ensures date * Day / Day == date && date * Day % Day == 0
  {
  }

  // Where the due date and the day after have their midnights, the overdue reminder is there and
  // comes after every before-date reminder.
  lemma OverdueFollows(dueAt: Instant, recurrencePeriodDays: int, zone: Zone, materializeAfter: Instant)
    requires zone.Lawful()
    requires zone.ShowsMidnight(zone.DateOf(dueAt)) && zone.ShowsMidnight(zone.DateOf(dueAt) + 1)
    ensures var overdue := HousingOverdueFire(dueAt, Some(zone), materializeAfter);
            forall t :: t in BeforeDateFires(dueAt, recurrencePeriodDays, Some(zone), materializeAfter) ==>
              overdue.Some? && materializeAfter < t < overdue.value
  {
    WholeDay(zone.DateOf(dueAt));
    assert zone.DateOf(DueCalendarDate(dueAt, zone)) == zone.DateOf(dueAt);
    FiresOnCalendarDays(dueAt, 1, zone);
    hide Zone.Lawful, Zone.DateOf, FireFromDue, AddDays, DueCalendarDate, BeforeDateFires, Collides;
    OverdueFollowsExactly(dueAt, recurrencePeriodDays, zone);
    BeforeDateFiresOrdered(dueAt, recurrencePeriodDays, zone, materializeAfter);
  }

  // ---------------------------------------------------------------------------------------------
  // A zone with a skipped midnight

  // One clock change: the offset is `before` until the instant `at` and `after` from then on.  A
  // wall clock reading is resolved with the offset found at the reading taken as UTC, or, when that
  // offset puts it on the other side of the change, with the offset found there.
  function OffsetAround(at: Instant, before: int, after: int, t: Instant): int {
    if t < at then before else after
  }

  function ResolveAround(at: Instant, before: int, after: int, w: int): Instant {
    w - OffsetAround(at, before, after, w - OffsetAround(at, before, after, w))
  }

  function OneChange(at: Instant, before: int, after: int): Zone {
    Zone(t => OffsetAround(at, before, after, t), w => ResolveAround(at, before, after, w))
  }

  lemma OneChangeLawful(at: Instant, before: int, after: int)
    requires -Day < after - before < Day
    ensures OneChange(at, before, after).Lawful()
  {
    var zone := OneChange(at, before, after);
    forall t ensures zone.WallClock(zone.instantOf(zone.WallClock(t))) == zone.WallClock(t) {
      assert zone.WallClock(t) == t + OffsetAround(at, before, after, t);
    }
    forall w ensures -Day < zone.WallClock(zone.instantOf(w)) - w < Day {
      assert zone.instantOf(w) == ResolveAround(at, before, after, w);
    }
    forall v, w | v + Day <= w ensures zone.instantOf(v) < zone.instantOf(w) {
      assert zone.instantOf(v) == ResolveAround(at, before, after, v);
      assert zone.instantOf(w) == ResolveAround(at, before, after, w);
    }
  }

  // Instants of this section in hours, read off a zone one at a time.
  lemma DateAndClock(wall: int, date: int)
    requires date * Day <= wall < (date + 1) * Day
    ensures wall / Day == date && wall % Day == wall - date * Day
  {
  }

  lemma AddDaysTo(zone: Zone, t: Instant, days: int, date: int, clock: int, landed: Instant)
    requires zone.WallClock(t) == date * Day + clock && 0 <= clock < Day
    requires zone.instantOf((date + days) * Day + clock) == landed
    ensures AddDays(t, days, zone) == landed && zone.DateOf(t) == date
  {
    DateAndClock(date * Day + clock, date);
  }

  lemma FiresOn(zone: Zone, dueAt: Instant, days: int, landed: Instant, date: int, clock: int)
    requires AddDays(DueCalendarDate(dueAt, zone), days, zone) == landed
    requires zone.WallClock(landed) == date * Day + clock && 0 <= clock < Day
    ensures FireFromDue(dueAt, days, zone) == zone.FireOn(date)
  {
    DateAndClock(date * Day + clock, date);
  }

  lemma DueOn(zone: Zone, dueAt: Instant, date: int, clock: int, j: Instant)
    requires zone.WallClock(dueAt) == date * Day + clock && 0 <= clock < Day && zone.instantOf(date * Day) == j
    ensures zone.DateOf(dueAt) == date && DueCalendarDate(dueAt, zone) == j
  {
    DateAndClock(date * Day + clock, date);
  }

  // At midnight of day 1 local clocks at UTC-4 go forward to 01:00, as in zones that change at
  // midnight; the library resolves that midnight to 23:00 of day 0.
  const MidnightChange := OneChange(Day + 4 * Hour, -4 * Hour, -3 * Hour)

  lemma MidnightWall(t: Instant, wall: int)
    requires wall == if t < Day + 4 * Hour then t - 4 * Hour else t - 3 * Hour
    ensures MidnightChange.WallClock(t) == wall
  {
  }

  lemma MidnightResolves(w: int, t: Instant)
    requires t == if w < Day then w + 4 * Hour else w + 3 * Hour
    ensures MidnightChange.instantOf(w) == t
  {
    assert MidnightChange.instantOf(w) == ResolveAround(Day + 4 * Hour, -4 * Hour, -3 * Hour, w);
  }

  lemma MidnightLawful()
    ensures MidnightChange.Lawful()
  {
    OneChangeLawful(Day + 4 * Hour, -4 * Hour, -3 * Hour);
  }

  // Counting days from a due date that begins at the instant `j`.
  lemma MidnightFire(dueAt: Instant, days: int, j: Instant, date: int, clock: int, landed: Instant, landedDate: int)
    requires DueCalendarDate(dueAt, MidnightChange) == j && 0 <= clock < Day
    requires MidnightChange.WallClock(j) == date * Day + clock
    requires MidnightChange.instantOf((date + days) * Day + clock) == landed
    requires MidnightChange.WallClock(landed) == landedDate * Day + 23 * Hour
      || MidnightChange.WallClock(landed) == landedDate * Day
    ensures FireFromDue(dueAt, days, MidnightChange) == MidnightChange.FireOn(landedDate)
  {
    hide Zone.Lawful, Zone.DateOf, Zone.WallClock, Zone.FireOn, FireFromDue, AddDays, DueCalendarDate, MidnightChange;
    AddDaysTo(MidnightChange, j, days, date, clock, landed);
    FiresOn(MidnightChange, dueAt, days, landed, landedDate, MidnightChange.WallClock(landed) - landedDate * Day);
  }

  // A payment due on day 0 then has its due-day and its overdue reminder at one instant.
  lemma SkippedMidnightCollides()
    ensures var dueAt := 16 * Hour;
            && MidnightChange.Lawful() && MidnightChange.DateOf(dueAt) == 0
            && FireFromDue(dueAt, 1, MidnightChange) == FireFromDue(dueAt, 0, MidnightChange)
  {
    hide Zone.Lawful, Zone.DateOf, Zone.WallClock, Zone.FireOn, FireFromDue, AddDays, DueCalendarDate, MidnightChange;
    MidnightLawful();
    MidnightWall(16 * Hour, 12 * Hour);
    MidnightResolves(0, 4 * Hour);
    DueOn(MidnightChange, 16 * Hour, 0, 12 * Hour, 4 * Hour);
    MidnightWall(4 * Hour, 0);
    MidnightFire(16 * Hour, 0, 4 * Hour, 0, 0, 4 * Hour, 0);
    MidnightResolves(Day, Day + 3 * Hour);
    MidnightWall(Day + 3 * Hour, 23 * Hour);
    MidnightFire(16 * Hour, 1, 4 * Hour, 0, 0, Day + 3 * Hour, 0);
  }

  // A payment due on day 1 itself has its due-day reminder a day early, on day 0, and its overdue
  // reminder on the due date.
  lemma SkippedMidnightComesEarly()
    ensures var dueAt := Day + 16 * Hour;
            && MidnightChange.Lawful() && MidnightChange.DateOf(dueAt) == 1
            && FireFromDue(dueAt, 0, MidnightChange) == MidnightChange.FireOn(0)
            && FireFromDue(dueAt, 1, MidnightChange) == MidnightChange.FireOn(1)
  {
    hide Zone.Lawful, Zone.DateOf, Zone.WallClock, Zone.FireOn, FireFromDue, AddDays, DueCalendarDate, MidnightChange;
    MidnightLawful();
    MidnightWall(Day + 16 * Hour, Day + 13 * Hour);
    MidnightResolves(Day, Day + 3 * Hour);
    DueOn(MidnightChange, Day + 16 * Hour, 1, 13 * Hour, Day + 3 * Hour);
    MidnightWall(Day + 3 * Hour, 23 * Hour);
    MidnightResolves(23 * Hour, Day + 3 * Hour);
    MidnightFire(Day + 16 * Hour, 0, Day + 3 * Hour, 0, 23 * Hour, Day + 3 * Hour, 0);
    MidnightResolves(Day + 23 * Hour, 2 * Day + 2 * Hour);
    MidnightWall(2 * Day + 2 * Hour, Day + 23 * Hour);
    MidnightFire(Day + 16 * Hour, 1, Day + 3 * Hour, 0, 23 * Hour, 2 * Day + 2 * Hour, 1);
  }

  // Three changes of more than half a day around the days -4, -2 and 0.  The first and the last
  // are resolved forwards, the second backwards.
  function WildOffset(t: Instant): int {
    if t < -86 * Hour then 0 else if t < -52 * Hour then 14 * Hour else if t < -29 * Hour then 29 * Hour else 43 * Hour
  }

  function WildResolve(w: int): Instant {
    if w < -72 * Hour then w
    else if w < -38 * Hour then w - 14 * Hour
    else if w < 14 * Hour then w - 29 * Hour
    else w - 43 * Hour
  }

  const WildZone := Zone(WildOffset, WildResolve)

  lemma WildZoneLawful()
    ensures WildZone.Lawful()
  {
    forall t ensures WildZone.WallClock(WildZone.instantOf(WildZone.WallClock(t))) == WildZone.WallClock(t) {
      assert WildZone.WallClock(t) == t + WildOffset(t);
      assert WildZone.instantOf(t + WildOffset(t)) == WildResolve(t + WildOffset(t)) == t;
    }
    forall w ensures -Day < WildZone.WallClock(WildZone.instantOf(w)) - w < Day {
      assert WildZone.instantOf(w) == WildResolve(w);
    }
    forall v, w | v + Day <= w ensures WildZone.instantOf(v) < WildZone.instantOf(w) {
      assert WildZone.instantOf(v) == WildResolve(v) && WildZone.instantOf(w) == WildResolve(w);
    }
  }

  // The exception is real: in this lawful zone a payment due on day 0 of a monthly period has its
  // four-day and its two-day reminder at one instant.
  lemma WildZoneCollides()
    ensures WildZone.Lawful() && WildZone.DateOf(-Day) == 0
    ensures Collides(-Day, 30, WildZone, -10 * Day)
  {
    WildZoneLawful();
    hide Zone.Lawful, FireFromDue, AddDays, Zone.DateOf, Zone.FireOn;
    var zone := WildZone;
    AddDaysTo(zone, -Day, 0, 0, 19 * Hour, -Day);
    var j := DueCalendarDate(-Day, zone);
    assert j == -29 * Hour && zone.WallClock(j) == 14 * Hour;
    AddDaysTo(zone, j, -4, 0, 14 * Hour, -82 * Hour);
    AddDaysTo(zone, j, -2, 0, 14 * Hour, -63 * Hour);
    FiresOn(zone, -Day, -4, -82 * Hour, -3, 4 * Hour);
    AddDaysTo(zone, -82 * Hour, 0, -3, 4 * Hour, zone.instantOf(-3 * Day + 4 * Hour));
    AddDaysTo(zone, -63 * Hour, 0, -3, 23 * Hour, zone.instantOf(-3 * Day + 23 * Hour));
    FireOnResolves(zone, -3);
    assert zone.FireOn(-3) == -72 * Hour;
  }

  lemma FireOnResolves(zone: Zone, date: int)
    ensures zone.FireOn(date) == zone.instantOf(date * Day + LocalFireHour * Hour)
  {
  }
}
