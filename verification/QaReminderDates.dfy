// The reminder dates worked out on wall clocks by tool/qa_housing_payment_reminder_dates.py, and
// how they compare with the instants of relay/internal/scheduling/firetimes.go.
module QaReminderDates {
  import opened Wrappers
  import opened FireTimes

  // ---------------------------------------------------------------------------------------------
  // Civil calendar

  const Epoch := 719162  // days before 1970-01-01, counted from year 1

  predicate IsLeap(year: int) {
    year % 4 == 0 && (year % 100 != 0 || year % 400 == 0)
  }

  function DaysInMonth(year: int, month: int): int {
    if month == 2 then (if IsLeap(year) then 29 else 28)
    else if month in {4, 6, 9, 11} then 30
    else 31
  }

  function DaysBeforeYear(year: int): int {
    var y := year - 1;
    y * 365 + y / 4 - y / 100 + y / 400
  }

  function DaysBeforeMonth(year: int, month: int): int
    requires 1 <= month <= 12
  {
    [0, 31, 59, 90, 120, 151, 181, 212, 243, 273, 304, 334][month - 1] + (if month > 2 && IsLeap(year) then 1 else 0)
  }

  // Months are numbered through, January of year 0 being month 0.
  function FirstDay(n: int): int {
    DaysBeforeYear(n / 12) + DaysBeforeMonth(n / 12, n % 12 + 1) - Epoch
  }

  function MonthNumber(year: int, month: int): int {
    12 * year + month - 1
  }

  datatype LocalTime = LocalTime(year: int, month: int, day: int, clock: int)
  {
    predicate Valid() {
      1 <= month <= 12 && 1 <= day <= DaysInMonth(year, month) && 0 <= clock < Day
    }

    function Date(): int {
      FirstDay(MonthNumber(year, month)) + day - 1
    }

    function Wall(): int {
      Date() * Day + clock
    }
  }

  lemma MonthParts(year: int, month: int)
    requires 1 <= month <= 12
    ensures MonthNumber(year, month) / 12 == year && MonthNumber(year, month) % 12 + 1 == month
  {
  }

  lemma YearLength(year: int)
    ensures DaysBeforeYear(year + 1) == DaysBeforeYear(year) + (if IsLeap(year) then 366 else 365)
  {
    hide IsLeap;
    Carries(year, 4);
    Carries(year, 100);
    Carries(year, 400);
    LeapCarries(year);
  }

  lemma LeapCarries(year: int)
    ensures IsLeap(year) <==> year % 400 == 0 || (year % 4 == 0 && year % 100 != 0)
    ensures year % 400 == 0 ==> year % 100 == 0
    ensures year % 100 == 0 ==> year % 4 == 0
  {
  }

  lemma Carries(y: int, p: int)
    requires p in {4, 100, 400}
    ensures y / p - (y - 1) / p == if y % p == 0 then 1 else 0
  {
  }

  lemma MonthLength(n: int)
    ensures FirstDay(n + 1) == FirstDay(n) + DaysInMonth(n / 12, n % 12 + 1)
  {
    var year, month := n / 12, n % 12 + 1;
    if month < 12 {
      assert (n + 1) / 12 == year && (n + 1) % 12 == month;
    } else {
      assert (n + 1) / 12 == year + 1 && (n + 1) % 12 == 0;
      YearLength(year);
    }
  }

  lemma {:induction false} MonthsApart(a: int, b: int)
    requires a <= b
    ensures FirstDay(a) + 28 * (b - a) <= FirstDay(b)
    decreases b - a
  {
    hide *;
    if a < b {
      MonthsApart(a, b - 1);
      MonthAtLeast28(b - 1);
    }
  }

  lemma MonthAtLeast28(n: int)
    ensures FirstDay(n) + 28 <= FirstDay(n + 1)
  {
    hide FirstDay;
    MonthLength(n);
  }

  // ---------------------------------------------------------------------------------------------
  // The recurrence day

  function ClampedDay(recurrenceDay: int): int {
    var atLeastOne := if recurrenceDay < 1 then 1 else recurrenceDay;
    if atLeastOne > 28 then 28 else atLeastOne
  }

  // Midnight of the recurrence day in month n.
  function RecurrenceWall(n: int, recurrenceDay: int): int {
    (FirstDay(n) + ClampedDay(recurrenceDay) - 1) * Day
  }

  lemma RecurrencesIncrease(a: int, b: int, recurrenceDay: int)
    requires a < b
    ensures RecurrenceWall(a, recurrenceDay) < RecurrenceWall(b, recurrenceDay)
  {
    MonthsApart(a, b);
  }

  lemma MonthBrackets(at: LocalTime)
    requires at.Valid()
    ensures var n := MonthNumber(at.year, at.month);
            FirstDay(n) * Day <= at.Wall() < FirstDay(n + 1) * Day
  {
    hide FirstDay, DaysInMonth;
    MonthParts(at.year, at.month);
    MonthLength(MonthNumber(at.year, at.month));
  }

  // The due date is the first recurrence day after `at`: it is after it, and no month has one in
  // between.
  method MonthlyDueAtLocal(at: LocalTime, recurrenceDay: int) returns (due: LocalTime)
    requires at.Valid()
    ensures due.Valid() && due.clock == 0
    ensures due.day == if recurrenceDay < 1 then 1 else if recurrenceDay > 28 then 28 else recurrenceDay
    ensures at.Wall() < due.Wall()
    ensures forall n :: at.Wall() < RecurrenceWall(n, recurrenceDay) ==> due.Wall() <= RecurrenceWall(n, recurrenceDay)
  {
    hide FirstDay, LocalTime.Date, LocalTime.Wall, RecurrenceWall;
    var clamped := ClampedDay(recurrenceDay);
    var y, m := at.year, at.month;
    ghost var n := MonthNumber(y, m);
    var periodStart := LocalTime(y, m, clamped, 0);
    RecurrenceAt(periodStart, recurrenceDay);
    if at.Wall() < periodStart.Wall() {
      if m == 1 {
        y := y - 1;
        m := 12;
      } else {
        m := m - 1;
      }
      periodStart := LocalTime(y, m, clamped, 0);
      RecurrenceAt(periodStart, recurrenceDay);
    }
    if m == 12 {
      due := LocalTime(y + 1, 1, clamped, 0);
    } else {
      due := LocalTime(y, m + 1, clamped, 0);
    }
    RecurrenceAt(due, recurrenceDay);
    MonthEdges(at, recurrenceDay);
    ghost var chosen := MonthNumber(due.year, due.month);
    forall k | at.Wall() < RecurrenceWall(k, recurrenceDay) ensures due.Wall() <= RecurrenceWall(k, recurrenceDay) {
      if k < chosen {
        if k < chosen - 1 { RecurrencesIncrease(k, chosen - 1, recurrenceDay); }
      } else if k > chosen {
        RecurrencesIncrease(chosen, k, recurrenceDay);
      }
    }
  }

  lemma RecurrenceAt(start: LocalTime, recurrenceDay: int)
    requires 1 <= start.month <= 12 && start.day == ClampedDay(recurrenceDay) && start.clock == 0
    ensures start.Valid()
    ensures start.Wall() == RecurrenceWall(MonthNumber(start.year, start.month), recurrenceDay)
  {
  }

  // The recurrence of the previous month is not after `at`, that of the next month is.
  lemma MonthEdges(at: LocalTime, recurrenceDay: int)
    requires at.Valid()
    ensures var n := MonthNumber(at.year, at.month);
            RecurrenceWall(n - 1, recurrenceDay) <= at.Wall() < RecurrenceWall(n + 1, recurrenceDay)
  {
    hide FirstDay, LocalTime.Wall, DaysInMonth;
    var n := MonthNumber(at.year, at.month);
    MonthBrackets(at);
    MonthsApart(n - 1, n);
  }

  // ---------------------------------------------------------------------------------------------
  // Fires on wall clocks

  function OffsetWalls(date: int, offsets: seq<int>): (walls: seq<int>)
    ensures |walls| == |offsets|
    ensures forall i :: 0 <= i < |walls| ==> walls[i] == date * Day + LocalFireHour * Hour - offsets[i] * Day
  {
    seq(|offsets|, i requires 0 <= i < |offsets| => date * Day + LocalFireHour * Hour - offsets[i] * Day)
  }

  function BeforeDueWalls(date: int, recurrencePeriodDays: int, materializeAfter: int): seq<int> {
    KeepAfter(OffsetWalls(date, BeforeDateDayOffsets(recurrencePeriodDays)), materializeAfter)
  }

  method BeforeDueFiresLocal(due: LocalTime, recurrencePeriodDays: int, materializeAfter: int) returns (fires: seq<int>)
    ensures fires == BeforeDueWalls(due.Date(), recurrencePeriodDays, materializeAfter)
  {
    fires := [];
    var offsets := BeforeDateDayOffsets(recurrencePeriodDays);
    ghost var all := OffsetWalls(due.Date(), offsets);
    for i := 0 to |offsets|
      invariant fires == KeepAfter(all[..i], materializeAfter)
    {
      var fire := due.Date() * Day + LocalFireHour * Hour - offsets[i] * Day;
      KeepAfterSnoc(all[..i], all[i], materializeAfter);
      assert all[..i + 1] == all[..i] + [all[i]];
      if fire > materializeAfter {
        fires := fires + [fire];
      }
    }
    assert all[..|offsets|] == all;
  }

  function OverdueFireLocal(due: LocalTime): int {
    due.Date() * Day + LocalFireHour * Hour + Day
  }

  datatype Schedule = Schedule(due: LocalTime, beforeDue: seq<int>, overdue: int)

  // The due-day fire always lies after the anchor, so the error of an empty list is never raised;
  // the overdue fire comes after every other one.
  method ScheduleForAnchor(anchor: LocalTime, recurrenceDay: int, recurrencePeriodDays: int, marginMinutes: int)
    returns (schedule: Option<Schedule>)
    requires anchor.Valid()
    ensures schedule.Some?
    ensures var s := schedule.value; var margin := marginMinutes * 60 * Second;
            && anchor.Wall() < s.due.Wall()
            && s.beforeDue != []
            && s.beforeDue[|s.beforeDue| - 1] == s.due.Wall() + LocalFireHour * Hour + margin
            && s.overdue == s.due.Wall() + LocalFireHour * Hour + Day + margin
            && forall i :: 0 <= i < |s.beforeDue| ==> anchor.Wall() - Second + margin < s.beforeDue[i] < s.overdue
  {
    hide LocalTime.Date, KeepAfter, BeforeDateDayOffsets, DaysInMonth;
    var due := MonthlyDueAtLocal(anchor, recurrenceDay);
    var fires := BeforeDueFiresLocal(due, recurrencePeriodDays, anchor.Wall() - Second);
    ghost var all := OffsetWalls(due.Date(), BeforeDateDayOffsets(recurrencePeriodDays));
    DueDayKeptLast(all, anchor.Wall() - Second);
    if fires == [] {
      return None;
    }
    var overdue := OverdueFireLocal(due);
    var margin := marginMinutes * 60 * Second;
    var shifted := seq(|fires|, i requires 0 <= i < |fires| => fires[i] + margin);
    forall i | 0 <= i < |fires| ensures anchor.Wall() - Second + margin < shifted[i] < overdue + margin {
      assert fires[i] in fires;
      var k :| 0 <= k < |all| && all[k] == fires[i];
      assert BeforeDateDayOffsets(recurrencePeriodDays)[k] in BeforeDateDayOffsets(recurrencePeriodDays);
    }
    return Some(Schedule(due, shifted, overdue + margin));
  }

  lemma {:induction false} DueDayKeptLast(walls: seq<int>, cutoff: int)
    requires walls != [] && walls[|walls| - 1] > cutoff
    ensures var kept := KeepAfter(walls, cutoff); kept != [] && kept[|kept| - 1] == walls[|walls| - 1]
  {
    if |walls| > 1 {
      DueDayKeptLast(walls[1..], cutoff);
    }
  }

  // ---------------------------------------------------------------------------------------------
  // Agreement with the relay

  function Instants(walls: seq<int>, zone: Zone): (instants: seq<Instant>)
    ensures |instants| == |walls|
    ensures forall i :: 0 <= i < |walls| ==> instants[i] == zone.instantOf(walls[i])
  {
    seq(|walls|, i requires 0 <= i < |walls| => zone.instantOf(walls[i]))
  }

  // Whether the script names the relay's instant for one day count, or both leave it out.  If the
  // days counted by the library land on the day counted by the script, the cut-off must fall on the
  // same side of 14:00 by both clocks; otherwise both must be cut off.
  predicate MirrorsAt(dueAt: Instant, days: int, zone: Zone, cutoff: Instant) {
    var date := zone.DateOf(dueAt) + days;
    if zone.DateOf(AddDays(DueCalendarDate(dueAt, zone), days, zone)) == date then zone.OrdersFire(date, cutoff)
    else FireFromDue(dueAt, days, zone) <= cutoff && FireWall(date) <= zone.WallClock(cutoff)
  }

  function FireWall(date: int): int {
    date * Day + LocalFireHour * Hour
  }

  // That is exactly when the two agree on this day count.
  lemma MirrorsAtExactly(dueAt: Instant, days: int, zone: Zone, cutoff: Instant)
    requires zone.Lawful()
    ensures var wall := FireWall(zone.DateOf(dueAt) + days);
            MirrorsAt(dueAt, days, zone, cutoff) <==>
            KeepAfter([FireFromDue(dueAt, days, zone)], cutoff)
              == Instants(KeepAfter([wall], zone.WallClock(cutoff)), zone)
  {
    FiresOnDateExactly(dueAt, days, zone);
    hide Zone.Lawful, Zone.DateOf, AddDays, DueCalendarDate, FireFromDue;
    var date := zone.DateOf(dueAt) + days;
    var wall := FireWall(date);
    KeepOne(FireFromDue(dueAt, days, zone), cutoff);
    KeepOne(wall, zone.WallClock(cutoff));
    assert zone.FireOn(date) == zone.instantOf(wall);
    assert Instants([wall], zone) == [zone.instantOf(wall)] && Instants([], zone) == [];
  }

  lemma KeepOne(t: Instant, cutoff: Instant)
    ensures KeepAfter([t], cutoff) == if t > cutoff then [t] else []
  {
    assert [t][1..] == [];
  }

  // It holds where the midnights of the due date and of the day counted are not skipped and the
  // cut-off does not fall where wall clocks are turned across 14:00 of that day.
  lemma MirrorsOnPlainDays(dueAt: Instant, days: int, zone: Zone, cutoff: Instant)
    requires zone.ShowsMidnight(zone.DateOf(dueAt)) && zone.ShowsMidnight(zone.DateOf(dueAt) + days)
    requires zone.OrdersFire(zone.DateOf(dueAt) + days, cutoff)
    ensures MirrorsAt(dueAt, days, zone, cutoff)
  {
    FiresOnCalendarDays(dueAt, days, zone);
  }

  lemma {:induction false} KeepAfterAgrees(instants: seq<Instant>, walls: seq<int>, zone: Zone, cutoff: Instant)
    requires |instants| == |walls|
    requires forall i :: 0 <= i < |walls| ==>
               KeepAfter([instants[i]], cutoff) == Instants(KeepAfter([walls[i]], zone.WallClock(cutoff)), zone)
    ensures KeepAfter(instants, cutoff) == Instants(KeepAfter(walls, zone.WallClock(cutoff)), zone)
  {
    if walls == [] {
      assert Instants([], zone) == [];
    } else {
      hide *;
      KeepAfterAgrees(instants[1..], walls[1..], zone, cutoff);
      KeepAfterHead(instants, cutoff);
      KeepAfterHead(walls, zone.WallClock(cutoff));
      var wallCutoff := zone.WallClock(cutoff);
      InstantsConcat(KeepAfter([walls[0]], wallCutoff), KeepAfter(walls[1..], wallCutoff), zone);
    }
  }

  lemma KeepAfterHead(instants: seq<Instant>, cutoff: Instant)
    requires instants != []
    ensures KeepAfter(instants, cutoff) == KeepAfter([instants[0]], cutoff) + KeepAfter(instants[1..], cutoff)
  {
    KeepOne(instants[0], cutoff);
  }

  lemma InstantsConcat(first: seq<int>, second: seq<int>, zone: Zone)
    ensures Instants(first + second, zone) == Instants(first, zone) + Instants(second, zone)
  {
  }

  ghost predicate Nondecreasing(s: seq<int>) {
    forall i, j :: 0 <= i < j < |s| ==> s[i] <= s[j]
  }

  lemma {:induction false} KeptAtMost(s: seq<int>, cutoff: int)
    ensures |KeepAfter(s, cutoff)| <= |s|
    ensures s != [] && s[0] > cutoff && Nondecreasing(s) ==> KeepAfter(s, cutoff) == s
  {
    if s != [] {
      KeptAtMost(s[1..], cutoff);
      assert s == [s[0]] + s[1..];
    }
  }

  // Conversely, what agrees as a whole agrees one by one: both lists are in order, so equally many
  // are kept only when the same ones are.
  lemma {:induction false} KeepAfterAgreesPointwise(instants: seq<Instant>, walls: seq<int>, zone: Zone,
                                                    cutoff: Instant,
                                                    i: nat)
    requires |instants| == |walls| && Nondecreasing(instants) && Nondecreasing(walls) && i < |walls|
    requires KeepAfter(instants, cutoff) == Instants(KeepAfter(walls, zone.WallClock(cutoff)), zone)
    ensures KeepAfter([instants[i]], cutoff) == Instants(KeepAfter([walls[i]], zone.WallClock(cutoff)), zone)
  {
    var wallCutoff := zone.WallClock(cutoff);
    HeadsAgree(instants, walls, zone, cutoff);
    if i > 0 {
      hide *;
      TailsNondecreasing(instants);
      TailsNondecreasing(walls);
      KeepAfterAgreesPointwise(instants[1..], walls[1..], zone, cutoff, i - 1);
    }
  }

  lemma TailsNondecreasing(s: seq<int>)
    requires s != [] && Nondecreasing(s)
    ensures Nondecreasing(s[1..])
  {
  }

  lemma HeadsAgree(instants: seq<Instant>, walls: seq<int>, zone: Zone, cutoff: Instant)
    requires |instants| == |walls| > 0 && Nondecreasing(instants) && Nondecreasing(walls)
    requires KeepAfter(instants, cutoff) == Instants(KeepAfter(walls, zone.WallClock(cutoff)), zone)
    ensures KeepAfter([instants[0]], cutoff) == Instants(KeepAfter([walls[0]], zone.WallClock(cutoff)), zone)
    ensures KeepAfter(instants[1..], cutoff) == Instants(KeepAfter(walls[1..], zone.WallClock(cutoff)), zone)
  {
    var wallCutoff := zone.WallClock(cutoff);
    KeptAtMost(instants, cutoff);
    KeptAtMost(walls, wallCutoff);
    KeptAtMost(instants[1..], cutoff);
    KeptAtMost(walls[1..], wallCutoff);
    KeepAfterHead(instants, cutoff);
    KeepAfterHead(walls, wallCutoff);
    KeepOne(instants[0], cutoff);
    KeepOne(walls[0], wallCutoff);
    InstantsConcat(KeepAfter([walls[0]], wallCutoff), KeepAfter(walls[1..], wallCutoff), zone);
    hide KeepAfter, Instants, Nondecreasing, Zone.WallClock;
    if instants[0] > cutoff {
      assert KeepAfter(instants, cutoff)[1..] == KeepAfter(instants[1..], cutoff);
    }
  }

  lemma FiresNondecreasing(dueAt: Instant, recurrencePeriodDays: int, zone: Zone)
    requires zone.Lawful()
    ensures Nondecreasing(OffsetFires(dueAt, BeforeDateDayOffsets(recurrencePeriodDays), zone))
  {
    hide FireFromDue, Zone.Lawful;
    var offsets := BeforeDateDayOffsets(recurrencePeriodDays);
    var fires := OffsetFires(dueAt, offsets, zone);
    forall i, j | 0 <= i < j < |fires| ensures fires[i] <= fires[j] {
      SpacedFiresIncrease(dueAt, zone, -offsets[i], -offsets[j]);
    }
  }

  // The script's list names exactly the relay's instants if and only if it mirrors them at every
  // offset of the period, and the overdue reading names the relay's overdue instant if and only if
  // it mirrors that.
  lemma MirrorsRelay(due: LocalTime, dueAt: Instant, recurrencePeriodDays: int, zone: Zone, materializeAfter: Instant)
    requires zone.Lawful() && zone.DateOf(dueAt) == due.Date()
    ensures
      (forall k :: k in BeforeDateDayOffsets(recurrencePeriodDays) ==>
        MirrorsAt(dueAt, -k, zone, materializeAfter)) <==>
      BeforeDateFires(dueAt, recurrencePeriodDays, Some(zone), materializeAfter)
        == Instants(BeforeDueWalls(due.Date(), recurrencePeriodDays, zone.WallClock(materializeAfter)), zone)
    ensures var wall := OverdueFireLocal(due);
            MirrorsAt(dueAt, 1, zone, materializeAfter) <==>
            HousingOverdueFire(dueAt, Some(zone), materializeAfter)
              == if wall > zone.WallClock(materializeAfter) then Some(zone.instantOf(wall)) else None
  {
    hide *;
    ListMirrors(due, dueAt, recurrencePeriodDays, zone, materializeAfter);
    OverdueMirrors(due, dueAt, zone, materializeAfter);
  }

  lemma ListMirrors(due: LocalTime, dueAt: Instant, recurrencePeriodDays: int, zone: Zone, materializeAfter: Instant)
    requires zone.Lawful() && zone.DateOf(dueAt) == due.Date()
    ensures
      (forall k :: k in BeforeDateDayOffsets(recurrencePeriodDays) ==>
        MirrorsAt(dueAt, -k, zone, materializeAfter)) <==>
      BeforeDateFires(dueAt, recurrencePeriodDays, Some(zone), materializeAfter)
        == Instants(BeforeDueWalls(due.Date(), recurrencePeriodDays, zone.WallClock(materializeAfter)), zone)
  {
    hide Zone.Lawful, Zone.DateOf, Zone.WallClock, BeforeDateDayOffsets, FireFromDue, KeepAfter, LocalTime.Date,
         AddDays,
         DueCalendarDate, MirrorsAt, Instants, OffsetFires, OffsetWalls;
    var offsets := BeforeDateDayOffsets(recurrencePeriodDays);
    var fires, walls := OffsetFires(dueAt, offsets, zone), OffsetWalls(due.Date(), offsets);
    forall i | 0 <= i < |offsets|
      ensures MirrorsAt(dueAt, -offsets[i], zone, materializeAfter)
         <==> AgreeAt(fires, walls, zone, materializeAfter, i)
    {
      MirrorsAtExactly(dueAt, -offsets[i], zone, materializeAfter);
      assert walls[i] == FireWall(due.Date() - offsets[i]);
    }
    FiresNondecreasing(dueAt, recurrencePeriodDays, zone);
    ListsAgreeExactly(fires, walls, zone, materializeAfter);
    hide AgreeAt, Nondecreasing;
    assert (forall k :: k in offsets ==> MirrorsAt(dueAt, -k, zone, materializeAfter)) <==>
      forall i :: 0 <= i < |offsets| ==> AgreeAt(fires, walls, zone, materializeAfter, i) by {
      forall i | 0 <= i < |offsets| ensures offsets[i] in offsets {}
    }
  }

  // One reading stands for one instant, or both are cut off.
  predicate AgreeAt(instants: seq<Instant>, walls: seq<int>, zone: Zone, cutoff: Instant, i: nat)
    requires |instants| == |walls| && i < |walls|
  {
    KeepAfter([instants[i]], cutoff) == Instants(KeepAfter([walls[i]], zone.WallClock(cutoff)), zone)
  }

  lemma ListsAgreeExactly(instants: seq<Instant>, walls: seq<int>, zone: Zone, cutoff: Instant)
    requires |instants| == |walls| && Nondecreasing(instants) && Nondecreasing(walls)
    ensures (forall i :: 0 <= i < |walls| ==> AgreeAt(instants, walls, zone, cutoff, i))
       <==> KeepAfter(instants, cutoff) == Instants(KeepAfter(walls, zone.WallClock(cutoff)), zone)
  {
    hide Zone.WallClock, KeepAfter, Nondecreasing;
    if forall i :: 0 <= i < |walls| ==> AgreeAt(instants, walls, zone, cutoff, i) {
      forall i | 0 <= i < |walls|
        ensures KeepAfter([instants[i]], cutoff) == Instants(KeepAfter([walls[i]], zone.WallClock(cutoff)), zone)
      {
        assert AgreeAt(instants, walls, zone, cutoff, i);
      }
      KeepAfterAgrees(instants, walls, zone, cutoff);
    }
    if KeepAfter(instants, cutoff) == Instants(KeepAfter(walls, zone.WallClock(cutoff)), zone) {
      forall i | 0 <= i < |walls| ensures AgreeAt(instants, walls, zone, cutoff, i) {
        KeepAfterAgreesPointwise(instants, walls, zone, cutoff, i);
      }
    }
  }

  lemma OverdueMirrors(due: LocalTime, dueAt: Instant, zone: Zone, materializeAfter: Instant)
    requires zone.Lawful() && zone.DateOf(dueAt) == due.Date()
    ensures var wall := OverdueFireLocal(due);
            MirrorsAt(dueAt, 1, zone, materializeAfter) <==>
            HousingOverdueFire(dueAt, Some(zone), materializeAfter)
              == if wall > zone.WallClock(materializeAfter) then Some(zone.instantOf(wall)) else None
  {
    hide Zone.Lawful, Zone.DateOf, FireFromDue, LocalTime.Date, AddDays, DueCalendarDate, MirrorsAt, KeepAfter;
    var wall := OverdueFireLocal(due);
    assert wall == FireWall(due.Date() + 1);
    MirrorsAtExactly(dueAt, 1, zone, materializeAfter);
    KeepOne(FireFromDue(dueAt, 1, zone), materializeAfter);
    KeepOne(wall, zone.WallClock(materializeAfter));
    assert Instants([wall], zone) == [zone.instantOf(wall)] && Instants([], zone) == [];
  }

  // They do disagree.  In the zone whose clocks skip the midnight of day 1, for a payment due that
  // day, the relay has its due-day and its overdue reminder a day before the script's, whatever the
  // period and however early the cut-off.
  lemma SkippedMidnightNotMirrored(recurrencePeriodDays: int, materializeAfter: Instant)
    requires materializeAfter < 18 * Hour
    ensures var due, dueAt, zone := LocalTime(1970, 1, 2, 0), Day + 16 * Hour, MidnightChange;
            && zone.Lawful() && due.Valid() && zone.DateOf(dueAt) == due.Date()
            && BeforeDateFires(dueAt, recurrencePeriodDays, Some(zone), materializeAfter)
                 != Instants(BeforeDueWalls(due.Date(), recurrencePeriodDays, zone.WallClock(materializeAfter)), zone)
            && HousingOverdueFire(dueAt, Some(zone), materializeAfter) == Some(zone.FireOn(1))
            && zone.instantOf(OverdueFireLocal(due)) == zone.FireOn(2) > zone.FireOn(1)
  {
    var due, dueAt, zone := LocalTime(1970, 1, 2, 0), Day + 16 * Hour, MidnightChange;
    SecondOfJanuary();
    SkippedMidnightComesEarly();
    MidnightResolves(14 * Hour, 18 * Hour);
    MidnightResolves(Day + 14 * Hour, Day + 17 * Hour);
    MirrorsRelay(due, dueAt, recurrencePeriodDays, zone, materializeAfter);
    DueDayNotMirrored(materializeAfter);
    FiresFollowDates(zone, 1, 2);
  }

  lemma SecondOfJanuary()
    ensures LocalTime(1970, 1, 2, 0).Valid() && LocalTime(1970, 1, 2, 0).Date() == 1
  {
    MonthParts(1970, 1);
    assert DaysBeforeYear(1970) == Epoch;
    hide DaysBeforeYear, MonthNumber, IsLeap;
  }

  lemma DueDayNotMirrored(materializeAfter: Instant)
    requires materializeAfter < 18 * Hour
    ensures !MirrorsAt(Day + 16 * Hour, 0, MidnightChange, materializeAfter)
  {
    var dueAt, zone := Day + 16 * Hour, MidnightChange;
    SkippedMidnightComesEarly();
    MidnightLawful();
    MidnightResolves(14 * Hour, 18 * Hour);
    FiresOnDateExactly(dueAt, 0, zone);
    FiresFollowDates(zone, 0, 1);
    hide MidnightChange, Zone.Lawful, Zone.DateOf, AddDays, DueCalendarDate, FireFromDue;
    assert zone.FireOn(0) == zone.instantOf(14 * Hour);
  }
}
