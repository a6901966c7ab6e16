// What each call of the reminder store leaves behind, stated by its arguments and the rows before it:
// which instants are pending, which targets are cancelled, which fires are taken and listed.
module ReminderLaws {
  import opened Wrappers
  import opened FireTimes
  import opened ByteStrings
  import opened ReminderBooks
  import opened ReminderStores

  // ---------------------------------------------------------------------------------------------
  // Which instants a target has

  // Days before the due date on which a period is reminded of.
  predicate RemindsBefore(period: int, days: int) {
    days == 0 || days == 2 || (days == 4 && 20 <= period <= 40) || (days == 6 && period > 40)
  }

  // The instants of a housing payment target, by its kind.
  predicate Expected(kind: string, dueAt: Instant, period: int, boundAt: Option<Instant>, loc: Option<Zone>,
                     now: Instant, t: Instant)
  {
    && loc.Some? && t > now
    && (|| (kind == "before_due" && exists days | 0 <= days <= 6 && RemindsBefore(period, days) ::
              t == FireFromDue(dueAt, -days, loc.value))
        || (kind == "overdue" && t == FireFromDue(dueAt, 1, loc.value) && (boundAt.None? || t <= boundAt.value)))
  }

  lemma OffsetsExactly(period: int, days: int)
    ensures days in BeforeDateDayOffsets(period) <==> RemindsBefore(period, days)
  {
  }

  lemma InstantsExactly(kind: string, dueAt: Instant, period: int, boundAt: Option<Instant>, loc: Option<Zone>,
                        now: Instant, t: Instant)
    ensures t in HousingInstants(kind, dueAt, period, boundAt, loc, now)
       <==> Expected(kind, dueAt, period, boundAt, loc, now, t)
  {
    if loc.Some? {
      var offsets := BeforeDateDayOffsets(period);
      OffsetFiresMembers(dueAt, offsets, loc.value);
      forall days ensures days in offsets <==> RemindsBefore(period, days) { OffsetsExactly(period, days); }
      hide FireFromDue, BeforeDateDayOffsets, OffsetFires;
      if t in OffsetFires(dueAt, offsets, loc.value) {
        var days :| days in offsets && t == FireFromDue(dueAt, -days, loc.value);
        assert RemindsBefore(period, days);
      }
    }
  }

  // With clocks on UTC the instants are 14:00 of the days counted, on a calendar of 86400 seconds a day.
  lemma FiresAtTwo(dueAt: Instant, days: int)
    ensures var utc := Zone(t => 0, w => w);
            FireFromDue(dueAt, days, utc)
              == (dueAt / 86_400_000_000_000 + days) * 86_400_000_000_000 + 50_400_000_000_000
  {
    var utc := Zone(t => 0, w => w);
    assert Day == 86_400_000_000_000;
    WholeDay(dueAt / Day);
    WholeDay(dueAt / Day + days);
  }

  // ---------------------------------------------------------------------------------------------
  // Reconciling a plan

  function ZoneOf(load: string -> Option<Zone>, zones: map<Bytes, string>, recipient: Bytes): Option<Zone> {
    if recipient in zones && zones[recipient] != "" then load(zones[recipient]) else None
  }

  predicate ExpectedOf(input: HousingInput, loc: Option<Zone>, now: Instant, t: Instant) {
    Expected(input.kind, input.dueAt, input.recurrencePeriodDays, input.boundAt, loc, now, t)
  }

  // An earlier entry of the list for the same target expects the instant too.
  ghost predicate ListedBefore(inputs: seq<HousingInput>, i: nat, loc: Option<Zone>, now: Instant, t: Instant)
    requires i < |inputs|
  {
    exists j :: 0 <= j < i && inputs[j].Key() == inputs[i].Key() && ExpectedOf(inputs[j], loc, now, t)
  }

  predicate ExpectedFor(input: HousingInput, zoneOf: Bytes -> Option<Zone>, now: Instant, key: TargetKey, t: Instant) {
    input.Key() == key && ExpectedOf(input, zoneOf(input.recipient), now, t)
  }

  ghost predicate AnyExpects(inputs: seq<HousingInput>, zoneOf: Bytes -> Option<Zone>, now: Instant, key: TargetKey,
                             t: Instant)
  {
    exists j :: 0 <= j < |inputs| && ExpectedFor(inputs[j], zoneOf, now, key, t)
  }

  lemma {:induction false} EntriesExactly(inputs: seq<HousingInput>, generation: int, zoneOf: Bytes -> Option<Zone>,
                                          now: Instant, key: TargetKey, t: Instant)
    ensures t in EntryInstants(HousingEntries(inputs, generation, zoneOf, now), key) <==>
      AnyExpects(inputs, zoneOf, now, key, t)
  {
    hide *;
    if inputs == [] {
      NoEntryListed(generation, zoneOf, now, key);
    } else {
      LastEntry(inputs, generation, zoneOf, now, key, t);
      LastExpects(inputs, zoneOf, now, key, t);
      EntriesExactly(inputs[..|inputs| - 1], generation, zoneOf, now, key, t);
    }
  }

  lemma NoEntryListed(generation: int, zoneOf: Bytes -> Option<Zone>, now: Instant, key: TargetKey)
    ensures EntryInstants(HousingEntries([], generation, zoneOf, now), key) == {}
    ensures forall t :: !AnyExpects([], zoneOf, now, key, t)
  {
  }

  lemma LastExpects(inputs: seq<HousingInput>, zoneOf: Bytes -> Option<Zone>, now: Instant, key: TargetKey, t: Instant)
    requires inputs != []
    ensures var n := |inputs| - 1;
            AnyExpects(inputs, zoneOf, now, key, t) <==>
              AnyExpects(inputs[..n], zoneOf, now, key, t) || ExpectedFor(inputs[n], zoneOf, now, key, t)
  {
    hide ExpectedFor;
    var n := |inputs| - 1;
    if j :| 0 <= j < n && ExpectedFor(inputs[..n][j], zoneOf, now, key, t) {
      assert ExpectedFor(inputs[j], zoneOf, now, key, t);
    }
    if j :| 0 <= j < |inputs| && ExpectedFor(inputs[j], zoneOf, now, key, t) {
      if j < n { assert ExpectedFor(inputs[..n][j], zoneOf, now, key, t); }
    }
  }

  lemma LastEntry(inputs: seq<HousingInput>, generation: int, zoneOf: Bytes -> Option<Zone>, now: Instant,
                  key: TargetKey, t: Instant)
    requires inputs != []
    ensures var n := |inputs| - 1;
            t in EntryInstants(HousingEntries(inputs, generation, zoneOf, now), key) <==>
              || t in EntryInstants(HousingEntries(inputs[..n], generation, zoneOf, now), key)
              || ExpectedFor(inputs[n], zoneOf, now, key, t)
  {
    hide Expected, HousingInstants;
    var n, entries := |inputs| - 1, HousingEntries(inputs, generation, zoneOf, now);
    var last := inputs[n];
    assert entries[..n] == HousingEntries(inputs[..n], generation, zoneOf, now);
    InstantsExactly(last.kind, last.dueAt, last.recurrencePeriodDays, last.boundAt, zoneOf(last.recipient), now, t);
  }

  // After a reconcile a listed target has its listed terms, and pending is every instant its kind
  // expects that has no row yet, in the recipient's time zone.
  lemma ReconciledPending(load: string -> Option<Zone>, st: StoreState, plan: Bytes, generation: int,
                          inputs: seq<HousingInput>, now: Instant, i: nat, t: Instant)
    requires Sound(st.book) && i < |inputs|
    requires forall j :: i < j < |inputs| ==> inputs[j].Key() != inputs[i].Key()
    ensures var after := AfterCall(load, st, ReconcilePlan(plan, generation, inputs, now)).book;
            var input := inputs[i];
            var key := TargetKey("housing_payment", input.scope, input.recipient, input.kind, Some(input.period));
            var loc := ZoneOf(load, st.zones, input.recipient);
            && (t in PendingAt(after, key) <==>
                  ExpectedOf(input, loc, now, t) && Slot(key, t) !in st.book.slots
                    && !ListedBefore(inputs, i, loc, now, t))
            && key in after.registry
            && after.registry[key] == Target(key, Some(input.recurrencePeriodDays), Some(input.dueAt), input.boundAt,
                                             generation, Some(generation), None)
  {
    var zoneOf := DirectoryOf(st.zones, load);
    var input, key := inputs[i], inputs[i].Key();
    ReconcilePending(st.book, plan, generation, inputs, zoneOf, now, i);
    SlotMembers(st.book, key, t);
    EntriesExactly(inputs[..i], generation, zoneOf, now, key, t);
    InstantsExactly(input.kind, input.dueAt, input.recurrencePeriodDays, input.boundAt, zoneOf(input.recipient), now,
      t);
    hide Sound, Reconcile, PendingAt, TakenAt, EntryInstants, HousingEntries, HousingInstants, Expected;
    assert t in InputInstants(input, zoneOf(input.recipient), now)
      <==> ExpectedOf(input, zoneOf(input.recipient), now, t);
    SameListed(inputs, i, zoneOf, now, t);
  }

  lemma SameListed(inputs: seq<HousingInput>, i: nat, zoneOf: Bytes -> Option<Zone>, now: Instant, t: Instant)
    requires i < |inputs|
    ensures ListedBefore(inputs, i, zoneOf(inputs[i].recipient), now, t) <==>
      AnyExpects(inputs[..i], zoneOf, now, inputs[i].Key(), t)
  {
    hide Expected;
    var zone := zoneOf(inputs[i].recipient);
    if j :| 0 <= j < i && inputs[j].Key() == inputs[i].Key() && ExpectedOf(inputs[j], zone, now, t) {
      assert ExpectedFor(inputs[..i][j], zoneOf, now, inputs[i].Key(), t);
    }
    if j :| 0 <= j < |inputs[..i]| && ExpectedFor(inputs[..i][j], zoneOf, now, inputs[i].Key(), t) {
      assert inputs[j].Key() == inputs[i].Key();
    }
  }

  // An active housing target whose scope is the plan id, the byte 1F and more, of an older generation
  // or of none.
  predicate Replaced(target: Target, plan: Bytes, generation: int) {
    && target.key.domain == "housing_payment" && target.cancelledAt.None?
    && plan + [31] <= target.key.scope
    && (target.planGeneration.Some? ==> target.planGeneration.value < generation)
  }

  lemma ReplacedExactly(target: Target, plan: Bytes, generation: int)
    ensures Superseded(target, plan, generation) <==> Replaced(target, plan, generation)
  {
    var scope := target.key.scope;
    if |scope| > |plan| {
      assert scope[..|plan| + 1] == scope[..|plan|] + [scope[|plan|]];
      assert (plan + [31])[|plan|] == 31;
      assert scope[..|plan| + 1][..|plan|] == scope[..|plan|];
    }
  }

  // A target that is not listed is cancelled, with nothing pending, exactly when it is replaced; else
  // its row and its fires are as they were.
  lemma ReconciledOthers(load: string -> Option<Zone>, st: StoreState, plan: Bytes, generation: int,
                         inputs: seq<HousingInput>, now: Instant, key: TargetKey, t: Instant)
    requires Sound(st.book) && key in st.book.registry && forall i :: 0 <= i < |inputs| ==> inputs[i].Key() != key
    ensures var after := AfterCall(load, st, ReconcilePlan(plan, generation, inputs, now)).book;
            var target := st.book.registry[key];
            && key in after.registry
            && if Replaced(target, plan, generation) then
                 after.registry[key] == target.(cancelledAt := Some(now)) && t !in PendingAt(after, key)
               else
                 && after.registry[key] == target
                 && (Slot(key, t) in st.book.slots ==>
                       Slot(key, t) in after.slots && after.slots[Slot(key, t)] == st.book.slots[Slot(key, t)])
  {
    ReplacedExactly(st.book.registry[key], plan, generation);
    ReconcileOthers(st.book, plan, generation, inputs, DirectoryOf(st.zones, load), now, key);
    hide Sound, Reconcile, PendingAt, Superseded, Replaced;
  }

  // The newest generation of a plan is the largest one it was reconciled with.
  lemma GenerationsGrow(load: string -> Option<Zone>, st: StoreState, plan: Bytes, generation: int,
                        inputs: seq<HousingInput>, now: Instant, other: Bytes)
    requires Sound(st.book)
    ensures var after := AfterCall(load, st, ReconcilePlan(plan, generation, inputs, now)).generations;
            && plan in after && after[plan] >= generation
            && (plan in st.generations ==> after[plan] >= st.generations[plan])
            && (after[plan] == generation || (plan in st.generations && after[plan] == st.generations[plan]))
            && (other != plan ==> (other in after <==> other in st.generations)
                                  && (other in after ==> after[other] == st.generations[other]))
  {
    hide Reconcile, Sound;
  }

  // ---------------------------------------------------------------------------------------------
  // A recipient's time zone

  // After a recompute each active housing target of the recipient has pending every instant its kind
  // expects in the zone now known for the recipient that has no row yet; every other target, and every
  // target when no zone is known, has pending what it had.
  lemma RecomputedPending(load: string -> Option<Zone>, st: StoreState, recipient: Bytes, now: Instant, key: TargetKey,
                          t: Instant)
    requires Sound(st.book) && key in st.book.registry
    ensures var after := AfterCall(load, st, RecomputeFor(recipient, now)).book;
            var target, loc := st.book.registry[key], ZoneOf(load, st.zones, recipient);
            && after.registry == st.book.registry
            && if key.domain == "housing_payment" && key.recipient == recipient && target.cancelledAt.None?
                  && loc.Some? then
                 && target.dueAt.Some? && target.recurrencePeriodDays.Some?
                 && (t in PendingAt(after, key) <==>
                       && Expected(key.kind, target.dueAt.value, target.recurrencePeriodDays.value, target.boundAt, loc,
                                   now, t)
                       && Slot(key, t) !in st.book.slots)
               else t in PendingAt(after, key) <==> t in PendingAt(st.book, key)
  {
    var target, loc := st.book.registry[key], ZoneOf(load, st.zones, recipient);
    SlotMembers(st.book, key, t);
    CoherentKeys(st.book);
    if loc.Some? {
      RecomputePending(st.book, recipient, loc.value, now, key);
      if ActiveHousing(target, recipient) {
        InstantsExactly(key.kind, target.dueAt.value, target.recurrencePeriodDays.value, target.boundAt, loc, now, t);
      }
    }
    hide Coherent, PendingAt, TakenAt, HousingInstants, Expected, Replan;
  }

  lemma TimezoneKept(load: string -> Option<Zone>, st: StoreState, recipient: Bytes, iana: string, other: Bytes)
    requires Sound(st.book)
    ensures var after := AfterCall(load, st, SetTimezone(recipient, iana));
            && after.book == st.book
            && ZoneOf(load, after.zones, other)
                 == if other != recipient then ZoneOf(load, st.zones, other)
                    else if iana == "" then None else load(iana)
  {
  }

  // ---------------------------------------------------------------------------------------------
  // Cancelling

  // The targets that a cancelling call names.
  predicate Named(call: StoreCall, key: TargetKey) {
    match call
    case CancelHousing(scopeKeys, kind, period, _) =>
      key.domain == "housing_payment" && key.scope in scopeKeys && key.kind == kind && key.period == period
    case CancelClient(domain, scopeKeys, _) =>
      && key.domain == domain && key.scope in scopeKeys
      && (domain == "contacts_invitation_expiry" || domain == "housing_proposal_deadline"
          || domain == "vehicle_sharing_deadline")
    case _ => false
  }

  // The named targets are cancelled, those cancelled before keeping their date, and have nothing
  // pending; all other rows and fires, and what has fired, are as they were.
  lemma CancelledExactly(load: string -> Option<Zone>, st: StoreState, call: StoreCall, key: TargetKey, t: Instant)
    requires Sound(st.book) && key in st.book.registry && (call.CancelHousing? || call.CancelClient?)
    ensures var after, target := AfterCall(load, st, call).book, st.book.registry[key];
            && after.registry.Keys == st.book.registry.Keys && after.slots.Keys == st.book.slots.Keys
            && after.registry[key]
                 == (if Named(call, key) && target.cancelledAt.None?
                     then target.(cancelledAt := Some(call.now)) else target)
            && (Slot(key, t) in st.book.slots ==>
                  after.slots[Slot(key, t)]
                    == if Named(call, key) && st.book.slots[Slot(key, t)].Pending? then Cancelled
                       else st.book.slots[Slot(key, t)])
  {
    hide Sound;
  }

  // ---------------------------------------------------------------------------------------------
  // Lists of client targets

  predicate Acceptable(input: ClientInput) {
    && (input.domain == "contacts_invitation_expiry" || input.domain == "housing_proposal_deadline"
        || input.domain == "vehicle_sharing_deadline")
    && (input.kind == "before_expiry" || input.kind == "expired" || input.kind == "before_deadline")
    && input.scope != [] && input.recipient != []
  }

  lemma {:induction false} RefusedExactly(inputs: seq<ClientInput>)
    ensures FirstRefusal(inputs).None? <==> forall input <- inputs :: Acceptable(input)
  {
    if inputs != [] {
      RefusedExactly(inputs[1..]);
      assert inputs == [inputs[0]] + inputs[1..];
      assert inputs[0].Refusal().None? <==> Acceptable(inputs[0]);
      hide Acceptable;
    }
  }

  ghost predicate ClientListedBefore(inputs: seq<ClientInput>, i: nat, t: Instant)
    requires i < |inputs|
  {
    exists j :: 0 <= j < i && inputs[j].Key() == inputs[i].Key() && t in inputs[j].fireAts
  }

  lemma {:induction false} ClientEntriesExactly(inputs: seq<ClientInput>, now: Instant, key: TargetKey, t: Instant)
    ensures t in EntryInstants(ClientEntries(inputs, now), key) <==>
      t > now && exists j :: 0 <= j < |inputs| && inputs[j].Key() == key && t in inputs[j].fireAts
  {
    if inputs != [] {
      var n, entries := |inputs| - 1, ClientEntries(inputs, now);
      ClientEntriesExactly(inputs[..n], now, key, t);
      assert entries[..n] == ClientEntries(inputs[..n], now);
      if j :| 0 <= j < n && inputs[..n][j].Key() == key && t in inputs[..n][j].fireAts {
        assert inputs[j].Key() == key;
      }
      if j :| 0 <= j < |inputs| && inputs[j].Key() == key && t in inputs[j].fireAts {
        if j < n { assert inputs[..n][j].Key() == key; }
      }
    }
  }

  // A list with an entry that is not acceptable changes nothing.  Otherwise a listed target has its
  // listed terms, and pending is every listed instant still to come that has no row yet.
  lemma ClientPending(load: string -> Option<Zone>, st: StoreState, inputs: seq<ClientInput>, now: Instant, i: nat,
                      t: Instant)
    requires Sound(st.book) && i < |inputs|
    requires forall j :: i < j < |inputs| ==> inputs[j].Key() != inputs[i].Key()
    ensures var after := AfterCall(load, st, UpsertClient(inputs, now));
            var input := inputs[i];
            var key := TargetKey(input.domain, input.scope, input.recipient, input.kind,
                                 if input.period == [] then None else Some(input.period));
            if exists other <- inputs :: !Acceptable(other) then after == st
            else
              && (t in PendingAt(after.book, key) <==>
                    t in input.fireAts && t > now && Slot(key, t) !in st.book.slots
                      && !ClientListedBefore(inputs, i, t))
              && key in after.book.registry
              && after.book.registry[key]
                   == Target(key, None, input.dueAt, None,
                             if input.generation == 0 then 1 else input.generation, None, None)
  {
    hide *;
    RefusedExactly(inputs);
    UpsertCall(load, st, inputs, now);
    ClientScheduled(st.book, inputs, now, i, t);
  }

  lemma UpsertCall(load: string -> Option<Zone>, st: StoreState, inputs: seq<ClientInput>, now: Instant)
    requires Sound(st.book)
    ensures AfterCall(load, st, UpsertClient(inputs, now)) ==
      if FirstRefusal(inputs).None? then st.(book := ScheduleAll(st.book, ClientEntries(inputs, now))) else st
  {
    hide Sound, ScheduleAll, FirstRefusal;
  }

  lemma ClientScheduled(book: Book, inputs: seq<ClientInput>, now: Instant, i: nat, t: Instant)
    requires i < |inputs| && forall j :: i < j < |inputs| ==> inputs[j].Key() != inputs[i].Key()
    ensures var after, input := ScheduleAll(book, ClientEntries(inputs, now)), inputs[i];
            var key := TargetKey(input.domain, input.scope, input.recipient, input.kind,
                                 if input.period == [] then None else Some(input.period));
            && (t in PendingAt(after, key) <==>
                  t in input.fireAts && t > now && Slot(key, t) !in book.slots && !ClientListedBefore(inputs, i, t))
            && key in after.registry
            && after.registry[key]
                 == Target(key, None, input.dueAt, None,
                           if input.generation == 0 then 1 else input.generation, None, None)
  {
    var entries, key := ClientEntries(inputs, now), inputs[i].Key();
    ScheduleAllPending(book, entries, i);
    SlotMembers(book, key, t);
    ClientEntriesExactly(inputs[..i], now, key, t);
    assert entries[..i] == ClientEntries(inputs[..i], now);
    SameClientListed(inputs, i, t);
    hide ScheduleAll, PendingAt, TakenAt, EntryInstants, ClientListedBefore;
    assert t in entries[i].instants <==> t in inputs[i].fireAts && t > now;
  }

  lemma SameClientListed(inputs: seq<ClientInput>, i: nat, t: Instant)
    requires i < |inputs|
    ensures ClientListedBefore(inputs, i, t) <==>
      exists j :: 0 <= j < |inputs[..i]| && inputs[..i][j].Key() == inputs[i].Key() && t in inputs[..i][j].fireAts
  {
    if j :| 0 <= j < i && inputs[j].Key() == inputs[i].Key() && t in inputs[j].fireAts {
      assert inputs[..i][j].Key() == inputs[i].Key();
    }
    if j :| 0 <= j < |inputs[..i]| && inputs[..i][j].Key() == inputs[i].Key() && t in inputs[..i][j].fireAts {
      assert inputs[j].Key() == inputs[i].Key();
    }
  }

  // ---------------------------------------------------------------------------------------------
  // Claims and listings

  // A claim takes pending fires whose time has come, the earliest first, and as many as it may; one
  // that comes back with fewer leaves none behind.
  lemma ClaimTakes(load: string -> Option<Zone>, st: StoreState, call: StoreCall, s: Slot)
    requires Sound(st.book) && call.ClaimDue? && Answers(st, call)
    ensures |call.slots| <= call.limit
    ensures forall i, j :: 0 <= i < j < |call.slots| ==>
              call.slots[i] != call.slots[j] && call.slots[i].at <= call.slots[j].at
    ensures s in call.slots ==>
              s in st.book.slots && st.book.slots[s] == Pending && s.at <= call.now
    ensures s in st.book.slots && st.book.slots[s] == Pending && s.at <= call.now && s !in call.slots ==>
              |call.slots| == call.limit && forall u <- call.slots :: u.at <= s.at
    ensures var after := AfterCall(load, st, call).book;
            |call.slots| < call.limit && s in after.slots && after.slots[s] == Pending ==> s.at > call.now
  {
    var due := Due(st.book, call.now);
    DistinctSize(call.slots);
    if s in due && s !in call.slots {
      assert s !in SlotSet(call.slots);
      FewerSlots(SlotSet(call.slots), due, s);
    }
    assert s in st.book.slots && st.book.slots[s] == Pending && s.at <= call.now ==> s in due;
    forall u | u in call.slots ensures u in due {}
    hide Sound;
  }

  lemma FewerSlots(some: set<Slot>, all: set<Slot>, s: Slot)
    requires some <= all && s in all && s !in some
    ensures |some| < |all|
  {
    var rest := all - some;
    assert all == some + rest && some !! rest && s in rest;
  }

  // A listing shows the recipient's fired and unacknowledged fires in the order they fired, as many as
  // it may; one that comes back with fewer has left none out.
  lemma ListingShows(book: Book, recipient: Bytes, limit: nat, slots: seq<Slot>, s: Slot)
    requires ListsEarliest(book, recipient, limit, slots)
    ensures |slots| <= limit
    ensures s in slots ==>
              && s in book.slots && book.slots[s].Fired? && book.slots[s].ackedAt.None? && s.key.recipient == recipient
    ensures forall i, j :: 0 <= i < j < |slots| ==>
              slots[i] != slots[j] && FiredTime(book, slots[i]) <= FiredTime(book, slots[j])
    ensures s in book.slots && book.slots[s].Fired? && book.slots[s].ackedAt.None? && s.key.recipient == recipient
            && s !in slots ==>
              && |slots| == limit
              && forall u <- slots :: u in book.slots && book.slots[u].Fired? && book.slots[u].at <= book.slots[s].at
  {
    var waiting := Undelivered(book, recipient);
    DistinctSize(slots);
    if s in waiting && s !in slots {
      assert s !in SlotSet(slots);
      FewerSlots(SlotSet(slots), waiting, s);
    }
    assert s in book.slots && book.slots[s].Fired? && book.slots[s].ackedAt.None? && s.key.recipient == recipient ==>
      s in waiting;
    forall u | u in slots ensures u in waiting {}
  }
}
