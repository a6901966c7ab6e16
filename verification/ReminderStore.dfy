// The reminder scheduler of the relay (relay/internal/store/scheduled_notifications.go) and the
// cron pass that claims due reminders (relay/internal/remindercron/remindercron.go).
//
// Every public method is one transaction: it works on a copy of the tables and commits it at the
// end, so a refused request leaves the store as it was.
module ReminderStores {
  import opened Wrappers
  import opened FireTimes
  import opened ReminderBooks
  import opened ReminderTables
  import opened TimeOrder
  import opened ByteStrings

  datatype Delivery = Delivery(
    fire: Id, target: Id, key: TargetKey,
    periodDueAt: Option<Instant>, recurrencePeriodDays: Option<int>, firedAt: Instant)

  ghost predicate Sound(book: Book) {
    Coherent(book) && HousingTermsKnown(book.registry) && ClientTermsEmpty(book.registry)
  }

  lemma EmptyTables()
    ensures var t := Tables(map[], map[], 0); Linked(t) && BookOf(t) == Book(map[], map[]) && Sound(BookOf(t))
  {
    hide Slots, Registry, SlotOf;
    var t := Tables(map[], map[], 0);
    assert t.targets.Keys == {} && t.fires.Keys == {};
    forall i, j ensures KeysDiffer(t, i, j) {}
    forall f, g ensures FiresDiffer(t, f, g) {}
    forall f ensures FireLinked(t, f) {}
    forall i ensures TargetIssued(t, i) {}
    hide Linked;
    SlotsAre(t, map[]);
    RegistryIs(t, map[]);
  }

  function ZoneIn(zones: map<Bytes, string>, loadLocation: string -> Option<Zone>, recipient: Bytes): Option<Zone> {
    if recipient !in zones || zones[recipient] == "" then None else loadLocation(zones[recipient])
  }

  // The instants of one target; an unknown zone or kind yields none.
  method PlanInstants(kind: string, dueAt: Instant, recurrencePeriodDays: int, boundAt: Option<Instant>,
                      loc: Option<Zone>, now: Instant)
    returns (fireAts: seq<Instant>)
    ensures fireAts == HousingInstants(kind, dueAt, recurrencePeriodDays, boundAt, loc, now)
  {
    hide BeforeDateFires, HousingOverdueFire;
    fireAts := [];
    if loc == None { return; }
    if kind == "before_due" {
      fireAts := HousingBeforeDateFires(dueAt, recurrencePeriodDays, loc, now);
    } else if kind == "overdue" {
      var overdue := HousingOverdueFire(dueAt, loc, now);
      if overdue.Some? && (boundAt.None? || overdue.value <= boundAt.value) {
        fireAts := [overdue.value];
      }
    }
  }

  // Withdraw what is pending for one target and insert its new instants.
  method ReplanTarget(tx: Tables, target: Id, instants: seq<Instant>) returns (after: Tables)
    requires Linked(tx) && target in tx.targets
    ensures Linked(after) && KeepsRows(tx, after) && after.targets == tx.targets
    ensures Registry(after) == Registry(tx)
    ensures Slots(after) == Replan(Slots(tx), map[tx.targets[target].key := Members(instants)])
  {
    hide Linked, Slots, Registry, Replan, KeepsRows;
    var key := tx.targets[target].key;
    CancelFiresMeaning(tx, {target});
    var withdrawn := CancelFires(tx, {target});
    assert KeysOf(tx, {target}) == {key};
    after := InsertFires(withdrawn, target, instants);
    WithdrawThenAdd(Slots(tx), key, Members(instants));
    KeepsRowsTransitive(tx, withdrawn, after);
  }

  // The rows a WHERE clause selects, and the keys they register.
  function RowsWhere(t: Tables, where: Target -> bool): set<Id> {
    set i | i in t.targets && where(t.targets[i])
  }

  function KeysWhere(registry: map<TargetKey, Target>, where: Target -> bool): set<TargetKey> {
    set k | k in registry && where(registry[k])
  }

  lemma WhereNamesKeys(t: Tables, where: Target -> bool)
    requires Linked(t)
    ensures KeysOf(t, RowsWhere(t, where)) == KeysWhere(Registry(t), where)
  {
    hide Linked, Registry;
    forall k ensures k in KeysOf(t, RowsWhere(t, where)) <==> k in KeysWhere(Registry(t), where) {
      if k in KeysOf(t, RowsWhere(t, where)) {
        var i :| i in RowsWhere(t, where) && i in t.targets && t.targets[i].key == k;
        RegistryAt(t, i);
      }
      if k in KeysWhere(Registry(t), where) {
        var i := RegistryRow(t, k);
        assert i in RowsWhere(t, where);
      }
    }
  }

  predicate Withdrawn(target: Target, domain: Option<string>) {
    target.cancelledAt.Some? && (domain.None? || target.key.domain == domain.value)
  }

  method MarkCancelled(t: Tables, where: Target -> bool, now: Instant) returns (marked: Tables)
    requires Linked(t)
    ensures Linked(marked) && KeepsRows(t, marked) && Slots(marked) == Slots(t)
    ensures Registry(marked) == CancelKeys(Registry(t), KeysWhere(Registry(t), where), now)
  {
    hide Linked, Registry, Slots, KeepsRows, RowsWhere, KeysWhere, ReminderTables.CancelTargets;
    WhereNamesKeys(t, where);
    CancelTargetsMeaning(t, RowsWhere(t, where), now);
    marked := CancelTargets(t, RowsWhere(t, where), now);
  }

  // Withdraw what is pending for every cancelled target, of one domain or of all; `before` is the
  // book from which `hit` has just been marked as cancelled.
  method WithdrawCancelled(marked: Tables, domain: Option<string>, ghost before: Book, ghost hit: set<TargetKey>,
                           ghost now: Instant)
    returns (after: Tables)
    requires Linked(marked) && Coherent(before)
    requires BookOf(marked) == Book(CancelKeys(before.registry, hit, now), before.slots)
    requires forall k <- hit :: k in before.registry && (domain.Some? ==> k.domain == domain.value)
    ensures Linked(after) && KeepsRows(marked, after)
    ensures BookOf(after) == Cancel(before, hit, now)
  {
    hide Linked, Registry, Slots, KeepsRows, Coherent, RowsWhere, KeysWhere, ReminderTables.CancelFires, WithdrawFor,
         Cancel, CancelKeys;
    var isWithdrawn := (target: Target) => Withdrawn(target, domain);
    WhereNamesKeys(marked, isWithdrawn);
    CancelFiresMeaning(marked, RowsWhere(marked, isWithdrawn));
    after := CancelFires(marked, RowsWhere(marked, isWithdrawn));
    WithdrawnSlots(before, hit, domain, now, isWithdrawn);
  }

  lemma WithdrawnSlots(book: Book, hit: set<TargetKey>, domain: Option<string>, now: Instant,
                       isWithdrawn: Target -> bool)
    requires Coherent(book)
    requires forall k <- hit :: k in book.registry && (domain.Some? ==> k.domain == domain.value)
    requires forall target :: isWithdrawn(target) == Withdrawn(target, domain)
    ensures var marked := CancelKeys(book.registry, hit, now);
            && marked == Cancel(book, hit, now).registry
            && WithdrawFor(book.slots, KeysWhere(marked, isWithdrawn)) == Cancel(book, hit, now).slots
  {
    var marked := CancelKeys(book.registry, hit, now);
    var keys := KeysWhere(marked, isWithdrawn);
    forall s | s in book.slots
      ensures (s.key in hit ==> s.key in keys) && (s.key in keys && s.key !in hit ==> !book.slots[s].Pending?)
    {
    }
  }

  // The keys of a domain under some scope keys, of every kind and period or of one.
  predicate InScopes(k: TargetKey, domain: string, scopeKeys: seq<Bytes>, only: Option<(string, Option<Bytes>)>) {
    k.domain == domain && k.scope in scopeKeys && (only.None? || (k.kind == only.value.0 && k.period == only.value.1))
  }

  function ScopeKeys(registry: map<TargetKey, Target>, domain: string, scopeKeys: seq<Bytes>,
                     only: Option<(string, Option<Bytes>)>): set<TargetKey> {
    set k | k in registry && InScopes(k, domain, scopeKeys, only)
  }

  // One UPDATE for each scope key.
  method MarkScopes(t: Tables, domain: string, scopeKeys: seq<Bytes>, only: Option<(string, Option<Bytes>)>,
                    now: Instant)
    returns (marked: Tables)
    requires Linked(t) && Coherent(BookOf(t))
    ensures Linked(marked) && KeepsRows(t, marked)
    ensures BookOf(marked)
      == Book(CancelKeys(Registry(t), ScopeKeys(Registry(t), domain, scopeKeys, only), now), Slots(t))
  {
    hide Linked, Registry, Slots, KeepsRows, CancelKeys, KeysWhere, ScopeKeys;
    marked := t;
    KeepsRowsReflexive(t);
    MarkNothing(Registry(t), domain, only, now);
    for i := 0 to |scopeKeys|
      invariant Linked(marked) && KeepsRows(t, marked) && Slots(marked) == Slots(t)
      invariant Registry(marked) == CancelKeys(Registry(t), ScopeKeys(Registry(t), domain, scopeKeys[..i], only), now)
    {
      ghost var was := marked;
      var where := (target: Target) => InScopes(target.key, domain, [scopeKeys[i]], only);
      marked := MarkCancelled(marked, where, now);
      KeepsRowsTransitive(t, was, marked);
      assert scopeKeys[..i + 1] == scopeKeys[..i] + [scopeKeys[i]];
      MarkOneMore(Registry(t), domain, scopeKeys[..i], scopeKeys[i], only, now, where);
    }
    assert scopeKeys[..|scopeKeys|] == scopeKeys;
  }

  lemma MarkNothing(registry: map<TargetKey, Target>, domain: string, only: Option<(string, Option<Bytes>)>,
                    now: Instant)
    ensures CancelKeys(registry, ScopeKeys(registry, domain, [], only), now) == registry
  {
  }

  lemma MarkOneMore(registry: map<TargetKey, Target>, domain: string, done: seq<Bytes>, scope: Bytes,
                    only: Option<(string, Option<Bytes>)>, now: Instant, where: Target -> bool)
    requires forall k <- registry :: registry[k].key == k
    requires forall target :: where(target) == InScopes(target.key, domain, [scope], only)
    ensures var marked := CancelKeys(registry, ScopeKeys(registry, domain, done, only), now);
            CancelKeys(marked, KeysWhere(marked, where), now)
              == CancelKeys(registry, ScopeKeys(registry, domain, done + [scope], only), now)
  {
    var first, second := ScopeKeys(registry, domain, done, only), ScopeKeys(registry, domain, [scope], only);
    OneMoreScope(registry, domain, done, scope, only);
    MarkedWhere(registry, first, domain, scope, only, now, where);
    MarkTwice(registry, first, second, now);
    hide *;
  }

  lemma OneMoreScope(registry: map<TargetKey, Target>, domain: string, done: seq<Bytes>, scope: Bytes,
                     only: Option<(string, Option<Bytes>)>)
    ensures ScopeKeys(registry, domain, done + [scope], only)
         == ScopeKeys(registry, domain, done, only) + ScopeKeys(registry, domain, [scope], only)
  {
  }

  lemma MarkedWhere(registry: map<TargetKey, Target>, first: set<TargetKey>, domain: string, scope: Bytes,
                    only: Option<(string, Option<Bytes>)>, now: Instant, where: Target -> bool)
    requires forall k <- registry :: registry[k].key == k
    requires forall target :: where(target) == InScopes(target.key, domain, [scope], only)
    ensures KeysWhere(CancelKeys(registry, first, now), where) == ScopeKeys(registry, domain, [scope], only)
  {
    hide InScopes;
    var marked := CancelKeys(registry, first, now);
    assert forall k <- marked :: marked[k].key == k;
  }

  lemma MarkTwice(registry: map<TargetKey, Target>, first: set<TargetKey>, second: set<TargetKey>, now: Instant)
    ensures CancelKeys(CancelKeys(registry, first, now), second, now) == CancelKeys(registry, first + second, now)
  {
  }

  lemma NoEntries(book: Book)
    ensures ScheduleAll(book, []) == book
  {
  }

  lemma OneMoreEntry(book: Book, entries: seq<Entry>, i: nat)
    requires i < |entries|
    ensures ScheduleAll(book, entries[..i + 1])
         == Schedule(ScheduleAll(book, entries[..i]), entries[i].target, entries[i].instants)
  {
    assert entries[..i + 1][..i] == entries[..i];
  }

  // ---------------------------------------------------------------------------------------------
  // Sound books stay sound

  ghost predicate EntrySound(e: Entry) {
    && e.target.cancelledAt.None?
    && if e.target.key.domain == HousingPayment then e.target.dueAt.Some? && e.target.recurrencePeriodDays.Some?
       else e.target.recurrencePeriodDays.None? && e.target.boundAt.None? && e.target.planGeneration.None?
  }

  lemma {:induction false} ScheduleAllSound(book: Book, entries: seq<Entry>)
    requires Sound(book) && forall e <- entries :: EntrySound(e)
    ensures Sound(ScheduleAll(book, entries))
  {
    if entries != [] {
      hide Sound, Schedule, EntrySound;
      var last := entries[|entries| - 1];
      assert last in entries;
      ScheduleAllSound(book, entries[..|entries| - 1]);
      ScheduleSound(ScheduleAll(book, entries[..|entries| - 1]), last);
    }
  }

  lemma ScheduleSound(book: Book, e: Entry)
    requires Sound(book) && EntrySound(e)
    ensures Sound(Schedule(book, e.target, e.instants))
  {
    hide Coherent, Replan;
    ScheduleKeepsCoherent(book, e.target, e.instants);
  }

  lemma CancelSound(book: Book, hit: set<TargetKey>, now: Instant)
    requires Sound(book)
    ensures Sound(Cancel(book, hit, now))
  {
    hide Coherent;
    CancelKeepsCoherent(book, hit, now);
  }

  lemma ReconcileSound(book: Book, plan: Bytes, generation: int, inputs: seq<HousingInput>,
                       zoneOf: Bytes -> Option<Zone>, now: Instant)
    requires Sound(book)
    ensures Sound(Reconcile(book, plan, generation, inputs, zoneOf, now))
  {
    hide Sound, ScheduleAll, Cancel;
    CancelSound(book, SupersededKeys(book.registry, plan, generation), now);
    ScheduleAllSound(Cancel(book, SupersededKeys(book.registry, plan, generation), now),
      HousingEntries(inputs, generation, zoneOf, now));
  }

  // ---------------------------------------------------------------------------------------------
  // Recomputing one target at a time

  function Restrict(plan: map<TargetKey, set<Instant>>, keys: set<TargetKey>): map<TargetKey, set<Instant>> {
    map k | k in plan && k in keys :: plan[k]
  }

  lemma ReplanNothing(slots: map<Slot, Outcome>, plan: map<TargetKey, set<Instant>>)
    ensures Replan(slots, Restrict(plan, {})) == slots
  {
    hide Replan;
    forall s
      ensures s in Replan(slots, Restrict(plan, {})) <==> s in slots
    {
      ReplanSlots(slots, Restrict(plan, {}), s);
    }
    forall s <- slots
      ensures Replan(slots, Restrict(plan, {}))[s] == slots[s]
    {
      ReplanSlots(slots, Restrict(plan, {}), s);
    }
  }

  lemma ReplanOneMore(slots: map<Slot, Outcome>, plan: map<TargetKey, set<Instant>>, done: set<TargetKey>,
                      key: TargetKey)
    requires key in plan && key !in done
    ensures Replan(Replan(slots, Restrict(plan, done)), map[key := plan[key]])
      == Replan(slots, Restrict(plan, done + {key}))
  {
    hide Replan;
    var partly := Replan(slots, Restrict(plan, done));
    forall s
      ensures s in Replan(partly, map[key := plan[key]]) <==> s in Replan(slots, Restrict(plan, done + {key}))
      ensures s in Replan(slots, Restrict(plan, done + {key})) ==>
        Replan(partly, map[key := plan[key]])[s] == Replan(slots, Restrict(plan, done + {key}))[s]
    {
      ReplanSlots(slots, Restrict(plan, done), s);
      ReplanSlots(partly, map[key := plan[key]], s);
      ReplanSlots(slots, Restrict(plan, done + {key}), s);
    }
  }

  lemma KeysWithout(t: Tables, ids: set<Id>, id: Id)
    requires Linked(t) && ids <= t.targets.Keys && id in ids
    ensures KeysOf(t, ids - {id}) == KeysOf(t, ids) - {t.targets[id].key}
  {
    hide Linked;
    forall i | i in ids && t.targets[i].key == t.targets[id].key ensures i == id { KeysDistinct(t, i, id); }
  }

  lemma RecomputeSound(book: Book, recipient: Bytes, zone: Zone, now: Instant)
    requires Sound(book)
    ensures Sound(book.(slots := Replan(book.slots, RecomputePlan(book.registry, recipient, zone, now))))
  {
    hide Coherent, Replan, TargetInstants;
    assert forall k <- book.registry :: book.registry[k].key == k by { CoherentKeys(book); }
    ReplanKeepsCoherent(book, RecomputePlan(book.registry, recipient, zone, now));
  }

  lemma CoherentKeys(book: Book)
    requires Coherent(book)
    ensures forall k <- book.registry :: book.registry[k].key == k
  {
  }

  // ---------------------------------------------------------------------------------------------
  // Client lists

  function FirstRefusal(inputs: seq<ClientInput>): Option<string> {
    if inputs == [] then None
    else if inputs[0].Refusal().Some? then inputs[0].Refusal()
    else FirstRefusal(inputs[1..])
  }

  lemma {:induction false} FirstRefusalIs(inputs: seq<ClientInput>, i: nat)
    requires i < |inputs| && inputs[i].Refusal().Some?
    requires forall j :: 0 <= j < i ==> inputs[j].Refusal() == None
    ensures FirstRefusal(inputs) == inputs[i].Refusal()
  {
    if i > 0 {
      FirstRefusalIs(inputs[1..], i - 1);
    }
  }

  lemma {:induction false} NoRefusal(inputs: seq<ClientInput>)
    requires forall j :: 0 <= j < |inputs| ==> inputs[j].Refusal() == None
    ensures FirstRefusal(inputs) == None
  {
    if inputs != [] {
      NoRefusal(inputs[1..]);
    }
  }

  lemma ClientEntriesSound(book: Book, inputs: seq<ClientInput>, n: nat, now: Instant)
    requires Sound(book) && n <= |inputs|
    requires forall j :: 0 <= j < n ==> inputs[j].Refusal() == None
    ensures Sound(ScheduleAll(book, ClientEntries(inputs, now)[..n]))
  {
    hide Sound, ScheduleAll;
    var entries := ClientEntries(inputs, now)[..n];
    forall e <- entries ensures EntrySound(e) {
      var j :| 0 <= j < n && e == inputs[j].AsEntry(now);
    }
    ScheduleAllSound(book, entries);
  }

  // A key that is not registered has no slots to withdraw.
  lemma AddToUnknown(book: Book, key: TargetKey, instants: set<Instant>)
    requires Coherent(book) && key !in book.registry
    ensures AddPending(book.slots, key, instants) == Replan(book.slots, map[key := instants])
  {
    WithdrawThenAdd(book.slots, key, instants);
    assert WithdrawFor(book.slots, {key}) == book.slots;
  }

  // ---------------------------------------------------------------------------------------------
  // Claims and listings

  ghost function NamedSlots(t: Tables, ids: seq<Id>): (slots: seq<Slot>)
    requires Linked(t) && forall f <- ids :: f in t.fires
    ensures |slots| == |ids| && forall i :: 0 <= i < |ids| ==> slots[i] == SlotOf(t, ids[i])
  {
    seq(|ids|, i requires 0 <= i < |ids| && Linked(t) && ids[i] in t.fires => SlotOf(t, ids[i]))
  }

  function FireIds(ds: seq<Delivery>): (ids: seq<Id>)
    ensures |ids| == |ds| && forall i :: 0 <= i < |ds| ==> ids[i] == ds[i].fire
  {
    seq(|ds|, i requires 0 <= i < |ds| => ds[i].fire)
  }

  function SlotSet(slots: seq<Slot>): set<Slot> {
    set s | s in slots
  }

  ghost function DeliveredSlots(t: Tables, ds: seq<Delivery>): (slots: seq<Slot>)
    requires Linked(t) && forall d <- ds :: Describes(t, d)
    ensures |slots| == |ds|
  {
    hide Linked;
    assert forall f <- FireIds(ds) :: f in t.fires by {
      forall i | 0 <= i < |ds| ensures FireIds(ds)[i] in t.fires { assert Describes(t, ds[i]); }
    }
    NamedSlots(t, FireIds(ds))
  }

  predicate Describes(t: Tables, d: Delivery) {
    && d.fire in t.fires && d.target == t.fires[d.fire].target && d.target in t.targets
    && d.key == t.targets[d.target].key
    && d.periodDueAt == t.targets[d.target].dueAt
    && d.recurrencePeriodDays == t.targets[d.target].recurrencePeriodDays
  }

  // The first `limit` slots of a set by `time`, each once and in order.
  ghost predicate FirstSlots(of: set<Slot>, time: Slot -> Instant, limit: nat, slots: seq<Slot>) {
    && |slots| == (if limit < |of| then limit else |of|)
    && (forall i, j :: 0 <= i < j < |slots| ==> slots[i] != slots[j])
    && (forall s <- slots :: s in of)
    && (forall i, j :: 0 <= i < j < |slots| ==> time(slots[i]) <= time(slots[j]))
    && (forall s, u :: s in slots && u in of && u !in slots ==> time(s) <= time(u))
  }

  function SlotTime(s: Slot): Instant {
    s.at
  }

  ghost predicate ClaimsEarliest(book: Book, now: Instant, limit: nat, slots: seq<Slot>) {
    FirstSlots(Due(book, now), SlotTime, limit, slots)
  }

  function FiredTime(book: Book, s: Slot): Instant {
    if s in book.slots && book.slots[s].Fired? then book.slots[s].at else 0
  }

  function FiredTimes(book: Book): Slot -> Instant {
    s => FiredTime(book, s)
  }

  ghost predicate ListsEarliest(book: Book, recipient: Bytes, limit: nat, slots: seq<Slot>) {
    FirstSlots(Undelivered(book, recipient), FiredTimes(book), limit, slots)
  }

  function DueFires(t: Tables, now: Instant): map<Id, Instant> {
    map f | f in t.fires && t.fires[f].status == StatusPending && t.fires[f].fireAt <= now
            && t.fires[f].target in t.targets && t.targets[t.fires[f].target].cancelledAt.None? :: t.fires[f].fireAt
  }

  function UndeliveredFires(t: Tables, recipient: Bytes): map<Id, Instant> {
    map f | f in t.fires && t.fires[f].status == StatusFired && t.fires[f].deliveryAckAt.None?
      && t.fires[f].recipient == recipient
            && t.fires[f].target in t.targets && t.fires[f].firedAt.Some? :: t.fires[f].firedAt.value
  }

  ghost function SlotsIn(t: Tables, ids: set<Id>): set<Slot>
    requires Linked(t) && ids <= t.fires.Keys
  {
    set f | f in ids :: SlotOf(t, f)
  }

  lemma DueFiresAreDue(t: Tables, now: Instant)
    requires Linked(t) && Coherent(BookOf(t))
    ensures DueFires(t, now).Keys <= t.fires.Keys
    ensures SlotsIn(t, DueFires(t, now).Keys) == Due(BookOf(t), now)
    ensures forall f <- DueFires(t, now) :: DueFires(t, now)[f] == SlotOf(t, f).at
  {
    hide Linked, Slots, Registry, SlotOf;
    forall f <- DueFires(t, now)
      ensures SlotOf(t, f) in Due(BookOf(t), now) && SlotOf(t, f).at == DueFires(t, now)[f]
    {
      SlotsAt(t, f);
    }
    forall s <- Due(BookOf(t), now) ensures s in SlotsIn(t, DueFires(t, now).Keys) {
      var f := SlotRow(t, s);
      SlotsAt(t, f);
      RegistryAt(t, t.fires[f].target);
      assert f in DueFires(t, now);
    }
  }

  lemma UndeliveredFiresAre(t: Tables, recipient: Bytes)
    requires Linked(t)
    ensures UndeliveredFires(t, recipient).Keys <= t.fires.Keys
    ensures SlotsIn(t, UndeliveredFires(t, recipient).Keys) == Undelivered(BookOf(t), recipient)
    ensures forall f <- UndeliveredFires(t, recipient) ::
      UndeliveredFires(t, recipient)[f] == FiredTime(BookOf(t), SlotOf(t, f))
  {
    hide Linked, Slots, Registry, SlotOf;
    forall f <- UndeliveredFires(t, recipient)
      ensures SlotOf(t, f) in Undelivered(BookOf(t), recipient)
        && FiredTime(BookOf(t), SlotOf(t, f)) == UndeliveredFires(t, recipient)[f]
    {
      SlotsAt(t, f);
    }
    forall s <- Undelivered(BookOf(t), recipient) ensures s in SlotsIn(t, UndeliveredFires(t, recipient).Keys) {
      var f := SlotRow(t, s);
      SlotsAt(t, f);
      assert f in UndeliveredFires(t, recipient);
    }
  }

  lemma {:induction false} SameSize(t: Tables, ids: set<Id>)
    requires Linked(t) && ids <= t.fires.Keys
    ensures |SlotsIn(t, ids)| == |ids|
  {
    hide Linked, SlotOf;
    if f :| f in ids {
      SameSize(t, ids - {f});
      forall g | g in ids && SlotOf(t, g) == SlotOf(t, f) ensures g == f { SlotsDistinct(t, f, g); }
      assert SlotsIn(t, ids - {f}) == SlotsIn(t, ids) - {SlotOf(t, f)};
    }
  }

  // Picking rows by time picks their slots by time.
  lemma EarliestSlots(t: Tables, when: map<Id, Instant>, time: Slot -> Instant, limit: nat, picked: seq<Id>)
    requires Linked(t) && when.Keys <= t.fires.Keys
    requires forall f <- when :: when[f] == time(SlotOf(t, f))
    requires IsEarliest<Id>(when, limit, picked)
    ensures forall f <- picked :: f in t.fires
    ensures FirstSlots(SlotsIn(t, when.Keys), time, limit, NamedSlots(t, picked))
  {
    hide Linked, SlotOf, NamedSlots;
    var slots := NamedSlots(t, picked);
    SameSize(t, when.Keys);
    assert |when.Keys| == |when|;
    forall i, j | 0 <= i < j < |slots| ensures slots[i] != slots[j] && time(slots[i]) <= time(slots[j]) {
      assert picked[i] in picked && picked[j] in picked;
      if slots[i] == slots[j] { SlotsDistinct(t, picked[i], picked[j]); }
    }
    forall s <- slots ensures s in SlotsIn(t, when.Keys) {
      var i :| 0 <= i < |slots| && slots[i] == s;
      assert picked[i] in picked;
    }
    forall s, u | s in slots && u in SlotsIn(t, when.Keys) && u !in slots ensures time(s) <= time(u) {
      var i :| 0 <= i < |slots| && slots[i] == s;
      var g :| g in when && SlotOf(t, g) == u;
      assert picked[i] in picked;
      NamedSlot(t, picked, g);
    }
  }

  lemma NamedSlot(t: Tables, ids: seq<Id>, f: Id)
    requires Linked(t) && forall g <- ids :: g in t.fires
    ensures f in ids ==> SlotOf(t, f) in NamedSlots(t, ids)
  {
    hide Linked, SlotOf, NamedSlots;
    if f in ids {
      var i :| 0 <= i < |ids| && ids[i] == f;
      assert NamedSlots(t, ids)[i] == SlotOf(t, f);
    }
  }

  method Deliveries(t: Tables, ids: seq<Id>, now: Instant) returns (ds: seq<Delivery>)
    requires Linked(t) && forall f <- ids :: f in t.fires
    ensures FireIds(ds) == ids && forall d <- ds :: Describes(t, d) && d.firedAt == now
  {
    hide Linked;
    ds := [];
    for i := 0 to |ids|
      invariant FireIds(ds) == ids[..i]
      invariant forall d <- ds :: Describes(t, d) && d.firedAt == now
    {
      var f := ids[i];
      SlotsAt(t, f);
      var target := t.targets[t.fires[f].target];
      ds := ds + [Delivery(f, t.fires[f].target, target.key, target.dueAt, target.recurrencePeriodDays, now)];
    }
  }

  lemma PickedAreDue(t: Tables, now: Instant, limit: nat, picked: seq<Id>)
    requires Linked(t) && Coherent(BookOf(t)) && IsEarliest<Id>(DueFires(t, now), limit, picked)
    ensures forall f <- picked :: f in t.fires && t.fires[f].status == StatusPending
    ensures forall i, j :: 0 <= i < j < |picked| ==> picked[i] != picked[j]
    ensures ClaimsEarliest(BookOf(t), now, limit, NamedSlots(t, picked))
  {
    hide Linked, Registry, Slots, SlotOf, Coherent, FirstSlots;
    DueFiresAreDue(t, now);
    EarliestSlots(t, DueFires(t, now), SlotTime, limit, picked);
  }

  lemma ClaimNothing(book: Book, now: Instant)
    ensures Claim(book, {}, now) == book
  {
  }

  lemma MarkFiredMeaning(t: Tables, tx: Tables, picked: seq<Id>, i: nat, now: Instant)
    requires Linked(t) && Linked(tx) && tx.targets == t.targets && tx.fires.Keys == t.fires.Keys
    requires i < |picked| && (forall f <- picked :: f in t.fires)
    requires tx.fires[picked[i]] == t.fires[picked[i]] && t.fires[picked[i]].status == StatusPending
    requires BookOf(tx) == Claim(BookOf(t), SlotSet(NamedSlots(t, picked[..i])), now)
    ensures var f := picked[i];
            var after := PutFire(tx, f, tx.fires[f].(status := StatusFired, firedAt := Some(now)));
            && Linked(after) && KeepsRows(tx, after)
            && BookOf(after) == Claim(BookOf(t), SlotSet(NamedSlots(t, picked[..i + 1])), now)
  {
    hide Linked, Registry, Slots, SlotOf, KeepsRows, NamedSlots;
    var f := picked[i];
    var row := tx.fires[f].(status := StatusFired, firedAt := Some(now));
    SlotsAt(t, f);
    SlotsAt(tx, f);
    PutFireMeaning(tx, f, row);
    assert SlotOf(tx, f) == SlotOf(t, f);
    assert NamedSlots(t, picked[..i + 1]) == NamedSlots(t, picked[..i]) + [SlotOf(t, f)];
    ClaimOneMore(BookOf(t), SlotSet(NamedSlots(t, picked[..i])), SlotOf(t, f), now);
    assert SlotSet(NamedSlots(t, picked[..i + 1])) == SlotSet(NamedSlots(t, picked[..i])) + {SlotOf(t, f)};
  }

  lemma ClaimOneMore(book: Book, claimed: set<Slot>, s: Slot, now: Instant)
    requires s in book.slots
    ensures Claim(book, claimed + {s}, now).slots == Claim(book, claimed, now).slots[s := Fired(now, None)]
  {
  }

  lemma ClaimedSound(book: Book, now: Instant, limit: nat, slots: seq<Slot>)
    requires Sound(book) && ClaimsEarliest(book, now, limit, slots)
    ensures Sound(Claim(book, SlotSet(slots), now)) && Progress(book, Claim(book, SlotSet(slots), now))
  {
    hide Coherent, Progress;
    ClaimKeepsCoherent(book, SlotSet(slots), now);
    ClaimProgress(book, SlotSet(slots), now);
  }

  lemma AcknowledgeKeepsCoherent(book: Book, s: Slot, now: Instant)
    requires Coherent(book) && s in book.slots && book.slots[s].Fired?
    ensures Coherent(Acknowledge(book, s, now))
  {
  }

  // ---------------------------------------------------------------------------------------------
  // Draining at one moment

  // A claim leaves due exactly what it did not take.
  lemma DueAfterClaim(book: Book, now: Instant, limit: nat, slots: seq<Slot>)
    requires ClaimsEarliest(book, now, limit, slots)
    ensures Due(Claim(book, SlotSet(slots), now), now) == Due(book, now) - SlotSet(slots)
    ensures |Due(Claim(book, SlotSet(slots), now), now)|
      == |Due(book, now)| - (if limit < |Due(book, now)| then limit else |Due(book, now)|)
  {
    DistinctSize(slots);
    assert SlotSet(slots) <= Due(book, now);
  }

  lemma {:induction false} DistinctSize(slots: seq<Slot>)
    requires forall i, j :: 0 <= i < j < |slots| ==> slots[i] != slots[j]
    ensures |SlotSet(slots)| == |slots|
  {
    if slots != [] {
      var n := |slots| - 1;
      DistinctSize(slots[..n]);
      assert SlotSet(slots) == SlotSet(slots[..n]) + {slots[n]};
    }
  }

  // Repeated claims at one moment empty the due fires in exactly as many calls as `limit` divides
  // them into, rounding up.
  lemma {:induction false} ClaimsDrain(run: seq<Book>, claims: seq<seq<Slot>>, now: Instant, limit: nat)
    requires |run| == |claims| + 1
    requires forall i :: 0 <= i < |claims| ==> ClaimsEarliest(run[i], now, limit, claims[i])
    requires forall i, next :: 0 <= i < |claims| && next == i + 1 ==>
      run[next] == Claim(run[i], SlotSet(claims[i]), now)
    ensures |Due(run[|claims|], now)| == LeftAfter(|Due(run[0], now)|, limit, |claims|)
    ensures Due(run[|claims|], now) == {} <==> |claims| * limit >= |Due(run[0], now)|
  {
    DrainedExactly(|Due(run[0], now)|, limit, |claims|);
    hide ClaimsEarliest, ReminderBooks.Claim, Due;
    if claims != [] {
      var n := |claims| - 1;
      ClaimsDrain(run[..n + 1], claims[..n], now, limit);
      DueAfterClaim(run[n], now, limit, claims[n]);
      var next := n + 1;
      assert run[next] == Claim(run[n], SlotSet(claims[n]), now);
    }
  }

  method ClaimRows(t: Tables, now: Instant, limit: nat) returns (claimed: seq<Delivery>, tx: Tables)
    requires Linked(t) && Sound(BookOf(t))
    ensures Linked(tx) && KeepsRows(t, tx)
    ensures forall d <- claimed :: Describes(t, d) && d.firedAt == now
    ensures ClaimsEarliest(BookOf(t), now, limit, DeliveredSlots(t, claimed))
    ensures BookOf(tx) == Claim(BookOf(t), SlotSet(DeliveredSlots(t, claimed)), now)
    ensures Sound(BookOf(tx)) && Progress(BookOf(t), BookOf(tx))
  {
    hide Linked, Registry, Slots, SlotOf, KeepsRows, Coherent, Progress, IsEarliest, ClaimsEarliest,
         ReminderBooks.Claim,
         NamedSlots, DueFires, HousingTermsKnown, ClientTermsEmpty;
    var picked := Earliest<Id>(DueFires(t, now), limit);
    PickedAreDue(t, now, limit, picked);
    claimed := Deliveries(t, picked, now);
    tx := t;
    KeepsRowsReflexive(t);
    ClaimNothing(BookOf(t), now);
    assert SlotSet(NamedSlots(t, picked[..0])) == {};
    for i := 0 to |claimed|
      invariant Linked(tx) && KeepsRows(t, tx)
      invariant tx.targets == t.targets && tx.fires.Keys == t.fires.Keys
      invariant forall j :: i <= j < |picked| ==> tx.fires[picked[j]] == t.fires[picked[j]]
      invariant BookOf(tx) == Claim(BookOf(t), SlotSet(NamedSlots(t, picked[..i])), now)
    {
      hide Describes, Sound;
      var f := claimed[i].fire;
      assert f == picked[i] && f in picked;
      ghost var was := tx;
      MarkFiredMeaning(t, tx, picked, i, now);
      tx := PutFire(tx, f, tx.fires[f].(status := StatusFired, firedAt := Some(now)));
      KeepsRowsTransitive(t, was, tx);
    }
    assert picked[..|claimed|] == picked == FireIds(claimed);
    ClaimedSound(BookOf(t), now, limit, NamedSlots(t, picked));
  }

  method ListRows(t: Tables, recipient: Bytes, limit: nat) returns (out: seq<Delivery>)
    requires Linked(t)
    ensures forall d <- out :: Describes(t, d)
    ensures ListsEarliest(BookOf(t), recipient, limit, DeliveredSlots(t, out))
    ensures forall i :: 0 <= i < |out| ==> out[i].firedAt == FiredTime(BookOf(t), DeliveredSlots(t, out)[i])
  {
    hide Linked, Registry, Slots, SlotOf, FirstSlots, NamedSlots, FiredTime, IsEarliest;
    var when := UndeliveredFires(t, recipient);
    UndeliveredFiresAre(t, recipient);
    var picked := Earliest<Id>(when, limit);
    EarliestSlots(t, when, FiredTimes(BookOf(t)), limit, picked);
    EarliestIn<Id>(when, limit, picked);
    out := [];
    for i := 0 to |picked|
      invariant FireIds(out) == picked[..i]
      invariant forall d <- out :: Describes(t, d) && d.fire in when && d.firedAt == when[d.fire]
    {
      var f := picked[i];
      assert f in picked;
      var target := t.targets[t.fires[f].target];
      out := out + [Delivery(f, t.fires[f].target, target.key, target.dueAt, target.recurrencePeriodDays,
        t.fires[f].firedAt.value)];
    }
    assert picked[..|picked|] == picked;
    forall i | 0 <= i < |out| ensures out[i].firedAt == FiredTime(BookOf(t), DeliveredSlots(t, out)[i]) {
      assert out[i] in out;
    }
  }

  // ---------------------------------------------------------------------------------------------
  // The calls of the store

  datatype StoreState = StoreState(book: Book, zones: map<Bytes, string>, generations: map<Bytes, int>)

  // A claim carries the slots it answered with, an acknowledgement the slot of the fire it names.
  datatype StoreCall =
    | SetTimezone(recipient: Bytes, iana: string)
    | ReconcilePlan(plan: Bytes, generation: int, housing: seq<HousingInput>, now: Instant)
    | CancelHousing(scopeKeys: seq<Bytes>, kind: string, period: Option<Bytes>, now: Instant)
    | CancelClient(domain: string, scopeKeys: seq<Bytes>, now: Instant)
    | RecomputeFor(recipient: Bytes, now: Instant)
    | UpsertClient(client: seq<ClientInput>, now: Instant)
    | ClaimDue(now: Instant, limit: nat, slots: seq<Slot>)
    | AckFire(recipient: Bytes, slot: Option<Slot>, now: Instant)

  function DirectoryOf(zones: map<Bytes, string>, load: string -> Option<Zone>): Bytes -> Option<Zone> {
    recipient => ZoneIn(zones, load, recipient)
  }

  function NewestGeneration(generations: map<Bytes, int>, plan: Bytes, generation: int): map<Bytes, int> {
    generations[plan := if plan in generations && generations[plan] > generation then generations[plan] else generation]
  }

  function Recomputed(book: Book, recipient: Bytes, loc: Option<Zone>, now: Instant): Book
    requires HousingTermsKnown(book.registry) && forall k <- book.registry :: book.registry[k].key == k
  {
    if loc.None? then book
    else book.(slots := Replan(book.slots, RecomputePlan(book.registry, recipient, loc.value, now)))
  }

  // The state after a call.
  ghost function AfterCall(load: string -> Option<Zone>, st: StoreState, call: StoreCall): StoreState
    requires Sound(st.book)
  {
    var book := st.book;
    match call
    case SetTimezone(recipient, iana) => st.(zones := st.zones[recipient := iana])
    case ReconcilePlan(plan, generation, inputs, now) =>
      st.(book := Reconcile(book, plan, generation, inputs, DirectoryOf(st.zones, load), now),
          generations := NewestGeneration(st.generations, plan, generation))
    case CancelHousing(scopeKeys, kind, period, now) =>
      st.(book := Cancel(book, ScopeKeys(book.registry, HousingPayment, scopeKeys, Some((kind, period))), now))
    case CancelClient(domain, scopeKeys, now) =>
      if domain in ClientDomains then st.(book := Cancel(book, ScopeKeys(book.registry, domain, scopeKeys, None), now))
      else st
    case RecomputeFor(recipient, now) =>
      st.(book := Recomputed(book, recipient, DirectoryOf(st.zones, load)(recipient), now))
    case UpsertClient(inputs, now) =>
      if FirstRefusal(inputs).None? then st.(book := ScheduleAll(book, ClientEntries(inputs, now))) else st
    case ClaimDue(now, _, slots) => st.(book := Claim(book, SlotSet(slots), now))
    case AckFire(recipient, slot, now) =>
      if slot.Some? && slot.value in Undelivered(book, recipient) then st.(book := Acknowledge(book, slot.value, now))
      else st
  }

  // A claim answers with the earliest due slots, at most its limit.
  ghost predicate Answers(st: StoreState, call: StoreCall) {
    call.ClaimDue? ==> ClaimsEarliest(st.book, call.now, call.limit, call.slots)
  }

  class ReminderStore {
    var tables: Tables
    var zones: map<Bytes, string>
    var generations: map<Bytes, int>
    const loadLocation: string -> Option<Zone>

    ghost predicate Valid()
      reads this
    {
      Linked(tables) && Sound(BookOf(tables))
    }

    ghost function Now(): Book
      reads this
      requires Valid()
    {
      BookOf(tables)
    }

    ghost function State(): StoreState
      reads this
      requires Valid()
    {
      StoreState(BookOf(tables), zones, generations)
    }

    ghost function Directory(): Bytes -> Option<Zone>
      reads this
    {
      DirectoryOf(zones, loadLocation)
    }

    constructor (loadLocation: string -> Option<Zone>)
      ensures Valid() && Now() == Book(map[], map[]) && zones == map[] && generations == map[]
      ensures State() == StoreState(Book(map[], map[]), map[], map[])
      ensures this.loadLocation == loadLocation
    {
      EmptyTables();
      hide Linked, Registry, Slots, Sound;
      tables := Tables(map[], map[], 0);
      zones, generations := map[], map[];
      this.loadLocation := loadLocation;
    }

    method UpsertRecipientTimezone(recipient: Bytes, iana: string)
      requires Valid()
      modifies this`zones
      ensures Valid() && zones == old(zones)[recipient := iana]
      ensures State() == AfterCall(loadLocation, old(State()), SetTimezone(recipient, iana))
    {
      hide Linked, Sound, BookOf;
      zones := zones[recipient := iana];
    }

    // ------------------------------------------------------------------------------ Housing

    method UpsertHousingTargetAndFires(tx: Tables, generation: int, input: HousingInput, now: Instant)
      returns (after: Tables)
      requires Linked(tx)
      ensures Linked(after) && KeepsRows(tx, after)
      ensures BookOf(after)
        == Schedule(BookOf(tx), input.AsTarget(generation), InputInstants(input, Directory()(input.recipient), now))
    {
      hide Linked, Slots, Registry, Replan, KeepsRows, ReminderBooks.HousingInstants;
      var row := input.AsTarget(generation);
      var existing := FindTarget(tx, row.key);
      var id := if existing.Some? then existing.value else tx.issued;
      if existing.None? && tx.issued in tx.targets { RegistryAt(tx, tx.issued); }
      PutTargetMeaning(tx, id, row);
      var written := PutTarget(tx, id, row);
      var loc := ZoneIn(zones, loadLocation, input.recipient);
      var fireAts := PlanInstants(input.kind, input.dueAt, input.recurrencePeriodDays, input.boundAt, loc, now);
      after := ReplanTarget(written, id, fireAts);
      KeepsRowsTransitive(tx, written, after);
      assert Members(fireAts) == InputInstants(input, loc, now);
    }

    // Replace the targets of a plan: cancel the active ones of older generations, then write and
    // schedule the listed ones in order.
    method ReconcileHousingPaymentPlan(plan: Bytes, generation: int, inputs: seq<HousingInput>, now: Instant)
      requires Valid()
      modifies this`tables, this`generations
      ensures Valid() && KeepsRows(old(tables), tables)
      ensures Now() == Reconcile(old(Now()), plan, generation, inputs, Directory(), now)
      ensures Progress(old(Now()), Now())
      ensures generations == NewestGeneration(old(generations), plan, generation)
      ensures State() == AfterCall(loadLocation, old(State()), ReconcilePlan(plan, generation, inputs, now))
    {
      hide Linked, Slots, Registry, KeepsRows, Coherent, Schedule, ScheduleAll, Cancel, Progress,
           ReminderBooks.InputInstants, HousingInput.AsTarget, InPlan;
      ghost var start := BookOf(tables);
      ghost var zoneOf := Directory();
      if plan !in generations || generations[plan] <= generation {
        generations := generations[plan := generation];
      }
      ghost var newest := generations;
      var superseded := (target: Target) => Superseded(target, plan, generation);
      ghost var hit := SupersededKeys(start.registry, plan, generation);
      assert KeysWhere(start.registry, superseded) == hit;
      var tx := MarkCancelled(tables, superseded, now);
      ghost var marked := tx;
      tx := WithdrawCancelled(tx, None, start, hit, now);
      KeepsRowsTransitive(tables, marked, tx);
      ghost var cancelled := BookOf(tx);
      ghost var entries := HousingEntries(inputs, generation, zoneOf, now);
      NoEntries(cancelled);
      for i := 0 to |inputs|
        invariant tables == old(tables) && generations == newest
        invariant Linked(tx) && KeepsRows(tables, tx)
        invariant BookOf(tx) == ScheduleAll(cancelled, entries[..i])
      {
        ghost var was := tx;
        tx := UpsertHousingTargetAndFires(tx, generation, inputs[i], now);
        KeepsRowsTransitive(tables, was, tx);
        OneMoreEntry(cancelled, entries, i);
      }
      assert entries[..|inputs|] == entries;
      ReconcileSound(start, plan, generation, inputs, zoneOf, now);
      ReconcileProgress(start, plan, generation, inputs, zoneOf, now);
      tables := tx;
    }

    // Cancel the targets of these scope keys, kind and period.
    method CancelHousingPaymentTargets(scopeKeys: seq<Bytes>, reminderKind: string, periodKey: Option<Bytes>,
                                       now: Instant)
      requires Valid()
      modifies this`tables
      ensures Valid() && KeepsRows(old(tables), tables) && Progress(old(Now()), Now())
      ensures Now()
        == Cancel(old(Now()),
          ScopeKeys(old(Now()).registry, HousingPayment, scopeKeys, Some((reminderKind, periodKey))), now)
      ensures State() == AfterCall(loadLocation, old(State()), CancelHousing(scopeKeys, reminderKind, periodKey, now))
    {
      hide Linked, Registry, Slots, KeepsRows, Sound, Cancel, Progress, ScopeKeys;
      CancelScopes(HousingPayment, scopeKeys, Some((reminderKind, periodKey)), None, now);
    }

    // Cancel all targets of these scope keys in a client domain.
    method CancelClientScheduledByScope(domain: string, scopeKeys: seq<Bytes>, now: Instant)
      returns (refusal: Option<string>)
      requires Valid()
      modifies this`tables
      ensures Valid() && KeepsRows(old(tables), tables) && Progress(old(Now()), Now())
      ensures refusal == if domain in ClientDomains then None else Some("unsupported_domain")
      ensures Now() == if refusal.None?
        then Cancel(old(Now()), ScopeKeys(old(Now()).registry, domain, scopeKeys, None), now) else old(Now())
      ensures State() == AfterCall(loadLocation, old(State()), CancelClient(domain, scopeKeys, now))
    {
      hide Linked, Registry, Slots, KeepsRows, Sound, Cancel, Progress, ScopeKeys;
      if domain !in ClientDomains {
        KeepsRowsReflexive(tables);
        ProgressReflexive(BookOf(tables));
        return Some("unsupported_domain");
      }
      CancelScopes(domain, scopeKeys, None, Some(domain), now);
      refusal := None;
    }

    method CancelScopes(domain: string, scopeKeys: seq<Bytes>, only: Option<(string, Option<Bytes>)>,
                        withdrawn: Option<string>, now: Instant)
      requires Valid()
      requires withdrawn.Some? ==> withdrawn.value == domain
      modifies this`tables
      ensures Valid() && KeepsRows(old(tables), tables) && Progress(old(Now()), Now())
      ensures Now() == Cancel(old(Now()), ScopeKeys(old(Now()).registry, domain, scopeKeys, only), now)
    {
      hide Linked, Registry, Slots, KeepsRows, Coherent, Cancel, CancelKeys, Progress;
      ghost var start := BookOf(tables);
      ghost var hit := ScopeKeys(start.registry, domain, scopeKeys, only);
      var tx := MarkScopes(tables, domain, scopeKeys, only, now);
      ghost var marked := tx;
      tx := WithdrawCancelled(tx, withdrawn, start, hit, now);
      KeepsRowsTransitive(tables, marked, tx);
      CancelSound(start, hit, now);
      CancelProgress(start, hit, now);
      tables := tx;
    }

    // After a change of time zone: withdraw and recompute the fires of every active housing target
    // of one recipient.
    method RecomputePendingHousingFiresForRecipient(recipient: Bytes, now: Instant)
      requires Valid()
      modifies this`tables
      ensures Valid() && KeepsRows(old(tables), tables) && Progress(old(Now()), Now())
      ensures Now() == Recomputed(old(Now()), recipient, Directory()(recipient), now)
      ensures State() == AfterCall(loadLocation, old(State()), RecomputeFor(recipient, now))
    {
      hide Linked, Registry, Slots, KeepsRows, Coherent, Progress, Replan, ReminderBooks.HousingInstants;
      ghost var start := BookOf(tables);
      KeepsRowsReflexive(tables);
      ProgressReflexive(start);
      var loc := ZoneIn(zones, loadLocation, recipient);
      if loc.None? { return; }
      var active := (target: Target) => ActiveHousing(target, recipient);
      var rest := RowsWhere(tables, active);
      WhereNamesKeys(tables, active);
      CoherentKeys(start);
      ghost var plan := RecomputePlan(start.registry, recipient, loc.value, now);
      assert KeysWhere(start.registry, active) == plan.Keys;
      ghost var done: set<TargetKey> := {};
      var tx := tables;
      ReplanNothing(start.slots, plan);
      while rest != {}
        invariant tables == old(tables) && rest <= tables.targets.Keys
        invariant Linked(tx) && KeepsRows(tables, tx) && tx.targets == tables.targets && Registry(tx) == start.registry
        invariant done !! KeysOf(tables, rest) && done + KeysOf(tables, rest) == plan.Keys
        invariant Slots(tx) == Replan(start.slots, Restrict(plan, done))
        decreases rest
      {
        var id :| id in rest;
        ghost var was := tx;
        var target := tx.targets[id];
        RegistryAt(tables, id);
        KeysOfHit(tables, rest, id);
        var fireAts :=
          PlanInstants(target.key.kind, target.dueAt.value, target.recurrencePeriodDays.value, target.boundAt, loc,
            now);
        tx := ReplanTarget(tx, id, fireAts);
        KeepsRowsTransitive(tables, was, tx);
        assert Members(fireAts) == plan[target.key];
        ReplanOneMore(start.slots, plan, done, target.key);
        KeysWithout(tables, rest, id);
        rest := rest - {id};
        done := done + {target.key};
      }
      assert Restrict(plan, done) == plan;
      RecomputeSound(start, recipient, loc.value, now);
      ReplanProgress(start, start.registry, plan);
      tables := tx;
    }

    // ------------------------------------------------------------------------------ Client lists

    // Write one client target and replace its pending fires by the listed instants still to come.
    method UpsertClientTarget(tx: Tables, input: ClientInput, now: Instant) returns (after: Tables)
      requires Linked(tx) && Sound(BookOf(tx))
      requires input.domain in ClientDomains
      ensures Linked(after) && KeepsRows(tx, after)
      ensures BookOf(after) == Schedule(BookOf(tx), input.AsEntry(now).target, input.AsEntry(now).instants)
    {
      hide Linked, Slots, Registry, Replan, KeepsRows, KeepAfter;
      var generation := if input.generation == 0 then 1 else input.generation;
      var existing := FindTarget(tx, input.Key());
      var future := KeepAfter(input.fireAts, now);
      assert Members(future) == input.AsEntry(now).instants;
      if existing.None? {
        var row := Target(input.Key(), None, input.dueAt, None, generation, None, None);
        if tx.issued in tx.targets { RegistryAt(tx, tx.issued); }
        PutTargetMeaning(tx, tx.issued, row);
        var written := PutTarget(tx, tx.issued, row);
        after := InsertFires(written, tx.issued, future);
        KeepsRowsTransitive(tx, written, after);
        AddToUnknown(BookOf(tx), row.key, Members(future));
      } else {
        var id := existing.value;
        var row := tx.targets[id].(dueAt := input.dueAt, generation := generation, cancelledAt := None);
        PutTargetMeaning(tx, id, row);
        var written := PutTarget(tx, id, row);
        after := ReplanTarget(written, id, future);
        KeepsRowsTransitive(tx, written, after);
      }
    }

    // All listed targets, or none: one refused target abandons the whole request.
    method UpsertClientScheduledFires(inputs: seq<ClientInput>, now: Instant) returns (refusal: Option<string>)
      requires Valid()
      modifies this`tables
      ensures Valid() && KeepsRows(old(tables), tables) && Progress(old(Now()), Now())
      ensures refusal == FirstRefusal(inputs)
      ensures Now() == if refusal.None? then ScheduleAll(old(Now()), ClientEntries(inputs, now)) else old(Now())
      ensures State() == AfterCall(loadLocation, old(State()), UpsertClient(inputs, now))
    {
      hide Linked, Registry, Slots, KeepsRows, Sound, Schedule, Progress, ClientInput.AsEntry;
      ghost var start := BookOf(tables);
      ghost var entries := ClientEntries(inputs, now);
      KeepsRowsReflexive(tables);
      ProgressReflexive(start);
      var tx := tables;
      for i := 0 to |inputs|
        invariant tables == old(tables)
        invariant forall j :: 0 <= j < i ==> inputs[j].Refusal() == None
        invariant Linked(tx) && KeepsRows(tables, tx)
        invariant BookOf(tx) == ScheduleAll(start, entries[..i])
      {
        refusal := inputs[i].Refusal();
        if refusal.Some? {
          FirstRefusalIs(inputs, i);
          return;
        }
        ClientEntriesSound(start, inputs, i, now);
        ghost var was := tx;
        tx := UpsertClientTarget(tx, inputs[i], now);
        KeepsRowsTransitive(tables, was, tx);
        assert entries[..i + 1][..i] == entries[..i];
      }
      NoRefusal(inputs);
      refusal := None;
      assert entries[..|inputs|] == entries;
      ClientEntriesSound(start, inputs, |inputs|, now);
      ScheduleAllProgress(start, entries);
      tables := tx;
    }

    // ------------------------------------------------------------------------------ Delivery

    // Mark the earliest due fires as fired, at most `limit` of them, and return them.
    method ClaimDueReminderFires(now: Instant, limit: nat) returns (claimed: seq<Delivery>)
      requires Valid()
      modifies this`tables
      ensures Valid() && KeepsRows(old(tables), tables) && Progress(old(Now()), Now())
      ensures forall d <- claimed :: Describes(old(tables), d) && d.firedAt == now
      ensures ClaimsEarliest(old(Now()), now, limit, DeliveredSlots(old(tables), claimed))
      ensures Now() == Claim(old(Now()), SlotSet(DeliveredSlots(old(tables), claimed)), now)
      ensures var call := ClaimDue(now, limit, DeliveredSlots(old(tables), claimed));
              Answers(old(State()), call) && State() == AfterCall(loadLocation, old(State()), call)
    {
      hide Linked, Registry, Slots, KeepsRows, Sound, Progress, ClaimsEarliest, ReminderBooks.Claim, NamedSlots,
           Describes;
      claimed, tables := ClaimRows(tables, now, limit);
    }

    // What has fired for a recipient and is not acknowledged, in the order it fired.
    method ListUndeliveredReminderFires(recipient: Bytes, limit: nat) returns (out: seq<Delivery>)
      requires Valid()
      ensures forall d <- out :: Describes(tables, d)
      ensures ListsEarliest(Now(), recipient, limit, DeliveredSlots(tables, out))
      ensures forall i :: 0 <= i < |out| ==> out[i].firedAt == FiredTime(Now(), DeliveredSlots(tables, out)[i])
    {
      hide Linked, Registry, Slots, SlotOf, Sound, ListsEarliest, NamedSlots, FiredTime, Describes;
      out := ListRows(tables, recipient, limit);
    }

    // Acknowledge a delivery: it succeeds once, for the recipient, after the fire.
    method AckReminderFireDelivery(recipient: Bytes, fire: Id, now: Instant) returns (ok: bool)
      requires Valid()
      modifies this`tables
      ensures Valid() && KeepsRows(old(tables), tables) && Progress(old(Now()), Now())
      ensures ok <==> fire in old(tables).fires && SlotOf(old(tables), fire) in Undelivered(old(Now()), recipient)
      ensures Now() == if ok then Acknowledge(old(Now()), SlotOf(old(tables), fire), now) else old(Now())
      ensures var slot := if fire in old(tables).fires then Some(SlotOf(old(tables), fire)) else None;
              State() == AfterCall(loadLocation, old(State()), AckFire(recipient, slot, now))
    {
      hide Linked, Registry, Slots, SlotOf, KeepsRows, Coherent, Progress;
      ghost var start := BookOf(tables);
      KeepsRowsReflexive(tables);
      ProgressReflexive(start);
      if fire in tables.fires { SlotsAt(tables, fire); }
      ok := fire in tables.fires && tables.fires[fire].recipient == recipient
            && tables.fires[fire].status == StatusFired && tables.fires[fire].deliveryAckAt.None?;
      if ok {
        ghost var s := SlotOf(tables, fire);
        var row := tables.fires[fire].(deliveryAckAt := Some(now));
        PutFireMeaning(tables, fire, row);
        AcknowledgeProgress(start, s, now);
        AcknowledgeKeepsCoherent(start, s, now);
        tables := PutFire(tables, fire, row);
      }
    }
  }
}
