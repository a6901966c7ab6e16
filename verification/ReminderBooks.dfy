// What the reminder tables mean: the target registered under each natural key, and the outcome of
// each (target, instant) slot.  Each operation of the store has its meaning here, on values.
module ReminderBooks {
  import opened Wrappers
  import opened FireTimes
  import opened ByteStrings

  const HousingPayment := "housing_payment"
  const Separator: Byte := 31

  datatype TargetKey = TargetKey(domain: string, scope: Bytes, recipient: Bytes, kind: string, period: Option<Bytes>)

  datatype Target = Target(
    key: TargetKey,
    recurrencePeriodDays: Option<int>,
    dueAt: Option<Instant>,
    boundAt: Option<Instant>,
    generation: int,
    planGeneration: Option<int>,
    cancelledAt: Option<Instant>)

  datatype Slot = Slot(key: TargetKey, at: Instant)

  datatype Outcome = Pending | Fired(at: Instant, ackedAt: Option<Instant>) | Cancelled

  datatype Book = Book(registry: map<TargetKey, Target>, slots: map<Slot, Outcome>)

  // Every slot belongs to a registered target; a pending one to a target that is not cancelled; a
  // fired one did not fire early.
  ghost predicate Coherent(book: Book) {
    && (forall k <- book.registry :: book.registry[k].key == k)
    && forall s <- book.slots ::
         && s.key in book.registry
         && (book.slots[s].Pending? ==> book.registry[s.key].cancelledAt.None?)
         && (book.slots[s].Fired? ==> s.at <= book.slots[s].at)
  }

  // ---------------------------------------------------------------------------------------------
  // Operations

  function Withdraw(o: Outcome): Outcome {
    if o.Pending? then Cancelled else o
  }

  // Drop what is pending for the planned keys and schedule the planned instants, except those that
  // already have a slot: these keep their outcome, so a withdrawn instant is never revived.
  function Replan(slots: map<Slot, Outcome>, plan: map<TargetKey, set<Instant>>): map<Slot, Outcome> {
    var planned := set k, t | k in plan && t in plan[k] :: Slot(k, t);
    map s | s in slots.Keys + planned ::
      if s !in slots then Pending
      else if s.key in plan then Withdraw(slots[s])
      else slots[s]
  }

  function Schedule(book: Book, target: Target, instants: set<Instant>): Book {
    Book(book.registry[target.key := target], Replan(book.slots, map[target.key := instants]))
  }

  // One listed target with the instants worked out for it; a list is applied in order.
  datatype Entry = Entry(target: Target, instants: set<Instant>)

  function ScheduleAll(book: Book, entries: seq<Entry>): Book {
    if entries == [] then book
    else
      var last := entries[|entries| - 1];
      Schedule(ScheduleAll(book, entries[..|entries| - 1]), last.target, last.instants)
  }

  function CancelKeys(registry: map<TargetKey, Target>, hit: set<TargetKey>, now: Instant): map<TargetKey, Target> {
    map k | k in registry ::
      if k in hit && registry[k].cancelledAt.None? then registry[k].(cancelledAt := Some(now)) else registry[k]
  }

  function Cancel(book: Book, hit: set<TargetKey>, now: Instant): Book {
    Book(CancelKeys(book.registry, hit, now),
         map s | s in book.slots :: if s.key in hit then Withdraw(book.slots[s]) else book.slots[s])
  }

  function Due(book: Book, now: Instant): set<Slot> {
    set s | s in book.slots && book.slots[s].Pending? && s.at <= now
  }

  function Claim(book: Book, claimed: set<Slot>, now: Instant): Book {
    book.(slots := map s | s in book.slots :: if s in claimed then Fired(now, None) else book.slots[s])
  }

  function Undelivered(book: Book, recipient: Bytes): set<Slot> {
    set s | s in book.slots && book.slots[s].Fired? && book.slots[s].ackedAt.None? && s.key.recipient == recipient
  }

  function Acknowledge(book: Book, s: Slot, now: Instant): Book
    requires s in book.slots && book.slots[s].Fired?
  {
    book.(slots := book.slots[s := book.slots[s].(ackedAt := Some(now))])
  }

  function PendingAt(book: Book, key: TargetKey): set<Instant> {
    set s | s in book.slots && s.key == key && book.slots[s].Pending? :: s.at
  }

  function TakenAt(book: Book, key: TargetKey): set<Instant> {
    set s | s in book.slots && s.key == key :: s.at
  }

  // ---------------------------------------------------------------------------------------------
  // Housing payment targets

  datatype HousingInput = HousingInput(
    scope: Bytes, recipient: Bytes, kind: string, period: Bytes,
    recurrencePeriodDays: int, dueAt: Instant, boundAt: Option<Instant>)
  {
    function Key(): TargetKey {
      TargetKey(HousingPayment, scope, recipient, kind, Some(period))
    }

    function AsTarget(generation: int): Target {
      Target(Key(), Some(recurrencePeriodDays), Some(dueAt), boundAt, generation, Some(generation), None)
    }
  }

  // The instants to fire at; none while the recipient has no known time zone.
  function HousingInstants(kind: string, dueAt: Instant, recurrencePeriodDays: int, boundAt: Option<Instant>,
                           loc: Option<Zone>, now: Instant): seq<Instant>
  {
    if loc.None? then []
    else if kind == "before_due" then BeforeDateFires(dueAt, recurrencePeriodDays, loc, now)
    else if kind == "overdue" then
      match HousingOverdueFire(dueAt, loc, now)
      case Some(t) => if boundAt.None? || t <= boundAt.value then [t] else []
      case None => []
    else []
  }

  function InputInstants(input: HousingInput, loc: Option<Zone>, now: Instant): set<Instant> {
    set t | t in HousingInstants(input.kind, input.dueAt, input.recurrencePeriodDays, input.boundAt, loc, now)
  }

  // A scope key belongs to a plan when the plan id and the separator byte start it.
  predicate InPlan(plan: Bytes, scope: Bytes) {
    |scope| > |plan| && scope[..|plan|] == plan && scope[|plan|] == Separator
  }

  predicate Superseded(target: Target, plan: Bytes, generation: int) {
    && target.key.domain == HousingPayment
    && InPlan(plan, target.key.scope)
    && target.cancelledAt.None?
    && (target.planGeneration.None? || target.planGeneration.value < generation)
  }

  function SupersededKeys(registry: map<TargetKey, Target>, plan: Bytes, generation: int): set<TargetKey> {
    set k | k in registry && Superseded(registry[k], plan, generation)
  }

  function HousingEntries(inputs: seq<HousingInput>, generation: int, zoneOf: Bytes -> Option<Zone>,
                          now: Instant): (entries: seq<Entry>)
    ensures |entries| == |inputs|
    ensures forall i :: 0 <= i < |inputs| ==>
      entries[i] == Entry(inputs[i].AsTarget(generation), InputInstants(inputs[i], zoneOf(inputs[i].recipient), now))
  {
    seq(|inputs|, i requires 0 <= i < |inputs| =>
      Entry(inputs[i].AsTarget(generation), InputInstants(inputs[i], zoneOf(inputs[i].recipient), now)))
  }

  function Reconcile(book: Book, plan: Bytes, generation: int, inputs: seq<HousingInput>,
                     zoneOf: Bytes -> Option<Zone>, now: Instant): Book {
    ScheduleAll(Cancel(book, SupersededKeys(book.registry, plan, generation), now),
      HousingEntries(inputs, generation, zoneOf, now))
  }

  predicate ActiveHousing(target: Target, recipient: Bytes) {
    target.key.domain == HousingPayment && target.key.recipient == recipient && target.cancelledAt.None?
  }

  ghost predicate HousingTermsKnown(registry: map<TargetKey, Target>) {
    forall k <- registry :: k.domain == HousingPayment ==>
      registry[k].dueAt.Some? && registry[k].recurrencePeriodDays.Some?
  }

  function TargetInstants(target: Target, zone: Zone, now: Instant): set<Instant>
    requires target.dueAt.Some? && target.recurrencePeriodDays.Some?
  {
    set t | t in HousingInstants(target.key.kind, target.dueAt.value, target.recurrencePeriodDays.value,
      target.boundAt, Some(zone), now)
  }

  function RecomputePlan(registry: map<TargetKey, Target>, recipient: Bytes, zone: Zone,
                         now: Instant): map<TargetKey, set<Instant>>
    requires HousingTermsKnown(registry)
    requires forall k <- registry :: registry[k].key == k
  {
    map k | k in registry && ActiveHousing(registry[k], recipient) :: TargetInstants(registry[k], zone, now)
  }

  // ---------------------------------------------------------------------------------------------
  // Targets whose instants the client lists

  const ClientDomains := {"contacts_invitation_expiry", "housing_proposal_deadline", "vehicle_sharing_deadline"}
  const ClientKinds := {"before_expiry", "expired", "before_deadline"}

  datatype ClientInput = ClientInput(
    domain: string, scope: Bytes, recipient: Bytes, kind: string, period: Bytes,
    dueAt: Option<Instant>, generation: int, fireAts: seq<Instant>)
  {
    function Key(): TargetKey {
      TargetKey(domain, scope, recipient, kind, if period == [] then None else Some(period))
    }

    function Refusal(): Option<string> {
      if domain !in ClientDomains then Some("unsupported_domain")
      else if kind !in ClientKinds then Some("unsupported_reminder_kind")
      else if scope == [] || recipient == [] then Some("missing_scope_or_recipient")
      else None
    }

    function AsEntry(now: Instant): Entry {
      Entry(Target(Key(), None, dueAt, None, if generation == 0 then 1 else generation, None, None),
            set t | t in fireAts && t > now)
    }
  }

  function ClientEntries(inputs: seq<ClientInput>, now: Instant): (entries: seq<Entry>)
    ensures |entries| == |inputs|
    ensures forall i :: 0 <= i < |inputs| ==> entries[i] == inputs[i].AsEntry(now)
  {
    seq(|inputs|, i requires 0 <= i < |inputs| => inputs[i].AsEntry(now))
  }

  // Only housing targets carry the columns that client targets leave empty.
  ghost predicate ClientTermsEmpty(registry: map<TargetKey, Target>) {
    forall k <- registry :: k.domain != HousingPayment ==>
      registry[k].recurrencePeriodDays.None? && registry[k].boundAt.None? && registry[k].planGeneration.None?
  }

  // ---------------------------------------------------------------------------------------------
  // Every operation keeps a coherent book

  lemma ReplanSlots(slots: map<Slot, Outcome>, plan: map<TargetKey, set<Instant>>, s: Slot)
    ensures s in Replan(slots, plan) <==> s in slots || (s.key in plan && s.at in plan[s.key])
    ensures s in slots ==> Replan(slots, plan)[s] == if s.key in plan then Withdraw(slots[s]) else slots[s]
    ensures s in Replan(slots, plan) && s !in slots ==> Replan(slots, plan)[s] == Pending
  {
    if s.key in plan && s.at in plan[s.key] {
      assert s == Slot(s.key, s.at);
    }
  }

  lemma ReplanKeepsCoherent(book: Book, plan: map<TargetKey, set<Instant>>)
    requires Coherent(book)
    requires forall k <- plan :: k in book.registry && book.registry[k].cancelledAt.None?
    ensures Coherent(book.(slots := Replan(book.slots, plan)))
  {
    hide Replan;
    forall s <- Replan(book.slots, plan) ensures s.key in book.registry { ReplanSlots(book.slots, plan, s); }
    var after := book.(slots := Replan(book.slots, plan));
    forall s | s in after.slots
      ensures (after.slots[s].Pending? ==> after.registry[s.key].cancelledAt.None?)
           && (after.slots[s].Fired? ==> s.at <= after.slots[s].at)
    {
      ReplanSlots(book.slots, plan, s);
    }
  }

  lemma ScheduleKeepsCoherent(book: Book, target: Target, instants: set<Instant>)
    requires Coherent(book) && target.cancelledAt.None?
    ensures Coherent(Schedule(book, target, instants))
  {
    ReplanKeepsCoherent(Book(book.registry[target.key := target], book.slots), map[target.key := instants]);
  }

  lemma CancelKeepsCoherent(book: Book, hit: set<TargetKey>, now: Instant)
    requires Coherent(book)
    ensures Coherent(Cancel(book, hit, now))
  {
  }

  lemma ClaimKeepsCoherent(book: Book, claimed: set<Slot>, now: Instant)
    requires Coherent(book) && claimed <= Due(book, now)
    ensures Coherent(Claim(book, claimed, now))
  {
  }

  lemma {:induction false} ScheduleAllKeepsCoherent(book: Book, entries: seq<Entry>)
    requires Coherent(book) && forall e <- entries :: e.target.cancelledAt.None?
    ensures Coherent(ScheduleAll(book, entries))
  {
    hide Coherent, Schedule;
    if entries != [] {
      var last := entries[|entries| - 1];
      ScheduleAllKeepsCoherent(book, entries[..|entries| - 1]);
      assert last in entries;
      ScheduleKeepsCoherent(ScheduleAll(book, entries[..|entries| - 1]), last.target, last.instants);
    }
  }

  // ---------------------------------------------------------------------------------------------
  // Outcomes only move forward

  // Pending may become anything; fired stays fired at the same instant and is acknowledged once;
  // cancelled is final.
  predicate Moves(o: Outcome, p: Outcome) {
    match o
    case Pending => true
    case Fired(at, None) => p.Fired? && p.at == at
    case Fired(at, Some(_)) => p == o
    case Cancelled => p == o
  }

  ghost predicate Progress(before: Book, after: Book) {
    && before.registry.Keys <= after.registry.Keys
    && forall s <- before.slots :: s in after.slots && Moves(before.slots[s], after.slots[s])
  }

  lemma ProgressTransitive(a: Book, b: Book, c: Book)
    requires Progress(a, b) && Progress(b, c)
    ensures Progress(a, c)
  {
    forall s <- a.slots ensures s in c.slots && Moves(a.slots[s], c.slots[s]) {
      assert Moves(a.slots[s], b.slots[s]) && Moves(b.slots[s], c.slots[s]);
    }
  }

  lemma ReplanProgress(book: Book, registry: map<TargetKey, Target>, plan: map<TargetKey, set<Instant>>)
    requires book.registry.Keys <= registry.Keys
    ensures Progress(book, Book(registry, Replan(book.slots, plan)))
  {
    hide Replan;
    forall s <- book.slots ensures s in Replan(book.slots, plan) && Moves(book.slots[s], Replan(book.slots, plan)[s]) {
      ReplanSlots(book.slots, plan, s);
    }
  }

  lemma CancelProgress(book: Book, hit: set<TargetKey>, now: Instant)
    ensures Progress(book, Cancel(book, hit, now))
  {
  }

  lemma {:induction false} ScheduleAllProgress(book: Book, entries: seq<Entry>)
    ensures Progress(book, ScheduleAll(book, entries))
  {
    if entries != [] {
      hide Progress, Replan;
      var last := entries[|entries| - 1];
      var before := ScheduleAll(book, entries[..|entries| - 1]);
      ScheduleAllProgress(book, entries[..|entries| - 1]);
      ReplanProgress(before, before.registry[last.target.key := last.target], map[last.target.key := last.instants]);
      ProgressTransitive(book, before, ScheduleAll(book, entries));
    } else {
      ProgressReflexive(book);
    }
  }

  lemma ReconcileProgress(book: Book, plan: Bytes, generation: int, inputs: seq<HousingInput>,
                          zoneOf: Bytes -> Option<Zone>, now: Instant)
    ensures Progress(book, Reconcile(book, plan, generation, inputs, zoneOf, now))
  {
    hide Progress, Cancel, ScheduleAll;
    var hit := SupersededKeys(book.registry, plan, generation);
    CancelProgress(book, hit, now);
    ScheduleAllProgress(Cancel(book, hit, now), HousingEntries(inputs, generation, zoneOf, now));
    ProgressTransitive(book, Cancel(book, hit, now), Reconcile(book, plan, generation, inputs, zoneOf, now));
  }

  lemma ReconcileKeepsCoherent(book: Book, plan: Bytes, generation: int, inputs: seq<HousingInput>,
                               zoneOf: Bytes -> Option<Zone>, now: Instant)
    requires Coherent(book)
    ensures Coherent(Reconcile(book, plan, generation, inputs, zoneOf, now))
  {
    hide Coherent, Cancel, ScheduleAll;
    var hit := SupersededKeys(book.registry, plan, generation);
    CancelKeepsCoherent(book, hit, now);
    ScheduleAllKeepsCoherent(Cancel(book, hit, now), HousingEntries(inputs, generation, zoneOf, now));
  }

  lemma ClaimProgress(book: Book, claimed: set<Slot>, now: Instant)
    requires claimed <= Due(book, now)
    ensures Progress(book, Claim(book, claimed, now))
  {
  }

  lemma AcknowledgeProgress(book: Book, s: Slot, now: Instant)
    requires s in Undelivered(book, s.key.recipient)
    ensures Progress(book, Acknowledge(book, s, now))
  {
  }

  // ---------------------------------------------------------------------------------------------
  // Whole runs

  ghost predicate IsRun(run: seq<Book>) {
    forall i, next :: 0 <= i && next == i + 1 && next < |run| ==> Progress(run[i], run[next])
  }

  lemma {:induction false} RunProgress(run: seq<Book>, i: nat, j: nat)
    requires IsRun(run) && i <= j < |run|
    ensures Progress(run[i], run[j])
    decreases j - i
  {
    hide Progress;
    if i == j {
      ProgressReflexive(run[i]);
    } else {
      RunProgress(run, i, j - 1);
      var next := j;
      assert Progress(run[j - 1], run[next]);
      ProgressTransitive(run[i], run[j - 1], run[j]);
    }
  }

  lemma ProgressReflexive(book: Book)
    ensures Progress(book, book)
  {
  }

  // A slot fires in at most one step of a run and is acknowledged in at most one step; once fired,
  // acknowledged or cancelled it is never pending again.
  lemma FiredAndAckedOnce(run: seq<Book>, i: nat, i': nat, j: nat, j': nat, s: Slot)
    requires IsRun(run) && i' == i + 1 && j' == j + 1 && i < j && j' < |run|
    requires s in run[i].slots && s in run[j].slots && s in run[i'].slots && s in run[j'].slots
    ensures run[i].slots[s].Pending? && run[i'].slots[s].Fired? ==>
      !(run[j].slots[s].Pending? && run[j'].slots[s].Fired?)
    ensures (run[i].slots[s].Fired? && run[i].slots[s].ackedAt.None? && run[i'].slots[s].Fired?
      && run[i'].slots[s].ackedAt.Some?) ==>
      run[j].slots[s] == run[j'].slots[s] == run[i'].slots[s]
    ensures !run[i].slots[s].Pending? ==> !run[j].slots[s].Pending?
  {
    hide IsRun;
    RunProgress(run, i', j);
    RunProgress(run, i', j');
    RunProgress(run, i, j);
  }

  // ---------------------------------------------------------------------------------------------
  // The exact pending set

  lemma SchedulePending(book: Book, target: Target, instants: set<Instant>, key: TargetKey)
    ensures PendingAt(Schedule(book, target, instants), key)
         == if key == target.key then instants - TakenAt(book, key) else PendingAt(book, key)
    ensures TakenAt(Schedule(book, target, instants), key)
         == if key == target.key then instants + TakenAt(book, key) else TakenAt(book, key)
  {
    hide Replan, PendingAt, TakenAt;
    var plan := map[target.key := instants];
    var after := Schedule(book, target, instants);
    forall t
      ensures t in PendingAt(after, key) <==>
        t in if key == target.key then instants - TakenAt(book, key) else PendingAt(book, key)
      ensures t in TakenAt(after, key) <==>
        t in if key == target.key then instants + TakenAt(book, key) else TakenAt(book, key)
    {
      SlotMembers(book, key, t);
      SlotMembers(after, key, t);
      ReplanSlots(book.slots, plan, Slot(key, t));
    }
  }

  lemma SlotMembers(book: Book, key: TargetKey, t: Instant)
    ensures t in TakenAt(book, key) <==> Slot(key, t) in book.slots
    ensures t in PendingAt(book, key) <==> Slot(key, t) in book.slots && book.slots[Slot(key, t)].Pending?
  {
    var s := Slot(key, t);
    if s in book.slots {
      assert s.at in TakenAt(book, key);
    }
  }

  function EntryInstants(entries: seq<Entry>, key: TargetKey): set<Instant> {
    if entries == [] then {}
    else
      var last := entries[|entries| - 1];
      EntryInstants(entries[..|entries| - 1], key) + if last.target.key == key then last.instants else {}
  }

  ghost predicate LastFor(entries: seq<Entry>, i: nat)
    requires i < |entries|
  {
    forall j :: i < j < |entries| ==> entries[j].target.key != entries[i].target.key
  }

  lemma {:induction false} ScheduleAllTaken(book: Book, entries: seq<Entry>, key: TargetKey)
    ensures TakenAt(ScheduleAll(book, entries), key) == TakenAt(book, key) + EntryInstants(entries, key)
  {
    hide Schedule, TakenAt, PendingAt;
    if entries != [] {
      var last := entries[|entries| - 1];
      ScheduleAllTaken(book, entries[..|entries| - 1], key);
      SchedulePending(ScheduleAll(book, entries[..|entries| - 1]), last.target, last.instants, key);
    }
  }

  // The last entry for a target decides what is pending: its instants, without those that had a
  // slot before or were listed by an earlier entry for the same target.
  lemma {:induction false} ScheduleAllPending(book: Book, entries: seq<Entry>, i: nat)
    requires i < |entries| && LastFor(entries, i)
    ensures var key := entries[i].target.key;
            && PendingAt(ScheduleAll(book, entries), key)
              == entries[i].instants - TakenAt(book, key) - EntryInstants(entries[..i], key)
            && key in ScheduleAll(book, entries).registry
            && ScheduleAll(book, entries).registry[key] == entries[i].target
  {
    hide Replan, TakenAt, PendingAt;
    var n := |entries| - 1;
    var last, key := entries[n], entries[i].target.key;
    SchedulePending(ScheduleAll(book, entries[..n]), last.target, last.instants, key);
    if i == n {
      ScheduleAllTaken(book, entries[..n], key);
    } else {
      ScheduleAllPending(book, entries[..n], i);
      assert entries[..n][..i] == entries[..i];
    }
  }

  lemma {:induction false} ScheduleAllOthers(book: Book, entries: seq<Entry>, key: TargetKey)
    requires forall e <- entries :: e.target.key != key
    ensures var after := ScheduleAll(book, entries);
            && (key in after.registry <==> key in book.registry)
            && (key in book.registry ==> after.registry[key] == book.registry[key])
            && forall t :: (Slot(key, t) in after.slots <==> Slot(key, t) in book.slots)
                 && (Slot(key, t) in book.slots ==> after.slots[Slot(key, t)] == book.slots[Slot(key, t)])
  {
    if entries != [] {
      hide Replan;
      var last := entries[|entries| - 1];
      assert last in entries;
      var before := ScheduleAll(book, entries[..|entries| - 1]);
      ScheduleAllOthers(book, entries[..|entries| - 1], key);
      var plan := map[last.target.key := last.instants];
      forall t
        ensures Slot(key, t) in Replan(before.slots, plan) <==> Slot(key, t) in book.slots
        ensures Slot(key, t) in book.slots ==> Replan(before.slots, plan)[Slot(key, t)] == book.slots[Slot(key, t)]
      {
        ReplanSlots(before.slots, plan, Slot(key, t));
      }
    }
  }

  // Reconciling leaves, for each listed target, exactly the instants of its last entry that had no
  // slot before and were not listed by an earlier entry for the same target.
  lemma ReconcilePending(book: Book, plan: Bytes, generation: int, inputs: seq<HousingInput>,
                         zoneOf: Bytes -> Option<Zone>, now: Instant, i: nat)
    requires i < |inputs|
    requires forall j :: i < j < |inputs| ==> inputs[j].Key() != inputs[i].Key()
    ensures var key := inputs[i].Key();
            var after := Reconcile(book, plan, generation, inputs, zoneOf, now);
            && PendingAt(after, key)
               == InputInstants(inputs[i], zoneOf(inputs[i].recipient), now)
                  - TakenAt(book, key) - EntryInstants(HousingEntries(inputs[..i], generation, zoneOf, now), key)
            && key in after.registry && after.registry[key] == inputs[i].AsTarget(generation)
  {
    hide ScheduleAll, InputInstants, EntryInstants, HousingEntries, TakenAt, PendingAt;
    var cancelled := Cancel(book, SupersededKeys(book.registry, plan, generation), now);
    var entries := HousingEntries(inputs, generation, zoneOf, now);
    ScheduleAllPending(cancelled, entries, i);
    var key := inputs[i].Key();
    forall t ensures t in TakenAt(cancelled, key) <==> t in TakenAt(book, key) {
      SlotMembers(cancelled, key, t);
      SlotMembers(book, key, t);
    }
    assert TakenAt(cancelled, key) == TakenAt(book, key);
    assert entries[..i] == HousingEntries(inputs[..i], generation, zoneOf, now);
  }

  // A target that is not listed is untouched unless it is an active target of the plan from an
  // older generation; then it is cancelled and has nothing pending.
  lemma ReconcileOthers(book: Book, plan: Bytes, generation: int, inputs: seq<HousingInput>,
                        zoneOf: Bytes -> Option<Zone>, now: Instant, key: TargetKey)
    requires key in book.registry && forall i :: 0 <= i < |inputs| ==> inputs[i].Key() != key
    ensures var after := Reconcile(book, plan, generation, inputs, zoneOf, now);
            var target := book.registry[key];
            && key in after.registry
            && if Superseded(target, plan, generation) then
                 after.registry[key] == target.(cancelledAt := Some(now)) && PendingAt(after, key) == {}
               else
                 after.registry[key] == target
                 && forall t :: Slot(key, t) in book.slots ==>
                      Slot(key, t) in after.slots && after.slots[Slot(key, t)] == book.slots[Slot(key, t)]
  {
    hide ScheduleAll, InPlan, PendingAt;
    var hit := SupersededKeys(book.registry, plan, generation);
    ScheduleAllOthers(Cancel(book, hit, now), HousingEntries(inputs, generation, zoneOf, now), key);
    var after := Reconcile(book, plan, generation, inputs, zoneOf, now);
    if Superseded(book.registry[key], plan, generation) {
      forall t ensures t !in PendingAt(after, key) { SlotMembers(after, key, t); }
    }
  }

  // A later cut-off only leaves instants out.
  lemma LaterInstants(kind: string, dueAt: Instant, recurrencePeriodDays: int, boundAt: Option<Instant>,
                      loc: Option<Zone>, now: Instant, later: Instant, t: Instant)
    requires now <= later && t in HousingInstants(kind, dueAt, recurrencePeriodDays, boundAt, loc, later)
    ensures t in HousingInstants(kind, dueAt, recurrencePeriodDays, boundAt, loc, now)
  {
  }

  // Slots are never given up.
  lemma TakenStays(before: Book, after: Book, key: TargetKey)
    requires Progress(before, after)
    ensures TakenAt(before, key) <= TakenAt(after, key)
  {
    forall t | t in TakenAt(before, key) ensures t in TakenAt(after, key) {
      SlotMembers(before, key, t);
      SlotMembers(after, key, t);
    }
  }

  // Listing a target again with the same terms and zone, at any later moment, in any plan, list and
  // generation and whatever happened since, withdraws all its reminders: the instants still have
  // their slots and are not revived.
  lemma ReconcileAgainSilences(book: Book, plan: Bytes, generation: int, inputs: seq<HousingInput>,
                               zoneOf: Bytes -> Option<Zone>, now: Instant, i: nat, since: Book,
                               plan': Bytes, generation': int, again: seq<HousingInput>,
                               zoneOf': Bytes -> Option<Zone>, later: Instant, i': nat)
    requires i < |inputs| && i' < |again| && inputs[i] == again[i']
    requires forall j :: i' < j < |again| ==> again[j].Key() != again[i'].Key()
    requires now <= later && zoneOf(inputs[i].recipient) == zoneOf'(inputs[i].recipient)
    requires Progress(Reconcile(book, plan, generation, inputs, zoneOf, now), since)
    ensures PendingAt(Reconcile(since, plan', generation', again, zoneOf', later), inputs[i].Key()) == {}
  {
    hide ScheduleAll, EntryInstants, HousingEntries, Cancel, TakenAt, PendingAt, HousingInstants, Progress;
    var once := Reconcile(book, plan, generation, inputs, zoneOf, now);
    var key, loc := inputs[i].Key(), zoneOf(inputs[i].recipient);
    var entries := HousingEntries(inputs, generation, zoneOf, now);
    ScheduleAllTaken(Cancel(book, SupersededKeys(book.registry, plan, generation), now), entries, key);
    ListedInstants(entries, i);
    TakenStays(once, since, key);
    ReconcilePending(since, plan', generation', again, zoneOf', later, i');
    forall t | t in InputInstants(inputs[i], loc, later) ensures t in InputInstants(inputs[i], loc, now) {
      LaterInstants(
        inputs[i].kind, inputs[i].dueAt, inputs[i].recurrencePeriodDays, inputs[i].boundAt, loc, now, later, t);
    }
  }

  lemma {:induction false} ListedInstants(entries: seq<Entry>, i: nat)
    requires i < |entries|
    ensures entries[i].instants <= EntryInstants(entries, entries[i].target.key)
  {
    if i < |entries| - 1 {
      ListedInstants(entries[..|entries| - 1], i);
    }
  }

  // Recomputing leaves, for each active housing target of the recipient, exactly the instants of
  // the new zone that had no slot; every other slot keeps its outcome.
  lemma RecomputePending(book: Book, recipient: Bytes, zone: Zone, now: Instant, key: TargetKey)
    requires Coherent(book) && HousingTermsKnown(book.registry) && key in book.registry
    ensures var after := book.(slots := Replan(book.slots, RecomputePlan(book.registry, recipient, zone, now)));
            PendingAt(after, key) ==
              if ActiveHousing(book.registry[key], recipient)
              then TargetInstants(book.registry[key], zone, now) - TakenAt(book, key)
              else PendingAt(book, key)
  {
    hide Replan, TargetInstants, HousingInstants, PendingAt, TakenAt;
    var plan := RecomputePlan(book.registry, recipient, zone, now);
    var after := book.(slots := Replan(book.slots, plan));
    forall t
      ensures t in PendingAt(after, key) <==>
        t in if ActiveHousing(book.registry[key], recipient)
             then TargetInstants(book.registry[key], zone, now) - TakenAt(book, key)
             else PendingAt(book, key)
    {
      SlotMembers(after, key, t);
      SlotMembers(book, key, t);
      ReplanSlots(book.slots, plan, Slot(key, t));
    }
  }

  // Recomputing again for the same zone at any later moment withdraws the reminders of every target
  // that has kept its terms, whatever happened since.
  lemma RecomputeAgainSilences(book: Book, recipient: Bytes, zone: Zone, now: Instant, key: TargetKey,
                               since: Book, later: Instant)
    requires Coherent(book) && HousingTermsKnown(book.registry)
    requires Coherent(since) && HousingTermsKnown(since.registry)
    requires key in book.registry && ActiveHousing(book.registry[key], recipient)
    requires key in since.registry && ActiveHousing(since.registry[key], recipient)
    requires SameTerms(book.registry[key], since.registry[key]) && now <= later
    requires Progress(book.(slots := Replan(book.slots, RecomputePlan(book.registry, recipient, zone, now))), since)
    ensures var again := since.(slots := Replan(since.slots, RecomputePlan(since.registry, recipient, zone, later)));
            PendingAt(again, key) == {}
  {
    hide Replan, HousingInstants, PendingAt, TakenAt, Progress, Coherent;
    CoherentRegistry(book);
    CoherentRegistry(since);
    var plan := RecomputePlan(book.registry, recipient, zone, now);
    var once := book.(slots := Replan(book.slots, plan));
    forall t | t in plan[key] ensures t in TakenAt(once, key) {
      ReplanSlots(book.slots, plan, Slot(key, t));
      SlotMembers(once, key, t);
    }
    TakenStays(once, since, key);
    RecomputePending(since, recipient, zone, later, key);
    var target := book.registry[key];
    forall t | t in TargetInstants(since.registry[key], zone, later) ensures t in plan[key] {
      LaterInstants(key.kind, target.dueAt.value, target.recurrencePeriodDays.value, target.boundAt, Some(zone), now,
        later, t);
    }
  }

  predicate SameTerms(a: Target, b: Target) {
    a.dueAt == b.dueAt && a.recurrencePeriodDays == b.recurrencePeriodDays && a.boundAt == b.boundAt
  }

  lemma CoherentRegistry(book: Book)
    requires Coherent(book)
    ensures forall k <- book.registry :: book.registry[k].key == k
  {
  }

  // ---------------------------------------------------------------------------------------------
  // Plan prefixes

  // Two plans share a scope key exactly when they are equal or one, followed by the separator,
  // starts the other.
  lemma SharedScopes(p: Bytes, q: Bytes)
    ensures (exists scope :: InPlan(p, scope) && InPlan(q, scope))
       <==> p == q || p + [Separator] <= q || q + [Separator] <= p
  {
    if scope :| InPlan(p, scope) && InPlan(q, scope) {
      if |p| < |q| {
        assert q == scope[..|q|];
        assert p + [Separator] == q[..|p| + 1];
      } else if |q| < |p| {
        assert p == scope[..|p|];
        assert q + [Separator] == p[..|q| + 1];
      }
    }
    if p == q || p + [Separator] <= q {
      var scope := q + [Separator];
      assert InPlan(q, scope);
      assert p + [Separator] <= q ==>
        scope[..|p|] == (p + [Separator])[..|p|] == p && scope[|p|] == q[|p|] == (p + [Separator])[|p|];
      assert InPlan(p, scope);
    } else if q + [Separator] <= p {
      var scope := p + [Separator];
      assert InPlan(p, scope);
      assert scope[..|q|] == (q + [Separator])[..|q|] == q && scope[|q|] == p[|q|] == (q + [Separator])[|q|];
      assert InPlan(q, scope);
    }
  }

  // Reconciling one plan never cancels a target of another when no plan id contains the separator.
  lemma OtherPlansSafe(target: Target, p: Bytes, q: Bytes, generation: int)
    requires Separator !in p && Separator !in q && p != q
    requires InPlan(q, target.key.scope)
    ensures !Superseded(target, p, generation)
  {
    SharedScopes(p, q);
    SeparatorInside(p, q);
    SeparatorInside(q, p);
  }

  lemma SeparatorInside(p: Bytes, q: Bytes)
    ensures p + [Separator] <= q ==> Separator in q
  {
    assert p + [Separator] <= q ==> q[|p|] == (p + [Separator])[|p|];
  }

  // ---------------------------------------------------------------------------------------------
  // Draining

  function LeftAfter(due: nat, limit: nat, calls: nat): nat {
    if calls == 0 then due
    else
      var left := LeftAfter(due, limit, calls - 1);
      left - (if limit < left then limit else left)
  }

  lemma {:induction false} DrainedExactly(due: nat, limit: nat, calls: nat)
    ensures LeftAfter(due, limit, calls) == if calls * limit < due then due - calls * limit else 0
  {
    if calls > 0 {
      DrainedExactly(due, limit, calls - 1);
      assert calls * limit == (calls - 1) * limit + limit;
    }
  }
}
