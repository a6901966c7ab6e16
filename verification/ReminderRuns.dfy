// Laws of whole runs of the reminder store's calls: every slot fires in one claim at most, and a fire
// is listed for its recipient from its claim until its acknowledgement.
module ReminderRuns {
  import opened Wrappers
  import opened FireTimes
  import opened ByteStrings
  import opened ReminderBooks
  import opened ReminderStores

  ghost predicate Takes(load: string -> Option<Zone>, before: StoreState, call: StoreCall, after: StoreState) {
    Sound(before.book) ==> Answers(before, call) && after == AfterCall(load, before, call)
  }

  ghost predicate IsStoreRun(load: string -> Option<Zone>, states: seq<StoreState>, calls: seq<StoreCall>) {
    && |states| == |calls| + 1 && Sound(states[0].book)
    && forall i, next :: 0 <= i < |calls| && next == i + 1 ==> Takes(load, states[i], calls[i], states[next])
  }

  // ---------------------------------------------------------------------------------------------
  // Every call

  // Every call keeps a sound book and moves outcomes only forward.
  lemma CallKeeps(load: string -> Option<Zone>, before: StoreState, call: StoreCall)
    requires Sound(before.book) && Answers(before, call)
    ensures var after := AfterCall(load, before, call);
            Sound(after.book) && Progress(before.book, after.book)
  {
    hide Sound, Progress, Reconcile, Cancel, ScheduleAll, ReminderBooks.Claim, ScopeKeys, ClaimsEarliest, Undelivered,
         Recomputed;
    var book := before.book;
    ProgressReflexive(book);
    match call
    case ReconcilePlan(plan, generation, inputs, now) =>
      ReconcileSound(book, plan, generation, inputs, DirectoryOf(before.zones, load), now);
      ReconcileProgress(book, plan, generation, inputs, DirectoryOf(before.zones, load), now);
    case CancelHousing(scopeKeys, kind, period, now) =>
      var hit := ScopeKeys(book.registry, HousingPayment, scopeKeys, Some((kind, period)));
      CancelSound(book, hit, now);
      CancelProgress(book, hit, now);
    case CancelClient(domain, scopeKeys, now) =>
      CancelSound(book, ScopeKeys(book.registry, domain, scopeKeys, None), now);
      CancelProgress(book, ScopeKeys(book.registry, domain, scopeKeys, None), now);
    case RecomputeFor(recipient, now) =>
      RecomputedKeeps(book, recipient, DirectoryOf(before.zones, load)(recipient), now);
    case UpsertClient(inputs, now) => if FirstRefusal(inputs).None? { UpsertKeeps(book, inputs, now); }
    case ClaimDue(now, limit, slots) => ClaimedSound(book, now, limit, slots);
    case AckFire(recipient, slot, now) =>
      if slot.Some? && slot.value in Undelivered(book, recipient) { AckKeeps(book, recipient, slot.value, now); }
    case _ =>
  }

  lemma RecomputedKeeps(book: Book, recipient: Bytes, loc: Option<Zone>, now: Instant)
    requires Sound(book)
    ensures Sound(Recomputed(book, recipient, loc, now)) && Progress(book, Recomputed(book, recipient, loc, now))
  {
    ProgressReflexive(book);
    if loc.Some? {
      CoherentKeys(book);
      RecomputeSound(book, recipient, loc.value, now);
      hide Coherent, Replan, Progress, HousingTermsKnown, ClientTermsEmpty;
      ReplanProgress(book, book.registry, RecomputePlan(book.registry, recipient, loc.value, now));
    }
  }

  lemma UpsertKeeps(book: Book, inputs: seq<ClientInput>, now: Instant)
    requires Sound(book) && FirstRefusal(inputs).None?
    ensures Sound(ScheduleAll(book, ClientEntries(inputs, now)))
    ensures Progress(book, ScheduleAll(book, ClientEntries(inputs, now)))
  {
    hide Sound, ScheduleAll, Progress;
    NoneRefused(inputs);
    ClientEntriesSound(book, inputs, |inputs|, now);
    assert ClientEntries(inputs, now)[..|inputs|] == ClientEntries(inputs, now);
    ScheduleAllProgress(book, ClientEntries(inputs, now));
  }

  lemma {:induction false} NoneRefused(inputs: seq<ClientInput>)
    requires FirstRefusal(inputs).None?
    ensures forall j :: 0 <= j < |inputs| ==> inputs[j].Refusal() == None
  {
    if inputs != [] {
      NoneRefused(inputs[1..]);
      forall j | 0 <= j < |inputs| ensures inputs[j].Refusal() == None {
        if j > 0 { assert inputs[j] == inputs[1..][j - 1]; }
      }
    }
  }

  lemma AckKeeps(book: Book, recipient: Bytes, s: Slot, now: Instant)
    requires Sound(book) && s in Undelivered(book, recipient)
    ensures Sound(Acknowledge(book, s, now)) && Progress(book, Acknowledge(book, s, now))
  {
    assert s.key.recipient == recipient;
    AcknowledgeKeepsCoherent(book, s, now);
    AcknowledgeProgress(book, s, now);
    hide Coherent, Progress;
  }

  predicate FiredIn(book: Book, s: Slot) {
    s in book.slots && book.slots[s].Fired?
  }

  // What has fired is the same before and after.
  predicate SameFired(before: Book, after: Book, s: Slot) {
    && (FiredIn(after, s) <==> FiredIn(before, s))
    && (FiredIn(before, s) ==> after.slots[s] == before.slots[s])
  }

  predicate Claims(call: StoreCall, s: Slot) {
    call.ClaimDue? && s in call.slots
  }

  predicate Acks(call: StoreCall, s: Slot) {
    call.AckFire? && call.slot == Some(s) && call.recipient == s.key.recipient
  }

  // A slot fires only by a claim that answers with it, which finds it pending and due, and at that
  // moment; a fired slot is acknowledged only by its own acknowledgement; and no other call touches
  // what has fired.
  lemma FiredStep(load: string -> Option<Zone>, before: StoreState, call: StoreCall, s: Slot)
    requires Sound(before.book) && Answers(before, call)
    ensures var book, after := before.book, AfterCall(load, before, call).book;
            if Claims(call, s) then
              && s in book.slots && book.slots[s].Pending? && s.at <= call.now
              && s in after.slots && after.slots[s] == Fired(call.now, None)
            else if Acks(call, s) && FiredIn(book, s) && book.slots[s].ackedAt.None? then
              s in after.slots && after.slots[s] == book.slots[s].(ackedAt := Some(call.now))
            else SameFired(book, after, s)
  {
    hide Sound, Reconcile, Recomputed, ScheduleAll, Cancel, ScopeKeys, ClaimsEarliest, ReminderBooks.Claim, SameFired,
         FiredIn;
    var book := before.book;
    assert SameFired(book, book, s) by { NothingFired(book, s); }
    match call
    case ReconcilePlan(plan, generation, inputs, now) =>
      ReconcileFiresNone(book, plan, generation, inputs, DirectoryOf(before.zones, load), now, s);
    case CancelHousing(scopeKeys, kind, period, now) =>
      CancelFiresNone(book, ScopeKeys(book.registry, HousingPayment, scopeKeys, Some((kind, period))), now, s);
    case CancelClient(domain, scopeKeys, now) =>
      CancelFiresNone(book, ScopeKeys(book.registry, domain, scopeKeys, None), now, s);
    case RecomputeFor(recipient, now) =>
      RecomputedFiresNone(book, recipient, DirectoryOf(before.zones, load)(recipient), now, s);
    case UpsertClient(inputs, now) => ScheduleAllFiresNone(book, ClientEntries(inputs, now), s);
    case ClaimDue(now, limit, slots) => ClaimFiresDue(book, now, limit, slots, s);
    case AckFire(recipient, slot, now) => AckFiresNone(book, recipient, slot, now, s);
    case _ =>
  }

  lemma NothingFired(book: Book, s: Slot)
    ensures SameFired(book, book, s)
  {
  }

  lemma CancelFiresNone(book: Book, hit: set<TargetKey>, now: Instant, s: Slot)
    ensures SameFired(book, Cancel(book, hit, now), s)
  {
  }

  lemma ReplanFiresNone(book: Book, registry: map<TargetKey, Target>, plan: map<TargetKey, set<Instant>>, s: Slot)
    ensures SameFired(book, Book(registry, Replan(book.slots, plan)), s)
  {
    ReplanSlots(book.slots, plan, s);
    hide Replan;
  }

  lemma {:induction false} ScheduleAllFiresNone(book: Book, entries: seq<Entry>, s: Slot)
    ensures SameFired(book, ScheduleAll(book, entries), s)
  {
    if entries != [] {
      hide Replan;
      var last, before := entries[|entries| - 1], ScheduleAll(book, entries[..|entries| - 1]);
      ScheduleAllFiresNone(book, entries[..|entries| - 1], s);
      ReplanFiresNone(before, before.registry[last.target.key := last.target], map[last.target.key := last.instants],
        s);
    }
  }

  lemma ReconcileFiresNone(book: Book, plan: Bytes, generation: int, inputs: seq<HousingInput>,
                           zoneOf: Bytes -> Option<Zone>, now: Instant, s: Slot)
    ensures SameFired(book, Reconcile(book, plan, generation, inputs, zoneOf, now), s)
  {
    hide Cancel, ScheduleAll;
    var hit := SupersededKeys(book.registry, plan, generation);
    CancelFiresNone(book, hit, now, s);
    ScheduleAllFiresNone(Cancel(book, hit, now), HousingEntries(inputs, generation, zoneOf, now), s);
  }

  lemma RecomputedFiresNone(book: Book, recipient: Bytes, loc: Option<Zone>, now: Instant, s: Slot)
    requires Sound(book)
    ensures SameFired(book, Recomputed(book, recipient, loc, now), s)
  {
    CoherentKeys(book);
    if loc.Some? {
      hide Replan, Coherent;
      ReplanFiresNone(book, book.registry, RecomputePlan(book.registry, recipient, loc.value, now), s);
    }
  }

  lemma ClaimFiresDue(book: Book, now: Instant, limit: nat, slots: seq<Slot>, s: Slot)
    requires ClaimsEarliest(book, now, limit, slots)
    ensures var after := Claim(book, SlotSet(slots), now);
            if s in slots then
              && s in book.slots && book.slots[s].Pending? && s.at <= now
              && s in after.slots && after.slots[s] == Fired(now, None)
            else SameFired(book, after, s)
  {
    if s in slots { assert s in SlotSet(slots) && s in Due(book, now); }
  }

  lemma AckFiresNone(book: Book, recipient: Bytes, slot: Option<Slot>, now: Instant, s: Slot)
    ensures var acked := slot.Some? && slot.value in Undelivered(book, recipient);
            var after := if acked then Acknowledge(book, slot.value, now) else book;
            if slot == Some(s) && recipient == s.key.recipient && FiredIn(book, s) && book.slots[s].ackedAt.None? then
              s in after.slots && after.slots[s] == book.slots[s].(ackedAt := Some(now))
            else SameFired(book, after, s)
  {
  }

  // ---------------------------------------------------------------------------------------------
  // Runs

  lemma {:induction false} RunSound(load: string -> Option<Zone>, states: seq<StoreState>, calls: seq<StoreCall>,
                                    n: nat)
    requires IsStoreRun(load, states, calls) && n < |states|
    ensures Sound(states[n].book)
  {
    hide Sound, AfterCall, Answers;
    if n > 0 {
      var last := n - 1;
      RunSound(load, states, calls, last);
      assert Takes(load, states[last], calls[last], states[n]);
      CallKeeps(load, states[last], calls[last]);
    }
  }

  lemma RunStep(load: string -> Option<Zone>, states: seq<StoreState>, calls: seq<StoreCall>, n: nat)
    requires IsStoreRun(load, states, calls) && n < |calls|
    ensures |states| == |calls| + 1 && Sound(states[n].book) && Answers(states[n], calls[n])
    ensures states[n + 1] == AfterCall(load, states[n], calls[n])
  {
    RunSound(load, states, calls, n);
    hide Sound, AfterCall, Answers;
    var next := n + 1;
    assert Takes(load, states[n], calls[n], states[next]);
  }

  ghost function Books(states: seq<StoreState>): (books: seq<Book>)
    ensures |books| == |states| && forall i :: 0 <= i < |states| ==> books[i] == states[i].book
  {
    seq(|states|, i requires 0 <= i < |states| => states[i].book)
  }

  // A run of calls is a run of the book in which outcomes only move forward.
  lemma StoreRunProgress(load: string -> Option<Zone>, states: seq<StoreState>, calls: seq<StoreCall>)
    requires IsStoreRun(load, states, calls)
    ensures IsRun(Books(states))
  {
    assert |states| == |calls| + 1;
    hide IsStoreRun, Progress, Sound, AfterCall, Answers;
    forall i, next | 0 <= i && next == i + 1 && next < |states|
      ensures Progress(Books(states)[i], Books(states)[next])
    {
      RunStep(load, states, calls, i);
      CallKeeps(load, states[i], calls[i]);
    }
  }

  lemma {:induction false} StaysFired(load: string -> Option<Zone>, states: seq<StoreState>, calls: seq<StoreCall>,
                                      i: nat, j: nat, s: Slot)
    requires IsStoreRun(load, states, calls) && i <= j < |states| && FiredIn(states[i].book, s)
    ensures FiredIn(states[j].book, s) && states[j].book.slots[s].at == states[i].book.slots[s].at
    decreases j - i
  {
    assert |states| == |calls| + 1;
    hide IsStoreRun, Sound, AfterCall, Answers;
    if i < j {
      StaysFired(load, states, calls, i, j - 1, s);
      RunStep(load, states, calls, j - 1);
      FiredStep(load, states[j - 1], calls[j - 1], s);
    }
  }

  // No slot is claimed twice, over every run of calls.
  lemma ClaimedOnce(load: string -> Option<Zone>, states: seq<StoreState>, calls: seq<StoreCall>, i: nat, j: nat,
                    s: Slot)
    requires IsStoreRun(load, states, calls) && i < j < |calls| && Claims(calls[i], s)
    ensures !Claims(calls[j], s)
  {
    hide IsStoreRun, Sound, AfterCall, Answers;
    RunStep(load, states, calls, i);
    FiredStep(load, states[i], calls[i], s);
    StaysFired(load, states, calls, i + 1, j, s);
    RunStep(load, states, calls, j);
    FiredStep(load, states[j], calls[j], s);
  }

  // A claimed fire is listed for its recipient exactly until that recipient acknowledges it, over every
  // run of calls; and an instant is never claimed before it has come.
  lemma {:induction false} ListedExactly(load: string -> Option<Zone>, states: seq<StoreState>, calls: seq<StoreCall>,
                                         i: nat, j: nat, s: Slot)
    requires IsStoreRun(load, states, calls) && i < j <= |calls| && Claims(calls[i], s)
    ensures |states| == |calls| + 1 && FiredIn(states[j].book, s)
    ensures states[j].book.slots[s].at == calls[i].now >= s.at
    ensures s in Undelivered(states[j].book, s.key.recipient) <==> forall k :: i < k < j ==> !Acks(calls[k], s)
    decreases j
  {
    hide IsStoreRun, Sound, AfterCall, Answers;
    RunStep(load, states, calls, j - 1);
    FiredStep(load, states[j - 1], calls[j - 1], s);
    if j - 1 > i {
      ListedExactly(load, states, calls, i, j - 1, s);
      ClaimedOnce(load, states, calls, i, j - 1, s);
    }
  }

  // No fire is acknowledged with success twice.
  lemma AckedOnce(load: string -> Option<Zone>, states: seq<StoreState>, calls: seq<StoreCall>, i: nat, j: nat, s: Slot)
    requires IsStoreRun(load, states, calls) && i < j <= |calls| && Acks(calls[i], s)
    requires |states| == |calls| + 1 && s in Undelivered(states[i].book, s.key.recipient)
    ensures s !in Undelivered(states[j].book, s.key.recipient)
  {
    hide IsStoreRun, IsRun, Sound, AfterCall, Answers;
    RunStep(load, states, calls, i);
    FiredStep(load, states[i], calls[i], s);
    StoreRunProgress(load, states, calls);
    RunProgress(Books(states), i + 1, j);
    assert Moves(states[i + 1].book.slots[s], states[j].book.slots[s]);
  }
}
