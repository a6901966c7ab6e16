// One pass of the reminder cron (relay/internal/remindercron/remindercron.go).
module ReminderCron {
  import opened Wrappers
  import opened FireTimes
  import opened ByteStrings
  import opened ReminderBooks
  import opened ReminderTables
  import opened ReminderStores

  const ClaimBatchSize := 64

  function NewlyFired(before: Book, after: Book): set<Slot> {
    set s | s in before.slots && before.slots[s].Pending? && s in after.slots && after.slots[s].Fired?
  }

  function Recipients(slots: set<Slot>): set<Bytes> {
    set s | s in slots :: s.key.recipient
  }

  // Claim a batch of due fires and wake each of its recipients once.  `woken` lists the wake calls
  // in the order they are started.
  method Run(store: ReminderStore, cronEnabled: bool, wake: bool, now: Instant) returns (count: nat, woken: seq<Bytes>)
    requires store.Valid()
    modifies store`tables
    ensures store.Valid() && Progress(old(store.Now()), store.Now())
    ensures var due, fired := Due(old(store.Now()), now), NewlyFired(old(store.Now()), store.Now());
            && count == |fired|
            && fired <= due
            && (cronEnabled ==> count == if 64 < |due| then 64 else |due|)
            && (!cronEnabled ==> store.tables == old(store.tables) && fired == {})
            && (forall s <- fired :: store.Now().slots[s] == Fired(now, None))
            && (forall s, u :: s in fired && u in due && u !in fired ==> s.at <= u.at)
            && (set r | r in woken) == (if wake then Recipients(fired) else {})
    ensures forall i, j :: 0 <= i < j < |woken| ==> woken[i] != woken[j]
  {
    hide Linked, Registry, Slots, Sound, Progress, ClaimsEarliest, ReminderBooks.Claim, DeliveredSlots, Due, NewlyFired;
    ghost var before := store.Now();
    count, woken := 0, [];
    if !cronEnabled {
      ProgressReflexive(before);
      NothingFired(before);
      return;
    }
    var claimed := store.ClaimDueReminderFires(now, ClaimBatchSize);
    ghost var slots := DeliveredSlots(old(store.tables), claimed);
    ClaimFires(before, now, ClaimBatchSize, slots);
    woken := WakeOnce(claimed, wake);
    DeliveredRecipients(old(store.tables), claimed);
    count := |claimed|;
  }

  // The loop over the batch with its set of recipients already seen.
  method WakeOnce(claimed: seq<Delivery>, wake: bool) returns (woken: seq<Bytes>)
    ensures forall i, j :: 0 <= i < j < |woken| ==> woken[i] != woken[j]
    ensures (set r | r in woken) == if wake then (set d | d in claimed :: d.key.recipient) else {}
  {
    woken := [];
    var seen: set<Bytes> := {};
    for i := 0 to |claimed|
      invariant seen == set r | r in woken
      invariant seen == if wake then (set d | d in claimed[..i] :: d.key.recipient) else {}
      invariant forall i, j :: 0 <= i < j < |woken| ==> woken[i] != woken[j]
    {
      assert claimed[..i + 1] == claimed[..i] + [claimed[i]];
      if wake {
        var key := claimed[i].key.recipient;
        if key !in seen {
          seen := seen + {key};
          woken := woken + [key];
        }
      }
    }
    assert claimed[..|claimed|] == claimed;
  }

  lemma DeliveredRecipients(t: Tables, claimed: seq<Delivery>)
    requires Linked(t) && forall d <- claimed :: Describes(t, d)
    ensures (set d | d in claimed :: d.key.recipient) == Recipients(SlotSet(DeliveredSlots(t, claimed)))
  {
    hide Linked, NamedSlots, SlotOf;
    var slots := DeliveredSlots(t, claimed);
    forall i | 0 <= i < |claimed| ensures slots[i].key.recipient == claimed[i].key.recipient {
      assert Describes(t, claimed[i]);
      SlotsAt(t, claimed[i].fire);
    }
    forall r ensures r in (set d | d in claimed :: d.key.recipient) <==> r in Recipients(SlotSet(slots)) {
      if r in (set d | d in claimed :: d.key.recipient) {
        var i :| 0 <= i < |claimed| && claimed[i].key.recipient == r;
        assert slots[i] in SlotSet(slots);
      }
      if r in Recipients(SlotSet(slots)) {
        var i :| 0 <= i < |slots| && slots[i].key.recipient == r;
        assert claimed[i] in claimed;
      }
    }
  }

  lemma NothingFired(book: Book)
    ensures NewlyFired(book, book) == {}
  {
  }

  lemma ClaimFires(book: Book, now: Instant, limit: nat, slots: seq<Slot>)
    requires ClaimsEarliest(book, now, limit, slots)
    ensures var after, fired := Claim(book, SlotSet(slots), now), SlotSet(slots);
            && NewlyFired(book, after) == fired && |fired| == |slots|
            && fired <= Due(book, now)
            && |fired| == (if limit < |Due(book, now)| then limit else |Due(book, now)|)
            && (forall s <- fired :: s in after.slots && after.slots[s] == Fired(now, None))
            && (forall s, u :: s in fired && u in Due(book, now) && u !in fired ==> s.at <= u.at)
  {
    DistinctSize(slots);
  }

  // ---------------------------------------------------------------------------------------------
  // From claim to acknowledgement

  // A claimed fire is listed for its recipient, and stays listed through every later step until it
  // is acknowledged.
  lemma ListedUntilAcked(book: Book, now: Instant, limit: nat, slots: seq<Slot>, later: Book, s: Slot)
    requires ClaimsEarliest(book, now, limit, slots) && s in slots
    requires Progress(Claim(book, SlotSet(slots), now), later)
    ensures s in Undelivered(Claim(book, SlotSet(slots), now), s.key.recipient)
    ensures s in later.slots && later.slots[s].Fired? && later.slots[s].at == now
    ensures s in Undelivered(later, s.key.recipient) <==> later.slots[s].ackedAt.None?
  {
    var after := Claim(book, SlotSet(slots), now);
    assert s in SlotSet(slots) && after.slots[s] == Fired(now, None);
    assert Moves(after.slots[s], later.slots[s]);
  }
}
