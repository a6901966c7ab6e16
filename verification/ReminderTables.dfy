// The reminder tables by row id, the statements run on them, and the book they stand for.
module ReminderTables {
  import opened Wrappers
  import opened FireTimes
  import opened ByteStrings
  import opened ReminderBooks

  type Id = nat

  datatype Status = StatusPending | StatusFired | StatusCancelled

  datatype FireRow = FireRow(
    target: Id, recipient: Bytes, fireAt: Instant,
    status: Status, firedAt: Option<Instant>, deliveryAckAt: Option<Instant>)

  // Random ids are numbers not issued before.
  datatype Tables = Tables(targets: map<Id, Target>, fires: map<Id, FireRow>, issued: nat)

  function OutcomeOf(f: FireRow): Outcome {
    match f.status
    case StatusPending => Pending
    case StatusCancelled => Cancelled
    case StatusFired => if f.firedAt.Some? then Fired(f.firedAt.value, f.deliveryAckAt) else Cancelled
  }

  predicate RowConsistent(f: FireRow) {
    (f.status == StatusFired <==> f.firedAt.Some?) && (f.deliveryAckAt.Some? ==> f.status == StatusFired)
  }

  predicate SameInstant(f: FireRow, g: FireRow) {
    f.target == g.target && f.fireAt == g.fireAt
  }

  // The rules that hold between any two statements, row by row: natural keys are unique, fires
  // refer to their target and carry its recipient, and a target has at most one fire per instant.
  ghost predicate KeysDiffer(t: Tables, i: Id, j: Id) {
    i in t.targets && j in t.targets && t.targets[i].key == t.targets[j].key ==> i == j
  }

  ghost predicate FiresDiffer(t: Tables, f: Id, g: Id) {
    f in t.fires && g in t.fires && SameInstant(t.fires[f], t.fires[g]) ==> f == g
  }

  ghost predicate FireLinked(t: Tables, f: Id) {
    f in t.fires ==>
      && f < t.issued
      && RowConsistent(t.fires[f])
      && t.fires[f].target in t.targets
      && t.fires[f].recipient == t.targets[t.fires[f].target].key.recipient
  }

  ghost predicate TargetIssued(t: Tables, i: Id) {
    i in t.targets ==> i < t.issued
  }

  ghost predicate Linked(t: Tables) {
    && (forall i, j :: KeysDiffer(t, i, j))
    && (forall f, g :: FiresDiffer(t, f, g))
    && (forall f :: FireLinked(t, f))
    && (forall i :: TargetIssued(t, i))
  }

  ghost function SlotOf(t: Tables, f: Id): Slot
    requires Linked(t) && f in t.fires
  {
    assert FireLinked(t, f);
    Slot(t.targets[t.fires[f].target].key, t.fires[f].fireAt)
  }

  lemma SlotsDistinct(t: Tables, f: Id, g: Id)
    requires Linked(t) && f in t.fires && g in t.fires && SlotOf(t, f) == SlotOf(t, g)
    ensures f == g
  {
    assert FireLinked(t, f) && FireLinked(t, g);
    assert KeysDiffer(t, t.fires[f].target, t.fires[g].target);
    assert FiresDiffer(t, f, g);
  }

  lemma KeysDistinct(t: Tables, i: Id, j: Id)
    requires Linked(t) && i in t.targets && j in t.targets && t.targets[i].key == t.targets[j].key
    ensures i == j
  {
    assert KeysDiffer(t, i, j);
  }

  ghost function Registry(t: Tables): map<TargetKey, Target>
    requires Linked(t)
  {
    assert forall i, j :: i in t.targets && j in t.targets && t.targets[i].key == t.targets[j].key ==> i == j by {
      forall i, j | i in t.targets && j in t.targets && t.targets[i].key == t.targets[j].key
        ensures i == j
      {
        KeysDistinct(t, i, j);
      }
    }
    map i | i in t.targets :: t.targets[i].key := t.targets[i]
  }

  ghost function Slots(t: Tables): map<Slot, Outcome>
    requires Linked(t)
  {
    assert forall f, g :: f in t.fires && g in t.fires && SlotOf(t, f) == SlotOf(t, g) ==> f == g by {
      forall f, g | f in t.fires && g in t.fires && SlotOf(t, f) == SlotOf(t, g)
        ensures f == g
      {
        SlotsDistinct(t, f, g);
      }
    }
    map f | f in t.fires :: SlotOf(t, f) := OutcomeOf(t.fires[f])
  }

  ghost function BookOf(t: Tables): Book
    requires Linked(t)
  {
    Book(Registry(t), Slots(t))
  }

  // Rows are never deleted, and a row id keeps naming the same target, or the same slot.
  ghost predicate KeepsRows(before: Tables, after: Tables) {
    && (forall i <- before.targets :: i in after.targets && after.targets[i].key == before.targets[i].key)
    && (forall f <- before.fires :: f in after.fires
          && after.fires[f].target == before.fires[f].target
          && after.fires[f].recipient == before.fires[f].recipient
          && after.fires[f].fireAt == before.fires[f].fireAt)
  }

  // ---------------------------------------------------------------------------------------------
  // Reading a book off the tables

  lemma SlotsAt(t: Tables, f: Id)
    requires Linked(t) && f in t.fires
    ensures SlotOf(t, f) in Slots(t) && Slots(t)[SlotOf(t, f)] == OutcomeOf(t.fires[f])
    ensures t.fires[f].target in t.targets && SlotOf(t, f) == Slot(t.targets[t.fires[f].target].key, t.fires[f].fireAt)
    ensures t.fires[f].recipient == SlotOf(t, f).key.recipient && RowConsistent(t.fires[f]) && f < t.issued
  {
    assert FireLinked(t, f);
    hide Linked, SlotOf;
    forall g | g in t.fires && SlotOf(t, g) == SlotOf(t, f) ensures g == f { SlotsDistinct(t, f, g); }
  }

  lemma SlotRow(t: Tables, s: Slot) returns (f: Id)
    requires Linked(t) && s in Slots(t)
    ensures f in t.fires && SlotOf(t, f) == s && Slots(t)[s] == OutcomeOf(t.fires[f])
  {
    hide Linked, SlotOf;
    f :| f in t.fires && SlotOf(t, f) == s;
    SlotsAt(t, f);
  }

  lemma SlotsAre(t: Tables, m: map<Slot, Outcome>)
    requires Linked(t)
    requires forall f <- t.fires :: SlotOf(t, f) in m && m[SlotOf(t, f)] == OutcomeOf(t.fires[f])
    requires forall s <- m :: s in Slots(t)
    ensures Slots(t) == m
  {
    hide Linked, SlotOf, Slots;
    forall s | s in Slots(t) ensures s in m && Slots(t)[s] == m[s] {
      var f := SlotRow(t, s);
    }
  }

  lemma RegistryAt(t: Tables, i: Id)
    requires Linked(t) && i in t.targets
    ensures t.targets[i].key in Registry(t) && Registry(t)[t.targets[i].key] == t.targets[i]
    ensures i < t.issued
  {
    assert TargetIssued(t, i);
    hide Linked;
    forall j | j in t.targets && t.targets[j].key == t.targets[i].key ensures j == i { KeysDistinct(t, i, j); }
  }

  lemma RegistryRow(t: Tables, k: TargetKey) returns (i: Id)
    requires Linked(t) && k in Registry(t)
    ensures i in t.targets && t.targets[i].key == k && t.targets[i] == Registry(t)[k]
  {
    hide Linked;
    i :| i in t.targets && t.targets[i].key == k;
    RegistryAt(t, i);
  }

  lemma RegistryIs(t: Tables, m: map<TargetKey, Target>)
    requires Linked(t)
    requires forall i <- t.targets :: t.targets[i].key in m && m[t.targets[i].key] == t.targets[i]
    requires forall k <- m :: k in Registry(t)
    ensures Registry(t) == m
  {
    hide Linked, Registry;
    forall k | k in Registry(t) ensures k in m && Registry(t)[k] == m[k] {
      var i := RegistryRow(t, k);
    }
  }

  // An update that rewrites columns other than the identifying ones.
  ghost predicate SameRows(before: Tables, after: Tables) {
    && after.issued == before.issued
    && after.targets.Keys == before.targets.Keys && after.fires.Keys == before.fires.Keys
    && (forall i <- after.targets :: after.targets[i].key == before.targets[i].key)
    && (forall f <- after.fires :: SameFire(before.fires[f], after.fires[f]) && RowConsistent(after.fires[f]))
  }

  predicate SameFire(a: FireRow, b: FireRow) {
    a.target == b.target && a.recipient == b.recipient && a.fireAt == b.fireAt
  }

  lemma SameRowsLinked(t: Tables, after: Tables)
    requires Linked(t) && SameRows(t, after)
    ensures Linked(after) && KeepsRows(t, after)
    ensures forall f <- t.fires :: SlotOf(after, f) == SlotOf(t, f)
    ensures Slots(after).Keys == Slots(t).Keys && Registry(after).Keys == Registry(t).Keys
  {
    SameRowsStayLinked(t, after);
    hide Linked, SlotOf, Slots, Registry, KeepsRows;
    forall f <- t.fires ensures SlotOf(after, f) == SlotOf(t, f) {
      SlotsAt(t, f);
      SlotsAt(after, f);
    }
    forall s ensures s in Slots(after) <==> s in Slots(t) {
      if s in Slots(after) { var f := SlotRow(after, s); SlotsAt(t, f); }
      if s in Slots(t) { var f := SlotRow(t, s); SlotsAt(after, f); }
    }
    forall k ensures k in Registry(after) <==> k in Registry(t) {
      if k in Registry(after) { var i := RegistryRow(after, k); RegistryAt(t, i); }
      if k in Registry(t) { var i := RegistryRow(t, k); RegistryAt(after, i); }
    }
  }

  lemma SameRowsStayLinked(t: Tables, after: Tables)
    requires Linked(t) && SameRows(t, after)
    ensures Linked(after) && KeepsRows(t, after)
  {
    forall i, j ensures KeysDiffer(after, i, j) { assert KeysDiffer(t, i, j); }
    forall f, g ensures FiresDiffer(after, f, g) { assert FiresDiffer(t, f, g); }
    forall f ensures FireLinked(after, f) { assert FireLinked(t, f); }
    forall i ensures TargetIssued(after, i) { assert TargetIssued(t, i); }
  }

  lemma KeysOfHit(t: Tables, hit: set<Id>, i: Id)
    requires Linked(t) && i in t.targets
    ensures t.targets[i].key in KeysOf(t, hit) <==> i in hit
  {
    hide Linked;
    if t.targets[i].key in KeysOf(t, hit) {
      var j :| j in hit && j in t.targets && t.targets[j].key == t.targets[i].key;
      KeysDistinct(t, i, j);
    }
  }

  // ---------------------------------------------------------------------------------------------
  // Statements

  // UPDATE targets SET cancelled_at = now WHERE the row is hit and not cancelled yet.
  function CancelTargets(t: Tables, hit: set<Id>, now: Instant): Tables {
    t.(targets := map i | i in t.targets ::
        if i in hit && t.targets[i].cancelledAt.None? then t.targets[i].(cancelledAt := Some(now)) else t.targets[i])
  }

  function KeysOf(t: Tables, ids: set<Id>): set<TargetKey> {
    set i | i in ids && i in t.targets :: t.targets[i].key
  }

  lemma CancelTargetsMeaning(t: Tables, hit: set<Id>, now: Instant)
    requires Linked(t)
    ensures var after := CancelTargets(t, hit, now);
            && Linked(after) && KeepsRows(t, after)
            && Registry(after) == CancelKeys(Registry(t), KeysOf(t, hit), now)
            && Slots(after) == Slots(t)
  {
    hide Linked, Slots, Registry, SlotOf, KeepsRows, KeysOf;
    var after := CancelTargets(t, hit, now);
    forall f <- t.fires ensures RowConsistent(t.fires[f]) { SlotsAt(t, f); }
    SameRowsLinked(t, after);
    forall f <- after.fires
      ensures SlotOf(after, f) in Slots(t) && Slots(t)[SlotOf(after, f)] == OutcomeOf(after.fires[f])
    {
      SlotsAt(t, f);
    }
    SlotsAre(after, Slots(t));
    var m := CancelKeys(Registry(t), KeysOf(t, hit), now);
    forall i <- after.targets ensures after.targets[i].key in m && m[after.targets[i].key] == after.targets[i] {
      RegistryAt(t, i);
      KeysOfHit(t, hit, i);
    }
    RegistryIs(after, m);
  }

  // UPDATE fires SET status = 'cancelled' WHERE the target is one of these and status = 'pending'.
  function CancelFires(t: Tables, of: set<Id>): Tables {
    t.(fires := map f | f in t.fires ::
        if t.fires[f].target in of && t.fires[f].status == StatusPending then t.fires[f].(status := StatusCancelled)
          else t.fires[f])
  }

  function WithdrawFor(slots: map<Slot, Outcome>, keys: set<TargetKey>): map<Slot, Outcome> {
    map s | s in slots :: if s.key in keys then Withdraw(slots[s]) else slots[s]
  }

  lemma CancelFiresMeaning(t: Tables, of: set<Id>)
    requires Linked(t)
    ensures var after := CancelFires(t, of);
            && Linked(after) && KeepsRows(t, after)
            && Registry(after) == Registry(t)
            && Slots(after) == WithdrawFor(Slots(t), KeysOf(t, of))
  {
    hide Linked, Slots, Registry, SlotOf, KeepsRows, KeysOf;
    var after := CancelFires(t, of);
    forall f <- t.fires ensures RowConsistent(after.fires[f]) { SlotsAt(t, f); }
    SameRowsLinked(t, after);
    SameRegistry(t, after);
    var m := WithdrawFor(Slots(t), KeysOf(t, of));
    forall f <- after.fires ensures SlotOf(after, f) in m && m[SlotOf(after, f)] == OutcomeOf(after.fires[f]) {
      SlotsAt(t, f);
      KeysOfHit(t, of, t.fires[f].target);
    }
    SlotsAre(after, m);
  }

  // INSERT INTO fires ... ON CONFLICT (target_id, fire_at) DO NOTHING.
  predicate HasFire(t: Tables, target: Id, at: Instant) {
    exists f <- t.fires :: t.fires[f].target == target && t.fires[f].fireAt == at
  }

  function InsertFire(t: Tables, target: Id, recipient: Bytes, at: Instant): Tables {
    if HasFire(t, target, at) then t.(issued := t.issued + 1)
    else t.(fires := t.fires[t.issued := FireRow(target, recipient, at, StatusPending, None, None)],
      issued := t.issued + 1)
  }

  lemma InsertFireMeaning(t: Tables, target: Id, at: Instant)
    requires Linked(t) && target in t.targets
    ensures var s := Slot(t.targets[target].key, at);
            var after := InsertFire(t, target, s.key.recipient, at);
            && Linked(after) && KeepsRows(t, after)
            && Registry(after) == Registry(t) && after.targets == t.targets
            && Slots(after) == if s in Slots(t) then Slots(t) else Slots(t)[s := Pending]
  {
    InsertedTargets(t, target, t.targets[target].key.recipient, at);
    hide *;
    InsertKeepsLinked(t, target, at);
    SameRegistry(t, InsertFire(t, target, t.targets[target].key.recipient, at));
    InsertedSlots(t, target, at);
  }

  lemma InsertedTargets(t: Tables, target: Id, recipient: Bytes, at: Instant)
    ensures InsertFire(t, target, recipient, at).targets == t.targets
  {
  }

  lemma SameRegistry(t: Tables, after: Tables)
    requires Linked(t) && Linked(after) && after.targets == t.targets
    ensures Registry(after) == Registry(t)
  {
    hide Linked, Registry;
    forall i <- after.targets
      ensures after.targets[i].key in Registry(t) && Registry(t)[after.targets[i].key] == after.targets[i]
    {
      RegistryAt(t, i);
    }
    forall k <- Registry(t) ensures k in Registry(after) {
      var i := RegistryRow(t, k);
      RegistryAt(after, i);
    }
    RegistryIs(after, Registry(t));
  }

  lemma InsertedSlots(t: Tables, target: Id, at: Instant)
    requires Linked(t) && target in t.targets
    requires Linked(InsertFire(t, target, t.targets[target].key.recipient, at))
    ensures var s := Slot(t.targets[target].key, at);
            Slots(InsertFire(t, target, s.key.recipient, at))
              == if s in Slots(t) then Slots(t) else Slots(t)[s := Pending]
  {
    hide Linked, Slots, SlotOf, HasFire;
    var s := Slot(t.targets[target].key, at);
    var after := InsertFire(t, target, s.key.recipient, at);
    HasFireSlot(t, target, at);
    var m := if s in Slots(t) then Slots(t) else Slots(t)[s := Pending];
    forall f <- after.fires ensures SlotOf(after, f) in m && m[SlotOf(after, f)] == OutcomeOf(after.fires[f]) {
      SlotsAt(after, f);
      if f in t.fires { SlotsAt(t, f); }
    }
    forall s' <- m ensures s' in Slots(after) {
      if s' in Slots(t) {
        var f := SlotRow(t, s');
        SlotsAt(t, f);
        SlotsAt(after, f);
      } else {
        SlotsAt(after, t.issued);
      }
    }
    SlotsAre(after, m);
  }

  lemma HasFireSlot(t: Tables, target: Id, at: Instant)
    requires Linked(t) && target in t.targets
    ensures HasFire(t, target, at) <==> Slot(t.targets[target].key, at) in Slots(t)
  {
    hide Linked, Slots, SlotOf;
    var s := Slot(t.targets[target].key, at);
    if HasFire(t, target, at) {
      var f :| f in t.fires && t.fires[f].target == target && t.fires[f].fireAt == at;
      SlotsAt(t, f);
    }
    if s in Slots(t) {
      var f := SlotRow(t, s);
      SlotsAt(t, f);
      KeysDistinct(t, t.fires[f].target, target);
    }
  }

  lemma InsertKeepsLinked(t: Tables, target: Id, at: Instant)
    requires Linked(t) && target in t.targets
    ensures var after := InsertFire(t, target, t.targets[target].key.recipient, at);
            Linked(after) && KeepsRows(t, after)
  {
    var after := InsertFire(t, target, t.targets[target].key.recipient, at);
    forall i, j ensures KeysDiffer(after, i, j) { assert KeysDiffer(t, i, j); }
    forall f, g
      ensures FiresDiffer(after, f, g)
    {
      assert FiresDiffer(t, f, g) && FireLinked(t, f) && FireLinked(t, g);
    }
    forall f ensures FireLinked(after, f) { assert FireLinked(t, f); }
    forall i ensures TargetIssued(after, i) { assert TargetIssued(t, i); }
    assert FireLinked(t, t.issued);
  }

  // Write one target row: over the row `id` when it exists, else as a new row under that id.
  function PutTarget(t: Tables, id: Id, row: Target): Tables {
    t.(targets := t.targets[id := row], issued := if id < t.issued then t.issued else id + 1)
  }

  lemma PutTargetMeaning(t: Tables, id: Id, row: Target)
    requires Linked(t)
    requires if id in t.targets then t.targets[id].key == row.key else id >= t.issued && row.key !in Registry(t)
    ensures var after := PutTarget(t, id, row);
            && Linked(after) && KeepsRows(t, after)
            && Registry(after) == Registry(t)[row.key := row] && Slots(after) == Slots(t)
  {
    hide *;
    PutTargetKeepsLinked(t, id, row);
    PutTargetSlots(t, id, row);
    PutTargetRegistry(t, id, row);
  }

  lemma PutTargetSlots(t: Tables, id: Id, row: Target)
    requires Linked(t) && Linked(PutTarget(t, id, row))
    requires id in t.targets ==> t.targets[id].key == row.key
    ensures Slots(PutTarget(t, id, row)) == Slots(t)
  {
    hide Linked, Slots, SlotOf;
    var after := PutTarget(t, id, row);
    forall f <- t.fires
      ensures SlotOf(after, f) == SlotOf(t, f)
      ensures SlotOf(t, f) in Slots(t) && Slots(t)[SlotOf(t, f)] == OutcomeOf(t.fires[f])
    {
      SlotsAt(t, f);
      SlotsAt(after, f);
    }
    forall s <- Slots(t) ensures s in Slots(after) {
      var f := SlotRow(t, s);
      SlotsAt(after, f);
    }
    SlotsAre(after, Slots(t));
  }

  lemma PutTargetRegistry(t: Tables, id: Id, row: Target)
    requires Linked(t) && Linked(PutTarget(t, id, row))
    requires id in t.targets ==> t.targets[id].key == row.key
    ensures Registry(PutTarget(t, id, row)) == Registry(t)[row.key := row]
  {
    hide Linked, Registry;
    var after := PutTarget(t, id, row);
    var m := Registry(t)[row.key := row];
    forall i <- after.targets ensures after.targets[i].key in m && m[after.targets[i].key] == after.targets[i] {
      if i != id {
        RegistryAt(t, i);
        if t.targets[i].key == row.key { KeysDistinct(after, i, id); }
      }
    }
    forall k <- m ensures k in Registry(after) {
      if k == row.key {
        RegistryAt(after, id);
      } else {
        var i := RegistryRow(t, k);
        RegistryAt(after, i);
      }
    }
    RegistryIs(after, m);
  }

  lemma PutTargetKeepsLinked(t: Tables, id: Id, row: Target)
    requires Linked(t)
    requires if id in t.targets then t.targets[id].key == row.key else id >= t.issued && row.key !in Registry(t)
    ensures Linked(PutTarget(t, id, row)) && KeepsRows(t, PutTarget(t, id, row))
  {
    hide Registry;
    var after := PutTarget(t, id, row);
    forall i, j ensures KeysDiffer(after, i, j) {
      assert KeysDiffer(t, i, j);
      if i in t.targets { RegistryAt(t, i); }
      if j in t.targets { RegistryAt(t, j); }
    }
    forall f, g ensures FiresDiffer(after, f, g) { assert FiresDiffer(t, f, g); }
    forall f ensures FireLinked(after, f) { assert FireLinked(t, f); }
    forall i ensures TargetIssued(after, i) { assert TargetIssued(t, i); }
  }

  // UPDATE one fire row, keeping the slot it stands for.
  function PutFire(t: Tables, f: Id, row: FireRow): Tables {
    t.(fires := t.fires[f := row])
  }

  lemma PutFireMeaning(t: Tables, f: Id, row: FireRow)
    requires Linked(t) && f in t.fires && RowConsistent(row) && SameFire(t.fires[f], row)
    ensures var after := PutFire(t, f, row);
            && Linked(after) && KeepsRows(t, after)
            && Registry(after) == Registry(t) && Slots(after) == Slots(t)[SlotOf(t, f) := OutcomeOf(row)]
  {
    hide Linked, Slots, Registry, SlotOf, KeepsRows;
    var after := PutFire(t, f, row);
    forall g <- t.fires ensures RowConsistent(t.fires[g]) { SlotsAt(t, g); }
    SameRowsLinked(t, after);
    SameRegistry(t, after);
    var m := Slots(t)[SlotOf(t, f) := OutcomeOf(row)];
    SlotsAt(t, f);
    forall g <- after.fires ensures SlotOf(after, g) in m && m[SlotOf(after, g)] == OutcomeOf(after.fires[g]) {
      if g != f {
        SlotsAt(t, g);
        if SlotOf(t, g) == SlotOf(t, f) { SlotsDistinct(t, f, g); }
      }
    }
    SlotsAre(after, m);
  }

  // SELECT target_id by natural key.
  method FindTarget(t: Tables, key: TargetKey) returns (id: Option<Id>)
    requires Linked(t)
    ensures id.Some? <==> key in Registry(t)
    ensures id.Some? ==>
      id.value in t.targets && t.targets[id.value].key == key && t.targets[id.value] == Registry(t)[key]
  {
    hide Linked, Registry;
    var rows := set i | i in t.targets && t.targets[i].key == key;
    if key in Registry(t) {
      ghost var i := RegistryRow(t, key);
      assert i in rows;
    }
    if rows == {} {
      return None;
    }
    var i :| i in rows;
    RegistryAt(t, i);
    return Some(i);
  }

  // INSERT the instants of one target, skipping those that have a row.
  method InsertFires(t: Tables, target: Id, instants: seq<Instant>) returns (after: Tables)
    requires Linked(t) && target in t.targets
    ensures Linked(after) && KeepsRows(t, after)
    ensures after.targets == t.targets && Registry(after) == Registry(t)
    ensures Slots(after) == AddPending(Slots(t), t.targets[target].key, Members(instants))
  {
    hide Linked, Registry, Slots, InsertFire;
    var key := t.targets[target].key;
    after := t;
    KeepsRowsReflexive(t);
    for i := 0 to |instants|
      invariant Linked(after) && KeepsRows(t, after)
      invariant after.targets == t.targets && Registry(after) == Registry(t)
      invariant Slots(after) == AddPending(Slots(t), key, Members(instants[..i]))
    {
      InsertFireMeaning(after, target, instants[i]);
      ghost var was := after;
      after := InsertFire(after, target, key.recipient, instants[i]);
      KeepsRowsTransitive(t, was, after);
      assert instants[..i + 1] == instants[..i] + [instants[i]];
      assert Members(instants[..i + 1]) == Members(instants[..i]) + {instants[i]};
      AddOnePending(Slots(t), key, Members(instants[..i]), instants[i]);
    }
    assert instants[..|instants|] == instants;
  }

  function Members(instants: seq<Instant>): set<Instant> {
    set at | at in instants
  }

  function AddPending(slots: map<Slot, Outcome>, key: TargetKey, instants: set<Instant>): map<Slot, Outcome> {
    var added := set at | at in instants :: Slot(key, at);
    map s | s in slots.Keys + added :: if s in slots then slots[s] else Pending
  }

  lemma AddOnePending(slots: map<Slot, Outcome>, key: TargetKey, instants: set<Instant>, at: Instant)
    ensures var before := AddPending(slots, key, instants);
            AddPending(slots, key, instants + {at})
              == if Slot(key, at) in before then before else before[Slot(key, at) := Pending]
  {
  }

  lemma KeepsRowsReflexive(t: Tables)
    ensures KeepsRows(t, t)
  {
  }

  lemma KeepsRowsTransitive(a: Tables, b: Tables, c: Tables)
    requires KeepsRows(a, b) && KeepsRows(b, c)
    ensures KeepsRows(a, c)
  {
  }

  // Withdrawing what is pending and then inserting the new instants replans the target.
  lemma WithdrawThenAdd(slots: map<Slot, Outcome>, key: TargetKey, instants: set<Instant>)
    ensures AddPending(WithdrawFor(slots, {key}), key, instants) == Replan(slots, map[key := instants])
  {
    var withdrawn := WithdrawFor(slots, {key});
    var plan := map[key := instants];
    forall s
      ensures s in AddPending(withdrawn, key, instants) <==> s in Replan(slots, plan)
      ensures s in Replan(slots, plan) ==> AddPending(withdrawn, key, instants)[s] == Replan(slots, plan)[s]
    {
      ReplanSlots(slots, plan, s);
      if s.key == key && s.at in instants { assert s == Slot(key, s.at); }
    }
  }
}
