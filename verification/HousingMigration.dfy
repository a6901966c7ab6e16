// Rebinding a plan member to a new installation id (entitlement/internal/store/store.go).
module HousingMigration {
  import opened Wrappers
  import opened FireTimes
  import opened HousingRules

  datatype Outcome = Migrated | AlreadyDone | OldInstallationNotFound | Conflict

  // The primary keys that a rename of the old id would duplicate.
  predicate RostersClash(rosters: set<RosterRow>, id: string, old_: string, new_: string) {
    && old_ != new_
    && exists r <- rosters :: r.plan == id && r.participant == old_ && r.(participant := new_) in rosters
  }

  predicate DecisionsClash(decisions: map<DecisionKey, string>, id: string, old_: string, new_: string) {
    && old_ != new_
    && exists k <- decisions :: k.plan == id && k.participant == old_ && k.(participant := new_) in decisions
  }

  predicate LicensesClash(licenses: map<LicenseKey, string>, id: string, old_: string, new_: string) {
    old_ != new_ && LicenseKey(id, old_) in licenses && LicenseKey(id, new_) in licenses
  }

  function RenameRosters(rosters: set<RosterRow>, id: string, old_: string, new_: string): set<RosterRow> {
    set r | r in rosters :: if r.plan == id && r.participant == old_ then r.(participant := new_) else r
  }

  function RenameDecisions(decisions: map<DecisionKey, string>, id: string, old_: string,
                           new_: string): map<DecisionKey, string> {
    var moved := set k | k in decisions && k.plan == id && k.participant == old_ :: k.(participant := new_);
    var kept := set k | k in decisions && !(k.plan == id && k.participant == old_);
    map k | k in kept + moved :: if k in moved then decisions[k.(participant := old_)] else decisions[k]
  }

  function RenameLicenses(licenses: map<LicenseKey, string>, id: string, old_: string,
                          new_: string): map<LicenseKey, string> {
    if LicenseKey(id, old_) !in licenses then licenses
    else
      var state := licenses[LicenseKey(id, old_)];
      (licenses - {LicenseKey(id, old_)})[LicenseKey(id, new_) := state]
  }

  function RenameReceipt(receipt: Receipt, old_: string, new_: string): Receipt {
    if receipt.installation == old_ then receipt.(installation := new_) else receipt
  }

  function RenameReceipts(receipts: map<string, Receipt>, old_: string, new_: string): map<string, Receipt> {
    map i | i in receipts :: RenameReceipt(receipts[i], old_, new_)
  }

  function RenameUntokened(receipts: seq<Receipt>, old_: string, new_: string): seq<Receipt> {
    seq(|receipts|, i requires 0 <= i < |receipts| => RenameReceipt(receipts[i], old_, new_))
  }

  function Merge(into: Installation, from: Installation): Installation {
    Installation(into.trialConsumed || from.trialConsumed,
                 if into.trialConsumedAt.Some? then into.trialConsumedAt else from.trialConsumedAt,
                 if into.freeUntil.Some? then into.freeUntil else from.freeUntil,
                 into.push)
  }

  // Register the new id, merge the old row into it, delete the old row.
  function RenameInstallation(installations: map<string, Installation>, old_: string,
                              new_: string): map<string, Installation> {
    var registered := if new_ in installations then installations
      else installations[new_ := NewInstallation];
    var merged := if old_ in registered then registered[new_ := Merge(registered[new_], registered[old_])]
      else registered;
    merged - {old_}
  }

  function Renaming(db: Database, id: string, old_: string, new_: string): Database {
    db.(installations := RenameInstallation(db.installations, old_, new_),
        rosters := RenameRosters(db.rosters, id, old_, new_),
        licenses := RenameLicenses(db.licenses, id, old_, new_),
        decisions := RenameDecisions(db.decisions, id, old_, new_),
        receipts := RenameReceipts(db.receipts, old_, new_),
        untokened := RenameUntokened(db.untokened, old_, new_))
  }

  function MigrateOutcome(db: Database, id: string, old_: string, new_: string): Outcome {
    if old_ !in Roster(db, id) then
      if new_ in Roster(db, id) then AlreadyDone else OldInstallationNotFound
    else if RostersClash(db.rosters, id, old_, new_) || DecisionsClash(db.decisions, id, old_, new_)
            || LicensesClash(db.licenses, id, old_, new_) then Conflict
    else Migrated
  }

  function Migrate(db: Database, id: string, old_: string, new_: string): Database {
    if MigrateOutcome(db, id, old_, new_) == Migrated then Renaming(db, id, old_, new_) else db
  }

  // The new id appears nowhere in the plan's rows.
  ghost predicate UnknownTo(db: Database, id: string, m: string) {
    && (forall r <- db.rosters :: r.plan == id ==> r.participant != m)
    && (forall k <- db.decisions :: k.plan == id ==> k.participant != m)
    && (forall k <- db.licenses :: k.plan == id ==> k.participant != m)
  }

  // ---------------------------------------------------------------------------------------------

  lemma UnknownMigrates(db: Database, id: string, old_: string, new_: string)
    requires old_ in Roster(db, id) && UnknownTo(db, id, new_)
    ensures MigrateOutcome(db, id, old_, new_) == Migrated && old_ != new_
  {
    var r :| r in db.rosters && r.plan == id && r.participant == old_;
  }

  lemma RenamedRoster(db: Database, id: string, old_: string, new_: string)
    requires old_ in Roster(db, id) && new_ !in Roster(db, id)
    ensures Roster(Renaming(db, id, old_, new_), id) == Roster(db, id) - {old_} + {new_}
    ensures |Roster(Renaming(db, id, old_, new_), id)| == |Roster(db, id)|
  {
    var after := Renaming(db, id, old_, new_);
    var revision := db.activeRevision[id];
    forall m ensures m in Roster(after, id) <==> m in Roster(db, id) - {old_} + {new_} {
      RosterMember(db, id, m);
      RosterMember(after, id, m);
      RosterMember(db, id, old_);
      RenamedRow(db.rosters, id, old_, new_, RosterRow(id, revision, m));
    }
  }

  lemma RosterMember(db: Database, id: string, m: string)
    ensures m in Roster(db, id) <==> id in db.activeRevision && RosterRow(id, db.activeRevision[id], m) in db.rosters
  {
    if id in db.activeRevision && RosterRow(id, db.activeRevision[id], m) in db.rosters {
      assert RosterRow(id, db.activeRevision[id], m).participant in Roster(db, id);
    }
  }

  lemma RenamedRow(rosters: set<RosterRow>, id: string, old_: string, new_: string, r: RosterRow)
    ensures r in RenameRosters(rosters, id, old_, new_) <==>
      || (r in rosters && !(r.plan == id && r.participant == old_))
      || (r.plan == id && r.participant == new_ && r.(participant := old_) in rosters)
  {
    if r.plan == id && r.participant == new_ && r.(participant := old_) in rosters {
      var o := r.(participant := old_);
      assert (if o.plan == id && o.participant == old_ then o.(participant := new_) else o) == r;
    }
    if r in rosters && !(r.plan == id && r.participant == old_) {
      assert (if r.plan == id && r.participant == old_ then r.(participant := new_) else r) == r;
    }
  }

  // Migration to an id the plan does not know keeps the size of the roster, the verdict whether all
  // have paid, every plan's lifecycle and the rosters of all other plans; the new id takes over the
  // consumed trial and the free licence; repeating it changes nothing.
  lemma MigrationKeeps(db: Database, id: string, old_: string, new_: string)
    requires old_ in Roster(db, id) && UnknownTo(db, id, new_)
    ensures var after := Migrate(db, id, old_, new_);
            && MigrateOutcome(db, id, old_, new_) == Migrated
            && Roster(after, id) == Roster(db, id) - {old_} + {new_} && |Roster(after, id)| == |Roster(db, id)|
            && (AllPaid(after, id) <==> AllPaid(db, id))
            && after.plans == db.plans
            && (forall other :: other != id ==> Roster(after, other) == Roster(db, other))
            && (Consumed(after, new_) <==> Consumed(db, old_) || Consumed(db, new_))
            && new_ in after.installations && old_ !in after.installations
            && MigrateOutcome(after, id, old_, new_) == AlreadyDone && Migrate(after, id, old_, new_) == after
  {
    UnknownMigrates(db, id, old_, new_);
    hide Renaming, Roster, RenameRosters;
    var after := Migrate(db, id, old_, new_);
    assert new_ !in Roster(db, id) by { if new_ in Roster(db, id) { RosterMember(db, id, new_); } }
    RenamedRoster(db, id, old_, new_);
    PaidAfterRenaming(db, id, old_, new_);
    RenamingRest(db, id, old_, new_);
    forall other | other != id ensures Roster(after, other) == Roster(db, other) {
      OtherRoster(db, id, old_, new_, other);
    }
  }

  lemma RenamingRest(db: Database, id: string, old_: string, new_: string)
    ensures var after := Renaming(db, id, old_, new_);
            && after.plans == db.plans && after.activeRevision == db.activeRevision
            && old_ !in after.installations
            && (old_ != new_ ==> new_ in after.installations)
            && (old_ != new_ ==> (Consumed(after, new_) <==> Consumed(db, old_) || Consumed(db, new_)))
            && (forall m :: m != old_ && m != new_ ==> (Consumed(after, m) <==> Consumed(db, m)))
  {
  }

  lemma OtherRoster(db: Database, id: string, old_: string, new_: string, other: string)
    requires other != id
    ensures Roster(Renaming(db, id, old_, new_), other) == Roster(db, other)
  {
    hide Roster, RenameRosters;
    var after := Renaming(db, id, old_, new_);
    forall m ensures m in Roster(after, other) <==> m in Roster(db, other) {
      RosterMember(db, other, m);
      RosterMember(after, other, m);
      if other in db.activeRevision {
        RenamedRow(db.rosters, id, old_, new_, RosterRow(other, db.activeRevision[other], m));
      }
    }
  }

  lemma PaidAfterRenaming(db: Database, id: string, old_: string, new_: string)
    requires old_ in Roster(db, id) && new_ !in Roster(db, id) && UnknownTo(db, id, new_)
    ensures AllPaid(Renaming(db, id, old_, new_), id) <==> AllPaid(db, id)
  {
    hide Roster, RenameRosters, RenameInstallation, RenameDecisions, RenameReceipts;
    var after := Renaming(db, id, old_, new_);
    RenamedRoster(db, id, old_, new_);
    assert HasPaid(after, id, new_) <==> HasPaid(db, id, old_);
    forall m | m != old_ && m != new_ ensures HasPaid(after, id, m) <==> HasPaid(db, id, m) {
    }
    assert new_ in Roster(after, id);
    if AllPaid(db, id) {
      forall m <- Roster(after, id) ensures HasPaid(after, id, m) {
        assert m == new_ || m in Roster(db, id);
      }
    }
    if AllPaid(after, id) {
      forall m <- Roster(db, id) ensures HasPaid(db, id, m) {
        assert m == old_ || m in Roster(after, id);
      }
    }
  }

  // Migration is a step of a run: plans stand still, and flags follow the rename exactly when the
  // two ids differ or there was no flag to lose: migrating an id to itself deletes its record.
  lemma MigrationStep(db: Database, id: string, old_: string, new_: string, d: Durations)
    requires Coherent(db, d)
    ensures var after := Migrate(db, id, old_, new_);
            && Coherent(after, d) && AllAdvance(db, after)
            && (MigrateOutcome(db, id, old_, new_) != Migrated ==> after == db && FlagStep(db, after, None))
            && (MigrateOutcome(db, id, old_, new_) == Migrated ==>
                  (FlagStep(db, after, Some(Rename(old_, new_))) <==> old_ != new_ || !Consumed(db, old_)))
  {
    hide Renaming, MigrateOutcome;
    RenamingRest(db, id, old_, new_);
    var after := Migrate(db, id, old_, new_);
    forall other: string ensures Advances(PlanOf(db, other), PlanOf(after, other)) {
    }
    forall m: string | old_ != new_ && Consumed(db, m) && MigrateOutcome(db, id, old_, new_) == Migrated
      ensures Consumed(after, Renamed(m, Some(Rename(old_, new_))))
    {
    }
    if old_ == new_ {
      assert Renamed(old_, Some(Rename(old_, new_))) == old_;
    }
  }
}
