// The entitlement store (entitlement/internal/store/store.go) and the housing service on top of it
// (entitlement/internal/domain/housing.go).  A call runs alone and reads the clock once.
module HousingService {
  import opened Wrappers
  import opened FireTimes
  import opened HousingRules
  import opened HousingMigration
  import opened HousingRuns

  function Elements(ids: seq<string>): set<string> {
    set m | m in ids
  }

  // The rows of a query, each once; their order is not modelled.
  method ListOf(ids: set<string>) returns (list: seq<string>)
    ensures Elements(list) == ids && |list| == |ids|
  {
    list := [];
    var rest := ids;
    while rest != {}
      invariant rest <= ids && Elements(list) == ids - rest && |list| + |rest| == |ids|
      decreases rest
    {
      var m :| m in rest;
      assert Elements(list + [m]) == Elements(list) + {m};
      list := list + [m];
      rest := rest - {m};
    }
  }

  class EntitlementStore {
    var installations: map<string, Installation>
    var plans: map<string, Plan>
    var rosters: set<RosterRow>
    var activeRevision: map<string, string>
    var licenses: map<LicenseKey, string>
    var decisions: map<DecisionKey, string>
    var receipts: map<string, Receipt>
    var untokened: seq<Receipt>

    ghost function Db(): Database
      reads this
    {
      Database(installations, plans, rosters, activeRevision, licenses, decisions, receipts, untokened)
    }

    constructor ()
      ensures Db() == Database(map[], map[], {}, map[], map[], map[], map[], [])
    {
      installations, plans, rosters, activeRevision := map[], map[], {}, map[];
      licenses, decisions, receipts, untokened := map[], map[], map[], [];
    }

    method RegisterInstallation(id: string)
      modifies this`installations
      ensures Db() == Registered(old(Db()), id)
    {
      if id !in installations {
        installations := installations[id := NewInstallation];
      }
    }

    method UpsertInstallationPushToken(id: string, push: PushAddress)
      modifies this`installations
      ensures Db() == PutPushAddress(old(Db()), id, push)
    {
      var row := if id in installations then installations[id] else NewInstallation;
      installations := installations[id := row.(push := Some(push))];
    }

    // A row without a token conflicts with no other.
    method UpsertPlayReceipt(token: string, receipt: Receipt)
      modifies this`receipts, this`untokened
      ensures Db() == PutReceipt(old(Db()), token, receipt)
    {
      if token != "" {
        receipts := receipts[token := receipt];
      } else {
        untokened := untokened + [receipt];
      }
    }

    // Refused for an unknown installation, a second free licence, or while a paid one is valid.
    method SetFreeLicense(installation: string, grantedAt: Instant, expiresAt: Instant) returns (granted: bool)
      modifies this`installations
      ensures granted == MayGrantFree(old(Db()), installation, grantedAt)
      ensures Db() == GrantedFree(old(Db()), installation, grantedAt, expiresAt)
    {
      if installation !in installations || installations[installation].freeUntil.Some? {
        return false;
      }
      var blocking := set t | t in receipts && Blocks(receipts[t], installation, grantedAt);
      if blocking != {} {
        var t :| t in blocking;
        assert Blocks(Db().receipts[t], installation, grantedAt);
        return false;
      }
      assert forall t <- receipts :: Blocks(receipts[t], installation, grantedAt) ==> t in blocking;
      var bare := set r | r in untokened && Blocks(r, installation, grantedAt);
      if bare != {} {
        var r :| r in bare;
        return false;
      }
      assert forall r <- untokened :: Blocks(r, installation, grantedAt) ==> r in bare;
      installations := installations[installation := installations[installation].(freeUntil := Some(expiresAt))];
      return true;
    }

    method ClearFreeLicense(installation: string) returns (cleared: bool)
      modifies this`installations
      ensures cleared <==> installation in old(installations) && old(installations)[installation].freeUntil.Some?
      ensures Db() == ClearedFree(old(Db()), installation)
    {
      cleared := installation in installations && installations[installation].freeUntil.Some?;
      if cleared {
        installations := installations[installation := installations[installation].(freeUntil := None)];
      } else if installation in installations {
        assert installations == installations[installation := installations[installation].(freeUntil := None)];
      }
    }

    method MarkTrialConsumed(ids: seq<string>, at: Instant)
      modifies this`installations
      ensures Db() == MarkConsumed(old(Db()), Elements(ids), at)
    {
      MarkNobody(Db(), at);
      for i := 0 to |ids|
        invariant Db() == MarkConsumed(old(Db()), Elements(ids[..i]), at)
      {
        var id := ids[i];
        MarkOneMore(old(Db()), ids, i, at);
        if id in installations {
          installations := installations[id := Consume(installations[id], at)];
        }
      }
      assert ids[..|ids|] == ids;
    }

    method AnyTrialConsumed(ids: seq<string>) returns (any: bool)
      ensures any <==> AnyConsumed(Db(), Elements(ids))
    {
      var rows := set m | m in ids && m in installations && installations[m].trialConsumed;
      any := rows != {};
      if any {
        var m :| m in rows;
        assert m in Elements(ids) && Consumed(Db(), m);
      } else {
        assert forall m <- Elements(ids) :: Consumed(Db(), m) ==> m in rows;
      }
    }

    method UpsertPlan(id: string, plan: Plan)
      modifies this`plans
      ensures Db() == PutPlan(old(Db()), id, plan)
    {
      plans := plans[id := plan];
    }

    method UpsertLicenseStatus(id: string, participant: string, state: string)
      modifies this`licenses
      ensures Db() == PutLicense(old(Db()), id, participant, state)
    {
      licenses := licenses[LicenseKey(id, participant) := state];
    }

    // Rows that exist already are left alone; a revision can only gain participants.
    method RecordExpenseDecision(id: string, expense: string, participant: string, kind: string)
      modifies this`decisions
      ensures Db() == Decided(old(Db()), id, expense, participant, kind)
    {
      decisions := decisions[DecisionKey(id, expense, participant) := kind];
    }

    method SetActiveRoster(id: string, revision: string, participants: seq<string>)
      modifies this`rosters, this`activeRevision
      ensures rosters == old(rosters) + (set p | p in participants :: RosterRow(id, revision, p))
      ensures activeRevision == old(activeRevision)[id := revision]
    {
      for i := 0 to |participants|
        invariant activeRevision == old(activeRevision)
        invariant rosters == old(rosters) + (set p | p in participants[..i] :: RosterRow(id, revision, p))
      {
        assert participants[..i + 1] == participants[..i] + [participants[i]];
        rosters := rosters + {RosterRow(id, revision, participants[i])};
      }
      assert participants[..|participants|] == participants;
      activeRevision := activeRevision[id := revision];
    }

    // The members of the active revision, each once.
    method ActiveRoster(id: string) returns (members: seq<string>)
      ensures Elements(members) == Roster(Db(), id) && |members| == |Roster(Db(), id)|
    {
      if id !in activeRevision { return []; }
      members := ListOf(MembersOf(rosters, id, activeRevision[id]));
    }

    method MigrateInstallation(id: string, old_: string, new_: string) returns (outcome: Outcome)
      modifies this
      ensures outcome == MigrateOutcome(old(Db()), id, old_, new_)
      ensures Db() == Migrate(old(Db()), id, old_, new_)
    {
      hide Roster, RostersClash, DecisionsClash, LicensesClash, RenameRosters, RenameDecisions, RenameLicenses,
           RenameReceipts, RenameUntokened, Merge;
      var roster := ActiveRoster(id);
      if old_ !in roster {
        assert old_ !in Elements(roster);
        assert new_ in roster <==> new_ in Elements(roster);
        return if new_ in roster then AlreadyDone else OldInstallationNotFound;
      }
      assert old_ in Elements(roster);
      if RostersClash(rosters, id, old_, new_) || DecisionsClash(decisions, id, old_, new_)
         || LicensesClash(licenses, id, old_, new_) {
        return Conflict;
      }
      rosters := RenameRosters(rosters, id, old_, new_);
      decisions := RenameDecisions(decisions, id, old_, new_);
      licenses := RenameLicenses(licenses, id, old_, new_);
      receipts := RenameReceipts(receipts, old_, new_);
      untokened := RenameUntokened(untokened, old_, new_);
      if new_ !in installations {
        installations := installations[new_ := NewInstallation];
      }
      if old_ in installations {
        installations := installations[new_ := Merge(installations[new_], installations[old_])];
      }
      installations := installations - {old_};
      outcome := Migrated;
    }
  }

  lemma MarkNobody(db: Database, at: Instant)
    ensures MarkConsumed(db, Elements([]), at) == db
  {
    assert Elements([]) == {};
  }

  lemma MarkOneMore(db: Database, ids: seq<string>, i: nat, at: Instant)
    requires i < |ids|
    ensures var before := MarkConsumed(db, Elements(ids[..i]), at);
            MarkConsumed(db, Elements(ids[..i + 1]), at)
              == if ids[i] in before.installations
                 then before.(installations :=
                   before.installations[ids[i] := Consume(before.installations[ids[i]], at)])
                 else before
  {
    assert Elements(ids[..i + 1]) == Elements(ids[..i]) + {ids[i]};
  }

  class Housing {
    const st: EntitlementStore
    const durations: Durations

    constructor (st: EntitlementStore, durations: Durations)
      ensures this.st == st && this.durations == durations
    {
      this.st := st;
      this.durations := durations;
    }

    method SetActiveRoster(id: string, revision: string, participants: seq<string>, now: Instant)
      requires Coherent(st.Db(), durations)
      modifies st
      ensures st.Db() == SetRoster(old(st.Db()), id, revision, Elements(participants))
      ensures st.Db() == Apply(old(st.Db()), AssignRoster(id, revision, Elements(participants)), durations)
      ensures Coherent(st.Db(), durations) && AllAdvance(old(st.Db()), st.Db()) && KeepsFlags(old(st.Db()), st.Db())
    {
      hide Coherent, AllAdvance, KeepsFlags;
      SetRosterFits(st.Db(), id, revision, Elements(participants), durations);
      assert (set p | p in participants :: RosterRow(id, revision, p))
          == set p | p in Elements(participants) :: RosterRow(id, revision, p);
      st.SetActiveRoster(id, revision, participants);
      if id !in st.plans {
        st.UpsertPlan(id, Plan(LinkedNotActive, None, None, None, None));
      }
    }

    method RecordActiveUse(id: string, now: Instant)
      requires Coherent(st.Db(), durations)
      modifies st
      ensures st.Db() == ActiveUse(old(st.Db()), id, durations, now)
      ensures st.Db() == Apply(old(st.Db()), RecordUse(id, now), durations)
      ensures Coherent(st.Db(), durations) && AllAdvance(old(st.Db()), st.Db()) && KeepsFlags(old(st.Db()), st.Db())
    {
      hide Coherent, AllAdvance, KeepsFlags, Roster, AnyConsumed, MarkConsumed;
      ghost var start := st.Db();
      ActiveUseFits(start, id, durations, now);
      NothingFits(start);
      var roster := st.ActiveRoster(id);
      if |roster| < 2 { return; }
      if id in st.plans && st.plans[id].activeUseStartedAt.Some? { return; }
      var consumed := st.AnyTrialConsumed(roster);
      var plan := Plan(ActiveTrial, None, None, None, Some(now));
      if consumed {
        plan := plan.(state := DelinquentGrace, graceEndsAt := Some(now + durations.grace));
      } else {
        plan := plan.(trialStartedAt := Some(now), trialEndsAt := Some(now + durations.trial));
        st.MarkTrialConsumed(roster, now);
      }
      st.UpsertPlan(id, plan);
    }

    method ReportLicense(id: string, participant: string, state: string)
      requires Coherent(st.Db(), durations)
      modifies st`licenses
      ensures st.Db() == PutLicense(old(st.Db()), id, participant, state)
      ensures st.Db() == Apply(old(st.Db()), Report(id, participant, state), durations)
      ensures Coherent(st.Db(), durations) && AllAdvance(old(st.Db()), st.Db()) && KeepsFlags(old(st.Db()), st.Db())
    {
      AdvanceOne(st.Db(), PutLicense(st.Db(), id, participant, state), id);
      st.UpsertLicenseStatus(id, participant, state);
    }

    method AllParticipantsPaid(id: string, roster: seq<string>) returns (all: bool)
      ensures all <==> roster != [] && forall m <- roster :: HasPaid(st.Db(), id, m)
    {
      if |roster| == 0 { return false; }
      for i := 0 to |roster|
        invariant forall j :: 0 <= j < i ==> HasPaid(st.Db(), id, roster[j])
      {
        var key := LicenseKey(id, roster[i]);
        if key !in st.licenses || st.licenses[key] != LicenseActivePaid {
          assert !HasPaid(st.Db(), id, roster[i]);
          return false;
        }
      }
      return true;
    }

    method RefreshPlanLifecycle(id: string, now: Instant)
      requires Coherent(st.Db(), durations)
      modifies st`plans
      ensures st.Db() == Refresh(old(st.Db()), id, durations, now)
      ensures st.Db() == Apply(old(st.Db()), RefreshPlan(id, now), durations)
      ensures Coherent(st.Db(), durations) && AllAdvance(old(st.Db()), st.Db()) && KeepsFlags(old(st.Db()), st.Db())
    {
      hide Coherent, AllAdvance, KeepsFlags, Roster;
      ghost var start := st.Db();
      RefreshFits(start, id, durations, now);
      if id !in st.plans { return; }
      var plan := st.plans[id];
      var roster := st.ActiveRoster(id);
      if |roster| == 0 { return; }
      assert roster[0] in Elements(roster);
      var allPaid := AllParticipantsPaid(id, roster);
      assert allPaid <==> AllPaid(start, id) by { PaidElements(start, id, roster); }
      if allPaid {
        plan := plan.(state := ActivePaid, graceEndsAt := None);
        st.UpsertPlan(id, plan);
        return;
      }
      if plan.state == ActiveTrial && plan.trialEndsAt.Some? && now > plan.trialEndsAt.value {
        plan := plan.(state := DelinquentGrace, graceEndsAt := Some(now + durations.grace));
        st.UpsertPlan(id, plan);
        return;
      }
      if plan.state == DelinquentGrace && plan.graceEndsAt.Some? && now > plan.graceEndsAt.value {
        plan := plan.(state := DelinquentReadonly);
        st.UpsertPlan(id, plan);
        return;
      }
      assert start.plans[id := plan] == start.plans;
    }

    method HousingPaid(installation: string, now: Instant) returns (paid: bool)
      ensures paid <==> Paid(st.Db(), installation, now)
    {
      var granting := set t | t in st.receipts && ReceiptGrants(st.receipts[t], installation, now);
      var free := installation in st.installations
                  && st.installations[installation].freeUntil.Some?
                    && st.installations[installation].freeUntil.value > now;
      paid := free || granting != {};
      if granting != {} {
        var t :| t in granting;
        assert ReceiptGrants(st.Db().receipts[t], installation, now);
      } else {
        forall t <- st.receipts ensures !ReceiptGrants(st.receipts[t], installation, now) {
          assert t !in granting;
        }
      }
    }

    // Report what an installation has paid to every plan it is on the active roster of; a
    // revocation makes the plans in use read-only at once.
    method ReprojectInstallationHousing(installation: string, revokeImmediately: bool, now: Instant)
      requires Coherent(st.Db(), durations)
      modifies st`licenses, st`plans
      ensures st.Db() == ReprojectInstallation(old(st.Db()), installation, revokeImmediately, durations, now)
      ensures st.Db() == Apply(old(st.Db()), Reprojection(installation, revokeImmediately, now), durations)
      ensures Coherent(st.Db(), durations) && AllAdvance(old(st.Db()), st.Db()) && KeepsFlags(old(st.Db()), st.Db())
    {
      hide Coherent, AllAdvance, KeepsFlags, Roster, Reproject, Refresh, Paid;
      ghost var start := st.Db();
      NothingFits(start);
      var paid := HousingPaid(installation, now);
      var state := if paid then LicenseActivePaid else LicenseUnpaid;
      var rest := set id | id in st.activeRevision && installation in MembersOf(st.rosters, id, st.activeRevision[id]);
      RosterMembers(start, installation, rest);
      ghost var done: set<string> := {};
      ReprojectNothing(start, installation, paid, revokeImmediately, durations, now);
      while rest != {}
        invariant done !! rest && done + rest == PlansOf(start, installation)
        invariant st.Db() == Reproject(start, done, installation, paid, revokeImmediately, durations, now)
        invariant Coherent(st.Db(), durations) && AllAdvance(start, st.Db()) && KeepsFlags(start, st.Db())
        decreases rest
      {
        var id :| id in rest;
        ghost var partly := st.Db();
        ReprojectOneMore(start, done, id, installation, paid, revokeImmediately, durations, now);
        ReprojectPlanFits(partly, id, installation, paid, revokeImmediately, durations, now);
        FitsTransitive(start, partly, ReprojectPlan(partly, id, installation, paid, revokeImmediately, durations, now));
        st.UpsertLicenseStatus(id, installation, state);
        if revokeImmediately && !paid && id in st.plans && st.plans[id].activeUseStartedAt.Some? {
          st.UpsertPlan(id, st.plans[id].(state := DelinquentReadonly));
        } else {
          CoherentPlans(partly, st.Db(), durations);
          RefreshPlanLifecycle(id, now);
        }
        rest := rest - {id};
        done := done + {id};
      }
      assert done == PlansOf(start, installation);
    }

    method RegisterInstallation(id: string)
      requires Coherent(st.Db(), durations)
      modifies st`installations
      ensures st.Db() == Apply(old(st.Db()), Register(id), durations)
      ensures Coherent(st.Db(), durations) && AllAdvance(old(st.Db()), st.Db()) && KeepsFlags(old(st.Db()), st.Db())
    {
      hide Coherent, AllAdvance, KeepsFlags;
      StoreWritesFit(st.Db(), Register(id), durations);
      st.RegisterInstallation(id);
    }

    method RecordExpenseDecision(id: string, expense: string, participant: string, kind: string)
      requires Coherent(st.Db(), durations)
      modifies st`decisions
      ensures st.Db() == Apply(old(st.Db()), Decision(id, expense, participant, kind), durations)
      ensures Coherent(st.Db(), durations) && AllAdvance(old(st.Db()), st.Db()) && KeepsFlags(old(st.Db()), st.Db())
    {
      hide Coherent, AllAdvance, KeepsFlags;
      StoreWritesFit(st.Db(), Decision(id, expense, participant, kind), durations);
      st.RecordExpenseDecision(id, expense, participant, kind);
    }

    // Register the buyer, keep the receipt, and tell every plan what the installation has paid now.
    method ApplyPlayResult(installation: string, token: string, receipt: Receipt, now: Instant)
      requires Coherent(st.Db(), durations)
      modifies st
      ensures st.Db() == Apply(old(st.Db()), ApplyPlay(installation, token, receipt, now), durations)
      ensures Coherent(st.Db(), durations) && AllAdvance(old(st.Db()), st.Db()) && KeepsFlags(old(st.Db()), st.Db())
    {
      hide Coherent, AllAdvance, KeepsFlags, Registered, PutReceipt, ReprojectInstallation, Reproject;
      ghost var start := st.Db();
      PurchasedFits(start, installation, token, receipt, durations);
      st.RegisterInstallation(installation);
      st.UpsertPlayReceipt(token, receipt.(installation := installation));
      ghost var bought := st.Db();
      ReprojectInstallationHousing(installation, false, now);
      FitsTransitive(start, bought, st.Db());
    }

    method Introspect(input: Input, now: Instant) returns (verdict: Verdict)
      requires Coherent(st.Db(), durations)
      modifies st
      ensures verdict == IntrospectVerdict(old(st.Db()), input, durations, now)
      ensures st.Db() == if Accepted(input) then IntrospectedDb(old(st.Db()), input, durations, now) else old(st.Db())
      ensures st.Db() == Apply(old(st.Db()), Introspection(input, now), durations)
      ensures Coherent(st.Db(), durations) && AllAdvance(old(st.Db()), st.Db()) && KeepsFlags(old(st.Db()), st.Db())
    {
      hide Coherent, AllAdvance, KeepsFlags, Roster, Refresh, ActiveUse;
      ghost var start := st.Db();
      NothingFits(start);
      if input.moduleName != "housing" {
        return Verdict(false, "entitlement_module_unsupported");
      }
      if input.plan == "" || input.participant == "" {
        return Verdict(false, "entitlement_gate_required");
      }
      IntrospectFits(start, input, durations, now);
      var op := Operation(input);
      if IsActiveUse(op) {
        RecordActiveUse(input.plan, now);
      }
      if input.decision != "" && input.expense != "" {
        st.RecordExpenseDecision(input.plan, input.expense, input.participant, input.decision);
      }
      ghost var decided := st.Db();
      UseFits(start, input, durations, now);
      DecideFits(Use(start, input, durations, now), input, durations);
      RefreshPlanLifecycle(input.plan, now);
      verdict := Answer(input, now);
    }

    // The answer, once the plan is refreshed.
    method Answer(input: Input, now: Instant) returns (verdict: Verdict)
      ensures verdict == Judge(st.Db(), input, now)
    {
      hide Roster, Operation, IsMutating, IsNegotiation;
      var op := Operation(input);
      var plan := if input.plan in st.plans then Some(st.plans[input.plan]) else None;
      if PreActiveUse(plan) && IsNegotiation(op) {
        return Allowed;
      }
      if plan.None? {
        return if IsMutating(op) then Verdict(false, "entitlement_not_entitled") else Allowed;
      }
      if plan.value.state == DelinquentReadonly && IsMutating(op) {
        return Verdict(false, "entitlement_plan_read_only");
      }
      var roster := st.ActiveRoster(input.plan);
      assert input.participant in roster <==> input.participant in Elements(roster);
      if input.participant !in roster && IsMutating(op) {
        return Verdict(false, "entitlement_not_entitled");
      }
      var allPaid := AllParticipantsPaid(input.plan, roster);
      PaidElements(st.Db(), input.plan, roster);
      if allPaid {
        return Allowed;
      }
      match plan.value.state
      case LinkedNotActive | ActiveTrial =>
        if plan.value.trialEndsAt.Some? && now > plan.value.trialEndsAt.value {
          return Verdict(false, "entitlement_trial_expired");
        }
        return Allowed;
      case ActivePaid => return Allowed;
      case DelinquentGrace => return Allowed;
      case DelinquentReadonly =>
        // Only requests that do not mutate get this far.
        return Allowed;
    }

    method MigrateInstallation(id: string, old_: string, new_: string) returns (outcome: Outcome)
      requires Coherent(st.Db(), durations)
      modifies st
      ensures outcome == MigrateOutcome(old(st.Db()), id, old_, new_)
      ensures st.Db() == Migrate(old(st.Db()), id, old_, new_)
      ensures st.Db() == Apply(old(st.Db()), Migration(id, old_, new_), durations)
      ensures Coherent(st.Db(), durations) && AllAdvance(old(st.Db()), st.Db())
    {
      hide Coherent, AllAdvance, Migrate, MigrateOutcome;
      MigrationStep(st.Db(), id, old_, new_, durations);
      outcome := st.MigrateInstallation(id, old_, new_);
    }
  }

  function MembersOf(rosters: set<RosterRow>, id: string, revision: string): set<string> {
    set r | r in rosters && r.plan == id && r.revision == revision :: r.participant
  }

  lemma RosterMembers(db: Database, installation: string, ids: set<string>)
    requires ids == set id | id in db.activeRevision && installation in MembersOf(db.rosters, id, db.activeRevision[id])
    ensures ids == PlansOf(db, installation)
  {
    forall id | id in db.activeRevision ensures MembersOf(db.rosters, id, db.activeRevision[id]) == Roster(db, id) {
    }
  }

  lemma CoherentPlans(db: Database, other: Database, d: Durations)
    requires Coherent(db, d) && other.plans == db.plans
    ensures Coherent(other, d)
  {
  }

  lemma PaidElements(db: Database, id: string, roster: seq<string>)
    requires Elements(roster) == Roster(db, id)
    ensures (roster != [] && forall m <- roster :: HasPaid(db, id, m)) <==> AllPaid(db, id)
  {
    hide Roster;
    if roster != [] { assert roster[0] in Elements(roster); }
    assert forall m :: m in roster <==> m in Elements(roster);
  }
}
