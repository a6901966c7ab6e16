// What the housing service lets through and how its plans move, stated by the requests themselves:
// operation names and envelope kinds, dates and durations, receipts and reports.
module HousingLaws {
  import opened Wrappers
  import opened FireTimes
  import opened HousingRules
  import opened HousingMigration
  import opened HousingRuns

  // ---------------------------------------------------------------------------------------------
  // Requests

  // The operation named, or else the envelope's kind, decides what a request is.
  predicate Proposes(input: Input) {
    || input.operation == "housing_realized_expense_propose" || input.operation == "realized_expense_propose"
    || (input.operation == "" && input.envelopeKind == 7)
  }

  predicate Settles(input: Input) {
    || input.operation == "housing_realized_expense_accept" || input.operation == "realized_expense_accept"
    || input.operation == "housing_realized_expense_reject" || input.operation == "realized_expense_reject"
    || (input.operation == "" && (input.envelopeKind == 8 || input.envelopeKind == 9))
  }

  predicate Negotiates(input: Input) {
    || input.operation == "housing_proposal" || input.operation == "housing_proposal_response"
    || (input.operation == "" && (input.envelopeKind == 5 || input.envelopeKind == 6))
  }

  lemma OperationsExactly(input: Input)
    ensures IsActiveUse(Operation(input)) <==> Proposes(input)
    ensures IsNegotiation(Operation(input)) <==> Negotiates(input)
    ensures IsMutating(Operation(input)) <==> Proposes(input) || Settles(input) || Negotiates(input)
  {
  }

  predicate Past(end: Option<Instant>, now: Instant) {
    end.Some? && now > end.value
  }

  // A request for another module or without plan or participant is refused; the answer to every other
  // one, by the plan as it stands after use is recorded and its dates are checked.
  lemma VerdictExactly(db: Database, input: Input, d: Durations, now: Instant)
    requires Coherent(db, d)
    ensures var verdict := IntrospectVerdict(db, input, d, now);
            var plan := PlanOf(IntrospectedDb(db, input, d, now), input.plan);
            var unused := plan.None? || plan.value.activeUseStartedAt.None?;
            verdict ==
              if input.moduleName != "housing" then Verdict(false, "entitlement_module_unsupported")
              else if input.plan == "" || input.participant == "" then Verdict(false, "entitlement_gate_required")
              else if Negotiates(input) && unused then Verdict(true, "allowed")
              else if Proposes(input) || Settles(input) || Negotiates(input) then
                if plan.None? then Verdict(false, "entitlement_not_entitled")
                else if plan.value.state == DelinquentReadonly then Verdict(false, "entitlement_plan_read_only")
                else if input.participant !in Roster(db, input.plan) then Verdict(false, "entitlement_not_entitled")
                else Verdict(true, "allowed")
              else if plan.Some? && plan.value.state == ActiveTrial && Past(plan.value.trialEndsAt, now) then
                Verdict(false, "entitlement_trial_expired")
              else Verdict(true, "allowed")
  {
    OperationsExactly(input);
    IntrospectedFacts(db, input, d, now);
    hide Coherent, Roster, Operation, IsMutating, IsNegotiation, IsActiveUse, IntrospectedDb, AllPaid, Proposes,
         Settles, Negotiates;
    RosterPaid(db, input.plan);
  }

  // On a read-only plan no request that proposes, settles or negotiates gets through until everyone has
  // paid, whoever sends it and however it names what it does.
  lemma ReadonlyRefuses(db: Database, input: Input, d: Durations, now: Instant)
    requires Coherent(db, d) && InState(PlanOf(db, input.plan), DelinquentReadonly) && !AllPaid(db, input.plan)
    requires input.moduleName == "housing" && input.plan != "" && input.participant != ""
    requires Proposes(input) || Settles(input) || Negotiates(input)
    ensures IntrospectVerdict(db, input, d, now) == Verdict(false, "entitlement_plan_read_only")
  {
    OperationsExactly(input);
    hide Coherent, AllPaid, Operation, IsMutating, Proposes, Settles, Negotiates, IsNegotiation, IsActiveUse,
         IntrospectVerdict;
    ReadonlyUntilPaid(db, input, d, now);
  }

  // What an accepted request writes besides: a decision if it carries one for an expense, and the start
  // of use if it proposes an expense for a plan with two members or more that is not in use.
  lemma IntrospectionWrites(db: Database, input: Input, d: Durations, now: Instant)
    requires Coherent(db, d)
    ensures var after := IntrospectedDb(db, input, d, now);
            var key := DecisionKey(input.plan, input.expense, input.participant);
            var before, plan := PlanOf(db, input.plan), PlanOf(after, input.plan);
            && after.decisions == (if input.decision != "" && input.expense != ""
                                   then db.decisions[key := input.decision] else db.decisions)
            && ((before.None? || before.value.activeUseStartedAt.None?) ==>
                  var starts := plan.Some? && plan.value.activeUseStartedAt == Some(now);
                  starts <==> Proposes(input) && |Roster(db, input.plan)| >= 2)
            && (before.Some? && before.value.activeUseStartedAt.Some? ==>
                  plan.Some? && plan.value.activeUseStartedAt == before.value.activeUseStartedAt)
            && (forall other :: other != input.plan ==> PlanOf(after, other) == PlanOf(db, other))
  {
    hide *;
    DecisionWritten(db, input, d, now);
    UseWritten(db, input, d, now);
  }

  lemma DecisionWritten(db: Database, input: Input, d: Durations, now: Instant)
    ensures var key := DecisionKey(input.plan, input.expense, input.participant);
            IntrospectedDb(db, input, d, now).decisions ==
              if input.decision != "" && input.expense != "" then db.decisions[key := input.decision] else db.decisions
  {
    UsedRest(db, input.plan, d, now);
    RefreshDates(Decide(Use(db, input, d, now), input), input.plan, d, now);
    hide ActiveUse, Operation, IsActiveUse, Refresh, Roster, PlanOf, StartsUse, PreActiveUse;
  }

  lemma UseWritten(db: Database, input: Input, d: Durations, now: Instant)
    requires Coherent(db, d)
    ensures var before, plan := PlanOf(db, input.plan), PlanOf(IntrospectedDb(db, input, d, now), input.plan);
            && ((before.None? || before.value.activeUseStartedAt.None?) ==>
                  var starts := plan.Some? && plan.value.activeUseStartedAt == Some(now);
                  starts <==> Proposes(input) && |Roster(db, input.plan)| >= 2)
            && (before.Some? && before.value.activeUseStartedAt.Some? ==>
                  plan.Some? && plan.value.activeUseStartedAt == before.value.activeUseStartedAt)
    ensures forall other :: other != input.plan ==>
              PlanOf(IntrospectedDb(db, input, d, now), other) == PlanOf(db, other)
  {
    OperationsExactly(input);
    var used := Use(db, input, d, now);
    UsedRest(db, input.plan, d, now);
    DecideParts(used, input);
    RefreshDates(Decide(used, input), input.plan, d, now);
    hide Coherent, Roster, ActiveUse, Operation, IsMutating, IsNegotiation, IsActiveUse, Proposes, Settles, Negotiates,
         Refresh, Decide, StartsUse;
  }

  lemma UsedRest(db: Database, id: string, d: Durations, now: Instant)
    ensures var after := ActiveUse(db, id, d, now);
            && after.decisions == db.decisions
            && (forall other :: other != id ==> PlanOf(after, other) == PlanOf(db, other))
            && (StartsUse(db, id) <==> |Roster(db, id)| >= 2 && PreActiveUse(PlanOf(db, id)))
            && if StartsUse(db, id) then id in after.plans && after.plans[id].activeUseStartedAt == Some(now)
               else after.plans == db.plans
  {
    ActiveUseParts(db, id, d, now);
    ActiveUseRest(db, id, d, now);
    hide Roster, AnyConsumed, MarkConsumed;
  }

  lemma RefreshDates(db: Database, id: string, d: Durations, now: Instant)
    ensures var after := Refresh(db, id, d, now);
            && after.decisions == db.decisions && after.plans.Keys == db.plans.Keys
            && forall p <- db.plans :: after.plans[p].activeUseStartedAt == db.plans[p].activeUseStartedAt
                                       && (p != id ==> after.plans[p] == db.plans[p])
  {
    if id in db.plans { RefreshedDate(db.plans[id], AllPaid(db, id), d, now); }
    hide Roster, AllPaid, RefreshedPlan;
  }

  lemma RefreshedDate(plan: Plan, paid: bool, d: Durations, now: Instant)
    ensures RefreshedPlan(plan, paid, d, now).activeUseStartedAt == plan.activeUseStartedAt
  {
  }

  // ---------------------------------------------------------------------------------------------
  // Dates

  // Use starts in a trial of the full length, from this moment, unless a registered member has used one
  // before; then in a grace period of the full length.
  lemma UseDates(db: Database, id: string, d: Durations, now: Instant)
    requires |Roster(db, id)| >= 2 && (PlanOf(db, id).None? || db.plans[id].activeUseStartedAt.None?)
    ensures PlanOf(Apply(db, RecordUse(id, now), d), id) == Some(
              if exists m <- Roster(db, id) :: m in db.installations && db.installations[m].trialConsumed
              then Plan(DelinquentGrace, None, None, Some(now + d.grace), Some(now))
              else Plan(ActiveTrial, Some(now), Some(now + d.trial), None, Some(now)))
  {
    assert AnyConsumed(db, Roster(db, id)) <==>
      exists m <- Roster(db, id) :: m in db.installations && db.installations[m].trialConsumed;
    hide Roster, MarkConsumed, AnyConsumed;
  }

  // Where a refresh takes a plan with anyone on its roster, by who has paid and by its dates.
  lemma RefreshMoves(db: Database, id: string, d: Durations, now: Instant)
    requires Coherent(db, d) && id in db.plans && Roster(db, id) != {}
    ensures var p, q := db.plans[id], PlanOf(Apply(db, RefreshPlan(id, now), d), id);
            var paid := forall m <- Roster(db, id) :: LicenseKey(id, m) in db.licenses
                                                    && db.licenses[LicenseKey(id, m)] == "active_paid";
            && (InState(q, ActivePaid) <==> paid || p.state == ActivePaid)
            && (InState(q, ActiveTrial) <==>
                  !paid && p.state == ActiveTrial && now <= p.activeUseStartedAt.value + d.trial)
            && (InState(q, DelinquentGrace) <==>
                  !paid && ((p.state == ActiveTrial && now > p.activeUseStartedAt.value + d.trial)
                            || (p.state == DelinquentGrace && now <= p.graceEndsAt.value)))
            && (InState(q, DelinquentReadonly) <==>
                  !paid && (p.state == DelinquentReadonly || (p.state == DelinquentGrace && now > p.graceEndsAt.value)))
            && (InState(q, DelinquentGrace) && p.state == ActiveTrial ==> q.value.graceEndsAt == Some(now + d.grace))
            && (q.Some? && q.value.trialEndsAt == p.trialEndsAt)
    ensures db.plans[id].state == ActiveTrial ==> db.plans[id].activeUseStartedAt.Some?
    ensures db.plans[id].state == DelinquentGrace ==> db.plans[id].graceEndsAt.Some?
  {
    CoherentPlan(db, id, d);
    PaidLiteral(db, id);
    hide Coherent, Roster, AllPaid;
  }

  lemma PaidLiteral(db: Database, id: string)
    requires Roster(db, id) != {}
    ensures AllPaid(db, id) <==> forall m <- Roster(db, id) :: LicenseKey(id, m) in db.licenses
                                                              && db.licenses[LicenseKey(id, m)] == "active_paid"
  {
    hide Roster;
    assert forall m :: HasPaid(db, id, m) <==>
      LicenseKey(id, m) in db.licenses && db.licenses[LicenseKey(id, m)] == "active_paid";
  }

  // The moment a call happens.
  function MomentOf(op: ServiceCall): Instant {
    match op
    case RecordUse(_, now) => now
    case ApplyPlay(_, _, _, now) => now
    case Reprojection(_, _, now) => now
    case RefreshPlan(_, now) => now
    case Introspection(_, now) => now
    case _ => 0
  }

  // Whichever call takes a plan into its grace period, it lasts the full length from that moment.
  lemma GraceLength(db: Database, op: ServiceCall, d: Durations, p: string)
    requires Coherent(db, d) && Enters(PlanOf(db, p), PlanOf(Apply(db, op, d), p), DelinquentGrace)
    ensures PlanOf(Apply(db, op, d), p).value.graceEndsAt == Some(MomentOf(op) + d.grace)
    ensures op.RecordUse? || op.ApplyPlay? || op.Reprojection? || op.RefreshPlan? || op.Introspection?
  {
    hide Coherent, ActiveUse, Refresh, IntrospectedDb, SetRoster, Migrate, Purchased, Reproject, PlansOf, Paid,
         MayGrantFree;
    match op
    case AssignRoster(plan, revision, participants) => RosterMovesNone(db, plan, revision, participants, p);
    case RecordUse(plan, now) => UseGrace(db, plan, d, now, p);
    case ApplyPlay(installation, token, receipt, now) =>
      PurchasedTables(db, installation, token, receipt);
      var bought := Purchased(db, installation, token, receipt);
      ReprojectGrace(bought, PlansOf(bought, installation), installation, Paid(bought, installation, now), false, d,
        now, p);
    case Reprojection(installation, revoke, now) =>
      ReprojectGrace(db, PlansOf(db, installation), installation, Paid(db, installation, now), revoke, d, now, p);
    case RefreshPlan(plan, now) => RefreshGrace(db, plan, d, now, p);
    case Introspection(input, now) => if Accepted(input) { IntrospectGrace(db, input, d, now, p); }
    case Migration(plan, from, into) => MigrationMovesNoPlan(db, plan, from, into);
    case _ => StoreWritesFit(db, op, d);
  }

  lemma RosterMovesNone(db: Database, plan: string, revision: string, participants: set<string>, p: string)
    ensures !InState(PlanOf(SetRoster(db, plan, revision, participants), p), DelinquentGrace)
         || PlanOf(SetRoster(db, plan, revision, participants), p) == PlanOf(db, p)
  {
  }

  lemma UseGrace(db: Database, plan: string, d: Durations, now: Instant, p: string)
    ensures var after := PlanOf(ActiveUse(db, plan, d, now), p);
            after == PlanOf(db, p)
              || (InState(after, DelinquentGrace) ==> after.value.graceEndsAt == Some(now + d.grace))
  {
    OnlyItsPlan(db, p, plan, d, now);
    hide Roster, AnyConsumed, MarkConsumed;
  }

  lemma RefreshGrace(db: Database, plan: string, d: Durations, now: Instant, p: string)
    ensures var after := PlanOf(Refresh(db, plan, d, now), p);
            Enters(PlanOf(db, p), after, DelinquentGrace) ==> after.value.graceEndsAt == Some(now + d.grace)
    ensures var before, after := PlanOf(db, p), PlanOf(Refresh(db, plan, d, now), p);
            InState(before, DelinquentGrace) && InState(after, DelinquentGrace) ==> after == before
  {
    hide Roster, AllPaid;
  }

  lemma ReprojectGrace(db: Database, ids: set<string>, installation: string, paid: bool, revoke: bool, d: Durations,
                       now: Instant, p: string)
    ensures var after := PlanOf(Reproject(db, ids, installation, paid, revoke, d, now), p);
            Enters(PlanOf(db, p), after, DelinquentGrace) ==> after.value.graceEndsAt == Some(now + d.grace)
  {
    hide Roster, AllPaid, PutLicense;
  }

  lemma IntrospectGrace(db: Database, input: Input, d: Durations, now: Instant, p: string)
    ensures var after := PlanOf(IntrospectedDb(db, input, d, now), p);
            Enters(PlanOf(db, p), after, DelinquentGrace) ==> after.value.graceEndsAt == Some(now + d.grace)
  {
    var used := Use(db, input, d, now);
    UseGrace(db, input.plan, d, now, p);
    DecideParts(used, input);
    RefreshGrace(Decide(used, input), input.plan, d, now, p);
    hide ActiveUse, Refresh, Operation, IsActiveUse;
  }

  // ---------------------------------------------------------------------------------------------
  // Licences

  // What a reprojection reports: on every plan whose active roster has the installation, that it has
  // paid exactly while a free licence or a valid receipt for housing with a token runs; nothing else.
  lemma ReportedExactly(db: Database, installation: string, revoke: bool, d: Durations, now: Instant)
    ensures var after := Apply(db, Reprojection(installation, revoke, now), d);
            var free := if installation in db.installations then db.installations[installation].freeUntil else None;
            var paid := (free.Some? && free.value > now)
                     || exists t :: t in db.receipts && db.receipts[t].installation == installation
                                    && db.receipts[t].valid && "housing" in db.receipts[t].modules
                                    && (db.receipts[t].expiresAt.None? || db.receipts[t].expiresAt.value > now);
            forall k: LicenseKey ::
              if k.participant == installation && installation in Roster(db, k.plan) then
                k in after.licenses && after.licenses[k] == (if paid then "active_paid" else "unpaid")
              else LicenceAt(after, k) == LicenceAt(db, k)
  {
    var after := Apply(db, Reprojection(installation, revoke, now), d);
    PaidExactly(db, installation, now);
    hide Paid, Roster, ReprojectedPlan;
    forall id ensures id in PlansOf(db, installation) <==> installation in Roster(db, id) { OnNoRoster(db, id); }
    hide PlansOf;
    forall k: LicenseKey ensures k in after.licenses <==> LicenceAt(after, k).Some? {}
    forall k: LicenseKey | !(k.participant == installation && installation in Roster(db, k.plan))
      ensures LicenceAt(after, k) == LicenceAt(db, k)
    {
    }
    forall k: LicenseKey | k.participant == installation && installation in Roster(db, k.plan)
      ensures LicenceAt(after, k) == Some(if Paid(db, installation, now) then "active_paid" else "unpaid")
    {
      assert k == LicenseKey(k.plan, installation);
    }
  }

  function LicenceAt(db: Database, k: LicenseKey): Option<string> {
    if k in db.licenses then Some(db.licenses[k]) else None
  }

  lemma OnNoRoster(db: Database, id: string)
    ensures id !in db.activeRevision ==> Roster(db, id) == {}
  {
  }

  lemma PaidExactly(db: Database, installation: string, now: Instant)
    ensures var free := if installation in db.installations then db.installations[installation].freeUntil else None;
            Paid(db, installation, now) <==>
              || (free.Some? && free.value > now)
              || exists t :: t in db.receipts && db.receipts[t].installation == installation
                             && db.receipts[t].valid && "housing" in db.receipts[t].modules
                             && (db.receipts[t].expiresAt.None? || db.receipts[t].expiresAt.value > now)
  {
    forall t <- db.receipts
      ensures ReceiptGrants(db.receipts[t], installation, now) <==>
        && db.receipts[t].installation == installation && db.receipts[t].valid && "housing" in db.receipts[t].modules
        && (db.receipts[t].expiresAt.None? || db.receipts[t].expiresAt.value > now)
    {
    }
  }

  // Each plan with the installation on its active roster then goes where a refresh with the licence
  // reported takes it, or straight to read-only if an unpaid licence is revoked while it is in use.
  lemma ReprojectedPlansExactly(db: Database, installation: string, revoke: bool, d: Durations, now: Instant, p: string)
    ensures var after := Apply(db, Reprojection(installation, revoke, now), d);
            var refreshed := Apply(db.(licenses := after.licenses), RefreshPlan(p, now), d);
            PlanOf(after, p) ==
              if p !in db.plans || installation !in Roster(db, p) then PlanOf(db, p)
              else if revoke && LicenceAt(after, LicenseKey(p, installation)) == Some("unpaid")
                      && db.plans[p].activeUseStartedAt.Some? then Some(db.plans[p].(state := DelinquentReadonly))
              else PlanOf(refreshed, p)
  {
    OnNoRoster(db, p);
    if p in db.plans && installation in Roster(db, p) {
      ReprojectedByRefresh(db, installation, revoke, d, now, p);
    }
    hide Paid, Roster, AllPaid, RefreshedPlan, Refresh, ReprojectedPlan, LicenceAt;
  }

  lemma ReprojectedByRefresh(db: Database, installation: string, revoke: bool, d: Durations, now: Instant, p: string)
    requires p in db.plans && p in db.activeRevision && installation in Roster(db, p)
    ensures var after := Apply(db, Reprojection(installation, revoke, now), d);
            var refreshed := Apply(db.(licenses := after.licenses), RefreshPlan(p, now), d);
            PlanOf(after, p) ==
              if revoke && LicenceAt(after, LicenseKey(p, installation)) == Some("unpaid")
                 && db.plans[p].activeUseStartedAt.Some? then Some(db.plans[p].(state := DelinquentReadonly))
              else PlanOf(refreshed, p)
  {
    var after := Apply(db, Reprojection(installation, revoke, now), d);
    var paid := Paid(db, installation, now);
    hide Paid, Roster, AllPaid, RefreshedPlan;
    var reported := PutLicense(db, p, installation, if paid then LicenseActivePaid else LicenseUnpaid);
    ReportedForPlan(db, reported, after, PlansOf(db, installation), installation, paid, p);
    SameReports(db, reported, db.(licenses := after.licenses), p);
    SameRosters(db, db.(licenses := after.licenses), p);
  }

  lemma ReportedForPlan(db: Database, reported: Database, after: Database, ids: set<string>, installation: string,
                        paid: bool, p: string)
    requires p in ids
    requires reported == PutLicense(db, p, installation, if paid then LicenseActivePaid else LicenseUnpaid)
    requires var keys := set id | id in ids :: LicenseKey(id, installation);
             after.licenses == map k | k in db.licenses.Keys + keys ::
               if k in keys then (if paid then LicenseActivePaid else LicenseUnpaid) else db.licenses[k]
    ensures forall m :: LicenceAt(reported, LicenseKey(p, m)) == LicenceAt(after, LicenseKey(p, m))
    ensures LicenceAt(after, LicenseKey(p, installation)) == Some(if paid then "active_paid" else "unpaid")
  {
  }

  lemma SameReports(db: Database, one: Database, other: Database, p: string)
    requires one == db.(licenses := one.licenses) && other == db.(licenses := other.licenses)
    requires forall m :: LicenceAt(one, LicenseKey(p, m)) == LicenceAt(other, LicenseKey(p, m))
    ensures AllPaid(one, p) <==> AllPaid(other, p)
  {
    SameRosters(db, one, p);
    SameRosters(db, other, p);
    hide Roster;
    forall m ensures HasPaid(one, p, m) <==> HasPaid(other, p, m) {
      assert LicenceAt(one, LicenseKey(p, m)) == LicenceAt(other, LicenseKey(p, m));
    }
  }

  // What a purchase writes before it reprojects: the installation, its receipt under the token that
  // it came with, or as one more row without a token.
  lemma PurchaseExactly(db: Database, installation: string, token: string, receipt: Receipt, d: Durations, now: Instant)
    ensures var row := receipt.(installation := installation);
            var bought := db.(
              installations := if installation in db.installations then db.installations
                               else db.installations[installation := Installation(false, None, None, None)],
              receipts := if token == "" then db.receipts else db.receipts[token := row],
              untokened := if token == "" then db.untokened + [row] else db.untokened);
            Apply(db, ApplyPlay(installation, token, receipt, now), d)
              == Apply(bought, Reprojection(installation, false, now), d)
  {
    hide ReprojectInstallation;
  }

  function RecordOf(db: Database, m: string): Installation {
    if m in db.installations then db.installations[m] else Installation(false, None, None, None)
  }

  // A free licence is given exactly to a registered installation that has none, unless a receipt of
  // its own, with or without a token, has neither run out nor been cancelled or expired.
  lemma FreeLicenceExactly(db: Database, installation: string, now: Instant, until: Instant, m: string)
    ensures var granted := Apply(db, GrantFree(installation, now, until), Durations(0, 0));
            var own := (set t | t in db.receipts :: db.receipts[t]) + (set r | r in db.untokened);
            var free := installation in db.installations && db.installations[installation].freeUntil.None?
                     && forall r <- own :: r.installation == installation ==>
                          || r.subscriptionState in {"SUBSCRIPTION_STATE_CANCELED", "SUBSCRIPTION_STATE_EXPIRED"}
                          || (r.expiresAt.Some? && r.expiresAt.value <= now);
            && granted == db.(installations := granted.installations)
            && granted.installations.Keys == db.installations.Keys
            && RecordOf(granted, m) == RecordOf(db, m).(
                 freeUntil := if m == installation && free then Some(until) else RecordOf(db, m).freeUntil)
  {
    BlocksExactly(db, installation, now);
    hide Blocks, MayGrantFree;
  }

  lemma BlocksExactly(db: Database, installation: string, now: Instant)
    ensures var own := (set t | t in db.receipts :: db.receipts[t]) + (set r | r in db.untokened);
            MayGrantFree(db, installation, now) <==>
              && installation in db.installations && db.installations[installation].freeUntil.None?
              && forall r <- own :: r.installation == installation ==>
                   || r.subscriptionState in {"SUBSCRIPTION_STATE_CANCELED", "SUBSCRIPTION_STATE_EXPIRED"}
                   || (r.expiresAt.Some? && r.expiresAt.value <= now)
  {
    var own := (set t | t in db.receipts :: db.receipts[t]) + (set r | r in db.untokened);
    forall r: Receipt
      ensures Blocks(r, installation, now) <==> !(r.installation == installation ==>
        || r.subscriptionState in {"SUBSCRIPTION_STATE_CANCELED", "SUBSCRIPTION_STATE_EXPIRED"}
        || (r.expiresAt.Some? && r.expiresAt.value <= now))
    {
    }
    hide Blocks;
    assert forall t <- db.receipts :: db.receipts[t] in own;
  }

  lemma FreeClearedExactly(db: Database, installation: string, m: string)
    ensures var cleared := Apply(db, ClearFree(installation), Durations(0, 0));
            && cleared == db.(installations := cleared.installations)
            && cleared.installations.Keys == db.installations.Keys
            && RecordOf(cleared, m) == RecordOf(db, m).(
                 freeUntil := if m == installation then None else RecordOf(db, m).freeUntil)
  {
  }

  // ---------------------------------------------------------------------------------------------
  // Rosters and migration

  // A roster has whoever was ever listed for its revision; only its own plan's roster changes, and a
  // plan not there yet is created, linked and not active.
  lemma RosterExactly(db: Database, plan: string, revision: string, participants: set<string>, d: Durations, m: string,
                      other: string)
    ensures var after := Apply(db, AssignRoster(plan, revision, participants), d);
            && (m in Roster(after, plan) <==> m in participants || RosterRow(plan, revision, m) in db.rosters)
            && (other != plan ==>
                  Roster(after, other) == Roster(db, other) && PlanOf(after, other) == PlanOf(db, other))
            && PlanOf(after, plan) == (if plan in db.plans then PlanOf(db, plan)
                                       else Some(Plan(LinkedNotActive, None, None, None, None)))
  {
    var after := Apply(db, AssignRoster(plan, revision, participants), d);
    RosterMember(after, plan, m);
    if other != plan {
      forall k ensures k in Roster(after, other) <==> k in Roster(db, other) {
        RosterMember(after, other, k);
        RosterMember(db, other, k);
      }
    }
  }

  function RowAfter(r: RosterRow, plan: string, from: string, into: string): RosterRow {
    if r.plan == plan && r.participant == from then RosterRow(plan, r.revision, into) else r
  }

  function DecisionAfter(k: DecisionKey, plan: string, from: string, into: string): DecisionKey {
    if k.plan == plan && k.participant == from then DecisionKey(plan, k.expense, into) else k
  }

  function LicenceAfter(k: LicenseKey, plan: string, from: string, into: string): LicenseKey {
    if k.plan == plan && k.participant == from then LicenseKey(plan, into) else k
  }

  // The answer to a migration: a conflict exactly if two rows of one table would end up under one key.
  lemma OutcomeExactly(db: Database, plan: string, from: string, into: string)
    ensures var outcome := MigrateOutcome(db, plan, from, into);
            && (outcome == AlreadyDone <==> from !in Roster(db, plan) && into in Roster(db, plan))
            && (outcome == OldInstallationNotFound <==> from !in Roster(db, plan) && into !in Roster(db, plan))
            && (outcome == Conflict <==>
                  && from in Roster(db, plan)
                  && ((exists r, s :: r in db.rosters && s in db.rosters && r != s
                                      && RowAfter(r, plan, from, into) == RowAfter(s, plan, from, into))
                      || (exists k, l :: k in db.decisions && l in db.decisions && k != l
                                         && DecisionAfter(k, plan, from, into) == DecisionAfter(l, plan, from, into))
                      || (exists k, l :: k in db.licenses && l in db.licenses && k != l
                                         && LicenceAfter(k, plan, from, into) == LicenceAfter(l, plan, from, into))))
  {
    RostersCollide(db.rosters, plan, from, into);
    DecisionsCollide(db.decisions, plan, from, into);
    LicencesCollide(db.licenses, plan, from, into);
    hide Roster, RostersClash, DecisionsClash, LicensesClash;
  }

  lemma RostersCollide(rosters: set<RosterRow>, plan: string, from: string, into: string)
    ensures RostersClash(rosters, plan, from, into) <==>
      exists r, s :: r in rosters && s in rosters && r != s
                     && RowAfter(r, plan, from, into) == RowAfter(s, plan, from, into)
  {
    if RostersClash(rosters, plan, from, into) {
      var r :| r in rosters && r.plan == plan && r.participant == from && r.(participant := into) in rosters;
      var s := r.(participant := into);
      assert RowAfter(r, plan, from, into) == RowAfter(s, plan, from, into);
    }
    forall r, s | r in rosters && s in rosters && r != s
                  && RowAfter(r, plan, from, into) == RowAfter(s, plan, from, into)
      ensures RostersClash(rosters, plan, from, into)
    {
      assert r == s.(participant := into) || s == r.(participant := into);
    }
  }

  lemma DecisionsCollide(decisions: map<DecisionKey, string>, plan: string, from: string, into: string)
    ensures DecisionsClash(decisions, plan, from, into) <==>
      exists k, l :: k in decisions && l in decisions && k != l
                     && DecisionAfter(k, plan, from, into) == DecisionAfter(l, plan, from, into)
  {
    if DecisionsClash(decisions, plan, from, into) {
      var k :| k in decisions && k.plan == plan && k.participant == from && k.(participant := into) in decisions;
      var l := k.(participant := into);
      assert DecisionAfter(k, plan, from, into) == DecisionAfter(l, plan, from, into);
    }
    forall k, l | k in decisions && l in decisions && k != l
                  && DecisionAfter(k, plan, from, into) == DecisionAfter(l, plan, from, into)
      ensures DecisionsClash(decisions, plan, from, into)
    {
      assert k == l.(participant := into) || l == k.(participant := into);
    }
  }

  lemma LicencesCollide(licences: map<LicenseKey, string>, plan: string, from: string, into: string)
    ensures LicensesClash(licences, plan, from, into) <==>
      exists k, l :: k in licences && l in licences && k != l
                     && LicenceAfter(k, plan, from, into) == LicenceAfter(l, plan, from, into)
  {
    if LicensesClash(licences, plan, from, into) {
      var k, l := LicenseKey(plan, from), LicenseKey(plan, into);
      assert LicenceAfter(k, plan, from, into) == LicenceAfter(l, plan, from, into);
    }
  }

  // A migration that succeeds moves every row of the plan under its new key with nothing lost, hands
  // every receipt over, and leaves the new installation what either of the two had.
  lemma MigratedRows(db: Database, plan: string, from: string, into: string, d: Durations)
    requires MigrateOutcome(db, plan, from, into) == Migrated && from != into
    ensures var after := Apply(db, Migration(plan, from, into), d);
            && (forall k <- db.decisions :: var l := DecisionAfter(k, plan, from, into);
                  l in after.decisions && after.decisions[l] == db.decisions[k])
            && (forall k <- db.licenses :: LicenceAt(after, LicenceAfter(k, plan, from, into)) == Some(db.licenses[k]))
            && (forall l <- after.decisions :: exists k <- db.decisions :: DecisionAfter(k, plan, from, into) == l)
            && (forall l <- after.licenses :: exists k <- db.licenses :: LicenceAfter(k, plan, from, into) == l)
  {
    hide *;
    MigratedTables(db, plan, from, into, d);
    var after := Apply(db, Migration(plan, from, into), d);
    MigratedDecisions(db.decisions, after.decisions, plan, from, into);
    MigratedLicences(db, after, plan, from, into);
  }

  lemma MigratedTables(db: Database, plan: string, from: string, into: string, d: Durations)
    requires MigrateOutcome(db, plan, from, into) == Migrated
    ensures var after := Apply(db, Migration(plan, from, into), d);
            && after.decisions == RenameDecisions(db.decisions, plan, from, into)
            && after.licenses == RenameLicenses(db.licenses, plan, from, into)
            && !DecisionsClash(db.decisions, plan, from, into) && !LicensesClash(db.licenses, plan, from, into)
  {
    hide Roster, RenameDecisions, RenameLicenses, RenameRosters, RenameInstallation, RenameReceipts, RenameUntokened,
         RostersClash, DecisionsClash, LicensesClash;
  }

  lemma MigratedDecisions(decisions: map<DecisionKey, string>, after: map<DecisionKey, string>, plan: string,
                          from: string, into: string)
    requires !DecisionsClash(decisions, plan, from, into) && from != into
    requires after == RenameDecisions(decisions, plan, from, into)
    ensures && (forall k <- decisions :: var l := DecisionAfter(k, plan, from, into);
                  l in after && after[l] == decisions[k])
            && forall l <- after :: exists k <- decisions :: DecisionAfter(k, plan, from, into) == l
  {
  }

  lemma MigratedLicences(db: Database, after: Database, plan: string, from: string, into: string)
    requires !LicensesClash(db.licenses, plan, from, into) && from != into
    requires after.licenses == RenameLicenses(db.licenses, plan, from, into)
    ensures && (forall k <- db.licenses :: LicenceAt(after, LicenceAfter(k, plan, from, into)) == Some(db.licenses[k]))
            && forall l <- after.licenses :: exists k <- db.licenses :: LicenceAfter(k, plan, from, into) == l
  {
  }

  lemma MigratedRecords(db: Database, plan: string, from: string, into: string, d: Durations)
    requires MigrateOutcome(db, plan, from, into) == Migrated && from != into
    ensures var after := Apply(db, Migration(plan, from, into), d);
            && after.receipts.Keys == db.receipts.Keys
            && (forall t <- db.receipts :: after.receipts[t] == db.receipts[t].(
                  installation := if db.receipts[t].installation == from then into else db.receipts[t].installation))
            && |after.untokened| == |db.untokened|
            && (forall i | 0 <= i < |db.untokened| :: after.untokened[i] == db.untokened[i].(
                  installation := if db.untokened[i].installation == from then into else db.untokened[i].installation))
            && after.installations.Keys == db.installations.Keys - {from} + {into}
            && forall m <- db.installations :: m != from && m != into ==>
                 after.installations[m] == db.installations[m]
    ensures var old_, new_ := RecordOf(db, from), RecordOf(db, into);
            Apply(db, Migration(plan, from, into), d).installations[into] == Installation(
              old_.trialConsumed || new_.trialConsumed,
              if new_.trialConsumedAt.Some? then new_.trialConsumedAt else old_.trialConsumedAt,
              if new_.freeUntil.Some? then new_.freeUntil else old_.freeUntil, new_.push)
  {
    hide RenameRosters, RenameDecisions, RenameLicenses, RostersClash, DecisionsClash, LicensesClash, Roster;
  }
}
