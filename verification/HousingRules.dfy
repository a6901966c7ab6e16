// The housing entitlement lifecycle as a function of the database: what each call does to the
// tables, and what holds over every run of calls.
module HousingRules {
  import opened Wrappers
  import opened FireTimes

  datatype State = LinkedNotActive | ActiveTrial | ActivePaid | DelinquentGrace | DelinquentReadonly

  datatype Plan = Plan(
    state: State,
    trialStartedAt: Option<Instant>,
    trialEndsAt: Option<Instant>,
    graceEndsAt: Option<Instant>,
    activeUseStartedAt: Option<Instant>)

  datatype PushAddress = PushAddress(provider: string, token: string)

  datatype Installation = Installation(
    trialConsumed: bool, trialConsumedAt: Option<Instant>, freeUntil: Option<Instant>, push: Option<PushAddress>)

  const NewInstallation := Installation(false, None, None, None)

  datatype RosterRow = RosterRow(plan: string, revision: string, participant: string)
  datatype LicenseKey = LicenseKey(plan: string, participant: string)
  datatype DecisionKey = DecisionKey(plan: string, expense: string, participant: string)
  datatype Receipt = Receipt(
    installation: string, valid: bool, modules: set<string>, expiresAt: Option<Instant>, subscriptionState: string)

  datatype Database = Database(
    installations: map<string, Installation>,
    plans: map<string, Plan>,
    rosters: set<RosterRow>,
    activeRevision: map<string, string>,
    licenses: map<LicenseKey, string>,
    decisions: map<DecisionKey, string>,
    receipts: map<string, Receipt>,
    untokened: seq<Receipt>)

  datatype Durations = Durations(trial: nat, grace: nat)

  const LicenseActivePaid := "active_paid"
  const LicenseUnpaid := "unpaid"
  const ModuleHousing := "housing"

  // ---------------------------------------------------------------------------------------------
  // Reading the tables

  function PlanOf(db: Database, id: string): Option<Plan> {
    if id in db.plans then Some(db.plans[id]) else None
  }

  function Roster(db: Database, id: string): set<string> {
    if id in db.activeRevision then
      set r | r in db.rosters && r.plan == id && r.revision == db.activeRevision[id] :: r.participant
    else {}
  }

  predicate HasPaid(db: Database, id: string, member: string) {
    LicenseKey(id, member) in db.licenses && db.licenses[LicenseKey(id, member)] == LicenseActivePaid
  }

  predicate AllPaid(db: Database, id: string) {
    Roster(db, id) != {} && forall m <- Roster(db, id) :: HasPaid(db, id, m)
  }

  predicate Consumed(db: Database, installation: string) {
    installation in db.installations && db.installations[installation].trialConsumed
  }

  predicate AnyConsumed(db: Database, ids: set<string>) {
    exists m <- ids :: Consumed(db, m)
  }

  // ---------------------------------------------------------------------------------------------
  // What the calls do

  function PutPlan(db: Database, id: string, plan: Plan): Database {
    db.(plans := db.plans[id := plan])
  }

  function MarkConsumed(db: Database, ids: set<string>, at: Instant): Database {
    db.(installations := map m | m in db.installations ::
          if m in ids then Consume(db.installations[m], at) else db.installations[m])
  }

  function Consume(i: Installation, at: Instant): Installation {
    i.(trialConsumed := true, trialConsumedAt := if i.trialConsumedAt.Some? then i.trialConsumedAt else Some(at))
  }

  function SetRoster(db: Database, id: string, revision: string, participants: set<string>): Database {
    var rows := set p | p in participants :: RosterRow(id, revision, p);
    db.(rosters := db.rosters + rows,
        activeRevision := db.activeRevision[id := revision],
        plans := if id in db.plans then db.plans else db.plans[id := Plan(LinkedNotActive, None, None, None, None)])
  }

  predicate StartsUse(db: Database, id: string) {
    |Roster(db, id)| >= 2 && (PlanOf(db, id).None? || db.plans[id].activeUseStartedAt.None?)
  }

  function ActiveUse(db: Database, id: string, d: Durations, now: Instant): Database {
    if !StartsUse(db, id) then db
    else if AnyConsumed(db, Roster(db, id)) then
      PutPlan(db, id, Plan(DelinquentGrace, None, None, Some(now + d.grace), Some(now)))
    else
      PutPlan(MarkConsumed(db, Roster(db, id), now), id,
        Plan(ActiveTrial, Some(now), Some(now + d.trial), None, Some(now)))
  }

  function RefreshedPlan(plan: Plan, allPaid: bool, d: Durations, now: Instant): Plan {
    if allPaid then plan.(state := ActivePaid, graceEndsAt := None)
    else if plan.state == ActiveTrial && plan.trialEndsAt.Some? && now > plan.trialEndsAt.value then
      plan.(state := DelinquentGrace, graceEndsAt := Some(now + d.grace))
    else if plan.state == DelinquentGrace && plan.graceEndsAt.Some? && now > plan.graceEndsAt.value then
      plan.(state := DelinquentReadonly)
    else plan
  }

  function Refresh(db: Database, id: string, d: Durations, now: Instant): Database {
    if id !in db.plans || Roster(db, id) == {} then db
    else PutPlan(db, id, RefreshedPlan(db.plans[id], AllPaid(db, id), d, now))
  }

  // Whether some valid receipt with a token, or a free licence, grants housing at this moment.
  predicate ReceiptGrants(r: Receipt, installation: string, now: Instant) {
    && r.installation == installation && r.valid && ModuleHousing in r.modules
    && (r.expiresAt.Some? ==> r.expiresAt.value > now)
  }

  predicate FreeGrants(db: Database, installation: string, now: Instant) {
    && installation in db.installations
    && db.installations[installation].freeUntil.Some? && db.installations[installation].freeUntil.value > now
  }

  predicate Paid(db: Database, installation: string, now: Instant) {
    FreeGrants(db, installation, now) || exists i <- db.receipts :: ReceiptGrants(db.receipts[i], installation, now)
  }

  function PlansOf(db: Database, installation: string): set<string> {
    set id | id in db.activeRevision && installation in Roster(db, id)
  }

  function PutLicense(db: Database, id: string, member: string, state: string): Database {
    db.(licenses := db.licenses[LicenseKey(id, member) := state])
  }

  function ReprojectPlan(db: Database, id: string, installation: string, paid: bool, revoke: bool, d: Durations,
                         now: Instant): Database {
    var reported := PutLicense(db, id, installation, if paid then LicenseActivePaid else LicenseUnpaid);
    if revoke && !paid && id in db.plans && db.plans[id].activeUseStartedAt.Some? then
      PutPlan(reported, id, db.plans[id].(state := DelinquentReadonly))
    else Refresh(reported, id, d, now)
  }

  function Registered(db: Database, id: string): Database {
    if id in db.installations then db
    else db.(installations := db.installations[id := NewInstallation])
  }

  function PutPushAddress(db: Database, id: string, push: PushAddress): Database {
    var row := if id in db.installations then db.installations[id] else NewInstallation;
    db.(installations := db.installations[id := row.(push := Some(push))])
  }

  // Receipts with a token replace each other; each one without is a row of its own.
  function PutReceipt(db: Database, token: string, receipt: Receipt): Database {
    if token == "" then db.(untokened := db.untokened + [receipt])
    else db.(receipts := db.receipts[token := receipt])
  }

  // A receipt stands in the way of a free licence unless its subscription was cancelled or expired,
  // or its time is over.
  predicate Blocks(r: Receipt, installation: string, now: Instant) {
    && r.installation == installation
    && r.subscriptionState != "SUBSCRIPTION_STATE_CANCELED" && r.subscriptionState != "SUBSCRIPTION_STATE_EXPIRED"
    && (r.expiresAt.Some? ==> r.expiresAt.value > now)
  }

  predicate MayGrantFree(db: Database, installation: string, now: Instant) {
    && installation in db.installations && db.installations[installation].freeUntil.None?
    && (forall t <- db.receipts :: !Blocks(db.receipts[t], installation, now))
    && forall r <- db.untokened :: !Blocks(r, installation, now)
  }

  function GrantedFree(db: Database, installation: string, now: Instant, until: Instant): Database {
    if MayGrantFree(db, installation, now) then
      db.(installations := db.installations[installation := db.installations[installation].(freeUntil := Some(until))])
    else db
  }

  function ClearedFree(db: Database, installation: string): Database {
    if installation in db.installations then
      db.(installations := db.installations[installation := db.installations[installation].(freeUntil := None)])
    else db
  }

  // Reprojecting one installation onto a set of plans, each on its own.
  function ReprojectedPlan(db: Database, id: string, installation: string, paid: bool, revoke: bool, d: Durations,
                           now: Instant): Plan
    requires id in db.plans
  {
    if revoke && !paid && db.plans[id].activeUseStartedAt.Some? then db.plans[id].(state := DelinquentReadonly)
    else
      var reported := PutLicense(db, id, installation, if paid then LicenseActivePaid else LicenseUnpaid);
      RefreshedPlan(db.plans[id], AllPaid(reported, id), d, now)
  }

  function Reproject(db: Database, ids: set<string>, installation: string, paid: bool, revoke: bool, d: Durations,
                     now: Instant): Database {
    var reported := set id | id in ids :: LicenseKey(id, installation);
    db.(licenses := map k | k in db.licenses.Keys + reported ::
          if k in reported then (if paid then LicenseActivePaid else LicenseUnpaid) else db.licenses[k],
        plans := map id | id in db.plans ::
          if id in ids then ReprojectedPlan(db, id, installation, paid, revoke, d, now) else db.plans[id])
  }

  // The plans with the installation on their active roster learn what it has paid.
  function ReprojectInstallation(db: Database, installation: string, revoke: bool, d: Durations,
                                 now: Instant): Database {
    Reproject(db, PlansOf(db, installation), installation, Paid(db, installation, now), revoke, d, now)
  }

  // ---------------------------------------------------------------------------------------------
  // Introspection

  datatype Input = Input(
    moduleName: string, plan: string, participant: string, operation: string, expense: string, decision: string,
    envelopeKind: int)

  datatype Verdict = Verdict(allow: bool, code: string)

  const Allowed := Verdict(true, "allowed")

  predicate IsActiveUse(op: string) {
    op == "housing_realized_expense_propose" || op == "realized_expense_propose"
  }

  predicate IsNegotiation(op: string) {
    op == "housing_proposal" || op == "housing_proposal_response"
  }

  predicate IsMutating(op: string) {
    IsNegotiation(op) || IsActiveUse(op)
    || op == "housing_realized_expense_accept" || op == "realized_expense_accept"
    || op == "housing_realized_expense_reject" || op == "realized_expense_reject"
  }

  function OperationFromKind(kind: int): string {
    match kind
    case 5 => "housing_proposal"
    case 6 => "housing_proposal_response"
    case 7 => "housing_realized_expense_propose"
    case 8 => "housing_realized_expense_accept"
    case 9 => "housing_realized_expense_reject"
    case _ => ""
  }

  function Operation(input: Input): string {
    if input.operation == "" then OperationFromKind(input.envelopeKind) else input.operation
  }

  predicate Accepted(input: Input) {
    input.moduleName == "housing" && input.plan != "" && input.participant != ""
  }

  predicate PreActiveUse(plan: Option<Plan>) {
    plan.None? || plan.value.activeUseStartedAt.None?
  }

  function Decided(db: Database, plan: string, expense: string, participant: string, decision: string): Database {
    db.(decisions := db.decisions[DecisionKey(plan, expense, participant) := decision])
  }

  function Decide(db: Database, input: Input): Database {
    if input.decision != "" && input.expense != "" then
      Decided(db, input.plan, input.expense, input.participant, input.decision)
    else db
  }

  function Use(db: Database, input: Input, d: Durations, now: Instant): Database {
    if IsActiveUse(Operation(input)) then ActiveUse(db, input.plan, d, now) else db
  }

  // The tables after an accepted introspection: use recorded, decision recorded, plan refreshed.
  function IntrospectedDb(db: Database, input: Input, d: Durations, now: Instant): Database {
    Refresh(Decide(Use(db, input, d, now), input), input.plan, d, now)
  }

  // The verdict, read off the refreshed tables.
  function Judge(db: Database, input: Input, now: Instant): Verdict {
    var op, plan := Operation(input), PlanOf(db, input.plan);
    if PreActiveUse(plan) && IsNegotiation(op) then Allowed
    else if plan.None? then if IsMutating(op) then Verdict(false, "entitlement_not_entitled") else Allowed
    else if plan.value.state == DelinquentReadonly && IsMutating(op) then Verdict(false, "entitlement_plan_read_only")
    else if input.participant !in Roster(db, input.plan) && IsMutating(op)
      then Verdict(false, "entitlement_not_entitled")
    else if AllPaid(db, input.plan) then Allowed
    else if (plan.value.state == LinkedNotActive || plan.value.state == ActiveTrial)
            && plan.value.trialEndsAt.Some? && now > plan.value.trialEndsAt.value
              then Verdict(false, "entitlement_trial_expired")
    else Allowed
  }

  function IntrospectVerdict(db: Database, input: Input, d: Durations, now: Instant): Verdict {
    if input.moduleName != "housing" then Verdict(false, "entitlement_module_unsupported")
    else if !Accepted(input) then Verdict(false, "entitlement_gate_required")
    else Judge(IntrospectedDb(db, input, d, now), input, now)
  }

  // ---------------------------------------------------------------------------------------------
  // Coherent plans

  // The date fields agree with the state: before active use there are none; a trial ends one trial
  // duration after active use began; a grace end is set in grace and at most kept in read-only.
  predicate PlanCoherent(p: Plan, d: Durations) {
    && (p.activeUseStartedAt.None? ==>
          (p.state == LinkedNotActive || p.state == ActivePaid) && p.trialStartedAt.None? && p.trialEndsAt.None?
            && p.graceEndsAt.None?)
    && (p.activeUseStartedAt.Some? ==> p.state != LinkedNotActive)
    && (p.trialStartedAt.Some? ==>
      p.trialStartedAt == p.activeUseStartedAt && p.trialEndsAt == Some(p.trialStartedAt.value + d.trial))
    && (p.trialStartedAt.None? ==> p.trialEndsAt.None?)
    && (p.state == ActiveTrial ==> p.trialStartedAt.Some? && p.graceEndsAt.None?)
    && (p.state == DelinquentGrace ==> p.graceEndsAt.Some?)
    && (p.graceEndsAt.Some? ==> p.state == DelinquentGrace || p.state == DelinquentReadonly)
  }

  ghost predicate Coherent(db: Database, d: Durations) {
    forall id <- db.plans :: PlanCoherent(db.plans[id], d)
  }

  // ---------------------------------------------------------------------------------------------
  // Plans only advance

  // Nothing used yet, in trial, in grace, past both.
  function Stage(p: Option<Plan>): nat {
    if PreActiveUse(p) then 0
    else match p.value.state
      case LinkedNotActive => 0
      case ActiveTrial => 1
      case DelinquentGrace => 2
      case ActivePaid => 3
      case DelinquentReadonly => 3
  }

  predicate InState(p: Option<Plan>, s: State) {
    p.Some? && p.value.state == s
  }

  predicate Enters(a: Option<Plan>, b: Option<Plan>, s: State) {
    !InState(a, s) && InState(b, s)
  }

  // One call's effect on one plan.
  ghost predicate Advances(a: Option<Plan>, b: Option<Plan>) {
    && (a.Some? ==> b.Some?)
    && Stage(a) <= Stage(b)
    && (Enters(a, b, ActiveTrial) ==> Stage(a) == 0 && Stage(b) == 1)
    && (Enters(a, b, DelinquentGrace) ==> Stage(a) <= 1 && Stage(b) == 2)
    && (!PreActiveUse(a) ==> b.value.activeUseStartedAt == a.value.activeUseStartedAt
                             && b.value.trialStartedAt == a.value.trialStartedAt
                               && b.value.trialEndsAt == a.value.trialEndsAt)
    && (Stage(a) == 2 && Stage(b) == 2 ==> b.value.graceEndsAt == a.value.graceEndsAt)
  }

  ghost predicate AllAdvance(before: Database, after: Database) {
    forall id: string :: Advances(PlanOf(before, id), PlanOf(after, id))
  }

  // Who has used a trial is not forgotten.
  ghost predicate KeepsFlags(before: Database, after: Database) {
    forall m: string :: Consumed(before, m) ==> Consumed(after, m)
  }

  lemma AdvanceOne(before: Database, after: Database, id: string)
    requires forall other :: other != id ==> PlanOf(after, other) == PlanOf(before, other)
    requires Advances(PlanOf(before, id), PlanOf(after, id))
    ensures AllAdvance(before, after)
  {
    forall other ensures Advances(PlanOf(before, other), PlanOf(after, other)) {
    }
  }

  lemma RefreshedPlanFits(plan: Plan, allPaid: bool, d: Durations, now: Instant)
    requires PlanCoherent(plan, d)
    ensures PlanCoherent(RefreshedPlan(plan, allPaid, d, now), d)
    ensures Advances(Some(plan), Some(RefreshedPlan(plan, allPaid, d, now)))
  {
  }

  lemma SetRosterFits(db: Database, id: string, revision: string, participants: set<string>, d: Durations)
    requires Coherent(db, d)
    ensures var after := SetRoster(db, id, revision, participants);
            Coherent(after, d) && AllAdvance(db, after) && KeepsFlags(db, after)
  {
    AdvanceOne(db, SetRoster(db, id, revision, participants), id);
  }

  lemma ActiveUseFits(db: Database, id: string, d: Durations, now: Instant)
    requires Coherent(db, d)
    ensures var after := ActiveUse(db, id, d, now);
            Coherent(after, d) && AllAdvance(db, after) && KeepsFlags(db, after) && Roster(after, id) == Roster(db, id)
  {
    var after := ActiveUse(db, id, d, now);
    ActiveUsePlan(db, id, d, now);
    ActiveUseRest(db, id, d, now);
    SameRosters(db, after, id);
    hide ActiveUse, Roster, Advances, PlanCoherent;
    AdvanceOne(db, after, id);
  }

  lemma ActiveUsePlan(db: Database, id: string, d: Durations, now: Instant)
    requires Coherent(db, d)
    ensures var after := ActiveUse(db, id, d, now);
            Advances(PlanOf(db, id), PlanOf(after, id)) && (id in after.plans ==> PlanCoherent(after.plans[id], d))
  {
    hide Roster, AnyConsumed, MarkConsumed;
  }

  lemma ActiveUseRest(db: Database, id: string, d: Durations, now: Instant)
    ensures var after := ActiveUse(db, id, d, now);
            && (forall other :: other != id ==> PlanOf(after, other) == PlanOf(db, other))
            && after.rosters == db.rosters && after.activeRevision == db.activeRevision
            && KeepsFlags(db, after)
  {
    hide ActiveUse, MarkConsumed, Roster;
    ActiveUseParts(db, id, d, now);
    MarkingKeeps(db, Roster(db, id), now);
  }

  lemma ActiveUseParts(db: Database, id: string, d: Durations, now: Instant)
    ensures var after := ActiveUse(db, id, d, now);
            && after == db.(plans := after.plans, installations := after.installations)
            && (after.plans == db.plans || (id in after.plans && after.plans == db.plans[id := after.plans[id]]))
            && (after.installations == db.installations
                || after.installations == MarkConsumed(db, Roster(db, id), now).installations)
  {
    hide StartsUse, AnyConsumed, Roster, PutPlan, MarkConsumed;
    var ids := Roster(db, id);
    MarkingParts(db, ids, now);
    PutPlanParts(db, id, Plan(DelinquentGrace, None, None, Some(now + d.grace), Some(now)));
    PutPlanParts(MarkConsumed(db, ids, now), id, Plan(ActiveTrial, Some(now), Some(now + d.trial), None, Some(now)));
  }

  lemma PutPlanParts(db: Database, id: string, plan: Plan)
    ensures var after := PutPlan(db, id, plan);
            after == db.(plans := after.plans) && id in after.plans && after.plans == db.plans[id := after.plans[id]]
  {
  }

  lemma MarkingParts(db: Database, ids: set<string>, at: Instant)
    ensures MarkConsumed(db, ids, at) == db.(installations := MarkConsumed(db, ids, at).installations)
  {
  }

  lemma MarkingKeeps(db: Database, ids: set<string>, at: Instant)
    ensures KeepsFlags(db, MarkConsumed(db, ids, at))
    ensures forall after: Database :: after.installations == MarkConsumed(db, ids, at).installations ==>
      KeepsFlags(db, after)
  {
  }

  lemma RefreshFits(db: Database, id: string, d: Durations, now: Instant)
    requires Coherent(db, d)
    ensures var after := Refresh(db, id, d, now);
            Coherent(after, d) && AllAdvance(db, after) && KeepsFlags(db, after) && Roster(after, id) == Roster(db, id)
  {
    if id in db.plans {
      RefreshedPlanFits(db.plans[id], AllPaid(db, id), d, now);
    }
    AdvanceOne(db, Refresh(db, id, d, now), id);
  }

  lemma ReprojectPlanFits(db: Database, id: string, installation: string, paid: bool, revoke: bool, d: Durations,
                          now: Instant)
    requires Coherent(db, d)
    ensures var after := ReprojectPlan(db, id, installation, paid, revoke, d, now);
            Coherent(after, d) && AllAdvance(db, after) && KeepsFlags(db, after)
  {
    hide Coherent, AllAdvance, KeepsFlags, Refresh, PutLicense;
    var state := if paid then LicenseActivePaid else LicenseUnpaid;
    PutLicenseParts(db, id, installation, state);
    SamePlansFit(db, PutLicense(db, id, installation, state), d);
    RefreshFits(PutLicense(db, id, installation, state), id, d, now);
    FitsTransitive(db, PutLicense(db, id, installation, state),
      Refresh(PutLicense(db, id, installation, state), id, d, now));
    if id in db.plans && db.plans[id].activeUseStartedAt.Some? {
      RevokedPlanFits(db, PutLicense(db, id, installation, state), id, d);
    }
  }

  lemma RevokedPlanFits(db: Database, reported: Database, id: string, d: Durations)
    requires Coherent(db, d) && reported == db.(licenses := reported.licenses)
    requires id in db.plans && db.plans[id].activeUseStartedAt.Some?
    ensures var after := PutPlan(reported, id, db.plans[id].(state := DelinquentReadonly));
            Coherent(after, d) && AllAdvance(db, after) && KeepsFlags(db, after)
  {
    AdvanceOne(db, PutPlan(reported, id, db.plans[id].(state := DelinquentReadonly)), id);
  }

  lemma SamePlansFit(db: Database, after: Database, d: Durations)
    requires Coherent(db, d) && after.plans == db.plans
    ensures Coherent(after, d) && AllAdvance(db, after)
    ensures after.installations == db.installations ==> KeepsFlags(db, after)
  {
    hide Advances;
    forall id: string ensures Advances(PlanOf(db, id), PlanOf(after, id)) { SamePlanFits(PlanOf(db, id)); }
  }

  lemma ReprojectFits(db: Database, ids: set<string>, installation: string, paid: bool, revoke: bool, d: Durations,
                      now: Instant)
    requires Coherent(db, d)
    ensures var after := Reproject(db, ids, installation, paid, revoke, d, now);
            Coherent(after, d) && AllAdvance(db, after) && KeepsFlags(db, after)
  {
    var after := Reproject(db, ids, installation, paid, revoke, d, now);
    hide Roster, AllPaid, PutLicense, Advances, PlanCoherent, RefreshedPlan;
    forall id <- db.plans
      ensures PlanCoherent(after.plans[id], d) && Advances(Some(db.plans[id]), Some(after.plans[id]))
    {
      ReprojectedPlanFits(db, id, installation, paid, revoke, d, now);
      SamePlanFits(Some(db.plans[id]));
    }
    SamePlanFits(None);
  }

  lemma ReprojectedPlanFits(db: Database, id: string, installation: string, paid: bool, revoke: bool, d: Durations,
                            now: Instant)
    requires id in db.plans && PlanCoherent(db.plans[id], d)
    ensures var plan := ReprojectedPlan(db, id, installation, paid, revoke, d, now);
            PlanCoherent(plan, d) && Advances(Some(db.plans[id]), Some(plan))
  {
    hide Roster, AllPaid, RefreshedPlan;
    var reported := PutLicense(db, id, installation, if paid then LicenseActivePaid else LicenseUnpaid);
    RefreshedPlanFits(db.plans[id], AllPaid(reported, id), d, now);
  }

  lemma SamePlanFits(p: Option<Plan>)
    ensures Advances(p, p)
  {
  }

  lemma ReprojectNothing(db: Database, installation: string, paid: bool, revoke: bool, d: Durations, now: Instant)
    ensures Reproject(db, {}, installation, paid, revoke, d, now) == db
  {
  }

  // Plans are reprojected independently: doing one more after some others is doing them together.
  lemma ReprojectOneMore(db: Database, done: set<string>, id: string, installation: string, paid: bool, revoke: bool,
                         d: Durations, now: Instant)
    requires id !in done && installation in Roster(db, id)
    ensures ReprojectPlan(Reproject(db, done, installation, paid, revoke, d, now),
                          id, installation, paid, revoke, d, now)
         == Reproject(db, done + {id}, installation, paid, revoke, d, now)
  {
    hide Roster, RefreshedPlan, PutLicense, Reproject, AllPaid;
    var state := if paid then LicenseActivePaid else LicenseUnpaid;
    var partly := Reproject(db, done, installation, paid, revoke, d, now);
    var together := Reproject(db, done + {id}, installation, paid, revoke, d, now);
    ReprojectParts(db, done, installation, paid, revoke, d, now);
    ReprojectParts(db, done + {id}, installation, paid, revoke, d, now);
    LicensesOneMore(db, done, id, installation, paid, revoke, d, now);
    PutLicenseParts(partly, id, installation, state);
    PutLicenseParts(db, id, installation, state);
    PlanRowsDecide(PutLicense(partly, id, installation, state), PutLicense(db, id, installation, state), id);
    SameRosters(db, PutLicense(partly, id, installation, state), id);
    var after := ReprojectPlan(partly, id, installation, paid, revoke, d, now);
    OneMorePlan(db, partly, together, done, id, installation, paid, revoke, d, now);
  }

  lemma OneMorePlan(db: Database, partly: Database, together: Database, done: set<string>, id: string,
                    installation: string,
                    paid: bool, revoke: bool, d: Durations, now: Instant)
    requires id !in done
    requires partly == Reproject(db, done, installation, paid, revoke, d, now)
    requires together == Reproject(db, done + {id}, installation, paid, revoke, d, now)
    ensures together.plans == if id in db.plans
                              then partly.plans[id := ReprojectedPlan(db, id, installation, paid, revoke, d, now)]
                              else partly.plans
    ensures id in db.plans ==> partly.plans[id] == db.plans[id]
  {
    hide Reproject, ReprojectedPlan;
    ReprojectParts(db, done, installation, paid, revoke, d, now);
    ReprojectParts(db, done + {id}, installation, paid, revoke, d, now);
  }

  lemma PutLicenseParts(db: Database, id: string, m: string, state: string)
    ensures PutLicense(db, id, m, state) == db.(licenses := PutLicense(db, id, m, state).licenses)
  {
  }

  lemma ReprojectParts(db: Database, ids: set<string>, installation: string, paid: bool, revoke: bool, d: Durations,
                       now: Instant)
    ensures var after := Reproject(db, ids, installation, paid, revoke, d, now);
            && after == db.(plans := after.plans, licenses := after.licenses)
            && after.plans.Keys == db.plans.Keys
            && forall id <- db.plans :: after.plans[id] ==
                 if id in ids then ReprojectedPlan(db, id, installation, paid, revoke, d, now) else db.plans[id]
  {
    hide ReprojectedPlan;
  }

  lemma LicensesOneMore(db: Database, done: set<string>, id: string, installation: string, paid: bool, revoke: bool,
                        d: Durations, now: Instant)
    requires id !in done
    ensures var state := if paid then LicenseActivePaid else LicenseUnpaid;
            var partly := Reproject(db, done, installation, paid, revoke, d, now);
            && PutLicense(partly, id, installation, state).licenses
              == Reproject(db, done + {id}, installation, paid, revoke, d, now).licenses
            && forall m ::
              HasPaid(PutLicense(partly, id, installation, state), id, m)
                == HasPaid(PutLicense(db, id, installation, state), id, m)
  {
    hide ReprojectedPlan;
  }

  lemma PlanRowsDecide(a: Database, b: Database, id: string)
    requires a.rosters == b.rosters && a.activeRevision == b.activeRevision
    requires forall m :: HasPaid(a, id, m) == HasPaid(b, id, m)
    ensures AllPaid(a, id) == AllPaid(b, id)
  {
    SameRosters(a, b, id);
    hide Roster;
  }

  lemma SameRosters(db: Database, other: Database, id: string)
    requires other.rosters == db.rosters && other.activeRevision == db.activeRevision
    ensures Roster(other, id) == Roster(db, id)
  {
  }

  lemma AdvancesTransitive(a: Option<Plan>, b: Option<Plan>, c: Option<Plan>)
    requires Advances(a, b) && Advances(b, c)
    ensures Advances(a, c)
  {
  }

  lemma FitsTransitive(a: Database, b: Database, c: Database)
    requires AllAdvance(a, b) && AllAdvance(b, c) && KeepsFlags(a, b) && KeepsFlags(b, c)
    ensures AllAdvance(a, c) && KeepsFlags(a, c)
  {
    hide Advances;
    forall id: string ensures Advances(PlanOf(a, id), PlanOf(c, id)) {
      AdvancesTransitive(PlanOf(a, id), PlanOf(b, id), PlanOf(c, id));
    }
  }

  lemma DecideFits(db: Database, input: Input, d: Durations)
    requires Coherent(db, d)
    ensures var after := Decide(db, input);
            && Coherent(after, d) && AllAdvance(db, after) && KeepsFlags(db, after)
            && Roster(after, input.plan) == Roster(db, input.plan)
            && (AllPaid(after, input.plan) <==> AllPaid(db, input.plan))
            && after.plans == db.plans
  {
    hide Coherent, AllAdvance, KeepsFlags, Decide, Roster, AllPaid;
    var after := Decide(db, input);
    DecideParts(db, input);
    SamePlansFit(db, after, d);
    SameRosters(db, after, input.plan);
    PlanRowsDecide(after, db, input.plan);
  }

  lemma UseFits(db: Database, input: Input, d: Durations, now: Instant)
    requires Coherent(db, d)
    ensures var after := Use(db, input, d, now);
            && Coherent(after, d) && AllAdvance(db, after) && KeepsFlags(db, after)
            && Roster(after, input.plan) == Roster(db, input.plan)
            && (AllPaid(after, input.plan) <==> AllPaid(db, input.plan))
  {
    hide Coherent, AllAdvance, KeepsFlags;
    ActiveUseFits(db, input.plan, d, now);
    NothingFits(db);
    assert Use(db, input, d, now).licenses == db.licenses;
  }

  lemma NothingFits(db: Database)
    ensures AllAdvance(db, db) && KeepsFlags(db, db)
  {
  }

  // An introspection may start active use and then refresh the plan.
  lemma IntrospectFits(db: Database, input: Input, d: Durations, now: Instant)
    requires Coherent(db, d)
    ensures var after := IntrospectedDb(db, input, d, now);
            Coherent(after, d) && AllAdvance(db, after) && KeepsFlags(db, after)
  {
    hide Coherent, AllAdvance, KeepsFlags, Use, Decide, Refresh;
    var used := Use(db, input, d, now);
    var decided := Decide(used, input);
    UseFits(db, input, d, now);
    DecideFits(used, input, d);
    FitsTransitive(db, used, decided);
    RefreshFits(decided, input.plan, d, now);
    FitsTransitive(db, decided, Refresh(decided, input.plan, d, now));
  }

  // ---------------------------------------------------------------------------------------------
  // Runs

  ghost predicate IsRun(run: seq<Database>) {
    forall i, next :: 0 <= i && next == i + 1 && next < |run| ==> AllAdvance(run[i], run[next])
  }

  lemma {:induction false} StagesRise(run: seq<Database>, id: string, i: nat, j: nat)
    requires IsRun(run) && i <= j < |run|
    ensures Stage(PlanOf(run[i], id)) <= Stage(PlanOf(run[j], id))
    decreases j - i
  {
    if i < j {
      StagesRise(run, id, i, j - 1);
      var next := j;
      assert AllAdvance(run[j - 1], run[next]);
      assert Advances(PlanOf(run[j - 1], id), PlanOf(run[next], id));
    }
  }

  // Over any run a plan enters the trial in at most one step and the grace period in at most one.
  lemma EnteredOnce(run: seq<Database>, id: string, i: nat, i': nat, j: nat, j': nat, s: State)
    requires IsRun(run) && i' == i + 1 && j' == j + 1 && i' < |run| && j' < |run|
    requires s == ActiveTrial || s == DelinquentGrace
    requires Enters(PlanOf(run[i], id), PlanOf(run[i'], id), s) && Enters(PlanOf(run[j], id), PlanOf(run[j'], id), s)
    ensures i == j
  {
    assert AllAdvance(run[i], run[i']) && AllAdvance(run[j], run[j']);
    assert Advances(PlanOf(run[i], id), PlanOf(run[i'], id)) && Advances(PlanOf(run[j], id), PlanOf(run[j'], id));
    if i < j {
      StagesRise(run, id, i', j);
    } else if j < i {
      StagesRise(run, id, j', i);
    }
  }

  // Once active use has begun, its date and the trial dates never change.
  lemma {:induction false} ActiveUseWrittenOnce(run: seq<Database>, id: string, i: nat, j: nat)
    requires IsRun(run) && i <= j < |run| && !PreActiveUse(PlanOf(run[i], id))
    ensures var a, b := PlanOf(run[i], id), PlanOf(run[j], id);
            && b.Some? && b.value.activeUseStartedAt == a.value.activeUseStartedAt
            && b.value.trialStartedAt == a.value.trialStartedAt && b.value.trialEndsAt == a.value.trialEndsAt
    decreases j - i
  {
    if i < j {
      ActiveUseWrittenOnce(run, id, i, j - 1);
      var next := j;
      assert AllAdvance(run[j - 1], run[next]);
      assert Advances(PlanOf(run[j - 1], id), PlanOf(run[next], id));
    }
  }

  // ---------------------------------------------------------------------------------------------
  // Trials are used once

  // Recording active use starts a trial exactly when use has not started, two members are on the
  // roster and no registered one has used a trial; it then marks every registered member.
  lemma TrialStarts(db: Database, id: string, d: Durations, now: Instant)
    requires Coherent(db, d)
    ensures var after := ActiveUse(db, id, d, now);
            && (Enters(PlanOf(db, id), PlanOf(after, id), ActiveTrial)
              <==> StartsUse(db, id) && !AnyConsumed(db, Roster(db, id)))
            && (Enters(PlanOf(db, id), PlanOf(after, id), ActiveTrial) ==>
                  forall m <- Roster(db, id) :: m in db.installations ==> Consumed(after, m))
            && (Enters(PlanOf(db, id), PlanOf(after, id), DelinquentGrace)
              <==> StartsUse(db, id) && AnyConsumed(db, Roster(db, id)))
  {
  }

  // A step in which the plan starts a trial respects and records the flags of its roster.
  ghost predicate StartsTrial(before: Database, after: Database, id: string) {
    && Enters(PlanOf(before, id), PlanOf(after, id), ActiveTrial)
    && !AnyConsumed(before, Roster(before, id))
    && forall m <- Roster(before, id) :: m in before.installations ==> Consumed(after, m)
  }

  // Only recording active use starts a trial, and then the flags of the roster are respected and
  // recorded; this includes the active use recorded by an introspection.
  lemma TrialStartsRecorded(db: Database, id: string, d: Durations, now: Instant)
    requires Coherent(db, d)
    ensures Enters(PlanOf(db, id), PlanOf(ActiveUse(db, id, d, now), id), ActiveTrial) ==>
      StartsTrial(db, ActiveUse(db, id, d, now), id)
  {
    hide ActiveUse, Roster, AnyConsumed;
    TrialStarts(db, id, d, now);
  }

  lemma IntrospectionStartsTrial(db: Database, id: string, d: Durations, now: Instant, input: Input)
    requires Coherent(db, d)
    requires Enters(PlanOf(db, id), PlanOf(IntrospectedDb(db, input, d, now), id), ActiveTrial)
    ensures id == input.plan && IsActiveUse(Operation(input)) && StartsTrial(db, IntrospectedDb(db, input, d, now), id)
  {
    hide ActiveUse, Roster, Coherent, AnyConsumed, Operation, IsActiveUse, IntrospectedDb, PlanOf;
    TrialFromUse(db, id, d, now, input);
    OnlyItsPlan(db, id, input.plan, d, now);
    TrialStartsRecorded(db, id, d, now);
  }

  // Recording a decision and refreshing leave a plan that ends up in its trial as it was.
  lemma TrialFromUse(db: Database, id: string, d: Durations, now: Instant, input: Input)
    requires InState(PlanOf(IntrospectedDb(db, input, d, now), id), ActiveTrial)
    ensures var used, after := Use(db, input, d, now), IntrospectedDb(db, input, d, now);
            PlanOf(used, id) == PlanOf(after, id) && after.installations == used.installations
  {
    hide Use, Refresh, Decide;
    DecideParts(Use(db, input, d, now), input);
    RefreshParts(Decide(Use(db, input, d, now), input), input.plan, d, now);
  }

  lemma DecideParts(db: Database, input: Input)
    ensures Decide(db, input) == db.(decisions := Decide(db, input).decisions)
  {
  }

  lemma RefreshParts(db: Database, id: string, d: Durations, now: Instant)
    ensures var after := Refresh(db, id, d, now);
            && after == db.(plans := after.plans)
            && forall p :: PlanOf(after, p) == PlanOf(db, p) || (p == id && !InState(PlanOf(after, p), ActiveTrial))
  {
    hide Roster, AllPaid;
  }

  lemma OnlyItsPlan(db: Database, id: string, p: string, d: Durations, now: Instant)
    ensures id != p ==> PlanOf(ActiveUse(db, p, d, now), id) == PlanOf(db, id)
  {
    hide Roster, AnyConsumed;
  }

  lemma OthersStartNoTrial(db: Database, id: string, p: string, revision: string, participants: set<string>,
                           ids: set<string>, installation: string, paid: bool, revoke: bool, d: Durations, now: Instant)
    ensures !Enters(PlanOf(db, id), PlanOf(SetRoster(db, p, revision, participants), id), ActiveTrial)
    ensures !Enters(PlanOf(db, id), PlanOf(Reproject(db, ids, installation, paid, revoke, d, now), id), ActiveTrial)
    ensures !Enters(PlanOf(db, id), PlanOf(Refresh(db, p, d, now), id), ActiveTrial)
  {
  }

  // A step may also hand an installation's identity over to a new one.
  datatype Rename = Rename(from: string, into: string)

  function Renamed(m: string, rename: Option<Rename>): string {
    if rename.Some? && rename.value.from == m then rename.value.into else m
  }

  ghost predicate FlagStep(before: Database, after: Database, rename: Option<Rename>) {
    forall m: string :: Consumed(before, m) ==> Consumed(after, Renamed(m, rename))
  }

  // The identity that an installation has later in the run.
  function Follow(m: string, renames: seq<Option<Rename>>, i: nat, j: nat): string
    requires i <= j <= |renames|
    decreases j - i
  {
    if i == j then m else Renamed(Follow(m, renames, i, j - 1), renames[j - 1])
  }

  // ---------------------------------------------------------------------------------------------
  // What introspection lets through

  lemma RefreshIdempotent(db: Database, id: string, d: Durations, now: Instant)
    requires Coherent(db, d)
    ensures Refresh(Refresh(db, id, d, now), id, d, now) == Refresh(db, id, d, now)
  {
    var once := Refresh(db, id, d, now);
    assert Roster(once, id) == Roster(db, id);
    if id in db.plans && Roster(db, id) != {} {
      assert AllPaid(once, id) == AllPaid(db, id);
      assert once.plans[id := once.plans[id]] == once.plans;
    }
  }

  // After a refresh of a plan with a roster: paid exactly if everyone has paid or it was so before,
  // and no trial or grace end is in the past.
  lemma RefreshedStates(db: Database, id: string, d: Durations, now: Instant)
    requires Coherent(db, d) && id in db.plans && Roster(db, id) != {}
    ensures var plan := Refresh(db, id, d, now).plans[id];
            && (plan.state == ActivePaid <==> AllPaid(db, id) || db.plans[id].state == ActivePaid)
            && (plan.state == ActiveTrial ==> now <= plan.trialEndsAt.value)
            && (plan.state == DelinquentGrace ==> now <= plan.graceEndsAt.value)
  {
  }

  lemma IntrospectedFacts(db: Database, input: Input, d: Durations, now: Instant)
    requires Coherent(db, d)
    ensures var after, id := IntrospectedDb(db, input, d, now), input.plan;
            && Roster(after, id) == Roster(db, id) && (AllPaid(after, id) <==> AllPaid(db, id))
            && (id in after.plans ==> PlanCoherent(after.plans[id], d))
            && (id in after.plans && Roster(db, id) != {} ==>
                 && (AllPaid(db, id) ==> after.plans[id].state == ActivePaid)
                 && (after.plans[id].state == ActiveTrial ==> now <= after.plans[id].trialEndsAt.value)
                 && (after.plans[id].state == DelinquentGrace ==> now <= after.plans[id].graceEndsAt.value))
  {
    hide Coherent, AllAdvance, KeepsFlags, Use, Decide, Refresh, PlanCoherent, AllPaid;
    var id := input.plan;
    var used := Use(db, input, d, now);
    var decided := Decide(used, input);
    UseFits(db, input, d, now);
    DecideFits(used, input, d);
    RefreshFits(decided, id, d, now);
    RefreshKeepsPaid(decided, id, d, now);
    if id in decided.plans && Roster(db, id) != {} { RefreshedStates(decided, id, d, now); }
    CoherentPlan(Refresh(decided, id, d, now), id, d);
  }

  lemma CoherentPlan(db: Database, id: string, d: Durations)
    requires Coherent(db, d)
    ensures id in db.plans ==> PlanCoherent(db.plans[id], d)
  {
  }

  lemma RefreshKeepsPaid(db: Database, id: string, d: Durations, now: Instant)
    ensures var after := Refresh(db, id, d, now);
            && after.plans.Keys == db.plans.Keys
            && Roster(after, id) == Roster(db, id) && (AllPaid(after, id) <==> AllPaid(db, id))
  {
  }

  // A mutating request passes exactly when it negotiates before active use, or comes from a roster
  // member of a plan that the refresh did not leave read-only.
  lemma MutationAllowedExactly(db: Database, input: Input, d: Durations, now: Instant)
    requires Coherent(db, d) && Accepted(input) && IsMutating(Operation(input))
    ensures var plan := PlanOf(IntrospectedDb(db, input, d, now), input.plan);
            IntrospectVerdict(db, input, d, now).allow <==>
              || (IsNegotiation(Operation(input)) && PreActiveUse(plan))
              || (plan.Some? && plan.value.state != DelinquentReadonly && input.participant in Roster(db, input.plan))
  {
    IntrospectedFacts(db, input, d, now);
  }

  // A read-only plan refuses every mutation unless the refresh finds the whole roster paid.
  lemma ReadonlyUntilPaid(db: Database, input: Input, d: Durations, now: Instant)
    requires Coherent(db, d) && Accepted(input) && IsMutating(Operation(input))
    requires InState(PlanOf(db, input.plan), DelinquentReadonly)
    ensures if AllPaid(db, input.plan) then InState(PlanOf(IntrospectedDb(db, input, d, now), input.plan), ActivePaid)
            else IntrospectVerdict(db, input, d, now) == Verdict(false, "entitlement_plan_read_only")
  {
    hide Coherent, IntrospectedDb, Roster, Operation, IsMutating, AllPaid;
    RosterPaid(db, input.plan);
    var after := IntrospectedDb(db, input, d, now);
    IntrospectedFacts(db, input, d, now);
    IntrospectFits(db, input, d, now);
    CoherentPlan(db, input.plan, d);
    assert Advances(PlanOf(db, input.plan), PlanOf(after, input.plan));
    if !AllPaid(db, input.plan) {
      ReadonlyStays(db, input, d, now);
    }
  }

  lemma RosterPaid(db: Database, id: string)
    ensures AllPaid(db, id) ==> Roster(db, id) != {}
  {
  }

  lemma ReadonlyStays(db: Database, input: Input, d: Durations, now: Instant)
    requires Coherent(db, d) && InState(PlanOf(db, input.plan), DelinquentReadonly) && !AllPaid(db, input.plan)
    ensures PlanOf(IntrospectedDb(db, input, d, now), input.plan) == PlanOf(db, input.plan)
  {
    hide Roster, AllPaid;
    CoherentPlan(db, input.plan, d);
    UseFits(db, input, d, now);
    DecideFits(Use(db, input, d, now), input, d);
    assert Use(db, input, d, now) == db;
  }

  predicate NotPast(end: Option<Instant>, now: Instant) {
    end.Some? && now <= end.value
  }

  // A mutation allowed in grace comes no later than the grace end.
  lemma GraceEndsMutations(db: Database, input: Input, d: Durations, now: Instant)
    requires Coherent(db, d) && Accepted(input) && IsMutating(Operation(input))
    requires IntrospectVerdict(db, input, d, now).allow
    requires InState(PlanOf(IntrospectedDb(db, input, d, now), input.plan), DelinquentGrace)
    ensures NotPast(PlanOf(IntrospectedDb(db, input, d, now), input.plan).value.graceEndsAt, now)
  {
    hide Coherent, IntrospectedDb, AllPaid, Roster, Operation, IsMutating, IsNegotiation, IntrospectVerdict;
    IntrospectedFacts(db, input, d, now);
    MutationAllowedExactly(db, input, d, now);
  }

  // The trial-expired answer is given exactly to requests that do not mutate, for a plan whose
  // trial is over and whose roster is empty; with anyone on the roster it is unreachable.
  lemma TrialExpiredExactly(db: Database, input: Input, d: Durations, now: Instant)
    requires Coherent(db, d) && Accepted(input)
    ensures IntrospectVerdict(db, input, d, now).code == "entitlement_trial_expired" <==>
              && !IsMutating(Operation(input)) && Roster(db, input.plan) == {}
              && InState(PlanOf(db, input.plan), ActiveTrial) && now > db.plans[input.plan].trialEndsAt.value
  {
    hide Coherent, Roster, Operation, IsMutating, IntrospectedDb;
    IntrospectedFacts(db, input, d, now);
    CoherentPlan(db, input.plan, d);
    if Roster(db, input.plan) == {} {
      NoRosterNoChange(db, input, d, now);
    }
  }

  lemma NoRosterNoChange(db: Database, input: Input, d: Durations, now: Instant)
    requires Roster(db, input.plan) == {}
    ensures IntrospectedDb(db, input, d, now).plans == db.plans
  {
    NoRosterNoUse(db, input.plan, d, now);
    SameRosters(db, Decide(db, input), input.plan);
    hide ActiveUse, Roster, AllPaid, RefreshedPlan, Operation, IsActiveUse;
  }

  lemma NoRosterNoUse(db: Database, id: string, d: Durations, now: Instant)
    requires Roster(db, id) == {}
    ensures ActiveUse(db, id, d, now) == db
  {
    hide Roster, AnyConsumed, MarkConsumed, PutPlan;
  }

  // An immediate revocation of an installation that has not paid makes each plan in use with it on
  // the roster read-only, and from then on mutations there are refused until everyone has paid.
  lemma RevocationStops(db: Database, installation: string, d: Durations, now: Instant, input: Input, later: Instant)
    requires Coherent(db, d) && input.plan in PlansOf(db, installation)
    requires input.plan in db.plans && db.plans[input.plan].activeUseStartedAt.Some?
    requires Accepted(input) && IsMutating(Operation(input))
    ensures var after := Reproject(db, PlansOf(db, installation), installation, false, true, d, now);
            && InState(PlanOf(after, input.plan), DelinquentReadonly)
            && IntrospectVerdict(after, input, d, later) == Verdict(false, "entitlement_plan_read_only")
  {
    hide Coherent, Operation, IsMutating, Roster, IntrospectVerdict, AllPaid, Advances;
    var after := Reproject(db, PlansOf(db, installation), installation, false, true, d, now);
    RevokedCoherent(db, installation, d, now);
    RevokedUnpaid(db, installation, d, now, input.plan);
    ReadonlyUntilPaid(after, input, d, later);
  }

  lemma RevokedCoherent(db: Database, installation: string, d: Durations, now: Instant)
    requires Coherent(db, d)
    ensures Coherent(Reproject(db, PlansOf(db, installation), installation, false, true, d, now), d)
  {
    hide Roster, AllPaid, PutLicense;
    forall id <- db.plans
      ensures PlanCoherent(Reproject(db, PlansOf(db, installation), installation, false, true, d, now).plans[id], d)
    {
      RefreshedPlanFits(db.plans[id], AllPaid(PutLicense(db, id, installation, LicenseUnpaid), id), d, now);
    }
  }

  lemma RevokedUnpaid(db: Database, installation: string, d: Durations, now: Instant, id: string)
    requires id in PlansOf(db, installation)
    ensures !AllPaid(Reproject(db, PlansOf(db, installation), installation, false, true, d, now), id)
  {
    hide Roster, ReprojectedPlan;
    var after := Reproject(db, PlansOf(db, installation), installation, false, true, d, now);
    SameRosters(db, after, id);
    assert LicenseKey(id, installation) in after.licenses;
    assert !HasPaid(after, id, installation);
  }
}
