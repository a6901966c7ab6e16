// The calls of the housing service as operations on the database, and the laws of whole runs of
// them: coherent plans, one trial for each installation, read-only until paid.
module HousingRuns {
  import opened Wrappers
  import opened FireTimes
  import opened HousingMigration
  import opened HousingRules

  datatype ServiceCall =
    | Register(id: string)
    | AssignRoster(plan: string, revision: string, participants: set<string>)
    | RecordUse(plan: string, now: Instant)
    | Report(plan: string, participant: string, state: string)
    | ApplyPlay(installation: string, token: string, receipt: Receipt, now: Instant)
    | Reprojection(installation: string, revoke: bool, now: Instant)
    | RefreshPlan(plan: string, now: Instant)
    | Introspection(input: Input, now: Instant)
    | Migration(plan: string, from: string, into: string)
    | GrantFree(installation: string, now: Instant, until: Instant)
    | ClearFree(installation: string)
    | Decision(plan: string, expense: string, participant: string, kind: string)
    | RegisterPush(installation: string, push: PushAddress)

  function Purchased(db: Database, installation: string, token: string, receipt: Receipt): Database {
    PutReceipt(Registered(db, installation), token, receipt.(installation := installation))
  }

  function Apply(db: Database, op: ServiceCall, d: Durations): Database {
    match op
    case Register(id) => Registered(db, id)
    case AssignRoster(plan, revision, participants) => SetRoster(db, plan, revision, participants)
    case RecordUse(plan, now) => ActiveUse(db, plan, d, now)
    case Report(plan, participant, state) => PutLicense(db, plan, participant, state)
    case ApplyPlay(installation, token, receipt, now) =>
      ReprojectInstallation(Purchased(db, installation, token, receipt), installation, false, d, now)
    case Reprojection(installation, revoke, now) => ReprojectInstallation(db, installation, revoke, d, now)
    case RefreshPlan(plan, now) => Refresh(db, plan, d, now)
    case Introspection(input, now) => if Accepted(input) then IntrospectedDb(db, input, d, now) else db
    case Migration(plan, from, into) => Migrate(db, plan, from, into)
    case GrantFree(installation, now, until) => GrantedFree(db, installation, now, until)
    case ClearFree(installation) => ClearedFree(db, installation)
    case Decision(plan, expense, participant, kind) => Decided(db, plan, expense, participant, kind)
    case RegisterPush(installation, push) => PutPushAddress(db, installation, push)
  }

  // The identity that an operation hands over, if any.
  function RenameOf(db: Database, op: ServiceCall): Option<Rename> {
    if op.Migration? && MigrateOutcome(db, op.plan, op.from, op.into) == Migrated then Some(Rename(op.from, op.into))
      else None
  }

  // A migration that succeeds from an installation to itself.
  predicate MigratesToItself(db: Database, op: ServiceCall, m: string) {
    op.Migration? && op.from == m && op.into == m && MigrateOutcome(db, op.plan, m, m) == Migrated
  }

  // ---------------------------------------------------------------------------------------------
  // Every operation

  lemma StoreWritesFit(db: Database, op: ServiceCall, d: Durations)
    requires Coherent(db, d)
    requires op.Register? || op.Report? || op.GrantFree? || op.ClearFree? || op.Decision? || op.RegisterPush?
    ensures var after := Apply(db, op, d);
            Coherent(after, d) && AllAdvance(db, after) && KeepsFlags(db, after) && after.plans == db.plans
  {
    hide MayGrantFree, Coherent, AllAdvance;
    SamePlansFit(db, Apply(db, op, d), d);
  }

  lemma PurchasedFits(db: Database, installation: string, token: string, receipt: Receipt, d: Durations)
    requires Coherent(db, d)
    ensures var after := Purchased(db, installation, token, receipt);
            && Coherent(after, d) && AllAdvance(db, after) && KeepsFlags(db, after) && after.plans == db.plans
            && after.activeRevision == db.activeRevision && (forall id :: Roster(after, id) == Roster(db, id))
  {
    hide *;
    var after := Purchased(db, installation, token, receipt);
    PurchasedTables(db, installation, token, receipt);
    PurchasedFlags(db, installation, token, receipt);
    SamePlansFit(db, after, d);
    forall id ensures Roster(after, id) == Roster(db, id) { SameRosters(db, after, id); }
  }

  lemma PurchasedTables(db: Database, installation: string, token: string, receipt: Receipt)
    ensures var after := Purchased(db, installation, token, receipt);
            && after.plans == db.plans && after.activeRevision == db.activeRevision
            && after.rosters == db.rosters && after.installations == Registered(db, installation).installations
  {
    RegisteredTables(db, installation);
    hide Registered;
  }

  lemma RegisteredTables(db: Database, id: string)
    ensures Registered(db, id) == db.(installations := Registered(db, id).installations)
  {
  }

  lemma PurchasedFlags(db: Database, installation: string, token: string, receipt: Receipt)
    ensures KeepsFlags(db, Purchased(db, installation, token, receipt))
  {
    PurchasedTables(db, installation, token, receipt);
    hide Purchased, PutReceipt;
  }

  // Every operation keeps plans coherent and only advances them.  A used trial is kept, or follows
  // the identity handed over, exactly when the operation is no migration of its installation to itself.
  lemma ApplyFits(db: Database, op: ServiceCall, d: Durations)
    requires Coherent(db, d)
    ensures var after := Apply(db, op, d);
            && Coherent(after, d) && AllAdvance(db, after)
            && forall m :: Consumed(db, m) ==>
                 (Consumed(after, Renamed(m, RenameOf(db, op))) <==> !MigratesToItself(db, op, m))
  {
    hide Coherent, AllAdvance, KeepsFlags, ActiveUse, Refresh, IntrospectedDb, SetRoster, Migrate, MigrateOutcome,
         Purchased, Reproject, PlansOf, Paid, Consumed;
    var after := Apply(db, op, d);
    FlagsStay(db, after);
    match op
    case AssignRoster(plan, revision, participants) => SetRosterFits(db, plan, revision, participants, d);
    case RecordUse(plan, now) => ActiveUseFits(db, plan, d, now);
    case ApplyPlay(installation, token, receipt, now) =>
      var bought := Purchased(db, installation, token, receipt);
      PurchasedFits(db, installation, token, receipt, d);
      ReprojectFits(bought, PlansOf(bought, installation), installation, Paid(bought, installation, now),
        false, d, now);
      FitsTransitive(db, bought, after);
    case Reprojection(installation, revoke, now) =>
      ReprojectFits(db, PlansOf(db, installation), installation, Paid(db, installation, now), revoke, d, now);
    case RefreshPlan(plan, now) => RefreshFits(db, plan, d, now);
    case Introspection(input, now) =>
      NothingFits(db);
      IntrospectFits(db, input, d, now);
    case Migration(plan, from, into) =>
      MigrationStep(db, plan, from, into, d);
      if MigrateOutcome(db, plan, from, into) == Migrated { MigrationFlags(db, plan, from, into); }
    case _ => StoreWritesFit(db, op, d);
  }

  lemma MigrationFlags(db: Database, plan: string, from: string, into: string)
    requires MigrateOutcome(db, plan, from, into) == Migrated
    ensures var after := Migrate(db, plan, from, into);
            forall m :: Consumed(db, m) ==>
              (Consumed(after, Renamed(m, Some(Rename(from, into)))) <==> !(from == m && into == m))
  {
    hide Renaming, MigrateOutcome;
    RenamingRest(db, plan, from, into);
  }

  lemma FlagsStay(db: Database, after: Database)
    ensures KeepsFlags(db, after) ==> forall m :: Consumed(db, m) ==> Consumed(after, Renamed(m, None))
  {
  }

  // A plan enters its trial only through recorded active use, and then the flags of its roster are
  // respected and recorded.
  lemma ApplyStartsTrial(db: Database, op: ServiceCall, d: Durations, p: string)
    requires Coherent(db, d) && Enters(PlanOf(db, p), PlanOf(Apply(db, op, d), p), ActiveTrial)
    ensures StartsTrial(db, Apply(db, op, d), p)
    ensures op.RecordUse? || (op.Introspection? && IsActiveUse(Operation(op.input)))
  {
    hide Coherent, ActiveUse, Refresh, IntrospectedDb, SetRoster, Migrate, Purchased, Reproject, PlansOf, Paid,
         StartsTrial, IsActiveUse, Operation, MayGrantFree;
    match op
    case AssignRoster(plan, revision, participants) =>
      OthersStartNoTrial(db, p, plan, revision, participants, {}, "", false, false, d, 0);
    case RecordUse(plan, now) =>
      OnlyItsPlan(db, p, plan, d, now);
      TrialStartsRecorded(db, p, d, now);
    case ApplyPlay(installation, token, receipt, now) =>
      var bought := Purchased(db, installation, token, receipt);
      PurchasedFits(db, installation, token, receipt, d);
      OthersStartNoTrial(bought, p, "", "", {}, PlansOf(bought, installation), installation,
        Paid(bought, installation, now), false, d, now);
    case Reprojection(installation, revoke, now) =>
      OthersStartNoTrial(db, p, "", "", {}, PlansOf(db, installation), installation, Paid(db, installation, now),
        revoke, d, now);
    case RefreshPlan(plan, now) => OthersStartNoTrial(db, p, plan, "", {}, {}, "", false, false, d, now);
    case Introspection(input, now) => if Accepted(input) { IntrospectionStartsTrial(db, p, d, now, input); }
    case Migration(plan, from, into) => MigrationMovesNoPlan(db, plan, from, into);
    case _ => StoreWritesFit(db, op, d);
  }

  lemma MigrationMovesNoPlan(db: Database, plan: string, from: string, into: string)
    ensures Migrate(db, plan, from, into).plans == db.plans
  {
    hide MigrateOutcome, RenameRosters, RenameDecisions, RenameLicenses, RenameReceipts, RenameInstallation;
  }

  // ---------------------------------------------------------------------------------------------
  // Runs

  ghost predicate IsServiceRun(d: Durations, run: seq<Database>, ops: seq<ServiceCall>) {
    && |run| == |ops| + 1 && Coherent(run[0], d)
    && forall i, next :: 0 <= i < |ops| && next == i + 1 ==> run[next] == Apply(run[i], ops[i], d)
  }

  lemma {:induction false} RunCoherent(d: Durations, run: seq<Database>, ops: seq<ServiceCall>, n: nat)
    requires IsServiceRun(d, run, ops) && n < |run|
    ensures Coherent(run[n], d)
  {
    hide Coherent, Apply;
    if n > 0 {
      var last := n - 1;
      RunCoherent(d, run, ops, last);
      ApplyFits(run[last], ops[last], d);
      assert run[n] == Apply(run[last], ops[last], d);
    }
  }

  // A run of the service is a run of advancing plans, so each plan enters its trial and its grace
  // period at most once and the dates of its active use never change.
  lemma ServiceRunAdvances(d: Durations, run: seq<Database>, ops: seq<ServiceCall>)
    requires IsServiceRun(d, run, ops)
    ensures IsRun(run)
  {
    hide Coherent, Apply, AllAdvance;
    forall i, next | 0 <= i && next == i + 1 && next < |run| ensures AllAdvance(run[i], run[next]) {
      RunCoherent(d, run, ops, i);
      ApplyFits(run[i], ops[i], d);
      assert run[next] == Apply(run[i], ops[i], d);
    }
  }

  lemma EnteredOnceInService(d: Durations, run: seq<Database>, ops: seq<ServiceCall>, p: string, i: nat, i': nat,
                             j: nat, j': nat, s: State)
    requires IsServiceRun(d, run, ops) && i' == i + 1 && j' == j + 1 && i' < |run| && j' < |run|
    requires s == ActiveTrial || s == DelinquentGrace
    requires Enters(PlanOf(run[i], p), PlanOf(run[i'], p), s) && Enters(PlanOf(run[j], p), PlanOf(run[j'], p), s)
    ensures i == j
  {
    ServiceRunAdvances(d, run, ops);
    EnteredOnce(run, p, i, i', j, j', s);
  }

  ghost function Renames(run: seq<Database>, ops: seq<ServiceCall>): (renames: seq<Option<Rename>>)
    requires |run| == |ops| + 1
    ensures |renames| == |ops| && forall i :: 0 <= i < |ops| ==> renames[i] == RenameOf(run[i], ops[i])
  {
    seq(|ops|, i requires 0 <= i < |ops| => RenameOf(run[i], ops[i]))
  }

  // Nothing between steps i and j migrates to itself the installation that was m at step i.
  ghost predicate NotForgotten(run: seq<Database>, ops: seq<ServiceCall>, i: nat, j: nat, m: string)
    requires |run| == |ops| + 1 && i <= j <= |ops|
  {
    forall k :: i <= k < j ==> !MigratesToItself(run[k], ops[k], Follow(m, Renames(run, ops), i, k))
  }

  lemma ForgottenSplit(run: seq<Database>, ops: seq<ServiceCall>, i: nat, j: nat, m: string)
    requires |run| == |ops| + 1 && i < j <= |ops| && NotForgotten(run, ops, i, j, m)
    ensures NotForgotten(run, ops, i, j - 1, m)
    ensures !MigratesToItself(run[j - 1], ops[j - 1], Follow(m, Renames(run, ops), i, j - 1))
  {
    hide MigratesToItself, Follow;
  }

  lemma {:induction false} FlagFollows(d: Durations, run: seq<Database>, ops: seq<ServiceCall>, i: nat, j: nat,
                                       m: string)
    requires IsServiceRun(d, run, ops) && i <= j < |run| && Consumed(run[i], m) && NotForgotten(run, ops, i, j, m)
    ensures Consumed(run[j], Follow(m, Renames(run, ops), i, j))
    decreases j - i
  {
    hide *;
    RunLength(d, run, ops);
    FollowNext(m, Renames(run, ops), i, j);
    if i < j {
      var last := j - 1;
      ForgottenSplit(run, ops, i, j, m);
      FlagFollows(d, run, ops, i, last, m);
      RunCoherent(d, run, ops, last);
      RunNext(d, run, ops, last);
      ApplyFits(run[last], ops[last], d);
    }
  }

  lemma RunLength(d: Durations, run: seq<Database>, ops: seq<ServiceCall>)
    requires IsServiceRun(d, run, ops)
    ensures |run| == |ops| + 1
  {
  }

  lemma RunNext(d: Durations, run: seq<Database>, ops: seq<ServiceCall>, n: nat)
    requires IsServiceRun(d, run, ops) && n < |ops|
    ensures |run| == |ops| + 1 && run[n + 1] == Apply(run[n], ops[n], d)
  {
    hide Apply;
    var next := n + 1;
    assert run[next] == Apply(run[n], ops[n], d);
  }

  lemma FollowNext(m: string, renames: seq<Option<Rename>>, i: nat, j: nat)
    requires i <= j <= |renames|
    ensures Follow(m, renames, i, j) == if i == j then m else Renamed(Follow(m, renames, i, j - 1), renames[j - 1])
  {
  }

  // One installation, one trial: over every run of the service, of two steps in which plans enter
  // their trial, no installation registered and on the first roster is on the second under the
  // identity it then has, unless it was migrated to itself in between.
  lemma OneTrialInService(d: Durations, run: seq<Database>, ops: seq<ServiceCall>, p: string, q: string,
                          i: nat, i': nat, j: nat, j': nat, m: string)
    requires IsServiceRun(d, run, ops) && i' == i + 1 && j' == j + 1 && i < j && j' < |run|
    requires Enters(PlanOf(run[i], p), PlanOf(run[i'], p), ActiveTrial)
    requires Enters(PlanOf(run[j], q), PlanOf(run[j'], q), ActiveTrial)
    requires m in Roster(run[i], p) && m in run[i].installations
    requires NotForgotten(run, ops, i', j, m)
    ensures Follow(m, Renames(run, ops), i', j) !in Roster(run[j], q)
  {
    RunCoherent(d, run, ops, i);
    RunCoherent(d, run, ops, j);
    assert run[i'] == Apply(run[i], ops[i], d) && run[j'] == Apply(run[j], ops[j], d);
    hide Coherent, Apply, IsServiceRun, Roster, Enters, NotForgotten, Consumed;
    ApplyStartsTrial(run[i], ops[i], d, p);
    ApplyStartsTrial(run[j], ops[j], d, q);
    FlagFollows(d, run, ops, i', j, m);
    assert !AnyConsumed(run[j], Roster(run[j], q));
  }

  // The exception is real.  Two installations on the rosters of two plans use their trial for the
  // first plan, are migrated to themselves, and start another one for the second plan.
  function TwoTrialStart(): Database {
    var pair := map["m" := NewInstallation, "n" := NewInstallation];
    var rows :=
      {RosterRow("p", "r", "m"), RosterRow("p", "r", "n"), RosterRow("q", "r", "m"), RosterRow("q", "r", "n")};
    Database(pair, map[], rows, map["p" := "r", "q" := "r"], map[], map[], map[], [])
  }

  function TwoTrialCalls(): seq<ServiceCall> {
    [RecordUse("p", 0), Migration("p", "m", "m"), Migration("p", "n", "n"), RecordUse("q", 1)]
  }

  function TwoTrialRun(d: Durations): seq<Database> {
    var ops, first := TwoTrialCalls(), TwoTrialStart();
    var second := Apply(first, ops[0], d);
    var third := Apply(second, ops[1], d);
    var fourth := Apply(third, ops[2], d);
    [first, second, third, fourth, Apply(fourth, ops[3], d)]
  }

  lemma PairRoster(db: Database, id: string)
    requires db.rosters == TwoTrialStart().rosters && db.activeRevision == TwoTrialStart().activeRevision
    requires id == "p" || id == "q"
    ensures Roster(db, id) == {"m", "n"} && |Roster(db, id)| == 2
  {
    assert RosterRow(id, "r", "m") in db.rosters && RosterRow(id, "r", "n") in db.rosters;
    assert RosterRow(id, "r", "m").participant == "m" && RosterRow(id, "r", "n").participant == "n";
  }

  lemma FirstUse(db: Database, id: string, d: Durations, now: Instant)
    requires Roster(db, id) == {"m", "n"} && PlanOf(db, id).None? && !AnyConsumed(db, Roster(db, id))
    ensures var after := ActiveUse(db, id, d, now);
            && after.rosters == db.rosters && after.activeRevision == db.activeRevision
            && after.installations.Keys == db.installations.Keys && after.plans.Keys == db.plans.Keys + {id}
            && InState(PlanOf(after, id), ActiveTrial)
  {
    hide Roster, AnyConsumed;
    assert |{"m", "n"}| == 2;
  }

  lemma SelfMigrationDeletes(db: Database, plan: string, m: string)
    requires m in Roster(db, plan) && m in db.installations
    ensures var after := Migrate(db, plan, m, m);
            && MigrateOutcome(db, plan, m, m) == Migrated
            && after.rosters == db.rosters && after.activeRevision == db.activeRevision && after.plans == db.plans
            && after.installations.Keys == db.installations.Keys - {m}
  {
    hide Roster;
    assert RenameRosters(db.rosters, plan, m, m) == db.rosters by {
      forall r ensures r in RenameRosters(db.rosters, plan, m, m) <==> r in db.rosters {
        RenamedRow(db.rosters, plan, m, m, r);
      }
    }
    hide RenameRosters, RenameDecisions, RenameLicenses, RenameReceipts, RenameUntokened;
  }

  lemma SelfMigrationAllowsTwoTrials(d: Durations)
    ensures var run, ops := TwoTrialRun(d), TwoTrialCalls();
            && IsServiceRun(d, run, ops)
            && Enters(PlanOf(run[0], "p"), PlanOf(run[1], "p"), ActiveTrial)
            && Enters(PlanOf(run[3], "q"), PlanOf(run[4], "q"), ActiveTrial)
            && "m" in Roster(run[0], "p") && "m" in run[0].installations
            && MigratesToItself(run[1], ops[1], "m")
            && Follow("m", Renames(run, ops), 1, 3) == "m" && "m" in Roster(run[3], "q")
  {
    hide *;
    var run, ops := TwoTrialRun(d), TwoTrialCalls();
    TwoTrialSteps(d);
    TwoTrialFirstHalf(d);
    TwoTrialSecondHalf(d);
    TwoTrialNames(d);
  }

  lemma TwoTrialSteps(d: Durations)
    ensures var run, ops := TwoTrialRun(d), TwoTrialCalls();
            && |run| == 5 && |ops| == 4 && run[0] == TwoTrialStart() && IsServiceRun(d, run, ops)
            && run[1] == ActiveUse(run[0], "p", d, 0)
            && run[2] == Migrate(run[1], "p", "m", "m") && run[3] == Migrate(run[2], "p", "n", "n")
            && run[4] == ActiveUse(run[3], "q", d, 1)
            && ops[1] == Migration("p", "m", "m") && ops[2] == Migration("p", "n", "n")
  {
    hide ActiveUse, Migrate;
    assert Coherent(TwoTrialStart(), d);
    hide TwoTrialStart, Coherent;
  }

  lemma TwoTrialFirstHalf(d: Durations)
    ensures var run, ops := TwoTrialRun(d), TwoTrialCalls();
            && |run| == 5 && |ops| == 4
            && Enters(PlanOf(run[0], "p"), PlanOf(run[1], "p"), ActiveTrial)
            && "m" in Roster(run[0], "p") && "m" in run[0].installations
            && MigratesToItself(run[1], ops[1], "m")
            && run[2].rosters == TwoTrialStart().rosters && run[2].activeRevision == TwoTrialStart().activeRevision
            && run[2].installations.Keys == {"n"} && PlanOf(run[2], "q").None?
  {
    TwoTrialSteps(d);
    hide TwoTrialRun, TwoTrialCalls, Roster, ActiveUse, Migrate, MigrateOutcome, IsServiceRun, Apply;
    var run := TwoTrialRun(d);
    PairRoster(run[0], "p");
    FirstUse(run[0], "p", d, 0);
    PairRoster(run[1], "p");
    SelfMigrationDeletes(run[1], "p", "m");
  }

  lemma TwoTrialSecondHalf(d: Durations)
    ensures var run := TwoTrialRun(d);
            && |run| == 5
            && Enters(PlanOf(run[3], "q"), PlanOf(run[4], "q"), ActiveTrial) && "m" in Roster(run[3], "q")
            && MigrateOutcome(run[2], "p", "n", "n") == Migrated
  {
    TwoTrialSteps(d);
    TwoTrialFirstHalf(d);
    hide TwoTrialRun, TwoTrialCalls, TwoTrialStart, Roster, ActiveUse, Migrate, MigrateOutcome, IsServiceRun, Apply,
         Renames;
    var run := TwoTrialRun(d);
    PairRoster(run[2], "p");
    SelfMigrationDeletes(run[2], "p", "n");
    PairRoster(run[3], "q");
    FirstUse(run[3], "q", d, 1);
  }

  lemma TwoTrialNames(d: Durations)
    ensures Follow("m", Renames(TwoTrialRun(d), TwoTrialCalls()), 1, 3) == "m"
  {
    TwoTrialSteps(d);
    TwoTrialFirstHalf(d);
    TwoTrialSecondHalf(d);
    hide TwoTrialRun, TwoTrialCalls, TwoTrialStart, Roster, ActiveUse, Migrate, MigrateOutcome, IsServiceRun, Apply,
         Enters;
    var renames := Renames(TwoTrialRun(d), TwoTrialCalls());
    assert renames[1] == Some(Rename("m", "m")) && renames[2] == Some(Rename("n", "n"));
    assert Follow("m", renames, 1, 1) == "m";
    assert Follow("m", renames, 1, 2) == "m";
  }

  // ---------------------------------------------------------------------------------------------
  // Read-only until paid

  // Whether an operation refreshes a plan.
  predicate Refreshes(db: Database, op: ServiceCall, p: string) {
    match op
    case RefreshPlan(plan, _) => plan == p
    case Introspection(input, _) => Accepted(input) && input.plan == p
    case ApplyPlay(installation, _, _, _) => p in PlansOf(db, installation)
    case Reprojection(installation, _, _) => p in PlansOf(db, installation)
    case _ => false
  }

  // The refresh finds everyone on the roster paid.
  predicate Lifts(db: Database, op: ServiceCall, d: Durations, p: string) {
    Refreshes(db, op, p) && AllPaid(Apply(db, op, d), p)
  }

  predicate Readonly(db: Database, p: string) {
    InState(PlanOf(db, p), DelinquentReadonly)
  }

  // A read-only plan stays so in one step exactly when no refresh finds its roster paid; a refresh
  // that does makes it paid.
  lemma ReadonlyStepExactly(db: Database, op: ServiceCall, d: Durations, p: string)
    requires Coherent(db, d) && Readonly(db, p)
    ensures if Lifts(db, op, d, p) then InState(PlanOf(Apply(db, op, d), p), ActivePaid)
      else Readonly(Apply(db, op, d), p)
  {
    hide Coherent, ActiveUse, Refresh, IntrospectedDb, SetRoster, Migrate, Purchased, Reproject, PlansOf, Paid, AllPaid,
         MayGrantFree;
    CoherentPlan(db, p, d);
    match op
    case AssignRoster(plan, revision, participants) => RosterKeepsPlan(db, plan, revision, participants, p);
    case RecordUse(plan, now) => UseKeepsStarted(db, plan, d, now, p);
    case ApplyPlay(installation, token, receipt, now) =>
      var bought := Purchased(db, installation, token, receipt);
      PurchasedFits(db, installation, token, receipt, d);
      SamePlansOf(db, bought, installation);
      ReprojectReadonly(bought, installation, Paid(bought, installation, now), false, d, now, p);
    case Reprojection(installation, revoke, now) =>
      ReprojectReadonly(db, installation, Paid(db, installation, now), revoke, d, now, p);
    case RefreshPlan(plan, now) => RefreshReadonly(db, plan, d, now, p);
    case Introspection(input, now) => if Accepted(input) { IntrospectReadonly(db, input, d, now, p); }
    case Migration(plan, from, into) => MigrationMovesNoPlan(db, plan, from, into);
    case _ => StoreWritesFit(db, op, d);
  }

  lemma RosterKeepsPlan(db: Database, plan: string, revision: string, participants: set<string>, p: string)
    requires p in db.plans
    ensures PlanOf(SetRoster(db, plan, revision, participants), p) == PlanOf(db, p)
  {
  }

  lemma UseKeepsStarted(db: Database, plan: string, d: Durations, now: Instant, p: string)
    requires p in db.plans && db.plans[p].activeUseStartedAt.Some?
    ensures PlanOf(ActiveUse(db, plan, d, now), p) == PlanOf(db, p)
  {
    hide Roster, AnyConsumed;
  }

  lemma SamePlansOf(db: Database, other: Database, installation: string)
    requires other.activeRevision == db.activeRevision && forall id :: Roster(other, id) == Roster(db, id)
    ensures PlansOf(other, installation) == PlansOf(db, installation)
  {
    hide Roster;
  }

  lemma RefreshReadonly(db: Database, plan: string, d: Durations, now: Instant, p: string)
    requires Readonly(db, p)
    ensures var after := Refresh(db, plan, d, now);
            if plan == p && AllPaid(after, p) then InState(PlanOf(after, p), ActivePaid) else Readonly(after, p)
  {
    RefreshKeepsPaid(db, plan, d, now);
    RosterPaid(db, p);
    hide Roster, AllPaid;
  }

  lemma IntrospectReadonly(db: Database, input: Input, d: Durations, now: Instant, p: string)
    requires Coherent(db, d) && Readonly(db, p)
    ensures var after := IntrospectedDb(db, input, d, now);
            if input.plan == p && AllPaid(after, p) then InState(PlanOf(after, p), ActivePaid) else Readonly(after, p)
  {
    hide Coherent, Roster, AllPaid, Refresh, ActiveUse, Operation, IsActiveUse;
    var used := Use(db, input, d, now);
    var decided := Decide(used, input);
    UseFits(db, input, d, now);
    DecideFits(used, input, d);
    CoherentPlan(db, p, d);
    UseKeepsStarted(db, input.plan, d, now, p);
    assert Readonly(decided, p);
    RefreshReadonly(decided, input.plan, d, now, p);
  }

  lemma ReprojectReadonly(db: Database, installation: string, paid: bool, revoke: bool, d: Durations, now: Instant,
                          p: string)
    requires Coherent(db, d) && Readonly(db, p)
    ensures var after := Reproject(db, PlansOf(db, installation), installation, paid, revoke, d, now);
            if p in PlansOf(db, installation) && AllPaid(after, p) then InState(PlanOf(after, p), ActivePaid)
              else Readonly(after, p)
  {
    hide Coherent, Roster, PutLicense, PlansOf, AllPaid, Reproject;
    var ids := PlansOf(db, installation);
    var state := if paid then LicenseActivePaid else LicenseUnpaid;
    var after := Reproject(db, ids, installation, paid, revoke, d, now);
    CoherentPlan(db, p, d);
    ReprojectParts(db, ids, installation, paid, revoke, d, now);
    if p in ids {
      ReprojectedLicenses(db, ids, installation, paid, revoke, d, now, p);
      if revoke && !paid { UnpaidMember(after, p, installation); }
    }
  }

  // For a plan reprojected, what its roster has paid is what the new licence alone would make it.
  lemma ReprojectedLicenses(db: Database, ids: set<string>, installation: string, paid: bool, revoke: bool,
                            d: Durations, now: Instant, p: string)
    requires p in ids && ids == PlansOf(db, installation)
    ensures var after := Reproject(db, ids, installation, paid, revoke, d, now);
            var state := if paid then LicenseActivePaid else LicenseUnpaid;
            && (AllPaid(after, p) <==> AllPaid(PutLicense(db, p, installation, state), p))
            && installation in Roster(after, p) && (HasPaid(after, p, installation) <==> paid)
  {
    hide ReprojectedPlan, Roster, AllPaid;
    var after := Reproject(db, ids, installation, paid, revoke, d, now);
    var state := if paid then LicenseActivePaid else LicenseUnpaid;
    var put := PutLicense(db, p, installation, state);
    assert LicenseKey(p, installation) in after.licenses && after.licenses[LicenseKey(p, installation)] == state;
    forall m ensures HasPaid(after, p, m) == HasPaid(put, p, m) {
    }
    PlanRowsDecide(after, put, p);
    SameRosters(db, after, p);
  }

  lemma UnpaidMember(db: Database, p: string, m: string)
    requires m in Roster(db, p) && !HasPaid(db, p, m)
    ensures !AllPaid(db, p)
  {
    hide Roster, HasPaid;
  }

  // Over every run of the service: once read-only, a plan stays so until a refresh finds its whole
  // roster paid.
  lemma {:induction false} ReadonlyStaysInService(d: Durations, run: seq<Database>, ops: seq<ServiceCall>, p: string,
                                                  i: nat, j: nat)
    requires IsServiceRun(d, run, ops) && i <= j < |run| && Readonly(run[i], p)
    requires forall k :: i <= k < j ==> !Lifts(run[k], ops[k], d, p)
    ensures Readonly(run[j], p)
    decreases j - i
  {
    hide Apply, Lifts, Readonly, Coherent;
    if i < j {
      var last, next := j - 1, j;
      ReadonlyStaysInService(d, run, ops, p, i, last);
      RunCoherent(d, run, ops, last);
      ReadonlyStepExactly(run[last], ops[last], d, p);
      assert run[next] == Apply(run[last], ops[last], d);
    }
  }

  // And every mutating request for it in that time is refused as read-only.
  lemma ReadonlyRefusesInService(d: Durations, run: seq<Database>, ops: seq<ServiceCall>, i: nat, j: nat)
    requires IsServiceRun(d, run, ops) && i <= j < |ops| && ops[j].Introspection?
    requires Accepted(ops[j].input) && IsMutating(Operation(ops[j].input))
    requires Readonly(run[i], ops[j].input.plan)
    requires forall k :: i <= k <= j ==> !Lifts(run[k], ops[k], d, ops[j].input.plan)
    ensures IntrospectVerdict(run[j], ops[j].input, d, ops[j].now) == Verdict(false, "entitlement_plan_read_only")
  {
    assert |run| == |ops| + 1;
    hide IsServiceRun, Coherent, IsMutating, IntrospectVerdict, IntrospectedDb, Operation, AllPaid;
    ReadonlyStaysInService(d, run, ops, ops[j].input.plan, i, j);
    RunCoherent(d, run, ops, j);
    assert !Lifts(run[j], ops[j], d, ops[j].input.plan);
    IntrospectedFacts(run[j], ops[j].input, d, ops[j].now);
    ReadonlyUntilPaid(run[j], ops[j].input, d, ops[j].now);
  }

  // An immediate revocation of an installation that has not paid makes a plan in use with it on the
  // roster read-only; from then on, until a refresh finds everyone paid, every mutation is refused.
  lemma RevocationHolds(d: Durations, run: seq<Database>, ops: seq<ServiceCall>, i: nat, i': nat, j: nat)
    requires IsServiceRun(d, run, ops) && i' == i + 1 && i' <= j < |ops|
    requires ops[i].Reprojection? && ops[i].revoke && !Paid(run[i], ops[i].installation, ops[i].now)
    requires ops[j].Introspection? && Accepted(ops[j].input) && IsMutating(Operation(ops[j].input))
    requires var p := ops[j].input.plan;
             && p in PlansOf(run[i], ops[i].installation) && p in run[i].plans
               && run[i].plans[p].activeUseStartedAt.Some?
             && forall k :: i' <= k <= j ==> !Lifts(run[k], ops[k], d, p)
    ensures IntrospectVerdict(run[j], ops[j].input, d, ops[j].now) == Verdict(false, "entitlement_plan_read_only")
  {
    assert run[i'] == Apply(run[i], ops[i], d);
    hide IsServiceRun, IsMutating, IntrospectVerdict, Operation, PlansOf, Paid;
    RevokedReadonly(run[i], ops[i].installation, d, ops[i].now, ops[j].input.plan);
    ReadonlyRefusesInService(d, run, ops, i', j);
  }

  lemma RevokedReadonly(db: Database, installation: string, d: Durations, now: Instant, p: string)
    requires p in PlansOf(db, installation) && p in db.plans && db.plans[p].activeUseStartedAt.Some?
    ensures Readonly(Reproject(db, PlansOf(db, installation), installation, false, true, d, now), p)
  {
    hide Roster, AllPaid, PutLicense, PlansOf;
  }
}
