// What each call does to the relay's mailbox, as a function of its tables, and what holds over
// every run of calls: conservation of envelopes, spacing of acceptances, disconnection.
module MailboxRules {
  import opened Wrappers
  import opened FireTimes
  import opened ByteStrings

  datatype RouteStatus = Active | Disconnecting(startedAt: Instant)
  datatype Route = Route(lastSeen: Instant, status: RouteStatus)

  datatype IdemKey = IdemKey(sender: Bytes, key: Bytes)
  datatype IdemRow = IdemRow(envelope: Bytes, ttlExpiresAt: Instant)

  datatype EnvelopeKey = EnvelopeKey(id: Bytes, recipient: Bytes)
  datatype Envelope = Envelope(sender: Bytes, ciphertext: Bytes, kind: int, createdAt: Instant, ttlExpiresAt: Instant)

  datatype PushKey = PushKey(recipient: Bytes, provider: string, token: string)

  datatype Totals = Totals(envelopesExpired: nat, idempotencyExpired: nat, routingPruned: nat)

  // The tables; push tokens with their expiry, and the tokens purged on each UTC day.
  datatype Relay = Relay(
    routing: map<Pair, Route>,
    idempotency: map<IdemKey, IdemRow>,
    envelopes: map<EnvelopeKey, Envelope>,
    pushTokens: map<PushKey, Instant>,
    purges: map<int, nat>,
    totals: Totals)
  {
    predicate IsActive(x: Bytes, y: Bytes) {
      Canonical(x, y) in routing && routing[Canonical(x, y)].status == Active
    }
  }

  const EmptyRelay := Relay(map[], map[], map[], map[], map[], Totals(0, 0, 0))

  datatype Config = Config(envelopeTtlMax: int, idempotencyTtl: int, disconnectGrace: int, routingInactivityTtl: int)
  {
    // Start-up refuses other settings.
    predicate Accepted() {
      envelopeTtlMax > 0
    }
  }

  datatype Request = Request(
    sender: Bytes, recipient: Bytes, idempotencyKey: Bytes, ciphertext: Bytes, kind: int, expiresAt: Option<Instant>)
  {
    function Key(): IdemKey {
      IdemKey(sender, idempotencyKey)
    }
  }

  datatype Response =
    | NoRouting
    | NotEntitled
    | ExpiresAtNotFuture
    | Replay(id: Bytes, ttlExpiresAt: Instant)
    | Stored(id: Bytes, ttlExpiresAt: Instant)

  // `clock` is the database's own clock, `entitled` the answer of the entitlement check and
  // `freshId` the id drawn for the envelope.
  datatype Call =
    | Establish(x: Bytes, y: Bytes, clock: Instant)
    | Disconnect(x: Bytes, y: Bytes, at: Instant)
    | Touch(x: Bytes, y: Bytes, clock: Instant)
    | Prune(now: Instant)
    | Submit(request: Request, entitled: bool, freshId: Bytes, now: Instant, clock: Instant)
    | Acknowledge(id: Bytes, recipient: Bytes)
    | RegisterPush(key: PushKey, expiresAt: Instant)
    | Sweep(now: Instant)

  // The delivery cutoff: the requested one, capped; the cap when none is requested; an error for one
  // that has passed.
  function RetentionUntil(cap: int, expiresAt: Option<Instant>, now: Instant): Option<Instant> {
    var maxAt := now + cap;
    match expiresAt
    case None => Some(maxAt)
    case Some(at) => if at <= now then None else if at > maxAt then Some(maxAt) else Some(at)
  }

  lemma RetentionBounds(cap: int, expiresAt: Option<Instant>, now: Instant)
    requires cap > 0
    ensures var until := RetentionUntil(cap, expiresAt, now);
            && (until.None? <==> expiresAt.Some? && expiresAt.value <= now)
            && (until.Some? ==> now < until.value <= now + cap && (expiresAt.Some? ==> until.value <= expiresAt.value))
            && (expiresAt.Some? && now < expiresAt.value <= now + cap ==> until == expiresAt)
  {
  }

  // ---------------------------------------------------------------------------------------------
  // One call

  // The table takes no peer paired with itself and no key of another length.
  predicate MayEstablish(x: Bytes, y: Bytes) {
    x != y && 8 <= |x| <= 64 && 8 <= |y| <= 64
  }

  function Established(routing: map<Pair, Route>, x: Bytes, y: Bytes, clock: Instant): map<Pair, Route> {
    if MayEstablish(x, y) then routing[Canonical(x, y) := Route(clock, Active)] else routing
  }

  function Disconnected(routing: map<Pair, Route>, x: Bytes, y: Bytes, at: Instant): map<Pair, Route> {
    var pair := Canonical(x, y);
    if pair in routing && routing[pair].status == Active
      then routing[pair := routing[pair].(status := Disconnecting(at))]
    else routing
  }

  function Touched(routing: map<Pair, Route>, x: Bytes, y: Bytes, clock: Instant): map<Pair, Route> {
    var pair := Canonical(x, y);
    if pair in routing && routing[pair].status == Active then routing[pair := routing[pair].(lastSeen := clock)]
    else routing
  }

  // A duration as the query writes it: in whole seconds, halves to the even one.
  function WholeSeconds(duration: int): int {
    var seconds, rest := duration / Second, duration % Second;
    if 2 * rest < Second || (2 * rest == Second && seconds % 2 == 0) then seconds else seconds + 1
  }

  function Unpruned(routing: map<Pair, Route>, config: Config, now: Instant): map<Pair, Route> {
    var grace, inactivity := WholeSeconds(config.disconnectGrace) * Second,
      WholeSeconds(config.routingInactivityTtl) * Second;
    map p | p in routing && !(match routing[p].status
                              case Disconnecting(at) => at + grace <= now
                              case Active => routing[p].lastSeen + inactivity <= now) :: routing[p]
  }

  function Unexpired(rows: map<IdemKey, IdemRow>, now: Instant): map<IdemKey, IdemRow> {
    map k | k in rows && rows[k].ttlExpiresAt > now :: rows[k]
  }

  function Undelivered(rows: map<EnvelopeKey, Envelope>, now: Instant): map<EnvelopeKey, Envelope> {
    map k | k in rows && rows[k].ttlExpiresAt > now :: rows[k]
  }

  function LivePush(rows: map<PushKey, Instant>, now: Instant): map<PushKey, Instant> {
    map k | k in rows && rows[k] > now :: rows[k]
  }

  function Dropped<K, V>(rows: map<K, V>, kept: map<K, V>): nat {
    if |kept| <= |rows| then |rows| - |kept| else 0
  }

  function Purged(purges: map<int, nat>, day: int, count: nat): map<int, nat> {
    if count == 0 then purges else purges[day := PurgedOn(purges, day) + count]
  }

  function PurgedOn(purges: map<int, nat>, day: int): nat {
    if day in purges then purges[day] else 0
  }

  function Swept(config: Config, r: Relay, now: Instant): Relay {
    var routing := Unpruned(r.routing, config, now);
    var idempotency := Unexpired(r.idempotency, now);
    var envelopes := Undelivered(r.envelopes, now);
    var pushTokens := LivePush(r.pushTokens, now);
    Relay(routing, idempotency, envelopes, pushTokens,
          Purged(r.purges, now / Day, Dropped(r.pushTokens, pushTokens)),
          Totals(r.totals.envelopesExpired + Dropped(r.envelopes, envelopes),
                 r.totals.idempotencyExpired + Dropped(r.idempotency, idempotency),
                 r.totals.routingPruned + Dropped(r.routing, routing)))
  }

  // The unexpired envelopes of a recipient with their creation times.
  function Waiting(envelopes: map<EnvelopeKey, Envelope>, recipient: Bytes, now: Instant): map<EnvelopeKey, Instant> {
    map k | k in envelopes && k.recipient == recipient && envelopes[k].ttlExpiresAt > now :: envelopes[k].createdAt
  }

  predicate Live(r: Relay, key: IdemKey, now: Instant) {
    key in r.idempotency && r.idempotency[key].ttlExpiresAt > now
  }

  function Respond(config: Config, r: Relay, request: Request, entitled: bool, freshId: Bytes, now: Instant): Response {
    var until := RetentionUntil(config.envelopeTtlMax, request.expiresAt, now);
    if !r.IsActive(request.sender, request.recipient) then NoRouting
    else if !entitled then NotEntitled
    else if until.None? then ExpiresAtNotFuture
    else if Live(r, request.Key(), now) then Replay(r.idempotency[request.Key()].envelope, now + config.idempotencyTtl)
    else Stored(freshId, until.value)
  }

  function Accept(config: Config, r: Relay, request: Request, freshId: Bytes, until: Instant, now: Instant): Relay {
    var slot := EnvelopeKey(freshId, request.recipient);
    var envelope := Envelope(request.sender, request.ciphertext, request.kind, now, until);
    r.(idempotency := r.idempotency[request.Key() := IdemRow(freshId, now + config.idempotencyTtl)],
       envelopes := if slot in r.envelopes then r.envelopes else r.envelopes[slot := envelope])
  }

  function Submitted(config: Config, r: Relay, request: Request, entitled: bool, freshId: Bytes, now: Instant,
                     clock: Instant): Relay {
    match Respond(config, r, request, entitled, freshId, now)
    case Stored(_, until) =>
      Accept(config, r, request, freshId, until, now)
        .(routing := Touched(r.routing, request.sender, request.recipient, clock))
    case _ => r
  }

  function Step(config: Config, r: Relay, call: Call): Relay {
    match call
    case Establish(x, y, clock) => r.(routing := Established(r.routing, x, y, clock))
    case Disconnect(x, y, at) => r.(routing := Disconnected(r.routing, x, y, at))
    case Touch(x, y, clock) => r.(routing := Touched(r.routing, x, y, clock))
    case Prune(now) => r.(routing := Unpruned(r.routing, config, now))
    case Submit(request, entitled, freshId, now, clock) => Submitted(config, r, request, entitled, freshId, now, clock)
    case Acknowledge(id, recipient) => r.(envelopes := r.envelopes - {EnvelopeKey(id, recipient)})
    case RegisterPush(key, expiresAt) => r.(pushTokens := r.pushTokens[key := expiresAt])
    case Sweep(now) => Swept(config, r, now)
  }

  // A submission that is refused or replayed changes nothing.
  lemma SubmitStep(config: Config, r: Relay, request: Request, entitled: bool, freshId: Bytes, now: Instant,
                   clock: Instant)
    ensures var response := Respond(config, r, request, entitled, freshId, now);
            Submitted(config, r, request, entitled, freshId, now, clock) ==
              if response.Stored? then
                Accept(config, r, request, freshId, response.ttlExpiresAt, now)
                  .(routing := Touched(r.routing, request.sender, request.recipient, clock))
              else r
  {
  }

  // The answer to a submission.
  function ResponseTo(config: Config, r: Relay, call: Call): Response
    requires call.Submit?
  {
    Respond(config, r, call.request, call.entitled, call.freshId, call.now)
  }

  predicate Stores(config: Config, r: Relay, call: Call) {
    call.Submit? && ResponseTo(config, r, call).Stored?
  }

  predicate Acks(r: Relay, call: Call) {
    call.Acknowledge? && EnvelopeKey(call.id, call.recipient) in r.envelopes
  }

  // ---------------------------------------------------------------------------------------------
  // What has happened

  // A submission that was stored, not replayed.
  datatype Acceptance = Acceptance(key: IdemKey, envelope: Bytes, at: Instant)

  // Acceptances in order, envelopes acknowledged, acceptances whose id and recipient were taken, the
  // latest clock reading, and whether clock readings never went back.
  datatype History = History(log: seq<Acceptance>, acked: nat, collided: nat, latest: Option<Instant>, ordered: bool)

  const NoHistory := History([], 0, 0, None, true)

  function Pass(h: History, now: Instant): History {
    h.(latest := Some(if h.latest.Some? && h.latest.value > now then h.latest.value else now),
       ordered := h.ordered && (h.latest.Some? ==> h.latest.value <= now))
  }

  function Record(config: Config, r: Relay, h: History, call: Call): History {
    match call
    case Submit(request, entitled, freshId, now, _) =>
      var passed := Pass(h, now);
      if Respond(config, r, request, entitled, freshId, now).Stored? then
        passed.(log := h.log + [Acceptance(request.Key(), freshId, now)],
                collided := h.collided + if EnvelopeKey(freshId, request.recipient) in r.envelopes then 1 else 0)
      else passed
    case Acknowledge(_, _) => h.(acked := h.acked + if Acks(r, call) then 1 else 0)
    case Sweep(now) => Pass(h, now)
    case _ => h
  }

  predicate InLog(log: seq<Acceptance>, id: Bytes) {
    exists i :: 0 <= i < |log| && log[i].envelope == id
  }

  predicate Retained(e: Envelope, cap: int) {
    e.createdAt < e.ttlExpiresAt <= e.createdAt + cap
  }

  ghost function LastFor(log: seq<Acceptance>, key: IdemKey): Option<Acceptance> {
    if log == [] then None
    else if log[|log| - 1].key == key then Some(log[|log| - 1])
    else LastFor(log[..|log| - 1], key)
  }

  // Two acceptances under one key are at least one idempotency lifetime apart.
  ghost predicate Spaced(log: seq<Acceptance>, ttl: int) {
    forall i, j :: 0 <= i < j < |log| && log[i].key == log[j].key ==> log[i].at + ttl <= log[j].at
  }

  // The table holds the last acceptance under each key for as long as it lasts.
  ghost predicate Remembers(log: seq<Acceptance>, rows: map<IdemKey, IdemRow>, ttl: int, latest: Option<Instant>) {
    && (forall i :: 0 <= i < |log| ==> latest.Some? && log[i].at <= latest.value)
    && forall key: IdemKey :: RemembersKey(log, rows, ttl, latest, key)
  }

  ghost predicate RemembersKey(log: seq<Acceptance>, rows: map<IdemKey, IdemRow>, ttl: int, latest: Option<Instant>,
                               key: IdemKey) {
    var last := LastFor(log, key);
    if key in rows then last.Some? && rows[key] == IdemRow(last.value.envelope, last.value.at + ttl)
    else last.Some? ==> latest.Some? && last.value.at + ttl <= latest.value
  }

  // Every accepted envelope is queued, acknowledged, expired or collided.
  predicate Balanced(r: Relay, h: History) {
    |h.log| == |r.envelopes| + h.acked + r.totals.envelopesExpired + h.collided
  }

  ghost predicate Queue(config: Config, r: Relay, h: History) {
    forall k <- r.envelopes :: Retained(r.envelopes[k], config.envelopeTtlMax) && InLog(h.log, k.id)
  }

  ghost predicate Keyed(config: Config, r: Relay, h: History) {
    h.ordered ==>
      Spaced(h.log, config.idempotencyTtl) && Remembers(h.log, r.idempotency, config.idempotencyTtl, h.latest)
  }

  ghost predicate Ordered(routing: map<Pair, Route>) {
    forall p <- routing :: Before(p.a, p.b)
  }

  // Routing rows are in canonical order; envelopes are conserved and their retention bounded;
  // acceptances under a key are spaced by the idempotency lifetime.
  ghost predicate Sound(config: Config, r: Relay, h: History) {
    Ordered(r.routing) && Balanced(r, h) && Queue(config, r, h) && Keyed(config, r, h)
  }

  // ---------------------------------------------------------------------------------------------
  // Sizes

  lemma FewerRows<K, V>(rows: map<K, V>, kept: map<K, V>)
    requires kept.Keys <= rows.Keys
    ensures |kept| <= |rows| && Dropped(rows, kept) == |rows| - |kept|
  {
    SubsetSize(kept.Keys, rows.Keys);
    assert |kept| == |kept.Keys| && |rows| == |rows.Keys|;
  }

  lemma {:induction false} SubsetSize<K>(a: set<K>, b: set<K>)
    requires a <= b
    ensures |a| <= |b|
  {
    if x :| x in a {
      SubsetSize(a - {x}, b - {x});
    }
  }

  lemma PutSize<K, V>(rows: map<K, V>, k: K, v: V)
    ensures |rows[k := v]| == |rows| + if k in rows then 0 else 1
  {
    assert rows[k := v].Keys == rows.Keys + {k};
    assert |rows[k := v]| == |rows[k := v].Keys| && |rows| == |rows.Keys|;
  }

  lemma DropSize<K, V>(rows: map<K, V>, k: K)
    ensures |rows - {k}| == |rows| - if k in rows then 1 else 0
  {
    assert (rows - {k}).Keys == rows.Keys - {k};
    assert |rows - {k}| == |(rows - {k}).Keys| && |rows| == |rows.Keys|;
  }

  // ---------------------------------------------------------------------------------------------
  // Acceptances and the idempotency table

  lemma {:induction false} LastForIsLast(log: seq<Acceptance>, i: nat)
    requires i < |log|
    ensures var last := LastFor(log, log[i].key);
            last.Some? && last.value.key == log[i].key && exists j :: i <= j < |log| && log[j] == last.value
  {
    var n := |log| - 1;
    if log[n].key == log[i].key {
      assert log[n] == LastFor(log, log[i].key).value;
    } else {
      LastForIsLast(log[..n], i);
      var j :| i <= j < n && log[..n][j] == LastFor(log[..n], log[i].key).value;
      assert log[j] == LastFor(log, log[i].key).value;
    }
  }

  // Accepting when no live row stands in the way keeps acceptances spaced.
  lemma AcceptKeepsSpacing(log: seq<Acceptance>, rows: map<IdemKey, IdemRow>, ttl: int, latest: Option<Instant>,
                           key: IdemKey, envelope: Bytes, now: Instant)
    requires Spaced(log, ttl) && Remembers(log, rows, ttl, latest) && (latest.Some? ==> latest.value <= now)
    requires key in rows ==> rows[key].ttlExpiresAt <= now
    ensures Spaced(log + [Acceptance(key, envelope, now)], ttl)
  {
    var after := log + [Acceptance(key, envelope, now)];
    var n := |log|;
    assert RemembersKey(log, rows, ttl, latest, key);
    forall i | 0 <= i < n && log[i].key == key ensures log[i].at + ttl <= now {
      LastForIsLast(log, i);
      var last := LastFor(log, key).value;
      var j :| i <= j < n && log[j] == last;
      assert last.at + ttl <= now;
      assert i < j ==> log[i].at + ttl <= log[j].at <= latest.value;
    }
  }

  lemma AcceptKeepsMemory(log: seq<Acceptance>, rows: map<IdemKey, IdemRow>, ttl: int, latest: Option<Instant>,
                          key: IdemKey, envelope: Bytes, now: Instant)
    requires Remembers(log, rows, ttl, latest) && (latest.Some? ==> latest.value <= now)
    ensures Remembers(log + [Acceptance(key, envelope, now)], rows[key := IdemRow(envelope, now + ttl)], ttl, Some(now))
  {
    var after := log + [Acceptance(key, envelope, now)];
    var reserved := rows[key := IdemRow(envelope, now + ttl)];
    forall other: IdemKey ensures RemembersKey(after, reserved, ttl, Some(now), other) {
      assert RemembersKey(log, rows, ttl, latest, other);
      assert after[..|log|] == log;
    }
  }

  // Deleting rows that are over, and letting time pass, forgets nothing that matters.
  lemma SweepKeepsMemory(log: seq<Acceptance>, rows: map<IdemKey, IdemRow>, ttl: int, latest: Option<Instant>,
                         now: Instant)
    requires Remembers(log, rows, ttl, latest) && (latest.Some? ==> latest.value <= now)
    ensures Remembers(log, Unexpired(rows, now), ttl, Some(now)) && Remembers(log, rows, ttl, Some(now))
  {
    forall key: IdemKey
      ensures RemembersKey(log, Unexpired(rows, now), ttl, Some(now), key)
        && RemembersKey(log, rows, ttl, Some(now), key)
    {
      assert RemembersKey(log, rows, ttl, latest, key);
    }
  }

  // ---------------------------------------------------------------------------------------------
  // Every call keeps the mailbox sound

  lemma RoutingStaysOrdered(config: Config, r: Relay, call: Call)
    requires Ordered(r.routing)
    ensures Ordered(Step(config, r, call).routing)
  {
    hide Respond, Accept, Before, Canonical;
    if call.Establish? { CanonicalUnordered(call.x, call.y, call.x, call.y); }
  }

  lemma StaysBalanced(config: Config, r: Relay, h: History, call: Call)
    requires Balanced(r, h)
    ensures Balanced(Step(config, r, call), Record(config, r, h, call))
  {
    hide Balanced, Step, Record;
    match call
    case Submit(_, _, _, _, _) => SubmitBalanced(config, r, h, call);
    case Sweep(now) => SweepBalanced(config, r, h, call);
    case _ => OthersBalanced(config, r, h, call);
  }

  lemma SubmitBalanced(config: Config, r: Relay, h: History, call: Call)
    requires Balanced(r, h) && call.Submit?
    ensures Balanced(Step(config, r, call), Record(config, r, h, call))
  {
    hide Respond;
    var until := ResponseTo(config, r, call);
    if until.Stored? {
      var slot := EnvelopeKey(call.freshId, call.request.recipient);
      PutSize(r.envelopes, slot,
        Envelope(call.request.sender, call.request.ciphertext, call.request.kind, call.now, until.ttlExpiresAt));
    }
  }

  lemma SweepBalanced(config: Config, r: Relay, h: History, call: Call)
    requires Balanced(r, h) && call.Sweep?
    ensures Balanced(Step(config, r, call), Record(config, r, h, call))
  {
    hide Undelivered;
    SomeUndelivered(r.envelopes, call.now);
    FewerRows(r.envelopes, Undelivered(r.envelopes, call.now));
  }

  lemma OthersBalanced(config: Config, r: Relay, h: History, call: Call)
    requires Balanced(r, h) && !call.Submit? && !call.Sweep?
    ensures Balanced(Step(config, r, call), Record(config, r, h, call))
  {
    if call.Acknowledge? { DropSize(r.envelopes, EnvelopeKey(call.id, call.recipient)); }
  }

  lemma SomeUndelivered(rows: map<EnvelopeKey, Envelope>, now: Instant)
    ensures Undelivered(rows, now).Keys <= rows.Keys
    ensures forall k <- Undelivered(rows, now) :: Undelivered(rows, now)[k] == rows[k] && rows[k].ttlExpiresAt > now
  {
  }

  lemma StaysQueued(config: Config, r: Relay, h: History, call: Call)
    requires config.Accepted() && Queue(config, r, h)
    ensures Queue(config, Step(config, r, call), Record(config, r, h, call))
  {
    hide Undelivered, InLog;
    LogGrows(config, r, h, call);
    match call
    case Submit(request, _, freshId, now, _) =>
      RetentionBounds(config.envelopeTtlMax, request.expiresAt, now);
    case Sweep(now) => SomeUndelivered(r.envelopes, now);
    case _ =>
  }

  lemma LogGrows(config: Config, r: Relay, h: History, call: Call)
    ensures var log := Record(config, r, h, call).log;
            && (forall id :: InLog(h.log, id) ==> InLog(log, id))
            && (Stores(config, r, call) ==> InLog(log, call.freshId))
  {
    hide Respond;
    var log := Record(config, r, h, call).log;
    forall id | InLog(h.log, id) ensures InLog(log, id) {
      var i :| 0 <= i < |h.log| && h.log[i].envelope == id;
      assert log[i].envelope == id;
    }
    if Stores(config, r, call) { assert log[|h.log|].envelope == call.freshId; }
  }

  lemma StaysKeyed(config: Config, r: Relay, h: History, call: Call)
    requires Keyed(config, r, h)
    ensures Keyed(config, Step(config, r, call), Record(config, r, h, call))
  {
    hide Spaced, Remembers, Unexpired, RetentionUntil;
    var ttl := config.idempotencyTtl;
    if Record(config, r, h, call).ordered {
      match call
      case Submit(request, _, freshId, now, _) =>
        SweepKeepsMemory(h.log, r.idempotency, ttl, h.latest, now);
        if Stores(config, r, call) {
          AcceptKeepsSpacing(h.log, r.idempotency, ttl, h.latest, request.Key(), freshId, now);
          AcceptKeepsMemory(h.log, r.idempotency, ttl, h.latest, request.Key(), freshId, now);
        }
      case Sweep(now) => SweepKeepsMemory(h.log, r.idempotency, ttl, h.latest, now);
      case _ =>
    }
  }

  lemma StepKeepsSound(config: Config, r: Relay, h: History, call: Call)
    requires config.Accepted() && Sound(config, r, h)
    ensures Sound(config, Step(config, r, call), Record(config, r, h, call))
  {
    hide *;
    SoundParts(config, r, h);
    RoutingStaysOrdered(config, r, call);
    StaysBalanced(config, r, h, call);
    StaysQueued(config, r, h, call);
    StaysKeyed(config, r, h, call);
    SoundParts(config, Step(config, r, call), Record(config, r, h, call));
  }

  lemma SoundParts(config: Config, r: Relay, h: History)
    ensures Sound(config, r, h) <==> Ordered(r.routing) && Balanced(r, h) && Queue(config, r, h) && Keyed(config, r, h)
  {
  }

  lemma EmptySound(config: Config)
    ensures Sound(config, EmptyRelay, NoHistory)
  {
  }

  // After a sweep nothing expired is left in any table, and each total has grown by exactly the rows
  // deleted.
  lemma SweepLeavesNothingExpired(config: Config, r: Relay, now: Instant)
    ensures var after := Step(config, r, Sweep(now));
            && (forall k <- r.envelopes :: k in after.envelopes <==> r.envelopes[k].ttlExpiresAt > now)
            && (forall k <- r.idempotency :: k in after.idempotency <==> r.idempotency[k].ttlExpiresAt > now)
            && (forall k <- r.pushTokens :: k in after.pushTokens <==> r.pushTokens[k] > now)
            && after.totals.envelopesExpired + |after.envelopes| == r.totals.envelopesExpired + |r.envelopes|
            && after.totals.idempotencyExpired + |after.idempotency| == r.totals.idempotencyExpired + |r.idempotency|
            && after.totals.routingPruned + |after.routing| == r.totals.routingPruned + |r.routing|
            && PurgedOn(after.purges, now / Day) + |after.pushTokens| == PurgedOn(r.purges, now / Day) + |r.pushTokens|
            && (forall day :: day != now / Day ==> PurgedOn(after.purges, day) == PurgedOn(r.purges, day))
  {
    var after := Step(config, r, Sweep(now));
    FewerRows(r.pushTokens, after.pushTokens);
    FewerRows(r.envelopes, after.envelopes);
    FewerRows(r.idempotency, after.idempotency);
    FewerRows(r.routing, after.routing);
  }

  // An id that no acceptance has had before collides with nothing.
  lemma FreshIdFindsRoom(config: Config, r: Relay, h: History, call: Call)
    requires Queue(config, r, h) && call.Submit? && !InLog(h.log, call.freshId)
    ensures EnvelopeKey(call.freshId, call.request.recipient) !in r.envelopes
    ensures Record(config, r, h, call).collided == h.collided
  {
    hide InLog, Respond;
  }

  // ---------------------------------------------------------------------------------------------
  // Runs

  ghost predicate IsRun(config: Config, states: seq<Relay>, calls: seq<Call>) {
    && |states| == |calls| + 1
    && forall i, next :: 0 <= i < |calls| && next == i + 1 ==> states[next] == Step(config, states[i], calls[i])
  }

  ghost function HistoryAt(config: Config, states: seq<Relay>, calls: seq<Call>, n: nat): History
    requires n <= |calls| && |states| == |calls| + 1
  {
    if n == 0 then NoHistory else Record(config, states[n - 1], HistoryAt(config, states, calls, n - 1), calls[n - 1])
  }

  lemma {:induction false} RunSound(config: Config, states: seq<Relay>, calls: seq<Call>, n: nat)
    requires config.Accepted() && IsRun(config, states, calls) && states[0] == EmptyRelay && n <= |calls|
    ensures Sound(config, states[n], HistoryAt(config, states, calls, n))
  {
    hide Sound, Step, Record;
    if n == 0 {
      EmptySound(config);
    } else {
      var last := n - 1;
      RunSound(config, states, calls, last);
      StepKeepsSound(config, states[last], HistoryAt(config, states, calls, last), calls[last]);
      assert states[n] == Step(config, states[last], calls[last]);
    }
  }

  // How many of the first n calls stored an envelope, and how many acknowledged one.
  ghost function StoredBy(config: Config, states: seq<Relay>, calls: seq<Call>, n: nat): nat
    requires n <= |calls| && |states| == |calls| + 1
  {
    if n == 0 then 0
    else StoredBy(config, states, calls, n - 1) + if Stores(config, states[n - 1], calls[n - 1]) then 1 else 0
  }

  ghost function AckedBy(states: seq<Relay>, calls: seq<Call>, n: nat): nat
    requires n <= |calls| && |states| == |calls| + 1
  {
    if n == 0 then 0 else AckedBy(states, calls, n - 1) + if Acks(states[n - 1], calls[n - 1]) then 1 else 0
  }

  // No two submissions draw the same id.
  ghost predicate FreshIds(calls: seq<Call>) {
    forall i, j :: 0 <= i < j < |calls| && calls[i].Submit? && calls[j].Submit? ==> calls[i].freshId != calls[j].freshId
  }

  lemma {:induction false} HistoryCounts(config: Config, states: seq<Relay>, calls: seq<Call>, n: nat)
    requires n <= |calls| && |states| == |calls| + 1
    ensures var h := HistoryAt(config, states, calls, n);
            |h.log| == StoredBy(config, states, calls, n) && h.acked == AckedBy(states, calls, n)
  {
    hide Respond;
    if n > 0 { HistoryCounts(config, states, calls, n - 1); }
  }

  // Every id in the log was drawn by a submission so far.
  lemma {:induction false} LogDrawn(config: Config, states: seq<Relay>, calls: seq<Call>, n: nat, id: Bytes)
    requires n <= |calls| && |states| == |calls| + 1
    requires InLog(HistoryAt(config, states, calls, n).log, id)
    ensures exists i :: 0 <= i < n && calls[i].Submit? && calls[i].freshId == id
  {
    hide Respond;
    if n > 0 {
      var before, after := HistoryAt(config, states, calls, n - 1).log, HistoryAt(config, states, calls, n).log;
      var i :| 0 <= i < |after| && after[i].envelope == id;
      if i < |before| {
        assert before[i].envelope == id;
        LogDrawn(config, states, calls, n - 1, id);
      }
    }
  }

  lemma {:induction false} NothingCollides(config: Config, states: seq<Relay>, calls: seq<Call>, n: nat)
    requires config.Accepted() && IsRun(config, states, calls) && states[0] == EmptyRelay && n <= |calls|
      && FreshIds(calls)
    ensures HistoryAt(config, states, calls, n).collided == 0
  {
    assert |states| == |calls| + 1;
    hide Respond, InLog, IsRun, Balanced, Queue, Keyed, Ordered;
    if n > 0 {
      var last := n - 1;
      NothingCollides(config, states, calls, last);
      RunSound(config, states, calls, last);
      var h, call := HistoryAt(config, states, calls, last), calls[last];
      if call.Submit? {
        if InLog(h.log, call.freshId) { LogDrawn(config, states, calls, last, call.freshId); }
        FreshIdFindsRoom(config, states[last], h, call);
      }
    }
  }

  // Over every run that draws fresh ids, the envelopes stored are those queued, acknowledged and
  // expired, and nothing else.
  lemma EnvelopesConserved(config: Config, states: seq<Relay>, calls: seq<Call>, n: nat)
    requires config.Accepted() && IsRun(config, states, calls) && states[0] == EmptyRelay && n <= |calls|
      && FreshIds(calls)
    ensures StoredBy(config, states, calls, n)
         == |states[n].envelopes| + AckedBy(states, calls, n) + states[n].totals.envelopesExpired
  {
    assert |states| == |calls| + 1;
    hide IsRun, FreshIds, Queue, Keyed, Ordered, HistoryAt, StoredBy, AckedBy;
    RunSound(config, states, calls, n);
    NothingCollides(config, states, calls, n);
    HistoryCounts(config, states, calls, n);
  }

  // Over every run each queued envelope is kept for some time, and at most the cap.
  lemma RetentionBounded(config: Config, states: seq<Relay>, calls: seq<Call>, n: nat, k: EnvelopeKey)
    requires config.Accepted() && IsRun(config, states, calls) && states[0] == EmptyRelay && n <= |calls|
    requires k in states[n].envelopes
    ensures Retained(states[n].envelopes[k], config.envelopeTtlMax)
  {
    hide IsRun, Keyed, Ordered, Balanced, InLog, HistoryAt;
    RunSound(config, states, calls, n);
  }

  // The instants of the calls that read the relay's clock never go back.
  ghost predicate ClocksOrdered(calls: seq<Call>) {
    forall i, j :: 0 <= i < j < |calls| && ReadsClock(calls[i]) && ReadsClock(calls[j]) ==> calls[i].now <= calls[j].now
  }

  predicate ReadsClock(call: Call) {
    call.Submit? || call.Sweep?
  }

  lemma {:induction false} HistoryOrdered(config: Config, states: seq<Relay>, calls: seq<Call>, n: nat)
    requires n <= |calls| && |states| == |calls| + 1 && ClocksOrdered(calls)
    ensures var h := HistoryAt(config, states, calls, n);
            && h.ordered
            && (h.latest.Some? ==> exists i :: 0 <= i < n && ReadsClock(calls[i]) && calls[i].now == h.latest.value)
  {
    hide Respond;
    if n > 0 {
      HistoryOrdered(config, states, calls, n - 1);
      if ReadsClock(calls[n - 1]) {
        assert HistoryAt(config, states, calls, n).latest == Some(calls[n - 1].now);
      }
    }
  }

  // The acceptance of a storing call stands in the log at the place counted so far.
  lemma {:induction false} LogPlace(config: Config, states: seq<Relay>, calls: seq<Call>, i: nat, n: nat)
    requires i < n <= |calls| && |states| == |calls| + 1 && Stores(config, states[i], calls[i])
    ensures var log, at := HistoryAt(config, states, calls, n).log, StoredBy(config, states, calls, i);
            at < |log| && log[at] == Acceptance(calls[i].request.Key(), calls[i].freshId, calls[i].now)
  {
    hide Respond;
    HistoryCounts(config, states, calls, n - 1);
    if i < n - 1 { LogPlace(config, states, calls, i, n - 1); }
  }

  lemma {:induction false} StoredByGrows(config: Config, states: seq<Relay>, calls: seq<Call>, i: nat, j: nat)
    requires i < j <= |calls| && |states| == |calls| + 1 && Stores(config, states[i], calls[i])
    ensures StoredBy(config, states, calls, i) < StoredBy(config, states, calls, j)
  {
    hide Stores;
    if i < j - 1 { StoredByGrows(config, states, calls, i, j - 1); }
  }

  // Over every run with clocks that never go back, two submissions stored under one sender and key
  // are at least the idempotency lifetime apart.
  lemma AcceptancesSpaced(config: Config, states: seq<Relay>, calls: seq<Call>, i: nat, j: nat)
    requires config.Accepted() && IsRun(config, states, calls) && states[0] == EmptyRelay && ClocksOrdered(calls)
    requires i < j < |calls| && Stores(config, states[i], calls[i]) && Stores(config, states[j], calls[j])
    requires calls[i].request.Key() == calls[j].request.Key()
    ensures calls[i].now + config.idempotencyTtl <= calls[j].now
  {
    assert |states| == |calls| + 1;
    hide IsRun, ClocksOrdered, Queue, Balanced, Ordered, HistoryAt, StoredBy, Remembers, Respond;
    var n := |calls|;
    RunSound(config, states, calls, n);
    HistoryOrdered(config, states, calls, n);
    LogPlace(config, states, calls, i, n);
    LogPlace(config, states, calls, j, n);
    StoredByGrows(config, states, calls, i, j);
  }

  // ---------------------------------------------------------------------------------------------
  // Disconnecting

  predicate Establishes(call: Call, x: Bytes, y: Bytes) {
    call.Establish? && MayEstablish(call.x, call.y) && Canonical(call.x, call.y) == Canonical(x, y)
  }

  lemma OnlyEstablishActivates(config: Config, r: Relay, call: Call, x: Bytes, y: Bytes)
    requires !r.IsActive(x, y) && !Establishes(call, x, y)
    ensures !Step(config, r, call).IsActive(x, y)
  {
    hide Canonical, Respond, MayEstablish;
  }

  lemma {:induction false} StaysInactive(config: Config, states: seq<Relay>, calls: seq<Call>, x: Bytes, y: Bytes,
                                         i: nat, j: nat)
    requires IsRun(config, states, calls) && i <= j <= |calls| && !states[i].IsActive(x, y)
    requires forall k :: i <= k < j ==> !Establishes(calls[k], x, y)
    ensures !states[j].IsActive(x, y)
    decreases j - i
  {
    hide Step, Establishes;
    if i < j {
      var last, next := j - 1, j;
      StaysInactive(config, states, calls, x, y, i, last);
      OnlyEstablishActivates(config, states[last], calls[last], x, y);
      assert states[next] == Step(config, states[last], calls[last]);
    }
  }

  // After a disconnect of a pair, and until the pair is established again, every submission between
  // the two is refused for want of a route, in either direction and whatever calls come between.
  lemma DisconnectedRefused(config: Config, states: seq<Relay>, calls: seq<Call>, i: nat, j: nat)
    requires IsRun(config, states, calls) && i < j < |calls| && calls[i].Disconnect? && calls[j].Submit?
    requires var c, r := calls[i], calls[j].request;
             (r.sender == c.x && r.recipient == c.y) || (r.sender == c.y && r.recipient == c.x)
    requires forall k :: i < k < j ==> !Establishes(calls[k], calls[i].x, calls[i].y)
    ensures ResponseTo(config, states[j], calls[j]) == NoRouting
    ensures Step(config, states[j], calls[j]) == states[j]
  {
    var c, r, next := calls[i], calls[j].request, i + 1;
    assert states[next] == Step(config, states[i], c);
    assert !states[next].IsActive(c.x, c.y);
    StaysInactive(config, states, calls, c.x, c.y, next, j);
    CanonicalUnordered(c.x, c.y, r.sender, r.recipient);
  }
}
