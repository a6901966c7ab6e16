// The relay's mailbox: routing pairs, idempotent submission, inboxes, acknowledgement and expiry
// (relay/internal/store/store.go), the submission handler (relay/internal/api/api.go) and the
// sweeper (relay/internal/sweeper/sweeper.go).
module Mailbox {
  import opened Wrappers
  import opened ByteStrings
  import opened FireTimes
  import opened MailboxRules
  import opened TimeOrder

  class RelayStore {
    const config: Config
    var routing: map<Pair, Route>
    var idempotency: map<IdemKey, IdemRow>
    var envelopes: map<EnvelopeKey, Envelope>
    var pushTokens: map<PushKey, Instant>
    var purges: map<int, nat>
    var totals: Totals
    ghost var history: History

    ghost function Now(): Relay
      reads this
    {
      Relay(routing, idempotency, envelopes, pushTokens, purges, totals)
    }

    ghost predicate Valid()
      reads this
    {
      config.Accepted() && Sound(config, Now(), history)
    }

    constructor (config: Config)
      requires config.Accepted()
      ensures Valid() && this.config == config && Now() == EmptyRelay && history == NoHistory
    {
      EmptySound(config);
      hide Sound;
      this.config := config;
      routing, idempotency, envelopes, pushTokens, purges := map[], map[], map[], map[], map[];
      totals, history := Totals(0, 0, 0), NoHistory;
    }

    // ------------------------------------------------------------------------------ Routing

    method EstablishRouting(x: Bytes, y: Bytes, clock: Instant) returns (ok: bool)
      requires Valid()
      modifies this
      ensures Now() == Step(config, old(Now()), Establish(x, y, clock))
      ensures history == Record(config, old(Now()), old(history), Establish(x, y, clock)) && Valid()
      ensures ok == MayEstablish(x, y)
      ensures ok ==> Now().IsActive(x, y)
    {
      StepKeepsSound(config, Now(), history, Establish(x, y, clock));
      hide Sound;
      var pair := CanonicalPair(x, y);
      CanonicalUnordered(x, y, x, y);
      var order := CompareBytes(pair.a, pair.b);
      ok := order < 0 && 8 <= |pair.a| <= 64 && 8 <= |pair.b| <= 64;
      if ok {
        routing := routing[pair := Route(clock, Active)];
      }
    }

    method HasRouting(x: Bytes, y: Bytes) returns (active: bool)
      ensures active <==> Now().IsActive(x, y)
    {
      var pair := CanonicalPair(x, y);
      active := pair in routing && routing[pair].status == Active;
    }

    method MarkDisconnecting(x: Bytes, y: Bytes, at: Instant) returns (transitioned: bool)
      requires Valid()
      modifies this
      ensures Now() == Step(config, old(Now()), Disconnect(x, y, at))
      ensures history == Record(config, old(Now()), old(history), Disconnect(x, y, at)) && Valid()
      ensures transitioned == old(Now()).IsActive(x, y)
      ensures !Now().IsActive(x, y)
    {
      StepKeepsSound(config, Now(), history, Disconnect(x, y, at));
      hide Sound, Canonical;
      var pair := CanonicalPair(x, y);
      transitioned := pair in routing && routing[pair].status == Active;
      if transitioned {
        routing := routing[pair := routing[pair].(status := Disconnecting(at))];
      }
    }

    method TouchRouting(x: Bytes, y: Bytes, clock: Instant)
      modifies this`routing
      ensures routing == Touched(old(routing), x, y, clock)
    {
      var pair := CanonicalPair(x, y);
      if pair in routing && routing[pair].status == Active {
        routing := routing[pair := routing[pair].(lastSeen := clock)];
      }
    }

    method PruneExpiredRouting(now: Instant) returns (pruned: nat)
      modifies this`routing
      ensures routing == Unpruned(old(routing), config, now)
      ensures pruned == Dropped(old(routing), routing) && pruned == |old(routing)| - |routing|
    {
      var kept := Unpruned(routing, config, now);
      FewerRows(routing, kept);
      pruned := Dropped(routing, kept);
      routing := kept;
    }

    // ------------------------------------------------------------------------------ Envelopes

    method LookupOrReserveIdempotency(key: IdemKey, envelope: Bytes, now: Instant) returns (id: Bytes, replay: bool)
      modifies this`idempotency
      ensures replay <==> Live(old(Now()), key, now)
      ensures id == if replay then old(idempotency)[key].envelope else envelope
      ensures idempotency == if replay then old(idempotency)
                             else old(idempotency)[key := IdemRow(envelope, now + config.idempotencyTtl)]
    {
      if key in idempotency {
        if idempotency[key].ttlExpiresAt > now {
          return idempotency[key].envelope, true;
        }
        idempotency := idempotency - {key};
      }
      idempotency := idempotency[key := IdemRow(envelope, now + config.idempotencyTtl)];
      assert idempotency == old(idempotency)[key := IdemRow(envelope, now + config.idempotencyTtl)];
      return envelope, false;
    }

    method StoreEnvelope(key: EnvelopeKey, envelope: Envelope)
      modifies this`envelopes
      ensures envelopes == if key in old(envelopes) then old(envelopes) else old(envelopes)[key := envelope]
    {
      if key !in envelopes {
        envelopes := envelopes[key := envelope];
      }
    }

    // One submission.
    method SubmitEnvelope(request: Request, entitled: bool, freshId: Bytes, now: Instant, clock: Instant)
      returns (response: Response)
      requires Valid()
      modifies this
      ensures Now() == Step(config, old(Now()), Submit(request, entitled, freshId, now, clock))
      ensures history == Record(config, old(Now()), old(history), Submit(request, entitled, freshId, now, clock))
        && Valid()
      ensures response == Respond(config, old(Now()), request, entitled, freshId, now)
      ensures !InLog(old(history).log, freshId) ==> history.collided == old(history).collided
    {
      ghost var call := Submit(request, entitled, freshId, now, clock);
      StepKeepsSound(config, Now(), history, call);
      if !InLog(history.log, freshId) { FreshIdFindsRoom(config, Now(), history, call); }
      hide Sound, InLog, Record, Submitted, Respond;
      history := Record(config, Now(), history, call);
      response := HandleEnvelopes(request, entitled, freshId, now, clock);
    }

    method HandleEnvelopes(request: Request, entitled: bool, freshId: Bytes, now: Instant, clock: Instant)
      returns (response: Response)
      modifies this`routing, this`idempotency, this`envelopes
      ensures response == Respond(config, old(Now()), request, entitled, freshId, now)
      ensures Now() == Submitted(config, old(Now()), request, entitled, freshId, now, clock)
    {
      SubmitStep(config, Now(), request, entitled, freshId, now, clock);
      hide RetentionUntil, Canonical, Accept, Live, Touched, Submitted;
      var active := HasRouting(request.sender, request.recipient);
      if !active { return NoRouting; }
      if !entitled { return NotEntitled; }
      var until := RetentionUntil(config.envelopeTtlMax, request.expiresAt, now);
      if until.None? { return ExpiresAtNotFuture; }
      var id, replay := ReserveAndStore(request, freshId, until.value, now);
      if replay { return Replay(id, now + config.idempotencyTtl); }
      TouchRouting(request.sender, request.recipient, clock);
      return Stored(id, until.value);
    }

    // The two table writes of a submission that passed its checks: a replay writes nothing.
    method ReserveAndStore(request: Request, freshId: Bytes, until: Instant, now: Instant)
      returns (id: Bytes, replay: bool)
      modifies this`idempotency, this`envelopes
      ensures replay == Live(old(Now()), request.Key(), now)
      ensures id == if replay then old(idempotency)[request.Key()].envelope else freshId
      ensures Now() == if replay then old(Now()) else Accept(config, old(Now()), request, freshId, until, now)
    {
      id, replay := LookupOrReserveIdempotency(request.Key(), freshId, now);
      if !replay {
        StoreEnvelope(EnvelopeKey(id, request.recipient),
                      Envelope(request.sender, request.ciphertext, request.kind, now, until));
      }
    }

    // The earliest unexpired envelopes of a recipient, in order of creation.
    method FetchInbox(recipient: Bytes, limit: nat, now: Instant) returns (inbox: seq<EnvelopeKey>)
      ensures IsEarliest<EnvelopeKey>(Waiting(envelopes, recipient, now), limit, inbox)
    {
      inbox := Earliest<EnvelopeKey>(Waiting(envelopes, recipient, now), limit);
    }

    method AckEnvelope(id: Bytes, recipient: Bytes) returns (deleted: bool)
      requires Valid()
      modifies this
      ensures Now() == Step(config, old(Now()), Acknowledge(id, recipient))
      ensures history == Record(config, old(Now()), old(history), Acknowledge(id, recipient)) && Valid()
      ensures deleted == Acks(old(Now()), Acknowledge(id, recipient))
    {
      ghost var call := Acknowledge(id, recipient);
      StepKeepsSound(config, Now(), history, call);
      hide Sound;
      history := Record(config, Now(), history, call);
      deleted := EnvelopeKey(id, recipient) in envelopes;
      envelopes := envelopes - {EnvelopeKey(id, recipient)};
    }

    method UpsertRoutingPushToken(key: PushKey, expiresAt: Instant)
      requires Valid()
      modifies this
      ensures Now() == Step(config, old(Now()), RegisterPush(key, expiresAt))
      ensures history == Record(config, old(Now()), old(history), RegisterPush(key, expiresAt)) && Valid()
    {
      StepKeepsSound(config, Now(), history, RegisterPush(key, expiresAt));
      hide Sound;
      pushTokens := pushTokens[key := expiresAt];
    }

    // ------------------------------------------------------------------------------ Sweeping

    method SweepEnvelopes(now: Instant) returns (expired: nat)
      modifies this`envelopes
      ensures envelopes == Undelivered(old(envelopes), now) && expired == Dropped(old(envelopes), envelopes)
      ensures expired == |old(envelopes)| - |envelopes|
    {
      var kept := Undelivered(envelopes, now);
      FewerRows(envelopes, kept);
      expired := Dropped(envelopes, kept);
      envelopes := kept;
    }

    method SweepIdempotency(now: Instant) returns (expired: nat)
      modifies this`idempotency
      ensures idempotency == Unexpired(old(idempotency), now) && expired == Dropped(old(idempotency), idempotency)
      ensures expired == |old(idempotency)| - |idempotency|
    {
      var kept := Unexpired(idempotency, now);
      FewerRows(idempotency, kept);
      expired := Dropped(idempotency, kept);
      idempotency := kept;
    }

    method PurgeExpiredRoutingPushTokens(now: Instant) returns (purged: nat)
      modifies this`pushTokens
      ensures pushTokens == LivePush(old(pushTokens), now) && purged == Dropped(old(pushTokens), pushTokens)
      ensures purged == |old(pushTokens)| - |pushTokens|
    {
      var kept := LivePush(pushTokens, now);
      FewerRows(pushTokens, kept);
      purged := Dropped(pushTokens, kept);
      pushTokens := kept;
    }

    method RecordCheckpoint(envelopesExpired: nat, idempotencyExpired: nat, routingPruned: nat)
      modifies this`totals
      ensures totals == Totals(old(totals).envelopesExpired + envelopesExpired,
                               old(totals).idempotencyExpired + idempotencyExpired,
                               old(totals).routingPruned + routingPruned)
    {
      totals := Totals(totals.envelopesExpired + envelopesExpired, totals.idempotencyExpired + idempotencyExpired,
                       totals.routingPruned + routingPruned);
    }

    // One pass of the sweeper.
    method SweepAll(now: Instant)
      requires Valid()
      modifies this
      ensures Now() == Step(config, old(Now()), Sweep(now))
      ensures history == Record(config, old(Now()), old(history), Sweep(now)) && Valid()
    {
      ghost var call := Sweep(now);
      StepKeepsSound(config, Now(), history, call);
      hide Sound, Record, Swept;
      history := Record(config, Now(), history, call);
      DeleteExpired(now);
    }

    method DeleteExpired(now: Instant)
      modifies this`routing, this`idempotency, this`envelopes, this`pushTokens, this`purges, this`totals
      ensures Now() == Swept(config, old(Now()), now)
    {
      hide Undelivered, Unexpired, Unpruned, LivePush, Dropped;
      var envelopesExpired := SweepEnvelopes(now);
      var idempotencyExpired := SweepIdempotency(now);
      var routingPruned := PruneExpiredRouting(now);
      var pushPurged := PurgeExpiredRoutingPushTokens(now);
      MergeDayMetrics(now / Day, pushPurged);
      RecordCheckpoint(envelopesExpired, idempotencyExpired, routingPruned);
    }

    method MergeDayMetrics(day: int, purged: nat)
      modifies this`purges
      ensures purges == Purged(old(purges), day, purged)
    {
      if purged > 0 {
        purges := purges[day := (if day in purges then purges[day] else 0) + purged];
      }
    }
  }
}
