// What submissions are answered and what inboxes hold, over every run of the relay's calls: stated by
// the calls that came before, not by the tables.
module MailboxRuns {
  import opened Wrappers
  import opened FireTimes
  import opened ByteStrings
  import opened MailboxRules

  ghost predicate IsMailboxRun(config: Config, states: seq<Relay>, calls: seq<Call>) {
    config.Accepted() && IsRun(config, states, calls) && states[0] == EmptyRelay
  }

  lemma RunLength(config: Config, states: seq<Relay>, calls: seq<Call>)
    requires IsMailboxRun(config, states, calls)
    ensures |states| == |calls| + 1
  {
  }

  lemma RunStep(config: Config, states: seq<Relay>, calls: seq<Call>, n: nat)
    requires IsMailboxRun(config, states, calls) && n < |calls|
    ensures |states| == |calls| + 1 && states[n + 1] == Step(config, states[n], calls[n])
  {
    hide Step;
    var next := n + 1;
    assert states[next] == Step(config, states[n], calls[n]);
  }

  // ---------------------------------------------------------------------------------------------
  // Replays

  // Call i stored a submission that call j repeats within its idempotency lifetime.
  predicate Repeats(config: Config, states: seq<Relay>, calls: seq<Call>, i: nat, j: nat)
    requires j < |calls| && |states| == |calls| + 1
  {
    && i < j && Stores(config, states[i], calls[i]) && calls[j].Submit?
    && calls[i].request.sender == calls[j].request.sender
    && calls[i].request.idempotencyKey == calls[j].request.idempotencyKey
    && calls[j].now < calls[i].now + config.idempotencyTtl
  }

  // Every entry of the log was made by a storing call.
  lemma {:induction false} LogCall(config: Config, states: seq<Relay>, calls: seq<Call>, n: nat, m: nat)
    returns (i: nat)
    requires n <= |calls| && |states| == |calls| + 1 && m < |HistoryAt(config, states, calls, n).log|
    ensures i < n && Stores(config, states[i], calls[i])
    ensures HistoryAt(config, states, calls, n).log[m]
         == Acceptance(calls[i].request.Key(), calls[i].freshId, calls[i].now)
  {
    hide Respond;
    var before := HistoryAt(config, states, calls, n - 1).log;
    if m < |before| { i := LogCall(config, states, calls, n - 1, m); } else { i := n - 1; }
  }

  lemma {:induction false} LastForIn(log: seq<Acceptance>, key: IdemKey) returns (m: nat)
    requires LastFor(log, key).Some?
    ensures m < |log| && log[m] == LastFor(log, key).value && log[m].key == key
  {
    m := |log| - 1;
    if log[m].key != key { m := LastForIn(log[..m], key); }
  }

  // What the run has left behind when call n comes.
  lemma RunMemory(config: Config, states: seq<Relay>, calls: seq<Call>, n: nat, key: IdemKey)
    requires IsMailboxRun(config, states, calls) && ClocksOrdered(calls) && n < |calls| && calls[n].Submit?
    ensures |states| == |calls| + 1
    ensures var h := HistoryAt(config, states, calls, n);
            && Spaced(h.log, config.idempotencyTtl)
            && (forall i :: 0 <= i < |h.log| ==> h.log[i].at <= calls[n].now)
            && RemembersKey(h.log, states[n].idempotency, config.idempotencyTtl, h.latest, key)
            && (h.latest.Some? ==> h.latest.value <= calls[n].now)
  {
    assert |states| == |calls| + 1;
    RunSound(config, states, calls, n);
    HistoryOrdered(config, states, calls, n);
    hide IsRun, Queue, Balanced, Ordered, HistoryAt, Spaced, RemembersKey;
    var h := HistoryAt(config, states, calls, n);
    if h.latest.Some? {
      var i :| 0 <= i < n && ReadsClock(calls[i]) && calls[i].now == h.latest.value;
      assert ReadsClock(calls[n]);
    }
  }

  // A live row stands for the stored submission it repeats.
  lemma LiveRepeats(config: Config, states: seq<Relay>, calls: seq<Call>, j: nat) returns (i: nat)
    requires IsMailboxRun(config, states, calls) && ClocksOrdered(calls) && j < |calls| && calls[j].Submit?
    requires |states| == |calls| + 1 && Live(states[j], calls[j].request.Key(), calls[j].now)
    ensures Repeats(config, states, calls, i, j)
  {
    var key := calls[j].request.Key();
    RunMemory(config, states, calls, j, key);
    hide IsMailboxRun, ClocksOrdered, HistoryAt, Spaced, Respond;
    var log := HistoryAt(config, states, calls, j).log;
    var m := LastForIn(log, key);
    i := LogCall(config, states, calls, j, m);
  }

  // A stored submission that is repeated in time has a live row with its id.
  lemma RepeatsLive(config: Config, states: seq<Relay>, calls: seq<Call>, i: nat, j: nat)
    requires IsMailboxRun(config, states, calls) && ClocksOrdered(calls) && j < |calls|
    requires |states| == |calls| + 1 && Repeats(config, states, calls, i, j)
    ensures Live(states[j], calls[j].request.Key(), calls[j].now)
    ensures states[j].idempotency[calls[j].request.Key()].envelope == calls[i].freshId
  {
    var key := calls[j].request.Key();
    RunMemory(config, states, calls, j, key);
    hide IsMailboxRun, ClocksOrdered, HistoryAt, Respond;
    LogPlace(config, states, calls, i, j);
    var log, at := HistoryAt(config, states, calls, j).log, StoredBy(config, states, calls, i);
    LastForIsLast(log, at);
    var m :| at <= m < |log| && log[m] == LastFor(log, key).value;
    assert m == at;
  }

  // The answer to every submission, by what came before: the first check that fails is answered; a
  // repetition in time is answered with the id first stored, and changes nothing; all others are stored.
  lemma AnswerExactly(config: Config, states: seq<Relay>, calls: seq<Call>, j: nat)
    requires IsMailboxRun(config, states, calls) && ClocksOrdered(calls) && j < |calls| && calls[j].Submit?
    ensures |states| == |calls| + 1
    ensures var c, q, answer := calls[j], calls[j].request, ResponseTo(config, states[j], calls[j]);
            var active := states[j].IsActive(q.sender, q.recipient);
            var over := q.expiresAt.Some? && q.expiresAt.value <= c.now;
            && (answer == NoRouting <==> !active)
            && (answer == NotEntitled <==> active && !c.entitled)
            && (answer == ExpiresAtNotFuture <==> active && c.entitled && over)
            && (answer.Replay? <==>
                  active && c.entitled && !over && exists i: nat :: Repeats(config, states, calls, i, j))
            && (answer.Stored? <==>
                  active && c.entitled && !over && !exists i: nat :: Repeats(config, states, calls, i, j))
            && (answer.Replay? ==>
                  forall i: nat :: Repeats(config, states, calls, i, j) ==> answer.id == calls[i].freshId)
            && (answer.Replay? ==> answer.ttlExpiresAt == c.now + config.idempotencyTtl)
            && (answer.Stored? ==>
                  && answer.id == c.freshId
                  && answer.ttlExpiresAt == if q.expiresAt.Some? && q.expiresAt.value <= c.now + config.envelopeTtlMax
                                            then q.expiresAt.value else c.now + config.envelopeTtlMax)
            && (!answer.Stored? ==> states[j + 1] == states[j])
  {
    RunStep(config, states, calls, j);
    var key := calls[j].request.Key();
    if Live(states[j], key, calls[j].now) { var i := LiveRepeats(config, states, calls, j); }
    forall i: nat | Repeats(config, states, calls, i, j)
      ensures Live(states[j], key, calls[j].now) && states[j].idempotency[key].envelope == calls[i].freshId
    {
      RepeatsLive(config, states, calls, i, j);
    }
    RetentionBounds(config.envelopeTtlMax, calls[j].request.expiresAt, calls[j].now);
    hide IsMailboxRun, ClocksOrdered, Repeats, Live, RetentionUntil, Accept;
  }

  // ---------------------------------------------------------------------------------------------
  // Inboxes

  function SlotOf(call: Call): EnvelopeKey
    requires call.Submit?
  {
    EnvelopeKey(call.freshId, call.request.recipient)
  }

  // The moment until which a stored submission is kept.
  function KeptUntil(config: Config, r: Relay, call: Call): Instant
    requires Stores(config, r, call)
  {
    ResponseTo(config, r, call).ttlExpiresAt
  }

  // The envelope a stored submission leaves in its recipient's inbox.
  function Mail(config: Config, r: Relay, call: Call): Envelope
    requires Stores(config, r, call)
  {
    Envelope(call.request.sender, call.request.ciphertext, call.request.kind, call.now, KeptUntil(config, r, call))
  }

  // Acknowledged, or swept when its time was over.
  predicate Removes(call: Call, slot: EnvelopeKey, until: Instant) {
    || (call.Acknowledge? && call.id == slot.id && call.recipient == slot.recipient)
    || (call.Sweep? && until <= call.now)
  }

  // One call's effect on one envelope that it does not itself store.
  lemma EnvelopeStep(config: Config, r: Relay, call: Call, slot: EnvelopeKey)
    requires call.Submit? ==> call.freshId != slot.id
    ensures var after := Step(config, r, call);
            slot in after.envelopes <==> slot in r.envelopes && !Removes(call, slot, r.envelopes[slot].ttlExpiresAt)
    ensures slot in Step(config, r, call).envelopes ==>
              slot in r.envelopes && Step(config, r, call).envelopes[slot] == r.envelopes[slot]
  {
    hide Respond, Unpruned, Unexpired, LivePush, Established, Disconnected, Touched, Dropped, Purged;
  }

  lemma StoringStep(config: Config, r: Relay, call: Call)
    requires Stores(config, r, call) && SlotOf(call) !in r.envelopes
    ensures var after := Step(config, r, call);
            SlotOf(call) in after.envelopes && after.envelopes[SlotOf(call)] == Mail(config, r, call)
  {
    hide Respond, Touched;
  }

  lemma RoomForFresh(config: Config, states: seq<Relay>, calls: seq<Call>, i: nat)
    requires IsMailboxRun(config, states, calls) && FreshIds(calls) && i < |calls| && calls[i].Submit?
    ensures |states| == |calls| + 1 && SlotOf(calls[i]) !in states[i].envelopes
  {
    assert |states| == |calls| + 1;
    RunSound(config, states, calls, i);
    hide IsRun, Keyed, Balanced, Ordered, HistoryAt, InLog;
    var h := HistoryAt(config, states, calls, i);
    if InLog(h.log, calls[i].freshId) { LogDrawn(config, states, calls, i, calls[i].freshId); }
    FreshIdFindsRoom(config, states[i], h, calls[i]);
  }

  // A stored envelope is in the table, as it was stored, exactly until something removes it.
  lemma {:induction false} KeptExactly(config: Config, states: seq<Relay>, calls: seq<Call>, i: nat, n: nat)
    requires IsMailboxRun(config, states, calls) && FreshIds(calls) && i < n <= |calls|
    requires |states| == |calls| + 1 && Stores(config, states[i], calls[i])
    ensures var slot, mail := SlotOf(calls[i]), Mail(config, states[i], calls[i]);
            && (slot in states[n].envelopes <==> forall k :: i < k < n ==> !Removes(calls[k], slot, mail.ttlExpiresAt))
            && (slot in states[n].envelopes ==> states[n].envelopes[slot] == mail)
    decreases n
  {
    var last := n - 1;
    RunStep(config, states, calls, last);
    if last == i {
      RoomForFresh(config, states, calls, i);
      StoringStep(config, states[i], calls[i]);
      hide Step, Stores, Removes;
    } else {
      KeptExactly(config, states, calls, i, last);
      assert calls[last].Submit? ==> calls[last].freshId != calls[i].freshId;
      EnvelopeStep(config, states[last], calls[last], SlotOf(calls[i]));
      hide Step, Stores, Removes, IsMailboxRun, FreshIds, KeptUntil;
    }
  }

  // Nothing else is in the table.
  lemma {:induction false} EnvelopeFrom(config: Config, states: seq<Relay>, calls: seq<Call>, n: nat,
                                        slot: EnvelopeKey) returns (i: nat)
    requires IsMailboxRun(config, states, calls) && n <= |calls| && |states| == |calls| + 1
    requires slot in states[n].envelopes
    ensures i < n && Stores(config, states[i], calls[i]) && SlotOf(calls[i]) == slot
  {
    if n == 0 {
      assert false;
    } else {
      var last := n - 1;
      RunStep(config, states, calls, last);
      if slot in states[last].envelopes {
        i := EnvelopeFrom(config, states, calls, last, slot);
      } else {
        i := last;
        OnlyStoringAdds(config, states[last], calls[last], slot);
      }
    }
  }

  lemma OnlyStoringAdds(config: Config, r: Relay, call: Call, slot: EnvelopeKey)
    requires slot !in r.envelopes && slot in Step(config, r, call).envelopes
    ensures Stores(config, r, call) && SlotOf(call) == slot
  {
    hide Respond, Unpruned, Unexpired, LivePush, Established, Disconnected, Touched;
  }

  // An inbox shows a recipient's stored submissions, as they were sent, until they are acknowledged or
  // their time is over; nothing else, and nothing of anyone else's.
  lemma InboxExactly(config: Config, states: seq<Relay>, calls: seq<Call>, n: nat, recipient: Bytes, now: Instant,
                     slot: EnvelopeKey)
    requires IsMailboxRun(config, states, calls) && FreshIds(calls) && n <= |calls|
    requires forall k :: 0 <= k < n && calls[k].Sweep? ==> calls[k].now <= now
    ensures |states| == |calls| + 1
    ensures slot in Waiting(states[n].envelopes, recipient, now) <==>
      exists i: nat :: i < n && Delivers(config, states, calls, i, n, recipient, now) && SlotOf(calls[i]) == slot
  {
    RunLength(config, states, calls);
    if slot in Waiting(states[n].envelopes, recipient, now) {
      var i := EnvelopeFrom(config, states, calls, n, slot);
      KeptExactly(config, states, calls, i, n);
      assert Delivers(config, states, calls, i, n, recipient, now) by {
        assert forall k :: i < k < n ==> !Removes(calls[k], slot, Mail(config, states[i], calls[i]).ttlExpiresAt);
        hide Stores;
      }
    }
    if i: nat :| i < n && Delivers(config, states, calls, i, n, recipient, now) && SlotOf(calls[i]) == slot {
      KeptExactly(config, states, calls, i, n);
      forall k | i < k < n ensures !Removes(calls[k], slot, Mail(config, states[i], calls[i]).ttlExpiresAt) {
      }
    }
  }

  // Call i stored a submission for this recipient that nobody has acknowledged before call n and whose
  // time is not over.
  predicate Delivers(config: Config, states: seq<Relay>, calls: seq<Call>, i: nat, n: nat, recipient: Bytes,
                     now: Instant)
    requires i < n <= |calls| && |states| == |calls| + 1
  {
    && Stores(config, states[i], calls[i]) && calls[i].request.recipient == recipient
    && KeptUntil(config, states[i], calls[i]) > now
    && forall k :: i < k < n ==>
         !(calls[k].Acknowledge? && calls[k].id == calls[i].freshId && calls[k].recipient == recipient)
  }

  // ---------------------------------------------------------------------------------------------
  // Routes

  predicate Concerns(call: Call, x: Bytes, y: Bytes) {
    && (call.Establish? || call.Disconnect? || call.Touch?)
    && ((call.x == x && call.y == y) || (call.x == y && call.y == x))
  }

  predicate Prunes(call: Call) {
    call.Prune? || call.Sweep?
  }

  // The pair is used: established, touched, or a submission between the two is stored.
  predicate Uses(config: Config, r: Relay, call: Call, x: Bytes, y: Bytes) {
    || (Concerns(call, x, y) && (call.Establish? || call.Touch?))
    || (Stores(config, r, call) && ((call.request.sender == x && call.request.recipient == y)
                                    || (call.request.sender == y && call.request.recipient == x)))
  }

  // One call's effect on a route: it is active afterwards exactly when the call establishes it, or it
  // was active and is neither disconnected nor pruned for want of use.
  lemma RouteStep(config: Config, r: Relay, call: Call, x: Bytes, y: Bytes)
    requires x != y && 8 <= |x| <= 64 && 8 <= |y| <= 64
    ensures var after, pair := Step(config, r, call), Canonical(x, y);
            var idle := WholeSeconds(config.routingInactivityTtl) * Second;
            && (after.IsActive(x, y) <==>
                  || (Concerns(call, x, y) && call.Establish?)
                  || (r.IsActive(x, y)
                      && !(Concerns(call, x, y) && call.Disconnect?)
                      && !(Prunes(call) && r.routing[pair].lastSeen + idle <= call.now)))
            && (after.IsActive(x, y) ==>
                  after.routing[pair].lastSeen
                    == if Uses(config, r, call, x, y) then call.clock else r.routing[pair].lastSeen)
  {
    hide Canonical, Respond, WholeSeconds, Unexpired, Undelivered, LivePush, Dropped, Purged;
    match call
    case Establish(a, b, _) => CanonicalUnordered(a, b, x, y);
    case Disconnect(a, b, _) => CanonicalUnordered(a, b, x, y);
    case Touch(a, b, _) => CanonicalUnordered(a, b, x, y);
    case Submit(request, _, _, _, _) => CanonicalUnordered(request.sender, request.recipient, x, y);
    case _ =>
  }

  // Only two different peers with keys of 8 to 64 bytes are ever active.
  lemma {:induction false} OnlyProperPairs(config: Config, states: seq<Relay>, calls: seq<Call>, n: nat, x: Bytes,
                                           y: Bytes)
    requires IsMailboxRun(config, states, calls) && n < |states| && states[n].IsActive(x, y)
    ensures x != y && 8 <= |x| <= 64 && 8 <= |y| <= 64
  {
    hide Canonical, Respond, Step;
    RunLength(config, states, calls);
    if n == 0 {
      assert false;
    } else {
      var last := n - 1;
      RunStep(config, states, calls, last);
      if states[last].IsActive(x, y) {
        OnlyProperPairs(config, states, calls, last, x, y);
      } else {
        if !Establishes(calls[last], x, y) { OnlyEstablishActivates(config, states[last], calls[last], x, y); }
        CanonicalUnordered(calls[last].x, calls[last].y, x, y);
      }
    }
  }

  // A disconnected pair keeps its row for the grace period, until a pruning that comes after it.
  lemma GraceStep(config: Config, r: Relay, call: Call, x: Bytes, y: Bytes)
    requires Canonical(x, y) in r.routing && r.routing[Canonical(x, y)].status.Disconnecting?
    requires !(Concerns(call, x, y) && call.Establish?)
    ensures var after, pair, row := Step(config, r, call), Canonical(x, y), r.routing[Canonical(x, y)];
            && (pair in after.routing <==>
                  !(Prunes(call) && row.status.startedAt + WholeSeconds(config.disconnectGrace) * Second <= call.now))
            && (pair in after.routing ==> after.routing[pair] == row)
  {
    hide Canonical, Respond, WholeSeconds, Unexpired, Undelivered, LivePush, Dropped, Purged;
    match call
    case Establish(a, b, _) => CanonicalUnordered(a, b, x, y);
    case _ =>
  }

  // Whole seconds are the nearest ones; exactly between two they are the even one.
  lemma NearestSeconds(duration: int)
    ensures var rounded := WholeSeconds(duration) * 1_000_000_000;
            && -500_000_000 <= rounded - duration <= 500_000_000
            && (rounded - duration == 500_000_000 || duration - rounded == 500_000_000 ==>
                  WholeSeconds(duration) % 2 == 0)
  {
  }
}
