// The rate limiter of the relay (relay/internal/ratelimit/ratelimit.go): token buckets by scope,
// dropped when idle.  Tokens and seconds are real numbers.
module TokenBucket {
  const IdleEvict: real := 600.0

  datatype Bucket = Bucket(tokens: real, lastRefill: real)

  // Tokens gained in a number of seconds.
  function Gain(seconds: real, rate: real): real {
    seconds * rate
  }

  lemma GainGrows(x: real, y: real, rate: real)
    requires x <= y && rate >= 0.0
    ensures Gain(x, rate) <= Gain(y, rate)
  {
    assert y * rate - x * rate == (y - x) * rate;
  }

  lemma GainAdds(x: real, y: real, rate: real)
    ensures Gain(x + y, rate) == Gain(x, rate) + Gain(y, rate)
    ensures Gain(0.0, rate) == 0.0
  {
  }

  datatype Settings = Settings(rate: real, burst: real, idleEvict: real)
  {
    // What the constructor establishes for a rate that is not negative.
    predicate Sensible() {
      rate >= 0.0 && burst >= 1.0
    }

    // An idle bucket is full again before it is dropped.
    predicate RefillsWhileIdle() {
      Gain(idleEvict, rate) >= burst
    }
  }

  function Burst(rate: real): real {
    if 4.0 * rate < 1.0 then 1.0 else 4.0 * rate
  }

  datatype Request = Request(scope: string, at: real)

  type Buckets = map<string, Bucket>

  // ---------------------------------------------------------------------------------------------
  // One request

  function Refill(s: Settings, b: Bucket, now: real): Bucket {
    if now > b.lastRefill then
      var tokens := b.tokens + Gain(now - b.lastRefill, s.rate);
      Bucket(if tokens > s.burst then s.burst else tokens, now)
    else b
  }

  function Evict(s: Settings, buckets: Buckets, now: real): Buckets {
    map k | k in buckets && !(now - buckets[k].lastRefill > s.idleEvict) :: buckets[k]
  }

  predicate Allowed(s: Settings, buckets: Buckets, r: Request) {
    r.scope !in buckets || Refill(s, buckets[r.scope], r.at).tokens >= 1.0
  }

  // The buckets after a request, before any eviction.
  function Serve(s: Settings, buckets: Buckets, r: Request): Buckets {
    if r.scope !in buckets then buckets[r.scope := Bucket(s.burst - 1.0, r.at)]
    else
      var b := Refill(s, buckets[r.scope], r.at);
      buckets[r.scope := if b.tokens < 1.0 then b else b.(tokens := b.tokens - 1.0)]
  }

  // Idle buckets are dropped only when the request is allowed.
  function Step(s: Settings, buckets: Buckets, r: Request, evict: bool): Buckets {
    var served := Serve(s, buckets, r);
    if evict && Allowed(s, buckets, r) then Evict(s, served, r.at) else served
  }

  function Answers(s: Settings, buckets: Buckets, requests: seq<Request>, evict: bool): seq<bool>
    decreases |requests|
  {
    if requests == [] then []
    else [Allowed(s, buckets, requests[0])] + Answers(s, Step(s, buckets, requests[0], evict), requests[1..], evict)
  }

  class Limiter {
    var buckets: Buckets
    const rate: real
    const burst: real
    const idleEvict: real

    function Config(): Settings {
      Settings(rate, burst, idleEvict)
    }

    constructor (rate: real)
      ensures buckets == map[] && Config() == Settings(rate, Burst(rate), IdleEvict)
      ensures burst >= 1.0
    {
      var b := 4.0 * rate;
      if b < 1.0 { b := 1.0; }
      buckets := map[];
      this.rate, this.burst, this.idleEvict := rate, b, IdleEvict;
    }

    method Allow(scope: string, now: real) returns (ok: bool)
      modifies this
      ensures ok == Allowed(Config(), old(buckets), Request(scope, now))
      ensures buckets == Step(Config(), old(buckets), Request(scope, now), true)
    {
      if scope !in buckets {
        buckets := buckets[scope := Bucket(burst - 1.0, now)];
        EvictIdle(now);
        return true;
      }
      var b := buckets[scope];
      var elapsed := now - b.lastRefill;
      if elapsed > 0.0 {
        b := b.(tokens := b.tokens + elapsed * rate);
        if b.tokens > burst {
          b := b.(tokens := burst);
        }
        b := b.(lastRefill := now);
      }
      assert b == Refill(Config(), old(buckets)[scope], now) by { assert elapsed * rate == Gain(elapsed, rate); }
      if b.tokens < 1.0 {
        buckets := buckets[scope := b];
        return false;
      }
      buckets := buckets[scope := b.(tokens := b.tokens - 1.0)];
      EvictIdle(now);
      return true;
    }

    method EvictIdle(now: real)
      modifies this
      ensures buckets == Evict(Config(), old(buckets), now)
    {
      var rest := buckets.Keys;
      while rest != {}
        invariant rest <= buckets.Keys <= old(buckets).Keys
        invariant forall k <- buckets :: buckets[k] == old(buckets)[k]
        invariant forall k <- old(buckets) :: k !in rest ==>
          (k in buckets <==> !(now - old(buckets)[k].lastRefill > idleEvict))
        decreases rest
      {
        var k :| k in rest;
        if now - buckets[k].lastRefill > idleEvict {
          buckets := buckets - {k};
        }
        rest := rest - {k};
      }
    }
  }

  // ---------------------------------------------------------------------------------------------
  // Eviction is invisible

  ghost predicate Within(s: Settings, buckets: Buckets, now: real) {
    forall k <- buckets :: 0.0 <= buckets[k].tokens <= s.burst && buckets[k].lastRefill <= now
  }

  // The buckets without eviction are those with it, and full ones.
  ghost predicate Simulates(s: Settings, evicting: Buckets, plain: Buckets, now: real) {
    && Within(s, plain, now)
    && (forall k <- evicting :: k in plain && plain[k] == evicting[k])
    && (forall k <- plain :: k !in evicting ==> Full(s, plain[k], now))
  }

  predicate Full(s: Settings, b: Bucket, now: real) {
    b.tokens + Gain(now - b.lastRefill, s.rate) >= s.burst
  }

  lemma FullStaysFull(s: Settings, b: Bucket, now: real, later: real)
    requires s.Sensible() && now <= later && Full(s, b, now)
    ensures Full(s, b, later)
  {
    hide Gain;
    GainGrows(now - b.lastRefill, later - b.lastRefill, s.rate);
  }

  lemma FullRefills(s: Settings, b: Bucket, now: real)
    requires s.Sensible() && Full(s, b, now) && b.tokens <= s.burst && b.lastRefill <= now
    ensures Refill(s, b, now) == Bucket(s.burst, now)
  {
    hide Gain;
    GainAdds(0.0, 0.0, s.rate);
  }

  lemma RefillWithin(s: Settings, b: Bucket, now: real)
    requires s.Sensible() && 0.0 <= b.tokens <= s.burst && b.lastRefill <= now
    ensures 0.0 <= Refill(s, b, now).tokens <= s.burst && Refill(s, b, now).lastRefill == now
  {
    hide Gain;
    GainAdds(0.0, 0.0, s.rate);
    GainGrows(0.0, now - b.lastRefill, s.rate);
  }

  lemma SameAnswer(s: Settings, evicting: Buckets, plain: Buckets, now: real, r: Request)
    requires s.Sensible() && s.RefillsWhileIdle() && Simulates(s, evicting, plain, now) && now <= r.at
    ensures Allowed(s, evicting, r) == Allowed(s, plain, r)
    ensures Simulates(s, Step(s, evicting, r, true), Step(s, plain, r, false), r.at)
  {
    hide Gain;
    if r.scope in plain {
      RefillWithin(s, plain[r.scope], r.at);
      if r.scope !in evicting {
        FullStaysFull(s, plain[r.scope], now, r.at);
        FullRefills(s, plain[r.scope], r.at);
      }
    }
    ServeSimulates(s, evicting, plain, now, r);
    hide Serve, Allowed;
    EvictSimulates(s, Serve(s, evicting, r), Serve(s, plain, r), r.at);
  }

  lemma ServeSimulates(s: Settings, evicting: Buckets, plain: Buckets, now: real, r: Request)
    requires s.Sensible() && Simulates(s, evicting, plain, now) && now <= r.at
    requires r.scope in plain ==>
      && 0.0 <= Refill(s, plain[r.scope], r.at).tokens <= s.burst && Refill(s, plain[r.scope], r.at).lastRefill == r.at
      && (r.scope !in evicting ==> Refill(s, plain[r.scope], r.at) == Bucket(s.burst, r.at))
    ensures Simulates(s, Serve(s, evicting, r), Serve(s, plain, r), r.at)
  {
    hide Refill, Full, Gain;
    forall k | k in plain && k != r.scope && k !in evicting ensures Full(s, plain[k], r.at) {
      FullStaysFull(s, plain[k], now, r.at);
    }
  }

  lemma EvictSimulates(s: Settings, evicting: Buckets, plain: Buckets, now: real)
    requires s.Sensible() && s.RefillsWhileIdle() && Simulates(s, evicting, plain, now)
    ensures Simulates(s, Evict(s, evicting, now), plain, now)
  {
    hide Gain;
    forall k | k in evicting && now - evicting[k].lastRefill > s.idleEvict ensures Full(s, evicting[k], now) {
      GainGrows(s.idleEvict, now - evicting[k].lastRefill, s.rate);
    }
    hide Full;
  }

  ghost predicate InOrder(requests: seq<Request>, now: real)
    decreases |requests|
  {
    requests != [] ==> now <= requests[0].at && InOrder(requests[1..], requests[0].at)
  }

  // If a bucket fills up within the idle time, dropping it is invisible: on every sequence of
  // requests in order of time, over all scopes, the answers are those of a limiter that drops none.
  lemma {:induction false} EvictionInvisible(s: Settings, evicting: Buckets, plain: Buckets, now: real,
                                             requests: seq<Request>)
    requires s.Sensible() && s.RefillsWhileIdle() && Simulates(s, evicting, plain, now) && InOrder(requests, now)
    ensures Answers(s, evicting, requests, true) == Answers(s, plain, requests, false)
    decreases |requests|
  {
    if requests != [] {
      SameAnswer(s, evicting, plain, now, requests[0]);
      EvictionInvisible(s, Step(s, evicting, requests[0], true), Step(s, plain, requests[0], false), requests[0].at,
        requests[1..]);
    }
  }

  // For the settings of the constructor this is so exactly for rates of at least one token per ten
  // minutes; below that, a dropped bucket lets through a request that a kept one refuses.
  lemma EvictionInvisibleExactly(rate: real, start: real)
    ensures var s := Settings(rate, Burst(rate), IdleEvict);
            (forall requests: seq<Request> :: InOrder(requests, start) ==>
               Answers(s, map[], requests, true) == Answers(s, map[], requests, false))
            <==> rate >= 1.0 / 600.0
  {
    var s := Settings(rate, Burst(rate), IdleEvict);
    if rate >= 1.0 / 600.0 {
      forall requests: seq<Request> | InOrder(requests, start)
        ensures Answers(s, map[], requests, true) == Answers(s, map[], requests, false)
      {
        EvictionInvisible(s, map[], map[], start, requests);
      }
    } else {
      var requests := SlowRefill(rate, start);
      assert Answers(s, map[], requests, true) != Answers(s, map[], requests, false);
    }
  }

  lemma SlowRefill(rate: real, start: real) returns (requests: seq<Request>)
    requires rate < 1.0 / 600.0
    ensures InOrder(requests, start)
    ensures var s := Settings(rate, Burst(rate), IdleEvict);
            Answers(s, map[], requests, true) != Answers(s, map[], requests, false)
  {
    var s := Settings(rate, Burst(rate), IdleEvict);
    var wait := SlowWait(rate);
    hide Gain;
    var later := start + wait;
    var r0, r1, r2 := Request("a", start), Request("b", later), Request("a", later);
    requests := [r0, r1, r2];
    assert requests[1..] == [r1, r2] && requests[1..][1..] == [r2] && [r2][1..] == [];
    var one := map["a" := Bucket(0.0, start)];
    var b := Bucket(0.0, later);
    assert Step(s, map[], r0, true) == one == Step(s, map[], r0, false);
    assert Step(s, one, r1, true) == map["b" := b];
    assert Step(s, one, r1, false) == map["a" := Bucket(0.0, start), "b" := b];
    assert Allowed(s, map["b" := b], r2);
    assert !Allowed(s, map["a" := Bucket(0.0, start), "b" := b], r2);
    assert InOrder([r2], later);
    assert [r1, r2][1..] == [r2];
    assert InOrder([r1, r2], start);
    ThirdAnswer(s, map[], r0, r1, r2, true);
    ThirdAnswer(s, map[], r0, r1, r2, false);
  }

  lemma SlowWait(rate: real) returns (wait: real)
    requires rate < 1.0 / 600.0
    ensures wait > 600.0 && Gain(wait, rate) < 1.0
  {
    if rate <= 0.0 {
      wait := 601.0;
      assert 601.0 * rate <= 0.0;
    } else {
      var inverse := 1.0 / rate;
      assert Gain(inverse, rate) == 1.0 && Gain(600.0, rate) < 1.0;
      wait := (600.0 + inverse) / 2.0;
      GainAdds(wait, wait, rate);
      GainAdds(600.0, inverse, rate);
      assert wait + wait == 600.0 + inverse;
      hide Gain;
      if inverse <= 600.0 { GainGrows(inverse, 600.0, rate); }
    }
  }

  lemma ThirdAnswer(s: Settings, buckets: Buckets, r0: Request, r1: Request, r2: Request, evict: bool)
    ensures var answers := Answers(s, buckets, [r0, r1, r2], evict);
            |answers| == 3 && answers[2] == Allowed(s, Step(s, Step(s, buckets, r0, evict), r1, evict), r2)
  {
    hide Allowed, Step, Gain;
    assert [r0, r1, r2][1..] == [r1, r2] && [r1, r2][1..] == [r2] && [r2][1..] == [];
    var b1 := Step(s, buckets, r0, evict);
    var b2 := Step(s, b1, r1, evict);
    assert Answers(s, b2, [r2], evict) == [Allowed(s, b2, r2)];
    assert Answers(s, b1, [r1, r2], evict) == [Allowed(s, b1, r1), Allowed(s, b2, r2)];
  }

  // ---------------------------------------------------------------------------------------------
  // How much gets through

  // What a scope could spend at once.
  function Credit(s: Settings, buckets: Buckets, scope: string, now: real): real {
    if scope in buckets then Refill(s, buckets[scope], now).tokens else s.burst
  }

  function Admitted(s: Settings, buckets: Buckets, requests: seq<Request>, scope: string): nat
    decreases |requests|
  {
    if requests == [] then 0
    else (if requests[0].scope == scope && Allowed(s, buckets, requests[0]) then 1 else 0)
         + Admitted(s, Step(s, buckets, requests[0], false), requests[1..], scope)
  }

  function LastTime(requests: seq<Request>, now: real): real {
    if requests == [] then now else requests[|requests| - 1].at
  }

  lemma CreditGrows(s: Settings, buckets: Buckets, scope: string, now: real, later: real)
    requires s.Sensible() && Within(s, buckets, now) && now <= later
    ensures 0.0 <= Credit(s, buckets, scope, now) <= s.burst
    ensures Credit(s, buckets, scope, later) <= Credit(s, buckets, scope, now) + Gain(later - now, s.rate)
  {
    hide Gain;
    GainAdds(0.0, 0.0, s.rate);
    GainGrows(0.0, later - now, s.rate);
    if scope in buckets {
      var b := buckets[scope];
      RefillWithin(s, b, now);
      GainGrows(0.0, now - b.lastRefill, s.rate);
      GainAdds(later - now, now - b.lastRefill, s.rate);
      assert later - now + (now - b.lastRefill) == later - b.lastRefill;
    }
  }

  lemma CreditSpent(s: Settings, buckets: Buckets, r: Request, scope: string, now: real)
    requires s.Sensible() && Within(s, buckets, now) && now <= r.at
    ensures var after := Step(s, buckets, r, false);
            && Within(s, after, r.at)
            && Credit(s, after, scope, r.at)
                 == Credit(s, buckets, scope, r.at) - (if r.scope == scope && Allowed(s, buckets, r) then 1.0 else 0.0)
  {
    hide Gain;
    if r.scope in buckets { RefillWithin(s, buckets[r.scope], r.at); }
  }

  lemma {:induction false} CreditBoundsAdmitted(s: Settings, buckets: Buckets, requests: seq<Request>, scope: string,
                                                now: real)
    requires s.Sensible() && Within(s, buckets, now) && InOrder(requests, now)
    ensures Admitted(s, buckets, requests, scope) as real
         <= Credit(s, buckets, scope, now) + Gain(LastTime(requests, now) - now, s.rate)
    ensures now <= LastTime(requests, now)
    decreases |requests|
  {
    hide Step, Allowed, Credit, Within, Gain;
    GainAdds(0.0, 0.0, s.rate);
    CreditGrows(s, buckets, scope, now, now);
    if requests != [] {
      var r, rest := requests[0], requests[1..];
      CreditGrows(s, buckets, scope, now, r.at);
      CreditSpent(s, buckets, r, scope, now);
      CreditBoundsAdmitted(s, Step(s, buckets, r, false), rest, scope, r.at);
      var end := LastTime(requests, now);
      assert end == LastTime(rest, r.at);
      GainAdds(end - r.at, r.at - now, s.rate);
      assert end - r.at + (r.at - now) == end - now;
    }
  }

  function After(s: Settings, buckets: Buckets, requests: seq<Request>, evict: bool): Buckets
    decreases |requests|
  {
    if requests == [] then buckets else After(s, Step(s, buckets, requests[0], evict), requests[1..], evict)
  }

  function CountAllowed(requests: seq<Request>, answers: seq<bool>, scope: string): nat
    requires |answers| == |requests|
  {
    if requests == [] then 0
    else (if requests[0].scope == scope && answers[0] then 1 else 0) + CountAllowed(requests[1..], answers[1..], scope)
  }

  lemma {:induction false} AnswersLength(s: Settings, buckets: Buckets, requests: seq<Request>, evict: bool)
    ensures |Answers(s, buckets, requests, evict)| == |requests|
    decreases |requests|
  {
    if requests != [] { AnswersLength(s, Step(s, buckets, requests[0], evict), requests[1..], evict); }
  }

  lemma {:induction false} AdmittedCounts(s: Settings, buckets: Buckets, requests: seq<Request>, scope: string)
    requires |Answers(s, buckets, requests, false)| == |requests|
    ensures CountAllowed(requests, Answers(s, buckets, requests, false), scope) == Admitted(s, buckets, requests, scope)
    decreases |requests|
  {
    if requests != [] {
      hide Step, Allowed;
      AdmittedCounts(s, Step(s, buckets, requests[0], false), requests[1..], scope);
    }
  }

  lemma {:induction false} RunSimulates(s: Settings, evicting: Buckets, plain: Buckets, now: real,
                                        requests: seq<Request>)
    requires s.Sensible() && s.RefillsWhileIdle() && Simulates(s, evicting, plain, now) && InOrder(requests, now)
    ensures Simulates(s, After(s, evicting, requests, true), After(s, plain, requests, false), LastTime(requests, now))
    decreases |requests|
  {
    if requests != [] {
      hide Step, Simulates;
      var r := requests[0];
      SameAnswer(s, evicting, plain, now, r);
      RunSimulates(s, Step(s, evicting, r, true), Step(s, plain, r, false), r.at, requests[1..]);
      assert LastTime(requests, now) == LastTime(requests[1..], r.at);
    }
  }

  lemma SimulatesLater(s: Settings, evicting: Buckets, plain: Buckets, now: real, later: real)
    requires s.Sensible() && Simulates(s, evicting, plain, now) && now <= later
    ensures Simulates(s, evicting, plain, later)
  {
    hide Full;
    forall k | k in plain && k !in evicting ensures Full(s, plain[k], later) { FullStaysFull(s, plain[k], now, later); }
  }

  // In any window of requests, whatever came before it, the limiter with eviction admits for one
  // scope at most the burst plus the rate times the length of the window.
  lemma WindowBound(s: Settings, earlier: seq<Request>, window: seq<Request>, scope: string, start: real)
    requires s.Sensible() && s.RefillsWhileIdle()
    requires InOrder(earlier, start) && window != [] && InOrder(window, LastTime(earlier, start))
    ensures var answers := Answers(s, After(s, map[], earlier, true), window, true);
            && |answers| == |window|
            && CountAllowed(window, answers, scope) as real
                 <= s.burst + Gain(window[|window| - 1].at - window[0].at, s.rate)
  {
    hide Answers, After, Admitted, CountAllowed, Gain;
    var evicting, plain := After(s, map[], earlier, true), After(s, map[], earlier, false);
    RunSimulates(s, map[], map[], start, earlier);
    SimulatesLater(s, evicting, plain, LastTime(earlier, start), window[0].at);
    EvictionInvisible(s, evicting, plain, window[0].at, window);
    AnswersLength(s, plain, window, false);
    AdmittedCounts(s, plain, window, scope);
    CreditBoundsAdmitted(s, plain, window, scope, window[0].at);
    CreditGrows(s, plain, scope, window[0].at, window[0].at);
  }

  // ---------------------------------------------------------------------------------------------
  // Nothing is refused without need

  // Requests i up to, but not including, n that were admitted for a scope.
  function AdmittedIn(requests: seq<Request>, answers: seq<bool>, scope: string, i: nat, n: nat): nat
    requires i <= n <= |requests| == |answers|
  {
    CountAllowed(requests[i..n], answers[i..n], scope)
  }

  // What is left when a request comes, counting from request i with a full bucket.
  function LeftSince(s: Settings, requests: seq<Request>, answers: seq<bool>, scope: string, i: nat, n: nat): real
    requires i <= n < |requests| == |answers|
  {
    s.burst + Gain(requests[n].at - requests[i].at, s.rate) - AdmittedIn(requests, answers, scope, i, n) as real
  }

  // What is left when request n comes: of what was there at the start, or of a full bucket since.
  ghost predicate Traced(s: Settings, buckets: Buckets, requests: seq<Request>, answers: seq<bool>, scope: string,
                         now: real, n: nat, left: real)
    requires n < |requests| == |answers|
  {
    || (scope in buckets && left == Credit(s, buckets, scope, now) + Gain(requests[n].at - now, s.rate)
                                    - AdmittedIn(requests, answers, scope, 0, n) as real)
    || exists i :: 0 <= i <= n && left == LeftSince(s, requests, answers, scope, i, n)
  }

  lemma {:induction false} CreditTraced(s: Settings, buckets: Buckets, requests: seq<Request>, scope: string,
                                        now: real, n: nat, evict: bool)
    requires s.Sensible() && Within(s, buckets, now) && InOrder(requests, now) && n < |requests|
    ensures var answers := Answers(s, buckets, requests, evict);
            && |answers| == |requests|
            && Traced(s, buckets, requests, answers, scope, now, n,
                 Credit(s, After(s, buckets, requests[..n], evict), scope, requests[n].at))
            && answers[n] == Allowed(s, After(s, buckets, requests[..n], evict), requests[n])
    decreases |requests|
  {
    AnswersLength(s, buckets, requests, evict);
    if n == 0 {
      assert requests[..0] == [];
      FirstTraced(s, buckets, requests, Answers(s, buckets, requests, evict), scope, now);
    } else {
      hide *;
      RestInOrder(requests, now);
      var r, rest := requests[0], requests[1..];
      StepWithin(s, buckets, r, now, evict);
      CreditTraced(s, Step(s, buckets, r, evict), rest, scope, r.at, n - 1, evict);
      AnswersUnroll(s, buckets, requests, n, evict);
      TracedBack(s, buckets, requests, scope, now, n, evict,
        Credit(s, After(s, buckets, requests[..n], evict), scope, requests[n].at));
    }
  }

  lemma RestInOrder(requests: seq<Request>, now: real)
    requires InOrder(requests, now) && requests != []
    ensures now <= requests[0].at && InOrder(requests[1..], requests[0].at)
  {
  }

  lemma FirstTraced(s: Settings, buckets: Buckets, requests: seq<Request>, answers: seq<bool>, scope: string, now: real)
    requires s.Sensible() && Within(s, buckets, now) && requests != [] && now <= requests[0].at
    requires |answers| == |requests|
    ensures Traced(s, buckets, requests, answers, scope, now, 0, Credit(s, buckets, scope, requests[0].at))
  {
    var at := requests[0].at;
    FirstCredit(s, buckets, scope, now, at);
    hide Gain, Credit, Within;
    GainAdds(0.0, 0.0, s.rate);
    assert requests[0..0] == [] && answers[0..0] == [];
    assert LeftSince(s, requests, answers, scope, 0, 0) == s.burst;
  }

  // Until a request comes, a bucket fills at the rate up to the burst.
  lemma FirstCredit(s: Settings, buckets: Buckets, scope: string, now: real, at: real)
    requires s.Sensible() && Within(s, buckets, now) && now <= at
    ensures Credit(s, buckets, scope, at) == s.burst
         || (scope in buckets
           && Credit(s, buckets, scope, at) == Credit(s, buckets, scope, now) + Gain(at - now, s.rate))
  {
    hide Gain;
    if scope in buckets {
      var b := buckets[scope];
      GainAdds(0.0, 0.0, s.rate);
      GainAdds(at - now, now - b.lastRefill, s.rate);
      GainGrows(0.0, at - now, s.rate);
      GainGrows(0.0, now - b.lastRefill, s.rate);
      assert at - now + (now - b.lastRefill) == at - b.lastRefill;
    }
  }

  lemma StepWithin(s: Settings, buckets: Buckets, r: Request, now: real, evict: bool)
    requires s.Sensible() && Within(s, buckets, now) && now <= r.at
    ensures Within(s, Step(s, buckets, r, evict), r.at)
    ensures r.scope in Step(s, buckets, r, false)
    ensures forall scope :: scope in Step(s, buckets, r, evict) ==>
              && (scope == r.scope || scope in buckets)
              && Credit(s, Step(s, buckets, r, evict), scope, r.at)
                   == Credit(s, buckets, scope, r.at)
                      - (if r.scope == scope && Allowed(s, buckets, r) then 1.0 else 0.0)
  {
    CreditSpent(s, buckets, r, r.scope, now);
    hide Gain, Within, Refill;
    assert Within(s, Step(s, buckets, r, false), r.at);
    EvictWithin(s, Step(s, buckets, r, false), r.at);
    forall scope | scope in Step(s, buckets, r, evict)
      ensures Credit(s, Step(s, buckets, r, evict), scope, r.at)
           == Credit(s, buckets, scope, r.at) - (if r.scope == scope && Allowed(s, buckets, r) then 1.0 else 0.0)
    {
      CreditSpent(s, buckets, r, scope, now);
    }
  }

  lemma EvictWithin(s: Settings, buckets: Buckets, now: real)
    requires Within(s, buckets, now)
    ensures Within(s, Evict(s, buckets, now), now)
  {
  }

  lemma AnswersUnroll(s: Settings, buckets: Buckets, requests: seq<Request>, n: nat, evict: bool)
    requires 0 < n < |requests|
    ensures var next := Step(s, buckets, requests[0], evict);
            && Answers(s, buckets, requests, evict)
                 == [Allowed(s, buckets, requests[0])] + Answers(s, next, requests[1..], evict)
            && After(s, buckets, requests[..n], evict) == After(s, next, requests[1..][..n - 1], evict)
  {
    hide Step, Allowed;
    assert requests[..n][1..] == requests[1..][..n - 1] && requests[..n][0] == requests[0];
  }

  // From the requests behind the first to all of them.
  lemma TracedBack(s: Settings, buckets: Buckets, requests: seq<Request>, scope: string, now: real, n: nat, evict: bool,
                   left: real)
    requires s.Sensible() && Within(s, buckets, now) && requests != [] && now <= requests[0].at && 0 < n < |requests|
    requires var rest := Answers(s, Step(s, buckets, requests[0], evict), requests[1..], evict);
             && |rest| == |requests| - 1
             && Traced(s, Step(s, buckets, requests[0], evict), requests[1..], rest, scope, requests[0].at, n - 1, left)
    ensures var answers := Answers(s, buckets, requests, evict);
            |answers| == |requests| && Traced(s, buckets, requests, answers, scope, now, n, left)
  {
    hide *;
    var r, next := requests[0], Step(s, buckets, requests[0], evict);
    var rest, last, later := Answers(s, next, requests[1..], evict), n - 1, requests[1..];
    AnswersUnroll(s, buckets, requests, n, evict);
    var answers := Answers(s, buckets, requests, evict);
    assert answers[1..] == rest && answers[0] == Allowed(s, buckets, r);
    var i := TracedFrom(s, next, later, rest, scope, r.at, last, left);
    if i >= 0 {
      ShiftedCount(s, requests, answers, scope, i, last);
      StillTraced(s, buckets, requests, answers, scope, now, n, left, i + 1);
    } else {
      StepWithin(s, buckets, r, now, evict);
      ShiftedCount(s, requests, answers, scope, 0, last);
      FirstCounts(requests, answers, scope, n);
      FirstCredit(s, buckets, scope, now, r.at);
      FromTheStart(s, buckets, requests, answers, scope, now, n, left);
    }
  }

  lemma TracedFrom(s: Settings, buckets: Buckets, requests: seq<Request>, answers: seq<bool>, scope: string,
                   now: real, n: nat, left: real) returns (i: int)
    requires n < |requests| == |answers| && Traced(s, buckets, requests, answers, scope, now, n, left)
    ensures i <= n
    ensures if i >= 0 then left == LeftSince(s, requests, answers, scope, i, n)
            else scope in buckets && left == Credit(s, buckets, scope, now) + Gain(requests[n].at - now, s.rate)
                                              - AdmittedIn(requests, answers, scope, 0, n) as real
  {
    hide Gain, AdmittedIn, Credit, LeftSince;
    i := -1;
    if k :| 0 <= k <= n && left == LeftSince(s, requests, answers, scope, k, n) { i := k; }
  }

  lemma StillTraced(s: Settings, buckets: Buckets, requests: seq<Request>, answers: seq<bool>, scope: string,
                    now: real, n: nat, left: real, i: nat)
    requires i <= n < |requests| == |answers| && left == LeftSince(s, requests, answers, scope, i, n)
    ensures Traced(s, buckets, requests, answers, scope, now, n, left)
  {
  }

  lemma FromTheStart(s: Settings, buckets: Buckets, requests: seq<Request>, answers: seq<bool>, scope: string,
                     now: real, n: nat, left: real)
    requires 0 < n < |requests| == |answers|
    requires var at := requests[0].at; var first := Credit(s, buckets, scope, at);
             && left == first + Gain(requests[n].at - at, s.rate) - AdmittedIn(requests, answers, scope, 0, n) as real
             && (first == s.burst
                 || (scope in buckets && first == Credit(s, buckets, scope, now) + Gain(at - now, s.rate)))
    ensures Traced(s, buckets, requests, answers, scope, now, n, left)
  {
    hide Gain, AdmittedIn, Credit;
    var at := requests[0].at;
    GainAdds(requests[n].at - at, at - now, s.rate);
    assert requests[n].at - at + (at - now) == requests[n].at - now;
    if Credit(s, buckets, scope, at) == s.burst { assert left == LeftSince(s, requests, answers, scope, 0, n); }
  }

  lemma ShiftedCount(s: Settings, requests: seq<Request>, answers: seq<bool>, scope: string, i: nat, n: nat)
    requires requests != [] && |answers| == |requests| && i <= n < |requests| - 1
    ensures AdmittedIn(requests[1..], answers[1..], scope, i, n) == AdmittedIn(requests, answers, scope, i + 1, n + 1)
    ensures LeftSince(s, requests[1..], answers[1..], scope, i, n)
      == LeftSince(s, requests, answers, scope, i + 1, n + 1)
  {
    assert requests[1..][i..n] == requests[i + 1..n + 1] && answers[1..][i..n] == answers[i + 1..n + 1];
    hide CountAllowed, Gain;
  }

  lemma FirstCounts(requests: seq<Request>, answers: seq<bool>, scope: string, n: nat)
    requires 0 < n <= |requests| == |answers|
    ensures AdmittedIn(requests, answers, scope, 0, n)
         == AdmittedIn(requests, answers, scope, 1, n) + if requests[0].scope == scope && answers[0] then 1 else 0
  {
    assert requests[0..n][1..] == requests[1..n] && answers[0..n][1..] == answers[1..n];
  }

  // Letting request n through would exceed the burst and the refill since request i.
  predicate Exceeds(s: Settings, requests: seq<Request>, answers: seq<bool>, i: nat, n: nat)
    requires i <= n < |requests| == |answers|
  {
    AdmittedIn(requests, answers, requests[n].scope, i, n) as real + 1.0
      > s.burst + Gain(requests[n].at - requests[i].at, s.rate)
  }

  // A request is refused only if letting it through would exceed the burst and the refill in some
  // stretch of requests that ends with it.
  lemma RefusedForAReason(s: Settings, requests: seq<Request>, start: real, n: nat, evict: bool)
    requires s.Sensible() && InOrder(requests, start) && n < |requests|
    ensures var answers := Answers(s, map[], requests, evict);
            && |answers| == |requests|
            && (!answers[n] ==> exists i :: 0 <= i < n && Exceeds(s, requests, answers, i, n))
  {
    CreditTraced(s, map[], requests, requests[n].scope, start, n, evict);
    var answers, scope := Answers(s, map[], requests, evict), requests[n].scope;
    if !answers[n] {
      var before := After(s, map[], requests[..n], evict);
      assert Credit(s, before, scope, requests[n].at) < 1.0;
      hide Answers, After, Credit, Allowed, Gain;
      var i :| 0 <= i <= n && LeftSince(s, requests, answers, scope, i, n) < 1.0;
      GainAdds(0.0, 0.0, s.rate);
      assert requests[n..n] == [] && answers[n..n] == [];
      assert i != n && Exceeds(s, requests, answers, i, n);
    }
  }

  lemma {:induction false} AnswersSplit(s: Settings, buckets: Buckets, first: seq<Request>, second: seq<Request>,
                                        evict: bool)
    ensures Answers(s, buckets, first + second, evict)
         == Answers(s, buckets, first, evict) + Answers(s, After(s, buckets, first, evict), second, evict)
    decreases |first|
  {
    hide Step, Allowed;
    if first == [] {
      assert first + second == second;
    } else {
      assert (first + second)[1..] == first[1..] + second;
      AnswersSplit(s, Step(s, buckets, first[0], evict), first[1..], second, evict);
    }
  }

  lemma {:induction false} OrderSplit(first: seq<Request>, second: seq<Request>, now: real)
    requires InOrder(first + second, now)
    ensures InOrder(first, now) && InOrder(second, LastTime(first, now))
    decreases |first|
  {
    if first == [] {
      assert first + second == second;
    } else {
      assert (first + second)[1..] == first[1..] + second;
      OrderSplit(first[1..], second, first[0].at);
      assert LastTime(first, now) == LastTime(first[1..], first[0].at);
    }
  }

  lemma {:induction false} CountOneMore(requests: seq<Request>, answers: seq<bool>, scope: string)
    requires |answers| == |requests| > 0
    ensures var n := |requests| - 1;
            CountAllowed(requests, answers, scope)
              == CountAllowed(requests[..n], answers[..n], scope)
                 + if requests[n].scope == scope && answers[n] then 1 else 0
  {
    var n := |requests| - 1;
    if n > 0 {
      CountOneMore(requests[1..], answers[1..], scope);
      assert requests[..n][1..] == requests[1..][..n - 1] && answers[..n][1..] == answers[1..][..n - 1];
    } else {
      assert requests[..0] == [] && answers[..0] == [] && requests[1..] == [] && answers[1..] == [];
    }
  }

  // The limiter with eviction refuses a request exactly when letting it through would exceed the burst
  // and the refill in some stretch that ends with it: no limiter that keeps the bound lets through more.
  lemma RefusedExactly(s: Settings, requests: seq<Request>, start: real, n: nat)
    requires s.Sensible() && s.RefillsWhileIdle() && InOrder(requests, start) && n < |requests|
    ensures var answers := Answers(s, map[], requests, true);
            && |answers| == |requests|
            && (!answers[n] <==> exists i :: 0 <= i < n && Exceeds(s, requests, answers, i, n))
  {
    RefusedForAReason(s, requests, start, n, true);
    var answers := Answers(s, map[], requests, true);
    hide *;
    if i :| 0 <= i < n && Exceeds(s, requests, answers, i, n) {
      AdmittedFits(s, requests, start, i, n);
    }
  }

  lemma AdmittedFits(s: Settings, requests: seq<Request>, start: real, i: nat, n: nat)
    requires s.Sensible() && s.RefillsWhileIdle() && InOrder(requests, start) && i < n < |requests|
    ensures var answers := Answers(s, map[], requests, true);
            |answers| == |requests| && (answers[n] ==> !Exceeds(s, requests, answers, i, n))
  {
    hide *;
    SliceAnswers(s, requests, start, i, n + 1);
    var window := requests[i..n + 1];
    assert window != [] && window[0] == requests[i] && window[|window| - 1] == requests[n];
    WindowBound(s, requests[..i], window, requests[n].scope, start);
    if Answers(s, map[], requests, true)[n] { WindowCount(s, requests, Answers(s, map[], requests, true), i, n); }
  }

  // A stretch of the answers is what the limiter answers to that stretch of requests.
  lemma SliceAnswers(s: Settings, requests: seq<Request>, start: real, i: nat, m: nat)
    requires InOrder(requests, start) && i <= m <= |requests|
    ensures var answers := Answers(s, map[], requests, true);
            && |answers| == |requests|
            && InOrder(requests[..i], start) && InOrder(requests[i..m], LastTime(requests[..i], start))
            && Answers(s, After(s, map[], requests[..i], true), requests[i..m], true) == answers[i..m]
  {
    hide *;
    var earlier, window, later := requests[..i], requests[i..m], requests[m..];
    var there := After(s, map[], earlier, true);
    assert requests[i..] == window + later && requests == earlier + requests[i..];
    AnswersSplit(s, map[], earlier, requests[i..], true);
    AnswersSplit(s, there, window, later, true);
    AnswersLength(s, map[], earlier, true);
    AnswersLength(s, map[], requests, true);
    AnswersLength(s, there, window, true);
    OrderSplit(earlier, requests[i..], start);
    OrderSplit(window, later, LastTime(earlier, start));
  }

  lemma WindowCount(s: Settings, requests: seq<Request>, answers: seq<bool>, i: nat, n: nat)
    requires i < n < |requests| == |answers| && answers[n]
    ensures CountAllowed(requests[i..n + 1], answers[i..n + 1], requests[n].scope)
         == AdmittedIn(requests, answers, requests[n].scope, i, n) + 1
    ensures Exceeds(s, requests, answers, i, n) <==>
      CountAllowed(requests[i..n + 1], answers[i..n + 1], requests[n].scope) as real
        > s.burst + Gain(requests[n].at - requests[i].at, s.rate)
  {
    hide CountAllowed, Gain;
    var window, given := requests[i..n + 1], answers[i..n + 1];
    CountOneMore(window, given, requests[n].scope);
    assert window[..n - i] == requests[i..n] && given[..n - i] == answers[i..n];
  }

  // ---------------------------------------------------------------------------------------------
  // The constructor's settings

  // Of any number of requests at one moment, a scope not seen before gets the first ones: as many as
  // four seconds' worth, and one at least.
  lemma BurstExactly(rate: real, at: real, count: nat, n: nat)
    requires n < count
    ensures var answers := Answers(Settings(rate, Burst(rate), IdleEvict), map[], SameMoment(at, count), true);
            |answers| == count && (answers[n] <==> n == 0 || (n + 1) as real <= 4.0 * rate)
  {
    var s := Settings(rate, Burst(rate), IdleEvict);
    var requests := SameMoment(at, count);
    assert requests[0] == Request("a", at) && requests[1..] == SameMoment(at, count - 1);
    assert Step(s, map[], requests[0], true) == map["a" := Bucket(s.burst - 1.0, at)];
    if n > 0 { SpentDown(s, s.burst - 1.0, at, count - 1, n - 1); } else { AnswersLength(s, map[], requests, true); }
    AnswersLength(s, map[], requests, true);
  }

  function SameMoment(at: real, count: nat): (requests: seq<Request>)
    ensures |requests| == count
  {
    seq(count, _ => Request("a", at))
  }

  lemma {:induction false} SpentDown(s: Settings, tokens: real, at: real, count: nat, n: nat)
    requires n < count && s.idleEvict >= 0.0
    ensures var answers := Answers(s, map["a" := Bucket(tokens, at)], SameMoment(at, count), true);
            |answers| == count && (answers[n] <==> (n + 1) as real <= tokens)
    decreases n
  {
    var requests, buckets := SameMoment(at, count), map["a" := Bucket(tokens, at)];
    AnswersLength(s, buckets, requests, true);
    assert requests[0] == Request("a", at) && requests[1..] == SameMoment(at, count - 1);
    if n > 0 {
      if tokens >= 1.0 {
        assert Step(s, buckets, requests[0], true) == map["a" := Bucket(tokens - 1.0, at)];
        SpentDown(s, tokens - 1.0, at, count - 1, n - 1);
      } else {
        assert Step(s, buckets, requests[0], true) == buckets;
        SpentDown(s, tokens, at, count - 1, n - 1);
      }
    }
  }

  // A scope that waits 1/rate between its requests is never refused, whatever other scopes do.
  lemma SpacedNeverRefused(s: Settings, requests: seq<Request>, start: real, n: nat, evict: bool)
    requires s.Sensible() && InOrder(requests, start) && n < |requests|
    requires forall i, j :: 0 <= i < j < |requests| && requests[i].scope == requests[j].scope == requests[n].scope ==>
               Gain(requests[j].at - requests[i].at, s.rate) >= 1.0
    ensures |Answers(s, map[], requests, evict)| == |requests| && Answers(s, map[], requests, evict)[n]
  {
    RefusedForAReason(s, requests, start, n, evict);
    var answers := Answers(s, map[], requests, evict);
    hide Answers, Gain, AdmittedIn;
    if !answers[n] {
      var i :| 0 <= i < n && Exceeds(s, requests, answers, i, n);
      SpacedCount(s, requests, answers, requests[n].scope, start, i, n, n);
    }
  }

  lemma {:induction false} TimesInOrder(requests: seq<Request>, now: real, i: nat, j: nat)
    requires InOrder(requests, now) && i <= j < |requests|
    ensures now <= requests[i].at <= requests[j].at
    decreases |requests|
  {
    if i > 0 {
      TimesInOrder(requests[1..], requests[0].at, i - 1, j - 1);
    } else if j > 0 {
      TimesInOrder(requests[1..], requests[0].at, 0, j - 1);
    }
  }

  // Requests i to m of a spaced scope are no more than the tokens gained until a later one of it.
  lemma {:induction false} SpacedCount(s: Settings, requests: seq<Request>, answers: seq<bool>, scope: string,
                                       start: real, i: nat, m: nat, n: nat)
    requires s.Sensible() && InOrder(requests, start) && i <= m <= n < |requests| == |answers|
    requires requests[n].scope == scope
    requires forall k, j :: 0 <= k < j < |requests| && requests[k].scope == requests[j].scope == scope ==>
               Gain(requests[j].at - requests[k].at, s.rate) >= 1.0
    ensures AdmittedIn(requests, answers, scope, i, m) as real <= Gain(requests[n].at - requests[i].at, s.rate)
    decreases m - i, n - m
  {
    hide CountAllowed, Gain;
    TimesInOrder(requests, start, i, n);
    GainAdds(0.0, 0.0, s.rate);
    GainGrows(0.0, requests[n].at - requests[i].at, s.rate);
    if i == m {
      assert requests[i..m] == [] && answers[i..m] == [];
      NothingCounted(scope);
    } else {
      var last := m - 1;
      var window, given := requests[i..m], answers[i..m];
      CountOneMore(window, given, scope);
      assert window[..last - i] == requests[i..last] && given[..last - i] == answers[i..last];
      if requests[last].scope == scope {
        SpacedCount(s, requests, answers, scope, start, i, last, last);
        GainAdds(requests[n].at - requests[last].at, requests[last].at - requests[i].at, s.rate);
        assert requests[n].at - requests[last].at + (requests[last].at - requests[i].at)
            == requests[n].at - requests[i].at;
      } else {
        SpacedCount(s, requests, answers, scope, start, i, last, n);
      }
    }
  }

  lemma NothingCounted(scope: string)
    ensures CountAllowed([], [], scope) == 0
  {
  }

  // A bucket is dropped exactly when a request is let through more than ten minutes after the bucket
  // was last filled up; a refused request drops none.
  lemma DroppedExactly(rate: real, buckets: Buckets, r: Request, scope: string)
    ensures var s := Settings(rate, Burst(rate), IdleEvict);
            scope in Step(s, buckets, r, true) <==>
              || scope == r.scope
              || (scope in buckets && (!Allowed(s, buckets, r) || r.at - buckets[scope].lastRefill <= 600.0))
  {
    hide Burst;
  }
}
