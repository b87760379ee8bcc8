// The per-key token bucket limiter and its background eviction. Times are seconds on a clock
// that never runs backwards; tokens are reals.
module RateLimiting {
  import opened Basics

  datatype Bucket = Bucket(tokens: real, lastSeen: real)

  type Buckets = map<string, Bucket>

  datatype Limits = Limits(rate: real, burst: int) {
    predicate Valid() {
      rate > 0.0 && burst >= 1
    }

    function Capacity(): real {
      burst as real
    }

    /** The tokens that flow in over `elapsed` seconds. */
    function Refill(elapsed: real): real {
      elapsed * rate
    }
  }

  /** A bucket is stale when it has not been seen for ten minutes. */
  const STALE: real := 600.0

  datatype Verdict = Verdict(remaining: int, ok: bool)

  function Min(a: real, b: real): real {
    if a <= b then a else b
  }

  /** The tokens `key` has to spend at time `now`. A key without a bucket has them all. */
  function Level(l: Limits, buckets: Buckets, key: string, now: real): real {
    if key in buckets
    then Min(l.Capacity(), buckets[key].tokens + l.Refill(now - buckets[key].lastSeen))
    else l.Capacity()
  }

  /** The answer at a given level; the remaining count is the whole tokens left. */
  function Decide(level: real): Verdict {
    if level < 1.0 then Verdict(0, false) else Verdict((level - 1.0).Floor, true)
  }

  function Charge(level: real): real {
    if level < 1.0 then level else level - 1.0
  }

  /** The buckets after a call, admitted or denied. */
  function Called(l: Limits, buckets: Buckets, key: string, now: real): Buckets {
    buckets[key := Bucket(Charge(Level(l, buckets, key, now)), now)]
  }

  /** The buckets after an eviction tick. */
  function Swept(buckets: Buckets, now: real): Buckets {
    map k | k in buckets && !(buckets[k].lastSeen < now - STALE) :: buckets[k]
  }

  datatype Response =
    | PassedThrough
    | Admitted(limit: int, remaining: int)
    | Rejected(limit: int, remaining: int, retryAfter: int)

  class RateLimiter {
    var buckets: Buckets
    const limits: Limits

    constructor (rps: real, burst: int)
      ensures limits == Limits(if rps <= 0.0 then 1.0 else rps, Max(burst, 1))
      ensures limits.Valid() && buckets == map[]
    {
      limits := Limits(if rps <= 0.0 then 1.0 else rps, if burst < 1 then 1 else burst);
      buckets := map[];
    }

    method Allow(key: string, now: real) returns (remaining: int, ok: bool)
      modifies this
      ensures Verdict(remaining, ok) == Decide(Level(limits, old(buckets), key, now))
      ensures buckets == Called(limits, old(buckets), key, now)
    {
      if key !in buckets {
        buckets := buckets[key := Bucket(limits.Capacity(), now)];
      }
      var b := buckets[key];
      var elapsed := now - b.lastSeen;
      assert elapsed == 0.0 ==> elapsed * limits.rate == 0.0;
      assert limits.Refill(elapsed) == elapsed * limits.rate;
      var tokens := Min(limits.Capacity(), b.tokens + elapsed * limits.rate);
      buckets := buckets[key := Bucket(tokens, now)];
      if tokens < 1.0 {
        return 0, false;
      }
      tokens := tokens - 1.0;
      buckets := buckets[key := Bucket(tokens, now)];
      return tokens.Floor, true;
    }

    /** One tick of the cleanup loop. */
    method Sweep(now: real)
      modifies this
      ensures buckets == Swept(old(buckets), now)
      ensures forall k :: k in buckets <==> k in old(buckets) && now - old(buckets)[k].lastSeen <= 600.0
      ensures forall k :: k in buckets ==> buckets[k] == old(buckets)[k]
    {
      var cutoff := now - STALE;
      var rest := buckets.Keys;
      while rest != {}
        invariant rest <= buckets.Keys <= old(buckets).Keys
        invariant forall k :: k in buckets ==> buckets[k] == old(buckets)[k]
        invariant forall k :: k in old(buckets) ==>
                    (k in buckets <==> k in rest || !(old(buckets)[k].lastSeen < now - STALE))
        decreases rest
      {
        var key :| key in rest;
        rest := rest - {key};
        if buckets[key].lastSeen < cutoff {
          buckets := buckets - {key};
        }
      }
    }

    /** The middleware: a request without a key passes through untouched. */
    method Guard(key: string, now: real) returns (r: Response)
      modifies this
      ensures key == "" ==> r == PassedThrough && buckets == old(buckets)
      ensures key != "" ==>
                var v := Decide(Level(limits, old(buckets), key, now));
                && r == (if v.ok then Admitted(limits.burst, v.remaining) else Rejected(limits.burst, 0, 1))
                && buckets == Called(limits, old(buckets), key, now)
    {
      if key == "" {
        return PassedThrough;
      }
      var remaining, ok := Allow(key, now);
      if !ok {
        return Rejected(limits.burst, 0, 1);
      }
      return Admitted(limits.burst, remaining);
    }
  }

  // ---- Traces --------------------------------------------------------------------------

  datatype Event = Call(key: string, at: real) | Tick(at: real)

  ghost predicate Monotone(tr: seq<Event>) {
    forall i, j :: 0 <= i <= j < |tr| ==> tr[i].at <= tr[j].at
  }

  function Step(l: Limits, buckets: Buckets, e: Event): Buckets {
    match e
    case Call(key, at) => Called(l, buckets, key, at)
    case Tick(at) => Swept(buckets, at)
  }

  /** The buckets of a fresh limiter after the first `n` events of a trace, when the events
      whose positions are in `skip` never happen. */
  function After(l: Limits, tr: seq<Event>, skip: set<nat>, n: nat): Buckets
    requires n <= |tr|
  {
    if n == 0 then map[]
    else if n - 1 in skip then After(l, tr, skip, n - 1)
    else Step(l, After(l, tr, skip, n - 1), tr[n - 1])
  }

  function VerdictAt(l: Limits, tr: seq<Event>, skip: set<nat>, n: nat): Verdict
    requires n < |tr| && tr[n].Call?
  {
    Decide(Level(l, After(l, tr, skip, n), tr[n].key, tr[n].at))
  }

  predicate CallOf(e: Event, key: string) {
    e.Call? && e.key == key
  }

  /** The calls of `key` among events i..n-1. */
  function Calls(tr: seq<Event>, key: string, i: nat, n: nat): nat
    requires n <= |tr|
  {
    if n <= i then 0
    else Calls(tr, key, i, n - 1) + if CallOf(tr[n - 1], key) then 1 else 0
  }

  /** The admitted calls of `key` among events i..n-1. */
  function Admissions(l: Limits, tr: seq<Event>, skip: set<nat>, key: string, i: nat, n: nat): nat
    requires n <= |tr|
  {
    if n <= i then
      0
    else
      Admissions(l, tr, skip, key, i, n - 1) +
      if n - 1 !in skip && CallOf(tr[n - 1], key) && VerdictAt(l, tr, skip, n - 1).ok then 1 else 0
  }

  /** The admitted calls of `key` at times in [from, to] among the first `n` events. */
  function AdmissionsWithin(l: Limits, tr: seq<Event>, key: string, from: real, to: real, n: nat): nat
    requires n <= |tr|
  {
    if n == 0 then
      0
    else
      AdmissionsWithin(l, tr, key, from, to, n - 1) +
      if from <= tr[n - 1].at <= to && CallOf(tr[n - 1], key) && VerdictAt(l, tr, {}, n - 1).ok then 1 else 0
  }

  ghost function Ticks(tr: seq<Event>): set<nat> {
    set i: nat | i < |tr| && tr[i].Tick?
  }
}
