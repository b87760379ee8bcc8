// What the limiter promises over whole traces: any keys, any times, eviction at any moment.
module RateLimiterLaws {
  import opened Basics
  import opened RateLimiting

  // ---- Every reachable state -----------------------------------------------------------

  ghost predicate InRange(l: Limits, buckets: Buckets, now: real) {
    forall k :: k in buckets ==>
      0.0 <= buckets[k].tokens <= l.Capacity() && buckets[k].lastSeen <= now
  }

  lemma RefillIsAdditive(l: Limits, a: real, b: real, c: real)
    ensures l.Refill(c - a) == l.Refill(b - a) + l.Refill(c - b)
  {
  }

  lemma RefillNonNegative(l: Limits, a: real, b: real)
    requires l.Valid() && a <= b
    ensures l.Refill(b - a) >= 0.0
    ensures a == b ==> l.Refill(b - a) == 0.0
  {
  }

  lemma LevelInRange(l: Limits, buckets: Buckets, key: string, now: real)
    requires l.Valid() && InRange(l, buckets, now)
    ensures 0.0 <= Level(l, buckets, key, now) <= l.Capacity()
  {
    hide Limits.Refill;
    if key in buckets {
      var b := buckets[key];
      RefillNonNegative(l, b.lastSeen, now);
    }
  }

  /** Tokens stay between zero and the burst in every reachable state. */
  lemma {:induction false} TokensInRange(l: Limits, tr: seq<Event>, skip: set<nat>, n: nat, now: real)
    requires l.Valid() && Monotone(tr) && n <= |tr|
    requires n > 0 ==> tr[n - 1].at <= now
    ensures InRange(l, After(l, tr, skip, n), now)
  {
    if n > 0 {
      var e := tr[n - 1];
      TokensInRange(l, tr, skip, n - 1, e.at);
      if e.Call? {
        LevelInRange(l, After(l, tr, skip, n - 1), e.key, e.at);
      }
    }
  }

  // ---- Levels that agree from now on ---------------------------------------------------

  /** No future call can tell the two apart. */
  ghost predicate SameLevels(l: Limits, a: Buckets, b: Buckets, now: real) {
    forall k, t :: t >= now ==> Level(l, a, k, t) == Level(l, b, k, t)
  }

  /** A denied call changes no future level: capped refill composes over time. */
  lemma DenialInvisible(l: Limits, buckets: Buckets, key: string, now: real)
    requires l.Valid() && InRange(l, buckets, now)
    requires !Decide(Level(l, buckets, key, now)).ok
    ensures SameLevels(l, buckets, Called(l, buckets, key, now), now)
  {
    forall k, t | t >= now
      ensures Level(l, buckets, k, t) == Level(l, Called(l, buckets, key, now), k, t)
    {
      hide Limits.Refill;
      if k == key {
        RefillIsAdditive(l, buckets[key].lastSeen, now, t);
      }
    }
  }

  /** Evicting a stale bucket changes no future level when ten minutes refill a whole burst. */
  lemma TickInvisible(l: Limits, buckets: Buckets, now: real)
    requires l.Valid() && InRange(l, buckets, now)
    requires l.Capacity() <= STALE * l.rate
    ensures SameLevels(l, buckets, Swept(buckets, now), now)
  {
    forall k, t | t >= now
      ensures Level(l, buckets, k, t) == Level(l, Swept(buckets, now), k, t)
    {
      if k in buckets && buckets[k].lastSeen < now - STALE {
        var b := buckets[k];
        RefillIsAdditive(l, b.lastSeen, t - STALE, t);
        RefillNonNegative(l, b.lastSeen, t - STALE);
        assert l.Refill(t - (t - STALE)) == STALE * l.rate;
        assert b.tokens + l.Refill(t - b.lastSeen) >= l.Capacity();
        assert k !in Swept(buckets, now);
      }
    }
  }

  lemma CallKeepsLevels(l: Limits, a: Buckets, b: Buckets, key: string, now: real)
    requires SameLevels(l, a, b, now)
    ensures SameLevels(l, Called(l, a, key, now), Called(l, b, key, now), now)
  {
    var a', b' := Called(l, a, key, now), Called(l, b, key, now);
    assert Level(l, a, key, now) == Level(l, b, key, now);
    forall k, t | t >= now
      ensures Level(l, a', k, t) == Level(l, b', k, t)
    {
      assert Level(l, a, k, t) == Level(l, b, k, t);
    }
  }

  /** The positions that can be dropped: eviction ticks and denied calls. */
  ghost predicate Droppable(l: Limits, tr: seq<Event>, skip: set<nat>) {
    forall i :: i in skip && i < |tr| ==> tr[i].Tick? || !VerdictAt(l, tr, {}, i).ok
  }

  /** Eviction cannot be seen: a burst refills within ten minutes, or there is no tick. */
  ghost predicate Unobservable(l: Limits, tr: seq<Event>) {
    l.Capacity() <= STALE * l.rate || Ticks(tr) == {}
  }

  lemma {:induction false} DroppingKeepsLevels(l: Limits, tr: seq<Event>, skip: set<nat>, n: nat, now: real)
    requires l.Valid() && Monotone(tr) && n <= |tr|
    requires n > 0 ==> tr[n - 1].at <= now
    requires Droppable(l, tr, skip) && Unobservable(l, tr)
    ensures SameLevels(l, After(l, tr, {}, n), After(l, tr, skip, n), now)
  {
    if n > 0 {
      var e := tr[n - 1];
      var a, b := After(l, tr, {}, n - 1), After(l, tr, skip, n - 1);
      DroppingKeepsLevels(l, tr, skip, n - 1, e.at);
      TokensInRange(l, tr, {}, n - 1, e.at);
      TokensInRange(l, tr, skip, n - 1, e.at);
      if e.Tick? {
        assert n - 1 in Ticks(tr);
        TickInvisible(l, a, e.at);
        TickInvisible(l, b, e.at);
      } else if n - 1 in skip {
        DenialInvisible(l, a, e.key, e.at);
      } else {
        CallKeepsLevels(l, a, b, e.key, e.at);
      }
      LevelsChain(l, a, After(l, tr, {}, n), b, After(l, tr, skip, n), e.at, now);
    }
  }

  /** Either both sides moved together, or each side moved invisibly or not at all. */
  lemma LevelsChain(l: Limits, a: Buckets, a': Buckets, b: Buckets, b': Buckets, now: real, later: real)
    requires now <= later
    requires SameLevels(l, a', b', now)
             || (SameLevels(l, a, b, now) && SameLevels(l, a, a', now) && (b' == b || SameLevels(l, b, b', now)))
    ensures SameLevels(l, a', b', later)
  {
    forall k, t | t >= later
      ensures Level(l, a', k, t) == Level(l, b', k, t)
    {
      assert SameLevels(l, a', b', now) || Level(l, a, k, t) == Level(l, b, k, t);
    }
  }

  /** Dropping any set of denied calls and eviction ticks from a trace leaves the verdict of
      every other call unchanged. */
  lemma DroppedEventsAreNoOps(l: Limits, tr: seq<Event>, skip: set<nat>, n: nat)
    requires l.Valid() && Monotone(tr) && n < |tr| && tr[n].Call?
    requires Droppable(l, tr, skip) && Unobservable(l, tr)
    ensures VerdictAt(l, tr, skip, n) == VerdictAt(l, tr, {}, n)
  {
    var at := tr[n].at;
    assert n > 0 ==> tr[n - 1].at <= at;
    DroppingKeepsLevels(l, tr, skip, n, at);
    assert Level(l, After(l, tr, {}, n), tr[n].key, at) == Level(l, After(l, tr, skip, n), tr[n].key, at);
  }

  // ---- When eviction is invisible ------------------------------------------------------

  /** On every trace, evicting or never evicting gives every call the same verdict. */
  ghost predicate EvictionInvisible(l: Limits) {
    forall tr: seq<Event>, n: nat :: Monotone(tr) && n < |tr| && tr[n].Call? ==>
      VerdictAt(l, tr, {}, n) == VerdictAt(l, tr, Ticks(tr), n)
  }

  /** Spend the burst at time zero, then go on with `tail`. */
  ghost function SpendThen(l: Limits, tail: seq<Event>): (tr: seq<Event>)
    requires l.burst >= 1
  {
    seq(l.burst, _ => Call("k", 0.0)) + tail
  }

  lemma {:induction false} Spent(l: Limits, tail: seq<Event>, skip: set<nat>, n: nat)
    requires l.Valid() && 1 <= n <= l.burst && forall i :: i in skip ==> i >= l.burst
    ensures After(l, SpendThen(l, tail), skip, n) == map["k" := Bucket(l.Capacity() - n as real, 0.0)]
  {
    var tr := SpendThen(l, tail);
    assert tr[n - 1] == Call("k", 0.0);
    if n > 1 {
      Spent(l, tail, skip, n - 1);
    } else {
      assert After(l, tr, skip, 0) == map[];
    }
  }

  /** When the burst outlasts ten minutes of refill, eviction hands a spent key its burst
      early. */
  lemma EarlyRefillObservable(l: Limits) returns (tr: seq<Event>, n: nat)
    requires l.Valid() && l.Capacity() > STALE * l.rate
    ensures Monotone(tr) && n < |tr| && tr[n].Call?
    ensures VerdictAt(l, tr, {}, n) == Verdict(l.burst - 1, true)
    ensures VerdictAt(l, tr, Ticks(tr), n) != Verdict(l.burst - 1, true)
  {
    var full := l.Capacity() / l.rate;
    assert full * l.rate == l.Capacity();
    assert full > STALE by {
      if full <= STALE {
        RefillNonNegative(l, full, STALE);
      }
    }
    var at := (STALE + full) / 2.0;
    var tail := [Tick(at), Call("k", at)];
    tr, n := SpendThen(l, tail), l.burst + 1;
    assert tr[l.burst] == Tick(at) && tr[n] == Call("k", at);
    forall i | 0 <= i < |tr|
      ensures tr[i].at == if i < l.burst then 0.0 else at
    {
    }
    assert Ticks(tr) == {l.burst};
    Spent(l, tail, {}, l.burst);
    Spent(l, tail, Ticks(tr), l.burst);
    var spent := map["k" := Bucket(0.0, 0.0)];
    assert After(l, tr, {}, n) == Swept(spent, at) == map[];
    assert After(l, tr, Ticks(tr), n) == spent;
    assert at * l.rate < l.Capacity() by {
      assert (full - at) * l.rate > 0.0;
      assert (full - at) * l.rate == full * l.rate - at * l.rate;
    }
  }

  /** Eviction is invisible exactly when ten minutes of refill make up a whole burst. */
  lemma EvictionInvisibleIff(l: Limits)
    requires l.Valid()
    ensures EvictionInvisible(l) <==> l.burst as real <= 600.0 * l.rate
  {
    if l.Capacity() <= STALE * l.rate {
      forall tr: seq<Event>, n: nat | Monotone(tr) && n < |tr| && tr[n].Call?
        ensures VerdictAt(l, tr, {}, n) == VerdictAt(l, tr, Ticks(tr), n)
      {
        DroppedEventsAreNoOps(l, tr, Ticks(tr), n);
      }
    } else {
      var tr, n := EarlyRefillObservable(l);
    }
  }

  // ---- When denials are no-ops ---------------------------------------------------------

  /** On every trace, dropping any set of denied calls leaves every verdict unchanged. */
  ghost predicate DenialsAreNoOps(l: Limits) {
    forall tr: seq<Event>, skip: set<nat>, n: nat ::
      Monotone(tr) && n < |tr| && tr[n].Call? && Denials(l, tr, skip) ==>
        VerdictAt(l, tr, skip, n) == VerdictAt(l, tr, {}, n)
  }

  ghost predicate Denials(l: Limits, tr: seq<Event>, skip: set<nat>) {
    forall i :: i in skip ==> i < |tr| && tr[i].Call? && !VerdictAt(l, tr, {}, i).ok
  }

  lemma FullLevel(l: Limits, buckets: Buckets, key: string, t: real)
    requires l.Valid()
    ensures key !in buckets ==> Decide(Level(l, buckets, key, t)) == Verdict(l.burst - 1, true)
    ensures Level(l, buckets, key, t) < l.Capacity() ==>
              Decide(Level(l, buckets, key, t)) != Verdict(l.burst - 1, true)
  {
  }

  /** A denied call soon after the burst renews the idle time: without it the key is evicted
      and has its burst back, with it the key is kept and has not. */
  lemma DenialKeepsBucket(l: Limits, e: real, at: real) returns (tr: seq<Event>, n: nat)
    requires l.Valid() && 0.0 < e && at == STALE + e / 2.0 && e < at
    requires l.Refill(e) < 1.0 && l.Refill(at) < l.Capacity()
    ensures Monotone(tr) && n < |tr| && tr[n].Call? && Denials(l, tr, {l.burst})
    ensures VerdictAt(l, tr, {l.burst}, n) != VerdictAt(l, tr, {}, n)
  {
    var tail := [Call("k", e), Tick(at), Call("k", at)];
    tr, n := SpendThen(l, tail), l.burst + 2;
    forall i | 0 <= i < |tr|
      ensures tr[i].at == if i < l.burst then 0.0 else if i == l.burst then e else at
    {
    }
    assert tr[l.burst] == tail[0] && tr[l.burst + 1] == tail[1] && tr[n] == tail[2];
    Spent(l, tail, {}, l.burst);
    Spent(l, tail, {l.burst}, l.burst);
    hide Limits.Refill;
    var spent, denied := map["k" := Bucket(0.0, 0.0)], map["k" := Bucket(l.Refill(e), e)];
    RefillNonNegative(l, 0.0, e);
    RefillIsAdditive(l, 0.0, e, at);
    assert e - 0.0 == e && at - 0.0 == at;
    assert Level(l, spent, "k", e) == l.Refill(e);
    assert After(l, tr, {}, l.burst + 1) == Called(l, spent, "k", e) == denied;
    assert After(l, tr, {}, n) == Swept(denied, at) == denied;
    assert After(l, tr, {l.burst}, l.burst + 1) == spent;
    assert After(l, tr, {l.burst}, n) == Swept(spent, at) == map[];
    assert Level(l, denied, "k", at) == l.Refill(at);
    FullLevel(l, denied, "k", at);
    FullLevel(l, map[], "k", at);
  }

  /** A denied call is a no-op on every trace exactly when ten minutes of refill make up a
      whole burst: otherwise it can postpone an eviction. */
  lemma DenialsAreNoOpsIff(l: Limits)
    requires l.Valid()
    ensures DenialsAreNoOps(l) <==> l.burst as real <= 600.0 * l.rate
  {
    if l.Capacity() <= STALE * l.rate {
      forall tr: seq<Event>, skip: set<nat>, n: nat |
        Monotone(tr) && n < |tr| && tr[n].Call? && Denials(l, tr, skip)
        ensures VerdictAt(l, tr, skip, n) == VerdictAt(l, tr, {}, n)
      {
        DroppedEventsAreNoOps(l, tr, skip, n);
      }
    } else {
      var e := SmallDelay(l);
      var tr, n := DenialKeepsBucket(l, e, STALE + e / 2.0);
      assert !DenialsAreNoOps(l);
    }
  }

  /** A delay that refills less than a token and ends well inside the first ten minutes. */
  lemma SmallDelay(l: Limits) returns (e: real)
    requires l.Valid() && l.Capacity() > STALE * l.rate
    ensures 0.0 < e < STALE + e / 2.0
    ensures l.Refill(e) < 1.0 && l.Refill(STALE + e / 2.0) < l.Capacity()
  {
    var token, gap := 1.0 / (2.0 * l.rate), (l.Capacity() - STALE * l.rate) / l.rate;
    assert token * l.rate == 0.5;
    assert gap * l.rate == l.Capacity() - STALE * l.rate;
    e := Min(Min(token, gap), STALE);
    assert (token - e) * l.rate >= 0.0 && (gap - e) * l.rate >= 0.0;
    assert e * l.rate <= token * l.rate && e * l.rate <= gap * l.rate;
    assert (STALE + e / 2.0) * l.rate == STALE * l.rate + (e * l.rate) / 2.0;
  }

  // ---- Retry-After ---------------------------------------------------------------------

  /** The header's promise: a key refused at one call and silent for a second or more is
      admitted at its next. */
  ghost predicate RetryAfterHonest(l: Limits) {
    forall tr: seq<Event>, i: nat, j: nat ::
      && Monotone(tr) && i < j < |tr| && tr[i].Call? && !VerdictAt(l, tr, {}, i).ok
      && CallOf(tr[j], tr[i].key) && Calls(tr, tr[i].key, i + 1, j) == 0 && tr[j].at >= tr[i].at + 1.0
      ==> VerdictAt(l, tr, {}, j).ok
  }

  /** Since a refused call, and with no other, a key has at least the refill since. */
  lemma {:induction false} SilentLevel(l: Limits, tr: seq<Event>, i: nat, n: nat, t: real)
    requires l.Valid() && Monotone(tr) && i < n <= |tr| && tr[n - 1].at <= t
    requires tr[i].Call? && !VerdictAt(l, tr, {}, i).ok && Calls(tr, tr[i].key, i + 1, n) == 0
    ensures Level(l, After(l, tr, {}, n), tr[i].key, t) >= Min(l.Capacity(), l.Refill(t - tr[i].at))
  {
    hide Limits.Refill;
    var key, e, before := tr[i].key, tr[n - 1], After(l, tr, {}, n - 1);
    if n == i + 1 {
      TokensInRange(l, tr, {}, i, e.at);
      LevelInRange(l, before, key, e.at);
      StepLevel(l, before, key, e.at, t);
    } else {
      SilentLevel(l, tr, i, n - 1, t);
    }
  }

  /** `Retry-After: 1` is honest on every trace exactly when a second refills a token. */
  lemma RetryAfterHonestIff(l: Limits)
    requires l.Valid()
    ensures RetryAfterHonest(l) <==> l.rate >= 1.0
  {
    if l.rate >= 1.0 {
      forall tr: seq<Event>, i: nat, j: nat |
        && Monotone(tr) && i < j < |tr| && tr[i].Call? && !VerdictAt(l, tr, {}, i).ok
        && CallOf(tr[j], tr[i].key) && Calls(tr, tr[i].key, i + 1, j) == 0 && tr[j].at >= tr[i].at + 1.0
        ensures VerdictAt(l, tr, {}, j).ok
      {
        SecondRefillsToken(l, tr[j].at - tr[i].at);
        SilentLevel(l, tr, i, j, tr[j].at);
      }
    } else {
      var tr, i, j := RetryTooEarly(l);
      assert !RetryAfterHonest(l);
    }
  }

  lemma SecondRefillsToken(l: Limits, elapsed: real)
    requires l.rate >= 1.0 && elapsed >= 1.0
    ensures l.Refill(elapsed) >= 1.0
  {
    assert (elapsed - 1.0) * l.rate >= 0.0;
  }

  /** A spent key is refused, and refused again a second later. */
  lemma RetryTooEarly(l: Limits) returns (tr: seq<Event>, i: nat, j: nat)
    requires l.Valid() && l.rate < 1.0
    ensures Monotone(tr) && i < j < |tr| && tr[i].Call? && !VerdictAt(l, tr, {}, i).ok
    ensures CallOf(tr[j], tr[i].key) && Calls(tr, tr[i].key, i + 1, j) == 0 && tr[j].at == tr[i].at + 1.0
    ensures !VerdictAt(l, tr, {}, j).ok
  {
    var tail := [Call("k", 0.0), Call("k", 1.0)];
    tr, i, j := SpendThen(l, tail), l.burst, l.burst + 1;
    forall m | 0 <= m < |tr|
      ensures tr[m].at == if m <= i then 0.0 else 1.0
    {
    }
    assert tr[i] == tail[0] && tr[j] == tail[1];
    Spent(l, tail, {}, i);
    var spent := map["k" := Bucket(0.0, 0.0)];
    assert Level(l, spent, "k", 0.0) == 0.0;
    assert After(l, tr, {}, j) == Called(l, spent, "k", 0.0) == spent;
    assert Level(l, spent, "k", 1.0) == l.rate;
  }

  // ---- The exact window characterisation -----------------------------------------------

  /** What the window that opens at the call at position `i` leaves at time `t`, before event
      `n`: a burst and the refill since, less the calls admitted from it. */
  ghost function WindowLeft(l: Limits, tr: seq<Event>, skip: set<nat>, key: string, i: nat, n: nat, t: real): real
    requires i < |tr| && n <= |tr|
  {
    l.Capacity() + l.Refill(t - tr[i].at) - Admissions(l, tr, skip, key, i, n) as real
  }

  lemma StepLevel(l: Limits, buckets: Buckets, key: string, now: real, t: real)
    ensures var level := Level(l, buckets, key, now);
            Level(l, Called(l, buckets, key, now), key, t) == Min(l.Capacity(), Charge(level) + l.Refill(t - now))
  {
    hide Limits.Refill;
  }

  /** The level never exceeds what any window leaves. */
  lemma {:induction false} LevelUnderWindow(l: Limits, tr: seq<Event>, key: string, i: nat, n: nat, t: real)
    requires l.Valid() && Monotone(tr) && i <= n <= |tr| && i < |tr| && CallOf(tr[i], key)
    requires tr[i].at <= t && (n > 0 ==> tr[n - 1].at <= t)
    ensures Level(l, After(l, tr, Ticks(tr), n), key, t) <= WindowLeft(l, tr, Ticks(tr), key, i, n, t)
  {
    hide Limits.Refill;
    var skip := Ticks(tr);
    if n == i {
      RefillNonNegative(l, tr[i].at, t);
    } else {
      var e := tr[n - 1];
      if CallOf(e, key) {
        LevelUnderWindow(l, tr, key, i, n - 1, e.at);
        StepLevel(l, After(l, tr, skip, n - 1), key, e.at, t);
        RefillIsAdditive(l, tr[i].at, e.at, t);
      } else {
        LevelUnderWindow(l, tr, key, i, n - 1, t);
      }
    }
  }

  lemma OtherKeysApart(l: Limits, buckets: Buckets, e: Event, key: string, t: real)
    requires !CallOf(e, key)
    ensures e.Call? ==> Level(l, Step(l, buckets, e), key, t) == Level(l, buckets, key, t)
  {
  }

  lemma AdmissionStep(l: Limits, tr: seq<Event>, skip: set<nat>, key: string, i: nat, n: nat)
    requires i < n <= |tr| && n - 1 !in skip && CallOf(tr[n - 1], key)
    ensures var level := Level(l, After(l, tr, skip, n - 1), key, tr[n - 1].at);
            level - Charge(level)
            == (Admissions(l, tr, skip, key, i, n) - Admissions(l, tr, skip, key, i, n - 1)) as real
  {
    hide Limits.Refill;
  }

  /** The level is the burst, or exactly what some earlier window leaves. */
  lemma {:induction false} LevelMeetsWindow(l: Limits, tr: seq<Event>, key: string, n: nat, t: real) returns (i: nat)
    requires l.Valid() && Monotone(tr) && n <= |tr|
    requires n > 0 ==> tr[n - 1].at <= t
    ensures i <= n
    ensures i == n ==> Level(l, After(l, tr, Ticks(tr), n), key, t) == l.Capacity()
    ensures i < n ==> CallOf(tr[i], key) &&
                      Level(l, After(l, tr, Ticks(tr), n), key, t) == WindowLeft(l, tr, Ticks(tr), key, i, n, t)
  {
    hide Limits.Refill;
    var skip := Ticks(tr);
    if n == 0 {
      i := 0;
    } else {
      hide Charge, Decide, Level, Called;
      var e := tr[n - 1];
      if CallOf(e, key) {
        i := LevelMeetsWindow(l, tr, key, n - 1, e.at);
        StepLevel(l, After(l, tr, skip, n - 1), key, e.at, t);
        RefillIsAdditive(l, tr[i].at, e.at, t);
        assert n - 1 !in skip;
        AdmissionStep(l, tr, skip, key, i, n);
        if Level(l, After(l, tr, skip, n), key, t) == l.Capacity() {
          i := n;
        }
      } else {
        i := LevelMeetsWindow(l, tr, key, n - 1, t);
        OtherKeysApart(l, After(l, tr, skip, n - 1), e, key, t);
        if i == n - 1 {
          i := n;
        }
      }
    }
  }

  /** Exact characterisation: before a call, the tokens of its key are the minimum over the
      windows that open at its calls so far, this one included. */
  lemma TokensAreWindowMinimum(l: Limits, tr: seq<Event>, n: nat) returns (best: nat)
    requires l.Valid() && Monotone(tr) && n < |tr| && tr[n].Call?
    ensures var level := Level(l, After(l, tr, Ticks(tr), n), tr[n].key, tr[n].at);
            && best <= n && CallOf(tr[best], tr[n].key)
            && level == WindowLeft(l, tr, Ticks(tr), tr[n].key, best, n, tr[n].at)
            && forall i :: 0 <= i <= n && CallOf(tr[i], tr[n].key) ==>
                 level <= WindowLeft(l, tr, Ticks(tr), tr[n].key, i, n, tr[n].at)
  {
    hide Limits.Refill;
    assert n > 0 ==> tr[n - 1].at <= tr[n].at;
    best := LevelMeetsWindow(l, tr, tr[n].key, n, tr[n].at);
    RefillNonNegative(l, tr[n].at, tr[n].at);
    forall i | 0 <= i <= n && CallOf(tr[i], tr[n].key)
      ensures Level(l, After(l, tr, Ticks(tr), n), tr[n].key, tr[n].at)
              <= WindowLeft(l, tr, Ticks(tr), tr[n].key, i, n, tr[n].at)
    {
      LevelUnderWindow(l, tr, tr[n].key, i, n, tr[n].at);
    }
  }

  lemma {:induction false} SameAdmissions(l: Limits, tr: seq<Event>, key: string, i: nat, n: nat)
    requires l.Valid() && Monotone(tr) && n <= |tr| && Unobservable(l, tr)
    ensures Admissions(l, tr, {}, key, i, n) == Admissions(l, tr, Ticks(tr), key, i, n)
  {
    hide Limits.Refill;
    if n > i {
      SameAdmissions(l, tr, key, i, n - 1);
      if tr[n - 1].Call? {
        DroppedEventsAreNoOps(l, tr, Ticks(tr), n - 1);
      }
    }
  }

  /** With eviction running but unobservable, a call is admitted exactly when no window ending
      at it would exceed a burst plus the refill over its length. */
  lemma AdmittedIffNoWindowExceeded(l: Limits, tr: seq<Event>, n: nat)
    requires l.Valid() && Monotone(tr) && n < |tr| && tr[n].Call? && Unobservable(l, tr)
    ensures VerdictAt(l, tr, {}, n).ok <==>
            forall i :: 0 <= i <= n && CallOf(tr[i], tr[n].key) ==>
              Admissions(l, tr, {}, tr[n].key, i, n) as real + 1.0
              <= l.Capacity() + l.Refill(tr[n].at - tr[i].at)
  {
    hide Limits.Refill;
    hide Level, After, Admissions;
    var key := tr[n].key;
    DroppedEventsAreNoOps(l, tr, Ticks(tr), n);
    var best := TokensAreWindowMinimum(l, tr, n);
    forall i | 0 <= i <= n && CallOf(tr[i], key)
      ensures WindowLeft(l, tr, Ticks(tr), key, i, n, tr[n].at)
              == l.Capacity() + l.Refill(tr[n].at - tr[i].at) - Admissions(l, tr, {}, key, i, n) as real
    {
      SameAdmissions(l, tr, key, i, n);
    }
    assert VerdictAt(l, tr, {}, n).ok <==> WindowLeft(l, tr, Ticks(tr), key, best, n, tr[n].at) >= 1.0;
  }

  // ---- The admission bound with eviction -----------------------------------------------

  /** What an eviction hands a key beyond ten minutes of refill. */
  function Gift(l: Limits): (gift: real)
    ensures gift >= 0.0 && gift >= l.Capacity() - STALE * l.rate
  {
    if l.Capacity() <= STALE * l.rate then 0.0 else l.Capacity() - STALE * l.rate
  }

  function Gifts(l: Limits, count: int): real {
    Gift(l) * count as real
  }

  /** The most a key can be admitted over `d` seconds, whatever is evicted meanwhile. */
  function AdmissionLimit(l: Limits, d: real): real {
    l.Capacity() + l.Refill(d) + Gifts(l, (d / STALE).Floor)
  }

  lemma LimitGrows(l: Limits, d: real, d': real)
    requires l.Valid() && 0.0 <= d <= d'
    ensures AdmissionLimit(l, d') >= AdmissionLimit(l, d) + l.Refill(d' - d)
    ensures AdmissionLimit(l, d) >= l.Capacity()
    ensures d' > d + STALE ==> AdmissionLimit(l, d') >= AdmissionLimit(l, d) + l.Capacity()
  {
    hide Limits.Refill;
    var f, f' := (d / STALE).Floor, (d' / STALE).Floor;
    hide Gifts, Gift;
    FloorGrows(d, d');
    RefillNonNegative(l, 0.0, d);
    RefillIsAdditive(l, 0.0, d, d');
    GiftsGrow(l, f, f');
    GiftsGrow(l, 0, f);
    assert d - 0.0 == d && d' - 0.0 == d';
    if d' > d + STALE {
      TenMinutesRefill(l, d' - d);
    }
  }

  lemma TenMinutesRefill(l: Limits, d: real)
    requires l.Valid() && d > STALE
    ensures l.Refill(d) >= STALE * l.rate
  {
    assert (d - STALE) * l.rate >= 0.0;
  }

  lemma FloorGrows(d: real, d': real)
    requires 0.0 <= d <= d'
    ensures 0 <= (d / STALE).Floor <= (d' / STALE).Floor
    ensures d' > d + STALE ==> (d / STALE).Floor < (d' / STALE).Floor
  {
    if d' > d + STALE {
      assert d' / STALE > d / STALE + 1.0;
    }
  }

  lemma GiftsGrow(l: Limits, f: int, f': int)
    requires f <= f'
    ensures Gifts(l, f') >= Gifts(l, f)
    ensures f < f' ==> Gifts(l, f') >= Gifts(l, f) + Gift(l)
    ensures f == 0 ==> Gifts(l, f) == 0.0
  {
    var g, a, b := Gift(l), f as real, f' as real;
    ProductGrows(g, a, b);
    if f < f' {
      ProductGrows(g, a + 1.0, b);
      assert g * (a + 1.0) == g * a + g;
    }
  }

  lemma ProductGrows(c: real, a: real, b: real)
    requires c >= 0.0 && a <= b
    ensures c * a <= c * b
  {
    assert c * b == c * a + c * (b - a);
  }

  /** What is already admitted plus what a key can still spend stays under the limit: measured
      up to the last call while the bucket lives, up to now once it is evicted. */
  ghost predicate WithinLimit(l: Limits, buckets: Buckets, key: string, from: real, now: real, admitted: nat) {
    || admitted == 0
    || (from <= now &&
        if key in buckets
        then from <= buckets[key].lastSeen &&
             admitted as real + buckets[key].tokens <= AdmissionLimit(l, buckets[key].lastSeen - from)
        else admitted as real + l.Capacity() <= AdmissionLimit(l, now - from))
  }

  lemma CallWithinLimit(l: Limits, buckets: Buckets, key: string, from: real, now: real, admitted: nat, at: real)
    requires l.Valid() && now <= at && from <= at && InRange(l, buckets, now)
    requires WithinLimit(l, buckets, key, from, now, admitted)
    ensures var level := Level(l, buckets, key, at);
            var admitted' := admitted + if Decide(level).ok then 1 else 0;
            WithinLimit(l, Called(l, buckets, key, at), key, from, at, admitted')
  {
    hide Limits.Refill;
    hide AdmissionLimit;
    if admitted == 0 {
      LimitGrows(l, 0.0, at - from);
      LimitGrows(l, at - from, at - from);
    } else if key in buckets {
      LimitGrows(l, buckets[key].lastSeen - from, at - from);
    } else {
      LimitGrows(l, now - from, at - from);
      RefillNonNegative(l, now - from, at - from);
    }
  }

  lemma TickWithinLimit(l: Limits, buckets: Buckets, key: string, from: real, now: real, admitted: nat, at: real)
    requires l.Valid() && now <= at && InRange(l, buckets, now)
    requires WithinLimit(l, buckets, key, from, now, admitted)
    ensures WithinLimit(l, Swept(buckets, at), key, from, at, admitted)
  {
    hide Limits.Refill;
    hide AdmissionLimit;
    if admitted > 0 {
      if key in buckets {
        LimitGrows(l, buckets[key].lastSeen - from, at - from);
      } else {
        LimitGrows(l, now - from, at - from);
        RefillNonNegative(l, now - from, at - from);
      }
    }
  }

  lemma {:induction false} AdmissionsStayWithinLimit(l: Limits, tr: seq<Event>, key: string, from: real, to: real, n: nat)
    requires l.Valid() && Monotone(tr) && 0 < n <= |tr| && tr[n - 1].at <= to
    ensures WithinLimit(l, After(l, tr, {}, n), key, from, tr[n - 1].at, AdmissionsWithin(l, tr, key, from, to, n))
  {
    hide Limits.Refill;
    hide AdmissionLimit;
    var e, now := tr[n - 1], if n == 1 then tr[0].at else tr[n - 2].at;
    if n > 1 {
      AdmissionsStayWithinLimit(l, tr, key, from, to, n - 1);
    }
    var before, admitted := After(l, tr, {}, n - 1), AdmissionsWithin(l, tr, key, from, to, n - 1);
    TokensInRange(l, tr, {}, n - 1, now);
    if e.Tick? {
      TickWithinLimit(l, before, key, from, now, admitted, e.at);
    } else if e.key == key {
      if from <= e.at {
        CallWithinLimit(l, before, key, from, now, admitted, e.at);
      } else {
        NothingBefore(l, tr, key, from, to, n - 1);
      }
    } else if admitted > 0 && key !in before {
      LimitGrows(l, now - from, e.at - from);
      RefillNonNegative(l, now - from, e.at - from);
    }
  }

  lemma {:induction false} NothingBefore(l: Limits, tr: seq<Event>, key: string, from: real, to: real, n: nat)
    requires Monotone(tr) && n < |tr| && tr[n].at < from
    ensures AdmissionsWithin(l, tr, key, from, to, n) == 0
  {
    hide Limits.Refill;
    hide AdmissionLimit;
    if n > 0 {
      assert tr[n - 1].at <= tr[n].at;
      NothingBefore(l, tr, key, from, to, n - 1);
    }
  }

  /** Unconditional bound: with eviction at any moments, a key is admitted at most
      burst + rate * d + floor(d / 600) * max(0, burst - 600 * rate) times in any window of
      d seconds. */
  lemma {:induction false} AdmissionBound(l: Limits, tr: seq<Event>, key: string, from: real, to: real, n: nat)
    requires l.Valid() && Monotone(tr) && n <= |tr| && from <= to
    ensures AdmissionsWithin(l, tr, key, from, to, n) as real <= AdmissionLimit(l, to - from)
  {
    hide Limits.Refill;
    hide AdmissionLimit;
    if n == 0 {
      LimitGrows(l, 0.0, to - from);
      LimitGrows(l, to - from, to - from);
    } else if tr[n - 1].at > to {
      AdmissionBound(l, tr, key, from, to, n - 1);
    } else {
      AdmissionsStayWithinLimit(l, tr, key, from, to, n);
      TokensInRange(l, tr, {}, n, tr[n - 1].at);
      var buckets := After(l, tr, {}, n);
      LimitGrows(l, to - from, to - from);
      if AdmissionsWithin(l, tr, key, from, to, n) > 0 {
        var since := if key in buckets then buckets[key].lastSeen - from else tr[n - 1].at - from;
        LimitGrows(l, since, to - from);
        RefillNonNegative(l, since, to - from);
      }
    }
  }

  /** When ten minutes refill a burst, eviction adds nothing to the classical token-bucket
      bound; in any case it adds less than one burst every ten minutes. */
  lemma EvictionCost(l: Limits, d: real)
    requires l.Valid() && d >= 0.0
    ensures l.Capacity() <= STALE * l.rate ==> AdmissionLimit(l, d) == l.Capacity() + l.Refill(d)
    ensures AdmissionLimit(l, d) <= l.Capacity() * (1.0 + (d / STALE).Floor as real) + l.Refill(d)
  {
    hide Limits.Refill;
    var f := (d / STALE).Floor as real;
    assert STALE * l.rate >= 0.0;
    ProductGrows(f, Gift(l), l.Capacity());
    assert f * l.Capacity() == l.Capacity() * f && f * Gift(l) == Gift(l) * f;
    assert l.Capacity() * (1.0 + f) == l.Capacity() + l.Capacity() * f;
  }

  /** Chat and speech routes have separate limiters, so the gateway as a whole admits a key at
      most twice that. */
  lemma GatewayAdmissionBound(l: Limits, chat: seq<Event>, speech: seq<Event>, key: string, from: real, to: real)
    requires l.Valid() && Monotone(chat) && Monotone(speech) && from <= to
    ensures (AdmissionsWithin(l, chat, key, from, to, |chat|) + AdmissionsWithin(l, speech, key, from, to, |speech|)) as real
            <= 2.0 * AdmissionLimit(l, to - from)
  {
    hide Limits.Refill;
    hide AdmissionLimit;
    AdmissionBound(l, chat, key, from, to, |chat|);
    AdmissionBound(l, speech, key, from, to, |speech|);
  }

  // ---- The admission bound is attained -------------------------------------------------

  /** `count` times over: spend a whole burst at once, then have the bucket evicted. */
  ghost function SpendingSpree(l: Limits, gap: real, count: nat): seq<Event>
    requires l.burst >= 1
  {
    if count == 0 then []
    else SpendingSpree(l, gap, count - 1) + Spend(l, Start(gap, count - 1), Start(gap, count))
  }

  ghost function Spend(l: Limits, at: real, evictAt: real): seq<Event>
    requires l.burst >= 1
  {
    seq(l.burst, _ => Call("k", at)) + [Tick(evictAt)]
  }

  function Start(gap: real, i: nat): real {
    gap * i as real
  }

  lemma {:induction false} PrefixDecides(l: Limits, tr: seq<Event>, more: seq<Event>, key: string, from: real, to: real, n: nat)
    requires n <= |tr|
    ensures After(l, tr + more, {}, n) == After(l, tr, {}, n)
    ensures AdmissionsWithin(l, tr + more, key, from, to, n) == AdmissionsWithin(l, tr, key, from, to, n)
  {
    hide Level, Swept, Called;
    if n > 0 {
      assert (tr + more)[n - 1] == tr[n - 1];
      PrefixDecides(l, tr, more, key, from, to, n - 1);
    }
  }

  /** From no bucket at all, a burst of calls at one moment is admitted whole. */
  lemma {:induction false} BurstAdmitted(l: Limits, tr: seq<Event>, base: nat, m: nat, at: real, to: real)
    requires l.Valid() && m <= l.burst && base + m <= |tr| && 0.0 <= at <= to
    requires After(l, tr, {}, base) == map[]
    requires forall i :: base <= i < base + m ==> tr[i] == Call("k", at)
    ensures After(l, tr, {}, base + m) == if m == 0 then map[] else map["k" := Bucket(l.Capacity() - m as real, at)]
    ensures AdmissionsWithin(l, tr, "k", 0.0, to, base + m) == AdmissionsWithin(l, tr, "k", 0.0, to, base) + m
  {
    if m > 0 {
      BurstAdmitted(l, tr, base, m - 1, at, to);
      var before := After(l, tr, {}, base + m - 1);
      assert tr[base + m - 1] == Call("k", at);
      RefillNonNegative(l, at, at);
      assert Level(l, before, "k", at) == l.Capacity() - (m - 1) as real;
    }
  }

  lemma StartSteps(gap: real, i: nat)
    requires gap > 0.0
    ensures Start(gap, i + 1) == Start(gap, i) + gap && Start(gap, i) >= 0.0
  {
    assert gap * (i as real + 1.0) == gap * i as real + gap;
  }

  lemma RoundIsMonotone(l: Limits, before: seq<Event>, at: real, evictAt: real)
    requires l.Valid() && at <= evictAt && Monotone(before) && (forall i :: 0 <= i < |before| ==> before[i].at <= at)
    ensures var tr := before + Spend(l, at, evictAt);
            Monotone(tr) && forall i :: 0 <= i < |tr| ==> tr[i].at <= evictAt
  {
    var tr := before + Spend(l, at, evictAt);
    assert forall i :: |before| <= i < |tr| ==> tr[i].at == if i < |tr| - 1 then at else evictAt;
  }

  /** One round, after any trace that left no bucket. */
  lemma RoundAdmitted(l: Limits, before: seq<Event>, at: real, evictAt: real, to: real)
    requires l.Valid() && 0.0 <= at <= to && evictAt > at + STALE
    requires Monotone(before) && (forall i :: 0 <= i < |before| ==> before[i].at <= at)
    requires After(l, before, {}, |before|) == map[]
    ensures var tr := before + Spend(l, at, evictAt);
            && Monotone(tr) && (forall i :: 0 <= i < |tr| ==> tr[i].at <= evictAt)
            && After(l, tr, {}, |tr|) == map[]
            && AdmissionsWithin(l, tr, "k", 0.0, to, |tr|)
               == AdmissionsWithin(l, before, "k", 0.0, to, |before|) + l.burst
  {
    var round, base := Spend(l, at, evictAt), |before|;
    var tr := before + round;
    RoundIsMonotone(l, before, at, evictAt);
    assert forall i :: base <= i < base + l.burst ==> tr[i] == Call("k", at);
    assert tr[base + l.burst] == Tick(evictAt);
    hide Limits.Refill;
    hide Spend, Level, Called, Monotone;
    PrefixDecides(l, before, round, "k", 0.0, to, base);
    BurstAdmitted(l, tr, base, l.burst, at, to);
    assert After(l, tr, {}, |tr|) == Swept(map["k" := Bucket(0.0, at)], evictAt) == map[];
  }

  lemma {:induction false} SpreeAdmitted(l: Limits, gap: real, count: nat, to: real)
    requires l.Valid() && gap > STALE && (count > 0 ==> Start(gap, count - 1) <= to)
    ensures var tr := SpendingSpree(l, gap, count);
            && Monotone(tr) && (forall i :: 0 <= i < |tr| ==> tr[i].at <= Start(gap, count))
            && After(l, tr, {}, |tr|) == map[]
            && AdmissionsWithin(l, tr, "k", 0.0, to, |tr|) == l.burst * count
  {
    hide Monotone, After, AdmissionsWithin, Spend, Start;
    if count == 0 {
      NothingYet(l, to);
    } else {
      StartSteps(gap, count - 1);
      if count > 1 {
        StartSteps(gap, count - 2);
      }
      SpreeAdmitted(l, gap, count - 1, to);
      RoundAdmitted(l, SpendingSpree(l, gap, count - 1), Start(gap, count - 1), Start(gap, count), to);
      assert l.burst * count == l.burst * (count - 1) + l.burst;
    }
  }

  lemma NothingYet(l: Limits, to: real)
    ensures Monotone([]) && After(l, [], {}, 0) == map[] && AdmissionsWithin(l, [], "k", 0.0, to, 0) == 0
  {
  }

  /** A gap just over ten minutes: over all the evictions, the excess refills less than a
      token and stays within ten minutes. */
  lemma JustOverStale(l: Limits, evictions: nat) returns (gap: real)
    requires l.Valid()
    ensures gap > STALE
    ensures Start(gap, evictions) < STALE * (evictions as real + 1.0)
    ensures l.Refill(Start(gap, evictions)) < STALE * l.rate * evictions as real + 1.0
  {
    var n, token := evictions as real + 1.0, 1.0 / (2.0 * l.rate);
    var all := Min(token, STALE / 2.0);
    assert token * l.rate == 0.5;
    assert token > 0.0;
    var share := all / n;
    assert share * n == all && share > 0.0;
    gap := STALE + share;
    var excess := share * evictions as real;
    assert excess == all - share;
    assert Start(gap, evictions) == STALE * evictions as real + excess;
    assert (token - excess) * l.rate >= 0.0;
    assert excess * l.rate <= 0.5;
    assert l.Refill(STALE * evictions as real + excess) == STALE * l.rate * evictions as real + excess * l.rate;
  }

  lemma SpreeLimit(l: Limits, evictions: nat, gap: real)
    requires l.Valid() && l.Capacity() >= STALE * l.rate && gap > STALE
    requires Start(gap, evictions) < STALE * (evictions as real + 1.0)
    requires l.Refill(Start(gap, evictions)) < STALE * l.rate * evictions as real + 1.0
    ensures (Start(gap, evictions) / STALE).Floor == evictions
    ensures AdmissionLimit(l, Start(gap, evictions)) < (l.burst * (evictions + 1)) as real + 1.0
  {
    var d, n := Start(gap, evictions), evictions as real;
    ProductGrows(n, STALE, gap);
    assert d == gap * n == n * gap && n * STALE == STALE * n;
    assert n <= d / STALE < n + 1.0;
    hide Limits.Refill;
    assert Gift(l) * n == l.Capacity() * n - STALE * l.rate * n;
    assert (l.burst * (evictions + 1)) as real == l.Capacity() * (n + 1.0);
    assert l.Capacity() * (n + 1.0) == l.Capacity() * n + l.Capacity();
  }

  /** When ten minutes refill no more than a burst, the bound is attained for every number of
      evictions, ticks coming at the worst moments: no smaller whole number would do. */
  lemma AdmissionBoundAttained(l: Limits, evictions: nat) returns (tr: seq<Event>, d: real)
    requires l.Valid() && l.Capacity() >= STALE * l.rate
    ensures Monotone(tr) && d >= 0.0 && (d / STALE).Floor == evictions
    ensures AdmissionLimit(l, d).Floor == AdmissionsWithin(l, tr, "k", 0.0, d, |tr|)
  {
    hide AdmissionLimit;
    var gap := JustOverStale(l, evictions);
    d, tr := Start(gap, evictions), SpendingSpree(l, gap, evictions + 1);
    StartSteps(gap, evictions);
    SpreeLimit(l, evictions, gap);
    SpreeAdmitted(l, gap, evictions + 1, d);
    AdmissionBound(l, tr, "k", 0.0, d, |tr|);
  }

  // ---- The remaining count is a promise ------------------------------------------------

  lemma LevelGrows(l: Limits, buckets: Buckets, key: string, t: real, t': real)
    requires l.Valid() && t <= t'
    ensures Level(l, buckets, key, t) <= Level(l, buckets, key, t')
  {
    hide Limits.Refill;
    if key in buckets {
      RefillIsAdditive(l, buckets[key].lastSeen, t, t');
      RefillNonNegative(l, t, t');
    }
  }

  /** After an admitted call, each later call of the key costs at most one token. */
  lemma {:induction false} PromiseCarries(l: Limits, tr: seq<Event>, i: nat, n: nat, t: real)
    requires l.Valid() && Monotone(tr) && i < n <= |tr| && tr[n - 1].at <= t
    requires tr[i].Call? && VerdictAt(l, tr, {}, i).ok
    ensures Level(l, After(l, tr, {}, n), tr[i].key, t)
            >= (VerdictAt(l, tr, {}, i).remaining - Calls(tr, tr[i].key, i + 1, n)) as real
  {
    hide Limits.Refill;
    var key, e, before := tr[i].key, tr[n - 1], After(l, tr, {}, n - 1);
    TokensInRange(l, tr, {}, n - 1, e.at);
    LevelInRange(l, before, key, e.at);
    if n == i + 1 {
      StepLevel(l, before, key, e.at, t);
      RefillNonNegative(l, e.at, t);
    } else {
      PromiseCarries(l, tr, i, n - 1, e.at);
      if CallOf(e, key) {
        StepLevel(l, before, key, e.at, t);
        RefillNonNegative(l, e.at, t);
      } else {
        LevelGrows(l, before, key, e.at, t);
        RemainingUnderBurst(l, tr, i);
      }
    }
  }

  lemma RemainingUnderBurst(l: Limits, tr: seq<Event>, i: nat)
    requires l.Valid() && i < |tr| && tr[i].Call?
    ensures VerdictAt(l, tr, {}, i).remaining as real <= l.Capacity()
  {
    hide Limits.Refill;
  }

  /** The count returned with an admission is a sound promise: that many further calls of the
      key are all admitted, at any later times, whatever else happens in between. */
  lemma RemainingIsPromised(l: Limits, tr: seq<Event>, i: nat, j: nat)
    requires l.Valid() && Monotone(tr) && i < j < |tr|
    requires tr[i].Call? && VerdictAt(l, tr, {}, i).ok && CallOf(tr[j], tr[i].key)
    requires Calls(tr, tr[i].key, i + 1, j) < VerdictAt(l, tr, {}, i).remaining
    ensures VerdictAt(l, tr, {}, j).ok
  {
    hide Limits.Refill;
    assert tr[j - 1].at <= tr[j].at;
    PromiseCarries(l, tr, i, j, tr[j].at);
  }

  lemma {:induction false} SameInstantLevel(l: Limits, tr: seq<Event>, i: nat, n: nat)
    requires l.Valid() && Monotone(tr) && i < n <= |tr| && tr[n - 1].at == tr[i].at
    requires tr[i].Call? && VerdictAt(l, tr, {}, i).ok
    requires Calls(tr, tr[i].key, i + 1, n) <= VerdictAt(l, tr, {}, i).remaining
    ensures var key, buckets := tr[i].key, After(l, tr, {}, n);
            && key in buckets && buckets[key].lastSeen == tr[i].at
            && buckets[key].tokens
               == Level(l, After(l, tr, {}, i), key, tr[i].at) - 1.0 - Calls(tr, key, i + 1, n) as real
  {
    hide Limits.Refill;
    if n > i + 1 {
      assert tr[i].at <= tr[n - 2].at <= tr[n - 1].at;
      SameInstantLevel(l, tr, i, n - 1);
      RefillNonNegative(l, tr[i].at, tr[n - 1].at);
    }
  }

  /** The promise is tight: with no time passing, the next call after the promised ones is
      refused. */
  lemma PromiseIsTight(l: Limits, tr: seq<Event>, i: nat, j: nat)
    requires l.Valid() && Monotone(tr) && i < j < |tr| && tr[j].at == tr[i].at
    requires tr[i].Call? && VerdictAt(l, tr, {}, i).ok && CallOf(tr[j], tr[i].key)
    requires Calls(tr, tr[i].key, i + 1, j) == VerdictAt(l, tr, {}, i).remaining
    ensures !VerdictAt(l, tr, {}, j).ok
  {
    hide Limits.Refill;
    assert tr[i].at <= tr[j - 1].at <= tr[j].at;
    SameInstantLevel(l, tr, i, j);
    RefillNonNegative(l, tr[i].at, tr[j].at);
  }
}
