// The dispatch protocol as a state machine. Selecting a backend and counting the request
// against it are two separate critical sections, so any number of other requests may act
// between them; each critical section is one step here.
module Dispatch {
  import opened Basics
  import opened LoadBalancing

  /** A request that has been given a backend: not yet counted, or counted and in flight. */
  datatype Phase = Chosen(name: string) | Serving(name: string)

  datatype State = State(active: Loads, rr: uint64, requests: map<nat, Phase>)

  datatype Event =
    | Select(id: nat, names: seq<string>)
    | Acquire(id: nat)
    | Release(id: nat)
    | Idle

  ghost predicate Step(s: State, e: Event, s': State) {
    match e
    case Select(id, names) =>
      && id !in s.requests && names != [] && Distinct(names)
      && s' == State(s.active, NextTurn(s.rr, names),
                     s.requests[id := Chosen(Choose(s.active, s.rr, names))])
    case Acquire(id) =>
      && id in s.requests && s.requests[id].Chosen?
      && s' == s.(active := Acquired(s.active, s.requests[id].name),
                  requests := s.requests[id := Serving(s.requests[id].name)])
    case Release(id) =>
      && id in s.requests && s.requests[id].Serving?
      && s' == s.(active := Released(s.active, s.requests[id].name), requests := s.requests - {id})
    case Idle => s' == s
  }

  datatype Run = Run(states: seq<State>, events: seq<Event>) {
    ghost predicate Valid() {
      && |states| == |events| + 1
      && states[0].requests == map[]
      && forall i :: 0 <= i < |events| ==> Step(states[i], events[i], states[i + 1])
    }
  }

  // ---- Counting requests -----------------------------------------------------------

  /** Requests in flight on `name`. */
  ghost function ServingAt(s: State, name: string): set<nat> {
    set id | id in s.requests && s.requests[id] == Serving(name)
  }

  /** Requests between Select and Acquire that chose `name`. */
  ghost function ChosenAt(s: State, name: string): set<nat> {
    set id | id in s.requests && s.requests[id] == Chosen(name)
  }

  ghost function InFlight(s: State): set<nat> {
    set id | id in s.requests && s.requests[id].Serving?
  }

  ghost function Pending(s: State): set<nat> {
    set id | id in s.requests && s.requests[id].Chosen?
  }

  /** What a backend carries or is about to carry. */
  ghost function Commitment(s: State, name: string): int {
    Load(s.active, name) + |ChosenAt(s, name)|
  }

  ghost function ServingAny(s: State, names: seq<string>): set<nat> {
    set id | id in s.requests && s.requests[id].Serving? && s.requests[id].name in names
  }

  lemma SubsetSize<T>(a: set<T>, b: set<T>)
    requires a <= b
    ensures |a| <= |b|
  {
    assert b == a + (b - a);
  }

  lemma ChosenWithinPending(s: State, name: string)
    ensures |ChosenAt(s, name)| <= |Pending(s)|
  {
    SubsetSize(ChosenAt(s, name), Pending(s));
  }

  lemma PendingAndInFlight(s: State)
    ensures |Pending(s)| + |InFlight(s)| == |s.requests|
  {
    assert Pending(s) + InFlight(s) == s.requests.Keys;
    assert Pending(s) !! InFlight(s);
  }

  lemma SelectCounts(s: State, id: nat, names: seq<string>, s': State, n: string)
    requires Step(s, Select(id, names), s')
    ensures ServingAt(s', n) == ServingAt(s, n) && InFlight(s') == InFlight(s)
    ensures |Pending(s')| == |Pending(s)| + 1
    ensures n != Choose(s.active, s.rr, names) ==> ChosenAt(s', n) == ChosenAt(s, n)
  {
    hide Choose, NextTurn;
    assert Pending(s') == Pending(s) + {id};
  }

  lemma AcquireCounts(s: State, id: nat, s': State, n: string)
    requires Step(s, Acquire(id), s')
    ensures var hit := if s.requests[id].name == n then 1 else 0;
            && |ServingAt(s', n)| == |ServingAt(s, n)| + hit
            && |ChosenAt(s', n)| == |ChosenAt(s, n)| - hit
  {
    if s.requests[id].name == n {
      assert ServingAt(s', n) == ServingAt(s, n) + {id};
      assert ChosenAt(s', n) == ChosenAt(s, n) - {id};
    } else {
      assert ServingAt(s', n) == ServingAt(s, n);
      assert ChosenAt(s', n) == ChosenAt(s, n);
    }
  }

  lemma ReleaseCounts(s: State, id: nat, s': State, n: string)
    requires Step(s, Release(id), s')
    ensures var hit := if s.requests[id].name == n then 1 else 0;
            |ServingAt(s', n)| == |ServingAt(s, n)| - hit
    ensures ChosenAt(s', n) == ChosenAt(s, n)
  {
    if s.requests[id].name == n {
      assert ServingAt(s', n) == ServingAt(s, n) - {id};
    } else {
      assert ServingAt(s', n) == ServingAt(s, n);
    }
  }

  // ---- Conservation ----------------------------------------------------------------

  /** The counters say exactly how many requests each backend is serving, on top of the
      loads the run began with. */
  ghost predicate Conserved(initial: Loads, s: State) {
    forall n :: Load(s.active, n) == Load(initial, n) + |ServingAt(s, n)|
  }

  lemma StepConserves(initial: Loads, s: State, e: Event, s': State)
    requires Conserved(initial, s) && Step(s, e, s')
    ensures Conserved(initial, s')
    ensures e.Release? ==> Load(s.active, s.requests[e.id].name) > 0
  {
    forall n
      ensures Load(s'.active, n) == Load(initial, n) + |ServingAt(s', n)|
    {
      match e
      case Select(id, names) => SelectCounts(s, id, names, s', n);
      case Acquire(id) => AcquireCounts(s, id, s', n);
      case Release(id) =>
        assert id in ServingAt(s, s.requests[id].name);
        ReleaseCounts(s, id, s', n);
      case Idle =>
    }
    if e.Release? {
      assert e.id in ServingAt(s, s.requests[e.id].name);
    }
  }

  /** Conservation over every interleaving: each in-flight counter has grown by the number of
      requests that acquired that backend and have not released it, and the guard in Release
      never swallows a decrement. */
  lemma {:induction false} InFlightCountsConserved(run: Run, i: nat)
    requires run.Valid() && i < |run.states|
    ensures Conserved(run.states[0].active, run.states[i])
    ensures i < |run.events| && run.events[i].Release? ==>
              && run.events[i].id in run.states[i].requests
              && Load(run.states[i].active, run.states[i].requests[run.events[i].id].name) > 0
  {
    var initial := run.states[0].active;
    if i == 0 {
      assert forall n :: ServingAt(run.states[0], n) == {};
    } else {
      InFlightCountsConserved(run, i - 1);
      StepConserves(initial, run.states[i - 1], run.events[i - 1], run.states[i]);
    }
    if i < |run.events| {
      assert Step(run.states[i], run.events[i], run.states[i + 1]);
      StepConserves(initial, run.states[i], run.events[i], run.states[i + 1]);
    }
  }

  // ---- Sums over distinct names ----------------------------------------------------

  ghost function SumServing(s: State, names: seq<string>): nat {
    if names == [] then 0 else |ServingAt(s, names[0])| + SumServing(s, names[1..])
  }

  lemma {:induction false} SumIsUnion(s: State, names: seq<string>)
    requires Distinct(names)
    ensures SumServing(s, names) == |ServingAny(s, names)|
  {
    if names == [] {
      assert ServingAny(s, names) == {};
    } else {
      SumIsUnion(s, names[1..]);
      assert ServingAny(s, names) == ServingAt(s, names[0]) + ServingAny(s, names[1..]);
      assert ServingAt(s, names[0]) !! ServingAny(s, names[1..]);
    }
  }

  /** A common lower bound on the counts multiplies up to the sum; one name above the bound
      raises it further. */
  lemma {:induction false} SumFromBelow(s: State, names: seq<string>, low: int, odd: string)
    requires forall n :: n in names ==> low <= |ServingAt(s, n)|
    ensures SumServing(s, names) >= |names| * low
    ensures odd in names && |ServingAt(s, odd)| > low ==> SumServing(s, names) > |names| * low
  {
    if names != [] {
      SumFromBelow(s, names[1..], low, odd);
      assert |names| * low == low + |names[1..]| * low;
    }
  }

  lemma {:induction false} SumFromAbove(s: State, names: seq<string>, high: int, odd: string)
    requires forall n :: n in names ==> |ServingAt(s, n)| <= high
    ensures SumServing(s, names) <= |names| * high
    ensures odd in names && |ServingAt(s, odd)| < high ==> SumServing(s, names) < |names| * high
  {
    if names != [] {
      SumFromAbove(s, names[1..], high, odd);
      assert |names| * high == high + |names[1..]| * high;
    }
  }

  lemma QuotientFromBelow(q: int, a: int, k: int)
    requires k > 0 && k * q <= a
    ensures q <= a / k
  {
    if a / k < q {
      MulMonotone(a / k + 1, q, k);
    }
  }

  lemma QuotientShift(a: int, d: nat, k: int)
    requires k > 0
    ensures (a + d) / k <= a / k + d
  {
    if (a + d) / k > a / k + d {
      MulMonotone(a / k + d + 1, (a + d) / k, k);
      MulMonotone(1, k, d);
    }
  }

  // ---- Load bounds -----------------------------------------------------------------

  /** A chosen backend had at most its even share of the requests in flight. */
  lemma ChosenHasEvenShare(s: State, names: seq<string>, k: nat)
    requires Conserved(map[], s) && Distinct(names) && |names| >= k > 0
    ensures Load(s.active, Choose(s.active, s.rr, names)) <= |InFlight(s)| / k
  {
    var load := Load(s.active, Choose(s.active, s.rr, names));
    SumFromBelow(s, names, load, "");
    SumIsUnion(s, names);
    SubsetSize(ServingAny(s, names), InFlight(s));
    MulMonotone(k, |names|, load);
    QuotientFromBelow(load, |InFlight(s)|, k);
  }

  /** Every candidate list has at least `k` names and at most `waiting` requests are ever
      between Select and Acquire. */
  ghost predicate Contended(run: Run, k: nat, waiting: nat)
    requires run.Valid()
  {
    && k > 0
    && (forall i :: 0 <= i < |run.events| && run.events[i].Select? ==> |run.events[i].names| >= k)
    && (forall i :: 0 <= i < |run.states| ==> |Pending(run.states[i])| <= waiting)
  }

  /** Only a selection of `n` raises what `n` is committed to, and then every addition is a
      request still waiting to be counted. */
  lemma CommitmentStep(s: State, e: Event, s': State, n: string)
    requires Step(s, e, s') && Conserved(map[], s)
    ensures !(e.Select? && n == Choose(s.active, s.rr, e.names)) ==> Commitment(s', n) <= Commitment(s, n)
    ensures e.Select? ==> Commitment(s', n) <= Commitment(s, n) ||
                          Commitment(s', n) <= Load(s.active, Choose(s.active, s.rr, e.names)) + |Pending(s')|
  {
    match e
    case Select(id, names) =>
      SelectCounts(s, id, names, s', n);
      ChosenWithinPending(s', n);
    case Acquire(id) => AcquireCounts(s, id, s', n);
    case Release(id) => ReleaseCounts(s, id, s', n);
    case Idle =>
  }

  /** The load of the backend a selection picks, plus the requests then waiting. */
  ghost function Pressure(s: State, e: Event, s': State): int
    requires Step(s, e, s') && e.Select?
  {
    Load(s.active, Choose(s.active, s.rr, e.names)) + |Pending(s')|
  }

  /** A bound on the pressure of every selection bounds every backend in every state. */
  lemma {:induction false} CommitmentsBounded(run: Run, i: nat, n: string, bound: nat)
    requires run.Valid() && i < |run.states| && run.states[0].active == map[]
    requires forall j :: 0 <= j < |run.events| && run.events[j].Select? ==>
               Pressure(run.states[j], run.events[j], run.states[j + 1]) <= bound
    ensures Commitment(run.states[i], n) <= bound
  {
    if i == 0 {
      assert ChosenAt(run.states[0], n) == {};
    } else {
      CommitmentsBounded(run, i - 1, n, bound);
      InFlightCountsConserved(run, i - 1);
      CommitmentStep(run.states[i - 1], run.events[i - 1], run.states[i], n);
    }
  }

  /** Load bound for every interleaving, with releases in any order: no backend is ever
      committed to more than peak/k + waiting requests, where `peak` bounds the requests in
      flight. */
  lemma LoadBound(run: Run, i: nat, n: string, k: nat, waiting: nat, peak: nat)
    requires run.Valid() && i < |run.states| && run.states[0].active == map[]
    requires Contended(run, k, waiting)
    requires forall j :: 0 <= j < |run.states| ==> |InFlight(run.states[j])| <= peak
    ensures Commitment(run.states[i], n) <= peak / k + waiting
  {
    forall j | 0 <= j < |run.events| && run.events[j].Select?
      ensures Pressure(run.states[j], run.events[j], run.states[j + 1]) <= peak / k + waiting
    {
      InFlightCountsConserved(run, j);
      assert Step(run.states[j], run.events[j], run.states[j + 1]);
      ChosenHasEvenShare(run.states[j], run.events[j].names, k);
      DivMonotone(|InFlight(run.states[j])|, peak, k);
    }
    CommitmentsBounded(run, i, n, peak / k + waiting);
  }

  lemma DivMonotone(a: int, b: int, k: int)
    requires k > 0 && a <= b
    ensures a / k <= b / k
  {
    QuotientFromBelow(a / k, b, k);
  }

  /** (f + p) requests outstanding, p of them uncounted, stay under the outstanding bound. */
  lemma OutstandingShare(f: nat, p: nat, k: nat, waiting: nat, total: nat)
    requires k > 0 && p <= waiting && f + p <= total
    ensures f / k + p <= (total - waiting) / k + waiting
  {
    DivMonotone(f, total - waiting + (waiting - p), k);
    QuotientShift(total - waiting, waiting - p, k);
  }

  lemma SelectWithinTotal(s: State, e: Event, s': State, k: nat, waiting: nat, total: nat)
    requires Conserved(map[], s) && e.Select? && Step(s, e, s') && |e.names| >= k > 0
    requires |Pending(s')| <= waiting && |s'.requests| <= total
    ensures Pressure(s, e, s') <= (total - waiting) / k + waiting
  {
    SelectCounts(s, e.id, e.names, s', "");
    ChosenHasEvenShare(s, e.names, k);
    PendingAndInFlight(s');
    OutstandingShare(|InFlight(s)|, |Pending(s')|, k, waiting, total);
  }

  /** The same bound against the requests outstanding, selected or in flight: with `total`
      bounding those, a backend is committed to at most (total - waiting)/k + waiting. */
  lemma OutstandingBound(run: Run, i: nat, n: string, k: nat, waiting: nat, total: nat)
    requires run.Valid() && i < |run.states| && run.states[0].active == map[]
    requires Contended(run, k, waiting)
    requires forall j :: 0 <= j < |run.states| ==> |run.states[j].requests| <= total
    ensures Commitment(run.states[i], n) <= (total - waiting) / k + waiting
  {
    forall j | 0 <= j < |run.events| && run.events[j].Select?
      ensures Pressure(run.states[j], run.events[j], run.states[j + 1]) <= (total - waiting) / k + waiting
    {
      InFlightCountsConserved(run, j);
      SelectWithinTotal(run.states[j], run.events[j], run.states[j + 1], k, waiting, total);
    }
    OutstandingShare(0, 0, k, waiting, total);
    CommitmentsBounded(run, i, n, (total - waiting) / k + waiting);
  }

  /** When no two requests are between Select and Acquire at once, as if the two were one
      critical section, the bound is the ceiling of the even share. */
  lemma AtomicLoadBound(run: Run, i: nat, n: string, k: nat, total: nat)
    requires run.Valid() && i < |run.states| && run.states[0].active == map[]
    requires Contended(run, k, 1)
    requires forall j :: 0 <= j < |run.states| ==> |run.states[j].requests| <= total
    ensures Commitment(run.states[i], n) <= (total + k - 1) / k
  {
    OutstandingBound(run, i, n, k, 1, total);
    assert total + k - 1 == (total - 1) + k;
    assert ((total - 1) / k + 1) * k == ((total - 1) / k) * k + k;
    QuotientAndRemainder(total + k - 1, k, (total - 1) / k + 1, (total - 1) % k);
  }

  // ---- Balance without releases ----------------------------------------------------

  /** Every selection ranges over the same backends, all equally loaded at the start, and
      nothing is released. */
  ghost predicate FillsOnly(run: Run, names: seq<string>)
    requires run.Valid()
  {
    && Distinct(names) && names != []
    && (forall n, m :: n in names && m in names ==> Load(run.states[0].active, n) == Load(run.states[0].active, m))
    && (forall i :: 0 <= i < |run.events| ==> !run.events[i].Release?)
    && (forall i :: 0 <= i < |run.events| && run.events[i].Select? ==>
          forall n :: n in run.events[i].names <==> n in names)
  }

  lemma BalanceStep(s: State, e: Event, s': State, n: string, m: string, waiting: nat)
    requires Step(s, e, s') && !e.Release? && (e.Select? ==> m in e.names)
    requires Commitment(s, n) <= Load(s.active, m) + waiting && |Pending(s')| <= waiting
    ensures Commitment(s', n) <= Load(s'.active, m) + waiting
  {
    match e
    case Select(id, names) =>
      SelectCounts(s, id, names, s', n);
      ChosenWithinPending(s', n);
    case Acquire(id) => AcquireCounts(s, id, s', n);
    case Idle =>
  }

  /** While nothing is released, a backend is never committed to more than any other
      backend's load plus the number of requests between Select and Acquire. */
  lemma {:induction false} BalanceKept(run: Run, names: seq<string>, i: nat, n: string, m: string, waiting: nat)
    requires run.Valid() && i < |run.states| && FillsOnly(run, names)
    requires n in names && m in names
    requires forall j :: 0 <= j < |run.states| ==> |Pending(run.states[j])| <= waiting
    ensures Commitment(run.states[i], n) <= Load(run.states[i].active, m) + waiting
  {
    if i == 0 {
      assert ChosenAt(run.states[0], n) == {};
    } else {
      BalanceKept(run, names, i - 1, n, m, waiting);
      hide Step, Commitment;
      BalanceStep(run.states[i - 1], run.events[i - 1], run.states[i], n, m, waiting);
    }
  }

  lemma {:induction false} ServesOnlyNames(run: Run, names: seq<string>, i: nat)
    requires run.Valid() && i < |run.states| && FillsOnly(run, names)
    ensures forall id :: id in run.states[i].requests ==> run.states[i].requests[id].name in names
  {
    if i > 0 {
      ServesOnlyNames(run, names, i - 1);
      assert Step(run.states[i - 1], run.events[i - 1], run.states[i]);
    }
  }

  lemma FloorToCeiling(load: int, d: int, k: int)
    requires k > 0 && k * (load - 1) < d < k * (load + 1)
    ensures d / k <= load <= (d + k - 1) / k
  {
    assert k * (load - 1) == k * load - k && k * (load + 1) == k * load + k;
    QuotientFromBelow(load, d + k - 1, k);
    if d / k > load {
      MulMonotone(load + 1, d / k, k);
    }
  }

  /** Dispatching one request at a time from any common load gives every backend the floor or
      the ceiling of its even share of the requests dispatched. */
  lemma EvenSpread(run: Run, names: seq<string>, i: nat, n: string)
    requires run.Valid() && i < |run.states| && FillsOnly(run, names) && n in names
    requires forall j :: 0 <= j < |run.states| ==> |Pending(run.states[j])| <= 1
    ensures var s := run.states[i];
            |InFlight(s)| / |names| <= Load(s.active, n) - Load(run.states[0].active, n)
            <= (|InFlight(s)| + |names| - 1) / |names|
  {
    var s, initial := run.states[i], run.states[0].active;
    var share := Load(s.active, n) - Load(initial, n);
    InFlightCountsConserved(run, i);
    forall m | m in names
      ensures share - 1 <= |ServingAt(s, m)| <= share + 1
    {
      BalanceKept(run, names, i, n, m, 1);
      BalanceKept(run, names, i, m, n, 1);
    }
    SumFromBelow(s, names, share - 1, n);
    SumFromAbove(s, names, share + 1, n);
    SumIsUnion(s, names);
    ServesOnlyNames(run, names, i);
    assert ServingAny(s, names) == InFlight(s);
    FloorToCeiling(share, |InFlight(s)|, |names|);
  }

  // ---- One selection without interruption ----------------------------------------------

  /** What the selection methods of the registries promise, in the protocol's terms: run
      without interruption they are a Select over the candidate list followed by an Acquire. */
  lemma PickIsSelectThenAcquire(s: State, id: nat, order: seq<string>, pick: string, active': Loads, rr': uint64)
    returns (mid: State, s': State)
    requires id !in s.requests && order != [] && Distinct(order)
    requires pick == Choose(s.active, s.rr, order)
    requires active' == Acquired(s.active, pick) && rr' == NextTurn(s.rr, order)
    ensures Step(s, Select(id, order), mid) && Step(mid, Acquire(id), s')
    ensures s'.active == active' && s'.rr == rr' && s'.requests == s.requests[id := Serving(pick)]
  {
    mid := State(s.active, rr', s.requests[id := Chosen(pick)]);
    s' := State(active', rr', mid.requests[id := Serving(pick)]);
    assert s'.requests == s.requests[id := Serving(pick)];
  }

  /** A whole handler run without interruption, the release included, leaves every load and
      every other request as it was. */
  lemma HandlerRestoresLoads(s: State, id: nat, order: seq<string>, n: string) returns (mid: State, busy: State, s': State)
    requires id !in s.requests && order != [] && Distinct(order)
    ensures Step(s, Select(id, order), mid) && Step(mid, Acquire(id), busy) && Step(busy, Release(id), s')
    ensures Load(s'.active, n) == Load(s.active, n) && s'.requests == s.requests
  {
    var pick := Choose(s.active, s.rr, order);
    mid, busy := PickIsSelectThenAcquire(s, id, order, pick, Acquired(s.active, pick), NextTurn(s.rr, order));
    s' := State(Released(busy.active, pick), busy.rr, busy.requests - {id});
    assert s'.requests == s.requests;
  }
}
