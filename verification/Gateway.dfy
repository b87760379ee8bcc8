// Health-gated dispatch: requests read the watchdog one backend at a time, choose among the
// backends they read as healthy, and are then counted and released, while health checks of
// any backend finish at any moment. The balancer protocol is the one in module Dispatch.
module Gateway {
  import opened Basics
  import opened LoadBalancing
  import Dispatch
  import opened Watchdogs

  /** A request building its candidate list: names still to read, names read as healthy. */
  datatype Scan = Scan(rest: seq<string>, healthy: seq<string>)

  datatype State = State(lb: Dispatch.State, health: States, scans: map<nat, Scan>)

  datatype Event =
    | Begin(id: nat, order: seq<string>)
    | ReadHealth(id: nat)
    | Select(id: nat, names: seq<string>)
    | GiveUp(id: nat)
    | Acquire(id: nat)
    | Release(id: nat)
    | Finished(probe: Probe)

  /** What a gateway event does to the balancer. */
  function BalancerEvent(e: Event): Dispatch.Event {
    match e
    case Select(id, names) => Dispatch.Select(id, names)
    case Acquire(id) => Dispatch.Acquire(id)
    case Release(id) => Dispatch.Release(id)
    case _ => Dispatch.Idle
  }

  /** `names` in Select is the whole healthy list for chat and the top score tier for speech;
      either way it is drawn from the names this request read as healthy. */
  ghost predicate Step(threshold: int, s: State, e: Event, s': State) {
    && Dispatch.Step(s.lb, BalancerEvent(e), s'.lb)
    && s'.health == (if e.Finished? then Check(threshold, s.health, e.probe) else s.health)
    && match e
       case Begin(id, order) =>
         && id !in s.scans && id !in s.lb.requests && Distinct(order)
         && s'.scans == s.scans[id := Scan(order, [])]
       case ReadHealth(id) =>
         && id in s.scans && s.scans[id].rest != []
         && s'.scans == s.scans[id := Read(s.scans[id], s.health)]
       case Select(id, names) =>
         && id in s.scans && s.scans[id].rest == []
         && (forall n :: n in names ==> n in s.scans[id].healthy)
         && s'.scans == s.scans - {id}
       case GiveUp(id) => id in s.scans && s.scans[id].rest == [] && s'.scans == s.scans - {id}
       case _ => s'.scans == s.scans
  }

  function Read(scan: Scan, health: States): Scan
    requires scan.rest != []
  {
    Scan(scan.rest[1..],
         if HealthyIn(health, scan.rest[0]) then scan.healthy + [scan.rest[0]] else scan.healthy)
  }

  datatype Run = Run(threshold: int, states: seq<State>, events: seq<Event>) {
    ghost predicate Valid() {
      && |states| == |events| + 1
      && states[0] == State(Dispatch.State(map[], 0, map[]), map[], map[])
      && forall i :: 0 <= i < |events| ==> Step(threshold, states[i], events[i], states[i + 1])
    }

    /** The health checks finished in the first `i` steps. */
    ghost function History(i: nat): seq<Probe>
      requires i <= |events|
    {
      if i == 0 then []
      else if events[i - 1].Finished? then History(i - 1) + [events[i - 1].probe]
      else History(i - 1)
    }

    /** The balancer's view of the run. */
    ghost function Balancer(): Dispatch.Run {
      Dispatch.Run(seq(|states|, i requires 0 <= i < |states| => states[i].lb),
                   seq(|events|, i requires 0 <= i < |events| => BalancerEvent(events[i])))
    }
  }

  /** The balancer's view is a run of the dispatch protocol. */
  lemma BalancerRun(run: Run)
    requires run.Valid()
    ensures run.Balancer().Valid() && run.Balancer().states[0].active == map[]
  {
    var b := run.Balancer();
    forall i | 0 <= i < |b.events|
      ensures Dispatch.Step(b.states[i], b.events[i], b.states[i + 1])
    {
      assert Step(run.threshold, run.states[i], run.events[i], run.states[i + 1]);
    }
  }

  lemma {:induction false} HealthFollowsHistory(run: Run, i: nat)
    requires run.Valid() && i <= |run.events|
    ensures run.states[i].health == StatesAfter(run.threshold, run.History(i))
  {
    hide Dispatch.Step, BalancerEvent, Check;
    if i == 0 {
      NoProbesYet(run.threshold);
    } else {
      hide StatesAfter;
      HealthFollowsHistory(run, i - 1);
      assert Step(run.threshold, run.states[i - 1], run.events[i - 1], run.states[i]);
      if run.events[i - 1].Finished? {
        CheckExtends(run.threshold, run.History(i - 1), run.events[i - 1].probe);
      }
    }
  }

  lemma NoProbesYet(threshold: int)
    ensures StatesAfter(threshold, []) == map[]
  {
  }

  /** At step `i` request `id` read `name` as healthy. */
  ghost predicate ReadHealthyAt(run: Run, i: nat, id: nat, name: string)
    requires run.Valid() && i < |run.events|
  {
    var s := run.states[i];
    && run.events[i] == ReadHealth(id) && id in s.scans
    && s.scans[id].rest != [] && s.scans[id].rest[0] == name
    && HealthyIn(s.health, name)
  }

  /** The read at step `i` belongs to the selection under way before step `j`: the request
      number was not begun afresh in between. */
  ghost predicate SameRequest(run: Run, i: nat, j: nat, id: nat)
    requires run.Valid() && j <= |run.events|
  {
    forall k :: i < k < j ==> !(run.events[k].Begin? && run.events[k].id == id)
  }

  lemma {:induction false} ListedWasRead(run: Run, j: nat, id: nat, name: string) returns (i: nat)
    requires run.Valid() && j <= |run.events|
    requires id in run.states[j].scans && name in run.states[j].scans[id].healthy
    ensures i < j && ReadHealthyAt(run, i, id, name) && SameRequest(run, i, j, id)
  {
    if j == 0 {
      assert false;
    } else {
      var s, e, s' := run.states[j - 1], run.events[j - 1], run.states[j];
      assert Step(run.threshold, s, e, s');
      if id in s.scans && name in s.scans[id].healthy {
        i := ListedWasRead(run, j - 1, id, name);
      } else {
        assert e == ReadHealth(id);
        i := j - 1;
      }
    }
  }

  /** End-to-end safety: in every interleaving of health checks and requests, the backend a
      request is given was read by that request, and at that read it had fewer trailing
      failed checks than the threshold (at least one). */
  lemma ChosenWasHealthyWhenRead(run: Run, j: nat) returns (i: nat)
    requires run.Valid() && j < |run.events| && run.events[j].Select?
    ensures run.events[j].names != []
    ensures var id, lb := run.events[j].id, run.states[j].lb;
            var pick := Choose(lb.active, lb.rr, run.events[j].names);
            && id in run.states[j + 1].lb.requests
            && run.states[j + 1].lb.requests[id] == Dispatch.Chosen(pick)
            && i < j && ReadHealthyAt(run, i, id, pick) && SameRequest(run, i, j, id)
            && Trailing(run.History(i), pick) < Max(run.threshold, 1)
  {
    var s, e := run.states[j], run.events[j];
    assert Step(run.threshold, s, e, run.states[j + 1]);
    var pick := Choose(s.lb.active, s.lb.rr, e.names);
    i := ListedWasRead(run, j, e.id, pick);
    HealthFollowsHistory(run, i);
    HealthIsTrailingRun(run.threshold, run.History(i), pick);
  }

  // ---- Health bounds load --------------------------------------------------------------

  /** What a chat request does with its scan: it scans every registered backend, selects among
      all it read as healthy, and gives up only when it read none as healthy. */
  ghost predicate ChatEvent(registry: set<string>, s: State, e: Event) {
    match e
    case Begin(id, order) => forall n :: n in order <==> n in registry
    case Select(id, names) => id in s.scans && names == s.scans[id].healthy
    case GiveUp(id) => id in s.scans && s.scans[id].healthy == []
    case _ => true
  }

  ghost predicate ChatRun(run: Run, registry: set<string>) {
    run.Valid() && forall i :: 0 <= i < |run.events| ==> ChatEvent(registry, run.states[i], run.events[i])
  }

  /** The registered backends `up` have fewer trailing failed checks than the threshold (at
      least one) all along. */
  ghost predicate StaysUp(run: Run, registry: set<string>, up: set<string>) {
    && ChatRun(run, registry) && up <= registry
    && forall i, n :: 0 <= i <= |run.events| && n in up ==> Trailing(run.History(i), n) < Max(run.threshold, 1)
  }

  /** Nothing in `up` is lost: it is still to be read or was read as healthy. */
  ghost predicate Covers(scan: Scan, up: set<string>) {
    forall n :: n in up ==> n in scan.rest || n in scan.healthy
  }

  lemma ReadCovers(scan: Scan, health: States, up: set<string>)
    requires Covers(scan, up) && scan.rest != []
    requires forall n :: n in up ==> HealthyIn(health, n)
    ensures Covers(Read(scan, health), up)
  {
    assert scan.rest == [scan.rest[0]] + scan.rest[1..];
  }

  lemma UpReadsHealthy(run: Run, registry: set<string>, up: set<string>, i: nat)
    requires StaysUp(run, registry, up) && i <= |run.events|
    ensures forall n :: n in up ==> HealthyIn(run.states[i].health, n)
  {
    HealthFollowsHistory(run, i);
    forall n | n in up
      ensures HealthyIn(run.states[i].health, n)
    {
      HealthIsTrailingRun(run.threshold, run.History(i), n);
    }
  }

  lemma {:induction false} ScansCover(run: Run, registry: set<string>, up: set<string>, i: nat)
    requires StaysUp(run, registry, up) && i < |run.states|
    ensures forall id :: id in run.states[i].scans ==> Covers(run.states[i].scans[id], up)
  {
    if i > 0 {
      var s, e, s' := run.states[i - 1], run.events[i - 1], run.states[i];
      ScansCover(run, registry, up, i - 1);
      UpReadsHealthy(run, registry, up, i - 1);
      assert Step(run.threshold, s, e, s') && ChatEvent(registry, s, e);
      hide Dispatch.Step, BalancerEvent, Check, StaysUp, Read, HealthyIn;
      if e.ReadHealth? {
        ReadCovers(s.scans[e.id], s.health, up);
      }
    }
  }

  lemma {:induction false} NamesWithin(names: set<string>, list: seq<string>)
    requires forall n :: n in names ==> n in list
    ensures |names| <= |list|
  {
    if list != [] {
      NamesWithin(names - {list[0]}, list[1..]);
    } else {
      assert names == {};
    }
  }

  /** Every selection has at least the backends that stay up to choose from. */
  lemma CandidatesCoverUp(run: Run, registry: set<string>, up: set<string>, j: nat)
    requires StaysUp(run, registry, up) && j < |run.events| && run.events[j].Select?
    ensures forall n :: n in up ==> n in run.events[j].names
    ensures |up| <= |run.events[j].names|
  {
    ScansCover(run, registry, up, j);
    assert Step(run.threshold, run.states[j], run.events[j], run.states[j + 1]);
    assert ChatEvent(registry, run.states[j], run.events[j]);
    assert Covers(run.states[j].scans[run.events[j].id], up);
    NamesWithin(up, run.events[j].names);
  }

  /** While some registered backend stays up, no chat request is turned away. */
  lemma NoneTurnedAway(run: Run, registry: set<string>, up: set<string>, j: nat)
    requires StaysUp(run, registry, up) && up != {} && j < |run.events|
    ensures !run.events[j].GiveUp?
  {
    ScansCover(run, registry, up, j);
    assert Step(run.threshold, run.states[j], run.events[j], run.states[j + 1]);
    assert ChatEvent(registry, run.states[j], run.events[j]);
    var n :| n in up;
    assert run.events[j].GiveUp? ==> Covers(run.states[j].scans[run.events[j].id], up);
  }

  /** Health bounds load: in every interleaving of chat requests and health checks, while the
      backends `up` stay up, no backend ever serves more than its share of the peak among
      those, plus the requests between Select and Acquire. */
  lemma GatedLoadBound(run: Run, registry: set<string>, up: set<string>, i: nat, n: string, waiting: nat, peak: nat)
    requires StaysUp(run, registry, up) && up != {} && i < |run.states|
    requires forall j :: 0 <= j < |run.states| ==>
               && |Dispatch.Pending(run.states[j].lb)| <= waiting
               && |Dispatch.InFlight(run.states[j].lb)| <= peak
    ensures Load(run.states[i].lb.active, n) <= peak / |up| + waiting
    ensures Load(run.states[i].lb.active, n) == |Dispatch.ServingAt(run.states[i].lb, n)|
  {
    BalancerRun(run);
    var b := run.Balancer();
    forall j | 0 <= j < |b.events| && b.events[j].Select?
      ensures |b.events[j].names| >= |up|
    {
      CandidatesCoverUp(run, registry, up, j);
    }
    Dispatch.LoadBound(b, i, n, |up|, waiting, peak);
    Dispatch.InFlightCountsConserved(b, i);
  }
}
