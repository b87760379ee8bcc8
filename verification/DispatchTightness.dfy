// How tight the load bounds of the dispatch protocol are: the outstanding bound is attained
// for every choice of its parameters, and the ceiling of the even share is a bound exactly
// when selections cannot interleave or there is nothing to choose from.
module DispatchTightness {
  import opened Basics
  import opened LoadBalancing
  import opened Dispatch

  // ---- Reordering the candidates -------------------------------------------------------

  function Swap(n: string, a: string, b: string): string {
    if n == a then b else if n == b then a else n
  }

  function SwapAll(names: seq<string>, a: string, b: string): (r: seq<string>)
    ensures |r| == |names| && forall i :: 0 <= i < |r| ==> r[i] == Swap(names[i], a, b)
  {
    if names == [] then [] else [Swap(names[0], a, b)] + SwapAll(names[1..], a, b)
  }

  lemma SwapBack(names: seq<string>, n: string, a: string, b: string)
    requires a in names && b in names
    ensures Swap(Swap(n, a, b), a, b) == n
    ensures n in names ==> Swap(n, a, b) in names
  {
  }

  lemma SwapAllMembers(names: seq<string>, n: string, a: string, b: string)
    requires a in names && b in names
    ensures n in SwapAll(names, a, b) <==> n in names
  {
    hide Swap;
    var r := SwapAll(names, a, b);
    if n in names {
      SwapBack(names, n, a, b);
      var i :| 0 <= i < |names| && names[i] == Swap(n, a, b);
      assert r[i] == n;
    }
    if n in r {
      var i :| 0 <= i < |r| && r[i] == n;
      SwapBack(names, names[i], a, b);
    }
  }

  lemma SwapAllDistinct(names: seq<string>, a: string, b: string)
    requires Distinct(names) && a in names && b in names
    ensures Distinct(SwapAll(names, a, b))
  {
    hide Swap;
    var r := SwapAll(names, a, b);
    forall i, j | 0 <= i < j < |r|
      ensures r[i] != r[j]
    {
      SwapBack(names, names[i], a, b);
      SwapBack(names, names[j], a, b);
    }
  }

  lemma {:induction false} WithLoadOfSwapped(active: Loads, names: seq<string>, a: string, b: string, load: int)
    requires Load(active, a) == Load(active, b)
    ensures WithLoad(active, SwapAll(names, a, b), load) == SwapAll(WithLoad(active, names, load), a, b)
  {
    if names != [] {
      WithLoadOfSwapped(active, names[1..], a, b, load);
      assert SwapAll(names, a, b)[1..] == SwapAll(names[1..], a, b);
    }
  }

  /** For every turn, the candidates can come in an order that makes a given least-loaded
      one the pick. */
  lemma SteeredOrder(active: Loads, rr: uint64, names: seq<string>, pick: string) returns (order: seq<string>)
    requires Distinct(names) && LeastLoaded(active, names, pick)
    ensures |order| == |names| && Distinct(order) && forall n :: n in order <==> n in names
    ensures Choose(active, rr, order) == pick
  {
    var other := Choose(active, rr, names);
    order := SwapAll(names, pick, other);
    SwapAllDistinct(names, pick, other);
    forall n
      ensures n in order <==> n in names
    {
      SwapAllMembers(names, n, pick, other);
    }
    SwappedPick(active, rr, names, pick, other);
  }

  lemma LeastIsMin(active: Loads, names: seq<string>, n: string)
    requires names != [] && LeastLoaded(active, names, n)
    ensures MinLoad(active, names) == Load(active, n)
  {
    hide MinLoad;
  }

  lemma SwappedPick(active: Loads, rr: uint64, names: seq<string>, a: string, b: string)
    requires names != [] && LeastLoaded(active, names, a) && b == Choose(active, rr, names)
    ensures Choose(active, rr, SwapAll(names, a, b)) == a
  {
    var order := SwapAll(names, a, b);
    forall n
      ensures n in order <==> n in names
    {
      SwapAllMembers(names, n, a, b);
    }
    LeastIsMin(active, names, a);
    LeastIsMin(active, names, b);
    LeastIsMin(active, order, a);
    hide LeastLoaded, Load, MinLoad, SwapAll, WithLoad;
    WithLoadOfSwapped(active, names, a, b, MinLoad(active, names));
    assert Ties(active, order) == SwapAll(Ties(active, names), a, b);
  }

  // ---- Building runs -------------------------------------------------------------------

  /** A run from an idle balancer whose candidate lists have at least `k` names, with at most
      `waiting` requests between Select and Acquire and at most `total` outstanding. */
  ghost predicate Admissible(run: Run, k: nat, waiting: nat, total: nat) {
    && run.Valid() && run.states[0].active == map[] && Contended(run, k, waiting)
    && forall j :: 0 <= j < |run.states| ==> |run.states[j].requests| <= total
  }

  ghost function Last(run: Run): State
    requires run.Valid()
  {
    run.states[|run.states| - 1]
  }

  ghost function Then(run: Run, e: Event, s': State): Run {
    Run(run.states + [s'], run.events + [e])
  }

  lemma ThenAdmissible(run: Run, e: Event, s': State, k: nat, waiting: nat, total: nat)
    requires Admissible(run, k, waiting, total) && Step(Last(run), e, s')
    requires (e.Select? ==> |e.names| >= k) && |Pending(s')| <= waiting && |s'.requests| <= total
    ensures Admissible(Then(run, e, s'), k, waiting, total)
  {
    hide Step, Pending;
    var next := Then(run, e, s');
    forall i | 0 <= i < |next.events|
      ensures Step(next.states[i], next.events[i], next.states[i + 1])
      ensures next.events[i].Select? ==> |next.events[i].names| >= k
    {
      if i < |run.events| {
        assert next.states[i + 1] == run.states[i + 1] && next.events[i] == run.events[i];
      }
    }
  }

  lemma Loosen(run: Run, k: nat, waiting: nat, total: nat, waiting': nat, total': nat)
    requires Admissible(run, k, waiting, total) && waiting <= waiting' && total <= total'
    ensures Admissible(run, k, waiting', total')
  {
  }

  /** A request number not in use: every number in use is below the count of states. */
  ghost predicate Numbered(run: Run)
    requires run.Valid()
  {
    forall id :: id in Last(run).requests ==> id < |run.states|
  }

  ghost function Selected(s: State, id: nat, names: seq<string>): State
    requires names != []
  {
    State(s.active, NextTurn(s.rr, names), s.requests[id := Chosen(Choose(s.active, s.rr, names))])
  }

  ghost function Counted(s: State, id: nat): State
    requires id in s.requests
  {
    s.(active := Acquired(s.active, s.requests[id].name), requests := s.requests[id := Serving(s.requests[id].name)])
  }

  lemma SelectedIsStep(s: State, id: nat, names: seq<string>)
    requires id !in s.requests && names != [] && Distinct(names)
    ensures Step(s, Select(id, names), Selected(s, id, names))
    ensures |Selected(s, id, names).requests| == |s.requests| + 1
  {
    hide Choose, NextTurn, Distinct;
  }

  lemma ChosenJoins(s: State, s': State, id: nat, pick: string)
    requires id !in s.requests && s'.requests == s.requests[id := Chosen(pick)]
    ensures Pending(s') == Pending(s) + {id} && |Pending(s')| == |Pending(s)| + 1
    ensures ChosenAt(s', pick) == ChosenAt(s, pick) + {id} && |ChosenAt(s', pick)| == |ChosenAt(s, pick)| + 1
  {
  }

  lemma SelectedCounts(s: State, id: nat, names: seq<string>)
    requires id !in s.requests && names != []
    ensures Pending(Selected(s, id, names)) == Pending(s) + {id}
    ensures |Pending(Selected(s, id, names))| == |Pending(s)| + 1
    ensures var pick := Choose(s.active, s.rr, names);
            Commitment(Selected(s, id, names), pick) == Commitment(s, pick) + 1
  {
    hide Choose, NextTurn, Pending, ChosenAt;
    ChosenJoins(s, Selected(s, id, names), id, Choose(s.active, s.rr, names));
  }

  /** A new request selects over `names`. */
  lemma ThenSelect(run: Run, names: seq<string>, k: nat, waiting: nat, total: nat) returns (next: Run)
    requires Admissible(run, k, waiting, total) && Numbered(run)
    requires Distinct(names) && |names| >= k
    requires |Pending(Last(run))| < waiting && |Last(run).requests| < total
    ensures next == Then(run, Select(|run.states|, names), Selected(Last(run), |run.states|, names))
    ensures Admissible(next, k, waiting, total) && Numbered(next)
    ensures Pending(Last(next)) == Pending(Last(run)) + {|run.states|}
    ensures |Pending(Last(next))| == |Pending(Last(run))| + 1
    ensures Last(next).active == Last(run).active && |Last(next).requests| == |Last(run).requests| + 1
    ensures var pick := Choose(Last(run).active, Last(run).rr, names);
            Commitment(Last(next), pick) == Commitment(Last(run), pick) + 1
  {
    hide Choose, NextTurn, Pending, Commitment, Step;
    var s, id := Last(run), |run.states|;
    var s' := Selected(s, id, names);
    SelectedIsStep(s, id, names);
    SelectedCounts(s, id, names);
    next := Then(run, Select(id, names), s');
    ThenAdmissible(run, Select(id, names), s', k, waiting, total);
  }

  /** A waiting request is counted; nobody's commitment changes. */
  lemma ThenAcquire(run: Run, id: nat, k: nat, waiting: nat, total: nat, n: string) returns (next: Run)
    requires Admissible(run, k, waiting, total) && Numbered(run) && id in Pending(Last(run))
    ensures next == Then(run, Acquire(id), Counted(Last(run), id))
    ensures Admissible(next, k, waiting, total) && Numbered(next)
    ensures Pending(Last(next)) == Pending(Last(run)) - {id}
    ensures |Last(next).requests| == |Last(run).requests|
    ensures Commitment(Last(next), n) == Commitment(Last(run), n)
  {
    var s := Last(run);
    var s' := Counted(s, id);
    AcquireCounts(s, id, s', n);
    assert s'.requests.Keys == s.requests.Keys;
    assert |s'.requests.Keys| == |s.requests.Keys|;
    next := Then(run, Acquire(id), s');
    assert Pending(s') == Pending(s) - {id};
    ThenAdmissible(run, Acquire(id), s', k, waiting, total);
  }

  // ---- Filling evenly, then piling up --------------------------------------------------

  /** The `i`-th of an unbounded supply of backend names. */
  function NameOf(i: nat): string {
    seq(i, _ => 'b')
  }

  ghost function Names(k: nat): (names: seq<string>)
    ensures |names| == k && Distinct(names)
  {
    var names := seq(k, i requires 0 <= i < k => NameOf(i));
    assert forall i :: 0 <= i < k ==> |names[i]| == i;
    names
  }

  /** Nothing but selections over `names`, counted one by one. */
  ghost predicate Fills(run: Run, names: seq<string>, filled: nat) {
    && names != [] && Distinct(names) && Admissible(run, |names|, 1, filled) && Numbered(run) && FillsOnly(run, names)
    && Pending(Last(run)) == {} && |Last(run).requests| == filled
  }

  lemma ThenFillsOnly(run: Run, e: Event, s': State, names: seq<string>)
    requires run.Valid() && FillsOnly(run, names) && Then(run, e, s').Valid()
    requires e == Select(|run.states|, names) || e.Acquire?
    ensures FillsOnly(Then(run, e, s'), names)
  {
    hide Step;
    var next := Then(run, e, s');
    assert next.states[0] == run.states[0];
    forall i | 0 <= i < |next.events|
      ensures !next.events[i].Release?
      ensures next.events[i].Select? ==> forall n :: n in next.events[i].names <==> n in names
    {
      assert i < |run.events| ==> next.events[i] == run.events[i];
    }
  }

  lemma FillOne(run: Run, names: seq<string>, filled: nat) returns (next: Run)
    requires Fills(run, names, filled)
    ensures Fills(next, names, filled + 1)
  {
    hide Step, Pending, Choose, NextTurn, FillsOnly, Commitment, Numbered, Contended;
    Loosen(run, |names|, 1, filled, 1, filled + 1);
    var id := |run.states|;
    var mid := ThenSelect(run, names, |names|, 1, filled + 1);
    ThenFillsOnly(run, Select(id, names), Last(mid), names);
    next := ThenAcquire(mid, id, |names|, 1, filled + 1, "");
    ThenFillsOnly(mid, Acquire(id), Last(next), names);
    assert Pending(Last(next)) == {};
  }

  lemma {:induction false} Fill(names: seq<string>, filled: nat) returns (run: Run)
    requires names != [] && Distinct(names)
    ensures Fills(run, names, filled)
  {
    if filled == 0 {
      run := Run([State(map[], 0, map[])], []);
      assert Pending(Last(run)) == {};
    } else {
      run := Fill(names, filled - 1);
      run := FillOne(run, names, filled - 1);
    }
  }

  lemma FilledShare(run: Run, names: seq<string>, filled: nat, n: string)
    requires Fills(run, names, filled) && n == Choose(Last(run).active, Last(run).rr, names)
    ensures Load(Last(run).active, n) == filled / |names|
  {
    hide Step, Choose, Pending, Commitment;
    hide FillsOnly;
    var s, i := Last(run), |run.states| - 1;
    InFlightCountsConserved(run, i);
    PendingAndInFlight(s);
    ChosenHasEvenShare(s, names, |names|);
    EvenSpread(run, names, i, n);
  }

  /** After an even fill the least-loaded backend carries exactly the floor of its share. */
  lemma LeastAfterFill(run: Run, names: seq<string>, filled: nat) returns (n: string)
    requires Fills(run, names, filled)
    ensures LeastLoaded(Last(run).active, names, n) && Load(Last(run).active, n) == filled / |names|
    ensures Commitment(Last(run), n) == filled / |names|
  {
    var s, i := Last(run), |run.states| - 1;
    n := Choose(s.active, s.rr, names);
    InFlightCountsConserved(run, i);
    PendingAndInFlight(s);
    FilledShare(run, names, filled, n);
    assert ChosenAt(s, n) <= Pending(s);
  }

  /** Requests that all choose `n`, none of them counted yet. */
  lemma {:induction false} Pile(run: Run, names: seq<string>, n: string, more: nat, waiting: nat, total: nat) returns (next: Run)
    requires Admissible(run, |names|, waiting, total) && Numbered(run) && Distinct(names)
    requires LeastLoaded(Last(run).active, names, n)
    requires |Pending(Last(run))| + more <= waiting && |Last(run).requests| + more <= total
    ensures Admissible(next, |names|, waiting, total) && Numbered(next)
    ensures Commitment(Last(next), n) == Commitment(Last(run), n) + more
    decreases more
  {
    hide Step, Pending, Choose, NextTurn, Commitment, Numbered, Contended, Distinct, LeastLoaded, Selected, Then;
    if more == 0 {
      next := run;
    } else {
      var s := Last(run);
      var order := SteeredOrder(s.active, s.rr, names, n);
      var one := ThenSelect(run, order, |names|, waiting, total);
      next := Pile(one, names, n, more - 1, waiting, total);
    }
  }

  lemma {:induction false} CountAll(run: Run, k: nat, waiting: nat, total: nat, n: string) returns (next: Run)
    requires Admissible(run, k, waiting, total) && Numbered(run)
    ensures Admissible(next, k, waiting, total) && Load(Last(next).active, n) == Commitment(Last(run), n)
    decreases |Pending(Last(run))|
  {
    if Pending(Last(run)) == {} {
      next := run;
      assert ChosenAt(Last(run), n) <= Pending(Last(run));
    } else {
      var id :| id in Pending(Last(run));
      var one := ThenAcquire(run, id, k, waiting, total, n);
      next := CountAll(one, k, waiting, total, n);
    }
  }

  /** The outstanding bound is attained, in requests actually in flight on one backend, for
      every number of candidates, every positive number of waiting requests and every total. */
  lemma OutstandingBoundAttained(k: nat, waiting: nat, total: nat) returns (run: Run, n: string)
    requires k > 0 && 1 <= waiting <= total
    ensures Admissible(run, k, waiting, total)
    ensures Load(Last(run).active, n) == (total - waiting) / k + waiting
  {
    var names := Names(k);
    run := Fill(names, total - waiting);
    n := LeastAfterFill(run, names, total - waiting);
    Loosen(run, k, 1, total - waiting, waiting, total);
    run := Pile(run, names, n, waiting, waiting, total);
    run := CountAll(run, k, waiting, total, n);
  }

  // ---- When the even share is a bound --------------------------------------------------

  /** In every state every backend is committed to at most the ceiling of its even share of
      the outstanding requests. */
  ghost predicate UnderCeiling(run: Run, k: nat, total: nat)
    requires k > 0
  {
    forall i, n :: 0 <= i < |run.states| ==> Commitment(run.states[i], n) <= (total + k - 1) / k
  }

  ghost predicate CeilingHolds(k: nat, waiting: nat)
    requires k > 0
  {
    forall run, total :: Admissible(run, k, waiting, total) ==> UnderCeiling(run, k, total)
  }

  /** With a single candidate no backend can be committed to more than what is outstanding. */
  lemma CommitmentWithinRequests(run: Run, i: nat, n: string)
    requires run.Valid() && i < |run.states| && run.states[0].active == map[]
    ensures Commitment(run.states[i], n) <= |run.states[i].requests|
  {
    var s := run.states[i];
    InFlightCountsConserved(run, i);
    assert ServingAt(s, n) !! ChosenAt(s, n);
    assert |ServingAt(s, n) + ChosenAt(s, n)| == |ServingAt(s, n)| + |ChosenAt(s, n)|;
    SubsetSize(ServingAt(s, n) + ChosenAt(s, n), s.requests.Keys);
  }

  /** Two requests suffice to break the ceiling wherever there is a choice: `waiting` requests
      select the same idle backend before any of them is counted. */
  lemma InterleavingCollides(k: nat, waiting: nat) returns (run: Run, n: string)
    requires k >= 2 && waiting >= 2
    ensures Admissible(run, k, waiting, waiting)
    ensures Load(Last(run).active, n) == waiting > (waiting + k - 1) / k
  {
    run, n := OutstandingBoundAttained(k, waiting, waiting);
    CeilingBelow(waiting, k);
  }

  lemma CeilingBelow(waiting: nat, k: nat)
    requires k >= 2 && waiting >= 2
    ensures (waiting + k - 1) / k < waiting
  {
    MulMonotone(1, waiting - 1, k - 1);
    assert (waiting - 1) * (k - 1) == (waiting - 1) * k - (waiting - 1);
    DivMonotone(waiting + k - 1, (waiting - 1) * k + (k - 1), k);
    QuotientAndRemainder((waiting - 1) * k + (k - 1), k, waiting - 1, k - 1);
  }

  /** The ceiling of the even share bounds every backend in every run if and only if no two
      requests can be between Select and Acquire at once, or there is only one candidate. */
  lemma CeilingHoldsIff(k: nat, waiting: nat)
    requires k > 0
    ensures CeilingHolds(k, waiting) <==> waiting <= 1 || k == 1
  {
    if waiting <= 1 || k == 1 {
      forall run, total | Admissible(run, k, waiting, total)
        ensures UnderCeiling(run, k, total)
      {
        CeilingKept(run, k, waiting, total);
      }
    } else {
      var run, n := InterleavingCollides(k, waiting);
      var i := |run.states| - 1;
      assert Commitment(run.states[i], n) >= Load(run.states[i].active, n);
      assert !UnderCeiling(run, k, waiting);
    }
  }

  lemma CeilingKept(run: Run, k: nat, waiting: nat, total: nat)
    requires k > 0 && Admissible(run, k, waiting, total) && (waiting <= 1 || k == 1)
    ensures UnderCeiling(run, k, total)
  {
    forall i, n | 0 <= i < |run.states|
      ensures Commitment(run.states[i], n) <= (total + k - 1) / k
    {
      if k == 1 {
        CommitmentWithinRequests(run, i, n);
      } else {
        AtomicLoadBound(run, i, n, k, total);
      }
    }
  }
}
