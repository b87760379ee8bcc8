// The watchdog: a consecutive-failure counter per backend name, and the health gauge it sets.
module Watchdogs {
  import opened Basics

  datatype BackendState = BackendState(failures: int, healthy: bool)

  /** One finished health check. */
  datatype Probe = Probe(name: string, ok: bool)

  type States = map<string, BackendState>

  /** The effect of one check on the state of its backend. The comparison is made at the
      failure itself, so a threshold of zero or less behaves like one. */
  function Check(threshold: int, states: States, p: Probe): States {
    var st := if p.name in states then states[p.name] else BackendState(0, true);
    states[p.name :=
      if p.ok then BackendState(0, true)
      else BackendState(st.failures + 1, st.healthy && st.failures + 1 < threshold)]
  }

  function StatesAfter(threshold: int, history: seq<Probe>): States {
    if history == [] then map[]
    else Check(threshold, StatesAfter(threshold, history[..|history| - 1]), history[|history| - 1])
  }

  predicate HealthyIn(states: States, name: string) {
    name in states ==> states[name].healthy
  }

  /** The length of the run of failed probes that ends `name`'s part of the history. */
  function Trailing(history: seq<Probe>, name: string): nat {
    if history == [] then
      0
    else
      var last := history[|history| - 1];
      if last.name != name then Trailing(history[..|history| - 1], name)
      else if last.ok then 0
      else Trailing(history[..|history| - 1], name) + 1
  }

  predicate Probed(history: seq<Probe>, name: string) {
    exists i :: 0 <= i < |history| && history[i].name == name
  }

  /** The state machine refines its history: a backend is healthy exactly while its trailing
      run of failures is shorter than the threshold (at least one), and a backend never
      probed is healthy. */
  lemma {:induction false} HealthIsTrailingRun(threshold: int, history: seq<Probe>, name: string)
    ensures var states := StatesAfter(threshold, history);
            && (name in states <==> Probed(history, name))
            && (name in states ==> states[name].failures == Trailing(history, name))
            && (HealthyIn(states, name) <==> Trailing(history, name) < Max(threshold, 1))
  {
    if history != [] {
      var n := |history| - 1;
      HealthIsTrailingRun(threshold, history[..n], name);
      if Probed(history[..n], name) {
        var i :| 0 <= i < n && history[..n][i].name == name;
        assert history[i].name == name;
      }
      if history[n].name != name && Probed(history, name) {
        var i :| 0 <= i < |history| && history[i].name == name;
        assert history[..n][i].name == name;
      }
      if !Probed(history[..n], name) {
        NeverProbed(history[..n], name);
      }
    }
  }

  lemma {:induction false} NeverProbed(history: seq<Probe>, name: string)
    requires !Probed(history, name)
    ensures Trailing(history, name) == 0
  {
    if history != [] {
      var n := |history| - 1;
      assert history[n].name != name;
      assert forall i :: 0 <= i < n ==> history[..n][i] == history[i];
      NeverProbed(history[..n], name);
    }
  }

  /** Probes of other backends are invisible: only `name`'s own probes matter. */
  lemma {:induction false} OtherProbesInvisible(threshold: int, history: seq<Probe>, more: seq<Probe>, name: string)
    requires !Probed(more, name)
    ensures Trailing(history + more, name) == Trailing(history, name)
    ensures HealthyIn(StatesAfter(threshold, history + more), name)
            == HealthyIn(StatesAfter(threshold, history), name)
  {
    if more == [] {
      assert history + more == history;
    } else {
      var n := |more| - 1;
      assert more[n].name != name;
      assert forall i :: 0 <= i < n ==> more[..n][i] == more[i];
      assert (history + more)[..|history + more| - 1] == history + more[..n];
      OtherProbesInvisible(threshold, history, more[..n], name);
    }
  }

  /** The gauge value that matches a history: 1 for healthy, 0 for degraded. */
  function GaugeOf(threshold: int, history: seq<Probe>, name: string): int {
    if Trailing(history, name) < Max(threshold, 1) then 1 else 0
  }

  lemma CheckExtends(threshold: int, history: seq<Probe>, p: Probe)
    ensures StatesAfter(threshold, history + [p]) == Check(threshold, StatesAfter(threshold, history), p)
    ensures var st := StatesAfter(threshold, history + [p])[p.name];
            GaugeOf(threshold, history + [p], p.name) == if st.healthy then 1 else 0
    ensures forall n :: n != p.name ==> Trailing(history + [p], n) == Trailing(history, n)
    ensures Trailing(history + [p], p.name) == if p.ok then 0 else Trailing(history, p.name) + 1
  {
    var h := history + [p];
    assert h[..|h| - 1] == history;
    HealthIsTrailingRun(threshold, h, p.name);
  }

  /** Every backend in `results` has the gauge that matches the history. */
  ghost predicate GaugesMatch(threshold: int, history: seq<Probe>, results: seq<Probe>, gauge: map<string, int>) {
    forall n :: Probed(results, n) ==> n in gauge && gauge[n] == GaugeOf(threshold, history, n)
  }

  ghost predicate SameOutside(results: seq<Probe>, before: map<string, int>, gauge: map<string, int>) {
    forall n :: !Probed(results, n) ==> (n in gauge <==> n in before) && (n in gauge ==> gauge[n] == before[n])
  }

  lemma GaugeStep(threshold: int, history: seq<Probe>, results: seq<Probe>, before: map<string, int>,
                  gauge: map<string, int>, p: Probe)
    requires GaugesMatch(threshold, history, results, gauge) && SameOutside(results, before, gauge)
    ensures var gauge' := gauge[p.name := GaugeOf(threshold, history + [p], p.name)];
            && GaugesMatch(threshold, history + [p], results + [p], gauge')
            && SameOutside(results + [p], before, gauge')
  {
    CheckExtends(threshold, history, p);
    ProbedSnoc(results, p);
  }

  lemma ProbedSnoc(results: seq<Probe>, p: Probe)
    ensures forall n :: Probed(results + [p], n) <==> Probed(results, n) || p.name == n
  {
    forall n
      ensures Probed(results + [p], n) <==> Probed(results, n) || p.name == n
    {
      var all := results + [p];
      assert all[|results|] == p;
      if Probed(results, n) {
        var j :| 0 <= j < |results| && results[j].name == n;
        assert all[j].name == n;
      }
    }
  }

  class Watchdog {
    const threshold: int
    var states: States
    var gauge: map<string, int>
    ghost var history: seq<Probe>

    ghost predicate Valid()
      reads this
    {
      states == StatesAfter(threshold, history)
    }

    constructor (threshold: int)
      ensures Valid() && this.threshold == threshold && history == [] && gauge == map[]
    {
      this.threshold := threshold;
      states, gauge, history := map[], map[], [];
    }

    method IsHealthy(name: string) returns (healthy: bool)
      requires Valid()
      ensures healthy <==> Trailing(history, name) < Max(threshold, 1)
      ensures healthy == HealthyIn(states, name)
    {
      HealthIsTrailingRun(threshold, history, name);
      if name in states {
        return states[name].healthy;
      }
      return true;
    }

    /** Records one finished health check and sets the backend's gauge. */
    method CheckBackend(name: string, ok: bool)
      requires Valid()
      modifies this
      ensures Valid() && history == old(history) + [Probe(name, ok)]
      ensures gauge == old(gauge)[name := GaugeOf(threshold, history, name)]
    {
      hide StatesAfter, Trailing, GaugeOf;
      CheckExtends(threshold, history, Probe(name, ok));
      var st := BackendState(0, true);
      if name in states {
        st := states[name];
      }
      if !ok {
        st := st.(failures := st.failures + 1);
        if st.failures >= threshold && st.healthy {
          st := st.(healthy := false);
          gauge := gauge[name := 0];
        } else if !st.healthy {
          gauge := gauge[name := 0];
        } else {
          gauge := gauge[name := 1];
        }
      } else {
        st := BackendState(0, true);
        gauge := gauge[name := 1];
      }
      states := states[name := st];
      history := history + [Probe(name, ok)];
    }

    /** One probe cycle, given the outcome of each check in the order they were made. After
        it, the gauge of every backend in the cycle agrees with the backend's health, and no
        other backend's gauge or failure run has moved. */
    method ProbeCycle(results: seq<Probe>)
      requires Valid()
      modifies this
      ensures Valid() && history == old(history) + results
      ensures GaugesMatch(threshold, history, results, gauge) && SameOutside(results, old(gauge), gauge)
      ensures forall n :: !Probed(results, n) ==> Trailing(history, n) == Trailing(old(history), n)
    {
      for i := 0 to |results|
        invariant Valid() && history == old(history) + results[..i]
        invariant GaugesMatch(threshold, history, results[..i], gauge)
        invariant SameOutside(results[..i], old(gauge), gauge)
      {
        GaugeStep(threshold, history, results[..i], old(gauge), gauge, results[i]);
        assert results[i] == Probe(results[i].name, results[i].ok);
        assert results[..i + 1] == results[..i] + [results[i]];
        CheckBackend(results[i].name, results[i].ok);
      }
      assert results[..|results|] == results;
      forall n | !Probed(results, n)
        ensures Trailing(history, n) == Trailing(old(history), n)
      {
        OtherProbesInvisible(threshold, old(history), results, n);
      }
    }
  }
}
