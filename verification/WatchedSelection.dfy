// Selection with the watchdog as health checker: what the two registries promise, in terms of
// the finished health checks.
module WatchedSelection {
  import opened Basics
  import opened LoadBalancing
  import opened Watchdogs
  import Chat = BackendRegistry
  import Scoring
  import Speech = Router

  /** The watchdog's answers at one moment. */
  function Reads(states: States): HealthReads {
    Some(n => HealthyIn(states, n))
  }

  /** Fewer trailing failed checks than the threshold (at least one). */
  ghost predicate Up(threshold: int, history: seq<Probe>, n: string) {
    Trailing(history, n) < Max(threshold, 1)
  }

  lemma ReadsAreUp(threshold: int, history: seq<Probe>)
    ensures forall n :: Reads(StatesAfter(threshold, history)).value(n) <==> Up(threshold, history, n)
  {
    forall n
      ensures HealthyIn(StatesAfter(threshold, history), n) <==> Up(threshold, history, n)
    {
      HealthIsTrailingRun(threshold, history, n);
    }
  }

  /** Chat selection under the watchdog: the backend picked is up and carries no more than any
      other registered backend that is up; with non-empty names, selection fails exactly when
      none is up. */
  method PickForChat(reg: Chat.Registry, wd: Watchdog) returns (r: Chat.Selection, ghost order: seq<string>)
    requires reg.Valid() && wd.Valid()
    modifies reg.lb
    ensures Distinct(order) && forall n :: n in order ==> n in reg.backends && Up(wd.threshold, wd.history, n)
    ensures forall n :: n in reg.backends && n != "" && Up(wd.threshold, wd.history, n) ==> n in order
    ensures "" !in reg.backends ==>
              (r.Picked? <==> exists n :: n in reg.backends && Up(wd.threshold, wd.history, n))
    ensures r.Picked? ==>
              var name := r.backend.name;
              && Up(wd.threshold, wd.history, name) && name in reg.backends && r.backend == reg.backends[name]
              && (forall n :: n in reg.backends && n != "" && Up(wd.threshold, wd.history, n) ==>
                    Load(old(reg.lb.active), name) <= Load(old(reg.lb.active), n))
              && reg.lb.active == Acquired(old(reg.lb.active), name)
  {
    ReadsAreUp(wd.threshold, wd.history);
    r, order := reg.PrimaryHealthy(Reads(wd.states));
    assert r.Picked? ==> r.backend.name in order;
  }

  /** Speech selection under the watchdog: the backend picked is up, and one is picked exactly
      when a backend that is up has the capability and advertises the model, if one is asked
      for. */
  method PickForSpeech(rtr: Speech.Registry, kind: Scoring.Capability, model: string, wd: Watchdog)
    returns (r: Speech.Selection, ghost order: seq<string>)
    requires rtr.Valid() && wd.Valid()
    modifies rtr.lb
    ensures r.Picked? <==>
              exists n :: && n in rtr.backends && kind in rtr.backends[n].capabilities
                          && Up(wd.threshold, wd.history, n)
                          && (model != "" ==> Scoring.Advertises(rtr.backends[n], kind, model))
    ensures r.Picked? ==>
              && Up(wd.threshold, wd.history, r.info.name)
              && r.info.name in rtr.backends && r.info == rtr.backends[r.info.name]
              && kind in r.info.capabilities && (model != "" ==> Scoring.Advertises(r.info, kind, model))
              && rtr.lb.active == Acquired(old(rtr.lb.active), r.info.name)
  {
    ReadsAreUp(wd.threshold, wd.history);
    var hc := Reads(wd.states);
    r, order := rtr.SelectBackend(kind, model, hc);
    assert forall n :: rtr.Available(kind, hc, n) <==>
             && n in rtr.backends && kind in rtr.backends[n].capabilities && Up(wd.threshold, wd.history, n);
    if r.Picked? {
      assert r.info.name in order;
      assert rtr.InTier(kind, hc, model, r.info.name);
    }
  }
}
