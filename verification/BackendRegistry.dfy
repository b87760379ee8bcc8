// The registry of chat and embedding backends, and the handler bracket that acquires a
// backend, serves a request on it and releases it.
module BackendRegistry {
  import opened Basics
  import opened LoadBalancing

  /** An adapter: the name it reports, and the connection that tells two adapters apart. */
  datatype Backend = Backend(name: string, url: string)

  datatype Selection = Picked(backend: Backend) | NotFound | NoHealthy

  class Registry {
    var backends: map<string, Backend>
    var primary: string
    const lb: LoadBalancer

    /** Keys are the backends' own names, and the primary is set as soon as any backend with
        a non-empty name is registered. */
    ghost predicate Valid()
      reads this
    {
      && (forall n :: n in backends ==> backends[n].name == n)
      && (primary != "" ==> primary in backends)
      && (primary == "" ==> forall n :: n in backends ==> n == "")
    }

    /** The names a selection may use: those read as healthy. A backend registered under the
        empty name is passed over while there is no primary. */
    ghost predicate Eligible(hc: HealthReads, n: string)
      reads this
    {
      n in backends && (hc.Some? ==> hc.value(n)) && (n == "" ==> primary != "")
    }

    constructor ()
      ensures Valid() && backends == map[] && primary == "" && fresh(lb) && lb.active == map[]
    {
      backends, primary := map[], "";
      lb := new LoadBalancer();
    }

    method Register(b: Backend)
      requires Valid()
      modifies this
      ensures Valid() && backends == old(backends)[b.name := b]
      ensures primary == if old(primary) == "" then b.name else old(primary)
    {
      backends := backends[b.name := b];
      if primary == "" {
        primary := b.name;
      }
    }

    /** A found backend is a registered one that reports the name asked for. The empty name
        finds the primary: it fails only on an empty registry. */
    method Get(name: string) returns (b: Option<Backend>)
      requires Valid()
      ensures b.Some? ==> b.value in backends.Values && b.value.name == (if name == "" then primary else name)
      ensures name != "" ==> (b.Some? <==> exists x :: x in backends.Values && x.name == name)
      ensures name == "" ==> (b.Some? <==> backends != map[])
    {
      var key := if name == "" then primary else name;
      b := if key in backends then Some(backends[key]) else None;
    }

    /** The candidate list, for whatever order the map yields its keys in. */
    method HealthyOrder(hc: HealthReads) returns (order: seq<string>)
      requires Valid()
      ensures Distinct(order)
      ensures forall n :: n in order <==> Eligible(hc, n)
      ensures forall n :: n in order ==> n in backends && (hc.Some? ==> hc.value(n))
      ensures forall n :: n in backends && n != "" && (hc.Some? ==> hc.value(n)) ==> n in order
      ensures "" in order <==> "" in backends && primary != "" && (hc.Some? ==> hc.value(""))
      ensures primary != "" && (hc.Some? ==> hc.value(primary)) ==> order != [] && order[0] == primary
    {
      order := [];
      if primary != "" && Healthy(hc, primary) {
        order := [primary];
      }
      var rest := backends.Keys;
      while rest != {}
        invariant rest <= backends.Keys
        invariant Distinct(order)
        invariant forall n :: n in order <==>
                    Eligible(hc, n) && (n !in rest || n == primary)
        invariant primary != "" && Healthy(hc, primary) ==> order != [] && order[0] == primary
        decreases rest
      {
        var name :| name in rest;
        rest := rest - {name};
        if name != primary {
          if Healthy(hc, name) {
            order := order + [name];
          }
        }
      }
    }

    /** Least-connections selection among the healthy backends. It counts the request. `order`
        is the candidate list the map happened to yield. */
    method PrimaryHealthy(hc: HealthReads) returns (r: Selection, ghost order: seq<string>)
      requires Valid()
      modifies lb
      ensures Distinct(order) && forall n :: n in order <==> Eligible(hc, n)
      ensures r == NotFound <==> backends == map[]
      ensures r == NoHealthy <==> backends != map[] && forall n :: !Eligible(hc, n)
      ensures r.Picked? ==>
                && order != [] && r.backend.name == Choose(old(lb.active), old(lb.rr), order)
                && r.backend.name in backends && r.backend == backends[r.backend.name]
                && (forall n :: Eligible(hc, n) ==>
                      Load(old(lb.active), r.backend.name) <= Load(old(lb.active), n))
                && lb.active == Acquired(old(lb.active), r.backend.name)
                && lb.rr == NextTurn(old(lb.rr), order)
      ensures !r.Picked? ==> lb.active == old(lb.active) && lb.rr == old(lb.rr)
    {
      order := [];
      if |backends| == 0 {
        return NotFound, [];
      }
      var healthy := HealthyOrder(hc);
      order := healthy;
      if |healthy| == 0 {
        return NoHealthy, healthy;
      }
      assert healthy[0] in healthy;
      var name := lb.Select(healthy);
      assert LeastLoaded(old(lb.active), healthy, name);
      lb.Acquire(name);
      assert Eligible(hc, name);
      r := Picked(backends[name]);
    }

    method ReleaseBackend(name: string)
      modifies lb
      ensures lb.active == Released(old(lb.active), name) && lb.rr == old(lb.rr)
    {
      lb.Release(name);
    }
  }

  /** With no empty names, selection fails exactly when nothing is registered or every
      registered backend was read as degraded. */
  lemma NonEmptyNamesEligible(reg: Registry, hc: HealthReads)
    requires reg.Valid() && "" !in reg.backends
    ensures (forall n :: !reg.Eligible(hc, n))
            <==> forall n :: n in reg.backends ==> hc.Some? && !hc.value(n)
  {
    forall n | n in reg.backends
      ensures reg.Eligible(hc, n) <==> (hc.Some? ==> hc.value(n))
    {
    }
  }

  datatype Response = InvalidJson | NoMessages | Unavailable(name: string) | Served(backend: Backend)

  /** The chat handler, given the number of messages in the request (None when its body is not
      JSON): every counter it raises it lowers again, whichever way it returns. A served request
      goes to the backend the balancer chooses among the eligible ones; `order` is the list the
      balancer was given and `busy` the loads while the request was being served. */
  method ChatCompletions(reg: Registry, hc: HealthReads, messages: Option<nat>)
    returns (r: Response, ghost order: seq<string>, ghost busy: Loads)
    requires reg.Valid()
    modifies reg.lb
    ensures forall n :: Load(reg.lb.active, n) == old(Load(reg.lb.active, n))
    ensures r == InvalidJson <==> messages == None
    ensures r == NoMessages <==> messages == Some(0)
    ensures messages.Some? && messages.value > 0 ==>
              && (r.Served? <==> exists n :: reg.Eligible(hc, n))
              && (!r.Served? ==> r == Unavailable(if reg.primary == "" then "default" else reg.primary))
    ensures r.Served? ==>
              var name := r.backend.name;
              && Distinct(order) && (forall n :: n in order <==> reg.Eligible(hc, n))
              && order != [] && name == Choose(old(reg.lb.active), old(reg.lb.rr), order)
              && name in reg.backends && r.backend == reg.backends[name]
              && (forall n :: reg.Eligible(hc, n) ==>
                    Load(old(reg.lb.active), name) <= Load(old(reg.lb.active), n))
              && busy == Acquired(old(reg.lb.active), name)
              && reg.lb.rr == NextTurn(old(reg.lb.rr), order)
    ensures !r.Served? ==> reg.lb.rr == old(reg.lb.rr)
  {
    order, busy := [], reg.lb.active;
    if messages == None {
      return InvalidJson, order, busy;
    }
    if messages.value == 0 {
      return NoMessages, order, busy;
    }
    var s;
    s, order := reg.PrimaryHealthy(hc);
    if !s.Picked? {
      return Unavailable(if reg.primary == "" then "default" else reg.primary), order, busy;
    }
    busy := reg.lb.active;
    r := Served(s.backend);
    assert s.backend.name in order;
    reg.ReleaseBackend(s.backend.name);
    assert reg.Eligible(hc, s.backend.name);
  }
}
