// The capability-aware registry: filter by capability and health, score against the
// requested model, and balance over the top tier.
module Router {
  import opened Basics
  import opened LoadBalancing
  import opened Scoring

  datatype Selection = Picked(info: BackendInfo) | CapabilityNotSupported | NoHealthy

  ghost predicate DistinctNames(infos: seq<BackendInfo>) {
    forall i, j :: 0 <= i < j < |infos| ==> infos[i].name != infos[j].name
  }

  class Registry {
    var backends: map<string, BackendInfo>
    const lb: LoadBalancer

    /** Keys are the backends' own names. */
    ghost predicate Valid()
      reads this
    {
      forall n :: n in backends ==> backends[n].name == n
    }

    ghost predicate Capable(kind: Capability, n: string)
      reads this
    {
      n in backends && kind in backends[n].capabilities
    }

    ghost predicate Available(kind: Capability, hc: HealthReads, n: string)
      reads this
    {
      Capable(kind, n) && (hc.Some? ==> hc.value(n))
    }

    /** The names balancing ranges over: every available backend when no model is requested,
        otherwise the available backends that match the model best. */
    ghost predicate InTier(kind: Capability, hc: HealthReads, model: string, n: string)
      reads this
    {
      && Available(kind, hc, n)
      && (model != "" ==> forall m :: Available(kind, hc, m) ==>
            Strength(backends[m], kind, model) <= Strength(backends[n], kind, model))
    }

    /** Some available speech backend advertises the model. */
    ghost predicate Served(hc: HealthReads, model: string)
      reads this
    {
      exists n :: Available(CapTTS, hc, n) && Advertises(backends[n], CapTTS, model)
    }

    constructor ()
      ensures Valid() && backends == map[] && fresh(lb) && lb.active == map[]
    {
      backends := map[];
      lb := new LoadBalancer();
    }

    method Register(info: BackendInfo)
      requires Valid()
      modifies this
      ensures Valid() && backends == old(backends)[info.name := info]
    {
      backends := backends[info.name := info];
    }

    /** The capable backends, in whatever order the map yields them. */
    method BackendsByCapability(kind: Capability) returns (result: seq<BackendInfo>)
      requires Valid()
      ensures DistinctNames(result)
      ensures forall x :: x in result <==> Capable(kind, x.name) && backends[x.name] == x
    {
      result := [];
      var rest := backends.Keys;
      while rest != {}
        invariant rest <= backends.Keys
        invariant DistinctNames(result)
        invariant forall x :: x in result <==>
                    Capable(kind, x.name) && backends[x.name] == x && x.name !in rest
        decreases rest
      {
        var name :| name in rest;
        rest := rest - {name};
        var capable := HasCapability(backends[name], kind);
        if capable {
          result := result + [backends[name]];
        }
      }
    }

    static method HasCapability(info: BackendInfo, kind: Capability) returns (found: bool)
      ensures found <==> kind in info.capabilities
    {
      for i := 0 to |info.capabilities|
        invariant kind !in info.capabilities[..i]
      {
        if info.capabilities[i] == kind {
          return true;
        }
      }
      return false;
    }

    /** The candidates read as healthy, order preserved. */
    static method OnlyHealthy(candidates: seq<BackendInfo>, hc: HealthReads) returns (healthy: seq<BackendInfo>)
      requires DistinctNames(candidates)
      ensures DistinctNames(healthy)
      ensures forall x :: x in healthy <==> x in candidates && (hc.Some? ==> hc.value(x.name))
    {
      healthy := [];
      for i := 0 to |candidates|
        invariant DistinctNames(healthy)
        invariant forall x :: x in healthy <==> x in candidates[..i] && Healthy(hc, x.name)
      {
        assert candidates[..i + 1] == candidates[..i] + [candidates[i]];
        if Healthy(hc, candidates[i].name) {
          assert forall x :: x in candidates[..i] ==> x.name != candidates[i].name;
          healthy := healthy + [candidates[i]];
        }
      }
      assert candidates[..|candidates|] == candidates;
    }

    /** Balances over the candidates and counts the request against the one picked. `names`
        is the list handed to the balancer. */
    method PickBalanced(candidates: seq<BackendInfo>) returns (info: BackendInfo, ghost order: seq<string>)
      requires candidates != [] && DistinctNames(candidates)
      modifies lb
      ensures |order| == |candidates| && forall i :: 0 <= i < |order| ==> order[i] == candidates[i].name
      ensures info in candidates && info.name == Choose(old(lb.active), old(lb.rr), order)
      ensures lb.active == Acquired(old(lb.active), info.name) && lb.rr == NextTurn(old(lb.rr), order)
    {
      var names: seq<string> := [];
      var byName: map<string, BackendInfo> := map[];
      for i := 0 to |candidates|
        invariant |names| == i && forall j :: 0 <= j < i ==> names[j] == candidates[j].name
        invariant forall j :: 0 <= j < i ==> candidates[j].name in byName && byName[candidates[j].name] == candidates[j]
      {
        names := names + [candidates[i].name];
        byName := byName[candidates[i].name := candidates[i]];
      }
      order := names;
      var picked := lb.Select(names);
      lb.Acquire(picked);
      var j :| 0 <= j < |names| && names[j] == picked;
      assert byName[picked] == candidates[j];
      info := byName[picked];
    }

    /** The top tier: the healthy candidates of maximal score, order preserved; None when no
        candidate advertises the model. */
    static method TopTier(healthy: seq<BackendInfo>, kind: Capability, model: string)
      returns (tier: Option<seq<BackendInfo>>)
      requires healthy != [] && DistinctNames(healthy)
      ensures tier.None? <==> forall x :: x in healthy ==> !Advertises(x, kind, model)
      ensures tier.Some? ==>
                && tier.value == Maximal(healthy, kind, model, healthy)
                && tier.value != [] && forall x :: x in tier.value ==> Advertises(x, kind, model)
    {
      var scored := ScoreEach(healthy, kind, model);
      ghost var unsorted := scored[..];
      SortStable(scored);
      TopScore(healthy, kind, model, unsorted, scored[..]);
      if scored[0].score < 50 {
        return None;
      }
      var infos := ScanTop(scored[..], scored[0].score);
      tier := Some(infos);
    }

    static method ScoreEach(infos: seq<BackendInfo>, kind: Capability, model: string) returns (scored: array<Scored>)
      ensures fresh(scored) && scored[..] == ScoreAll(infos, kind, model)
    {
      scored := new Scored[|infos|](i requires 0 <= i < |infos| => Scored(infos[i], 0));
      for i := 0 to |infos|
        invariant forall j :: 0 <= j < i ==> scored[j] == Scored(infos[j], Score(infos[j], kind, model))
      {
        var s := ScoreBackend(infos[i], kind, model);
        scored[i] := Scored(infos[i], s);
      }
    }

    static method ScanTop(scored: seq<Scored>, topScore: int) returns (infos: seq<BackendInfo>)
      ensures infos == Infos(OfScore(scored, topScore))
    {
      infos := [];
      for i := 0 to |scored|
        invariant infos == Infos(OfScore(scored[..i], topScore))
      {
        OfScoreConcat(scored[..i], [scored[i]], topScore);
        InfosConcat(OfScore(scored[..i], topScore), OfScore([scored[i]], topScore));
        assert scored[..i + 1] == scored[..i] + [scored[i]];
        assert OfScore([], topScore) == [] && [scored[i]][1..] == [];
        if scored[i].score == topScore {
          infos := infos + [scored[i].info];
        }
      }
      assert scored[..|scored|] == scored;
    }

    /** The selection, for every map order and every interleaving of health reads. */
    method SelectBackend(kind: Capability, model: string, hc: HealthReads)
      returns (r: Selection, ghost order: seq<string>)
      requires Valid()
      modifies lb
      ensures r == CapabilityNotSupported <==> forall n :: !Capable(kind, n)
      ensures r == NoHealthy <==>
                && (exists n :: Capable(kind, n))
                && (|| (forall n :: !Available(kind, hc, n))
                    || (model != "" && forall n, m :: Available(kind, hc, n) && m in backends[n].models ==>
                          !(m.kind == kind && StartsWith(m.id, model))))
      ensures r.Picked? ==>
                && Distinct(order) && order != [] && (forall n :: n in order <==> InTier(kind, hc, model, n))
                && r.info.name == Choose(old(lb.active), old(lb.rr), order)
                && r.info.name in backends && r.info == backends[r.info.name]
                && (model != "" ==> exists m :: m in r.info.models && m.kind == kind && StartsWith(m.id, model))
                && (forall n :: InTier(kind, hc, model, n) ==>
                      Load(old(lb.active), r.info.name) <= Load(old(lb.active), n))
                && lb.active == Acquired(old(lb.active), r.info.name)
                && lb.rr == NextTurn(old(lb.rr), order)
      ensures !r.Picked? ==> lb.active == old(lb.active) && lb.rr == old(lb.rr)
    {
      order := [];
      var capable, healthy := AvailableBackends(kind, hc);
      if !capable {
        return CapabilityNotSupported, [];
      }
      if |healthy| == 0 {
        return NoHealthy, [];
      }
      ghost var someCapable :| Capable(kind, someCapable);
      ghost var some := healthy[0].name;
      assert healthy[0] in healthy && Available(kind, hc, some);
      if model == "" {
        r, order := PickTier(kind, model, hc, healthy);
      } else {
        r, order := PickModel(kind, model, hc, healthy);
      }
      assert Capable(kind, someCapable) && Available(kind, hc, some);
      if r.Picked? {
        assert InTier(kind, hc, model, r.info.name);
      }
    }

    /** The two filters: is any backend capable, and which capable ones were read as healthy. */
    method AvailableBackends(kind: Capability, hc: HealthReads) returns (capable: bool, healthy: seq<BackendInfo>)
      requires Valid()
      ensures capable <==> exists n :: Capable(kind, n)
      ensures DistinctNames(healthy)
      ensures forall x :: x in healthy <==> Available(kind, hc, x.name) && backends[x.name] == x
      ensures healthy == [] <==> forall n :: !Available(kind, hc, n)
    {
      var candidates := BackendsByCapability(kind);
      assert forall n :: Capable(kind, n) ==> backends[n] in candidates;
      if |candidates| == 0 {
        return false, [];
      }
      healthy := OnlyHealthy(candidates, hc);
      assert candidates[0] in candidates && Capable(kind, candidates[0].name);
      assert forall n :: Available(kind, hc, n) ==> backends[n] in healthy;
      assert healthy != [] ==> healthy[0] in healthy && Available(kind, hc, healthy[0].name);
      capable := true;
    }

    /** Selection among the available backends when a model is requested. */
    method PickModel(kind: Capability, model: string, hc: HealthReads, healthy: seq<BackendInfo>)
      returns (r: Selection, ghost order: seq<string>)
      requires Valid() && model != "" && healthy != [] && DistinctNames(healthy)
      requires forall x :: x in healthy <==> Available(kind, hc, x.name) && backends[x.name] == x
      modifies lb
      ensures r != CapabilityNotSupported
      ensures r == NoHealthy <==> forall n :: Available(kind, hc, n) ==> !Advertises(backends[n], kind, model)
      ensures r.Picked? ==>
                && Distinct(order) && order != [] && (forall n :: n in order <==> InTier(kind, hc, model, n))
                && r.info.name == Choose(old(lb.active), old(lb.rr), order)
                && r.info.name in backends && r.info == backends[r.info.name]
                && (model != "" ==> Advertises(r.info, kind, model))
                && (forall n :: InTier(kind, hc, model, n) ==>
                      Load(old(lb.active), r.info.name) <= Load(old(lb.active), n))
                && lb.active == Acquired(old(lb.active), r.info.name)
                && lb.rr == NextTurn(old(lb.rr), order)
      ensures !r.Picked? ==> lb.active == old(lb.active) && lb.rr == old(lb.rr)
    {
      order := [];
      var tier := TopTier(healthy, kind, model);
      assert forall n :: Available(kind, hc, n) ==> backends[n] in healthy;
      assert forall x :: x in healthy ==> Available(kind, hc, x.name) && backends[x.name] == x;
      if tier == None {
        return NoHealthy, [];
      }
      MaximalDistinct(healthy, kind, model, healthy);
      TierIsMaximal(kind, model, hc, healthy);
      r, order := PickTier(kind, model, hc, tier.value);
      assert InTier(kind, hc, model, r.info.name) && Advertises(r.info, kind, model);
    }

    /** Among capable backends score and strength order alike. */
    lemma ScoresOrderByStrength(kind: Capability, model: string, hc: HealthReads, n: string, m: string)
      requires Available(kind, hc, n) && Available(kind, hc, m)
      ensures Score(backends[m], kind, model) <= Score(backends[n], kind, model)
              <==> Strength(backends[m], kind, model) <= Strength(backends[n], kind, model)
    {
      ScoreIsStrength(backends[n], kind, model);
      ScoreIsStrength(backends[m], kind, model);
    }

    lemma TierIsMaximal(kind: Capability, model: string, hc: HealthReads, healthy: seq<BackendInfo>)
      requires Valid() && model != ""
      requires forall x :: x in healthy <==> Available(kind, hc, x.name) && backends[x.name] == x
      ensures forall x :: x in Maximal(healthy, kind, model, healthy) <==>
                InTier(kind, hc, model, x.name) && backends[x.name] == x
    {
      hide Score, Strength;
      forall x
        ensures x in Maximal(healthy, kind, model, healthy) <==>
                InTier(kind, hc, model, x.name) && backends[x.name] == x
      {
        if x in healthy {
          forall m | Available(kind, hc, m)
            ensures backends[m] in healthy
            ensures Score(backends[m], kind, model) <= Score(x, kind, model)
                    <==> Strength(backends[m], kind, model) <= Strength(x, kind, model)
          {
            ScoresOrderByStrength(kind, model, hc, x.name, m);
          }
          assert forall y :: y in healthy ==> Available(kind, hc, y.name) && backends[y.name] == y;
        }
      }
    }

    /** Balancing over a list that holds exactly the tier. */
    method PickTier(kind: Capability, model: string, hc: HealthReads, tier: seq<BackendInfo>)
      returns (r: Selection, ghost order: seq<string>)
      requires Valid() && tier != [] && DistinctNames(tier)
      requires forall x :: x in tier <==> InTier(kind, hc, model, x.name) && backends[x.name] == x
      modifies lb
      ensures r.Picked? && r.info in tier && Distinct(order) && order != []
      ensures forall n :: n in order <==> InTier(kind, hc, model, n)
      ensures r.info.name == Choose(old(lb.active), old(lb.rr), order)
      ensures r.info.name in backends && r.info == backends[r.info.name]
      ensures forall n :: InTier(kind, hc, model, n) ==>
                Load(old(lb.active), r.info.name) <= Load(old(lb.active), n)
      ensures lb.active == Acquired(old(lb.active), r.info.name) && lb.rr == NextTurn(old(lb.rr), order)
    {
      var info;
      info, order := PickBalanced(tier);
      forall n
        ensures n in order <==> InTier(kind, hc, model, n)
      {
        if InTier(kind, hc, model, n) {
          assert backends[n] in tier;
          var i :| 0 <= i < |tier| && tier[i] == backends[n];
          assert order[i] == n;
        }
        if n in order {
          var i :| 0 <= i < |order| && order[i] == n;
          assert tier[i] in tier;
        }
      }
      r := Picked(info);
    }

    method ReleaseBackend(name: string)
      modifies lb
      ensures lb.active == Released(old(lb.active), name) && lb.rr == old(lb.rr)
    {
      lb.Release(name);
    }
  }

  datatype Response = InvalidJson | NoInput | InputTooLong | Unavailable(name: string) | Spoken(info: BackendInfo)

  datatype SpeechRequest = SpeechRequest(input: string, model: string)

  const DEFAULT_MODEL: string := "kokoro"
  const MAX_INPUT: nat := 4096

  function RequestedModel(req: SpeechRequest): string {
    if Blank(req.model) then DEFAULT_MODEL else req.model
  }

  predicate ValidSpeech(request: Option<SpeechRequest>) {
    request.Some? && !Blank(request.value.input) && |request.value.input| <= MAX_INPUT
  }

  /** The answer to a valid request for `model`, given the loads before it and while it was
      being served, and the turn before and after it. It is refused under the model's name when no available backend advertises the
      model. Otherwise the balancer chooses in the tier, and the chosen backend speaks, or is
      the name refused when it cannot. */
  ghost predicate Answers(rtr: Registry, hc: HealthReads, model: string, r: Response, order: seq<string>,
                          active: Loads, busy: Loads, rr: uint64, rr': uint64)
    reads rtr
  {
    if !rtr.Served(hc, model) then
      r == Unavailable(model) && rr' == rr
    else
      && order != [] && Distinct(order) && (forall n :: n in order <==> rtr.InTier(CapTTS, hc, model, n))
      && rr' == NextTurn(rr, order)
      && var name := Choose(active, rr, order);
      && busy == Acquired(active, name)
      && (forall n :: rtr.InTier(CapTTS, hc, model, n) ==> Load(active, name) <= Load(active, n))
      && name in rtr.backends && Advertises(rtr.backends[name], CapTTS, model)
      && r == if rtr.backends[name].speaks then Spoken(rtr.backends[name]) else Unavailable(name)
  }

  /** The speech handler, the second client of the balancer: the counter it raises it lowers
      again. The model answered for is the requested one, or the default when that is left
      blank. `order` is the list the balancer was given and `busy` the loads while the request
      was being served. */
  method Audio(rtr: Registry, hc: HealthReads, request: Option<SpeechRequest>)
    returns (r: Response, ghost order: seq<string>, ghost busy: Loads)
    requires rtr.Valid()
    modifies rtr.lb
    ensures forall n :: Load(rtr.lb.active, n) == old(Load(rtr.lb.active, n))
    ensures r == InvalidJson <==> request == None
    ensures r == NoInput <==> request.Some? && forall i :: 0 <= i < |request.value.input| ==> Space(request.value.input[i])
    ensures r == InputTooLong <==> request.Some? && !Blank(request.value.input) && |request.value.input| > 4096
    ensures !ValidSpeech(request) ==> rtr.lb.rr == old(rtr.lb.rr)
    ensures ValidSpeech(request) ==>
              var asked := request.value.model;
              && ((exists i :: 0 <= i < |asked| && !Space(asked[i])) ==>
                    Answers(rtr, hc, asked, r, order, old(rtr.lb.active), busy, old(rtr.lb.rr), rtr.lb.rr))
              && ((forall i :: 0 <= i < |asked| ==> Space(asked[i])) ==>
                    Answers(rtr, hc, "kokoro", r, order, old(rtr.lb.active), busy, old(rtr.lb.rr), rtr.lb.rr))
  {
    hide Score, Strength, Advertises, Registry.Capable;
    order, busy := [], rtr.lb.active;
    if request == None {
      return InvalidJson, order, busy;
    }
    var req := request.value;
    if Blank(req.input) {
      return NoInput, order, busy;
    }
    if |req.input| > MAX_INPUT {
      return InputTooLong, order, busy;
    }
    r, order, busy := Speak(rtr, hc, RequestedModel(req));
  }

  lemma NotServed(rtr: Registry, hc: HealthReads, model: string)
    requires || (forall n :: !rtr.Capable(CapTTS, n))
             || (forall n :: !rtr.Available(CapTTS, hc, n))
             || (forall n, m :: rtr.Available(CapTTS, hc, n) && m in rtr.backends[n].models ==>
                   !(m.kind == CapTTS && StartsWith(m.id, model)))
    ensures !rtr.Served(hc, model)
  {
  }

  lemma TierIsServed(rtr: Registry, hc: HealthReads, model: string, n: string)
    requires rtr.InTier(CapTTS, hc, model, n) && Advertises(rtr.backends[n], CapTTS, model)
    ensures rtr.Served(hc, model)
  {
  }

  /** The speech handler once the request is checked and its model settled. */
  method Speak(rtr: Registry, hc: HealthReads, model: string)
    returns (r: Response, ghost order: seq<string>, ghost busy: Loads)
    requires rtr.Valid() && model != ""
    modifies rtr.lb
    ensures forall n :: Load(rtr.lb.active, n) == old(Load(rtr.lb.active, n))
    ensures r.Spoken? || r.Unavailable?
    ensures Answers(rtr, hc, model, r, order, old(rtr.lb.active), busy, old(rtr.lb.rr), rtr.lb.rr)
  {
    hide Score, Strength, StartsWith, Registry.InTier, Registry.Served, Registry.Available, Registry.Capable;
    busy := rtr.lb.active;
    var s;
    s, order := rtr.SelectBackend(CapTTS, model, hc);
    if !s.Picked? {
      NotServed(rtr, hc, model);
      return Unavailable(model), order, busy;
    }
    assert s.info.name in order;
    TierIsServed(rtr, hc, model, s.info.name);
    busy := rtr.lb.active;
    rtr.ReleaseBackend(s.info.name);
    if !s.info.speaks {
      return Unavailable(s.info.name), order, busy;
    }
    return Spoken(s.info), order, busy;
  }

  function ScoreAll(infos: seq<BackendInfo>, kind: Capability, model: string): (s: seq<Scored>)
    ensures |s| == |infos|
    ensures forall i :: 0 <= i < |s| ==> s[i] == Scored(infos[i], Score(infos[i], kind, model))
  {
    if infos == [] then []
    else [Scored(infos[0], Score(infos[0], kind, model))] + ScoreAll(infos[1..], kind, model)
  }

  lemma ScoredMembers(infos: seq<BackendInfo>, kind: Capability, model: string)
    ensures forall x :: x in ScoreAll(infos, kind, model) <==>
              x.info in infos && x.score == Score(x.info, kind, model)
  {
    var scored := ScoreAll(infos, kind, model);
    forall x: Scored | x.info in infos && x.score == Score(x.info, kind, model)
      ensures x in scored
    {
      var i :| 0 <= i < |infos| && infos[i] == x.info;
      assert scored[i] == x;
    }
  }

  /** What the head of the sorted list says about the unsorted one. */
  lemma TopScore(infos: seq<BackendInfo>, kind: Capability, model: string, scored: seq<Scored>, sorted: seq<Scored>)
    requires infos != [] && scored == ScoreAll(infos, kind, model) && StableSortOf(scored, sorted)
    ensures sorted != []
    ensures sorted[0].score < 50 <==> forall x :: x in infos ==> !Advertises(x, kind, model)
    ensures Infos(OfScore(sorted, sorted[0].score)) == Maximal(infos, kind, model, infos)
    ensures Maximal(infos, kind, model, infos) != []
    ensures sorted[0].score >= 50 ==>
              forall x :: x in Maximal(infos, kind, model, infos) ==> Advertises(x, kind, model)
  {
    TopTierIsFilter(scored, sorted);
    ScoredMembers(infos, kind, model);
    forall x | x in infos
      ensures Score(x, kind, model) <= sorted[0].score
    {
      assert Scored(x, Score(x, kind, model)) in scored;
    }
    var top := sorted[0].info;
    assert top in infos && Score(top, kind, model) == sorted[0].score;
    forall x | x in infos
      ensures Score(x, kind, model) >= 50 <==> Advertises(x, kind, model)
    {
      ThresholdMeansMatch(x, kind, model);
    }
    MaximalIsTopScore(infos, kind, model, infos, sorted[0].score);
    assert top in Maximal(infos, kind, model, infos);
  }

  function Infos(s: seq<Scored>): seq<BackendInfo> {
    if s == [] then [] else [s[0].info] + Infos(s[1..])
  }

  lemma {:induction false} InfosConcat(s: seq<Scored>, t: seq<Scored>)
    ensures Infos(s + t) == Infos(s) + Infos(t)
  {
    if s == [] {
      assert s + t == t;
    } else {
      assert (s + t)[1..] == s[1..] + t;
      InfosConcat(s[1..], t);
    }
  }

  /** The entries of `infos` that no entry of `field` outscores, in order. */
  ghost function Maximal(infos: seq<BackendInfo>, kind: Capability, model: string, field: seq<BackendInfo>)
    : (tier: seq<BackendInfo>)
    ensures forall x :: x in tier <==>
              x in infos && forall y :: y in field ==> Score(y, kind, model) <= Score(x, kind, model)
  {
    if infos == [] then
      []
    else
      var rest := Maximal(infos[1..], kind, model, field);
      if forall y :: y in field ==> Score(y, kind, model) <= Score(infos[0], kind, model)
      then [infos[0]] + rest else rest
  }

  lemma {:induction false} MaximalDistinct(infos: seq<BackendInfo>, kind: Capability, model: string, field: seq<BackendInfo>)
    requires DistinctNames(infos)
    ensures DistinctNames(Maximal(infos, kind, model, field))
  {
    hide Score;
    if infos != [] {
      MaximalDistinct(infos[1..], kind, model, field);
      assert forall x :: x in infos[1..] ==> x.name != infos[0].name;
    }
  }

  lemma {:induction false} MaximalIsTopScore(infos: seq<BackendInfo>, kind: Capability, model: string,
                                             field: seq<BackendInfo>, top: int)
    requires forall x :: x in infos ==> x in field
    requires forall y :: y in field ==> Score(y, kind, model) <= top
    requires exists y :: y in field && Score(y, kind, model) == top
    ensures Infos(OfScore(ScoreAll(infos, kind, model), top)) == Maximal(infos, kind, model, field)
  {
    if infos != [] {
      MaximalIsTopScore(infos[1..], kind, model, field, top);
    }
  }
}
