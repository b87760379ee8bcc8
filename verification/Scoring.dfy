// Matching backends against a requested model: the score, the stable sort by score and the
// top tier.
module Scoring {
  import opened Basics

  datatype Capability = CapChat | CapEmbed | CapTTS

  datatype ModelInfo = ModelInfo(id: string, provider: string, kind: Capability)

  datatype BackendInfo = BackendInfo(name: string, speaks: bool, capabilities: seq<Capability>, models: seq<ModelInfo>)

  datatype Scored = Scored(info: BackendInfo, score: int)

  predicate Exact(m: ModelInfo, kind: Capability, model: string) {
    m.id == model && m.kind == kind
  }

  /** The requested name is a prefix of the model's (an exact match included). */
  predicate Matches(m: ModelInfo, kind: Capability, model: string) {
    model <= m.id && m.kind == kind
  }

  function ModelsScore(models: seq<ModelInfo>, kind: Capability, model: string): nat {
    if models == [] then
      0
    else
      var m := models[|models| - 1];
      ModelsScore(models[..|models| - 1], kind, model) +
      if Exact(m, kind, model) then 100 else if Matches(m, kind, model) then 50 else 0
  }

  function Score(info: BackendInfo, kind: Capability, model: string): nat {
    ModelsScore(info.models, kind, model) + if kind in info.capabilities then 10 else 0
  }

  method ScoreBackend(info: BackendInfo, kind: Capability, model: string) returns (score: int)
    ensures score == Score(info, kind, model)
    ensures score == 50 * Strength(info, kind, model) + if kind in info.capabilities then 10 else 0
  {
    ScoreIsStrength(info, kind, model);
    score := 0;
    for i := 0 to |info.models|
      invariant score == ModelsScore(info.models[..i], kind, model)
    {
      var m := info.models[i];
      assert info.models[..i + 1][..i] == info.models[..i];
      if m.id == model && m.kind == kind {
        score := score + 100;
      } else if |model| <= |m.id| && m.id[..|model|] == model && m.kind == kind {
        score := score + 50;
      }
    }
    assert info.models[..|info.models|] == info.models;
    for i := 0 to |info.capabilities|
      invariant score == ModelsScore(info.models, kind, model)
      invariant kind !in info.capabilities[..i]
    {
      if info.capabilities[i] == kind {
        score := score + 10;
        return;
      }
    }
  }

  // ---- What a score means --------------------------------------------------------------

  ghost predicate StartsWith(id: string, model: string) {
    exists rest :: id == model + rest
  }

  /** Some model of the kind has a name that starts with the requested one. */
  ghost predicate Advertises(info: BackendInfo, kind: Capability, model: string) {
    exists m :: m in info.models && m.kind == kind && StartsWith(m.id, model)
  }

  ghost predicate AdvertisesExactly(info: BackendInfo, kind: Capability, model: string) {
    exists m :: m in info.models && m.kind == kind && m.id == model
  }

  lemma MatchesIs(m: ModelInfo, kind: Capability, model: string)
    ensures Matches(m, kind, model) <==> m.kind == kind && exists rest :: m.id == model + rest
    ensures Exact(m, kind, model) <==> m.kind == kind && m.id == model
    ensures Exact(m, kind, model) ==> Matches(m, kind, model)
  {
    if model <= m.id {
      assert m.id == model + m.id[|model|..];
    }
    if m.id == model {
      assert m.id == model + "";
    }
  }

  ghost function Matching(models: seq<ModelInfo>, kind: Capability, model: string): set<nat> {
    set i | 0 <= i < |models| && models[i].kind == kind && StartsWith(models[i].id, model)
  }

  ghost function ExactlyMatching(models: seq<ModelInfo>, kind: Capability, model: string): set<nat> {
    set i | 0 <= i < |models| && models[i].kind == kind && models[i].id == model
  }

  lemma MatchingGrows(models: seq<ModelInfo>, m: ModelInfo, kind: Capability, model: string)
    ensures |Matching(models + [m], kind, model)|
            == |Matching(models, kind, model)| + if Matches(m, kind, model) then 1 else 0
  {
    var old', new' := Matching(models, kind, model), Matching(models + [m], kind, model);
    MatchesIs(m, kind, model);
    assert forall i :: i in old' <==> i in new' && i != |models|;
    if Matches(m, kind, model) {
      assert new' == old' + {|models|};
    } else {
      assert new' == old';
    }
  }

  lemma ExactlyMatchingGrows(models: seq<ModelInfo>, m: ModelInfo, kind: Capability, model: string)
    ensures |ExactlyMatching(models + [m], kind, model)|
            == |ExactlyMatching(models, kind, model)| + if Exact(m, kind, model) then 1 else 0
  {
    var old', new' := ExactlyMatching(models, kind, model), ExactlyMatching(models + [m], kind, model);
    assert forall i :: i in old' <==> i in new' && i != |models|;
    if Exact(m, kind, model) {
      assert new' == old' + {|models|};
    } else {
      assert new' == old';
    }
  }

  /** What a model score counts: fifty for every matching model and fifty more for every
      exactly matching one. */
  lemma {:induction false} ScoreCounts(models: seq<ModelInfo>, kind: Capability, model: string)
    ensures ModelsScore(models, kind, model)
            == 50 * |Matching(models, kind, model)| + 50 * |ExactlyMatching(models, kind, model)|
  {
    if models != [] {
      var n := |models| - 1;
      ScoreCounts(models[..n], kind, model);
      MatchingGrows(models[..n], models[n], kind, model);
      ExactlyMatchingGrows(models[..n], models[n], kind, model);
      assert models == models[..n] + [models[n]];
    }
  }

  /** How well a backend matches: its models of the kind that start with the requested name,
      the exact ones counted twice. */
  ghost function Strength(info: BackendInfo, kind: Capability, model: string): nat {
    |Matching(info.models, kind, model)| + |ExactlyMatching(info.models, kind, model)|
  }

  /** The score, exactly: fifty for every point of strength, and ten for the capability. */
  lemma ScoreIsStrength(info: BackendInfo, kind: Capability, model: string)
    ensures Score(info, kind, model)
            == 50 * Strength(info, kind, model) + if kind in info.capabilities then 10 else 0
  {
    ScoreCounts(info.models, kind, model);
  }

  lemma ExactWithinMatching(models: seq<ModelInfo>, kind: Capability, model: string)
    ensures ExactlyMatching(models, kind, model) <= Matching(models, kind, model)
  {
    forall i | i in ExactlyMatching(models, kind, model)
      ensures i in Matching(models, kind, model)
    {
      assert models[i].id == model + "";
    }
  }

  /** The threshold of 50 separates a model match from the capability bonus alone. */
  lemma ThresholdMeansMatch(info: BackendInfo, kind: Capability, model: string)
    ensures Score(info, kind, model) >= 50 <==> Advertises(info, kind, model)
  {
    ScoreIsStrength(info, kind, model);
    if Advertises(info, kind, model) {
      var m :| m in info.models && m.kind == kind && StartsWith(m.id, model);
      var i :| 0 <= i < |info.models| && info.models[i] == m;
      assert i in Matching(info.models, kind, model);
    } else {
      assert Matching(info.models, kind, model) == {};
      ExactWithinMatching(info.models, kind, model);
    }
  }

  /** Exactly when a backend with an exact match outranks a capable one without: when it has
      more matches, its exact ones counted twice. */
  lemma ExactOutranksIff(a: BackendInfo, b: BackendInfo, kind: Capability, model: string)
    requires kind in a.capabilities && kind in b.capabilities
    requires AdvertisesExactly(a, kind, model) && !AdvertisesExactly(b, kind, model)
    ensures Score(a, kind, model) > Score(b, kind, model) <==>
              |Matching(b.models, kind, model)|
              < |Matching(a.models, kind, model)| + |ExactlyMatching(a.models, kind, model)|
  {
    ScoreIsStrength(a, kind, model);
    ScoreIsStrength(b, kind, model);
    assert ExactlyMatching(b.models, kind, model) == {};
  }

  /** An exact match outranks every backend without one that lists a single model, as each
      backend the gateway registers does. */
  lemma ExactOutranksPrefix(a: BackendInfo, b: BackendInfo, kind: Capability, model: string)
    requires |b.models| <= 1
    requires kind in a.capabilities && AdvertisesExactly(a, kind, model) && !AdvertisesExactly(b, kind, model)
    ensures Score(a, kind, model) > Score(b, kind, model)
  {
    ExactOutranksIff(a, b.(capabilities := [kind]), kind, model);
    var m :| m in a.models && m.kind == kind && m.id == model;
    var i :| 0 <= i < |a.models| && a.models[i] == m;
    MatchesIs(m, kind, model);
    assert i in Matching(a.models, kind, model) && i in ExactlyMatching(a.models, kind, model);
    if 0 in Matching(b.models, kind, model) {
      assert Matching(b.models, kind, model) == {0};
    } else {
      assert Matching(b.models, kind, model) == {};
    }
  }

  /** With several models per backend it need not: two prefix matches tie with one exact
      match and three beat it. */
  lemma PrefixesCanOutrankExact(a: BackendInfo, b: BackendInfo, c: BackendInfo)
    requires a == BackendInfo("a", true, [CapTTS], [ModelInfo("m", "", CapTTS)])
    requires b == BackendInfo("b", true, [CapTTS], [ModelInfo("m1", "", CapTTS), ModelInfo("m2", "", CapTTS)])
    requires c == BackendInfo("c", true, [CapTTS], b.models + [ModelInfo("m3", "", CapTTS)])
    ensures AdvertisesExactly(a, CapTTS, "m") && !AdvertisesExactly(c, CapTTS, "m")
    ensures Score(a, CapTTS, "m") == Score(b, CapTTS, "m") < Score(c, CapTTS, "m")
  {
    assert Exact(a.models[0], CapTTS, "m") && Matches(a.models[0], CapTTS, "m");
    assert a.models == [] + [a.models[0]];
    assert b.models == ([] + [b.models[0]]) + [b.models[1]];
    forall m | m in c.models
      ensures Matches(m, CapTTS, "m") && !Exact(m, CapTTS, "m")
    {
    }
    ScoreSnoc([], a.models[0], CapTTS, "m");
    ScoreSnoc([], b.models[0], CapTTS, "m");
    ScoreSnoc([] + [b.models[0]], b.models[1], CapTTS, "m");
    ScoreSnoc(b.models, c.models[2], CapTTS, "m");
  }

  lemma ScoreSnoc(models: seq<ModelInfo>, m: ModelInfo, kind: Capability, model: string)
    ensures ModelsScore(models + [m], kind, model) == ModelsScore(models, kind, model) +
            if Exact(m, kind, model) then 100 else if Matches(m, kind, model) then 50 else 0
  {
    assert (models + [m])[..|models|] == models;
  }

  // ---- Stable sort by score, highest first ---------------------------------------------

  /** The entries of `s` with a given score, in order. */
  function OfScore(s: seq<Scored>, score: int): (t: seq<Scored>)
    ensures forall x :: x in t <==> x in s && x.score == score
  {
    if s == [] then []
    else if s[0].score == score then [s[0]] + OfScore(s[1..], score)
    else OfScore(s[1..], score)
  }

  ghost predicate Descending(s: seq<Scored>) {
    forall i, j :: 0 <= i < j < |s| ==> s[i].score >= s[j].score
  }

  /** The same entries in the same order within every score. */
  ghost predicate SameWithinScores(s: seq<Scored>, t: seq<Scored>) {
    forall score :: OfScore(s, score) == OfScore(t, score)
  }

  ghost predicate StableSortOf(s: seq<Scored>, t: seq<Scored>) {
    Descending(t) && SameWithinScores(s, t)
  }

  lemma {:induction false} OfScoreConcat(s: seq<Scored>, t: seq<Scored>, score: int)
    ensures OfScore(s + t, score) == OfScore(s, score) + OfScore(t, score)
  {
    if s == [] {
      assert s + t == t;
    } else {
      OfScoreConcat(s[1..], t, score);
      assert (s + t)[0] == s[0] && (s + t)[1..] == s[1..] + t;
      var u, v := OfScore(s[1..], score), OfScore(t, score);
      assert [s[0]] + (u + v) == ([s[0]] + u) + v;
    }
  }

  lemma SwapKeepsOrderWithinScores(s: seq<Scored>, j: nat)
    requires 0 < j < |s| && s[j - 1].score != s[j].score
    ensures SameWithinScores(s, s[j - 1 := s[j]][j := s[j - 1]])
  {
    var t := s[j - 1 := s[j]][j := s[j - 1]];
    forall score
      ensures OfScore(s, score) == OfScore(t, score)
    {
      var u, v, x, y := s[..j - 1], s[j + 1..], s[j - 1], s[j];
      assert s == u + ([x, y] + v) && t == u + ([y, x] + v);
      OfScoreConcat(u, [x, y] + v, score);
      OfScoreConcat(u, [y, x] + v, score);
      assert ([x, y] + v)[1..] == [y] + v && ([y, x] + v)[1..] == [x] + v;
      assert ([y] + v)[1..] == v && ([x] + v)[1..] == v;
    }
  }

  /** Descending up to `end`, except that the entry at `j` may still have to move down. */
  ghost predicate SinkingAt(s: seq<Scored>, end: nat, j: nat)
    requires end < |s|
  {
    forall p, q :: 0 <= p < q <= end && q != j ==> s[p].score >= s[q].score
  }

  lemma SwapSinks(s: seq<Scored>, end: nat, j: nat, t: seq<Scored>)
    requires 0 < j <= end < |s| && SinkingAt(s, end, j) && s[j].score > s[j - 1].score
    requires t == s[j - 1 := s[j]][j := s[j - 1]]
    ensures SinkingAt(t, end, j - 1) && SameWithinScores(s, t)
  {
    SwapKeepsOrderWithinScores(s, j);
    forall p, q | 0 <= p < q <= end && q != j - 1
      ensures t[p].score >= t[q].score
    {
      assert q != j ==> s[p].score >= s[q].score;
      assert p < j - 1 ==> s[p].score >= s[j - 1].score;
      assert q > j ==> s[j - 1].score >= s[q].score && s[j].score >= s[q].score;
    }
  }

  /** Moves the entry at `i` down past every lower score above it. */
  method Sink(a: array<Scored>, i: nat)
    requires i < a.Length && Descending(a[..i])
    modifies a
    ensures Descending(a[..i + 1]) && SameWithinScores(old(a[..]), a[..])
  {
    var j := i;
    assert SinkingAt(a[..], i, j) by {
      assert forall p :: 0 <= p < i ==> a[..i][p] == a[p];
    }
    while j > 0 && a[j].score > a[j - 1].score
      invariant 0 <= j <= i
      invariant SinkingAt(a[..], i, j)
      invariant SameWithinScores(old(a[..]), a[..])
    {
      ghost var before := a[..];
      a[j - 1], a[j] := a[j], a[j - 1];
      SwapSinks(before, i, j, a[..]);
      j := j - 1;
    }
    forall p, q | 0 <= p < q < i + 1
      ensures a[p].score >= a[q].score
    {
      assert q != j ==> a[..][p].score >= a[..][q].score;
      assert q == j && p < j - 1 ==> a[..][p].score >= a[..][j - 1].score;
    }
  }

  /** The sort of the score list, in place and by adjacent swaps. */
  method SortStable(a: array<Scored>)
    modifies a
    ensures StableSortOf(old(a[..]), a[..])
  {
    for i := 0 to a.Length
      invariant Descending(a[..i])
      invariant SameWithinScores(old(a[..]), a[..])
    {
      Sink(a, i);
    }
    assert a[..a.Length] == a[..];
  }

  /** The specification pins the sort down: any two stable sorts of a list are equal, so the
      algorithm does not matter. */
  lemma {:induction false} StableSortIsUnique(s: seq<Scored>, t: seq<Scored>, u: seq<Scored>)
    requires StableSortOf(s, t) && StableSortOf(s, u)
    ensures t == u
    decreases |t|
  {
    assert u != [] ==> u[0] in OfScore(u, u[0].score) && OfScore(s, u[0].score) == OfScore(t, u[0].score);
    if t != [] {
      assert t[0] in OfScore(t, t[0].score) && OfScore(s, t[0].score) == OfScore(u, t[0].score);
      assert t[0] in u && u != [];
      assert u[0] in t;
      assert t[0].score == u[0].score;
      assert OfScore(t, t[0].score) == OfScore(u, t[0].score);
      assert t[0] == OfScore(t, t[0].score)[0] && u[0] == OfScore(u, u[0].score)[0];
      forall score
        ensures OfScore(t[1..], score) == OfScore(u[1..], score)
      {
        assert OfScore(t, score) == OfScore(s, score) == OfScore(u, score);
        if t[0].score == score {
          assert OfScore(t[1..], score) == OfScore(t, score)[1..];
          assert OfScore(u[1..], score) == OfScore(u, score)[1..];
        }
      }
      StableSortIsUnique(t[1..], t[1..], u[1..]);
    }
  }

  /** Sorting and scanning for the top score is filtering by the maximum score, with the
      order of the list preserved. */
  lemma TopTierIsFilter(s: seq<Scored>, t: seq<Scored>)
    requires StableSortOf(s, t) && s != []
    ensures t != []
    ensures forall x :: x in s ==> x.score <= t[0].score
    ensures t[0] in s
    ensures OfScore(t, t[0].score) == OfScore(s, t[0].score)
  {
    forall x | x in s
      ensures x in t
    {
      assert x in OfScore(s, x.score) && OfScore(s, x.score) == OfScore(t, x.score);
    }
    assert s[0] in t;
    assert t[0] in OfScore(t, t[0].score) && OfScore(s, t[0].score) == OfScore(t, t[0].score);
  }
}
