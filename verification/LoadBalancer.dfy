// The least-connections balancer: in-flight counts per backend name and a wrapping turn
// counter that breaks ties round-robin.
module LoadBalancing {
  import opened Basics

  newtype uint64 = x: int | 0 <= x < 0x1_0000_0000_0000_0000

  const TURNS: int := 0x1_0000_0000_0000_0000

  /** In-flight counts; that none ever drops below zero is part of the type. */
  type Loads = map<string, nat>

  /** A missing entry reads as zero. */
  function Load(active: Loads, name: string): nat {
    if name in active then active[name] else 0
  }

  function Acquired(active: Loads, name: string): Loads {
    active[name := Load(active, name) + 1]
  }

  function Released(active: Loads, name: string): Loads {
    if Load(active, name) > 0 then active[name := Load(active, name) - 1] else active
  }

  ghost predicate LeastLoaded(active: Loads, names: seq<string>, pick: string) {
    pick in names && forall n :: n in names ==> Load(active, pick) <= Load(active, n)
  }

  /** The sublist of `names` that carry exactly `load`. */
  function WithLoad(active: Loads, names: seq<string>, load: int): (tied: seq<string>)
    ensures forall n :: n in tied <==> n in names && Load(active, n) == load
    ensures Distinct(names) ==> Distinct(tied)
  {
    if names == [] then
      []
    else
      var rest := WithLoad(active, names[1..], load);
      if Load(active, names[0]) == load then [names[0]] + rest else rest
  }

  lemma {:induction false} WithLoadSnoc(active: Loads, names: seq<string>, name: string, load: int)
    ensures WithLoad(active, names + [name], load)
            == WithLoad(active, names, load) + if Load(active, name) == load then [name] else []
  {
    if names != [] {
      assert (names + [name])[1..] == names[1..] + [name];
      WithLoadSnoc(active, names[1..], name, load);
    }
  }

  function MinLoad(active: Loads, names: seq<string>): (m: int)
    requires names != []
    ensures forall n :: n in names ==> m <= Load(active, n)
    ensures exists n :: n in names && Load(active, n) == m
  {
    if |names| == 1 then
      assert names[0] in names;
      Load(active, names[0])
    else
      var m := MinLoad(active, names[1..]);
      assert forall n :: n in names <==> n == names[0] || n in names[1..];
      if Load(active, names[0]) < m then Load(active, names[0]) else m
  }

  /** The tie list: every least-loaded candidate, in candidate order. */
  function Ties(active: Loads, names: seq<string>): (tied: seq<string>)
    requires names != []
    ensures tied != []
    ensures forall n :: n in tied <==> LeastLoaded(active, names, n)
    ensures Distinct(names) ==> Distinct(tied)
  {
    var tied := WithLoad(active, names, MinLoad(active, names));
    var low :| low in names && Load(active, low) == MinLoad(active, names);
    assert low in tied;
    tied
  }

  /** The name a selection over `names` returns at turn `rr`. */
  function Choose(active: Loads, rr: uint64, names: seq<string>): (pick: string)
    requires names != []
    ensures LeastLoaded(active, names, pick)
  {
    var tied := Ties(active, names);
    var i := if |names| == 1 then 0 else rr as int % |tied|;
    assert tied[i] in tied;
    tied[i]
  }

  /** The turn counter after a selection: a list with no choice leaves it alone, and the
      increment wraps at 2^64. */
  function NextTurn(rr: uint64, names: seq<string>): uint64 {
    if |names| <= 1 then rr
    else if rr == 0xFFFF_FFFF_FFFF_FFFF then 0
    else rr + 1
  }

  class LoadBalancer {
    var active: Loads
    var rr: uint64

    constructor ()
      ensures active == map[] && rr == 0
    {
      active := map[];
      rr := 0;
    }

    method Acquire(name: string)
      modifies this`active
      ensures active == Acquired(old(active), name)
    {
      active := active[name := Load(active, name) + 1];
    }

    method Release(name: string)
      modifies this`active
      ensures active == Released(old(active), name)
    {
      if Load(active, name) > 0 {
        active := active[name := Load(active, name) - 1];
      }
    }

    method Select(names: seq<string>) returns (pick: string)
      modifies this`rr
      ensures names == [] ==> pick == ""
      ensures names != [] ==> pick == Choose(active, old(rr), names)
      ensures rr == NextTurn(old(rr), names)
      ensures |names| <= 1 ==> rr == old(rr)
    {
      if |names| == 0 {
        return "";
      }
      if |names| == 1 {
        return names[0];
      }
      var minLoad := Load(active, names[0]);
      for i := 1 to |names|
        invariant forall n :: n in names[..i] ==> minLoad <= Load(active, n)
        invariant exists n :: n in names[..i] && Load(active, n) == minLoad
      {
        assert names[..i + 1] == names[..i] + [names[i]];
        if Load(active, names[i]) < minLoad {
          minLoad := Load(active, names[i]);
          assert names[i] in names[..i + 1];
        }
      }
      assert names[..|names|] == names;
      var tied := Tie(names, minLoad);
      pick := tied[rr as int % |tied|];
      rr := if rr == 0xFFFF_FFFF_FFFF_FFFF then 0 else rr + 1;
    }

    /** The second pass of Select. */
    method Tie(names: seq<string>, minLoad: int) returns (tied: seq<string>)
      ensures tied == WithLoad(active, names, minLoad)
    {
      tied := [];
      for i := 0 to |names|
        invariant tied == WithLoad(active, names[..i], minLoad)
      {
        WithLoadSnoc(active, names[..i], names[i], minLoad);
        assert names[..i + 1] == names[..i] + [names[i]];
        if Load(active, names[i]) == minLoad {
          tied := tied + [names[i]];
        }
      }
      assert names[..|names|] == names;
    }

    method InFlight(name: string) returns (n: int)
      ensures n == Load(active, name)
    {
      n := Load(active, name);
    }
  }

  // ---- Round-robin over a tie list -------------------------------------------------

  /** The results of `count` consecutive selections while no load changes. */
  function Picks(active: Loads, rr: uint64, names: seq<string>, count: nat): (picks: seq<string>)
    requires names != []
    ensures |picks| == count
    decreases count
  {
    if count == 0 then
      []
    else
      [Choose(active, rr, names)] + Picks(active, NextTurn(rr, names), names, count - 1)
  }

  /** Where there is no choice no turn is taken: the next pick, over any list, is what it
      would have been. */
  lemma NoChoiceNoTurn(active: Loads, rr: uint64, names: seq<string>, later: seq<string>)
    requires |names| <= 1 && later != []
    ensures NextTurn(rr, names) == rr
    ensures Choose(active, NextTurn(rr, names), later) == Choose(active, rr, later)
  {
  }

  /** The tie position read `k` selections after turn `rr`. */
  function TieIndex(rr: uint64, k: nat, ties: nat): (i: nat)
    requires ties > 0
    ensures i < ties
  {
    (rr as int + k) % TURNS % ties
  }

  lemma FirstTieIndex(rr: uint64, ties: nat)
    requires ties > 0
    ensures TieIndex(rr, 0, ties) == rr as int % ties
  {
  }

  lemma NextTieIndex(rr: uint64, names: seq<string>, k: nat, ties: nat)
    requires |names| >= 2 && ties > 0
    ensures TieIndex(NextTurn(rr, names), k, ties) == TieIndex(rr, k + 1, ties)
  {
    var next := NextTurn(rr, names) as int;
    if next == 0 {
      assert (rr as int + k + 1) % TURNS == (0 + k) % TURNS;
    }
  }

  lemma {:induction false} PickAt(active: Loads, rr: uint64, names: seq<string>, count: nat, k: nat)
    requires |names| >= 2 && k < count
    ensures var tied := Ties(active, names);
            Picks(active, rr, names, count)[k] == tied[TieIndex(rr, k, |tied|)]
    decreases k
  {
    hide TieIndex, NextTurn, Ties;
    var tied, next := Ties(active, names), NextTurn(rr, names);
    if k == 0 {
      FirstTieIndex(rr, |tied|);
      assert Picks(active, rr, names, count)[0] == Choose(active, rr, names);
    } else {
      PickAt(active, next, names, count - 1, k - 1);
      NextTieIndex(rr, names, k - 1, |tied|);
      assert Picks(active, rr, names, count)[k] == Picks(active, next, names, count - 1)[k - 1];
    }
  }

  /** A full round is undisturbed by the wrap of the turn counter: it ends before the wrap,
      or the number of ties divides 2^64. */
  predicate RoundFits(rr: uint64, ties: nat)
    requires ties > 0
  {
    rr as int + ties <= TURNS || TURNS % ties == 0
  }

  lemma DivisorKeepsRemainder(a: nat, w: nat, m: nat)
    requires w > 0 && m > 0 && w % m == 0
    ensures a % w % m == a % m
  {
    var r, d := a % w, w / m;
    assert w == d * m;
    assert a == (a / w) * w + r;
    assert (a / w) * w == ((a / w) * d) * m;
    assert r == (r / m) * m + r % m;
    assert ((a / w) * d + r / m) * m == ((a / w) * d) * m + (r / m) * m;
    QuotientAndRemainder(a, m, (a / w) * d + r / m, r % m);
  }

  lemma FittingRemainder(w: int, rr: int, m: int, k: int)
    requires 0 <= rr < w && 0 <= k < m && (rr + m <= w || w % m == 0)
    ensures (rr + k) % w % m == var s := rr % m; if s + k < m then s + k else s + k - m
  {
    if w % m == 0 {
      DivisorKeepsRemainder(rr + k, w, m);
    } else {
      QuotientAndRemainder(rr + k, w, 0, rr + k);
    }
    var q, s := rr / m, rr % m;
    if s + k < m {
      QuotientAndRemainder(rr + k, m, q, s + k);
    } else {
      assert (q + 1) * m == q * m + m;
      QuotientAndRemainder(rr + k, m, q + 1, s + k - m);
    }
  }

  /** When the round fits, it visits the ties in cyclic order from the current turn: the
      list of picks is a rotation of the tie list. */
  lemma RotationInOrder(active: Loads, rr: uint64, names: seq<string>)
    requires |names| >= 2
    requires RoundFits(rr, |Ties(active, names)|)
    ensures var tied := Ties(active, names);
            var s := rr as int % |tied|;
            Picks(active, rr, names, |tied|) == tied[s..] + tied[..s]
  {
    var tied := Ties(active, names);
    var m := |tied|;
    var s := rr as int % m;
    forall k | 0 <= k < m
      ensures Picks(active, rr, names, m)[k] == (tied[s..] + tied[..s])[k]
    {
      PickAt(active, rr, names, m, k);
      FittingRemainder(TURNS, rr as int, m, k);
    }
  }

  /** The tie position that a round of `m` from turn `rr`, broken by a wrap at `w`, never
      reaches. */
  function SkippedTie(w: int, rr: int, m: int): int
    requires m > 0
  {
    if w % m >= w - rr then m - 1 else m - (w - rr) + w % m - 1
  }

  lemma BrokenRoundSkips(w: int, rr: int, m: int, k: int)
    requires 0 <= rr < w && 0 <= k < m && w < rr + m && w % m != 0
    ensures 0 <= SkippedTie(w, rr, m) < m
    ensures (rr + k) % w % m != SkippedTie(w, rr, m)
  {
    var c, q := w % m, w / m;
    if m > w {
      QuotientAndRemainder(w, m, 0, w);
      assert (rr + k) % w % m < m - 1 by {
        QuotientAndRemainder((rr + k) % w, m, 0, (rr + k) % w);
      }
    } else if w <= rr + k {
      QuotientAndRemainder(rr + k, w, 1, rr + k - w);
      QuotientAndRemainder(rr + k - w, m, 0, rr + k - w);
    } else {
      QuotientAndRemainder(rr + k, w, 0, rr + k);
      var r := c - (w - rr) + k;
      if r >= 0 {
        QuotientAndRemainder(rr + k, m, q, r);
      } else {
        assert (q - 1) * m == q * m - m;
        QuotientAndRemainder(rr + k, m, q - 1, m + r);
      }
    }
  }

  /** Round-robin, exactly: `|ties|` consecutive selections over unchanged loads serve every
      tied backend once if and only if the wrap of the 64-bit turn counter does not break the
      round. */
  lemma EveryTieServedOnce(active: Loads, rr: uint64, names: seq<string>)
    requires |names| >= 2 && Distinct(names)
    ensures var tied := Ties(active, names);
            RoundFits(rr, |tied|) <==> multiset(Picks(active, rr, names, |tied|)) == multiset(tied)
  {
    var tied := Ties(active, names);
    var m := |tied|;
    var picks := Picks(active, rr, names, m);
    if RoundFits(rr, m) {
      RotationInOrder(active, rr, names);
      var s := rr as int % m;
      RotationPermutes(tied, s);
    } else {
      BrokenRoundSkips(TURNS, rr as int, m, 0);
      var x := SkippedTie(TURNS, rr as int, m);
      forall k | 0 <= k < m
        ensures picks[k] != tied[x]
      {
        PickAt(active, rr, names, m, k);
        BrokenRoundSkips(TURNS, rr as int, m, k);
        assert tied[TieIndex(rr, k, m)] != tied[x];
      }
      Missing(picks, tied, x);
    }
  }

  lemma RotationPermutes<T>(t: seq<T>, s: nat)
    requires s <= |t|
    ensures multiset(t[s..] + t[..s]) == multiset(t)
  {
    assert t == t[..s] + t[s..];
  }

  lemma Missing<T>(s: seq<T>, t: seq<T>, x: nat)
    requires x < |t| && forall k :: 0 <= k < |s| ==> s[k] != t[x]
    ensures multiset(s) != multiset(t)
  {
    assert t[x] !in s;
    assert t[x] in multiset(t);
  }

  lemma ThreeIdleTies(names: seq<string>)
    requires names == ["a", "b", "c"]
    ensures Ties(map[], names) == names
  {
    assert names[1..][1..] == ["c"];
    assert WithLoad(map[], names[1..][1..], 0) == ["c"];
    assert WithLoad(map[], names[1..], 0) == ["b", "c"];
  }

  /** The wrap really does break a round: three ties at the last turn serve the first tie
      twice and the third not at all. */
  lemma WrapBreaksARound(rr: uint64, names: seq<string>)
    requires rr == 0xFFFF_FFFF_FFFF_FFFF && names == ["a", "b", "c"]
    ensures Picks(map[], rr, names, 3) == [names[0], names[0], names[1]]
  {
    ThreeIdleTies(names);
    assert TieIndex(rr, 0, 3) == 0 && TieIndex(rr, 1, 3) == 0 && TieIndex(rr, 2, 3) == 1;
    PickAt(map[], rr, names, 3, 0);
    PickAt(map[], rr, names, 3, 1);
    PickAt(map[], rr, names, 3, 2);
  }
}
