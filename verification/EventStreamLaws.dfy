// Printing and scanning are inverse on exactly the payload lists that survive a relay.
module EventStreamLaws {
  import opened Basics
  import opened EventStream

  lemma LineLengthIs(s: string, n: nat)
    requires n <= |s| && '\n' !in s[..n] && (n < |s| ==> s[n] == '\n')
    ensures LineLength(s) == n
  {
  }

  predicate EndsInCR(s: string) {
    s != [] && s[|s| - 1] == '\r'
  }

  /** The first two lines of a printed stream whose first payload has no line feed. */
  lemma FirstFrame(p: string, tail: string)
    requires '\n' !in p
    ensures var s := Frame(p) + tail;
            && s != [] && LineLength(s) == |DATA| + |p|
            && FirstLine(s) == DropCR(DATA + p)
            && AfterLine(s) == "\n" + tail
  {
    var s, n := Frame(p) + tail, |DATA| + |p|;
    assert s[..n] == DATA + p;
    assert s[n..] == "\n\n" + tail;
    assert s[n] == '\n';
    LineLengthIs(s, n);
    assert s[n + 1..] == "\n" + tail;
  }

  lemma ScanBlank(tail: string, endWithLastBytes: bool)
    ensures ScanFrom("\n" + tail, endWithLastBytes) == ScanFrom(tail, endWithLastBytes)
  {
    var s := "\n" + tail;
    assert LineLength(s) == 0;
    assert AfterLine(s) == tail && FirstLine(s) == "";
  }

  lemma LineParts(line: string, tail: string)
    requires '\n' !in line
    ensures var s := line + "\n" + tail;
            s != [] && LineLength(s) == |line| && FirstLine(s) == DropCR(line) && AfterLine(s) == tail
  {
    var s, n := line + "\n" + tail, |line|;
    assert s[..n] == line && s[n] == '\n' && s[n + 1..] == tail;
    LineLengthIs(s, n);
  }

  /** A data line, with or without a carriage return at its end, delivers its payload unless
      it fills the buffer of 1048576 bytes; [DONE] ends the scan. */
  lemma ScanDataLine(p: string, cr: bool, tail: string, endWithLastBytes: bool)
    requires '\n' !in p && !EndsInCR(p)
    ensures var line := "data: " + p + if cr then "\r" else "";
            var s, rest := ScanFrom(line + "\n" + tail, endWithLastBytes), ScanFrom(tail, endWithLastBytes);
            if |line| >= 1048576 then s == Scan([], true)
            else if p == "[DONE]" then s == Scan(["[DONE]"], false)
            else s == Scan([p] + rest.payloads, rest.tooLong)
  {
    var line := "data: " + p + if cr then "\r" else "";
    LineParts(line, tail);
    assert line[..6 + |p|] == "data: " + p;
    assert DropCR(line) == DATA + p;
    assert (DATA + p)[6..] == p;
    hide LineLength, FirstLine, AfterLine, DropCR;
  }

  /** Any other line delivers nothing. */
  lemma ScanOtherLine(line: string, tail: string, endWithLastBytes: bool)
    requires '\n' !in line && !("data: " <= line)
    ensures ScanFrom(line + "\n" + tail, endWithLastBytes)
            == if |line| >= 1048576 then Scan([], true) else ScanFrom(tail, endWithLastBytes)
  {
    LineParts(line, tail);
    assert DATA <= DropCR(line) ==> DATA <= line;
    hide LineLength, FirstLine, AfterLine, DropCR;
  }

  /** A last line without a line feed is read like one with it; if it just fills the buffer,
      it passes when the end was reported with it. */
  lemma ScanLastLine(line: string, endWithLastBytes: bool)
    requires line != [] && '\n' !in line
    ensures |line| < 1048576 ==> ScanFrom(line, endWithLastBytes) == ScanFrom(line + "\n", endWithLastBytes)
    ensures ScanFrom(line, endWithLastBytes).tooLong
            <==> |line| > 1048576 || (|line| == 1048576 && !endWithLastBytes)
  {
    LineParts(line, "");
    assert line + "\n" + "" == line + "\n";
    LineLengthIs(line, |line|);
    assert line[..|line|] == line;
    hide LineLength, DropCR;
    assert FirstLine(line) == DropCR(line) && AfterLine(line) == [];
    assert ScanFrom([], endWithLastBytes) == Scan([], false);
  }

  function WithoutCR(p: string): string {
    if EndsInCR(p) then p[..|p| - 1] else p
  }

  lemma DropCRAfterData(p: string)
    ensures DropCR(DATA + p) == DATA + WithoutCR(p)
    ensures (DATA + WithoutCR(p))[|DATA|..] == WithoutCR(p)
  {
    if p == [] {
      assert DATA + p == DATA;
    } else {
      assert (DATA + p)[..|DATA + p| - 1] == DATA + p[..|p| - 1];
    }
  }

  /** Scanning past one printed payload. */
  lemma ScanFrame(p: string, tail: string, endWithLastBytes: bool)
    requires '\n' !in p
    ensures var s := ScanFrom(Frame(p) + tail, endWithLastBytes);
            var rest := ScanFrom(tail, endWithLastBytes);
            if |DATA| + |p| >= LIMIT then s == Scan([], true)
            else if WithoutCR(p) == DONE then s == Scan([DONE], false)
            else s == Scan([WithoutCR(p)] + rest.payloads, rest.tooLong)
  {
    hide Frame, LineLength, FirstLine, AfterLine, DropCR, WithoutCR;
    FirstFrame(p, tail);
    ScanBlank(tail, endWithLastBytes);
    DropCRAfterData(p);
    assert DATA <= DATA + WithoutCR(p);
    assert |Frame(p) + tail| > |DATA| + |p| by { FrameLength(p); }
  }

  lemma FrameLength(p: string)
    ensures |Frame(p)| == |DATA| + |p| + 2
  {
  }

  /** A payload that comes back from the scanner as it was printed. */
  predicate Relayable(p: string) {
    '\n' !in p && !EndsInCR(p) && |DATA| + |p| < LIMIT
  }

  ghost predicate RelayableList(ps: seq<string>) {
    && (forall i :: 0 <= i < |ps| ==> Relayable(ps[i]))
    && (forall i :: 0 <= i < |ps| - 1 ==> ps[i] != DONE)
  }

  lemma {:induction false} ScannedPayloads(s: string, endWithLastBytes: bool)
    ensures var ps := ScanFrom(s, endWithLastBytes).payloads;
            && (forall p :: p in ps ==> '\n' !in p && |DATA| + |p| <= LIMIT)
            && (!endWithLastBytes ==> forall p :: p in ps ==> |DATA| + |p| < LIMIT)
            && (forall i :: 0 <= i < |ps| - 1 ==> ps[i] != DONE)
    decreases |s|
  {
    if s != [] && !TooLong(s, endWithLastBytes) {
      ScannedPayloads(AfterLine(s), endWithLastBytes);
      var line := FirstLine(s);
      assert '\n' !in line;
      if DATA <= line {
        assert '\n' !in line[|DATA|..];
      }
    }
  }

  /** Round trip, exactly: scanning a printed list gives back the list, without error, if and
      only if no payload has a line feed, ends in a carriage return or overflows the scanner,
      and [DONE] can only come last. */
  lemma {:induction false} RoundTripIff(ps: seq<string>, endWithLastBytes: bool)
    ensures ScanFrom(Printed(ps), endWithLastBytes) == Scan(ps, false) <==> RelayableList(ps)
  {
    if ps != [] {
      var p, rest := ps[0], ps[1..];
      assert ps == [p] + rest;
      if '\n' in p {
        ScannedPayloads(Printed(ps), endWithLastBytes);
        assert p in ps;
      } else {
        ScanFrame(p, Printed(rest), endWithLastBytes);
        RoundTripIff(rest, endWithLastBytes);
        TailRelayable(ps);
        if |DATA| + |p| < LIMIT && !EndsInCR(p) && p != DONE {
          var scan := ScanFrom(Printed(rest), endWithLastBytes);
          assert ([p] + scan.payloads)[1..] == scan.payloads;
        }
      }
    }
  }

  lemma TailRelayable(ps: seq<string>)
    requires ps != []
    ensures RelayableList(ps) <==> Relayable(ps[0]) && (ps[0] == DONE ==> ps[1..] == []) && RelayableList(ps[1..])
  {
    var rest := ps[1..];
    if Relayable(ps[0]) && (ps[0] == DONE ==> rest == []) && RelayableList(rest) {
      forall i | 0 <= i < |ps|
        ensures Relayable(ps[i]) && (i < |ps| - 1 ==> ps[i] != DONE)
      {
        if i > 0 {
          assert ps[i] == rest[i - 1];
        }
      }
    }
    if RelayableList(ps) {
      forall i | 0 <= i < |rest|
        ensures Relayable(rest[i]) && (i < |rest| - 1 ==> rest[i] != DONE)
      {
        assert rest[i] == ps[i + 1];
      }
    }
  }

  lemma {:induction false} PrintedInjective(ps: seq<string>, qs: seq<string>)
    requires Printed(ps) == Printed(qs)
    requires (forall p :: p in ps ==> '\n' !in p) && (forall q :: q in qs ==> '\n' !in q)
    ensures ps == qs
  {
    if ps != [] && qs != [] {
      FirstFrame(ps[0], Printed(ps[1..]));
      FirstFrame(qs[0], Printed(qs[1..]));
      var s, n := Printed(ps), |DATA| + |ps[0]|;
      assert s[..n] == DATA + ps[0] && s[..n] == DATA + qs[0];
      assert ps[0] == s[..n][|DATA|..] == qs[0];
      assert s[n + 2..] == Printed(ps[1..]) && s[n + 2..] == Printed(qs[1..]);
      PrintedInjective(ps[1..], qs[1..]);
    }
  }

  lemma {:induction false} OverflowLosesPayloads(ps: seq<string>, endWithLastBytes: bool)
    requires forall p :: p in ps ==> '\n' !in p
    ensures var scan := ScanFrom(Printed(ps), endWithLastBytes);
            scan.tooLong ==> |scan.payloads| < |ps|
  {
    if ps != [] {
      OverflowLosesPayloads(ps[1..], endWithLastBytes);
      ScanFrame(ps[0], Printed(ps[1..]), endWithLastBytes);
    }
  }

  /** Relaying a relayed stream reproduces it byte for byte if and only if no payload of it
      ends in a carriage return (no upstream data line ended in two) and none has exactly the
      length that only the end of a body lets through. */
  lemma RelayTwiceIff(up: Upstream, again: bool)
    ensures var ps := ScanFrom(up.body, up.endWithLastBytes).payloads;
            Printed(ScanFrom(Printed(ps), again).payloads) == Printed(ps)
            <==> forall p :: p in ps ==> !EndsInCR(p) && |DATA| + |p| != LIMIT
  {
    var ps := ScanFrom(up.body, up.endWithLastBytes).payloads;
    var out := Printed(ps);
    var scan := ScanFrom(out, again);
    ScannedPayloads(up.body, up.endWithLastBytes);
    ScannedPayloads(out, again);
    RoundTripIff(ps, again);
    OverflowLosesPayloads(ps, again);
    if forall p :: p in ps ==> !EndsInCR(p) && |DATA| + |p| != LIMIT {
      assert RelayableList(ps);
    }
    if Printed(scan.payloads) == out {
      PrintedInjective(scan.payloads, ps);
      forall p | p in ps
        ensures !EndsInCR(p) && |DATA| + |p| != LIMIT
      {
        assert Relayable(p);
      }
    }
  }
}
