// An independent reader: parsing and interpreting an event stream as sections 9.2.5 and 9.2.6
// of the WHATWG HTML Standard lay it down for browsers, on the decoded character stream.
module EventStreamClient {
  import opened Basics
  import opened EventStream
  import Laws = EventStreamLaws

  datatype Message = Message(eventType: string, data: string, lastEventId: string)

  datatype Buffers = Buffers(data: string, eventType: string, lastEventId: string)

  predicate Eol(c: char) {
    c == '\n' || c == '\r'
  }

  /** The length of the first line; the whole length when no line end follows. */
  function LineEnd(s: string): (n: nat)
    ensures n <= |s|
    ensures forall i :: 0 <= i < n ==> !Eol(s[i])
    ensures n < |s| ==> Eol(s[n])
  {
    if s == [] || Eol(s[0]) then 0 else 1 + LineEnd(s[1..])
  }

  /** A line ends with CR LF, LF or CR. */
  function AfterEol(s: string): (rest: string)
    requires s != [] && Eol(s[0])
    ensures |rest| < |s|
  {
    if s[0] == '\r' && |s| > 1 && s[1] == '\n' then s[2..] else s[1..]
  }

  function Colon(line: string): (n: nat)
    ensures n <= |line|
    ensures forall i :: 0 <= i < n ==> line[i] != ':'
    ensures n < |line| ==> line[n] == ':'
  {
    if line == [] || line[0] == ':' then 0 else 1 + Colon(line[1..])
  }

  /** A value loses one leading space. */
  function FieldValue(line: string): (value: string) {
    var n := Colon(line);
    if n == |line| then []
    else if n + 1 < |line| && line[n + 1] == ' ' then line[n + 2..]
    else line[n + 1..]
  }

  /** A non-empty line; comments start with a colon, so their field name is empty. */
  function Field(b: Buffers, line: string): Buffers {
    var name, value := line[..Colon(line)], FieldValue(line);
    if name == "data" then b.(data := b.data + value + "\n")
    else if name == "event" then b.(eventType := value)
    else if name == "id" && '\0' !in value then b.(lastEventId := value)
    else b
  }

  /** An empty line: nothing is dispatched while the data buffer is empty. */
  function Dispatched(b: Buffers): seq<Message> {
    if b.data == "" then []
    else
      var last := |b.data| - 1;
      [Message(if b.eventType == "" then "message" else b.eventType,
               if b.data[last] == '\n' then b.data[..last] else b.data,
               b.lastEventId)]
  }

  /** The messages dispatched for a stream; an incomplete event at its end is discarded. */
  function Interpret(s: string, b: Buffers): seq<Message>
    decreases |s|
  {
    var n := LineEnd(s);
    if n == |s| then []
    else if n == 0 then Dispatched(b) + Interpret(AfterEol(s), Buffers("", "", b.lastEventId))
    else Interpret(AfterEol(s[n..]), Field(b, s[..n]))
  }

  const EMPTY: Buffers := Buffers("", "", "")

  /** One leading byte order mark is ignored. */
  function Messages(s: string): seq<Message> {
    if s != [] && s[0] == '\U{FEFF}' then Interpret(s[1..], EMPTY) else Interpret(s, EMPTY)
  }

  function AsMessages(ps: seq<string>): (ms: seq<Message>)
    ensures |ms| == |ps|
    ensures forall i :: 0 <= i < |ps| ==> ms[i] == Message("message", ps[i], "")
  {
    if ps == [] then [] else [Message("message", ps[0], "")] + AsMessages(ps[1..])
  }

  predicate SingleLine(p: string) {
    forall i :: 0 <= i < |p| ==> !Eol(p[i])
  }

  lemma LineEndIs(s: string, n: nat)
    requires n < |s| && Eol(s[n]) && forall i :: 0 <= i < n ==> !Eol(s[i])
    ensures LineEnd(s) == n
  {
  }

  lemma DataField(value: string, b: Buffers)
    ensures Field(b, DATA + value) == b.(data := b.data + value + "\n")
  {
    var line := DATA + value;
    assert line[4] == ':' && line[5] == ' ' && forall i :: 0 <= i < 4 ==> line[i] != ':';
    assert Colon(line) == 4;
    assert line[..4] == "data" && line[6..] == value;
  }

  lemma LineEndAfter(prefix: string, t: string)
    requires SingleLine(prefix) && LineEnd(t) < |t|
    ensures LineEnd(prefix + t) == |prefix| + LineEnd(t)
  {
    var s, n := prefix + t, LineEnd(t);
    assert forall i :: |prefix| <= i < |prefix| + n ==> s[i] == t[i - |prefix|];
    LineEndIs(s, |prefix| + n);
  }

  /** The end of a frame, and whatever is printed after it. */
  ghost predicate FrameEnd(z: string) {
    |z| >= 2 && z[0] == '\n' && z[1] == '\n'
  }

  /** Reading a frame up to its first line end. */
  lemma FrameStart(p: string, z: string)
    requires FrameEnd(z)
    ensures var n := LineEnd(p + z);
            n <= |p| && Interpret(DATA + (p + z), EMPTY)
            == Interpret(AfterEol((p + z)[n..]), Buffers(p[..n] + "\n", "", ""))
  {
    hide Field, AfterEol, Dispatched;
    var t := p + z;
    var s, n := DATA + t, LineEnd(t);
    assert t[|p|] == '\n';
    LineEndAfter(DATA, t);
    assert t[..n] == p[..n];
    assert s[..|DATA| + n] == DATA + p[..n];
    assert s[|DATA| + n..] == t[n..];
    DataField(p[..n], EMPTY);
    assert EMPTY.data + p[..n] + "\n" == p[..n] + "\n";
  }

  lemma FieldGrowth(b: Buffers, line: string)
    requires line != [] && b.data != "" && b.data[|b.data| - 1] == '\n'
    ensures var b' := Field(b, line);
            b'.data != "" && b'.data[|b'.data| - 1] == '\n' && |b'.data| <= |b.data| + |line|
  {
  }

  /** Where the second line of `q` starts, its first line ending at `n` inside `q`. */
  function CutAt(q: string, n: nat): (m: nat)
    requires n < |q|
    ensures n < m <= |q|
  {
    if q[n] == '\r' && n + 1 < |q| && q[n + 1] == '\n' then n + 2 else n + 1
  }

  /** The first line of `q` runs up to the end of its frame. */
  predicate RunsOut(q: string, n: nat) {
    n >= |q| || (q[n] == '\r' && n + 1 == |q|)
  }

  lemma AfterEolAt(s: string, n: nat)
    requires n < |s| && Eol(s[n])
    ensures AfterEol(s[n..]) == if s[n] == '\r' && n + 1 < |s| && s[n + 1] == '\n' then s[n + 2..] else s[n + 1..]
  {
    assert s[n..][1..] == s[n + 1..];
    assert n + 1 < |s| ==> s[n..][2..] == s[n + 2..];
  }

  lemma DropConcat<T>(a: seq<T>, b: seq<T>, m: nat)
    requires m <= |a| + |b|
    ensures (a + b)[m..] == if m <= |a| then a[m..] + b else b[m - |a|..]
  {
  }

  /** What follows the first line of the rest of a frame: a blank line if that line reaches
      the end of the payload, otherwise a shorter rest. */
  lemma RestOfFrame(q: string, z: string) returns (n: nat)
    requires FrameEnd(z)
    ensures n == LineEnd(q + z) <= |q| && (q + z)[..n] == q[..n]
    ensures AfterEol((q + z)[n..]) == if RunsOut(q, n) then z[1..] else q[CutAt(q, n)..] + z
  {
    hide AfterEol;
    var s := q + z;
    n := LineEnd(s);
    assert s[|q|] == z[0] && s[|q| + 1] == z[1];
    AfterEolAt(s, n);
    DropConcat(q, z, if RunsOut(q, n) then |q| + 1 else CutAt(q, n));
  }

  lemma BlankEnds(s: string, b: Buffers)
    requires s != [] && s[0] == '\n' && b.data != "" && b.data[|b.data| - 1] == '\n'
    ensures var ms := Interpret(s, b);
            ms != [] && |ms[0].data| == |b.data| - 1
  {
  }

  /** A blank line dispatches the buffered data. */
  lemma BlankDispatches(s: string, data: string)
    requires s != [] && s[0] == '\n'
    ensures Interpret(s, Buffers(data + "\n", "", ""))
            == [Message("message", data, "")] + Interpret(s[1..], EMPTY)
  {
    assert (data + "\n")[..|data|] == data;
  }

  lemma SplitFrame(p: string, tail: string)
    ensures Frame(p) + tail == DATA + (p + ("\n\n" + tail))
    ensures FrameEnd("\n\n" + tail) && ("\n\n" + tail)[1..][1..] == tail
  {
  }

  /** A one-line payload is one message with exactly that data. */
  lemma FrameIsOneMessage(p: string, tail: string)
    requires SingleLine(p)
    ensures Interpret(Frame(p) + tail, EMPTY) == [Message("message", p, "")] + Interpret(tail, EMPTY)
  {
    hide Interpret, AfterEol, Frame;
    var z := "\n\n" + tail;
    SplitFrame(p, tail);
    FrameStart(p, z);
    var n := RestOfFrame(p, z);
    assert p[..n] == p;
    BlankDispatches(z[1..], p);
  }

  /** With data buffered, what is left of a frame adds at most its own length to the first
      message: a field line is longer than its value. */
  lemma {:induction false} FirstMessageLength(q: string, z: string, b: Buffers)
    requires FrameEnd(z) && b.data != "" && b.data[|b.data| - 1] == '\n'
    ensures var ms := Interpret(q + z, b);
            ms != [] && |ms[0].data| <= |b.data| - 1 + |q|
    decreases |q|
  {
    hide Field, AfterEol;
    var n := RestOfFrame(q, z);
    if n > 0 {
      var b' := Field(b, (q + z)[..n]);
      FieldGrowth(b, (q + z)[..n]);
      if RunsOut(q, n) {
        BlankEnds(z[1..], b');
      } else {
        FirstMessageLength(q[CutAt(q, n)..], z, b');
      }
    }
  }

  /** A payload broken by a line end reaches the client shortened. */
  lemma BrokenPayloadShortened(p: string, tail: string)
    requires !SingleLine(p)
    ensures var ms := Interpret(Frame(p) + tail, EMPTY);
            ms != [] && |ms[0].data| < |p|
  {
    hide Interpret, AfterEol, Frame;
    var z := "\n\n" + tail;
    SplitFrame(p, tail);
    FrameStart(p, z);
    var n := RestOfFrame(p, z);
    var i :| 0 <= i < |p| && Eol(p[i]);
    assert (p + z)[i] == p[i];
    var b := Buffers(p[..n] + "\n", "", "");
    if RunsOut(p, n) {
      BlankEnds(z[1..], b);
    } else {
      FirstMessageLength(p[CutAt(p, n)..], z, b);
    }
  }

  lemma {:induction false} InterpretPrinted(ps: seq<string>)
    ensures Interpret(Printed(ps), EMPTY) == AsMessages(ps) <==> forall p :: p in ps ==> SingleLine(p)
  {
    if ps != [] {
      var p, rest := ps[0], ps[1..];
      InterpretPrinted(rest);
      assert forall x :: x in ps <==> x == p || x in rest;
      if SingleLine(p) {
        FrameIsOneMessage(p, Printed(rest));
        var ms := Interpret(Printed(rest), EMPTY);
        assert ([Message("message", p, "")] + ms)[1..] == ms;
        assert AsMessages(ps)[1..] == AsMessages(rest);
      } else {
        BrokenPayloadShortened(p, Printed(rest));
        assert AsMessages(ps)[0].data == p;
      }
    }
  }

  /** Conformance, exactly: a standard client dispatches one message per payload, with that
      payload as its data, if and only if no payload contains a CR or an LF. */
  lemma ClientSeesPayloadsIff(ps: seq<string>)
    ensures Messages(Printed(ps)) == AsMessages(ps) <==> forall p :: p in ps ==> SingleLine(p)
  {
    InterpretPrinted(ps);
    if ps != [] {
      assert Printed(ps)[0] == 'd';
    }
  }

  /** The relay end to end: when the relay reports no error, a standard client sees exactly
      the upstream payloads up to [DONE], provided none of them contains a carriage return. */
  lemma RelayReachesClient(up: Upstream)
    requires Fits(up.body, up.endWithLastBytes)
    ensures var ps := UpToDone(Payloads(up.body));
            Messages(Printed(ScanFrom(up.body, up.endWithLastBytes).payloads)) == AsMessages(ps)
            <==> forall p :: p in ps ==> '\r' !in p
  {
    ScanDeliversPrefix(up.body, up.endWithLastBytes);
    Laws.ScannedPayloads(up.body, up.endWithLastBytes);
    var ps := UpToDone(Payloads(up.body));
    ClientSeesPayloadsIff(ps);
    forall p | p in ps
      ensures SingleLine(p) <==> '\r' !in p
    {
    }
  }
}
