// Relaying a streamed completion: the adapters' scan loop over the upstream body and the
// handler's printer of event-stream frames. A byte is written as a char.
module EventStream {
  import opened Basics

  const DATA: string := "data: "
  const DONE: string := "[DONE]"

  /** The scanner's buffer: a line must fit in it together with its newline. */
  const LIMIT: nat := 1048576

  /** An upstream body: its bytes, whether it ends in a read failure rather than end of file,
      and whether that end is reported together with the last bytes. */
  datatype Upstream = Upstream(body: string, fails: bool, endWithLastBytes: bool)

  // ---- Lines ---------------------------------------------------------------------------

  /** The length of the first line, its newline excluded. */
  function LineLength(s: string): (n: nat)
    ensures n <= |s|
    ensures '\n' !in s[..n]
    ensures n < |s| ==> s[n] == '\n'
  {
    if s == [] || s[0] == '\n' then 0 else 1 + LineLength(s[1..])
  }

  function DropCR(line: string): string {
    if line != [] && line[|line| - 1] == '\r' then line[..|line| - 1] else line
  }

  /** The scanner gives up on a first line that fills its buffer. An unterminated last line
      of exactly that size passes when the end was reported with it. */
  predicate TooLong(s: string, endWithLastBytes: bool) {
    var n := LineLength(s);
    n > LIMIT || (n == LIMIT && !(n == |s| && endWithLastBytes))
  }

  /** What follows the first line. */
  function AfterLine(s: string): (rest: string)
    requires s != []
    ensures |rest| < |s|
  {
    var n := LineLength(s);
    if n < |s| then s[n + 1..] else []
  }

  function FirstLine(s: string): string {
    DropCR(s[..LineLength(s)])
  }

  // ---- The upstream payloads -----------------------------------------------------------

  /** The payload of every `data: ` line of a body, in order. */
  function Payloads(s: string): (ps: seq<string>)
    decreases |s|
  {
    if s == [] then []
    else if DATA <= FirstLine(s) then [FirstLine(s)[|DATA|..]] + Payloads(AfterLine(s))
    else Payloads(AfterLine(s))
  }

  /** The list up to and including its first [DONE]. */
  function UpToDone(ps: seq<string>): seq<string> {
    if ps == [] then [] else if ps[0] == DONE then [DONE] else [ps[0]] + UpToDone(ps[1..])
  }

  /** Every line up to the first [DONE] payload fits the scanner's buffer. */
  predicate Fits(s: string, endWithLastBytes: bool)
    decreases |s|
  {
    s == [] ||
    (!TooLong(s, endWithLastBytes) && (FirstLine(s) == DATA + DONE || Fits(AfterLine(s), endWithLastBytes)))
  }

  /** What the scan loop passes on, and whether it stopped at an over-long line. */
  datatype Scan = Scan(payloads: seq<string>, tooLong: bool)

  function ScanFrom(s: string, endWithLastBytes: bool): Scan
    decreases |s|
  {
    if s == [] then
      Scan([], false)
    else if TooLong(s, endWithLastBytes) then
      Scan([], true)
    else if !(DATA <= FirstLine(s)) then
      ScanFrom(AfterLine(s), endWithLastBytes)
    else
      var data := FirstLine(s)[|DATA|..];
      if data == DONE then Scan([DONE], false)
      else
        var rest := ScanFrom(AfterLine(s), endWithLastBytes);
        Scan([data] + rest.payloads, rest.tooLong)
  }

  /** The scan loop delivers a prefix of the upstream payloads, nothing after the first
      [DONE]; and it delivers all of them up to that point exactly when every line fits. */
  lemma {:induction false} ScanDeliversPrefix(s: string, endWithLastBytes: bool)
    ensures var scan := ScanFrom(s, endWithLastBytes);
            && scan.payloads <= UpToDone(Payloads(s))
            && (!scan.tooLong <==> Fits(s, endWithLastBytes))
            && (!scan.tooLong ==> scan.payloads == UpToDone(Payloads(s)))
    decreases |s|
  {
    hide LineLength, FirstLine, TooLong;
    if s != [] && !TooLong(s, endWithLastBytes) {
      ScanDeliversPrefix(AfterLine(s), endWithLastBytes);
      var line := FirstLine(s);
      if DATA <= line {
        assert line == DATA + line[|DATA|..];
        assert ([line[|DATA|..]] + Payloads(AfterLine(s)))[1..] == Payloads(AfterLine(s));
      } else {
        assert line != DATA + DONE;
      }
    }
  }

  // ---- Printing ------------------------------------------------------------------------

  function Frame(data: string): string {
    DATA + data + "\n\n"
  }

  function Printed(ps: seq<string>): string {
    if ps == [] then "" else Frame(ps[0]) + Printed(ps[1..])
  }

  lemma {:induction false} PrintedSnoc(ps: seq<string>, data: string)
    ensures Printed(ps + [data]) == Printed(ps) + Frame(data)
  {
    if ps != [] {
      assert (ps + [data])[1..] == ps[1..] + [data];
      PrintedSnoc(ps[1..], data);
    }
  }

  /** A send that goes wrong: its position, and how much of its frame still got out (nothing
      when the request was cancelled before the write). */
  datatype Fault = Fault(at: nat, wrote: nat)

  /** The client connection: what has been written to it, and the send that will fail. */
  class Client {
    var written: string
    var sends: nat
    const fault: Option<Fault>

    constructor (fault: Option<Fault>)
      ensures written == "" && sends == 0 && this.fault == fault
    {
      written, sends := "", 0;
      this.fault := fault;
    }

    predicate Fails()
      reads this`sends
    {
      fault.Some? && fault.value.at == sends
    }

    method Write(bytes: string) returns (ok: bool)
      modifies this
      ensures ok == !old(Fails())
      ensures ok ==> written == old(written) + bytes && sends == old(sends) + 1
      ensures !ok ==> written == old(written) + PartOf(bytes, fault.value.wrote) && sends == old(sends)
    {
      if fault.Some? && fault.value.at == sends {
        written := written + PartOf(bytes, fault.value.wrote);
        return false;
      }
      written := written + bytes;
      sends := sends + 1;
      return true;
    }

    method Send(data: string) returns (ok: bool)
      modifies this
      ensures ok == !old(Fails())
      ensures ok ==> written == old(written) + Frame(data) && sends == old(sends) + 1
      ensures !ok ==> written == old(written) + PartOf(Frame(data), fault.value.wrote) && sends == old(sends)
    {
      if data == DONE {
        assert Frame(data) == "data: [DONE]\n\n";
        ok := Write("data: [DONE]\n\n");
      } else {
        ok := Write("data: " + data + "\n\n");
      }
    }
  }

  function PartOf(bytes: string, n: nat): (part: string)
    ensures part <= bytes && |part| == (if n < |bytes| then n else |bytes|)
  {
    if n < |bytes| then bytes[..n] else bytes
  }

  datatype StreamError = SendFailed | LineTooLong | ReadFailed

  lemma PrintedNone()
    ensures Printed([]) == ""
  {
  }

  lemma ScanStops(s: string, endWithLastBytes: bool)
    ensures s == [] ==> ScanFrom(s, endWithLastBytes) == Scan([], false)
    ensures s != [] && TooLong(s, endWithLastBytes) ==> ScanFrom(s, endWithLastBytes) == Scan([], true)
  {
  }

  /** One line of the scan, in the terms of the loop. */
  lemma ScanStep(s: string, endWithLastBytes: bool)
    requires s != [] && !TooLong(s, endWithLastBytes)
    ensures var line, next := FirstLine(s), ScanFrom(AfterLine(s), endWithLastBytes);
            ScanFrom(s, endWithLastBytes) ==
            if |line| < 6 || line[..6] != "data: " then next
            else if line[6..] == DONE then Scan([DONE], false)
            else Scan([line[6..]] + next.payloads, next.tooLong)
  {
    hide LineLength, DropCR;
    var line := FirstLine(s);
    assert DATA <= line <==> |line| >= 6 && line[..6] == "data: ";
  }

  /** The stream method of the adapters. `failureSeen` says whether a failing read had already
      been reported when the loop stopped at [DONE]; otherwise it goes unnoticed there. */
  method ChatCompletionStream(up: Upstream, client: Client, failureSeen: bool) returns (err: Option<StreamError>)
    requires client.written == "" && client.sends == 0
    modifies client
    ensures var scan := ScanFrom(up.body, up.endWithLastBytes);
            var ps := scan.payloads;
            if client.fault.Some? && client.fault.value.at < |ps| then
              && err == Some(SendFailed)
              && client.written == Printed(ps[..client.fault.value.at])
                                   + PartOf(Frame(ps[client.fault.value.at]), client.fault.value.wrote)
            else
              && client.written == Printed(ps)
              && err == (if scan.tooLong then Some(LineTooLong)
                         else if up.fails && (failureSeen || DONE !in ps) then Some(ReadFailed)
                         else None)
    ensures err == None ==> Fits(up.body, up.endWithLastBytes) &&
                            client.written == Printed(UpToDone(Payloads(up.body)))
  {
    hide Printed, Frame, ScanFrom, FirstLine, TooLong, PartOf, Payloads, UpToDone, Fits;
    PrintedNone();
    ScanDeliversPrefix(up.body, up.endWithLastBytes);
    ScanStops([], up.endWithLastBytes);
    var rest := up.body;
    ghost var sent: seq<string> := [];
    ghost var scan := ScanFrom(up.body, up.endWithLastBytes);
    while rest != []
      invariant client.written == Printed(sent) && client.sends == |sent|
      invariant client.fault.Some? ==> |sent| <= client.fault.value.at
      invariant DONE !in sent
      invariant scan == Prepend(sent, ScanFrom(rest, up.endWithLastBytes))
      decreases |rest|
    {
      if TooLong(rest, up.endWithLastBytes) {
        ScanStops(rest, up.endWithLastBytes);
        assert sent + [] == sent;
        return Some(LineTooLong);
      }
      ScanStep(rest, up.endWithLastBytes);
      var line := FirstLine(rest);
      ghost var next := ScanFrom(AfterLine(rest), up.endWithLastBytes);
      if |line| < 6 || line[..6] != "data: " {
        rest := AfterLine(rest);
        continue;
      }
      var data := line[6..];
      NextOf(scan.payloads, sent, data, if data == DONE then [] else next.payloads);
      PrintedSnoc(sent, data);
      var ok := client.Send(data);
      if !ok {
        return Some(SendFailed);
      }
      sent := sent + [data];
      rest := AfterLine(rest);
      if data == DONE {
        return if up.fails && failureSeen then Some(ReadFailed) else None;
      }
    }
    assert sent + [] == sent;
    return if up.fails then Some(ReadFailed) else None;
  }

  function Prepend(sent: seq<string>, scan: Scan): Scan {
    Scan(sent + scan.payloads, scan.tooLong)
  }

  lemma NextOf<T>(all: seq<T>, sent: seq<T>, data: T, more: seq<T>)
    requires all == sent + ([data] + more)
    ensures |sent| < |all| && all[..|sent|] == sent && all[|sent|] == data
    ensures all == (sent + [data]) + more
  {
  }
}
