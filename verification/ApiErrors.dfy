// Classifying backend errors: the adapters print an upstream status into an error text, and
// the gateway reads it back out of the text.
module ApiErrors {
  import opened Basics

  // ---- String functions ------------------------------------------------------------

  predicate OccursAt(s: string, sub: string, j: int) {
    0 <= j <= |s| - |sub| && s[j..j + |sub|] == sub
  }

  lemma OccursInTail(s: string, sub: string)
    requires s != []
    ensures forall j :: j > 0 ==> (OccursAt(s, sub, j) <==> OccursAt(s[1..], sub, j - 1))
  {
    forall j | j > 0
      ensures OccursAt(s, sub, j) <==> OccursAt(s[1..], sub, j - 1)
    {
      if j + |sub| <= |s| {
        assert s[1..][j - 1..j - 1 + |sub|] == s[j..j + |sub|];
      }
    }
  }

  /** The position of the first occurrence of `sub`, or -1. */
  function Index(s: string, sub: string): (i: int)
    ensures i >= 0 ==> OccursAt(s, sub, i)
    ensures i >= -1 && forall j :: OccursAt(s, sub, j) ==> 0 <= i <= j
  {
    if OccursAt(s, sub, 0) then 0
    else if s == [] then -1
    else
      OccursInTail(s, sub);
      var i := Index(s[1..], sub);
      if i < 0 then -1 else i + 1
  }

  predicate Contains(s: string, sub: string) {
    Index(s, sub) >= 0
  }

  /** The length of `s` before its first colon or space. */
  function TokenLength(s: string): (n: nat)
    ensures n <= |s|
    ensures forall i :: 0 <= i < n ==> s[i] != ':' && s[i] != ' '
    ensures n < |s| ==> s[n] == ':' || s[n] == ' '
  {
    if s == [] || s[0] == ':' || s[0] == ' ' then 0 else 1 + TokenLength(s[1..])
  }

  function TrimLeft(s: string): string {
    if s != [] && Space(s[0]) then TrimLeft(s[1..]) else s
  }

  function TrimRight(s: string): string {
    if s != [] && Space(s[|s| - 1]) then TrimRight(s[..|s| - 1]) else s
  }

  function TrimSpace(s: string): string {
    TrimRight(TrimLeft(s))
  }

  /** Lower case as far as an ASCII text searched for can tell: besides the ASCII capitals,
      the dotted capital I and the Kelvin sign are the only characters that lower to ASCII. */
  function LowerChar(c: char): char {
    if 'A' <= c <= 'Z' then c - 'A' + 'a'
    else if c == '\U{0130}' then 'i'
    else if c == '\U{212A}' then 'k'
    else c
  }

  function ToLower(s: string): (t: string)
    ensures |t| == |s|
    ensures forall i :: 0 <= i < |s| ==> t[i] == LowerChar(s[i])
  {
    if s == [] then [] else [LowerChar(s[0])] + ToLower(s[1..])
  }

  lemma {:induction false} BlankTrimsToNothing(s: string)
    ensures TrimSpace(s) == "" <==> Blank(s)
  {
    if s != [] && Space(s[0]) {
      BlankTrimsToNothing(s[1..]);
      assert forall i :: 0 < i < |s| ==> s[i] == s[1..][i - 1];
    } else {
      KeepsFirst(s);
    }
  }

  lemma {:induction false} KeepsFirst(s: string)
    requires s == [] || !Space(s[0])
    ensures TrimRight(s) == [] <==> s == []
  {
    if s != [] && Space(s[|s| - 1]) {
      KeepsFirst(s[..|s| - 1]);
    }
  }

  /** Trimming leaves what lies between two stretches of space and has none at its ends. */
  lemma {:induction false} TrimLeftParts(s: string) returns (lead: string)
    ensures s == lead + TrimLeft(s) && Blank(lead)
    ensures TrimLeft(s) != [] ==> !Space(TrimLeft(s)[0])
  {
    lead := [];
    if s != [] && Space(s[0]) {
      var more := TrimLeftParts(s[1..]);
      lead := [s[0]] + more;
    }
  }

  lemma {:induction false} TrimRightParts(s: string) returns (trail: string)
    ensures s == TrimRight(s) + trail && Blank(trail)
    ensures TrimRight(s) != [] ==> !Space(TrimRight(s)[|TrimRight(s)| - 1])
  {
    trail := [];
    if s != [] && Space(s[|s| - 1]) {
      var more := TrimRightParts(s[..|s| - 1]);
      trail := more + [s[|s| - 1]];
    }
  }

  lemma {:induction false} TrimLeftDrops(lead: string, t: string)
    requires Blank(lead) && (t != [] ==> !Space(t[0]))
    ensures TrimLeft(lead + t) == t
  {
    if lead == [] {
      assert lead + t == t;
    } else {
      assert (lead + t)[1..] == lead[1..] + t;
      TrimLeftDrops(lead[1..], t);
    }
  }

  lemma {:induction false} TrimRightDrops(t: string, trail: string)
    requires Blank(trail) && (t != [] ==> !Space(t[|t| - 1]))
    ensures TrimRight(t + trail) == t
  {
    if trail == [] {
      assert t + trail == t;
    } else {
      var n := |trail| - 1;
      assert (t + trail)[..|t + trail| - 1] == t + trail[..n];
      TrimRightDrops(t, trail[..n]);
    }
  }

  /** Trimming, exactly, for the texts that are left with something. */
  lemma TrimSpaceIff(s: string, t: string)
    requires t != [] && !Space(t[0]) && !Space(t[|t| - 1])
    ensures TrimSpace(s) == t <==> exists lead, trail :: Blank(lead) && Blank(trail) && s == lead + t + trail
  {
    if TrimSpace(s) == t {
      var lead := TrimLeftParts(s);
      var trail := TrimRightParts(TrimLeft(s));
      assert s == lead + t + trail;
    }
    if exists lead, trail :: Blank(lead) && Blank(trail) && s == lead + t + trail {
      var lead, trail :| Blank(lead) && Blank(trail) && s == lead + t + trail;
      assert s == lead + (t + trail);
      TrimLeftDrops(lead, t + trail);
      TrimRightDrops(t, trail);
    }
  }

  // ---- Decimal numbers -----------------------------------------------------------------

  const MAX_INT: int := 0x7FFF_FFFF_FFFF_FFFF

  predicate Digit(c: char) {
    '0' <= c <= '9'
  }

  predicate AllDigits(s: string) {
    forall i :: 0 <= i < |s| ==> Digit(s[i])
  }

  function Value(s: string): nat
    requires AllDigits(s)
  {
    if s == [] then 0 else 10 * Value(s[..|s| - 1]) + (s[|s| - 1] - '0') as nat
  }

  /** Parsing a 64-bit integer: an optional sign, digits, and a value in range. */
  function Atoi(s: string): Option<int> {
    var signed := s != [] && (s[0] == '-' || s[0] == '+');
    var digits := if signed then s[1..] else s;
    if digits == [] || !AllDigits(digits) then None
    else
      var v := if signed && s[0] == '-' then -(Value(digits) as int) else Value(digits);
      if -MAX_INT - 1 <= v <= MAX_INT then Some(v) else None
  }

  function Itoa(n: nat): (s: string)
    ensures s != [] && AllDigits(s)
  {
    var d := [(n % 10) as char + '0'];
    if n < 10 then d else Itoa(n / 10) + d
  }

  lemma {:induction false} ValueOfItoa(n: nat)
    ensures Value(Itoa(n)) == n
  {
    var s := Itoa(n);
    if n < 10 {
      assert s[..0] == [];
    } else {
      ValueOfItoa(n / 10);
      assert s[..|s| - 1] == Itoa(n / 10);
    }
  }

  lemma AtoiOfItoa(n: nat)
    requires n <= MAX_INT
    ensures Atoi(Itoa(n)) == Some(n)
  {
    ValueOfItoa(n);
    assert Digit(Itoa(n)[0]);
  }

  function Zeros(count: nat): (z: string)
    ensures AllDigits(z) && |z| == count
  {
    if count == 0 then "" else Zeros(count - 1) + "0"
  }

  /** `d` is the printed `n`, perhaps after leading zeros. */
  ghost predicate Prints(d: string, n: nat) {
    exists zeros: nat :: d == Zeros(zeros) + Itoa(n)
  }

  /** A numeral for `n`: its printed digits, perhaps after a sign. */
  ghost predicate Numeral(s: string, n: int) {
    || (n >= 0 && Prints(s, n))
    || (n >= 0 && s != [] && s[0] == '+' && Prints(s[1..], n))
    || (n <= 0 && s != [] && s[0] == '-' && Prints(s[1..], -n))
  }

  lemma {:induction false} ZerosKeepValue(zeros: nat, d: string)
    requires AllDigits(d)
    ensures AllDigits(Zeros(zeros) + d) && Value(Zeros(zeros) + d) == Value(d)
    decreases zeros + |d|
  {
    var s := Zeros(zeros) + d;
    if d != [] {
      var n := |d| - 1;
      assert s[..|s| - 1] == Zeros(zeros) + d[..n];
      ZerosKeepValue(zeros, d[..n]);
    } else if zeros > 0 {
      assert s[..|s| - 1] == Zeros(zeros - 1) + d;
      ZerosKeepValue(zeros - 1, d);
    }
  }

  /** Every text of digits is a printed number after leading zeros. */
  lemma {:induction false} DigitsArePrinted(d: string) returns (zeros: nat)
    requires AllDigits(d) && d != []
    ensures d == Zeros(zeros) + Itoa(Value(d))
  {
    var n := |d| - 1;
    assert d == d[..n] + [d[n]];
    if n == 0 {
      zeros := 0;
      PrintedDigit(0, d[0]);
    } else {
      hide Value, Itoa, Zeros;
      zeros := DigitsArePrinted(d[..n]);
      NextDigit(d[..n], d[n]);
      PrintedDigit(Value(d[..n]), d[n]);
      if Value(d[..n]) == 0 {
        AnotherZero(zeros);
        zeros := zeros + 1;
      }
    }
  }

  lemma NextDigit(d: string, c: char)
    requires AllDigits(d) && Digit(c)
    ensures AllDigits(d + [c]) && Value(d + [c]) == 10 * Value(d) + (c - '0') as nat
  {
    assert (d + [c])[..|d|] == d;
  }

  lemma PrintedDigit(v: nat, c: char)
    requires Digit(c)
    ensures Itoa(10 * v + (c - '0') as nat) == (if v == 0 then [] else Itoa(v)) + [c]
    ensures Value([c]) == (c - '0') as nat
  {
    var n := (c - '0') as nat;
    assert (10 * v + n) / 10 == v && (10 * v + n) % 10 == n;
    assert [c][..0] == [];
  }

  lemma AnotherZero(zeros: nat)
    ensures Zeros(zeros) + Itoa(0) == Zeros(zeros + 1)
  {
    assert Itoa(0) == "0";
  }

  lemma PrintsIff(d: string, n: nat)
    ensures Prints(d, n) <==> d != [] && AllDigits(d) && Value(d) == n
  {
    if Prints(d, n) {
      var zeros: nat :| d == Zeros(zeros) + Itoa(n);
      ZerosKeepValue(zeros, Itoa(n));
      ValueOfItoa(n);
    }
    if d != [] && AllDigits(d) && Value(d) == n {
      var zeros := DigitsArePrinted(d);
    }
  }

  /** Parsing, exactly: what parses is the numerals of the 64-bit integers. */
  lemma AtoiIff(s: string, n: int)
    ensures Atoi(s) == Some(n) <==> Numeral(s, n) && -0x8000_0000_0000_0000 <= n <= 0x7FFF_FFFF_FFFF_FFFF
  {
    hide Prints, Value;
    var m := if n < 0 then -n else n;
    PrintsIff(s, m);
    if s != [] {
      PrintsIff(s[1..], m);
      assert AllDigits(s) ==> Digit(s[0]);
    }
  }

  // ---- Classification ------------------------------------------------------------------

  /** An error value: its text, and what unwrapping its chain finds. */
  datatype BackendError = BackendError(text: string, deadline: bool, netTimeout: bool, opError: bool)

  datatype ApiError = Timeout(backend: string) | Overloaded(backend: string) | Unavailable(backend: string)

  const STATUS: string := "status "

  predicate TimeoutPhrase(text: string) {
    var msg := ToLower(text);
    || Contains(msg, "client.timeout exceeded")
    || Contains(msg, "context deadline exceeded")
    || Contains(msg, "i/o timeout")
    || Contains(msg, "timeout awaiting response headers")
  }

  predicate ConnectionPhrase(text: string) {
    var msg := ToLower(text);
    || Contains(msg, "connection refused")
    || Contains(msg, "no such host")
    || Contains(msg, "network is unreachable")
    || Contains(msg, "connection reset")
    || Contains(msg, "dial tcp")
  }

  predicate OverloadPhrase(text: string) {
    var msg := ToLower(text);
    || Contains(msg, "server busy")
    || Contains(msg, "too many requests")
    || Contains(msg, "overloaded")
    || Contains(msg, "rate limit")
  }

  predicate ConnectionUnavailable(err: BackendError) {
    if err.netTimeout then false
    else err.opError || ConnectionPhrase(err.text)
  }

  /** The status read out of an error text: the number after its first "status ". */
  function UpstreamStatus(text: string): Option<int> {
    var i := Index(text, STATUS);
    if i < 0 then None
    else
      var rest := text[i + |STATUS|..];
      Atoi(TrimSpace(rest[..TokenLength(rest)]))
  }

  function FromBackendError(backend: string, err: Option<BackendError>): Option<ApiError> {
    if err == None then None
    else
      var e := err.value;
      if e.deadline || TimeoutPhrase(e.text) then Some(Timeout(backend))
      else if ConnectionUnavailable(e) then Some(Unavailable(backend))
      else
        var status := UpstreamStatus(e.text);
        if status == Some(429) || status == Some(502) || status == Some(503) then Some(Overloaded(backend))
        else if status == Some(504) then Some(Timeout(backend))
        else if OverloadPhrase(e.text) then Some(Overloaded(backend))
        else Some(Unavailable(backend))
  }

  // ---- The classification, exactly ------------------------------------------------------

  /** `c` is `p` once lowered, for a `p` that is no capital. */
  ghost predicate Folds(c: char, p: char) {
    c == p || ('A' <= c <= 'Z' && c as int + 32 == p as int) || (c == '\U{0130}' && p == 'i') || (c == '\U{212A}' && p == 'k')
  }

  ghost predicate Plain(phrase: string) {
    forall j :: 0 <= j < |phrase| ==> phrase[j] as int < 128 && !('A' <= phrase[j] <= 'Z')
  }

  ghost predicate SaysAt(text: string, phrase: string, i: nat)
    requires i + |phrase| <= |text|
  {
    forall j :: 0 <= j < |phrase| ==> Folds(text[i + j], phrase[j])
  }

  /** The phrase occurs in the text, whatever the case. */
  ghost predicate Says(text: string, phrase: string) {
    exists i: nat :: i + |phrase| <= |text| && SaysAt(text, phrase, i)
  }

  lemma LowerCharIs(c: char, p: char)
    requires p as int < 128 && !('A' <= p <= 'Z')
    ensures LowerChar(c) == p <==> Folds(c, p)
  {
  }

  lemma SaysIsOccursLowered(text: string, phrase: string, i: nat)
    requires Plain(phrase) && i + |phrase| <= |text|
    ensures SaysAt(text, phrase, i) <==> OccursAt(ToLower(text), phrase, i)
  {
    hide LowerChar, Folds;
    var found := ToLower(text)[i..i + |phrase|];
    forall j | 0 <= j < |phrase|
      ensures found[j] == phrase[j] <==> Folds(text[i + j], phrase[j])
    {
      LowerCharIs(text[i + j], phrase[j]);
    }
  }

  lemma SaysIsContained(text: string, phrase: string)
    requires Plain(phrase)
    ensures Contains(ToLower(text), phrase) <==> Says(text, phrase)
  {
    hide SaysAt, OccursAt;
    var i := Index(ToLower(text), phrase);
    if i >= 0 {
      assert OccursAt(ToLower(text), phrase, i);
      OccursFits(ToLower(text), phrase, i);
      SaysIsOccursLowered(text, phrase, i);
    }
    if Says(text, phrase) {
      var k: nat :| k + |phrase| <= |text| && SaysAt(text, phrase, k);
      SaysIsOccursLowered(text, phrase, k);
    }
  }

  lemma OccursFits(s: string, sub: string, i: int)
    requires OccursAt(s, sub, i)
    ensures 0 <= i && i + |sub| <= |s|
  {
  }

  lemma TimeoutPhraseIs(text: string)
    ensures TimeoutPhrase(text) <==>
              || Says(text, "client.timeout exceeded") || Says(text, "context deadline exceeded")
              || Says(text, "i/o timeout") || Says(text, "timeout awaiting response headers")
  {
    hide Says, Contains, ToLower, Folds;
    SaysIsContained(text, "client.timeout exceeded");
    SaysIsContained(text, "context deadline exceeded");
    SaysIsContained(text, "i/o timeout");
    SaysIsContained(text, "timeout awaiting response headers");
  }

  lemma ConnectionPhraseIs(text: string)
    ensures ConnectionPhrase(text) <==>
              || Says(text, "connection refused") || Says(text, "no such host")
              || Says(text, "network is unreachable") || Says(text, "connection reset") || Says(text, "dial tcp")
  {
    hide Says, Contains, ToLower, Folds;
    SaysIsContained(text, "connection refused");
    SaysIsContained(text, "no such host");
    SaysIsContained(text, "network is unreachable");
    SaysIsContained(text, "connection reset");
    SaysIsContained(text, "dial tcp");
  }

  lemma OverloadPhraseIs(text: string)
    ensures OverloadPhrase(text) <==>
              || Says(text, "server busy") || Says(text, "too many requests")
              || Says(text, "overloaded") || Says(text, "rate limit")
  {
    hide Says, Contains, ToLower, Folds;
    SaysIsContained(text, "server busy");
    SaysIsContained(text, "too many requests");
    SaysIsContained(text, "overloaded");
    SaysIsContained(text, "rate limit");
  }

  ghost predicate FirstAt(text: string, sub: string, i: nat) {
    OccursAt(text, sub, i) && forall j :: OccursAt(text, sub, j) ==> i <= j
  }

  /** `token` is what `rest` has before its first colon or space. */
  ghost predicate TokenOf(rest: string, token: string) {
    && token <= rest && ':' !in token && ' ' !in token
    && (|token| < |rest| ==> rest[|token|] == ':' || rest[|token|] == ' ')
  }

  /** A numeral for `n`, perhaps between other white space. */
  ghost predicate Denotes(token: string, n: int) {
    exists lead, number, trail ::
      Blank(lead) && Blank(trail) && Numeral(number, n) && token == lead + number + trail
  }

  /** The text names `status`: after its first "status ", up to a colon, a space or the end,
      stands a numeral for it. */
  ghost predicate NamesStatus(text: string, status: int) {
    exists i: nat, token :: FirstAt(text, "status ", i) && TokenOf(text[i + 7..], token) && Denotes(token, status)
  }

  lemma PrintsEnds(d: string, n: nat)
    requires Prints(d, n)
    ensures d != [] && Digit(d[0]) && Digit(d[|d| - 1])
  {
    PrintsIff(d, n);
  }

  lemma NumeralEnds(number: string, n: int)
    requires Numeral(number, n)
    ensures number != [] && !Space(number[0]) && !Space(number[|number| - 1])
  {
    hide Prints;
    var m := if n < 0 then -n else n;
    if Prints(number, m) {
      PrintsEnds(number, m);
    } else {
      PrintsEnds(number[1..], m);
      assert number[|number| - 1] == number[1..][|number| - 2];
    }
  }

  lemma DenotesIff(token: string, n: int)
    ensures Denotes(token, n) <==> Numeral(TrimSpace(token), n)
  {
    hide Numeral, TrimSpace, Space;
    if Denotes(token, n) {
      var lead, number, trail :|
        Blank(lead) && Blank(trail) && Numeral(number, n) && token == lead + number + trail;
      NumeralEnds(number, n);
      TrimSpaceIff(token, number);
    }
    if Numeral(TrimSpace(token), n) {
      NumeralEnds(TrimSpace(token), n);
      TrimSpaceIff(token, TrimSpace(token));
    }
  }

  lemma TokenIs(rest: string, token: string)
    ensures TokenOf(rest, token) <==> token == rest[..TokenLength(rest)]
  {
    var n := TokenLength(rest);
    if TokenOf(rest, token) {
      assert token == rest[..|token|];
      assert forall i :: 0 <= i < |token| ==> rest[i] == token[i];
    }
  }

  lemma FirstAtIs(text: string, sub: string, i: nat)
    ensures FirstAt(text, sub, i) <==> i == Index(text, sub)
  {
    hide OccursAt;
  }

  /** Reading the status, exactly. */
  lemma UpstreamStatusIff(text: string, status: int)
    ensures UpstreamStatus(text) == Some(status) <==>
              NamesStatus(text, status) && -0x8000_0000_0000_0000 <= status <= 0x7FFF_FFFF_FFFF_FFFF
  {
    hide Index, TrimSpace, TokenLength, Atoi, Numeral, TokenOf, Denotes;
    var i := Index(text, STATUS);
    if i >= 0 {
      var rest := text[i + 7..];
      var token := rest[..TokenLength(rest)];
      FirstAtIs(text, STATUS, i);
      TokenIs(rest, token);
      DenotesIff(token, status);
      AtoiIff(TrimSpace(token), status);
    }
    if NamesStatus(text, status) {
      var k: nat, t :| FirstAt(text, "status ", k) && TokenOf(text[k + 7..], t) && Denotes(t, status);
      FirstAtIs(text, STATUS, k);
      TokenIs(text[k + 7..], t);
    }
  }

  /** The classification of every error, complete: an error always has an answer, which names
      the backend. A deadline or a timeout phrase is a timeout. Next, an error from the network
      that is no timeout, or a connection phrase without a network timeout, is unavailable.
      Next the status decides, then the overload phrases, and the rest is unavailable. */
  lemma ErrorClass(backend: string, err: Option<BackendError>)
    ensures FromBackendError(backend, err) == None <==> err == None
    ensures err.Some? ==>
              var e, kind := err.value, FromBackendError(backend, err).value;
              var timedOut := || e.deadline
                              || Says(e.text, "client.timeout exceeded") || Says(e.text, "context deadline exceeded")
                              || Says(e.text, "i/o timeout") || Says(e.text, "timeout awaiting response headers");
              var unreachable := && !e.netTimeout
                                 && (|| e.opError
                                     || Says(e.text, "connection refused") || Says(e.text, "no such host")
                                     || Says(e.text, "network is unreachable")
                                     || Says(e.text, "connection reset") || Says(e.text, "dial tcp"));
              var busy := || Says(e.text, "server busy") || Says(e.text, "too many requests")
                          || Says(e.text, "overloaded") || Says(e.text, "rate limit");
              var busyStatus := NamesStatus(e.text, 429) || NamesStatus(e.text, 502) || NamesStatus(e.text, 503);
              && kind.backend == backend
              && (kind.Timeout? <==> timedOut || (!unreachable && NamesStatus(e.text, 504)))
              && (kind.Overloaded? <==>
                    !timedOut && !unreachable && (busyStatus || (busy && !NamesStatus(e.text, 504))))
              && (kind.Unavailable? <==>
                    !timedOut && (unreachable || (!busyStatus && !busy && !NamesStatus(e.text, 504))))
  {
    hide TimeoutPhrase, ConnectionPhrase, OverloadPhrase, UpstreamStatus, Says, NamesStatus;
    if err.Some? {
      var text := err.value.text;
      TimeoutPhraseIs(text);
      ConnectionPhraseIs(text);
      OverloadPhraseIs(text);
      UpstreamStatusIff(text, 429);
      UpstreamStatusIff(text, 502);
      UpstreamStatusIff(text, 503);
      UpstreamStatusIff(text, 504);
    }
  }

  // ---- The status text round trip ------------------------------------------------------

  /** The text an adapter builds for a failed operation; health checks omit the body. */
  function StatusText(op: string, status: nat, body: Option<string>): string {
    op + ": status " + Itoa(status) + (if body.Some? then ": " + body.value else "")
  }

  lemma TrimDigits(s: string)
    requires AllDigits(s) && s != []
    ensures TrimSpace(s) == s
  {
    assert Digit(s[0]) && Digit(s[|s| - 1]);
  }

  lemma TokenLengthIs(digits: string, tail: string)
    requires AllDigits(digits) && (tail != [] ==> tail[0] == ':')
    ensures TokenLength(digits + tail) == |digits|
  {
    var s := digits + tail;
    assert forall i :: 0 <= i < |digits| ==> s[i] == digits[i] && Digit(s[i]);
    if tail != [] {
      assert s[|digits|] == tail[0];
    }
  }

  /** No occurrence starts before the printed one: it would lie inside `op`, run across the
      colon after it, or start at the space. */
  lemma NoEarlierStatus(s: string, op: string, j: int)
    requires !Contains(op, STATUS)
    requires |op| + 2 <= |s| && s[..|op|] == op && s[|op|] == ':' && s[|op| + 1] == ' '
    requires j < |op| + 2
    ensures !OccursAt(s, STATUS, j)
  {
    if 0 <= j <= |s| - |STATUS| {
      var found := s[j..j + |STATUS|];
      if j + |STATUS| <= |op| {
        assert op[j..j + |STATUS|] == found;
        assert !OccursAt(op, STATUS, j);
      } else if j <= |op| {
        assert found[|op| - j] == ':';
        assert STATUS[|op| - j] != ':';
      } else {
        assert found[0] == ' ';
      }
    }
  }

  /** The printed status is the first one in the text. */
  lemma FirstStatus(op: string, tail: string)
    requires !Contains(op, STATUS)
    ensures Index(op + ": " + STATUS + tail, STATUS) == |op| + 2
  {
    var s := op + ": " + STATUS + tail;
    assert s[|op| + 2..|op| + 2 + |STATUS|] == STATUS;
    assert OccursAt(s, STATUS, |op| + 2);
    if Index(s, STATUS) < |op| + 2 {
      NoEarlierStatus(s, op, Index(s, STATUS));
    }
  }

  /** An operation without the letter u cannot contain "status ". */
  lemma OperationWithoutU(op: string)
    requires 'u' !in op
    ensures !Contains(op, STATUS)
  {
    forall j | 0 <= j <= |op| - |STATUS|
      ensures !OccursAt(op, STATUS, j)
    {
      assert op[j..j + |STATUS|][4] == op[j + 4];
    }
  }

  lemma ParseToken(digits: string, tail: string, n: nat)
    requires digits == Itoa(n) && n <= MAX_INT && (tail != [] ==> tail[0] == ':')
    ensures var rest := digits + tail; Atoi(TrimSpace(rest[..TokenLength(rest)])) == Some(n)
  {
    TokenLengthIs(digits, tail);
    assert (digits + tail)[..|digits|] == digits;
    TrimDigits(digits);
    AtoiOfItoa(n);
  }

  /** Round trip: whatever the operation (its text free of "status ") and the body, the
      gateway reads back the status the adapter printed. */
  lemma StatusRoundTrip(op: string, status: nat, body: Option<string>)
    requires !Contains(op, STATUS) && status <= MAX_INT
    ensures UpstreamStatus(StatusText(op, status, body)) == Some(status)
  {
    hide Index, Atoi, TrimSpace, TokenLength, Itoa;
    var tail := if body.Some? then ": " + body.value else "";
    var text := StatusText(op, status, body);
    assert text == op + ": " + STATUS + (Itoa(status) + tail);
    FirstStatus(op, Itoa(status) + tail);
    assert text[|op| + 2 + |STATUS|..] == Itoa(status) + tail;
    ParseToken(Itoa(status), tail, status);
  }

  /** The operations the adapters print a status for. */
  const OLLAMA_OPERATIONS: seq<string> :=
    ["ollama health check", "ollama chat completion", "ollama stream", "ollama list models", "ollama create embedding"]

  const MLX_OPERATIONS: seq<string> :=
    ["mlx health check", "mlx chat completion", "mlx stream", "mlx list models", "mlx create embedding"]

  const TTS_OPERATIONS: seq<string> := ["tts health check", "tts synthesize", "tts list models"]

  lemma AdapterOperations(op: string)
    requires op in OLLAMA_OPERATIONS || op in MLX_OPERATIONS || op in TTS_OPERATIONS
    ensures !Contains(op, STATUS)
  {
    OperationWithoutU(op);
  }

  /** Every status error the adapters build is read back, whatever the body. */
  lemma AdapterStatusRoundTrip(op: string, status: nat, body: Option<string>)
    requires op in OLLAMA_OPERATIONS || op in MLX_OPERATIONS || op in TTS_OPERATIONS
    requires status <= MAX_INT
    ensures UpstreamStatus(StatusText(op, status, body)) == Some(status)
  {
    hide Contains, UpstreamStatus, StatusText;
    AdapterOperations(op);
    StatusRoundTrip(op, status, body);
  }

  /** The classification of an adapter's status error, complete: the phrases win over the
      status, the status over the overload phrases. */
  lemma StatusErrorClass(backend: string, op: string, status: nat, body: Option<string>)
    requires !Contains(op, STATUS) && status <= MAX_INT
    ensures var text := StatusText(op, status, body);
            var kind := FromBackendError(backend, Some(BackendError(text, false, false, false)));
            && (kind == Some(Timeout(backend)) <==>
                  TimeoutPhrase(text) || (!ConnectionPhrase(text) && status == 504))
            && (kind == Some(Overloaded(backend)) <==>
                  && !TimeoutPhrase(text) && !ConnectionPhrase(text) && status != 504
                  && (status == 429 || status == 502 || status == 503 || OverloadPhrase(text)))
  {
    hide TimeoutPhrase, ConnectionPhrase, OverloadPhrase, UpstreamStatus, StatusText;
    StatusRoundTrip(op, status, body);
  }
}
