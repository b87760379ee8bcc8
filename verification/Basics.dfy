// Vocabulary shared by every component of the gateway model.
module Basics {
  datatype Option<+T> = None | Some(value: T)

  ghost predicate Distinct<T>(s: seq<T>) {
    forall i, j :: 0 <= i < j < |s| ==> s[i] != s[j]
  }

  /** The health reads of one selection. A selection reads each name at most once, so a
      function from names to answers covers every interleaving with the prober; None is the
      nil checker, for which every backend counts as healthy. */
  type HealthReads = Option<string -> bool>

  predicate Healthy(hc: HealthReads, name: string) {
    hc.None? || hc.value(name)
  }

  /** The Unicode white-space characters. */
  predicate Space(c: char) {
    || c == ' ' || '\t' <= c <= '\r' || c == '\U{0085}' || c == '\U{00A0}'
    || c == '\U{1680}' || '\U{2000}' <= c <= '\U{200A}'
    || c == '\U{2028}' || c == '\U{2029}' || c == '\U{202F}' || c == '\U{205F}' || c == '\U{3000}'
  }

  lemma SpaceIs(c: char)
    ensures Space(c) <==>
              var n := c as int;
              || n in {0x20, 0x85, 0xA0, 0x1680, 0x2028, 0x2029, 0x202F, 0x205F, 0x3000}
              || 0x09 <= n <= 0x0D || 0x2000 <= n <= 0x200A
  {
  }

  /** Nothing is left of `s` once surrounding space is trimmed. */
  predicate Blank(s: string) {
    forall i :: 0 <= i < |s| ==> Space(s[i])
  }

  function Max(a: int, b: int): int {
    if a < b then b else a
  }

  lemma MulMonotone(a: int, b: int, m: int)
    requires a <= b && m >= 0
    ensures a * m <= b * m
  {
    assert b * m - a * m == (b - a) * m;
  }

  /** Division with remainder is unique. */
  lemma QuotientAndRemainder(a: int, m: int, q: int, r: int)
    requires 0 <= r < m
    requires a == q * m + r
    ensures a / m == q && a % m == r
  {
    var q' := a / m;
    if q' < q {
      MulMonotone(q' + 1, q, m);
    } else if q < q' {
      MulMonotone(q + 1, q', m);
    }
  }
}
