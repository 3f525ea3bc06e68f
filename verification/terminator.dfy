// Terminator values and the string searches the framer performs on its
// inbound buffer: the first occurrence of a literal terminator
// (String.prototype.indexOf) and gab's own findPrefixAtEnd.

module Terminators {

  /** The framer's `terminator` field. JavaScript lets it hold `undefined`,
      a number or a string; `None` stands for the absent value. A negative
      byte count is a caller error and is not representable. */
  datatype Terminator = None | Count(n: nat) | Literal(s: string)

  /** JavaScript falsiness of the terminator: `undefined`, `0` and `""`.
      A count that has run down to 0 is falsy, so it collects everything. */
  predicate Falsy(t: Terminator)
    ensures !Falsy(t) <==> (t.Count? && t.n > 0) || (t.Literal? && t.s != [])
  {
    t.None? || t == Count(0) || t == Literal("")
  }

  /** The constructor's default, CR LF. */
  const DefaultTerminator: Terminator := Literal("\r\n")

  /** `(cfg && cfg.terminator) || "\r\n"`: a falsy configured terminator
      (or none) is replaced by the default, so a fresh framer always frames. */
  function InitialTerminator(cfg: Terminator): (t: Terminator)
    ensures !Falsy(t)
    ensures !Falsy(cfg) ==> t == cfg
    ensures Falsy(cfg) ==> t == DefaultTerminator
  {
    if Falsy(cfg) then DefaultTerminator else cfg
  }

  /** `t` occurs in `s` starting at offset `i`. */
  predicate OccursAt(s: string, t: string, i: int)
  {
    0 <= i && i + |t| <= |s| && s[i..i + |t|] == t
  }

  /** First occurrence of `t` in `s` at an offset `k` or later, -1 if none. */
  function IndexFrom(s: string, t: string, k: nat): (r: int)
    decreases |s| - k
    ensures r == -1 ==> forall i :: k <= i ==> !OccursAt(s, t, i)
    ensures r != -1 ==> k <= r && OccursAt(s, t, r)
    ensures r != -1 ==> forall i :: k <= i < r ==> !OccursAt(s, t, i)
  {
    if k + |t| > |s| then -1
    else if s[k..k + |t|] == t then k
    else IndexFrom(s, t, k + 1)
  }

  /** `s.indexOf(t)`: the offset of the first occurrence, -1 exactly when
      there is none. */
  function IndexOf(s: string, t: string): (r: int)
    ensures r == -1 <==> forall i :: !OccursAt(s, t, i)
    ensures r != -1 ==> OccursAt(s, t, r) && forall i :: 0 <= i < r ==> !OccursAt(s, t, i)
  {
    IndexFrom(s, t, 0)
  }

  /** `h` ends with `s`: the regular expression `s + "$"` read literally. */
  predicate EndsWith(h: string, s: string)
    ensures EndsWith(h, s) <==> OccursAt(h, s, |h| - |s|)
  {
    |s| <= |h| && h[|h| - |s|..] == s
  }

  /** `h` ends with the tail `t[k..]` of `t` (the test findPrefixAtEnd
      repeats for every `k` it counts down through). */
  predicate EndsWithTail(h: string, t: string, k: nat)
  {
    k <= |t| && EndsWith(h, t[k..])
  }

  /** The count-down of findPrefixAtEnd started at `l`: it stops at the
      first `l` (going down) that is 0 or where `h` does not end with
      `t[l..]`. */
  function CountDown(h: string, t: string, l: nat): (r: nat)
    requires l < |t|
    decreases l
    ensures r <= l
    ensures r == 0 || !EndsWithTail(h, t, r)
    ensures forall k :: r < k <= l ==> EndsWithTail(h, t, k)
  {
    if l == 0 || !EndsWithTail(h, t, l) then l else CountDown(h, t, l - 1)
  }

  /** The value findPrefixAtEnd(h, t) returns: the largest `l <= |t| - 1`
      that is 0 or for which `h` does not end with the suffix `t[l..]`.
      (It is NOT the length of a partial terminator at the end of `h`.) */
  function PrefixAtEnd(h: string, t: string): (l: nat)
    requires |t| >= 1
    ensures l < |t|
    ensures l == 0 || !EndsWithTail(h, t, l)
    ensures forall k :: l < k < |t| ==> EndsWithTail(h, t, k)
    ensures |t| == 1 ==> l == 0
  {
    CountDown(h, t, |t| - 1)
  }

  /** The three properties of PrefixAtEnd single out its value. */
  lemma PrefixAtEndUnique(h: string, t: string, l: nat)
    requires |t| >= 1 && l < |t|
    requires l == 0 || !EndsWithTail(h, t, l)
    requires forall k :: l < k < |t| ==> EndsWithTail(h, t, k)
    ensures l == PrefixAtEnd(h, t)
  {
  }

  /** findPrefixAtEnd: count `l` down from `|needle| - 1` while the haystack
      ends with `needle.substring(l)`. */
  method FindPrefixAtEnd(haystack: string, needle: string) returns (l: nat)
    requires |needle| >= 1
    ensures l == PrefixAtEnd(haystack, needle)
  {
    l := |needle| - 1;
    while l != 0 && EndsWith(haystack, needle[l..])
      invariant l < |needle|
      invariant CountDown(haystack, needle, l) == PrefixAtEnd(haystack, needle)
    {
      l := l - 1;
    }
  }

  /** An occurrence in a suffix of `s` is an occurrence in `s`. */
  lemma OccursInSuffix(s: string, t: string, q: nat, i: int)
    requires q <= |s|
    requires OccursAt(s[q..], t, i)
    ensures OccursAt(s, t, q + i)
  {
    assert s[q..][i..i + |t|] == s[q + i..q + i + |t|];
  }
}
