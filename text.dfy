/**
 * Character classes and string helpers shared by the extractor and the model wrapper.
 * Python's `\s`, `\d`, `str.strip()` and `str.upper()` are Unicode-aware; this model
 * restricts them to ASCII.
 */
module Text {

  /** Whitespace as this model reads it: space, tab, line feed, vertical tab, form feed and
      carriage return. The separators U+001C to U+001F and non-ASCII spaces are not in it. */
  predicate IsWs(c: char) {
    c == ' ' || c == '\t' || c == '\n' || c == '\r' || c == '\U{B}' || c == '\U{C}'
  }

  /** The two characters excluded by the class `[^\r\n]`. */
  predicate IsNewline(c: char) {
    c == '\r' || c == '\n'
  }

  predicate IsDigit(c: char) {
    '0' <= c <= '9'
  }

  predicate AllWs(s: string) {
    forall i :: 0 <= i < |s| ==> IsWs(s[i])
  }

  predicate AllNewline(s: string) {
    forall i :: 0 <= i < |s| ==> IsNewline(s[i])
  }

  predicate NoNewline(s: string) {
    forall i :: 0 <= i < |s| ==> !IsNewline(s[i])
  }

  predicate AllDigits(s: string) {
    forall i :: 0 <= i < |s| ==> IsDigit(s[i])
  }

  /** Cutting s at k and joining the halves gives s back. */
  lemma SplitAt(s: string, k: nat)
    requires k <= |s|
    ensures s[..k] + s[k..] == s
  {
  }

  /** `w` occurs in `s` starting at index `i`. */
  predicate OccursAt(s: string, w: string, i: int) {
    0 <= i && i + |w| <= |s| && s[i..i + |w|] == w
  }

  /** The length of the run of whitespace s starts with. */
  function LeadingWs(s: string): (n: nat)
    ensures n <= |s| && AllWs(s[..n]) && (n == |s| || !IsWs(s[n]))
  {
    if s != [] && IsWs(s[0]) then
      var m := LeadingWs(s[1..]);
      WsPrepend(s, m);
      1 + m
    else 0
  }

  lemma WsPrepend(s: string, m: nat)
    requires s != [] && IsWs(s[0]) && m <= |s| - 1 && AllWs(s[1..][..m])
    ensures AllWs(s[..1 + m])
  {
    var u, v := s[..1 + m], s[1..][..m];
    forall k | 0 <= k < |u| ensures IsWs(u[k]) {
      if k > 0 {
        assert u[k] == v[k - 1];
      }
    }
  }

  /** The length of the run of whitespace s ends with. */
  function TrailingWs(s: string): (n: nat)
    ensures n <= |s| && AllWs(s[|s| - n..]) && (n == |s| || !IsWs(s[|s| - n - 1]))
  {
    if s != [] && IsWs(s[|s| - 1]) then
      var m := TrailingWs(s[..|s| - 1]);
      WsAppend(s, m);
      1 + m
    else 0
  }

  lemma WsAppend(s: string, m: nat)
    requires s != [] && IsWs(s[|s| - 1]) && m <= |s| - 1 && AllWs(s[..|s| - 1][|s| - 1 - m..])
    ensures AllWs(s[|s| - 1 - m..])
  {
    var u, v := s[|s| - 1 - m..], s[..|s| - 1][|s| - 1 - m..];
    forall k | 0 <= k < |u| ensures IsWs(u[k]) {
      if k < m {
        assert u[k] == v[k];
      }
    }
  }

  /** r is the piece of s starting at i, and everything around it is whitespace. */
  predicate CutFrom(s: string, r: string, i: int) {
    0 <= i <= |s| - |r| && r == s[i..i + |r|] && AllWs(s[..i]) && AllWs(s[i + |r|..])
  }

  /**
   * Python's `str.strip()` with no argument: the result is the piece of `s` after its
   * leading whitespace, only whitespace follows it, and it neither starts nor ends with
   * whitespace.
   */
  function Strip(s: string): (r: string)
    ensures CutFrom(s, r, LeadingWs(s))
    ensures r == [] || (!IsWs(r[0]) && !IsWs(r[|r| - 1]))
  {
    var i := LeadingWs(s);
    if i == |s| then []
    else
      var e := |s| - TrailingWs(s);
      WsIn(s, e, |s|, i);
      s[i..e]
  }

  /** The strip is the only cut of s with whitespace around it and none at its ends. */
  lemma StripUnique(s: string, r: string, i: int)
    requires CutFrom(s, r, i) && r != [] && !IsWs(r[0]) && !IsWs(r[|r| - 1])
    ensures Strip(s) == r
  {
    CutUnique(s, r, i, Strip(s), LeadingWs(s));
  }

  /** Two cuts of s with whitespace around them and none at their ends are the same cut
      (the first need only be non-empty). */
  lemma CutUnique(s: string, r: string, i: int, r': string, i': int)
    requires CutFrom(s, r, i) && r != [] && !IsWs(r[0]) && !IsWs(r[|r| - 1])
    requires CutFrom(s, r', i') && (r' == [] || (!IsWs(r'[0]) && !IsWs(r'[|r'| - 1])))
    ensures r' == r
  {
    var e, e' := i + |r|, i' + |r'|;
    assert s[i] == r[0] && s[e - 1] == r[|r| - 1];
    WsIn(s, 0, i', i);
    WsIn(s, e', |s|, i);
    assert r' != [] && s[i'] == r'[0] && s[e' - 1] == r'[|r'| - 1];
    WsIn(s, 0, i, i');
    WsIn(s, e', |s|, e - 1);
    WsIn(s, e, |s|, e' - 1);
  }

  /** A position inside an all-whitespace slice holds whitespace. */
  lemma WsIn(s: string, lo: int, hi: int, x: int)
    requires 0 <= lo <= hi <= |s| && AllWs(s[lo..hi])
    ensures lo <= x < hi ==> IsWs(s[x])
  {
    if lo <= x < hi {
      assert s[lo..hi][x - lo] == s[x];
    }
  }

  /** A string without leading or trailing whitespace is its own strip. */
  lemma StripKeeps(s: string)
    requires s == [] || (!IsWs(s[0]) && !IsWs(s[|s| - 1]))
    ensures Strip(s) == s
  {
  }

  /** Stripping twice is stripping once. */
  lemma StripIdempotent(s: string)
    ensures Strip(Strip(s)) == Strip(s)
  {
    StripKeeps(Strip(s));
  }

  /** A string made only of whitespace strips to the empty string. */
  lemma {:induction false} StripAllWs(s: string)
    requires AllWs(s)
    ensures Strip(s) == []
  {
    if s != [] {
      StripAllWs(s[1..]);
    }
  }

  /** ASCII upper-casing of one character. */
  function UpperChar(c: char): char {
    if 'a' <= c <= 'z' then (c as int - 32) as char else c
  }

  /** Python's `str.upper()` restricted to ASCII letters. */
  function Upper(s: string): (r: string)
    ensures |r| == |s| && forall i :: 0 <= i < |s| ==> r[i] == UpperChar(s[i])
  {
    if s == [] then [] else [UpperChar(s[0])] + Upper(s[1..])
  }

  /** Upper-casing an upper-cased string changes nothing, so a case-insensitive comparison
      against an already upper-cased target behaves the same. */
  lemma UpperIdempotent(s: string)
    ensures Upper(Upper(s)) == Upper(s)
  {
  }
}
