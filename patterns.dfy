/**
 * The two regular-expression shapes the extractor searches for, each given twice: as a
 * declarative description of every way the pattern can match, with the priority among
 * matches that Python's backtracking `re.search` applies, and as the scan that reports
 * the preferred match. The search functions' contracts tie the two together.
 */
module Patterns {
  import opened Wrappers
  import opened Text

  // ---------------------------------------------------------------------------------------
  // `kw\s*([^\r\n]+)`, searched with `re.search` and read with `.group(2)`.
  // ---------------------------------------------------------------------------------------

  /** One way for `kw\s*([^\r\n]+)` to match `t`: the keyword occupies t[p..p+|kw|],
      `\s*` consumes t[p+|kw|..c] and group 2 is t[c..f]. */
  predicate KeywordMatch(t: string, kw: string, p: int, c: int, f: int) {
    && 0 <= p && p + |kw| <= c < f <= |t|
    && t[p..p + |kw|] == kw
    && AllWs(t[p + |kw|..c])
    && NoNewline(t[c..f])
  }

  /** The match `re.search` reports: the leftmost start, then the longest `\s*` (greedy),
      then the longest group (greedy). */
  ghost predicate PreferredMatch(t: string, kw: string, p: int, c: int, f: int) {
    && KeywordMatch(t, kw, p, c, f)
    && forall p', c', f' :: KeywordMatch(t, kw, p', c', f') ==>
         p < p' || (p == p' && (c' < c || (c' == c && f' <= f)))
  }

  /** The spans of a keyword hit: the match starts at `start`, group 2 is t[group..end]. */
  datatype KeywordHit = KeywordHit(start: nat, group: nat, end: nat)

  /** The end of the run of whitespace that starts at `a`. */
  function WsRunEnd(t: string, a: nat): (q: nat)
    requires a <= |t|
    ensures a <= q <= |t| && AllWs(t[a..q]) && (q == |t| || !IsWs(t[q]))
    decreases |t| - a
  {
    if a < |t| && IsWs(t[a]) then
      var q := WsRunEnd(t, a + 1);
      assert t[a..q] == [t[a]] + t[a + 1..q];
      q
    else a
  }

  /** The end of the run of non-newline characters that starts at `c`. */
  function LineEnd(t: string, c: nat): (f: nat)
    requires c <= |t|
    ensures c <= f <= |t| && NoNewline(t[c..f]) && (f == |t| || IsNewline(t[f]))
    decreases |t| - c
  {
    if c < |t| && !IsNewline(t[c]) then
      var f := LineEnd(t, c + 1);
      assert t[c..f] == [t[c]] + t[c + 1..f];
      f
    else c
  }

  /**
   * Group 2 tried at c, after `\s*` took t[a..c]: `[^\r\n]+` starts only at a character
   * that is not a newline; otherwise `\s*` gives one character back and the group is tried
   * again, down to `\s*` matching nothing.
   */
  function Backtrack(t: string, a: nat, c: nat): (r: Option<(nat, nat)>)
    requires a <= c <= |t|
    ensures r.Some? ==> a <= r.value.0 <= c && r.value.1 == LineEnd(t, r.value.0) && r.value.0 < r.value.1
    ensures r.None? ==> forall x :: a <= x <= c && x < |t| ==> IsNewline(t[x])
    decreases c - a
  {
    if c < |t| && !IsNewline(t[c]) then Some((c, LineEnd(t, c)))
    else if c == a then None
    else Backtrack(t, a, c - 1)
  }

  /** `\s*([^\r\n]+)` at position a: the greedy `\s*` first takes the whole whitespace run. */
  function MatchAfter(t: string, a: nat): (r: Option<(nat, nat)>)
    requires a <= |t|
    ensures r.Some? ==> a <= r.value.0 < r.value.1 <= |t|
    ensures r.Some? ==> forall x :: r.value.0 <= x < r.value.1 ==> !IsNewline(t[x])
    ensures r.None? ==> forall x :: a <= x <= WsRunEnd(t, a) && x < |t| ==> IsNewline(t[x])
  {
    Backtrack(t, a, WsRunEnd(t, a))
  }

  lemma {:induction false} WsRunBound(t: string, a: nat, x: nat)
    requires a <= x <= |t| && AllWs(t[a..x])
    ensures x <= WsRunEnd(t, a)
    decreases x - a
  {
    if a < x {
      assert t[a..x][0] == t[a];
      assert t[a + 1..x] == t[a..x][1..];
      WsRunBound(t, a + 1, x);
    }
  }

  lemma {:induction false} WsRunExact(t: string, a: nat, b: nat)
    requires a <= b <= |t| && AllWs(t[a..b]) && (b == |t| || !IsWs(t[b]))
    ensures WsRunEnd(t, a) == b
    decreases b - a
  {
    if a < b {
      assert t[a..b][0] == t[a];
      assert t[a + 1..b] == t[a..b][1..];
      WsRunExact(t, a + 1, b);
    }
  }

  lemma {:induction false} LineEndBound(t: string, c: nat, x: nat)
    requires c <= x <= |t| && NoNewline(t[c..x])
    ensures x <= LineEnd(t, c)
    decreases x - c
  {
    if c < x {
      assert t[c..x][0] == t[c];
      assert t[c + 1..x] == t[c..x][1..];
      LineEndBound(t, c + 1, x);
    }
  }

  lemma {:induction false} BacktrackBound(t: string, a: nat, c: nat, x: nat)
    requires a <= x <= c <= |t| && x < |t| && !IsNewline(t[x])
    ensures Backtrack(t, a, c).Some? && x <= Backtrack(t, a, c).value.0
    decreases c - a
  {
    if !(c < |t| && !IsNewline(t[c])) {
      BacktrackBound(t, a, c - 1, x);
    }
  }

  /** At one keyword position the scan finds a match exactly when one exists, and the one it
      finds has the longest `\s*` and then the longest group. */
  lemma MatchAfterSpec(t: string, kw: string, p: nat)
    requires p + |kw| <= |t|
    ensures MatchAfter(t, p + |kw|).None? <==> AllNewline(t[p + |kw|..])
    ensures MatchAfter(t, p + |kw|).None? ==> forall c, f :: !KeywordMatch(t, kw, p, c, f)
    ensures t[p..p + |kw|] == kw && MatchAfter(t, p + |kw|).Some? ==>
              var (c, f) := MatchAfter(t, p + |kw|).value;
              && KeywordMatch(t, kw, p, c, f)
              && forall c', f' :: KeywordMatch(t, kw, p, c', f') ==> c' < c || (c' == c && f' <= f)
  {
    var a := p + |kw|;
    var q := WsRunEnd(t, a);
    forall c', f' | KeywordMatch(t, kw, p, c', f')
      ensures MatchAfter(t, a).Some? && c' <= MatchAfter(t, a).value.0
      ensures c' == MatchAfter(t, a).value.0 ==> f' <= MatchAfter(t, a).value.1
    {
      WsRunBound(t, a, c');
      assert t[c'..f'][0] == t[c'];
      BacktrackBound(t, a, q, c');
      LineEndBound(t, c', f');
    }
    if MatchAfter(t, a).Some? {
      var (c, f) := MatchAfter(t, a).value;
      forall x | 0 <= x < c - a ensures IsWs(t[a..c][x]) {
        WsIn(t, a, q, a + x);
      }
      assert !IsNewline(t[a..][c - a]);
    } else {
      forall x | a <= x < |t| ensures IsNewline(t[x]) {
        WsRunBound(t, a, |t|);
      }
      assert AllNewline(t[a..]);
    }
  }

  /**
   * The leftmost keyword position i' >= i where the pattern matches, with the preferred
   * spans there.
   */
  function SearchKeywordFrom(t: string, kw: string, i: nat): (r: Option<KeywordHit>)
    ensures r.Some? ==> i <= r.value.start && KeywordMatch(t, kw, r.value.start, r.value.group, r.value.end)
    ensures r.Some? ==> forall p', c', f' :: i <= p' && KeywordMatch(t, kw, p', c', f') ==>
              r.value.start < p' || (r.value.start == p' && (c' < r.value.group || (c' == r.value.group && f' <= r.value.end)))
    ensures r.None? ==> forall p', c', f' :: i <= p' ==> !KeywordMatch(t, kw, p', c', f')
    decreases |t| + 1 - i
  {
    if i + |kw| > |t| then None
    else
      MatchAfterSpec(t, kw, i);
      if t[i..i + |kw|] == kw && MatchAfter(t, i + |kw|).Some? then
        var (c, f) := MatchAfter(t, i + |kw|).value;
        Some(KeywordHit(i, c, f))
      else
        SearchKeywordFrom(t, kw, i + 1)
  }

  /** `re.search(kw + r"\s*([^\r\n]+)", t)`: the preferred match, or None when none exists. */
  function SearchKeyword(t: string, kw: string): (r: Option<KeywordHit>)
    ensures r.Some? ==> PreferredMatch(t, kw, r.value.start, r.value.group, r.value.end)
    ensures r.None? <==> forall p, c, f :: !KeywordMatch(t, kw, p, c, f)
  {
    SearchKeywordFrom(t, kw, 0)
  }

  /** The search fails exactly when every occurrence of the keyword is followed by nothing
      but carriage returns and line feeds up to the end of the text. */
  lemma KeywordFailsIff(t: string, kw: string)
    ensures SearchKeyword(t, kw).None? <==> forall p :: OccursAt(t, kw, p) ==> AllNewline(t[p + |kw|..])
  {
    forall p | OccursAt(t, kw, p) && SearchKeyword(t, kw).None?
      ensures AllNewline(t[p + |kw|..])
    {
      MatchAfterSpec(t, kw, p);
    }
    forall p, c, f | KeywordMatch(t, kw, p, c, f)
      ensures OccursAt(t, kw, p) && !AllNewline(t[p + |kw|..])
    {
      assert t[p + |kw|..][c - p - |kw|] == t[c] == t[c..f][0];
    }
  }

  // ---------------------------------------------------------------------------------------
  // `(Jan|Feb|...|Dec)\s+\d{1,2},\s+\d{4}`, searched with `re.search` and read with `.group(0)`.
  // ---------------------------------------------------------------------------------------

  const MonthAbbrevs: seq<string> :=
    ["Jan", "Feb", "Mar", "Apr", "May", "Jun", "Jul", "Aug", "Sep", "Oct", "Nov", "Dec"]

  /** `s` is, in order: a month abbreviation, k >= 1 whitespace characters, d in {1, 2}
      digits, a comma, j >= 1 whitespace characters and exactly 4 digits. */
  predicate DateSplit(s: string, k: int, d: int, j: int) {
    && 1 <= k && 1 <= d <= 2 && 1 <= j && |s| == 3 + k + d + 1 + j + 4
    && s[..3] in MonthAbbrevs
    && AllWs(s[3..3 + k])
    && AllDigits(s[3 + k..3 + k + d])
    && s[3 + k + d] == ','
    && AllWs(s[4 + k + d..4 + k + d + j])
    && AllDigits(s[4 + k + d + j..])
  }

  /** `s` is a whole match of the date pattern. */
  ghost predicate IsDate(s: string) {
    exists k, d, j :: DateSplit(s, k, d, j)
  }

  /** The span t[start..end] of a date hit (group 0). */
  datatype DateHit = DateHit(start: nat, end: nat)

  /** `\d{1,2},` at b, two digits tried before one: the index of the comma. */
  function DayComma(t: string, b: nat): (r: Option<nat>)
    requires b <= |t|
    ensures r.Some? ==> (r.value == b + 1 || r.value == b + 2) && r.value < |t|
    ensures r.Some? ==> AllDigits(t[b..r.value]) && t[r.value] == ','
  {
    if b + 2 < |t| && IsDigit(t[b]) && IsDigit(t[b + 1]) && t[b + 2] == ',' then Some(b + 2)
    else if b + 1 < |t| && IsDigit(t[b]) && t[b + 1] == ',' then Some(b + 1)
    else None
  }

  /**
   * The end of the date match that starts at p, if one does. Each `\s+` keeps its whole
   * run: a character it gives back is whitespace, where the pattern next needs a digit.
   */
  function DateMatchAt(t: string, p: nat): (r: Option<nat>)
    requires p <= |t|
    ensures r.Some? ==> p + 11 <= r.value <= |t|
    ensures r.Some? ==> t[p..p + 3] in MonthAbbrevs && AllDigits(t[r.value - 4..r.value])
  {
    if p + 3 > |t| || t[p..p + 3] !in MonthAbbrevs then None
    else
      var b := WsRunEnd(t, p + 3);
      var comma := DayComma(t, b);
      if b == p + 3 || comma.None? then None
      else
        var e := WsRunEnd(t, comma.value + 1);
        if e == comma.value + 1 || e + 4 > |t| || !AllDigits(t[e..e + 4]) then None
        else Some(e + 4)
  }

  lemma DateMatchAtSound(t: string, p: nat)
    requires p <= |t|
    ensures DateMatchAt(t, p).Some? ==> p <= DateMatchAt(t, p).value <= |t| && IsDate(t[p..DateMatchAt(t, p).value])
  {
    if DateMatchAt(t, p).Some? {
      var b := WsRunEnd(t, p + 3);
      assert b > p + 3 && DayComma(t, b).Some?;
      var comma := DayComma(t, b).value;
      var e := WsRunEnd(t, comma + 1);
      assert e > comma + 1 && e + 4 <= |t| && AllDigits(t[e..e + 4]);
      DateSplitFromText(t, p, e + 4, b - p - 3, comma - b, e - comma - 1);
    }
  }

  /** The pieces of a date laid out in the text make its slice a DateSplit. */
  lemma DateSplitFromText(t: string, p: nat, e: nat, k: int, d: int, j: int)
    requires p <= e <= |t| && 1 <= k && 1 <= d <= 2 && 1 <= j
    requires p + 3 + k + d + 1 + j + 4 == e
    requires t[p..p + 3] in MonthAbbrevs
    requires AllWs(t[p + 3..p + 3 + k])
    requires AllDigits(t[p + 3 + k..p + 3 + k + d])
    requires t[p + 3 + k + d] == ','
    requires AllWs(t[p + 4 + k + d..p + 4 + k + d + j])
    requires AllDigits(t[p + 4 + k + d + j..e])
    ensures DateSplit(t[p..e], k, d, j)
  {
    var s := t[p..e];
    SliceOfSlice(t, p, e, 0, 3);
    SliceOfSlice(t, p, e, 3, 3 + k);
    SliceOfSlice(t, p, e, 3 + k, 3 + k + d);
    SliceOfSlice(t, p, e, 4 + k + d, 4 + k + d + j);
    SliceOfSlice(t, p, e, 4 + k + d + j, |s|);
    assert s[..3] == s[0..3];
    assert s[4 + k + d + j..] == s[4 + k + d + j..|s|];
  }

  lemma SliceOfSlice(t: string, p: int, e: int, i: int, j: int)
    requires 0 <= p <= e <= |t| && 0 <= i <= j <= e - p
    ensures t[p..e][i..j] == t[p + i..p + j]
  {
    var u, v := t[p..e][i..j], t[p + i..p + j];
    assert |u| == |v|;
    forall m | 0 <= m < |u| ensures u[m] == v[m] {
      assert u[m] == t[p..e][i + m];
    }
  }

  /** DateSplit of a slice, restated on the text it was cut from. */
  lemma DateSplitInText(t: string, p: nat, e: nat, k: int, d: int, j: int)
    requires p <= e <= |t| && DateSplit(t[p..e], k, d, j)
    ensures p + 3 + k + d + 1 + j + 4 == e
    ensures t[p..p + 3] in MonthAbbrevs
    ensures AllWs(t[p + 3..p + 3 + k])
    ensures AllDigits(t[p + 3 + k..p + 3 + k + d])
    ensures t[p + 3 + k + d] == ','
    ensures AllWs(t[p + 4 + k + d..p + 4 + k + d + j])
    ensures AllDigits(t[p + 4 + k + d + j..e])
  {
    var s := t[p..e];
    SliceOfSlice(t, p, e, 0, 3);
    SliceOfSlice(t, p, e, 3, 3 + k);
    SliceOfSlice(t, p, e, 3 + k, 3 + k + d);
    SliceOfSlice(t, p, e, 4 + k + d, 4 + k + d + j);
    SliceOfSlice(t, p, e, 4 + k + d + j, |s|);
    assert s[..3] == s[0..3];
    assert s[4 + k + d + j..] == s[4 + k + d + j..|s|];
  }

  lemma DateMatchAtComplete(t: string, p: nat, e: nat, k: int, d: int, j: int)
    requires p <= e <= |t| && DateSplit(t[p..e], k, d, j)
    ensures DateMatchAt(t, p) == Some(e)
  {
    DateSplitInText(t, p, e, k, d, j);
    DateMatchAtFromText(t, p, e, k, d, j);
  }

  /** The pieces of a date laid out in the text from p: DateMatchAt finds exactly them. */
  lemma DateMatchAtFromText(t: string, p: nat, e: nat, k: int, d: int, j: int)
    requires p <= e <= |t| && 1 <= k && 1 <= d <= 2 && 1 <= j
    requires p + 3 + k + d + 1 + j + 4 == e
    requires t[p..p + 3] in MonthAbbrevs
    requires AllWs(t[p + 3..p + 3 + k])
    requires AllDigits(t[p + 3 + k..p + 3 + k + d])
    requires t[p + 3 + k + d] == ','
    requires AllWs(t[p + 4 + k + d..p + 4 + k + d + j])
    requires AllDigits(t[p + 4 + k + d + j..e])
    ensures DateMatchAt(t, p) == Some(e)
  {
    var b := p + 3 + k;
    var comma := b + d;
    assert IsDigit(t[b..b + d][0]);
    WsRunExact(t, p + 3, b);
    DayCommaAt(t, b, d);
    assert IsDigit(t[comma + 1 + j..e][0]);
    WsRunExact(t, comma + 1, comma + 1 + j);
  }

  /** One or two digits and then a comma at b: DayComma finds that comma. */
  lemma DayCommaAt(t: string, b: nat, d: int)
    requires 1 <= d <= 2 && b + d < |t|
    requires AllDigits(t[b..b + d]) && t[b + d] == ','
    ensures DayComma(t, b) == Some(b + d)
  {
    var ds := t[b..b + d];
    assert IsDigit(ds[0]) && IsDigit(ds[d - 1]);
    assert t[b] == ds[0] && t[b + d - 1] == ds[d - 1];
  }

  /** Every date match in t is found by DateMatchAt at its start. */
  lemma DateMatchAtCompleteAll(t: string)
    ensures forall p, e :: 0 <= p <= e <= |t| && IsDate(t[p..e]) ==> DateMatchAt(t, p) == Some(e)
  {
    forall p, e | 0 <= p <= e <= |t| && IsDate(t[p..e])
      ensures DateMatchAt(t, p) == Some(e)
    {
      var k, d, j :| DateSplit(t[p..e], k, d, j);
      DateMatchAtComplete(t, p, e, k, d, j);
    }
  }

  /** The leftmost date match starting at or after i. */
  function SearchDateFrom(t: string, i: nat): (r: Option<DateHit>)
    requires i <= |t|
    ensures r.Some? ==> i <= r.value.start <= r.value.end <= |t| && IsDate(t[r.value.start..r.value.end])
    ensures r.Some? ==> forall p, e :: i <= p <= e <= |t| && IsDate(t[p..e]) ==>
              r.value.start < p || (r.value.start == p && e == r.value.end)
    ensures r.None? ==> forall p, e :: i <= p <= e <= |t| ==> !IsDate(t[p..e])
    decreases |t| - i
  {
    DateMatchAtSound(t, i);
    DateMatchAtCompleteAll(t);
    if DateMatchAt(t, i).Some? then Some(DateHit(i, DateMatchAt(t, i).value))
    else if i == |t| then None
    else SearchDateFrom(t, i + 1)
  }

  /** `re.search(date_pattern, t)`: the leftmost date match (a start has at most one), or
      None when t contains none. */
  function SearchDate(t: string): (r: Option<DateHit>)
    ensures r.Some? ==> r.value.start <= r.value.end <= |t| && IsDate(t[r.value.start..r.value.end])
    ensures r.Some? ==> forall p, e :: 0 <= p <= e <= |t| && IsDate(t[p..e]) ==>
              r.value.start < p || (r.value.start == p && e == r.value.end)
    ensures r.None? <==> forall p, e :: 0 <= p <= e <= |t| ==> !IsDate(t[p..e])
  {
    SearchDateFrom(t, 0)
  }

  // ---------------------------------------------------------------------------------------
  // Worked cases
  // ---------------------------------------------------------------------------------------

  /** The date pattern has no word boundary: a five-digit year yields its first four digits. */
  lemma DateNotWordBounded()
    ensures SearchDate("Jan 5, 20245") == Some(DateHit(0, 11))
    ensures "Jan 5, 20245"[0..11] == "Jan 5, 2024"
  {
    var t := "Jan 5, 20245";
    var s := t[0..11];
    assert s[..3] == "Jan" == MonthAbbrevs[0];
    assert s[3..4] == " " && s[4..5] == "5" && s[6..7] == " " && s[7..] == "2024";
    assert DateSplit(s, 1, 1, 1);
    DateMatchAtComplete(t, 0, 11, 1, 1, 1);
  }

  /** A keyword inside a longer word still matches: the rest of the word opens the group. */
  lemma KeywordInsideLongerWord()
    ensures SearchKeyword("Accounts: 7", "Account") == Some(KeywordHit(0, 7, 11))
    ensures "Accounts: 7"[7..11] == "s: 7"
  {
    var t := "Accounts: 7";
    assert t[0..7] == "Account";
    assert t[7] == 's';
    WsRunExact(t, 7, 7);
    assert NoNewline(t[7..11]);
    LineEndBound(t, 7, 11);
    assert MatchAfter(t, 7) == Some((7, 11));
  }

  /** The whitespace after the keyword is skipped, and the group is the rest of the line. */
  lemma LeadingSpaceSkipped()
    ensures SearchKeyword("Account Number: 12", "Account") == Some(KeywordHit(0, 8, 18))
    ensures "Account Number: 12"[8..18] == "Number: 12"
  {
    var t := "Account Number: 12";
    assert t[0..7] == "Account";
    assert t[7] == ' ' && t[8] == 'N';
    WsRunExact(t, 7, 8);
    assert NoNewline(t[8..18]);
    LineEndBound(t, 8, 18);
    assert MatchAfter(t, 7) == Some((8, 18));
  }

  /** `\s*` cannot consume a colon, so a "Label: value" line yields the colon too. */
  lemma ColonIsCaptured()
    ensures SearchKeyword("Merchant: Corner Shop", "Merchant") == Some(KeywordHit(0, 8, 21))
    ensures "Merchant: Corner Shop"[8..21] == ": Corner Shop"
  {
    var t := "Merchant: Corner Shop";
    assert t[0..8] == "Merchant";
    assert t[8] == ':';
    WsRunExact(t, 8, 8);
    assert NoNewline(t[8..21]);
    LineEndBound(t, 8, 21);
    assert MatchAfter(t, 8) == Some((8, 21));
  }
}
