/**
 * The text-completion wrapper's post-processing: every "<think>...</think>" span is removed
 * from the raw response (`re.sub` with a lazy `.*?` under DOTALL) and the rest is stripped.
 * The call into the local inference runtime is not part of this model.
 */
module Gemma3 {
  import opened Wrappers
  import opened Text

  const Open := "<think>"
  const Close := "</think>"

  /** The model type the wrapper reports. */
  const LlmType := "gemma3:4b"

  /** The first index at or after i where "</think>" occurs in s. */
  function FirstClose(s: string, i: nat): (r: Option<nat>)
    ensures r.Some? ==> i <= r.value && OccursAt(s, Close, r.value)
    ensures r.Some? ==> forall j :: i <= j < r.value ==> !OccursAt(s, Close, j)
    ensures r.None? ==> forall j :: i <= j ==> !OccursAt(s, Close, j)
    decreases |s| + 1 - i
  {
    if i + |Close| > |s| then None
    else if s[i..i + |Close|] == Close then Some(i)
    else FirstClose(s, i + 1)
  }

  /**
   * `re.sub(r"<think>.*?</think>", "", s, flags=re.DOTALL)`: scanning left to right, a
   * match at the current position is removed and the scan resumes after its "</think>";
   * otherwise the character is kept and the scan moves on by one.
   */
  function RemoveThinkSpans(s: string): (r: string)
    ensures |r| <= |s|
    ensures s == [] ==> r == []
    decreases |s|
  {
    if s == [] then []
    else if OccursAt(s, Open, 0) && FirstClose(s, |Open|).Some? then
      RemoveThinkSpans(s[FirstClose(s, |Open|).value + |Close|..])
    else [s[0]] + RemoveThinkSpans(s[1..])
  }

  /** The wrapper's answer for a raw response: think spans removed, then `strip()`. */
  function CleanResponse(raw: string): (r: string)
    ensures r == [] || (!IsWs(r[0]) && !IsWs(r[|r| - 1]))
  {
    Strip(RemoveThinkSpans(raw))
  }

  // ---------------------------------------------------------------------------------------
  // What the scan does, stated without the scan
  // ---------------------------------------------------------------------------------------

  /** A whole match of the pattern: "<think>", then anything (newlines included), then the
      first "</think>" after the opening tag. */
  predicate IsThinkSpan(sp: string) {
    && |sp| >= |Open| + |Close|
    && OccursAt(sp, Open, 0)
    && OccursAt(sp, Close, |sp| - |Close|)
    && forall j :: |Open| <= j < |sp| - |Close| ==> !OccursAt(sp, Close, j)
  }

  /** A match of the pattern starts at the beginning of rest. */
  ghost predicate SpanStartsHere(rest: string) {
    exists n :: 0 <= n <= |rest| && IsThinkSpan(rest[..n])
  }

  /** One step of the scan: a character kept, or a span removed. */
  datatype Piece = Kept(c: char) | Removed(span: string)

  function PieceText(p: Piece): string {
    match p
    case Kept(c) => [c]
    case Removed(span) => span
  }

  /** The text the pieces cover, in order. */
  function Concat(ps: seq<Piece>): string {
    if ps == [] then [] else PieceText(ps[0]) + Concat(ps[1..])
  }

  /** The kept characters, in order. */
  function KeptText(ps: seq<Piece>): string {
    if ps == [] then []
    else (match ps[0] case Kept(c) => [c] case Removed(_) => []) + KeptText(ps[1..])
  }

  /** ps is the leftmost-first scan of the text it covers: a character is kept only where no
      match starts, and each removed piece is a whole match starting where it stands. */
  ghost predicate Scanned(ps: seq<Piece>) {
    forall k :: 0 <= k < |ps| ==>
      match ps[k]
      case Kept(_) => !SpanStartsHere(Concat(ps[k..]))
      case Removed(span) => IsThinkSpan(span)
  }

  lemma ScannedTail(ps: seq<Piece>)
    requires ps != [] && Scanned(ps)
    ensures Scanned(ps[1..])
  {
    forall k | 0 <= k < |ps| - 1 ensures ps[1..][k..] == ps[k + 1..] {}
  }

  lemma ScannedCons(p: Piece, qs: seq<Piece>)
    requires Scanned(qs)
    requires match p case Kept(_) => !SpanStartsHere(Concat([p] + qs)) case Removed(span) => IsThinkSpan(span)
    ensures Scanned([p] + qs)
  {
    var ps := [p] + qs;
    assert ps[0..] == ps;
    forall k | 1 <= k < |ps| ensures ps[k..] == qs[k - 1..] && ps[k] == qs[k - 1] {}
  }

  /** A span at the start of s brings its closing tag, at or after index |Open|. */
  lemma SpanGivesClose(s: string, n: nat)
    requires n <= |s| && IsThinkSpan(s[..n])
    ensures OccursAt(s, Open, 0)
    ensures |Open| <= n - |Close| && OccursAt(s, Close, n - |Close|)
  {
    assert s[..n][0..|Open|] == s[0..|Open|];
    assert s[..n][n - |Close|..n] == s[n - |Close|..n];
  }

  /** The span found by FirstClose is a whole match. */
  lemma FoundSpan(s: string)
    requires OccursAt(s, Open, 0) && FirstClose(s, |Open|).Some?
    ensures IsThinkSpan(s[..FirstClose(s, |Open|).value + |Close|])
  {
    var j := FirstClose(s, |Open|).value;
    var sp := s[..j + |Close|];
    assert sp[0..|Open|] == s[0..|Open|];
    assert sp[j..j + |Close|] == s[j..j + |Close|];
    forall x | |Open| <= x < j ensures !OccursAt(sp, Close, x) {
      assert !OccursAt(s, Close, x);
      assert sp[x..x + |Close|] == s[x..x + |Close|];
    }
  }

  /** A match starting at the beginning of s is exactly what the scan's first test finds. */
  lemma SpanStartFound(s: string)
    ensures SpanStartsHere(s) ==> OccursAt(s, Open, 0) && FirstClose(s, |Open|).Some?
  {
    if SpanStartsHere(s) {
      var n :| 0 <= n <= |s| && IsThinkSpan(s[..n]);
      SpanGivesClose(s, n);
    }
  }

  /**
   * RemoveThinkSpans is the scan: some sequence of pieces covers s exactly, in order, obeys
   * the leftmost-first rule, and its kept characters are the result. So text outside the
   * removed spans keeps its order, and removed spans never overlap.
   */
  lemma {:induction false} RemoveThinkSpansIsScan(s: string) returns (ps: seq<Piece>)
    ensures Concat(ps) == s && Scanned(ps) && RemoveThinkSpans(s) == KeptText(ps)
    decreases |s|
  {
    if s == [] {
      ps := [];
    } else if OccursAt(s, Open, 0) && FirstClose(s, |Open|).Some? {
      var j := FirstClose(s, |Open|).value;
      var qs := RemoveThinkSpansIsScan(s[j + |Close|..]);
      RemovedStep(s, j, qs);
      ps := [Removed(s[..j + |Close|])] + qs;
    } else {
      var qs := RemoveThinkSpansIsScan(s[1..]);
      KeptStep(s, qs);
      ps := [Kept(s[0])] + qs;
    }
  }

  /** A span found at the start, followed by a scan of the rest, is a scan of s. */
  lemma RemovedStep(s: string, j: nat, qs: seq<Piece>)
    requires OccursAt(s, Open, 0) && FirstClose(s, |Open|) == Some(j)
    requires Concat(qs) == s[j + |Close|..] && Scanned(qs)
    requires RemoveThinkSpans(s[j + |Close|..]) == KeptText(qs)
    ensures var ps := [Removed(s[..j + |Close|])] + qs;
      Concat(ps) == s && Scanned(ps) && RemoveThinkSpans(s) == KeptText(ps)
  {
    var sp := s[..j + |Close|];
    var ps := [Removed(sp)] + qs;
    assert ps[0] == Removed(sp) && ps[1..] == qs;
    assert Concat(ps) == sp + Concat(qs);
    SplitAt(s, j + |Close|);
    assert KeptText(ps) == KeptText(qs);
    assert RemoveThinkSpans(s) == RemoveThinkSpans(s[j + |Close|..]);
    FoundSpan(s);
    ScannedCons(Removed(sp), qs);
  }

  /** A character kept where no span starts, followed by a scan of the rest, is a scan of s. */
  lemma KeptStep(s: string, qs: seq<Piece>)
    requires s != [] && !(OccursAt(s, Open, 0) && FirstClose(s, |Open|).Some?)
    requires Concat(qs) == s[1..] && Scanned(qs) && RemoveThinkSpans(s[1..]) == KeptText(qs)
    ensures var ps := [Kept(s[0])] + qs;
      Concat(ps) == s && Scanned(ps) && RemoveThinkSpans(s) == KeptText(ps)
  {
    var ps := [Kept(s[0])] + qs;
    assert ps[1..] == qs;
    assert Concat(ps) == s;
    SpanStartFound(s);
    ScannedCons(Kept(s[0]), qs);
  }

  /** The lazy `.*?` makes a match at a given start unique. */
  lemma SpanLengthUnique(s: string, n: nat, m: nat)
    requires n <= |s| && m <= |s| && IsThinkSpan(s[..n]) && IsThinkSpan(s[..m])
    ensures n == m
  {
    assert n < m ==> OccursAt(s[..m], Close, n - |Close|);
    assert m < n ==> OccursAt(s[..n], Close, m - |Close|);
  }

  lemma PieceNonEmpty(p: Piece)
    requires p.Removed? ==> IsThinkSpan(p.span)
    ensures |PieceText(p)| > 0
  {
  }

  lemma ConcatCons(ps: seq<Piece>)
    requires ps != []
    ensures Concat(ps) == PieceText(ps[0]) + Concat(ps[1..])
  {
  }

  /** The first piece of a scan is a removed span exactly when a match starts the text. */
  lemma FirstPieceKind(ps: seq<Piece>)
    requires ps != [] && Scanned(ps)
    ensures ps[0].Kept? <==> !SpanStartsHere(Concat(ps))
    ensures ps[0].Removed? ==> |ps[0].span| <= |Concat(ps)| && Concat(ps)[..|ps[0].span|] == ps[0].span
  {
    assert ps[0..] == ps;
    ConcatCons(ps);
    if ps[0].Removed? {
      var sp := ps[0].span;
      assert Concat(ps)[..|sp|] == sp;
      assert IsThinkSpan(Concat(ps)[..|sp|]);
    }
  }

  /** The scan of a text is unique, so the pieces RemoveThinkSpansIsScan returns are the
      only ones that obey the rule. */
  lemma {:induction false} ScanUnique(ps: seq<Piece>, qs: seq<Piece>)
    requires Concat(ps) == Concat(qs) && Scanned(ps) && Scanned(qs)
    ensures ps == qs
    decreases |ps|
  {
    if ps == [] || qs == [] {
      if ps != [] { assert ps[0..] == ps; PieceNonEmpty(ps[0]); }
      if qs != [] { assert qs[0..] == qs; PieceNonEmpty(qs[0]); }
    } else {
      var s := Concat(ps);
      ConcatCons(ps);
      ConcatCons(qs);
      FirstPieceKind(ps);
      FirstPieceKind(qs);
      if ps[0].Kept? {
        assert s[0] == ps[0].c == qs[0].c;
      } else {
        SpanLengthUnique(s, |ps[0].span|, |qs[0].span|);
      }
      assert ps[0] == qs[0];
      var n := |PieceText(ps[0])|;
      assert Concat(ps[1..]) == s[n..] == Concat(qs[1..]);
      ScannedTail(ps);
      ScannedTail(qs);
      ScanUnique(ps[1..], qs[1..]);
      assert ps == [ps[0]] + ps[1..] && qs == [qs[0]] + qs[1..];
    }
  }

  /** RemoveThinkSpans agrees with every scan of its input: any covering of s by pieces that
      obeys the leftmost-first rule keeps exactly the characters RemoveThinkSpans returns. */
  lemma RemoveThinkSpansSpec(s: string, ps: seq<Piece>)
    requires Concat(ps) == s && Scanned(ps)
    ensures RemoveThinkSpans(s) == KeptText(ps)
  {
    var qs := RemoveThinkSpansIsScan(s);
    ScanUnique(ps, qs);
  }

  /** An occurrence in the tail is an occurrence one further along in the whole. */
  lemma OccursInTail(s: string, w: string, i: int)
    requires s != []
    ensures OccursAt(s[1..], w, i) ==> OccursAt(s, w, i + 1)
  {
    if OccursAt(s[1..], w, i) {
      assert s[1..][i..i + |w|] == s[i + 1..i + 1 + |w|];
    }
  }

  /** Text with no "<think>" comes back unchanged, a lone "</think>" included. */
  lemma {:induction false} NoOpenUnchanged(s: string)
    requires forall i :: !OccursAt(s, Open, i)
    ensures RemoveThinkSpans(s) == s
    decreases |s|
  {
    if s != [] {
      assert !OccursAt(s, Open, 0);
      forall i ensures !OccursAt(s[1..], Open, i) {
        OccursInTail(s, Open, i);
      }
      NoOpenUnchanged(s[1..]);
    }
  }

  /** So the cleaned answer of such text is its strip. */
  lemma NoOpenCleanIsStrip(s: string)
    requires forall i :: !OccursAt(s, Open, i)
    ensures CleanResponse(s) == Strip(s)
  {
    NoOpenUnchanged(s);
  }

  /** Text with no "</think>" comes back unchanged: a "<think>" that is never closed is kept. */
  lemma {:induction false} NoCloseUnchanged(s: string)
    requires forall i :: !OccursAt(s, Close, i)
    ensures RemoveThinkSpans(s) == s
    decreases |s|
  {
    if s != [] {
      assert FirstClose(s, |Open|).None?;
      forall i ensures !OccursAt(s[1..], Close, i) {
        OccursInTail(s, Close, i);
      }
      NoCloseUnchanged(s[1..]);
    }
  }

  /** An occurrence in a suffix is an occurrence in the whole, shifted by where the suffix starts. */
  lemma OccursShift(s: string, k: nat, w: string, x: int)
    requires k <= |s|
    ensures OccursAt(s[k..], w, x) <==> (0 <= x && OccursAt(s, w, x + k))
  {
    if 0 <= x && x + k + |w| <= |s| {
      assert s[k..][x..x + |w|] == s[x + k..x + k + |w|];
    }
  }

  /** An occurrence in a prefix is an occurrence in the whole that ends inside the prefix. */
  lemma OccursPrefix(s: string, i: nat, w: string, x: int)
    requires i <= |s|
    ensures OccursAt(s[..i], w, x) <==> (OccursAt(s, w, x) && x + |w| <= i)
  {
    if 0 <= x && x + |w| <= i {
      assert s[..i][x..x + |w|] == s[x..x + |w|];
    }
  }

  /** The first "</think>" from k on is the one at c when there is none between. */
  lemma FirstCloseIs(s: string, k: nat, c: nat)
    requires k <= c && OccursAt(s, Close, c)
    requires forall j :: k <= j < c ==> !OccursAt(s, Close, j)
    ensures FirstClose(s, k) == Some(c)
  {
    var r := FirstClose(s, k);
    assert r.Some? && !(r.value < c) && !(c < r.value);
  }

  /** Cutting the text after a closing tag does not move the first closing tag. */
  lemma FirstClosePrefix(s: string, i: nat, k: nat)
    requires i <= |s|
    ensures FirstClose(s[..i], k).Some? ==> FirstClose(s, k) == FirstClose(s[..i], k)
    ensures FirstClose(s, k).Some? && FirstClose(s, k).value + |Close| <= i ==>
              FirstClose(s[..i], k) == FirstClose(s, k)
  {
    var r := FirstClose(s[..i], k);
    if r.Some? {
      OccursPrefix(s, i, Close, r.value);
      forall j | k <= j < r.value ensures !OccursAt(s, Close, j) {
        OccursPrefix(s, i, Close, j);
      }
      FirstCloseIs(s, k, r.value);
    }
    var q := FirstClose(s, k);
    if q.Some? && q.value + |Close| <= i {
      OccursPrefix(s, i, Close, q.value);
      forall j | k <= j < q.value ensures !OccursAt(s[..i], Close, j) {
        OccursPrefix(s, i, Close, j);
      }
      FirstCloseIs(s[..i], k, q.value);
    }
  }

  /** A "</think>" that starts before a "<think>" ends before it: no character of the closing
      tag after its first is '<'. */
  lemma CloseBeforeOpen(s: string, c: int, i: int)
    requires OccursAt(s, Close, c) && OccursAt(s, Open, i) && c < i
    ensures c + |Close| <= i
  {
    CloseHasNoLt(s, c);
    assert s[i] == s[i..i + |Open|][0];
  }

  /** No character of a "</think>" after its first is the character that opens "<think>". */
  lemma CloseHasNoLt(s: string, c: int)
    requires OccursAt(s, Close, c)
    ensures forall x :: c < x < c + |Close| ==> s[x] != Open[0]
  {
    forall x | c < x < c + |Close| ensures s[x] != Open[0] {
      assert s[x] == s[c..c + |Close|][x - c];
    }
  }

  /** The removal's step where a span ending at e starts u, with x the text after it. */
  lemma SpanWith(u: string, e: nat, x: string)
    requires e <= |u| && OccursAt(u, Open, 0) && FirstClose(u, |Open|) == Some(e - |Close|)
    requires u[e..] == x
    ensures RemoveThinkSpans(u) == RemoveThinkSpans(x)
  {
  }

  /** The removal's step where the first character c of u is kept, with x the rest. */
  lemma KeptWith(u: string, x: string, c: char)
    requires u != [] && u[0] == c && !(OccursAt(u, Open, 0) && FirstClose(u, |Open|).Some?)
    requires u[1..] == x
    ensures RemoveThinkSpans(u) == [c] + RemoveThinkSpans(x)
  {
  }

  /** A span at the start of s is a span at the start of every prefix reaching past it. */
  lemma PrefixSpans(s: string, i: nat, e: nat)
    requires e <= i <= |s|
    requires OccursAt(s, Open, 0) && FirstClose(s, |Open|) == Some(e - |Close|)
    ensures OccursAt(s[..i], Open, 0) && FirstClose(s[..i], |Open|) == Some(e - |Close|)
  {
    OccursPrefix(s, i, Open, 0);
    FirstClosePrefix(s, i, |Open|);
  }

  /** Where no span starts s, none starts a prefix of it. */
  lemma PrefixKeeps(s: string, i: nat)
    requires i <= |s|
    requires !(OccursAt(s, Open, 0) && FirstClose(s, |Open|).Some?)
    ensures !(OccursAt(s[..i], Open, 0) && FirstClose(s[..i], |Open|).Some?)
  {
    OccursPrefix(s, i, Open, 0);
    FirstClosePrefix(s, i, |Open|);
  }

  /** The removal keeps the first character of s, and of its prefix up to i, alike. */
  lemma PrefixKeptStep(s: string, i: nat)
    requires 0 < i <= |s|
    requires !(OccursAt(s, Open, 0) && FirstClose(s, |Open|).Some?)
    ensures RemoveThinkSpans(s) == [s[0]] + RemoveThinkSpans(s[1..])
    ensures RemoveThinkSpans(s[..i]) == [s[0]] + RemoveThinkSpans(s[1..][..i - 1])
  {
    PrefixKeeps(s, i);
    CutThenDrop(s, 1, i);
    KeptWith(s[..i], s[1..][..i - 1], s[0]);
    KeptWith(s, s[1..], s[0]);
  }

  /** The removal drops a span at the start of s, and of its prefix up to i, alike. */
  lemma PrefixSpanStep(s: string, i: nat, e: nat)
    requires e <= i <= |s|
    requires OccursAt(s, Open, 0) && FirstClose(s, |Open|) == Some(e - |Close|)
    ensures RemoveThinkSpans(s) == RemoveThinkSpans(s[e..])
    ensures RemoveThinkSpans(s[..i]) == RemoveThinkSpans(s[e..][..i - e])
  {
    PrefixSpans(s, i, e);
    CutThenDrop(s, e, i);
    SpanWith(s[..i], e, s[e..][..i - e]);
    SpanWith(s, e, s[e..]);
  }

  lemma CutThenDrop(s: string, e: nat, i: nat)
    requires e <= i <= |s|
    ensures s[..i][e..] == s[e..][..i - e]
  {
  }

  /**
   * A "<think>" at i with no "</think>" at or after i is never closed: the scan treats the
   * text before i on its own and keeps everything from i on, whatever spans come before.
   */
  lemma {:induction false} NoCloseAfter(s: string, i: nat)
    requires OccursAt(s, Open, i)
    requires forall j :: i <= j ==> !OccursAt(s, Close, j)
    ensures RemoveThinkSpans(s) == RemoveThinkSpans(s[..i]) + s[i..]
    decreases |s|, 1
  {
    if i == 0 {
      forall j ensures !OccursAt(s, Close, j) {}
      NoCloseUnchanged(s);
      assert s[..0] == [];
    } else if OccursAt(s, Open, 0) && FirstClose(s, |Open|).Some? {
      NoCloseAfterSpan(s, i);
    } else {
      NoCloseAfterKept(s, i);
    }
  }

  /** The step of NoCloseAfter where a span starts the text: it closes before i. */
  lemma {:induction false} NoCloseAfterSpan(s: string, i: nat)
    requires OccursAt(s, Open, i)
    requires forall j :: i <= j ==> !OccursAt(s, Close, j)
    requires OccursAt(s, Open, 0) && FirstClose(s, |Open|).Some?
    ensures RemoveThinkSpans(s) == RemoveThinkSpans(s[..i]) + s[i..]
    decreases |s|, 0
  {
    var e := FirstClose(s, |Open|).value + |Close|;
    CloseBeforeOpen(s, e - |Close|, i);
    var t := s[e..];
    OccursShift(s, e, Open, i - e);
    forall j | i - e <= j ensures !OccursAt(t, Close, j) {
      OccursShift(s, e, Close, j);
    }
    NoCloseAfter(t, i - e);
    PrefixSpanStep(s, i, e);
    assert t[i - e..] == s[i..];
  }

  /** The step of NoCloseAfter where the first character is kept. */
  lemma {:induction false} NoCloseAfterKept(s: string, i: nat)
    requires 0 < i && OccursAt(s, Open, i)
    requires forall j :: i <= j ==> !OccursAt(s, Close, j)
    requires !(OccursAt(s, Open, 0) && FirstClose(s, |Open|).Some?)
    ensures RemoveThinkSpans(s) == RemoveThinkSpans(s[..i]) + s[i..]
    decreases |s|, 0
  {
    var t := s[1..];
    OccursShift(s, 1, Open, i - 1);
    forall j | i - 1 <= j ensures !OccursAt(t, Close, j) {
      OccursShift(s, 1, Close, j);
    }
    NoCloseAfter(t, i - 1);
    PrefixKeptStep(s, i);
    assert t[i - 1..] == s[i..];
    AppendAssoc([s[0]], RemoveThinkSpans(t[..i - 1]), s[i..]);
  }

  lemma AppendAssoc(a: string, b: string, c: string)
    ensures a + (b + c) == (a + b) + c
  {
  }

  /** Text that starts with no '<' keeps its first character: no "<think>" opens there. */
  lemma {:induction false} NoLtPrefixKept(p: string, x: string)
    requires forall i :: 0 <= i < |p| ==> p[i] != Open[0]
    ensures RemoveThinkSpans(p + x) == p + RemoveThinkSpans(x)
    decreases |p|
  {
    if p == [] {
      assert p + x == x;
    } else {
      var u := p + x;
      assert u[0] == p[0];
      assert !OccursAt(u, Open, 0) by {
        if |Open| <= |u| { assert u[0..|Open|][0] == u[0]; }
      }
      assert u[1..] == p[1..] + x;
      NoLtPrefixKept(p[1..], x);
      KeptWith(u, p[1..] + x, p[0]);
      AppendAssoc([p[0]], p[1..], RemoveThinkSpans(x));
      assert [p[0]] + p[1..] == p;
    }
  }

  /** A "</think>" that starts the text is kept: it is not the start of a "<think>". */
  lemma CloseKept(x: string)
    ensures RemoveThinkSpans(Close + x) == Close + RemoveThinkSpans(x)
  {
    var u := Close + x;
    assert u[0..|Open|][1] == u[1] == '/';
    assert u[1..] == Close[1..] + x;
    KeptWith(u, Close[1..] + x, Close[0]);
    NoLtPrefixKept(Close[1..], x);
    AppendAssoc([Close[0]], Close[1..], RemoveThinkSpans(x));
    assert [Close[0]] + Close[1..] == Close;
  }

  /** The kept text of pieces is the kept text of a prefix of them followed by that of the rest. */
  lemma {:induction false} KeptTextSplit(ps: seq<Piece>, k: nat)
    requires k <= |ps|
    ensures KeptText(ps) == KeptText(ps[..k]) + KeptText(ps[k..])
    decreases k
  {
    if k == 0 {
      assert ps[..0] == [] && ps[0..] == ps;
    } else {
      KeptTextSplit(ps[1..], k - 1);
      assert ps[..k][1..] == ps[1..][..k - 1];
      assert ps[1..][k - 1..] == ps[k..];
      assert ps[..k][0] == ps[0];
    }
  }

  /** A suffix of a scan is a scan of the text it covers. */
  lemma ScannedSuffix(ps: seq<Piece>, k: nat)
    requires k <= |ps| && Scanned(ps)
    ensures Scanned(ps[k..])
  {
    forall j | 0 <= j < |ps| - k ensures ps[k..][j..] == ps[k + j..] && ps[k..][j] == ps[k + j] {}
  }

  /** At any boundary between pieces of a scan, the output is the kept text before the boundary
      followed by the removal run afresh on the text after it. */
  lemma ScanSplit(s: string, ps: seq<Piece>, k: nat)
    requires Concat(ps) == s && Scanned(ps) && k <= |ps|
    ensures RemoveThinkSpans(s) == KeptText(ps[..k]) + RemoveThinkSpans(Concat(ps[k..]))
  {
    RemoveThinkSpansSpec(s, ps);
    ScannedSuffix(ps, k);
    RemoveThinkSpansSpec(Concat(ps[k..]), ps[k..]);
    KeptTextSplit(ps, k);
  }

  /** A "</think>" with no unmatched "<think>" before it, that is one standing at a boundary of
      the scan after removed spans and kept text, comes through in the output. */
  lemma CloseAtBoundaryKept(s: string, ps: seq<Piece>, k: nat, x: string)
    requires Concat(ps) == s && Scanned(ps) && k <= |ps|
    requires Concat(ps[k..]) == Close + x
    ensures RemoveThinkSpans(s) == KeptText(ps[..k]) + Close + RemoveThinkSpans(x)
  {
    ScanSplit(s, ps, k);
    CloseKept(x);
    AppendAssoc(KeptText(ps[..k]), Close, RemoveThinkSpans(x));
  }

  /** A span is removed, newlines and all, and the rest is stripped. */
  lemma SpanRemovedExample()
    ensures CleanResponse("<think>a\nb</think> Hi") == "Hi"
  {
    SpanRemovedRaw();
    StripExample();
  }

  lemma SpanRemovedRaw()
    ensures RemoveThinkSpans("<think>a\nb</think> Hi") == " Hi"
  {
    var s := "<think>a\nb</think> Hi";
    assert OccursAt(s, Open, 0);
    assert OccursAt(s, Close, 10);
    assert s[7..15][0] == 'a' && s[8..16][0] == '\n' && s[9..17][0] == 'b';
    assert !OccursAt(s, Close, 7) && !OccursAt(s, Close, 8) && !OccursAt(s, Close, 9);
    assert FirstClose(s, |Open|) == Some(10);
    assert s[18..] == " Hi";
    NoOpenShort(" Hi");
  }

  lemma StripExample()
    ensures Strip(" Hi") == "Hi"
  {
    var s := " Hi";
    assert s[1..3] == "Hi" && s[..1] == " " && s[3..] == [];
    assert CutFrom(s, "Hi", 1);
    StripUnique(s, "Hi", 1);
  }

  /** Text shorter than the opening tag has no span. */
  lemma NoOpenShort(s: string)
    requires |s| < |Open|
    ensures RemoveThinkSpans(s) == s
  {
    NoOpenUnchanged(s);
  }
}
