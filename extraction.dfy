/**
 * `decode_payload_of_email`: gather the HTML body of a fetched message, render it as text,
 * strip it, and search it for the date and three keyword fields.
 * The HTML-to-text renderer is a parameter; base64 and UTF-8 decoding are taken as done.
 */
module Extraction {
  import opened Wrappers
  import opened Text
  import opened Patterns
  import opened Transactions

  const MerchantKeyword := "Merchant"
  const AmountKeyword := "Amount"
  const AccountKeyword := "Account"
  const HtmlMime := "text/html"

  /** The search that found nothing. The source then calls `.group` on None and raises. */
  datatype Field = DateField | MerchantField | AmountField | AccountField

  /** Some substring of t matches the date pattern. */
  ghost predicate HasDate(t: string) {
    exists p, e :: 0 <= p <= e <= |t| && IsDate(t[p..e])
  }

  /** The keyword pattern matches t somewhere. */
  ghost predicate HasKeywordMatch(t: string, kw: string) {
    exists p, c, f :: KeywordMatch(t, kw, p, c, f)
  }

  /** s is the leftmost date match in t. */
  ghost predicate IsLeftmostDate(t: string, s: string) {
    exists p, e :: && 0 <= p <= e <= |t| && s == t[p..e] && IsDate(t[p..e])
                   && forall p', e' :: 0 <= p' <= e' <= |t| && IsDate(t[p'..e']) ==> p < p' || (p == p' && e == e')
  }

  /** s is group 2 of the match `re.search` reports for the keyword pattern. */
  ghost predicate IsCapture(t: string, kw: string, s: string) {
    exists p, c, f :: PreferredMatch(t, kw, p, c, f) && s == t[c..f]
  }

  /** What the date search reports, in the terms of the predicates above. */
  lemma DateSearchMeaning(t: string)
    ensures SearchDate(t).None? <==> !HasDate(t)
    ensures SearchDate(t).Some? ==>
      SearchDate(t).value.start <= SearchDate(t).value.end <= |t|
      && IsLeftmostDate(t, t[SearchDate(t).value.start..SearchDate(t).value.end])
  {
    var r := SearchDate(t);
    if r.Some? {
      var p, e := r.value.start, r.value.end;
      assert 0 <= p <= e <= |t| && IsDate(t[p..e]);
    }
  }

  /** What a keyword search reports, in the terms of the predicates above. */
  lemma KeywordSearchMeaning(t: string, kw: string)
    ensures SearchKeyword(t, kw).None? <==> !HasKeywordMatch(t, kw)
    ensures SearchKeyword(t, kw).Some? ==>
      var h := SearchKeyword(t, kw).value;
      h.group <= h.end <= |t| && IsCapture(t, kw, t[h.group..h.end])
  {
    var r := SearchKeyword(t, kw);
    if r.Some? {
      var h := r.value;
      assert PreferredMatch(t, kw, h.start, h.group, h.end);
    }
  }

  /**
   * The four searches, in the source's order (date, merchant, amount, account); the first
   * that finds nothing decides the failure. On success each capture lands in its field
   * through the alias dictionary: account to card, merchant, amount, and the whole date match.
   */
  function ExtractFields(text: string): (r: Result<Transaction, Field>)
    ensures r == Failure(DateField) <==> !HasDate(text)
    ensures r == Failure(MerchantField) <==> HasDate(text) && !HasKeywordMatch(text, MerchantKeyword)
    ensures r == Failure(AmountField) <==>
              HasDate(text) && HasKeywordMatch(text, MerchantKeyword) && !HasKeywordMatch(text, AmountKeyword)
    ensures r == Failure(AccountField) <==>
              && HasDate(text) && HasKeywordMatch(text, MerchantKeyword) && HasKeywordMatch(text, AmountKeyword)
              && !HasKeywordMatch(text, AccountKeyword)
    ensures r.Success? ==>
              && IsLeftmostDate(text, r.value.date)
              && IsCapture(text, MerchantKeyword, r.value.merchant)
              && IsCapture(text, AmountKeyword, r.value.amount)
              && IsCapture(text, AccountKeyword, r.value.card)
  {
    DateSearchMeaning(text);
    KeywordSearchMeaning(text, MerchantKeyword);
    KeywordSearchMeaning(text, AmountKeyword);
    KeywordSearchMeaning(text, AccountKeyword);
    match SearchDate(text)
    case None => Failure(DateField)
    case Some(date) =>
      match SearchKeyword(text, MerchantKeyword)
      case None => Failure(MerchantField)
      case Some(merchant) =>
        match SearchKeyword(text, AmountKeyword)
        case None => Failure(AmountField)
        case Some(amount) =>
          match SearchKeyword(text, AccountKeyword)
          case None => Failure(AccountField)
          case Some(account) =>
            var built := FromAliases(AliasDict(
              text[account.group..account.end],
              text[merchant.group..merchant.end],
              text[amount.group..amount.end],
              text[date.start..date.end]));
            Success(built.value)
  }

  /** s follows the occurrence of kw at p after the whitespace t[p+|kw|..c], and runs from c
      to the end of its line. */
  predicate RestOfLineAt(t: string, kw: string, p: int, c: int, s: string) {
    && OccursAt(t, kw, p) && p + |kw| <= c && c + |s| <= |t|
    && AllWs(t[p + |kw|..c])
    && s == t[c..c + |s|]
    && (c + |s| == |t| || IsNewline(t[c + |s|]))
  }

  /**
   * A keyword capture is non-empty, holds no carriage return or line feed, directly follows
   * an occurrence of the keyword plus whitespace, and runs to the end of its line.
   */
  lemma CaptureShape(t: string, kw: string, s: string)
    requires IsCapture(t, kw, s)
    ensures |s| > 0 && NoNewline(s)
    ensures exists p, c :: RestOfLineAt(t, kw, p, c, s)
  {
    var p, c, f :| PreferredMatch(t, kw, p, c, f) && s == t[c..f];
    var l := LineEnd(t, c);
    LineEndBound(t, c, f);
    assert KeywordMatch(t, kw, p, c, l);
    assert f == l;
    assert RestOfLineAt(t, kw, p, c, s);
  }

  /** The capture is determined by the text: Python's priority among matches is total. */
  lemma CaptureUnique(t: string, kw: string, s1: string, s2: string)
    requires IsCapture(t, kw, s1) && IsCapture(t, kw, s2)
    ensures s1 == s2
  {
    var p1, c1, f1 :| PreferredMatch(t, kw, p1, c1, f1) && s1 == t[c1..f1];
    var p2, c2, f2 :| PreferredMatch(t, kw, p2, c2, f2) && s2 == t[c2..f2];
    assert p1 == p2 && c1 == c2 && f1 == f2;
  }

  /** Text made only of whitespace strips to "", and the date search fails first. */
  lemma {:induction false} BlankTextFailsAtDate(rendered: string)
    requires AllWs(rendered)
    ensures ExtractFields(Strip(rendered)) == Failure(DateField)
  {
    StripAllWs(rendered);
  }

  // ---------------------------------------------------------------------------------------
  // The MIME part loop
  // ---------------------------------------------------------------------------------------

  /** The decoded `body.data` of a part. Undecodable stands for data whose base64 decoding
      raises; the source then reports the error and goes on. */
  datatype BodyData = Decoded(text: string) | Undecodable

  /** A MIME part: its `mimeType` ("" when absent), its `body.data` (None when `body` or
      `data` is absent) and its sub-parts. */
  datatype Part = Part(mimeType: string, data: Option<BodyData>, parts: seq<Part>)

  /** The part is `text/html` and its body decodes. */
  predicate IsHtmlBody(p: Part) {
    p.mimeType == HtmlMime && p.data.Some? && p.data.value.Decoded?
  }

  /** What the loop accumulates for a message. */
  function PayloadHtml(payload: Part): (html: string)
    ensures html == "" || IsHtmlBody(payload)
    ensures IsHtmlBody(payload) ==> html == payload.data.value.text
  {
    if IsHtmlBody(payload) then payload.data.value.text else ""
  }

  /**
   * The `while queue` loop. The queue starts with the top-level payload and nothing is ever
   * pushed onto it, so only that part is examined: its decoded body is kept when it is
   * `text/html`, and sub-parts never contribute.
   */
  method CollectHtml(payload: Part) returns (html: string)
    ensures IsHtmlBody(payload) ==> html == payload.data.value.text
    ensures !IsHtmlBody(payload) ==> html == ""
  {
    var queue := [payload];
    html := "";
    while |queue| > 0
      invariant queue == [] || queue == [payload]
      invariant queue == [payload] ==> html == ""
      invariant queue == [] ==> html == PayloadHtml(payload)
      decreases |queue|
    {
      var current := queue[0];
      queue := queue[1..];
      if current.data.Some? {
        match current.data.value
        case Decoded(decoded) =>
          if current.mimeType == HtmlMime {
            html := html + decoded;
          }
        case Undecodable =>
      }
    }
  }

  /** Changing a payload's sub-parts never changes what the message yields. */
  lemma SubPartsIgnored(payload: Part, parts: seq<Part>)
    ensures PayloadHtml(payload.(parts := parts)) == PayloadHtml(payload)
  {
  }

  /**
   * `decode_payload_of_email`: the collected HTML, rendered by `render` (the HTML-to-text
   * conversion with '\n' between elements), stripped, then searched.
   */
  method DecodePayloadOfEmail(payload: Part, render: string -> string) returns (r: Result<Transaction, Field>)
    ensures r == ExtractFields(Strip(render(PayloadHtml(payload))))
    ensures !IsHtmlBody(payload) ==> r == ExtractFields(Strip(render("")))
  {
    var html := CollectHtml(payload);
    var text := Strip(render(html));
    r := ExtractFields(text);
  }
}
