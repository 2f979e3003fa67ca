/**
 * Writing the day's transactions to the budget spreadsheet: resolving this month's tab
 * (reusing it or adding it), appending one row per transaction, and writing the
 * "Total Spend:" label and a SUM formula over the amount column.
 *
 * The spreadsheet service is a value: the tabs of each spreadsheet, by spreadsheet id, and
 * the log of the requests that change them. Tab contents are the appended rows and the
 * cells written by address; where the service places appended rows is not modelled beyond
 * "after the rows appended before".
 */
module Sheets {
  import opened Wrappers
  import opened Transactions
  import opened MonthLabels

  datatype Tab = Tab(title: string, rows: seq<seq<string>>, cells: map<string, string>)

  datatype ValueRange = ValueRange(range: string, values: seq<seq<string>>)

  datatype SheetsCall =
    | AddSheet(spreadsheetId: string, title: string)
    | AppendValues(spreadsheetId: string, range: string, valueInputOption: string,
                   insertDataOption: string, values: seq<seq<string>>)
    | BatchUpdateValues(spreadsheetId: string, valueInputOption: string, data: seq<ValueRange>)

  datatype SheetsService = SheetsService(books: map<string, seq<Tab>>, calls: seq<SheetsCall>)

  datatype SheetsError = SpreadsheetUnavailable

  const UserEntered := "USER_ENTERED"
  const InsertRows := "INSERT_ROWS"
  const LabelText := "Total Spend:"
  const LabelCell := "F3"
  const SumCell := "G3"

  // ---------------------------------------------------------------------------------------
  // Tabs
  // ---------------------------------------------------------------------------------------

  predicate HasTab(tabs: seq<Tab>, title: string) {
    exists k :: 0 <= k < |tabs| && tabs[k].title == title
  }

  /** No two tabs of a spreadsheet share a title. */
  predicate DistinctTitles(tabs: seq<Tab>) {
    forall j, k :: 0 <= j < k < |tabs| ==> tabs[j].title != tabs[k].title
  }

  ghost predicate Valid(svc: SheetsService) {
    forall id :: id in svc.books ==> DistinctTitles(svc.books[id])
  }

  /** The service once the month's tab is resolved: unchanged if a tab has that title,
      otherwise with an empty tab of that title added at the end. */
  function Resolved(svc: SheetsService, id: string, title: string): (r: SheetsService)
    requires id in svc.books
    ensures r.books.Keys == svc.books.Keys && HasTab(r.books[id], title)
    ensures forall other :: other in svc.books && other != id ==> r.books[other] == svc.books[other]
    ensures svc.calls <= r.calls
    ensures Valid(svc) ==> Valid(r)
  {
    if HasTab(svc.books[id], title) then svc
    else
      var tabs' := svc.books[id] + [Tab(title, [], map[])];
      assert tabs'[|svc.books[id]|].title == title;
      SheetsService(svc.books[id := tabs'], svc.calls + [AddSheet(id, title)])
  }

  /**
   * Resolve this month's tab: scan the tab titles for the month label and return it if
   * present, otherwise ask for a new tab with that title. An unknown spreadsheet makes the
   * first request fail.
   */
  method CreateNewSheetTabIfNewMonth(svc: SheetsService, id: string, year: int, month: int)
    returns (r: Result<string, SheetsError>, svc': SheetsService)
    requires ValidMonth(year, month)
    ensures id !in svc.books ==> r == Failure(SpreadsheetUnavailable) && svc' == svc
    ensures id in svc.books ==> r == Success(MonthLabel(year, month))
    ensures id in svc.books ==> svc' == Resolved(svc, id, MonthLabel(year, month))
  {
    if id !in svc.books {
      return Failure(SpreadsheetUnavailable), svc;
    }
    var title := MonthLabel(year, month);
    var tabs := svc.books[id];
    var i := 0;
    while i < |tabs|
      invariant 0 <= i <= |tabs|
      invariant forall j :: 0 <= j < i ==> tabs[j].title != title
    {
      if tabs[i].title == title {
        return Success(title), svc;
      }
      i := i + 1;
    }
    svc' := SheetsService(svc.books[id := tabs + [Tab(title, [], map[])]], svc.calls + [AddSheet(id, title)]);
    r := Success(title);
  }

  /** After resolving, the tab exists; a second resolution changes nothing. */
  lemma ResolvedIdempotent(svc: SheetsService, id: string, title: string)
    requires id in svc.books
    ensures HasTab(Resolved(svc, id, title).books[id], title)
    ensures Resolved(Resolved(svc, id, title), id, title) == Resolved(svc, id, title)
  {
    var tabs := svc.books[id];
    if !HasTab(tabs, title) {
      var tabs' := tabs + [Tab(title, [], map[])];
      assert tabs'[|tabs|].title == title;
    }
  }

  /** Resolving adds at most one tab, keeps the existing tabs in place, touches no other
      spreadsheet, and keeps titles distinct. */
  lemma ResolvedFrame(svc: SheetsService, id: string, title: string)
    requires id in svc.books
    ensures var tabs, tabs' := svc.books[id], Resolved(svc, id, title).books[id];
      && |tabs| <= |tabs'| <= |tabs| + 1
      && tabs'[..|tabs|] == tabs
      && (|tabs'| == |tabs| + 1 <==> !HasTab(tabs, title))
    ensures Resolved(svc, id, title).books.Keys == svc.books.Keys
    ensures forall other :: other in svc.books && other != id ==>
      Resolved(svc, id, title).books[other] == svc.books[other]
    ensures Valid(svc) ==> Valid(Resolved(svc, id, title))
  {
    var tabs, tabs' := svc.books[id], Resolved(svc, id, title).books[id];
    assert tabs'[..|tabs|] == tabs;
  }

  // ---------------------------------------------------------------------------------------
  // Rows, ranges and the summary
  // ---------------------------------------------------------------------------------------

  /** The row of one transaction: card, merchant, amount, date, in columns A to D. */
  function RowOf(t: Transaction): (row: seq<string>)
    ensures |row| == 4
  {
    [t.card, t.merchant, t.amount, t.date]
  }

  /** Reading a row back. */
  function FromRow(row: seq<string>): Option<Transaction> {
    if |row| == 4 then Some(Transaction(row[0], row[1], row[2], row[3])) else None
  }

  lemma RowRoundTrip(t: Transaction)
    ensures FromRow(RowOf(t)) == Some(t)
    ensures RowOf(t)[2] == t.amount
  {
  }

  /** Rows for a run of transactions, one each, in order. */
  function Rows(ts: seq<Transaction>): (rows: seq<seq<string>>)
    ensures |rows| == |ts|
  {
    seq(|ts|, k requires 0 <= k < |ts| => RowOf(ts[k]))
  }

  /** The rows read back are the transactions, in order, and column C holds each amount. */
  lemma RowsRoundTrip(ts: seq<Transaction>)
    ensures forall k :: 0 <= k < |ts| ==> FromRow(Rows(ts)[k]) == Some(ts[k])
    ensures forall k :: 0 <= k < |ts| ==> Rows(ts)[k][2] == ts[k].amount
  {
    forall k | 0 <= k < |ts| ensures FromRow(Rows(ts)[k]) == Some(ts[k]) {
      RowRoundTrip(ts[k]);
    }
  }

  /** Building the rows one transaction at a time. */
  method BuildRows(ts: seq<Transaction>) returns (rows: seq<seq<string>>)
    ensures |rows| == |ts|
    ensures forall k :: 0 <= k < |ts| ==> FromRow(rows[k]) == Some(ts[k])
    ensures rows == Rows(ts)
  {
    rows := [];
    for i := 0 to |ts|
      invariant rows == Rows(ts[..i])
    {
      assert Rows(ts[..i + 1]) == Rows(ts[..i]) + [RowOf(ts[i])];
      rows := rows + [RowOf(ts[i])];
    }
    assert ts[..|ts|] == ts;
    RowsRoundTrip(ts);
  }

  /** The append target: the tab's A1, with the title unquoted. */
  function AppendRange(title: string): (r: string)
    ensures |r| == |title| + 3 && r[..|title|] == title
  {
    title + "!A1"
  }

  /** A single cell of the tab, with the title quoted. */
  function CellRange(title: string, cell: string): (r: string)
    ensures |r| == |title| + 3 + |cell| && r[1..|title| + 1] == title && r[|title| + 3..] == cell
  {
    "'" + title + "'!" + cell
  }

  /** The formula summing column C of the tab, which it names quoted. */
  function SumFormula(title: string): (r: string)
    ensures |r| == |title| + 12 && r[6..|title| + 6] == title && r[..1] == "="
  {
    "=SUM('" + title + "'!C:C)"
  }

  /** The two ranges of the summary name the same tab, are different cells, and different
      tabs get different ranges. */
  lemma SummaryRanges(a: string, b: string)
    ensures CellRange(a, LabelCell) != CellRange(a, SumCell)
    ensures CellRange(a, LabelCell) == CellRange(b, LabelCell) ==> a == b
    ensures SumFormula(a) == SumFormula(b) ==> a == b
    ensures AppendRange(a) == AppendRange(b) ==> a == b
  {
    var la, lb := CellRange(a, LabelCell), CellRange(b, LabelCell);
    assert la[|la| - 1] == '3' && la[|la| - 2] == 'F';
    assert CellRange(a, SumCell)[|la| - 2] == 'G';
    if la == lb {
      assert la[1..|la| - 4] == a && lb[1..|lb| - 4] == b;
    }
    var fa, fb := SumFormula(a), SumFormula(b);
    if fa == fb {
      assert fa[6..|fa| - 6] == a && fb[6..|fb| - 6] == b;
    }
  }

  /** The batch that writes the summary. */
  function SummaryData(title: string): (r: seq<ValueRange>)
    ensures |r| == 2 && r[0].range != r[1].range
    ensures r[0].values == [[LabelText]] && r[1].values == [[SumFormula(title)]]
  {
    SummaryRanges(title, title);
    [ValueRange(CellRange(title, LabelCell), [[LabelText]]),
     ValueRange(CellRange(title, SumCell), [[SumFormula(title)]])]
  }

  /** The tabs once the rows are appended to the tab with that title. */
  function AppendToTab(tabs: seq<Tab>, title: string, rows: seq<seq<string>>): (r: seq<Tab>)
    ensures |r| == |tabs|
    ensures forall k :: 0 <= k < |tabs| ==>
      r[k] == if tabs[k].title == title then tabs[k].(rows := tabs[k].rows + rows) else tabs[k]
  {
    seq(|tabs|, k requires 0 <= k < |tabs| =>
      if tabs[k].title == title then tabs[k].(rows := tabs[k].rows + rows) else tabs[k])
  }

  /** The tabs once the label and the formula are written into the tab with that title. */
  function WriteSummaryCells(tabs: seq<Tab>, title: string): (r: seq<Tab>)
    ensures |r| == |tabs| && forall k :: 0 <= k < |tabs| ==> r[k].title == tabs[k].title
    ensures forall k :: 0 <= k < |tabs| ==>
      r[k] == if tabs[k].title == title
              then tabs[k].(cells := tabs[k].cells[LabelCell := LabelText][SumCell := SumFormula(title)])
              else tabs[k]
  {
    seq(|tabs|, k requires 0 <= k < |tabs| =>
      if tabs[k].title == title
      then tabs[k].(cells := tabs[k].cells[LabelCell := LabelText][SumCell := SumFormula(title)])
      else tabs[k])
  }

  /** The service after appending the rows to the tab. */
  function Appended(svc: SheetsService, id: string, title: string, rows: seq<seq<string>>): (r: SheetsService)
    requires id in svc.books
    ensures r.books.Keys == svc.books.Keys && |r.books[id]| == |svc.books[id]|
    ensures forall other :: other in svc.books && other != id ==> r.books[other] == svc.books[other]
    ensures |r.calls| == |svc.calls| + 1 && r.calls[..|svc.calls|] == svc.calls
    ensures r.books[id] == AppendToTab(svc.books[id], title, rows)
    ensures r.calls[|svc.calls|] == AppendValues(id, AppendRange(title), UserEntered, InsertRows, rows)
    ensures Valid(svc) ==> Valid(r)
  {
    SheetsService(svc.books[id := AppendToTab(svc.books[id], title, rows)],
                  svc.calls + [AppendValues(id, AppendRange(title), UserEntered, InsertRows, rows)])
  }

  /** The service after writing the summary label and formula. */
  function Summarised(svc: SheetsService, id: string, title: string): (r: SheetsService)
    requires id in svc.books
    ensures r.books.Keys == svc.books.Keys && |r.books[id]| == |svc.books[id]|
    ensures forall other :: other in svc.books && other != id ==> r.books[other] == svc.books[other]
    ensures |r.calls| == |svc.calls| + 1 && r.calls[..|svc.calls|] == svc.calls
    ensures r.books[id] == WriteSummaryCells(svc.books[id], title)
    ensures r.calls[|svc.calls|] == BatchUpdateValues(id, UserEntered, SummaryData(title))
    ensures Valid(svc) ==> Valid(r)
  {
    SheetsService(svc.books[id := WriteSummaryCells(svc.books[id], title)],
                  svc.calls + [BatchUpdateValues(id, UserEntered, SummaryData(title))])
  }

  /** The whole effect of sending a run of transactions to a spreadsheet. */
  function Sent(svc: SheetsService, id: string, title: string, ts: seq<Transaction>): (r: SheetsService)
    requires id in svc.books
    ensures r.books.Keys == svc.books.Keys && HasTab(r.books[id], title)
    ensures forall other :: other in svc.books && other != id ==> r.books[other] == svc.books[other]
    ensures svc.calls <= r.calls && |r.calls| >= |svc.calls| + 2
    ensures Valid(svc) ==> Valid(r)
  {
    var s1 := Resolved(svc, id, title);
    Summarised(Appended(s1, id, title, Rows(ts)), id, title)
  }

  /**
   * Build the rows, resolve this month's tab, append the rows to it and write the summary.
   * A missing or unknown spreadsheet id fails before anything is written.
   */
  method SendTransactionsToSheets(ts: seq<Transaction>, id: Option<string>, svc: SheetsService,
                                  year: int, month: int)
    returns (r: Result<string, SheetsError>, svc': SheetsService)
    requires ValidMonth(year, month)
    ensures (id.None? || id.value !in svc.books) ==> r == Failure(SpreadsheetUnavailable) && svc' == svc
    ensures id.Some? && id.value in svc.books ==>
      r == Success(MonthLabel(year, month)) && svc' == Sent(svc, id.value, MonthLabel(year, month), ts)
    ensures Valid(svc) ==> Valid(svc')
  {
    var rows := BuildRows(ts);
    if id.None? {
      return Failure(SpreadsheetUnavailable), svc;
    }
    var resolved;
    resolved, svc' := CreateNewSheetTabIfNewMonth(svc, id.value, year, month);
    if resolved.Failure? {
      return resolved, svc';
    }
    var title := resolved.value;
    var s1 := svc';
    svc' := SheetsService(s1.books[id.value := AppendToTab(s1.books[id.value], title, rows)],
                          s1.calls + [AppendValues(id.value, AppendRange(title), UserEntered, InsertRows, rows)]);
    var s2 := svc';
    svc' := SheetsService(s2.books[id.value := WriteSummaryCells(s2.books[id.value], title)],
                          s2.calls + [BatchUpdateValues(id.value, UserEntered, SummaryData(title))]);
    r := resolved;
  }

  /** The tab with that title, when there is one. */
  function TabNamed(tabs: seq<Tab>, title: string): (r: Option<Tab>)
    ensures r.Some? <==> HasTab(tabs, title)
    ensures r.Some? ==> r.value in tabs && r.value.title == title
  {
    if tabs == [] then None
    else if tabs[0].title == title then Some(tabs[0])
    else TabNamed(tabs[1..], title)
  }

  /** Resolving keeps the titles of a spreadsheet distinct. */
  lemma ResolvedDistinct(svc: SheetsService, id: string, title: string)
    requires id in svc.books && DistinctTitles(svc.books[id])
    ensures DistinctTitles(Resolved(svc, id, title).books[id])
  {
  }

  /** Appending and writing the summary keep every tab's title where it was. */
  lemma WritesKeepTitles(tabs: seq<Tab>, title: string, rows: seq<seq<string>>)
    ensures var t := WriteSummaryCells(AppendToTab(tabs, title, rows), title);
      |t| == |tabs| && forall k :: 0 <= k < |tabs| ==> t[k].title == tabs[k].title
  {
  }

  /**
   * What sending does to the month's tab: it exists, titles stay distinct, its rows are the
   * rows it had, if any, followed by one row per transaction in order, and it holds the
   * label and the formula in F3 and G3 besides every cell it had.
   */
  lemma SentTab(svc: SheetsService, id: string, title: string, ts: seq<Transaction>)
    requires id in svc.books && DistinctTitles(svc.books[id])
    ensures var tabs, tabs' := svc.books[id], Sent(svc, id, title, ts).books[id];
      var before := if HasTab(tabs, title) then TabNamed(tabs, title).value else Tab(title, [], map[]);
      && DistinctTitles(tabs')
      && TabNamed(tabs', title)
         == Some(before.(rows := before.rows + Rows(ts),
                         cells := before.cells[LabelCell := LabelText][SumCell := SumFormula(title)]))
  {
    ResolvedIdempotent(svc, id, title);
    ResolvedDistinct(svc, id, title);
    var tabs := svc.books[id];
    var t1 := Resolved(svc, id, title).books[id];
    var t3 := Sent(svc, id, title, ts).books[id];
    WritesKeepTitles(t1, title, Rows(ts));
    assert DistinctTitles(t3);
    var k :| 0 <= k < |t1| && t1[k].title == title;
    TabNamedAt(t3, title, k);
    if HasTab(tabs, title) {
      var j :| 0 <= j < |tabs| && tabs[j].title == title;
      TabNamedAt(tabs, title, j);
      assert j == k;
    } else {
      assert k == |tabs|;
    }
  }

  /** Sending leaves the other tabs of the spreadsheet, and every other spreadsheet, as they
      were. */
  lemma SentFrame(svc: SheetsService, id: string, title: string, ts: seq<Transaction>)
    requires id in svc.books
    ensures var tabs, tabs' := svc.books[id], Sent(svc, id, title, ts).books[id];
      forall k :: 0 <= k < |tabs| && tabs[k].title != title ==> tabs'[k] == tabs[k]
    ensures forall other :: other in svc.books && other != id ==>
      Sent(svc, id, title, ts).books[other] == svc.books[other]
  {
    ResolvedFrame(svc, id, title);
  }

  /** The requests sending makes: the tab creation when the tab was missing, then the
      append, then the summary batch. */
  lemma SentCalls(svc: SheetsService, id: string, title: string, ts: seq<Transaction>)
    requires id in svc.books
    ensures Sent(svc, id, title, ts).calls ==
      svc.calls
      + (if HasTab(svc.books[id], title) then [] else [AddSheet(id, title)])
      + [AppendValues(id, AppendRange(title), UserEntered, InsertRows, Rows(ts)),
         BatchUpdateValues(id, UserEntered, SummaryData(title))]
  {
  }

  /** In a spreadsheet with distinct titles, the tab named title is the one at its index. */
  lemma {:induction false} TabNamedAt(tabs: seq<Tab>, title: string, k: nat)
    requires DistinctTitles(tabs) && k < |tabs| && tabs[k].title == title
    ensures TabNamed(tabs, title) == Some(tabs[k])
    decreases k
  {
    if k > 0 {
      TabNamedAt(tabs[1..], title, k - 1);
    }
  }
}
