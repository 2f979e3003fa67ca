# Purchase-notification pipeline and think-span stripper, in Dafny

This project models the deterministic core of a small personal assistant:

- **Purchase notifications to a budget sheet.** The script `googleScripts/update_sheet_with_purchases.py` does the following:
  - Finds a Gmail label by name.
  - Reads today's messages under that label.
  - Recovers a `Transaction` from each message's HTML body, using four regular-expression searches over the rendered text.
  - Deletes each message once it is read.
  - Finds the budget spreadsheet on Drive.
  - Appends one row per transaction to the tab for the current month, creating the tab when it is missing.
  - Writes a `Total Spend:` label and a `SUM` formula over the amount column.
- **The `Transaction` record** (`googleScripts/Transaction.py`). It has four required text fields that are populated under aliases. Its `get_object` dumps the record keyed by field name.
- **The text-completion wrapper's post-processing** (`models/Gemma3.py`). It removes every `<think>…</think>` span from the raw answer and then strips it. The model type it reports is the constant `Gemma3.LlmType` (`"gemma3:4b"`).

Remote services are modelled as values that are passed in and handed back:

- The mailbox holds labels, messages in listing order, and a log of fetch and delete requests.
- The Drive listing is a sequence of files.
- The spreadsheet service holds the tabs of each spreadsheet and a log of the requests that change them.

This makes the order of remote requests part of the state. The HTML-to-text renderer is a function parameter. So are today's year and month.

Files, one module each:

| file | module |
|---|---|
| `wrappers.dfy` | `Wrappers`: `Option`, `Result` |
| `text.dfy` | `Text`: ASCII character classes, `strip()`, `upper()` |
| `transaction.dfy` | `Transactions` |
| `patterns.dfy` | `Patterns`: the two regular-expression shapes, stated declaratively with Python's match priority, and the searches that implement them |
| `extraction.dfy` | `Extraction`: the four searches, the MIME part loop, `decode_payload_of_email` |
| `gmail.dfy` | `Gmail`: label lookup, listing, the fetch/decode/delete loop |
| `drive.dfy` | `Drive`: spreadsheet lookup by name |
| `monthlabel.dfy` | `MonthLabels`: the `"%B %Y"` tab title |
| `sheets.dfy` | `Sheets`: tab resolution, rows, summary cells |
| `gemma.dfy` | `Gemma3`: the think-span stripper |
| `pipeline.dfy` | `Pipeline`: the script's entry point |

Behaviour that follows the code where a reading of the intent might differ:

- **The colon is captured.** The keyword pattern is `Keyword\s*([^\r\n]+)`, so `Merchant: Corner Shop` yields `": Corner Shop"` with the colon (`Patterns.ColonIsCaptured`). The keyword is case-sensitive and may sit inside a longer word: `Accounts: 7` searched for `Account` captures `s: 7` (`Patterns.KeywordInsideLongerWord`). `\s*` may cross line breaks.
- **The date is not word-bounded.** `Jan 5, 20245` yields `Jan 5, 2024` (`Patterns.DateNotWordBounded`).
- **Sub-parts are never read.** The MIME part loop is written as a queue walk, but nothing is ever added to the queue. Only a top-level `text/html` body with data contributes (`Extraction.CollectHtml`, `Extraction.SubPartsIgnored`).
- **Messages can be deleted without being written.** Every message is deleted as soon as it decodes, before the spreadsheet is looked up. A run that then finds no spreadsheet has deleted all of today's messages and written nothing (`Pipeline.Run`).
- **The append range is unquoted.** The append uses `<tab>!A1` with the title unquoted. The summary cells use `'<tab>'!F3` and `'<tab>'!G3`.

## Model

| member | source | states |
|---|---|---|
| Text.LeadingWs | models/Gemma3.py:27 | the length of the leading whitespace run: all of it whitespace, and the character after it is not |
| Text.TrailingWs | models/Gemma3.py:27 | the length of the trailing whitespace run: all of it whitespace, and the character before it is not |
| Text.Strip | googleScripts/update_sheet_with_purchases.py:122 | the result is the piece of the input right after its leading whitespace, only whitespace follows it, and neither end of it is whitespace |
| Text.CutUnique | models/Gemma3.py:27 | two pieces of a text, each with only whitespace around it and none at its ends, are the same piece |
| Text.StripUnique | models/Gemma3.py:27 | such a piece, when non-empty, is the strip, so `strip()` is determined by what it promises |
| Text.StripIdempotent | models/Gemma3.py:27 | stripping twice is stripping once |
| Text.StripAllWs | googleScripts/update_sheet_with_purchases.py:122 | text made only of whitespace strips to the empty string |
| Text.Upper | googleScripts/update_sheet_with_purchases.py:65 | upper-casing keeps the length and maps each character on its own |
| Text.UpperIdempotent | googleScripts/update_sheet_with_purchases.py:65 | upper-casing twice is upper-casing once |
| Transactions.AliasDict | googleScripts/update_sheet_with_purchases.py:140-147 | the constructor's arguments are exactly the four aliases, each holding its value |
| Transactions.FromAliases | googleScripts/Transaction.py:4-8 | construction succeeds exactly when all four aliases are present, and each field takes the value under its alias |
| Transactions.GetObject | googleScripts/Transaction.py:10-11 | the dump has exactly the keys card, merchant, amount, date, each holding its field |
| Transactions.AnyStringsAccepted | googleScripts/Transaction.py:5-8 | any four strings, empty ones included, build the record with account to card, merchant, amount, date |
| Transactions.GetObjectNotReconstructible | googleScripts/Transaction.py:5-11 | the field-name dump is not accepted by the alias-only constructor |
| Patterns.WsRunEnd | googleScripts/update_sheet_with_purchases.py:128 | greedy `\s*`: the end of the whitespace run, everything before it whitespace |
| Patterns.LineEnd | googleScripts/update_sheet_with_purchases.py:128 | greedy `[^\r\n]+`: the end of the line, no line break before it |
| Patterns.Backtrack | googleScripts/update_sheet_with_purchases.py:128 | backing `\s*` off: a group start between the two positions whose group runs, non-empty, to the end of its line; none only when every candidate start is a line break |
| Patterns.MatchAfter | googleScripts/update_sheet_with_purchases.py:128 | a group found after a position starts at or after it and is a non-empty run with no line break; none only when every character up to the end of the whitespace run is a line break |
| Patterns.MatchAfterSpec | googleScripts/update_sheet_with_purchases.py:128-138 | after a keyword occurrence the match fails exactly when only line breaks follow; otherwise it is a match with the longest whitespace, then the longest group |
| Patterns.SearchKeywordFrom | googleScripts/update_sheet_with_purchases.py:128-138 | the hit is a match at or after the start position, ahead of every other match in Python's priority; none means no match there |
| Patterns.SearchKeyword | googleScripts/update_sheet_with_purchases.py:128-138 | the hit is the preferred match (leftmost, then longest whitespace, then longest group); none exactly when the text has no match |
| Patterns.KeywordFailsIff | googleScripts/update_sheet_with_purchases.py:128-138 | the search fails exactly when every keyword occurrence is followed by nothing but line breaks to the end of the text |
| Patterns.DayComma | googleScripts/update_sheet_with_purchases.py:124 | `\d{1,2},`: one or two digits then a comma, two tried first |
| Patterns.DayCommaAt | googleScripts/update_sheet_with_purchases.py:124 | one or two digits and a comma at a position are what `\d{1,2},` finds there |
| Patterns.DateSplitFromText | googleScripts/update_sheet_with_purchases.py:124 | the pieces of a date laid out in the text make that slice of the text a date |
| Patterns.DateSplitInText | googleScripts/update_sheet_with_purchases.py:124 | conversely a date slice has its pieces at the matching positions of the text |
| Patterns.DateMatchAtFromText | googleScripts/update_sheet_with_purchases.py:124 | the matcher finds exactly the date whose pieces are laid out there |
| Patterns.DateMatchAt | googleScripts/update_sheet_with_purchases.py:124 | a date found at a position is at least 11 characters long, opens with a month abbreviation and closes with four digits |
| Patterns.DateMatchAtSound | googleScripts/update_sheet_with_purchases.py:124 | a match found at a position is a date: month abbreviation, whitespace, 1-2 digits, comma, whitespace, 4 digits |
| Patterns.DateMatchAtComplete | googleScripts/update_sheet_with_purchases.py:124 | every date starting at a position is the one the matcher finds there |
| Patterns.DateMatchAtCompleteAll | googleScripts/update_sheet_with_purchases.py:124 | the same, for every position and end of the text at once |
| Patterns.SearchDateFrom | googleScripts/update_sheet_with_purchases.py:124-126 | the hit is a date at or after the start, no date starts earlier, and the hit is the only date at its start |
| Patterns.SearchDate | googleScripts/update_sheet_with_purchases.py:124-126 | the hit is the leftmost date; none exactly when the text contains no date |
| Patterns.DateNotWordBounded | googleScripts/update_sheet_with_purchases.py:124-126 | `Jan 5, 20245` yields `Jan 5, 2024` |
| Patterns.KeywordInsideLongerWord | googleScripts/update_sheet_with_purchases.py:128-138 | `Accounts: 7` searched for `Account` captures `s: 7`, the rest of the word included |
| Patterns.LeadingSpaceSkipped | googleScripts/update_sheet_with_purchases.py:136-138 | `Account Number: 12` captures `Number: 12`, the space after the keyword skipped |
| Patterns.ColonIsCaptured | googleScripts/update_sheet_with_purchases.py:128-130 | `Merchant: Corner Shop` captures `: Corner Shop` |
| Extraction.DateSearchMeaning | googleScripts/update_sheet_with_purchases.py:124-126 | the date search fails exactly when the text has no date; otherwise its span is the leftmost date |
| Extraction.KeywordSearchMeaning | googleScripts/update_sheet_with_purchases.py:128-138 | a keyword search fails exactly when the text has no match; otherwise its group is the capture |
| Extraction.ExtractFields | googleScripts/update_sheet_with_purchases.py:124-147 | fails at the first of date, merchant, amount, account whose search finds nothing; on success the date is the leftmost date and card, merchant, amount are the Account, Merchant, Amount captures |
| Extraction.CaptureShape | googleScripts/update_sheet_with_purchases.py:128-138 | a capture is non-empty, has no CR or LF, and follows a keyword occurrence plus whitespace up to the end of its line |
| Extraction.CaptureUnique | googleScripts/update_sheet_with_purchases.py:128-138 | the capture is determined by the text |
| Extraction.BlankTextFailsAtDate | googleScripts/update_sheet_with_purchases.py:121-126 | rendered text that is all whitespace fails at the date |
| Extraction.PayloadHtml | googleScripts/update_sheet_with_purchases.py:101-114 | the HTML collected for a part is empty unless the part is `text/html` with a decodable body, and is that body's text when it is |
| Extraction.CollectHtml | googleScripts/update_sheet_with_purchases.py:101-118 | the queue loop yields the top-level body text when the payload is `text/html` with decodable data, and "" otherwise |
| Extraction.SubPartsIgnored | googleScripts/update_sheet_with_purchases.py:101-104 | changing the sub-parts changes nothing |
| Extraction.DecodePayloadOfEmail | googleScripts/update_sheet_with_purchases.py:100-147 | the result is the extraction applied to the stripped rendering of the collected HTML |
| Gmail.LabelIdOf | googleScripts/update_sheet_with_purchases.py:60-75 | none exactly when no label name matches ignoring case; otherwise the id of the first that does |
| Gmail.Names | googleScripts/update_sheet_with_purchases.py:69-72 | the names listed on failure, in label order |
| Gmail.GetLabelId | googleScripts/update_sheet_with_purchases.py:60-75 | the loop returns the first case-insensitive match, or fails with the list of names |
| Gmail.LabelFoundIsFirst | googleScripts/update_sheet_with_purchases.py:64-67 | the first matching label is the one returned |
| Gmail.LabelCaseInsensitive | googleScripts/update_sheet_with_purchases.py:65 | upper-casing the target changes nothing |
| Gmail.Matching | googleScripts/update_sheet_with_purchases.py:78-83 | the listing holds exactly the messages under the label that match today's query |
| Gmail.ListMessages | googleScripts/update_sheet_with_purchases.py:78-83 | one page: at most 100 messages, a prefix of all matching ones, all of them when there are fewer |
| Gmail.Decodings | googleScripts/update_sheet_with_purchases.py:89-91 | one decoding per message, in order |
| Gmail.FirstFailure | googleScripts/update_sheet_with_purchases.py:88-98 | success exactly when every step succeeds, with the values in order; otherwise the index of the first failure, with all before it succeeding |
| Gmail.FirstFailureAt | googleScripts/update_sheet_with_purchases.py:88-98 | a failure with only successes before it is where the run stops |
| Gmail.FirstFailureNone | googleScripts/update_sheet_with_purchases.py:88-98 | with no failure the run yields exactly the step values, in order |
| Gmail.Without | googleScripts/update_sheet_with_purchases.py:95 | what is left holds exactly the messages whose id is not deleted, and is never longer |
| Gmail.Fetched | googleScripts/update_sheet_with_purchases.py:90 | a fetch logs one `get` request after the earlier ones and changes nothing else |
| Gmail.Deleted | googleScripts/update_sheet_with_purchases.py:95 | a delete removes exactly the messages with that id, logs one `delete` request after the earlier ones, and leaves the labels |
| Gmail.WithoutTwice | googleScripts/update_sheet_with_purchases.py:95 | deleting in two rounds is deleting both sets at once |
| Gmail.ProcessOneMore | googleScripts/update_sheet_with_purchases.py:89-95 | processing one more message fetches it, deletes it and logs both |
| Gmail.Processing | googleScripts/update_sheet_with_purchases.py:88-98 | success exactly when every message decodes, with the transactions the decodings in order and every message processed; otherwise the error names the first message that does not decode, after all before it decoded, and the mailbox stops with it fetched |
| Gmail.ProcessingStops | googleScripts/update_sheet_with_purchases.py:89-93 | when message i is the first that fails, the run stops at i with its field error |
| Gmail.ProcessingCompletes | googleScripts/update_sheet_with_purchases.py:88-98 | when every message decodes, the run yields exactly their transactions, in order |
| Gmail.ProcessMessages | googleScripts/update_sheet_with_purchases.py:88-98 | the loop's result and mailbox are `Processing`: all decode, then the transactions in order, every message deleted, a fetch then a delete logged for each; message k fails first, then earlier ones deleted, k fetched and kept, the run stops |
| Gmail.GetEmailsUnderLabel | googleScripts/update_sheet_with_purchases.py:77-98 | an empty listing fails before any request; otherwise as ProcessMessages over the listing |
| Gmail.ProcessedNotRelisted | googleScripts/update_sheet_with_purchases.py:95 | processed messages are never listed again; other messages stay |
| Gmail.FailedAtKeepsRest | googleScripts/update_sheet_with_purchases.py:89-95 | on a failure at k (distinct ids) messages 0..k-1 are gone and k onward remain |
| Drive.QueryFiles | googleScripts/update_sheet_with_purchases.py:150-159 | the listing holds exactly the live spreadsheets of that name; its head is the first such file |
| Drive.GetSheetIdWithSpecificName | googleScripts/update_sheet_with_purchases.py:149-165 | none exactly when no file matches; otherwise the id of the first match |
| Drive.OnlyLiveSpreadsheetsCount | googleScripts/update_sheet_with_purchases.py:150 | a trashed file, a non-spreadsheet or another name never changes the answer |
| Drive.QueryAppend | googleScripts/update_sheet_with_purchases.py:153-159 | listing distributes over concatenation |
| MonthLabels.YearDigits | googleScripts/update_sheet_with_purchases.py:223 | the year is four digits, the first not 0 |
| MonthLabels.YearRoundTrip | googleScripts/update_sheet_with_purchases.py:223 | reading the four digits gives the year back |
| MonthLabels.DigitsRoundTrip | googleScripts/update_sheet_with_purchases.py:223 | four digits not starting with 0 are the digits of their value |
| MonthLabels.MonthLabel | googleScripts/update_sheet_with_purchases.py:222-223 | the title is five characters longer than the month's name; what those characters are is pinned by MonthLabelRoundTrip and ParseMonthLabelSound |
| MonthLabels.ParseMonthLabel | googleScripts/update_sheet_with_purchases.py:223 | a title read back is a valid month and year |
| MonthLabels.MonthLabelRoundTrip | googleScripts/update_sheet_with_purchases.py:223 | every title reads back as its month and year |
| MonthLabels.ParseMonthLabelSound | googleScripts/update_sheet_with_purchases.py:223 | every string that reads as a date is that date's title |
| MonthLabels.MonthLabelInjective | googleScripts/update_sheet_with_purchases.py:223 | different months get different titles |
| MonthLabels.OctoberTitle | googleScripts/update_sheet_with_purchases.py:223 | October 2026 is titled "October 2026" |
| Sheets.CreateNewSheetTabIfNewMonth | googleScripts/update_sheet_with_purchases.py:221-253 | returns the month's title; an existing tab of that title means no change, otherwise one empty tab is added and the request logged; an unknown spreadsheet fails with nothing changed |
| Sheets.Resolved | googleScripts/update_sheet_with_purchases.py:230-251 | afterwards the spreadsheet has a tab of that title; no spreadsheet is added or dropped and the others are untouched; the request log only grows; distinct titles stay distinct |
| Sheets.ResolvedIdempotent | googleScripts/update_sheet_with_purchases.py:230-251 | afterwards the tab exists, and resolving again adds nothing |
| Sheets.ResolvedFrame | googleScripts/update_sheet_with_purchases.py:235-251 | at most one tab is added, at the end, exactly when the title was missing; existing tabs and other spreadsheets are untouched; distinct titles stay distinct |
| Sheets.ResolvedDistinct | googleScripts/update_sheet_with_purchases.py:230-251 | resolving keeps a spreadsheet's titles distinct |
| Sheets.RowOf | googleScripts/update_sheet_with_purchases.py:171-176 | a row has four cells |
| Sheets.RowRoundTrip | googleScripts/update_sheet_with_purchases.py:171-176 | a row reads back as its transaction (card, merchant, amount, date), column C being the amount |
| Sheets.Rows | googleScripts/update_sheet_with_purchases.py:170-176 | one row per transaction |
| Sheets.RowsRoundTrip | googleScripts/update_sheet_with_purchases.py:168-176 | row k reads back as transaction k and holds its amount in column C |
| Sheets.BuildRows | googleScripts/update_sheet_with_purchases.py:168-176 | the loop builds one row per transaction, in input order |
| Sheets.AppendRange | googleScripts/update_sheet_with_purchases.py:185 | the append range is the unquoted tab title followed by three characters |
| Sheets.CellRange | googleScripts/update_sheet_with_purchases.py:193-194 | a cell range holds the tab title after one opening character and ends with the cell |
| Sheets.SumFormula | googleScripts/update_sheet_with_purchases.py:197 | the formula starts with `=` and names the tab's title at a fixed offset |
| Sheets.SummaryRanges | googleScripts/update_sheet_with_purchases.py:185-197 | the label and sum cells differ; the label range, the SUM formula and the append range each determine the tab |
| Sheets.SummaryData | googleScripts/update_sheet_with_purchases.py:199-211 | the batch has two different ranges, holding `Total Spend:` and the SUM formula |
| Sheets.AppendToTab | googleScripts/update_sheet_with_purchases.py:183-189 | the rows go after the tab's rows; other tabs unchanged |
| Sheets.WriteSummaryCells | googleScripts/update_sheet_with_purchases.py:199-216 | the summary write keeps the number and the titles of the tabs; the tab with the title gets the label in F3 and the formula in G3, and every other tab is identical |
| Sheets.Appended | googleScripts/update_sheet_with_purchases.py:183-189 | appending keeps the spreadsheets, the number of tabs and the other spreadsheets; logs one request after the earlier ones; distinct titles stay distinct; the spreadsheet's tabs become `AppendToTab` of the old ones and the request logged is the `USER_ENTERED`, `INSERT_ROWS` append of those rows to the tab's range |
| Sheets.Summarised | googleScripts/update_sheet_with_purchases.py:199-216 | writing the summary keeps the spreadsheets, the number of tabs and the other spreadsheets; logs one request after the earlier ones; distinct titles stay distinct; the spreadsheet's tabs become `WriteSummaryCells` of the old ones and the request logged is the `USER_ENTERED` batch update of `SummaryData` |
| Sheets.Sent | googleScripts/update_sheet_with_purchases.py:181-216 | after sending, the month's tab exists, other spreadsheets are untouched, at least two requests are logged after the earlier ones, and distinct titles stay distinct |
| Sheets.WritesKeepTitles | googleScripts/update_sheet_with_purchases.py:183-216 | appending and writing the summary keep every title in place |
| Sheets.SendTransactionsToSheets | googleScripts/update_sheet_with_purchases.py:167-219 | no id or an unknown spreadsheet fails with nothing changed; otherwise the month's tab is resolved, the rows appended and the summary written; distinct titles stay distinct |
| Sheets.TabNamed | googleScripts/update_sheet_with_purchases.py:230-231 | there is a tab of that title exactly when some tab has it |
| Sheets.SentTab | googleScripts/update_sheet_with_purchases.py:181-216 | the month's tab holds its old rows then one row per transaction, and F3 `Total Spend:` and G3 `=SUM('<tab>'!C:C)` beside its old cells |
| Sheets.SentFrame | googleScripts/update_sheet_with_purchases.py:181-216 | other tabs and other spreadsheets are untouched |
| Sheets.SentCalls | googleScripts/update_sheet_with_purchases.py:181-216 | the requests are: the tab creation if the tab was missing, then the append (`USER_ENTERED`, `INSERT_ROWS`, `<tab>!A1`), then the summary batch |
| Sheets.TabNamedAt | googleScripts/update_sheet_with_purchases.py:230-231 | with distinct titles the tab of a title is the one at its index |
| Gemma3.LlmType | models/Gemma3.py:29-30 | the model type reported is `gemma3:4b` |
| Gemma3.RemoveThinkSpans | models/Gemma3.py:25 | removing spans never lengthens the text, and empty text stays empty |
| Gemma3.FirstClose | models/Gemma3.py:25 | the first `</think>` at or after a position, or none when there is none |
| Gemma3.CleanResponse | models/Gemma3.py:25-27 | the answer has no leading or trailing whitespace |
| Gemma3.FoundSpan | models/Gemma3.py:25 | what the scan removes is a whole lazy match: it opens at `<think>` and ends at the first `</think>` after it, newlines included |
| Gemma3.SpanStartFound | models/Gemma3.py:25 | wherever a match starts, the scan removes it |
| Gemma3.RemovedStep | models/Gemma3.py:25 | a match removed at the start, followed by a scan of the rest, is a scan of the whole text, and the removal agrees |
| Gemma3.KeptStep | models/Gemma3.py:25 | a character kept where no match starts, followed by a scan of the rest, is a scan of the whole text, and the removal agrees |
| Gemma3.RemoveThinkSpansIsScan | models/Gemma3.py:25 | the removal is a left-to-right scan: pieces covering the input in order, kept characters only where no match starts, removed pieces whole non-overlapping matches, output the kept characters |
| Gemma3.SpanLengthUnique | models/Gemma3.py:25 | the lazy `.*?` allows one match per start |
| Gemma3.ScanUnique | models/Gemma3.py:25 | such a scan of a text is unique |
| Gemma3.RemoveThinkSpansSpec | models/Gemma3.py:25 | the removal agrees with every scan of its input |
| Gemma3.NoOpenUnchanged | models/Gemma3.py:25 | text without `<think>` (a lone `</think>` included) comes back from the removal unchanged |
| Gemma3.NoOpenCleanIsStrip | models/Gemma3.py:25-27 | so cleaning such text is only the strip |
| Gemma3.NoCloseUnchanged | models/Gemma3.py:25 | text with no `</think>` anywhere comes back unchanged, any `<think>` in it included |
| Gemma3.NoCloseAfter | models/Gemma3.py:25 | a `<think>` at i with no `</think>` at or after i is kept verbatim with everything after it, and the text before i is cleaned on its own, whatever spans it holds |
| Gemma3.CloseKept | models/Gemma3.py:25 | a `</think>` that starts the text is kept, and the rest is cleaned on its own |
| Gemma3.ScanSplit | models/Gemma3.py:25 | at any boundary between the pieces of a scan, the output is the kept text before it followed by the removal of the text after it |
| Gemma3.CloseAtBoundaryKept | models/Gemma3.py:25 | a `</think>` with no unmatched `<think>` before it (at a boundary of the scan, after removed spans or kept text) comes through in the output |
| Gemma3.SpanRemovedExample | models/Gemma3.py:25-27 | `<think>a\nb</think> Hi` cleans to `Hi` |
| Pipeline.Run | googleScripts/update_sheet_with_purchases.py:255-263 | no label, or no message today: both services untouched; a message fails to decode: messages before it deleted, spreadsheet untouched; all decode: all deleted, then either the spreadsheet is missing and nothing is written, or the month's tab gets the rows and summary |
| Pipeline.SuccessWritesEveryMessage | googleScripts/update_sheet_with_purchases.py:259-263 | on success one row is written per listed message, in listing order, each reading back as that message's transaction |

## Left out

- OAuth and token persistence (`get_credentials`, lines 34-58) are not modelled. They are an interactive browser flow and file I/O.
- The real Gmail, Drive and Sheets clients are modelled as values with the request log described above. Their network errors and quotas are not modelled. The Drive query string is modelled as a predicate on files (name, type, trash flag), not as text the service parses.
- Sheet names containing a quote, which would break the Drive query, are not modelled.
- The service's A1-range parsing is not modelled. Both the unquoted append range and the quoted cell ranges are taken to address the resolved tab.
- Table detection by `values().append` is not modelled. Rows land after the rows appended before.
- The code passes the global `sheets_service` rather than its `sheet_service` parameter. The model uses one explicit service value.
- BeautifulSoup rendering (lines 121-122) is the `render` parameter.
- Base64 and UTF-8 decoding of `body.data` (line 110) is taken as already done. The `BodyData.Undecodable` case stands for data whose decoding raises, and the try/except path (116-118) then only prints.
- The clock is not modelled. The "after:today" query is a per-message flag set by the service, and the year and month are parameters.
- MonthLabels.MonthLabel: defined for years 1000-9999 only, because `%Y` padding below 1000 depends on the platform. It uses a fixed English month-name table in place of the locale.
- The environment (`os.getenv`, `load_dotenv`) becomes `Pipeline.Config`.
- Not modelled: the `ollama` client call, the LangChain base class, the unused `stop`/`run_manager` arguments, and all `print` output.
- Gmail.ListMessages: reads only the first page of 100 messages, as the code does. `nextPageToken` is never followed.
- Gmail.ProcessMessages: a fetch returns the listed message as it was listed. Concurrent changes to the mailbox are not modelled.
- Unicode is not modelled: `\s`, `\d`, `str.upper()` and `str.strip()` are ASCII only. Whitespace is space, `\t`, `\n`, `\r`, `\f` and `\v`, and upper-casing maps `a`-`z` only.
- Python's `\s` and `str.strip()` also treat the separators U+001C to U+001F as whitespace, and so do not agree with the model on such text: `"Merchant\x1cX"` captures `X` in Python but `\x1cX` in the model, and `strip()` removes a trailing `\x1c` that the model keeps.
- The Sheets service's parsing of `USER_ENTERED` values into numbers, dates and formulas is not modelled. Rows and cells hold the strings sent, unparsed: the `=SUM(...)` formula is stored as its text, and a captured amount such as `": $12.34"` stays a string, which a real `SUM` over the column would plausibly skip.
