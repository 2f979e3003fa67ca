/**
 * The script's entry point: find the label, process today's messages under it, find the
 * budget spreadsheet and send the transactions to this month's tab. Each step's failure
 * ends the run; what the earlier steps did to the services stands.
 */
module Pipeline {
  import opened Wrappers
  import opened Transactions
  import opened Gmail
  import opened Drive
  import opened MonthLabels
  import opened Sheets

  /** The two settings read from the environment. */
  datatype Config = Config(targetLabel: string, spreadsheetName: string)

  datatype RunError = MailFailure(mail: MailError) | SheetsFailure(sheets: SheetsError)

  method Run(cfg: Config, box: Mailbox, files: seq<DriveFile>, svc: SheetsService,
             render: string -> string, year: int, month: int)
    returns (r: Result<string, RunError>, box': Mailbox, svc': SheetsService)
    requires ValidMonth(year, month)
    // No label of that name: nothing is touched.
    ensures LabelIdOf(box.labels, cfg.targetLabel).None? ==>
      r == Failure(MailFailure(LabelNotFound(Names(box.labels)))) && box' == box && svc' == svc
    // No message today: nothing is touched.
    ensures LabelIdOf(box.labels, cfg.targetLabel).Some? ==>
      var ms := ListMessages(box, LabelIdOf(box.labels, cfg.targetLabel).value);
      ms == [] ==> r == Failure(MailFailure(NoMessages)) && box' == box && svc' == svc
    // A message fails to decode: the ones before it are gone, the spreadsheet is untouched.
    ensures LabelIdOf(box.labels, cfg.targetLabel).Some? ==>
      var ms, decode := ListMessages(box, LabelIdOf(box.labels, cfg.targetLabel).value), DecoderFor(render);
      ms != [] && DecodeAll(ms, decode).Failure? ==>
        var k := DecodeAll(ms, decode).error;
        && r == Failure(MailFailure(FieldNotFound(ms[k].id, decode(ms[k]).error)))
        && box' == FailedAt(box, ms, k) && svc' == svc
    // All decode: every listed message is deleted, whether or not the spreadsheet is there.
    ensures LabelIdOf(box.labels, cfg.targetLabel).Some? ==>
      var ms, decode := ListMessages(box, LabelIdOf(box.labels, cfg.targetLabel).value), DecoderFor(render);
      var id := GetSheetIdWithSpecificName(files, cfg.spreadsheetName);
      ms != [] && DecodeAll(ms, decode).Success? ==>
        && box' == AfterProcessing(box, ms)
        && ((id.None? || id.value !in svc.books) ==>
              r == Failure(SheetsFailure(SpreadsheetUnavailable)) && svc' == svc)
        && ((id.Some? && id.value in svc.books) ==>
              && r == Success(MonthLabel(year, month))
              && svc' == Sent(svc, id.value, MonthLabel(year, month), DecodeAll(ms, decode).value))
    // No step gives a spreadsheet two tabs of the same title.
    ensures Sheets.Valid(svc) ==> Sheets.Valid(svc')
  {
    var found := GetLabelId(box.labels, cfg.targetLabel);
    if found.Failure? {
      return Failure(MailFailure(found.error)), box, svc;
    }
    var emails;
    emails, box' := GetEmailsUnderLabel(box, found.value, render);
    if emails.Failure? {
      return Failure(MailFailure(emails.error)), box', svc;
    }
    var sheetId := GetSheetIdWithSpecificName(files, cfg.spreadsheetName);
    var sent;
    sent, svc' := SendTransactionsToSheets(emails.value, sheetId, svc, year, month);
    if sent.Failure? {
      return Failure(SheetsFailure(sent.error)), box', svc';
    }
    r := Success(sent.value);
  }

  /** A run that reports success wrote exactly one row per listed message, in listing order,
      each read back as that message's transaction. */
  lemma SuccessWritesEveryMessage(box: Mailbox, labelId: string, render: string -> string)
    requires DecodeAll(ListMessages(box, labelId), DecoderFor(render)).Success?
    ensures var ms := ListMessages(box, labelId);
      var ts := DecodeAll(ms, DecoderFor(render)).value;
      && |Rows(ts)| == |ms|
      && forall k :: 0 <= k < |ms| ==> FromRow(Rows(ts)[k]) == Some(DecodeMessage(ms[k], render).value)
  {
    var ms := ListMessages(box, labelId);
    var ts := DecodeAll(ms, DecoderFor(render)).value;
    RowsRoundTrip(ts);
    forall k | 0 <= k < |ms| ensures FromRow(Rows(ts)[k]) == Some(DecodeMessage(ms[k], render).value) {
      assert Decodings(ms, DecoderFor(render))[k] == DecodeMessage(ms[k], render);
    }
  }
}
