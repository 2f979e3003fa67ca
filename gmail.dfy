/**
 * The mailbox side of the pipeline: finding the target label by name, listing today's
 * messages under it, and fetching, decoding and deleting each one in turn.
 *
 * The mail service is a value passed in and handed back: the labels it knows, the messages
 * it holds (in the order the service lists them) and the log of fetch and delete requests
 * made against it, so the order of those requests is part of the state.
 */
module Gmail {
  import opened Wrappers
  import opened Text
  import opened Transactions
  import opened Extraction

  datatype Label = Label(id: string, name: string)

  /** A message as the service holds it. Whether it matches the "after:<today>" query is
      decided by the service against its clock, so it is recorded with the message. */
  datatype Message = Message(id: string, labelIds: set<string>, matchesQuery: bool, payload: Part)

  datatype MailCall = GetMessage(id: string) | DeleteMessage(id: string)

  datatype Mailbox = Mailbox(labels: seq<Label>, messages: seq<Message>, calls: seq<MailCall>)

  datatype MailError =
    | LabelNotFound(available: seq<string>)
    | NoMessages
    | FieldNotFound(messageId: string, field: Field)

  /** The service's default page size; only the first page of a listing is read. */
  const PageSize := 100

  // ---------------------------------------------------------------------------------------
  // Labels
  // ---------------------------------------------------------------------------------------

  /** Label names are compared after upper-casing both sides. */
  predicate SameName(a: string, b: string) {
    Upper(a) == Upper(b)
  }

  /** k is the first label whose name is the target's, ignoring case. */
  ghost predicate FirstNamed(labels: seq<Label>, target: string, k: int) {
    && 0 <= k < |labels|
    && SameName(labels[k].name, target)
    && forall j :: 0 <= j < k ==> !SameName(labels[j].name, target)
  }

  /** The id of the first label named like the target, if any. */
  function LabelIdOf(labels: seq<Label>, target: string): (r: Option<string>)
    ensures r.None? <==> forall k :: 0 <= k < |labels| ==> !SameName(labels[k].name, target)
    ensures r.Some? ==> exists k :: FirstNamed(labels, target, k) && r.value == labels[k].id
    decreases |labels|
  {
    if labels == [] then None
    else if SameName(labels[0].name, target) then
      assert FirstNamed(labels, target, 0);
      Some(labels[0].id)
    else
      var r := LabelIdOf(labels[1..], target);
      assert r.Some? ==> exists k :: FirstNamed(labels, target, k) && r.value == labels[k].id by {
        if r.Some? {
          var k :| FirstNamed(labels[1..], target, k) && r.value == labels[1..][k].id;
          assert FirstNamed(labels, target, k + 1);
        }
      }
      r
  }

  /** The names listed when the label is not found. */
  function Names(labels: seq<Label>): (r: seq<string>)
    ensures |r| == |labels| && forall k :: 0 <= k < |labels| ==> r[k] == labels[k].name
  {
    seq(|labels|, k requires 0 <= k < |labels| => labels[k].name)
  }

  /** Looking the label up: the first label whose name matches, or the list of names. */
  method GetLabelId(labels: seq<Label>, target: string) returns (r: Result<string, MailError>)
    ensures r.Success? <==> LabelIdOf(labels, target).Some?
    ensures r.Success? ==> r.value == LabelIdOf(labels, target).value
    ensures r.Failure? ==> r.error == LabelNotFound(Names(labels))
  {
    var i := 0;
    while i < |labels| && !SameName(labels[i].name, target)
      invariant 0 <= i <= |labels|
      invariant forall j :: 0 <= j < i ==> !SameName(labels[j].name, target)
    {
      i := i + 1;
    }
    if i == |labels| {
      r := Failure(LabelNotFound(Names(labels)));
    } else {
      LabelFoundIsFirst(labels, target, i);
      r := Success(labels[i].id);
    }
  }

  /** The first matching label is the one LabelIdOf names. */
  lemma {:induction false} LabelFoundIsFirst(labels: seq<Label>, target: string, k: int)
    requires FirstNamed(labels, target, k)
    ensures LabelIdOf(labels, target) == Some(labels[k].id)
    decreases |labels|
  {
    if k > 0 {
      assert FirstNamed(labels[1..], target, k - 1);
      LabelFoundIsFirst(labels[1..], target, k - 1);
    }
  }

  /** The target's case does not matter. */
  lemma LabelCaseInsensitive(labels: seq<Label>, target: string)
    ensures LabelIdOf(labels, Upper(target)) == LabelIdOf(labels, target)
  {
    UpperIdempotent(target);
    var a, b := LabelIdOf(labels, Upper(target)), LabelIdOf(labels, target);
    if a.Some? {
      var k :| FirstNamed(labels, Upper(target), k) && a.value == labels[k].id;
      LabelFoundIsFirst(labels, target, k);
    }
  }

  // ---------------------------------------------------------------------------------------
  // Listing
  // ---------------------------------------------------------------------------------------

  /** The message is under the label and matches today's query. */
  predicate Selected(m: Message, labelId: string) {
    labelId in m.labelIds && m.matchesQuery
  }

  /** All messages the query selects, in the service's order. */
  function Matching(ms: seq<Message>, labelId: string): (r: seq<Message>)
    ensures forall m :: m in r <==> m in ms && Selected(m, labelId)
    ensures |r| <= |ms|
  {
    if ms == [] then []
    else if Selected(ms[0], labelId) then [ms[0]] + Matching(ms[1..], labelId)
    else Matching(ms[1..], labelId)
  }

  /** The first page of the listing. */
  function ListMessages(box: Mailbox, labelId: string): (r: seq<Message>)
    ensures |r| <= PageSize && |r| <= |Matching(box.messages, labelId)|
    ensures forall m :: m in r ==> m in box.messages && Selected(m, labelId)
    ensures r == Matching(box.messages, labelId)[..|r|]
    ensures |r| == PageSize || r == Matching(box.messages, labelId)
  {
    var all := Matching(box.messages, labelId);
    if |all| <= PageSize then all else all[..PageSize]
  }

  // ---------------------------------------------------------------------------------------
  // Fetching, decoding, deleting
  // ---------------------------------------------------------------------------------------

  /** What decoding a message gives, for a given HTML-to-text renderer: the result
      `DecodePayloadOfEmail` is proved to return for the message's payload. */
  function DecodeMessage(m: Message, render: string -> string): Result<Transaction, Field> {
    ExtractFields(Strip(render(PayloadHtml(m.payload))))
  }

  /** The per-message step as a function value. */
  function DecoderFor(render: string -> string): Message -> Result<Transaction, Field> {
    m => DecodeMessage(m, render)
  }

  /** The decoding of each message of a run, in order. */
  function Decodings(ms: seq<Message>, decode: Message -> Result<Transaction, Field>): (rs: seq<Result<Transaction, Field>>)
    ensures |rs| == |ms| && forall k :: 0 <= k < |ms| ==> rs[k] == decode(ms[k])
  {
    seq(|ms|, k requires 0 <= k < |ms| => decode(ms[k]))
  }

  /** Running through a sequence of decodings: all the values, or the index of the first
      failure. */
  function FirstFailure<T, E>(rs: seq<Result<T, E>>): (r: Result<seq<T>, nat>)
    ensures r.Success? <==> forall k :: 0 <= k < |rs| ==> rs[k].Success?
    ensures r.Success? ==> |r.value| == |rs|
    ensures r.Success? ==> forall k :: 0 <= k < |rs| ==> r.value[k] == rs[k].value
    ensures r.Failure? ==> r.error < |rs| && rs[r.error].Failure?
    ensures r.Failure? ==> forall k :: 0 <= k < r.error ==> rs[k].Success?
    decreases |rs|
  {
    if rs == [] then Success([])
    else if rs[0].Failure? then Failure(0)
    else
      var rest := FirstFailure(rs[1..]);
      if rest.Failure? then Failure(rest.error + 1)
      else Success([rs[0].value] + rest.value)
  }

  /** The run stops at the first failure. */
  lemma FirstFailureAt<T, E>(rs: seq<Result<T, E>>, i: nat)
    requires i < |rs| && rs[i].Failure?
    requires forall k :: 0 <= k < i ==> rs[k].Success?
    ensures FirstFailure(rs) == Failure(i)
  {
  }

  /** With no failure, the run's values are the step values, in order. */
  lemma FirstFailureNone<T, E>(rs: seq<Result<T, E>>, vs: seq<T>)
    requires |vs| == |rs|
    requires forall k :: 0 <= k < |rs| ==> rs[k].Success? && vs[k] == rs[k].value
    ensures FirstFailure(rs) == Success(vs)
  {
    assert FirstFailure(rs).value == vs;
  }

  /** Decoding a run of messages: all transactions, or the index of the first that fails. */
  function DecodeAll(ms: seq<Message>, decode: Message -> Result<Transaction, Field>): Result<seq<Transaction>, nat> {
    FirstFailure(Decodings(ms, decode))
  }

  /** The messages left once those with the given ids are gone. */
  function Without(ms: seq<Message>, ids: set<string>): (r: seq<Message>)
    ensures forall m :: m in r <==> m in ms && m.id !in ids
    ensures |r| <= |ms|
  {
    if ms == [] then []
    else if ms[0].id in ids then Without(ms[1..], ids)
    else [ms[0]] + Without(ms[1..], ids)
  }

  lemma {:induction false} WithoutTwice(ms: seq<Message>, a: set<string>, b: set<string>)
    ensures Without(Without(ms, a), b) == Without(ms, a + b)
    decreases |ms|
  {
    if ms != [] {
      WithoutTwice(ms[1..], a, b);
      if ms[0].id !in a {
        assert Without(ms, a) == [ms[0]] + Without(ms[1..], a);
        assert ([ms[0]] + Without(ms[1..], a))[1..] == Without(ms[1..], a);
      }
    }
  }

  lemma WithoutNothing(ms: seq<Message>)
    ensures Without(ms, {}) == ms
  {
  }

  function IdSet(ms: seq<Message>): set<string> {
    set k | 0 <= k < |ms| :: ms[k].id
  }

  /** The request log of fully processed messages: a fetch, then a delete, for each. */
  function ProcessedCalls(ms: seq<Message>): seq<MailCall> {
    if ms == [] then []
    else ProcessedCalls(ms[..|ms| - 1]) + [GetMessage(ms[|ms| - 1].id), DeleteMessage(ms[|ms| - 1].id)]
  }

  /** The mailbox once the given messages have each been fetched and deleted. */
  function AfterProcessing(box: Mailbox, done: seq<Message>): Mailbox {
    box.(messages := Without(box.messages, IdSet(done)), calls := box.calls + ProcessedCalls(done))
  }

  /** The fetch request for a message. */
  function Fetched(b: Mailbox, id: string): (r: Mailbox)
    ensures r.labels == b.labels && r.messages == b.messages
    ensures |r.calls| == |b.calls| + 1 && r.calls[..|b.calls|] == b.calls && r.calls[|b.calls|] == GetMessage(id)
  {
    b.(calls := b.calls + [GetMessage(id)])
  }

  /** The delete request for a message: it is gone from the mailbox. */
  function Deleted(b: Mailbox, id: string): (r: Mailbox)
    ensures r.labels == b.labels
    ensures forall m :: m in r.messages <==> m in b.messages && m.id != id
    ensures |r.messages| <= |b.messages|
    ensures |r.calls| == |b.calls| + 1 && r.calls[..|b.calls|] == b.calls && r.calls[|b.calls|] == DeleteMessage(id)
  {
    b.(messages := Without(b.messages, {id}), calls := b.calls + [DeleteMessage(id)])
  }

  lemma ProcessOneMore(box: Mailbox, ms: seq<Message>, i: nat)
    requires i < |ms|
    ensures AfterProcessing(box, ms[..i + 1]) == Deleted(Fetched(AfterProcessing(box, ms[..i]), ms[i].id), ms[i].id)
  {
    assert ms[..i + 1][..i] == ms[..i];
    IdSetSnoc(ms, i);
    WithoutTwice(box.messages, IdSet(ms[..i]), {ms[i].id});
  }

  /** The ids of one more message are the ids so far and its id. */
  lemma IdSetSnoc(ms: seq<Message>, i: nat)
    requires i < |ms|
    ensures IdSet(ms[..i + 1]) == IdSet(ms[..i]) + {ms[i].id}
  {
    forall x | x in IdSet(ms[..i + 1]) ensures x in IdSet(ms[..i]) + {ms[i].id} {
      var k :| 0 <= k < i + 1 && ms[..i + 1][k].id == x;
      if k < i { assert ms[..i][k].id == x; }
    }
    forall x | x in IdSet(ms[..i]) ensures x in IdSet(ms[..i + 1]) {
      var k :| 0 <= k < i && ms[..i][k].id == x;
      assert ms[..i + 1][k].id == x;
    }
    assert ms[..i + 1][i].id == ms[i].id;
  }

  /** The mailbox after the messages before index k are processed and message k is
      fetched. */
  function FailedAt(box: Mailbox, ms: seq<Message>, k: nat): Mailbox
    requires k < |ms|
  {
    Fetched(AfterProcessing(box, ms[..k]), ms[k].id)
  }

  /** The result of a processing run and the mailbox it leaves behind. */
  datatype Outcome = Outcome(result: Result<seq<Transaction>, MailError>, box: Mailbox)

  /** What processing ms comes to: with every message decoded, the transactions in order and
      the mailbox with all of them gone; otherwise the first message that fails, and the
      mailbox as it stood once that message was fetched. */
  function Processing(box: Mailbox, ms: seq<Message>, decode: Message -> Result<Transaction, Field>): (out: Outcome)
    ensures out.result.Success? <==> forall k :: 0 <= k < |ms| ==> decode(ms[k]).Success?
    ensures out.result.Success? ==> |out.result.value| == |ms| && out.box == AfterProcessing(box, ms)
    ensures out.result.Success? ==> forall k :: 0 <= k < |ms| ==> out.result.value[k] == decode(ms[k]).value
    ensures out.result.Failure? ==> var k := DecodeAll(ms, decode).error;
      && k < |ms| && decode(ms[k]).Failure?
      && (forall j :: 0 <= j < k ==> decode(ms[j]).Success?)
      && out.result.error == FieldNotFound(ms[k].id, decode(ms[k]).error)
      && out.box == FailedAt(box, ms, k)
  {
    match DecodeAll(ms, decode)
    case Success(ts) => Outcome(Success(ts), AfterProcessing(box, ms))
    case Failure(k) => Outcome(Failure(FieldNotFound(ms[k].id, decode(ms[k]).error)), FailedAt(box, ms, k))
  }

  /** A run whose message i is the first that fails stops there. */
  lemma ProcessingStops(box: Mailbox, ms: seq<Message>, decode: Message -> Result<Transaction, Field>, i: nat)
    requires i < |ms| && decode(ms[i]).Failure?
    requires forall k :: 0 <= k < i ==> decode(ms[k]).Success?
    ensures Processing(box, ms, decode) == Outcome(Failure(FieldNotFound(ms[i].id, decode(ms[i]).error)), FailedAt(box, ms, i))
  {
    FirstFailureAt(Decodings(ms, decode), i);
  }

  /** A run in which every message decodes gives the decoded transactions, in order. */
  lemma ProcessingCompletes(box: Mailbox, ms: seq<Message>, decode: Message -> Result<Transaction, Field>, txs: seq<Transaction>)
    requires |txs| == |ms|
    requires forall k :: 0 <= k < |ms| ==> decode(ms[k]).Success? && txs[k] == decode(ms[k]).value
    ensures Processing(box, ms, decode) == Outcome(Success(txs), AfterProcessing(box, ms))
  {
    FirstFailureNone(Decodings(ms, decode), txs);
  }

  /**
   * Fetch, decode and delete each of the messages ms, in order. A message is deleted only
   * after it decodes; the first that does not decode stops the run, leaving the messages
   * before it deleted and it and those after it in place.
   */
  method ProcessMessages(box: Mailbox, ms: seq<Message>, decode: Message -> Result<Transaction, Field>)
    returns (r: Result<seq<Transaction>, MailError>, box': Mailbox)
    ensures Outcome(r, box') == Processing(box, ms, decode)
  {
    var txs: seq<Transaction> := [];
    var i := 0;
    box' := box;
    assert ms[..0] == [] && IdSet(ms[..0]) == {};
    WithoutNothing(box.messages);
    while i < |ms|
      invariant 0 <= i <= |ms|
      invariant |txs| == i
      invariant forall k :: 0 <= k < i ==> decode(ms[k]).Success? && txs[k] == decode(ms[k]).value
      invariant box' == AfterProcessing(box, ms[..i])
    {
      var m := ms[i];
      box' := Fetched(box', m.id);
      var d := decode(m);
      if d.Failure? {
        ProcessingStops(box, ms, decode, i);
        return Failure(FieldNotFound(m.id, d.error)), box';
      }
      txs := txs + [d.value];
      ProcessOneMore(box, ms, i);
      box' := Deleted(box', m.id);
      i := i + 1;
    }
    assert ms[..i] == ms;
    ProcessingCompletes(box, ms, decode, txs);
    r := Success(txs);
  }

  /** List the label's messages for today; none is an error, otherwise process them,
      decoding each payload with the given renderer. */
  method GetEmailsUnderLabel(box: Mailbox, labelId: string, render: string -> string)
    returns (r: Result<seq<Transaction>, MailError>, box': Mailbox)
    ensures var ms := ListMessages(box, labelId);
      ms == [] ==> r == Failure(NoMessages) && box' == box
    ensures var ms, decode := ListMessages(box, labelId), DecoderFor(render);
      ms != [] && DecodeAll(ms, decode).Success? ==>
        r == Success(DecodeAll(ms, decode).value) && box' == AfterProcessing(box, ms)
    ensures var ms, decode := ListMessages(box, labelId), DecoderFor(render);
      ms != [] && DecodeAll(ms, decode).Failure? ==>
        var k := DecodeAll(ms, decode).error;
        r == Failure(FieldNotFound(ms[k].id, decode(ms[k]).error)) && box' == FailedAt(box, ms, k)
  {
    var ms := ListMessages(box, labelId);
    if ms == [] {
      return Failure(NoMessages), box;
    }
    r, box' := ProcessMessages(box, ms, DecoderFor(render));
  }

  /** After a successful run, none of the processed messages is listed again, and every
      other message the service held is still there. */
  lemma ProcessedNotRelisted(box: Mailbox, ms: seq<Message>, labelId: string)
    ensures forall m :: m in ListMessages(AfterProcessing(box, ms), labelId) ==> m.id !in IdSet(ms)
    ensures forall m :: m in box.messages && m.id !in IdSet(ms) ==> m in AfterProcessing(box, ms).messages
  {
  }

  /** When message k fails to decode and listed ids are distinct, the messages before it
      are gone and it and every later listed message are still held. */
  lemma FailedAtKeepsRest(box: Mailbox, ms: seq<Message>, k: nat)
    requires k < |ms|
    requires forall j :: 0 <= j < |ms| ==> ms[j] in box.messages
    requires forall i, j :: 0 <= i < j < |ms| ==> ms[i].id != ms[j].id
    ensures forall j :: 0 <= j < k ==> ms[j] !in FailedAt(box, ms, k).messages
    ensures forall j :: k <= j < |ms| ==> ms[j] in FailedAt(box, ms, k).messages
    ensures FailedAt(box, ms, k).calls == box.calls + ProcessedCalls(ms[..k]) + [GetMessage(ms[k].id)]
  {
    forall j | 0 <= j < k ensures ms[j].id in IdSet(ms[..k]) {
      assert ms[..k][j].id == ms[j].id;
    }
  }
}
