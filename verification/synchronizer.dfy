/**
 The document-list synchroniser of the documents view: the held state
 `(documents, loading)` and its transitions for refresh, upload, delete and
 view. Every network exchange is an input `Reply` instead of a call, and
 every observable side effect (a request sent, a notification shown) is an
 output `Effect`, so each handler is a pure function from a state and the
 replies it receives to the next state and its effects.
 */
module Synchronizer {
  import opened JsValues
  import opened Options
  import opened Documents

  /** The component's React state. */
  datatype State = State(documents: seq<Document>, loading: bool)

  /** The state before the first render: no documents, loading. */
  const Initial: State := State([], true)

  /** What `fetch` followed by `response.json()` produced: a parsed body, or a
      throw (network failure or a body that is not JSON). */
  datatype Reply = Threw | Parsed(body: JsValue)

  /** A file picked for upload; its content travels opaquely. */
  datatype File = File(name: string)

  /** The requests the view sends to the backend. */
  datatype Request =
    | ListDocuments
    | UploadFile(file: File, title: string)
    | DeleteDocument(id: string)

  /** The notifications the view shows, without their exact wording. */
  datatype Notice =
    | LoadFailed
    | Uploaded(fileName: string)
    | UploadRejected(fileName: string, reason: JsValue)
    | UploadErrored(fileName: string)
    | Deleted(name: JsValue)
    | DeleteFailed(name: JsValue)
    | Viewing(name: JsValue)

  datatype Effect = Send(request: Request) | Toast(notice: Notice)

  /** The state a handler leaves behind and the effects it produced, in order. */
  datatype Step = Step(state: State, effects: seq<Effect>)

  // ---------------------------------------------------------------- refresh

  /** What the `try` block of a refresh computes from the reply. */
  function ListingOutcome(reply: Reply): Completion<Option<seq<Document>>> {
    match reply
    case Threw => Throw
    case Parsed(data) => DecodeListing(data)
  }

  /** The refresh ends in its `catch`: the exchange threw, or the body did. */
  predicate RefreshThrows(reply: Reply) {
    reply.Threw? || ListingThrows(reply.body)
  }

  /** The refresh replaces the held list: the body passed the guard and every
      record decoded. */
  predicate RefreshReplaces(reply: Reply) {
    reply.Parsed? && !Nullish(reply.body) && ListingOffered(reply.body) && !ListingThrows(reply.body)
  }

  /** `ds` is the listing of the reply, decoded record by record, in order. */
  predicate DecodedFrom(reply: Reply, ds: seq<Document>) {
    && reply.Parsed?
    && |ds| == |ListedRecords(reply.body)|
    && forall i :: 0 <= i < |ds| ==> DecodeRecord(ListedRecords(reply.body)[i]) == Normal(ds[i])
  }

  /** `setLoading(true)` and the listing request, at the start of a refresh. */
  function BeginRefresh(s: State): Step {
    Step(s.(loading := true), [Send(ListDocuments)])
  }

  /** The rest of a refresh once the reply is in, through `finally`. */
  function CompleteRefresh(s: State, reply: Reply): Step {
    match ListingOutcome(reply)
    case Throw => Step(s.(loading := false), [Toast(LoadFailed)])
    case Normal(None) => Step(s.(loading := false), [])
    case Normal(Some(ds)) => Step(State(ds, false), [])
  }

  /** `fetchDocuments`: one listing request; the list is replaced wholesale by
      the decoded listing only when the body passes the guard and decodes,
      and kept otherwise; a notification only when something threw; `loading`
      is set for the exchange and false again on every exit. */
  function Refresh(s: State, reply: Reply): (r: Step)
    ensures !r.state.loading
    ensures |r.effects| >= 1 && r.effects[0] == Send(ListDocuments)
    ensures r.effects[1..] == (if RefreshThrows(reply) then [Toast(LoadFailed)] else [])
    ensures RefreshReplaces(reply) ==> DecodedFrom(reply, r.state.documents)
    ensures !RefreshReplaces(reply) ==> r.state.documents == s.documents
  {
    var begun := BeginRefresh(s);
    var done := CompleteRefresh(begun.state, reply);
    Step(done.state, begun.effects + done.effects)
  }

  /** `loading` is set exactly while the listing request is outstanding: on
      after the request goes out, with the list untouched, and off again
      once the reply is handled, whatever it was. */
  lemma LoadingOnlyInFlight(s: State, reply: Reply)
    ensures BeginRefresh(s).state.loading
    ensures BeginRefresh(s).state.documents == s.documents
    ensures BeginRefresh(s).effects == [Send(ListDocuments)]
    ensures !CompleteRefresh(BeginRefresh(s).state, reply).state.loading
  {
  }

  /** The mount effect: the first refresh from the initial state. */
  function Mount(reply: Reply): Step {
    Refresh(Initial, reply)
  }

  /** A reply whose body reports failure is swallowed: no notification, list
      and effects as for an empty round trip. */
  lemma SilentApiFailure(s: State, body: JsValue)
    requires body.Obj? && !Truthy(OptionalGet(body, "success"))
    ensures Refresh(s, Parsed(body)) == Step(s.(loading := false), [Send(ListDocuments)])
  {
  }

  /** An empty array is truthy, so `{success: true, documents: []}` empties
      the held list. */
  lemma EmptyListingClears(s: State, body: JsValue)
    requires body.Obj? && Truthy(OptionalGet(body, "success"))
    requires OptionalGet(body, "documents") == Arr([])
    ensures Refresh(s, Parsed(body)).state.documents == []
  {
  }

  /** A single record without an id makes the whole refresh fail: nothing of
      the listing is taken, and the failure is notified. */
  lemma OneBadRecordSpoilsListing(s: State, body: JsValue, recs: seq<JsValue>, k: nat)
    requires body.Obj? && Truthy(OptionalGet(body, "success"))
    requires OptionalGet(body, "documents") == Arr(recs)
    requires k < |recs| && !Identified(recs[k])
    ensures Refresh(s, Parsed(body)) == Step(s.(loading := false), [Send(ListDocuments), Toast(LoadFailed)])
  {
  }

  /** The listing `{success: true, documents: [{id: 1, metadata: {filename:
      "a.pdf"}, created_at: "2024-01-01"}]}` yields exactly one summary. */
  lemma SingleRecordListing(s: State)
    ensures
      var rec := Obj(map["id" := Num(1), "metadata" := Obj(map["filename" := Str("a.pdf")]),
                         "created_at" := Str("2024-01-01")]);
      var body := Obj(map["success" := Bool(true), "documents" := Arr([rec])]);
      Refresh(s, Parsed(body)).state.documents
        == [Document("1", Str("a.pdf"), Str("unknown"), 0, DateArg(Str("2024-01-01")), Embedded)]
  {
  }

  // ----------------------------------------------------------------- upload

  /** A file together with the reply its upload received. */
  datatype PendingUpload = PendingUpload(file: File, reply: Reply)

  /** The body reports a successful upload. */
  predicate UploadAccepted(reply: Reply) {
    reply.Parsed? && !Nullish(reply.body) && Truthy(OptionalGet(reply.body, "success"))
  }

  /** One per-file promise of `handleUpload`, settled: the boolean it resolves
      to and the notification it shows. It never rejects: every failure,
      reported or thrown, becomes `false` with a notification naming the file. */
  function SettleUpload(u: PendingUpload): (r: (bool, Notice))
    ensures r.0 <==> UploadAccepted(u.reply)
    ensures r.1.Uploaded? || r.1.UploadRejected? || r.1.UploadErrored?
    ensures r.1.fileName == u.file.name
    ensures r.1.Uploaded? <==> r.0
    ensures r.1.UploadErrored? <==> u.reply.Threw? || Nullish(u.reply.body)
    ensures r.1.UploadRejected? ==>
              r.1.reason == (if Truthy(OptionalGet(u.reply.body, "error")) then OptionalGet(u.reply.body, "error")
                             else OptionalGet(u.reply.body, "message"))
  {
    match u.reply
    case Threw => (false, UploadErrored(u.file.name))
    case Parsed(result) =>
      match Get(result, "success")
      case Throw => (false, UploadErrored(u.file.name))
      case Normal(success) =>
        if Truthy(success) then (true, Uploaded(u.file.name))
        else (false, UploadRejected(u.file.name, Or(OptionalGet(result, "error"), OptionalGet(result, "message"))))
  }

  /** What `handleUpload` leaves: the values `Promise.all` resolved to, one per
      file, and the step (state and effects) including the final refresh. */
  datatype UploadStep = UploadStep(settled: seq<bool>, step: Step)

  /** `handleUpload`: every upload request goes out at once (titled with the
      file name), every one settles with its own notification, and only then
      does the one refresh run; the list is whatever that refresh leaves. */
  function Upload(s: State, uploads: seq<PendingUpload>, refresh: Reply): (r: UploadStep)
    ensures |r.settled| == |uploads|
    ensures forall i :: 0 <= i < |uploads| ==> (r.settled[i] <==> UploadAccepted(uploads[i].reply))
    ensures |r.step.effects| == 2 * |uploads| + |Refresh(s, refresh).effects|
    ensures forall i :: 0 <= i < |uploads| ==>
              r.step.effects[i] == Send(UploadFile(uploads[i].file, uploads[i].file.name))
    ensures forall i :: 0 <= i < |uploads| ==> r.step.effects[|uploads| + i] == Toast(SettleUpload(uploads[i]).1)
    ensures r.step.effects[2 * |uploads|..] == Refresh(s, refresh).effects
    ensures r.step.state == Refresh(s, refresh).state
  {
    var n := |uploads|;
    var sends := seq(n, i requires 0 <= i < n => Send(UploadFile(uploads[i].file, uploads[i].file.name)));
    var toasts := seq(n, i requires 0 <= i < n => Toast(SettleUpload(uploads[i]).1));
    var done := Refresh(s, refresh);
    UploadStep(seq(n, i requires 0 <= i < n => SettleUpload(uploads[i]).0), Step(done.state, sends + toasts + done.effects))
  }

  /** How many listing requests an effect sequence sends. */
  function CountListRequests(es: seq<Effect>): nat {
    if es == [] then 0
    else (if es[0] == Send(ListDocuments) then 1 else 0) + CountListRequests(es[1..])
  }

  lemma {:induction false} CountListRequestsAppend(a: seq<Effect>, b: seq<Effect>)
    ensures CountListRequests(a + b) == CountListRequests(a) + CountListRequests(b)
  {
    if a == [] {
      assert a + b == b;
    } else {
      assert (a + b)[1..] == a[1..] + b;
      CountListRequestsAppend(a[1..], b);
    }
  }

  lemma {:induction false} NoListRequests(es: seq<Effect>)
    requires forall i :: 0 <= i < |es| ==> es[i] != Send(ListDocuments)
    ensures CountListRequests(es) == 0
  {
    if es != [] {
      NoListRequests(es[1..]);
    }
  }

  /** Whatever mix of successes, rejections and throws the uploads meet, an
      upload sends exactly one listing request, and it comes after every
      per-file notification. */
  lemma UploadRefreshesOnce(s: State, uploads: seq<PendingUpload>, refresh: Reply)
    ensures CountListRequests(Upload(s, uploads, refresh).step.effects) == 1
    ensures var es := Upload(s, uploads, refresh).step.effects;
              forall j :: 0 <= j < |es| && es[j] == Send(ListDocuments) ==> j == 2 * |uploads|
  {
    var es := Upload(s, uploads, refresh).step.effects;
    var n := |uploads|;
    var rf := Refresh(s, refresh).effects;
    assert es == es[..2 * n] + rf;
    NoListRequests(es[..2 * n]);
    assert rf == [rf[0]] + rf[1..];
    NoListRequests(rf[1..]);
    CountListRequestsAppend([rf[0]], rf[1..]);
    CountListRequestsAppend(es[..2 * n], rf);
  }

  /** The uploads' outcomes never reach the held list: two uploads that end
      in the same refresh reply leave the same state. */
  lemma UploadOutcomesDoNotMatter(s: State, a: seq<PendingUpload>, b: seq<PendingUpload>, refresh: Reply)
    ensures Upload(s, a, refresh).step.state == Upload(s, b, refresh).step.state
  {
  }

  /** A rejected upload of `x.txt` with `{success: false, error: "too large"}`
      names both the file and the reason, and the refresh still follows. */
  lemma RejectedUploadStillRefreshes(s: State, refresh: Reply)
    ensures
      var u := PendingUpload(File("x.txt"), Parsed(Obj(map["success" := Bool(false), "error" := Str("too large")])));
      var es := Upload(s, [u], refresh).step.effects;
      es[1] == Toast(UploadRejected("x.txt", Str("too large"))) && es[2] == Send(ListDocuments)
  {
  }

  // ----------------------------------------------------------------- delete

  /** The delete reply reports success. */
  predicate DeleteConfirmed(reply: Reply) {
    reply.Parsed? && !Nullish(reply.body) && Truthy(OptionalGet(reply.body, "success"))
  }

  /** `handleDeleteDocument`: a delete request for the document's id; on a
      confirmed reply every entry with that id leaves the list and the others
      stay, otherwise the state is exactly as before. `loading` is never touched. */
  function Delete(s: State, doc: Document, reply: Reply): (r: Step)
    ensures r.state.loading == s.loading
    ensures |r.effects| == 2 && r.effects[0] == Send(DeleteDocument(doc.id))
    ensures DeleteConfirmed(reply) <==> r.effects[1] == Toast(Deleted(doc.name))
    ensures !DeleteConfirmed(reply) <==> r.effects[1] == Toast(DeleteFailed(doc.name))
    ensures DeleteConfirmed(reply) ==> forall i :: 0 <= i < |r.state.documents| ==> r.state.documents[i].id != doc.id
    ensures DeleteConfirmed(reply) ==> forall d :: d in s.documents && d.id != doc.id ==> d in r.state.documents
    ensures forall d :: d in r.state.documents ==> d in s.documents
    ensures !DeleteConfirmed(reply) ==> r.state == s
  {
    var sent := [Send(DeleteDocument(doc.id))];
    match reply
    case Threw => Step(s, sent + [Toast(DeleteFailed(doc.name))])
    case Parsed(result) =>
      match Get(result, "success")
      case Throw => Step(s, sent + [Toast(DeleteFailed(doc.name))])
      case Normal(success) =>
        if Truthy(success) then
          var kept := WithoutId(s.documents, doc.id);
          assert forall i :: 0 <= i < |kept| ==> kept[i] in kept;
          Step(s.(documents := kept), sent + [Toast(Deleted(doc.name))])
        else Step(s, sent + [Toast(DeleteFailed(doc.name))])
  }

  /** When the held ids are unique, a confirmed delete of a held document cuts
      out exactly that entry, keeps the others in order, and keeps the ids
      unique. */
  lemma ConfirmedDeleteSplices(s: State, doc: Document, reply: Reply, k: nat)
    requires UniqueIds(s.documents)
    requires k < |s.documents| && s.documents[k].id == doc.id
    requires DeleteConfirmed(reply)
    ensures Delete(s, doc, reply).state.documents == s.documents[..k] + s.documents[k + 1..]
    ensures UniqueIds(Delete(s, doc, reply).state.documents)
  {
    WithoutIdSplice(s.documents, doc.id, k);
    WithoutIdKeepsUnique(s.documents, doc.id);
  }

  /** Repeating a confirmed delete changes nothing more. */
  lemma DeleteTwiceIsDeleteOnce(s: State, doc: Document, reply: Reply)
    requires DeleteConfirmed(reply)
    ensures Delete(Delete(s, doc, reply).state, doc, reply).state == Delete(s, doc, reply).state
  {
    WithoutIdIdempotent(s.documents, doc.id);
  }

  // ------------------------------------------------------------------- view

  /** `handleViewDocument`: a notification naming the document and nothing else. */
  function View(s: State, doc: Document): (r: Step)
    ensures r.state == s
    ensures r.effects == [Toast(Viewing(doc.name))]
  {
    Step(s, [Toast(Viewing(doc.name))])
  }

  // ---------------------------------------------------------------- session

  /** A user action together with the replies it will receive. */
  datatype Action =
    | RefreshAction(reply: Reply)
    | UploadAction(uploads: seq<PendingUpload>, refresh: Reply)
    | DeleteAction(doc: Document, reply: Reply)
    | ViewAction(doc: Document)

  function Apply(s: State, a: Action): Step {
    match a
    case RefreshAction(reply) => Refresh(s, reply)
    case UploadAction(uploads, refresh) => Upload(s, uploads, refresh).step
    case DeleteAction(doc, reply) => Delete(s, doc, reply)
    case ViewAction(doc) => View(s, doc)
  }

  /** The state after the actions, each run to completion in turn. */
  function Run(s: State, actions: seq<Action>): State
    decreases |actions|
  {
    if actions == [] then s else Run(Apply(s, actions[0]).state, actions[1..])
  }

  /** Once idle, the view stays idle between handlers: no completed action
      leaves `loading` set. */
  lemma {:induction false} RunStaysIdle(s: State, actions: seq<Action>)
    requires !s.loading
    ensures !Run(s, actions).loading
    decreases |actions|
  {
    if actions != [] {
      RunStaysIdle(Apply(s, actions[0]).state, actions[1..]);
    }
  }

  /** After the mount refresh, whatever its outcome, and any actions after it,
      the view is not loading. */
  lemma IdleAfterMount(reply: Reply, actions: seq<Action>)
    ensures !Run(Mount(reply).state, actions).loading
  {
    RunStaysIdle(Mount(reply).state, actions);
  }
}
