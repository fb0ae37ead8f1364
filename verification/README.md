# Document-list synchroniser of the documents view, in Dafny

The documents view of the RAG front end (`DocumentsView`) holds a list of
document summaries and a `loading` flag, and keeps the list in step with a
remote backend through four handlers: `fetchDocuments` (refresh),
`handleUpload`, `handleDeleteDocument` and `handleViewDocument`. This
project models that state and those handlers as pure functions.

- `Options` (`options.dfy`): the optional value used by the modules below.
- `Decimal` (`decimal.dfy`): how an integer prints (`Number.prototype.toString`
  for integers in the safe range) and the reading back of that text.
- `JsValues` (`js_values.dfy`): the values a parsed JSON body can hold plus
  `undefined`, JavaScript truthiness, the `||` operator, property reads with
  `.` (throws on `null`/`undefined`) and `?.` (yields `undefined`), and
  string conversion. A throw is the `Throw` case of `Completion`.
- `Documents` (`documents.dfy`): the document summary, the decoding of one
  backend record and of the whole listing body, and the by-id filter a
  confirmed delete applies.
- `Synchronizer` (`synchronizer.dfy`): the state `(documents, loading)`, the
  four handlers, and a session of handlers run one after another.

A network exchange (`fetch` followed by `response.json()`) is an input
`Reply`: `Threw` for a network failure or an unparseable body, `Parsed(body)`
otherwise. What a handler does to the outside world is an output sequence of
`Effect`s: a request sent (`Send`) or a notification shown (`Toast`).

Behaviour of the code that is easy to miss:

- A listing body with a falsy `success` leaves the list alone *silently*; only
  a throw produces the "failed to load" notification (`SilentApiFailure`).
- An upload rejected without a truthy `error` shows `result.message`, which may
  be `undefined`; there is no generic fallback text (`SettleUpload`).
- `{success: true, documents: []}` empties the list, because an empty array is
  truthy (`EmptyListingClears`).
- One record without a usable `id` (or a `documents` field that is truthy but
  not an array, or a `null` body) makes `map`/property access throw, so the
  whole refresh fails and nothing of the listing is taken
  (`OneBadRecordSpoilsListing`, `Documents.DecodeListing`).
- The held ids are unique only as far as the backend makes them so: a refresh
  takes whatever ids it receives. Pairwise different numeric ids do decode to
  unique ids (`Documents.DistinctNumericIdsDecodeUnique`), and a confirmed
  delete keeps unique ids unique (`Documents.WithoutIdKeepsUnique`). A numeric
  id `1` and a string id `"1"` both decode to `"1"`.

## Model

| member | source | states |
|---|---|---|
| Decimal.NatToDecimalRoundTrip | src/components/documents/DocumentsView.tsx:23 | the digits of a natural number are non-empty, all digits, free of leading zeros, and read back to the number |
| Decimal.IntToDecimalRoundTrip | src/components/documents/DocumentsView.tsx:23 | reading back the printed form of any integer, sign included, gives the integer |
| Decimal.IntToDecimalInjective | src/components/documents/DocumentsView.tsx:23 | two different integers never print to the same id text |
| JsValues.Or | src/components/documents/DocumentsView.tsx:24-25 | `a \|\| b` is the left operand when that is truthy and the right operand otherwise, so it is truthy exactly when either operand is |
| JsValues.OptionalGet | src/components/documents/DocumentsView.tsx:24-27 | `v?.key` is the field's value when `v` is an object holding `key`, and `undefined` otherwise |
| JsValues.ToStr | src/components/documents/DocumentsView.tsx:23-24 | `String(v)`: a string is itself, a number's text reads back to the number, booleans give `true`/`false`, `null`/`undefined` their names, an object `[object Object]` |
| JsValues.ArrayTextJoins | src/components/documents/DocumentsView.tsx:23-24 | an array's text is empty for `[]`, the element's text for one element, and grows by a comma and the new element's text (empty for `null`/`undefined`) per element appended, which fixes the text of every array |
| JsValues.JoinPrefixOfExtension | src/components/documents/DocumentsView.tsx:23-24 | joining the first k elements of an array does not depend on the elements after them |
| JsValues.Get | src/components/documents/DocumentsView.tsx:23 | a plain property read throws exactly on a `null`/`undefined` base, and otherwise agrees with `?.` |
| JsValues.ToStringCall | src/components/documents/DocumentsView.tsx:23 | `toString()` throws exactly on a `null`/`undefined` receiver and otherwise returns `String(v)` |
| JsValues.NumberTextRoundTrip | src/components/documents/DocumentsView.tsx:23 | a number id stringifies to its decimal text, which reads back to the number |
| Documents.DecodeRecord | src/components/documents/DocumentsView.tsx:22-29 | a record decodes exactly when it is an object with a non-null id; the id is the id's string form; the name is a truthy filename, else a truthy title, else `Document <id>`; the type is a truthy file_type, else `unknown`; the date argument is a truthy created_at, else metadata.upload_date; size 0, status embedded |
| Documents.DecodeRecords | src/components/documents/DocumentsView.tsx:22-29 | the map succeeds exactly when every record decodes, and then has the same length with element i the decoding of record i |
| Documents.DecodeListing | src/components/documents/DocumentsView.tsx:18-33 | the listing throws exactly for a nullish body, or, when `success` and `documents` are both truthy, for a non-array `documents` or an undecodable record; it leaves the list alone exactly when `success && documents` is falsy; otherwise it yields the records decoded in order |
| Documents.NumericIdText | src/components/documents/DocumentsView.tsx:23 | a numeric id decodes to its decimal text, which reads back to the number |
| Documents.FalsyMetaIsAbsent | src/components/documents/DocumentsView.tsx:24-25 | an empty string (or any falsy value) in filename, title or file_type decodes the same as the field being absent |
| Documents.DistinctNumericIdsDecodeUnique | src/components/documents/DocumentsView.tsx:22-23 | records with pairwise different numeric ids decode to a list whose ids are unique |
| Documents.WithoutId | src/components/documents/DocumentsView.tsx:92 | the filter keeps exactly the elements whose id differs, and never grows the list |
| Documents.WithoutIdAppend | src/components/documents/DocumentsView.tsx:92 | filtering distributes over concatenation, so kept elements keep their relative order |
| Documents.WithoutIdAbsent | src/components/documents/DocumentsView.tsx:92 | filtering by an id nobody has returns the list unchanged |
| Documents.WithoutIdIdempotent | src/components/documents/DocumentsView.tsx:92 | filtering twice by one id is filtering once |
| Documents.WithoutIdKeepsUnique | src/components/documents/DocumentsView.tsx:92 | filtering keeps unique ids unique |
| Documents.WithoutIdSplice | src/components/documents/DocumentsView.tsx:92 | with unique ids, removing the id of element k gives the list with exactly element k cut out |
| Synchronizer.Refresh | src/components/documents/DocumentsView.tsx:14-39 | one listing request; the list becomes the decoded listing exactly when the body passes the guard and decodes, and is kept otherwise; a failure notification exactly when something threw; `loading` false on every exit |
| Synchronizer.LoadingOnlyInFlight | src/components/documents/DocumentsView.tsx:16-37 | `loading` is on, with the list untouched, while the listing request is out, and off after the reply whatever it was |
| Synchronizer.SilentApiFailure | src/components/documents/DocumentsView.tsx:20 | a body reporting failure changes nothing but `loading` and shows nothing |
| Synchronizer.EmptyListingClears | src/components/documents/DocumentsView.tsx:20-31 | a successful listing with an empty array empties the list |
| Synchronizer.OneBadRecordSpoilsListing | src/components/documents/DocumentsView.tsx:22-37 | one record without a usable id makes the refresh keep the old list and notify the failure |
| Synchronizer.SingleRecordListing | src/components/documents/DocumentsView.tsx:22-31 | the one-record listing with numeric id 1 and filename `a.pdf` yields the single summary `("1", "a.pdf", "unknown", 0, embedded)` |
| Synchronizer.SettleUpload | src/components/documents/DocumentsView.tsx:51-70 | a per-file upload never throws; it resolves true exactly when the body reports success; its notification names the file; a rejection carries `error` when truthy, else `message`; a throw gets its own notification |
| Synchronizer.Upload | src/components/documents/DocumentsView.tsx:45-77 | one upload request per file titled with the file name, one settled value and one notification per file in file order, then the refresh's effects; the list is what that refresh leaves |
| Synchronizer.UploadRefreshesOnce | src/components/documents/DocumentsView.tsx:73-76 | an upload sends exactly one listing request, after all per-file notifications, whatever the outcomes |
| Synchronizer.UploadOutcomesDoNotMatter | src/components/documents/DocumentsView.tsx:45-77 | the upload outcomes never reach the list: equal refresh replies give equal states |
| Synchronizer.RejectedUploadStillRefreshes | src/components/documents/DocumentsView.tsx:59-76 | an upload of `x.txt` rejected with `too large` is notified with both, and the refresh follows |
| Synchronizer.Delete | src/components/documents/DocumentsView.tsx:83-101 | one delete request for the id; on a confirmed reply no entry with the id remains and every other entry stays; otherwise the state is unchanged; `loading` never changes; the notification says which |
| Synchronizer.ConfirmedDeleteSplices | src/components/documents/DocumentsView.tsx:91-92 | with unique ids, a confirmed delete cuts out exactly the held entry, keeps the others in order and keeps ids unique |
| Synchronizer.DeleteTwiceIsDeleteOnce | src/components/documents/DocumentsView.tsx:91-92 | repeating a confirmed delete changes nothing more |
| Synchronizer.View | src/components/documents/DocumentsView.tsx:79-81 | viewing shows one notification naming the document and leaves the state, `loading` included, unchanged |
| Synchronizer.RunStaysIdle | src/components/documents/DocumentsView.tsx:14-101 | once `loading` is off, no sequence of completed handlers leaves it on |
| Synchronizer.IdleAfterMount | src/components/documents/DocumentsView.tsx:10-43 | after the mount refresh, whatever its reply, and any handlers after it, the view is not loading |

## Left out

- `fetch`, HTTP methods and URLs, `FormData`, `response.json()` and the
  `API_URL` default: I/O, replaced by the `Reply` input and the `Request` effect.
- Parsing of `uploadedAt` by `new Date(...)`: host date parsing; the model keeps
  the argument handed to it (`DateArg`).
- Console logging and the exact wording of notifications: only which
  notification, about which file or document, is modelled.
- React hooks, `useEffect` scheduling and all rendering, including the loading
  screen: UI.
- Concurrency: overlapping refreshes and the completion order of concurrent
  uploads. Handlers run one after another, and per-file upload notifications
  are listed in file order.
- Non-integer numbers and integers beyond `Number.MAX_SAFE_INTEGER`: floating
  point; JSON numbers are modelled as safe integers.
- Built-in properties of JavaScript values (`length`, `toString` and the like)
  as property reads, and objects whose JSON carries its own `toString` key: none
  of the keys the view reads is built in.
- `handleUpload` does not await its final refresh; the model runs that refresh
  to completion as part of the upload.
- src/components/meetings/MeetingsView.tsx: a static placeholder screen with no logic.
