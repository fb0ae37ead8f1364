/**
 Document summaries and the decoding of the backend's listing payload into
 them (the `map` in `fetchDocuments`), plus the by-id filter that a
 confirmed delete applies to the held list.
 */
module Documents {
  import opened JsValues
  import opened Options
  import Decimal

  /** The only status the view ever assigns. */
  datatype Status = Embedded

  /** The value handed to `new Date(...)`; turning it into a date is host
      date parsing and is not modelled. */
  datatype DateArg = DateArg(raw: JsValue)

  /** A document summary as the view holds it. `name` and `fileType` come out
      of `||` chains over untyped metadata, so they are whatever value won. */
  datatype Document = Document(
    id: string,
    name: JsValue,
    fileType: JsValue,
    size: nat,
    uploadedAt: DateArg,
    status: Status)

  /** `doc.metadata?.key` for a record that is not nullish. */
  function MetaField(rec: JsValue, key: string): JsValue {
    OptionalGet(OptionalGet(rec, "metadata"), key)
  }

  /** A record whose `id` can be read and converted with `toString()`. */
  predicate Identified(rec: JsValue) {
    rec.Obj? && "id" in rec.fields && !Nullish(rec.fields["id"])
  }

  /** One raw record to one summary; throws exactly when the record is not
      `Identified`. The name is the first truthy of `filename` and `title`,
      else `Document <id>`; the type is a truthy `file_type`, else `unknown`. */
  function DecodeRecord(rec: JsValue): (r: Completion<Document>)
    ensures r.Normal? <==> Identified(rec)
    ensures r.Normal? ==> r.value.id == ToStr(rec.fields["id"])
    ensures r.Normal? ==> r.value.size == 0 && r.value.status == Embedded
    ensures r.Normal? && Truthy(MetaField(rec, "filename")) ==>
              r.value.name == MetaField(rec, "filename")
    ensures r.Normal? && !Truthy(MetaField(rec, "filename")) && Truthy(MetaField(rec, "title")) ==>
              r.value.name == MetaField(rec, "title")
    ensures r.Normal? && !Truthy(MetaField(rec, "filename")) && !Truthy(MetaField(rec, "title")) ==>
              r.value.name == Str("Document " + r.value.id)
    ensures r.Normal? ==>
              r.value.fileType == (if Truthy(MetaField(rec, "file_type")) then MetaField(rec, "file_type") else Str("unknown"))
    ensures r.Normal? ==> Truthy(r.value.name) && Truthy(r.value.fileType)
    ensures r.Normal? ==>
              r.value.uploadedAt.raw == (if Truthy(OptionalGet(rec, "created_at")) then OptionalGet(rec, "created_at")
                                         else MetaField(rec, "upload_date"))
  {
    match Get(rec, "id")
    case Throw => Throw
    case Normal(rawId) =>
      match ToStringCall(rawId)
      case Throw => Throw
      case Normal(id) =>
        var meta := OptionalGet(rec, "metadata");
        Normal(Document(
          id,
          Or(Or(OptionalGet(meta, "filename"), OptionalGet(meta, "title")), Str("Document " + ToStr(rawId))),
          Or(OptionalGet(meta, "file_type"), Str("unknown")),
          0,
          DateArg(Or(OptionalGet(rec, "created_at"), OptionalGet(meta, "upload_date"))),
          Embedded))
  }

  /** `records.map(decode)`: every record decoded in order, or a throw as soon
      as one record cannot be. */
  function DecodeRecords(recs: seq<JsValue>): (r: Completion<seq<Document>>)
    ensures r.Normal? <==> forall i :: 0 <= i < |recs| ==> Identified(recs[i])
    ensures r.Normal? ==> |r.value| == |recs|
    ensures r.Normal? ==> forall i :: 0 <= i < |recs| ==> DecodeRecord(recs[i]) == Normal(r.value[i])
  {
    if recs == [] then Normal([])
    else
      match DecodeRecord(recs[0])
      case Throw => Throw
      case Normal(d) =>
        match DecodeRecords(recs[1..])
        case Throw => Throw
        case Normal(ds) => Normal([d] + ds)
  }

  /** The records of a listing whose `documents` field is an array. */
  function ListedRecords(data: JsValue): seq<JsValue> {
    var docs := OptionalGet(data, "documents");
    if docs.Arr? then docs.elems else []
  }

  /** The guard `data.success && data.documents` holds (for a non-nullish `data`). */
  predicate ListingOffered(data: JsValue) {
    Truthy(OptionalGet(data, "success")) && Truthy(OptionalGet(data, "documents"))
  }

  /** The listing body makes `fetchDocuments` throw: `data` itself is nullish,
      or the guard holds but `documents` is not an array, or one of its records
      has no usable id. */
  predicate ListingThrows(data: JsValue) {
    || Nullish(data)
    || (ListingOffered(data) && !OptionalGet(data, "documents").Arr?)
    || (ListingOffered(data) && exists i :: 0 <= i < |ListedRecords(data)| && !Identified(ListedRecords(data)[i]))
  }

  /** The body of `fetchDocuments` after the response is parsed: `Normal(None)`
      leaves the held list alone, `Normal(Some(ds))` replaces it with `ds`,
      `Throw` ends in the `catch`. */
  function DecodeListing(data: JsValue): (r: Completion<Option<seq<Document>>>)
    ensures r.Throw? <==> ListingThrows(data)
    ensures r == Normal(None) <==> !Nullish(data) && !ListingOffered(data)
    ensures r.Normal? && r.value.Some? ==>
              && ListingOffered(data)
              && |r.value.value| == |ListedRecords(data)|
              && forall i :: 0 <= i < |ListedRecords(data)| ==>
                   DecodeRecord(ListedRecords(data)[i]) == Normal(r.value.value[i])
  {
    match Get(data, "success")
    case Throw => Throw
    case Normal(success) =>
      if !Truthy(success) then Normal(None)
      else
        var docs := OptionalGet(data, "documents");
        if !Truthy(docs) then Normal(None)
        else if !docs.Arr? then Throw
        else
          match DecodeRecords(docs.elems)
          case Throw =>
            assert ListedRecords(data) == docs.elems;
            Throw
          case Normal(ds) => Normal(Some(ds))
  }

  /** The decoded id of a record whose id is a number is that number's
      decimal text, and it reads back to the number. */
  lemma NumericIdText(rec: JsValue, n: SafeInt)
    requires rec.Obj? && "id" in rec.fields && rec.fields["id"] == Num(n)
    ensures DecodeRecord(rec).Normal?
    ensures DecodeRecord(rec).value.id == Decimal.IntToDecimal(n)
    ensures Decimal.ParseInt(DecodeRecord(rec).value.id) == Some(n as int)
  {
  }

  /** The record with `metadata[key]` set to `v`. */
  function WithMeta(rec: JsValue, key: string, v: JsValue): JsValue
    requires rec.Obj? && OptionalGet(rec, "metadata").Obj?
  {
    var meta := rec.fields["metadata"].fields;
    Obj(rec.fields["metadata" := Obj(meta[key := v])])
  }

  /** The record with `metadata[key]` removed. */
  function WithoutMeta(rec: JsValue, key: string): JsValue
    requires rec.Obj? && OptionalGet(rec, "metadata").Obj?
  {
    var meta := rec.fields["metadata"].fields;
    Obj(rec.fields["metadata" := Obj(meta - {key})])
  }

  /** An empty string in `filename`, `title` or `file_type` decodes exactly as
      if the field were absent (and so do `null`, `0` and `false`). */
  lemma FalsyMetaIsAbsent(rec: JsValue, key: string, v: JsValue)
    requires rec.Obj? && OptionalGet(rec, "metadata").Obj?
    requires key == "filename" || key == "title" || key == "file_type"
    requires !Truthy(v)
    ensures DecodeRecord(WithMeta(rec, key, v)) == DecodeRecord(WithoutMeta(rec, key))
  {
  }

  /** All ids of the list are different. */
  predicate UniqueIds(docs: seq<Document>) {
    forall i, j :: 0 <= i < j < |docs| ==> docs[i].id != docs[j].id
  }

  /** Every record is an object whose id is a number, and no two records share it. */
  predicate DistinctNumericIds(recs: seq<JsValue>) {
    && (forall i :: 0 <= i < |recs| ==> recs[i].Obj? && "id" in recs[i].fields && recs[i].fields["id"].Num?)
    && (forall i, j :: 0 <= i < j < |recs| ==> recs[i].fields["id"] != recs[j].fields["id"])
  }

  /** Records whose ids are pairwise different numbers decode to a list with
      unique ids: decimal text tells numbers apart. */
  lemma DistinctNumericIdsDecodeUnique(recs: seq<JsValue>)
    requires DistinctNumericIds(recs)
    ensures DecodeRecords(recs).Normal?
    ensures UniqueIds(DecodeRecords(recs).value)
  {
  }

  /** `prev.filter((d) => d.id !== id)`. */
  function WithoutId(docs: seq<Document>, id: string): (r: seq<Document>)
    ensures |r| <= |docs|
    ensures forall d: Document :: d in r <==> d in docs && d.id != id
  {
    if docs == [] then []
    else
      (if docs[0].id == id then [] else [docs[0]]) + WithoutId(docs[1..], id)
  }

  /** Filtering distributes over concatenation, so the kept elements stay in
      their original relative order. */
  lemma {:induction false} WithoutIdAppend(a: seq<Document>, b: seq<Document>, id: string)
    ensures WithoutId(a + b, id) == WithoutId(a, id) + WithoutId(b, id)
  {
    if a != [] {
      assert (a + b)[1..] == a[1..] + b;
      WithoutIdAppend(a[1..], b, id);
    } else {
      assert a + b == b;
    }
  }

  /** Nothing is removed when no element carries the id. */
  lemma {:induction false} WithoutIdAbsent(docs: seq<Document>, id: string)
    requires forall i :: 0 <= i < |docs| ==> docs[i].id != id
    ensures WithoutId(docs, id) == docs
  {
    if docs != [] {
      WithoutIdAbsent(docs[1..], id);
    }
  }

  /** Filtering twice by the same id is filtering once. */
  lemma WithoutIdIdempotent(docs: seq<Document>, id: string)
    ensures WithoutId(WithoutId(docs, id), id) == WithoutId(docs, id)
  {
    var r := WithoutId(docs, id);
    assert forall i :: 0 <= i < |r| ==> r[i] in r;
    WithoutIdAbsent(r, id);
  }

  /** Dropping the head of a list keeps its ids unique. */
  lemma TailUnique(docs: seq<Document>)
    requires docs != [] && UniqueIds(docs)
    ensures UniqueIds(docs[1..])
  {
  }

  /** A confirmed delete keeps the ids of the list unique. */
  lemma {:induction false} WithoutIdKeepsUnique(docs: seq<Document>, id: string)
    requires UniqueIds(docs)
    ensures UniqueIds(WithoutId(docs, id))
  {
    if docs != [] {
      var tail := docs[1..];
      TailUnique(docs);
      WithoutIdKeepsUnique(tail, id);
      var rt := WithoutId(tail, id);
      if docs[0].id != id {
        forall k | 0 <= k < |rt| ensures rt[k].id != docs[0].id {
          assert rt[k] in rt;
          var m :| 0 <= m < |tail| && tail[m] == rt[k];
          assert tail[m] == docs[m + 1];
        }
        var r := WithoutId(docs, id);
        assert r == [docs[0]] + rt;
        forall i, j | 0 <= i < j < |r| ensures r[i].id != r[j].id {
          assert r[j] == rt[j - 1];
          if i > 0 {
            assert r[i] == rt[i - 1];
          }
        }
      }
    }
  }

  /** In a list with unique ids, removing the id of element `k` cuts out
      exactly that element and leaves the rest as it was, in order. */
  lemma {:induction false} WithoutIdSplice(docs: seq<Document>, id: string, k: nat)
    requires UniqueIds(docs)
    requires k < |docs| && docs[k].id == id
    ensures WithoutId(docs, id) == docs[..k] + docs[k + 1..]
    ensures |WithoutId(docs, id)| == |docs| - 1
  {
    assert forall i :: 0 <= i < |docs| && i != k ==> docs[i].id != id by {
      forall i | 0 <= i < |docs| && i != k ensures docs[i].id != id {
        if i < k {
          assert docs[i].id != docs[k].id;
        } else {
          assert docs[k].id != docs[i].id;
        }
      }
    }
    SpliceAround(docs, id, k);
  }

  /** Removing an id that only element `k` carries cuts out element `k`. */
  lemma {:induction false} SpliceAround(docs: seq<Document>, id: string, k: nat)
    requires k < |docs| && docs[k].id == id
    requires forall i :: 0 <= i < |docs| && i != k ==> docs[i].id != id
    ensures WithoutId(docs, id) == docs[..k] + docs[k + 1..]
  {
    var pre, rest := docs[..k], docs[k..];
    assert docs == pre + rest;
    PrefixKept(docs, id, k);
    HeadDropped(docs, id, k);
    WithoutIdAppend(pre, rest, id);
  }

  /** A prefix free of the id is kept whole. */
  lemma PrefixKept(docs: seq<Document>, id: string, k: nat)
    requires k <= |docs|
    requires forall i :: 0 <= i < k ==> docs[i].id != id
    ensures WithoutId(docs[..k], id) == docs[..k]
  {
    var pre := docs[..k];
    forall i | 0 <= i < |pre| ensures pre[i].id != id {
      assert pre[i] == docs[i];
    }
    WithoutIdAbsent(pre, id);
  }

  /** A suffix whose head alone carries the id loses just its head. */
  lemma HeadDropped(docs: seq<Document>, id: string, k: nat)
    requires k < |docs| && docs[k].id == id
    requires forall i :: k < i < |docs| ==> docs[i].id != id
    ensures WithoutId(docs[k..], id) == docs[k + 1..]
  {
    var post := docs[k + 1..];
    forall i | 0 <= i < |post| ensures post[i].id != id {
      assert post[i] == docs[k + 1 + i];
    }
    WithoutIdAbsent(post, id);
    assert docs[k..][1..] == post;
  }
}
