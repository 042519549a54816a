/** The `medical_record_embeddings` table and the two writers of it: the
    single-record upsert and the batch backfill over every summarised
    record.

    The embedding provider is a parameter: `embed` turns one text into a
    vector and `embedMany` turns a list of texts into a list of vectors;
    `None` stands for the provider call throwing. Vectors are sequences of
    integers standing in for the float32 values; the binary layout of the
    stored blob is not modelled. */
module Embeddings {
  import opened Common
  import opened Schema

  type Vector = seq<int>

  /** A row of the embeddings table. `recordId` is the conflict target of
      every write, so it is unique. */
  datatype EmbeddingRow = EmbeddingRow(id: string, recordId: RecordId, vector: Vector, dimension: nat)

  type Store = seq<EmbeddingRow>

  /** A provider call failed, or the batch provider returned fewer vectors
      than texts and the write loop hit the missing one at `index`. */
  datatype EmbedError = ProviderFailed | MissingEmbedding(index: nat)

  /** The row id every write uses. */
  function EmbeddingId(recordId: RecordId): string {
    "emb_" + recordId
  }

  function RowRecordKey(e: EmbeddingRow): RecordId { e.recordId }
  function RowIdKey(e: EmbeddingRow): string { e.id }

  /** The row a writer produces for `recordId` and `v`. */
  function RowFor(recordId: RecordId, v: Vector): EmbeddingRow {
    EmbeddingRow(EmbeddingId(recordId), recordId, v, |v|)
  }

  /** The table's invariant: one row per record, each row's id derived from
      its record id, and each row's dimension the length of its vector. */
  ghost predicate WellFormed(store: Store) {
    && Distinct(store, RowRecordKey)
    && forall i :: 0 <= i < |store| ==> store[i] == RowFor(store[i].recordId, store[i].vector)
  }

  /** Distinct record ids give distinct row ids: the prefix is fixed. */
  lemma EmbeddingIdInjective(a: RecordId, b: RecordId)
    ensures EmbeddingId(a) == EmbeddingId(b) ==> a == b
  {
    if EmbeddingId(a) == EmbeddingId(b) {
      assert a == EmbeddingId(a)[4..] && b == EmbeddingId(b)[4..];
    }
  }

  /** In a well-formed table the `id` column is unique as well. */
  lemma WellFormedIdsDistinct(store: Store)
    requires WellFormed(store)
    ensures Distinct(store, RowIdKey)
  {
    forall i, j | 0 <= i < j < |store|
      ensures store[i].id != store[j].id
    {
      EmbeddingIdInjective(store[i].recordId, store[j].recordId);
    }
  }

  /** The row holding the embedding of `recordId`, if there is one. */
  function Find(store: Store, recordId: RecordId): (r: Option<EmbeddingRow>)
    ensures r.Some? ==> r.value in store && r.value.recordId == recordId
    ensures r.None? <==> !HasKey(store, RowRecordKey, recordId)
  {
    if store == [] then None
    else if store[0].recordId == recordId then Some(store[0])
    else
      var r := Find(store[1..], recordId);
      assert r.None? ==> !HasKey(store, RowRecordKey, recordId) by {
        if r.None? {
          forall i | 0 <= i < |store|
            ensures store[i].recordId != recordId
          {
            if i > 0 { assert store[i] == store[1..][i - 1]; }
          }
        }
      }
      r
  }

  /** How many rows hold an embedding of `recordId`. */
  function Count(store: Store, recordId: RecordId): (n: nat)
    ensures n == 0 <==> !HasKey(store, RowRecordKey, recordId)
  {
    if store == [] then 0
    else
      var n := Count(store[1..], recordId);
      HasKeyCons(store, RowRecordKey, recordId);
      (if store[0].recordId == recordId then 1 else 0) + n
  }

  /** An insert that, on a clash of record ids, updates the vector and the
      dimension instead: the first row of `recordId` is rewritten in place,
      keeping its `id`, or a new row is appended. No other row changes. */
  function Upsert(store: Store, recordId: RecordId, v: Vector): (r: Store)
    ensures |r| == if HasKey(store, RowRecordKey, recordId) then |store| else |store| + 1
    ensures forall j :: 0 <= j < |store| ==> r[j].recordId == store[j].recordId
    ensures forall j :: 0 <= j < |store| && store[j].recordId != recordId ==> r[j] == store[j]
    ensures |r| > |store| ==> r[|store|] == RowFor(recordId, v)
    ensures forall j :: 0 <= j < |store| && store[j].recordId == recordId &&
                        (forall k :: 0 <= k < j ==> store[k].recordId != recordId) ==>
              r[j] == store[j].(vector := v, dimension := |v|)
  {
    if store == [] then [RowFor(recordId, v)]
    else if store[0].recordId == recordId then
      [store[0].(vector := v, dimension := |v|)] + store[1..]
    else
      HasKeyCons(store, RowRecordKey, recordId);
      var rest := Upsert(store[1..], recordId, v);
      UpsertFirstStep(store, recordId, v, rest);
      [store[0]] + rest
  }

  /** Putting back a row of another record in front keeps "the first row of
      `recordId` holds `v`" true, one index further on. */
  lemma UpsertFirstStep(store: Store, recordId: RecordId, v: Vector, rest: Store)
    requires store != [] && store[0].recordId != recordId
    requires |rest| >= |store| - 1
    requires forall j :: 0 <= j < |store[1..]| && store[1..][j].recordId == recordId &&
                         (forall k :: 0 <= k < j ==> store[1..][k].recordId != recordId) ==>
               rest[j] == store[1..][j].(vector := v, dimension := |v|)
    ensures forall j :: 0 <= j < |store| && store[j].recordId == recordId &&
                        (forall k :: 0 <= k < j ==> store[k].recordId != recordId) ==>
              ([store[0]] + rest)[j] == store[j].(vector := v, dimension := |v|)
  {
    forall j | 0 <= j < |store| && store[j].recordId == recordId &&
               (forall k :: 0 <= k < j ==> store[k].recordId != recordId)
      ensures ([store[0]] + rest)[j] == store[j].(vector := v, dimension := |v|)
    {
      assert j > 0;
      forall k | 0 <= k < j - 1
        ensures store[1..][k].recordId != recordId
      {
        assert store[1..][k] == store[k + 1];
      }
      assert store[1..][j - 1] == store[j];
    }
  }

  /** The table invariant survives an upsert. */
  lemma UpsertWellFormed(store: Store, recordId: RecordId, v: Vector)
    requires WellFormed(store)
    ensures WellFormed(Upsert(store, recordId, v))
  {
    var r := Upsert(store, recordId, v);
    forall i, j | 0 <= i < j < |r|
      ensures r[i].recordId != r[j].recordId
    {
      if j == |store| {
        assert store[i].recordId != recordId;
      }
    }
    forall i | 0 <= i < |r|
      ensures r[i] == RowFor(r[i].recordId, r[i].vector)
    {
      if i < |store| && store[i].recordId == recordId {
        assert forall k :: 0 <= k < i ==> store[k].recordId != recordId;
      }
    }
  }

  /** After an upsert the record's row holds the new vector, and every
      other record's lookup is as before. */
  lemma {:induction false} UpsertFind(store: Store, recordId: RecordId, v: Vector)
    requires WellFormed(store)
    ensures Find(Upsert(store, recordId, v), recordId) == Some(RowFor(recordId, v))
    ensures forall k :: k != recordId ==> Find(Upsert(store, recordId, v), k) == Find(store, k)
  {
    if store != [] && store[0].recordId != recordId {
      WellFormedTail(store);
      UpsertFind(store[1..], recordId, v);
      assert Upsert(store, recordId, v)[1..] == Upsert(store[1..], recordId, v);
    } else if store != [] {
      assert Upsert(store, recordId, v)[1..] == store[1..];
      assert store[0] == RowFor(recordId, store[0].vector);
    }
  }

  /** Dropping the first row keeps the table invariant. */
  lemma WellFormedTail(store: Store)
    requires store != [] && WellFormed(store)
    ensures WellFormed(store[1..])
  {
    forall i, j | 0 <= i < j < |store[1..]|
      ensures store[1..][i].recordId != store[1..][j].recordId
    {
      assert store[1..][i] == store[i + 1] && store[1..][j] == store[j + 1];
    }
  }

  /** A table with one row per record holds exactly one row for any record
      it has an embedding for. */
  lemma {:induction false} CountAtMostOne(store: Store, recordId: RecordId)
    requires Distinct(store, RowRecordKey)
    ensures Count(store, recordId) <= 1
  {
    if store != [] {
      assert Distinct(store[1..], RowRecordKey) by {
        forall i, j | 0 <= i < j < |store[1..]|
          ensures store[1..][i].recordId != store[1..][j].recordId
        {
          assert store[1..][i] == store[i + 1] && store[1..][j] == store[j + 1];
        }
      }
      CountAtMostOne(store[1..], recordId);
      if store[0].recordId == recordId {
        forall i | 0 <= i < |store[1..]|
          ensures store[1..][i].recordId != recordId
        {
          assert store[1..][i] == store[i + 1];
        }
      }
    }
  }

  /** After an upsert the table holds exactly one row for the record: the
      one the write produced. */
  lemma UpsertOneRow(store: Store, recordId: RecordId, v: Vector)
    requires WellFormed(store)
    ensures Count(Upsert(store, recordId, v), recordId) == 1
    ensures Find(Upsert(store, recordId, v), recordId) == Some(RowFor(recordId, v))
  {
    UpsertWellFormed(store, recordId, v);
    UpsertFind(store, recordId, v);
    CountAtMostOne(Upsert(store, recordId, v), recordId);
  }

  /** `storeMedicalRecordEmbedding`: embed the summary, then upsert. When
      the provider fails, nothing is written. */
  function StoreMedicalRecordEmbedding(
    store: Store, embed: string -> Option<Vector>, recordId: RecordId, summary: string
  ): (r: Result<Store, EmbedError>)
    ensures r.Err? <==> embed(summary).None?
    ensures r.Ok? && WellFormed(store) ==>
              && WellFormed(r.value)
              && Find(r.value, recordId) == Some(RowFor(recordId, embed(summary).value))
              && Count(r.value, recordId) == 1
    ensures r.Ok? && WellFormed(store) ==> forall k :: k != recordId ==> Find(r.value, k) == Find(store, k)
  {
    match embed(summary)
    case None => Err(ProviderFailed)
    case Some(v) =>
      var r := Upsert(store, recordId, v);
      assert WellFormed(store) ==>
               && WellFormed(r)
               && Find(r, recordId) == Some(RowFor(recordId, v))
               && Count(r, recordId) == 1
               && forall k :: k != recordId ==> Find(r, k) == Find(store, k)
      by {
        if WellFormed(store) {
          UpsertWellFormed(store, recordId, v);
          UpsertOneRow(store, recordId, v);
          UpsertFind(store, recordId, v);
        }
      }
      Ok(r)
  }

  /** Two writes for one record leave exactly what the second write alone
      would have left. */
  lemma {:induction false} UpsertTwice(store: Store, recordId: RecordId, v1: Vector, v2: Vector)
    ensures Upsert(Upsert(store, recordId, v1), recordId, v2) == Upsert(store, recordId, v2)
  {
    if store != [] && store[0].recordId != recordId {
      UpsertTwice(store[1..], recordId, v1, v2);
      var mid := Upsert(store, recordId, v1);
      assert mid[0] == store[0] && mid[1..] == Upsert(store[1..], recordId, v1);
    } else if store == [] {
      var mid := Upsert(store, recordId, v1);
      assert mid[1..] == [];
    } else {
      var mid := Upsert(store, recordId, v1);
      assert mid[1..] == store[1..];
    }
  }

  /** Rewriting a record's row with the vector it already holds changes
      nothing. */
  lemma {:induction false} UpsertSame(store: Store, recordId: RecordId, v: Vector)
    requires WellFormed(store)
    requires Find(store, recordId) == Some(RowFor(recordId, v))
    ensures Upsert(store, recordId, v) == store
  {
    if store[0].recordId != recordId {
      assert WellFormed(store[1..]) by {
        forall i, j | 0 <= i < j < |store[1..]|
          ensures store[1..][i].recordId != store[1..][j].recordId
        {
          assert store[1..][i] == store[i + 1] && store[1..][j] == store[j + 1];
        }
      }
      UpsertSame(store[1..], recordId, v);
      assert store == [store[0]] + store[1..];
    } else {
      assert store == [store[0]] + store[1..];
    }
  }

  /** The backfill selection: records whose summary is neither `NULL` nor
      the empty string. */
  predicate HasSummaryText(m: MedicalRecord) {
    m.summary.Some? && m.summary.value != ""
  }

  function SelectSummarised(records: seq<MedicalRecord>): (r: seq<MedicalRecord>)
    ensures forall i :: 0 <= i < |r| ==> HasSummaryText(r[i]) && r[i] in records
    ensures forall i :: 0 <= i < |records| && HasSummaryText(records[i]) ==> records[i] in r
    ensures Distinct(records, RecordKey) ==> Distinct(r, RecordKey)
  {
    assert Distinct(records, RecordKey) ==> Distinct(Filter(records, HasSummaryText), RecordKey) by {
      if Distinct(records, RecordKey) {
        FilterDistinct(records, HasSummaryText, RecordKey);
      }
    }
    Filter(records, HasSummaryText)
  }

  /** The texts handed to the batch provider, one per selected record. */
  function Summaries(selected: seq<MedicalRecord>): (r: seq<string>)
    ensures |r| == |selected|
    ensures forall i :: 0 <= i < |r| ==> selected[i].summary == Some(r[i]) || selected[i].summary.None?
  {
    seq(|selected|, i requires 0 <= i < |selected| => selected[i].summary.GetOr(""))
  }

  function Ids(selected: seq<MedicalRecord>): (r: seq<RecordId>)
    ensures |r| == |selected|
    ensures forall i :: 0 <= i < |r| ==> r[i] == selected[i].id
  {
    seq(|selected|, i requires 0 <= i < |selected| => selected[i].id)
  }

  /** The table after upserting `ids[i]` with `vs[i]` for each `i` in turn. */
  function UpsertAll(store: Store, ids: seq<RecordId>, vs: seq<Vector>): (r: Store)
    requires |ids| == |vs|
    ensures WellFormed(store) ==> WellFormed(r)
  {
    if ids == [] then store
    else
      var n := |ids| - 1;
      var mid := UpsertAll(store, ids[..n], vs[..n]);
      assert WellFormed(mid) ==> WellFormed(Upsert(mid, ids[n], vs[n])) by {
        if WellFormed(mid) { UpsertWellFormed(mid, ids[n], vs[n]); }
      }
      Upsert(mid, ids[n], vs[n])
  }

  /** After a batch of upserts for distinct records, each record's row holds
      its own vector. */
  lemma {:induction false} UpsertAllContents(store: Store, ids: seq<RecordId>, vs: seq<Vector>)
    requires |ids| == |vs|
    requires WellFormed(store)
    requires forall i, j :: 0 <= i < j < |ids| ==> ids[i] != ids[j]
    ensures forall i :: 0 <= i < |ids| ==> Find(UpsertAll(store, ids, vs), ids[i]) == Some(RowFor(ids[i], vs[i]))
  {
    if ids != [] {
      var n := |ids| - 1;
      UpsertAllContents(store, ids[..n], vs[..n]);
      UpsertAllLast(store, ids, vs);
      ContentsStep(UpsertAll(store, ids[..n], vs[..n]), UpsertAll(store, ids, vs), ids, vs, ids[..n], vs[..n]);
    }
  }

  /** The last upsert of a batch sets its own row and keeps every other
      record's row as the earlier upserts left it. */
  lemma UpsertAllLast(store: Store, ids: seq<RecordId>, vs: seq<Vector>)
    requires |ids| == |vs| > 0
    requires WellFormed(store)
    ensures var n := |ids| - 1;
            var r := UpsertAll(store, ids, vs);
            && Find(r, ids[n]) == Some(RowFor(ids[n], vs[n]))
            && forall k :: k != ids[n] ==> Find(r, k) == Find(UpsertAll(store, ids[..n], vs[..n]), k)
  {
    var n := |ids| - 1;
    UpsertFind(UpsertAll(store, ids[..n], vs[..n]), ids[n], vs[n]);
  }

  /** A last write that sets its own row and keeps every other record's
      keeps the rows the earlier writes set. */
  lemma ContentsStep(mid: Store, r: Store, ids: seq<RecordId>, vs: seq<Vector>, pre: seq<RecordId>, pvs: seq<Vector>)
    requires |ids| == |vs| > 0
    requires pre == ids[..|ids| - 1] && pvs == vs[..|ids| - 1]
    requires forall i, j :: 0 <= i < j < |ids| ==> ids[i] != ids[j]
    requires forall i :: 0 <= i < |pre| ==> Find(mid, pre[i]) == Some(RowFor(pre[i], pvs[i]))
    requires Find(r, ids[|ids| - 1]) == Some(RowFor(ids[|ids| - 1], vs[|ids| - 1]))
    requires forall k :: k != ids[|ids| - 1] ==> Find(r, k) == Find(mid, k)
    ensures forall i :: 0 <= i < |ids| ==> Find(r, ids[i]) == Some(RowFor(ids[i], vs[i]))
  {
    var n := |ids| - 1;
    forall i | 0 <= i < |ids|
      ensures Find(r, ids[i]) == Some(RowFor(ids[i], vs[i]))
    {
      if i < n {
        assert pre[i] == ids[i] && pvs[i] == vs[i];
        assert ids[i] != ids[n];
      }
    }
  }

  /** A batch of upserts leaves every record outside the batch untouched. */
  lemma {:induction false} UpsertAllFrame(store: Store, ids: seq<RecordId>, vs: seq<Vector>, k: RecordId)
    requires |ids| == |vs|
    requires WellFormed(store)
    requires k !in ids
    ensures Find(UpsertAll(store, ids, vs), k) == Find(store, k)
  {
    if ids != [] {
      var n := |ids| - 1;
      var pre, pvs := ids[..n], vs[..n];
      UpsertAllFrame(store, pre, pvs, k);
      var mid := UpsertAll(store, pre, pvs);
      UpsertFind(mid, ids[n], vs[n]);
      assert ids[n] != k;
    }
  }

  /** Upserting vectors the table already holds changes nothing. */
  lemma {:induction false} UpsertAllStable(store: Store, ids: seq<RecordId>, vs: seq<Vector>)
    requires |ids| == |vs|
    requires WellFormed(store)
    requires forall i :: 0 <= i < |ids| ==> Find(store, ids[i]) == Some(RowFor(ids[i], vs[i]))
    ensures UpsertAll(store, ids, vs) == store
  {
    if ids != [] {
      var n := |ids| - 1;
      forall i | 0 <= i < n
        ensures Find(store, ids[..n][i]) == Some(RowFor(ids[..n][i], vs[..n][i]))
      {
        assert ids[..n][i] == ids[i] && vs[..n][i] == vs[i];
      }
      UpsertAllStable(store, ids[..n], vs[..n]);
      UpsertSame(store, ids[n], vs[n]);
    }
  }

  /** Re-running the backfill with no change to the records, and a provider
      that answers the same texts with the same vectors, leaves the table as
      the first run left it. */
  lemma BackfillConverges(store: Store, ids: seq<RecordId>, vs: seq<Vector>)
    requires |ids| == |vs|
    requires WellFormed(store)
    requires forall i, j :: 0 <= i < j < |ids| ==> ids[i] != ids[j]
    ensures UpsertAll(UpsertAll(store, ids, vs), ids, vs) == UpsertAll(store, ids, vs)
  {
    UpsertAllContents(store, ids, vs);
    assert WellFormed(UpsertAll(store, ids, vs));
    UpsertAllStable(UpsertAll(store, ids, vs), ids, vs);
  }

  /** The first `n` selected records' rows hold the first `n` vectors. */
  ghost predicate HoldsBatch(store: Store, selected: seq<MedicalRecord>, es: seq<Vector>, n: nat) {
    forall j :: 0 <= j < n && j < |selected| && j < |es| ==>
      Find(store, selected[j].id) == Some(RowFor(selected[j].id, es[j]))
  }

  /** One turn of the backfill loop writes the next row of the batch and
      keeps the rows already written. */
  lemma BackfillStep(cur: Store, selected: seq<MedicalRecord>, es: seq<Vector>, i: nat)
    requires Distinct(selected, RecordKey)
    requires i < |selected| && i < |es|
    requires WellFormed(cur)
    requires HoldsBatch(cur, selected, es, i)
    ensures HoldsBatch(Upsert(cur, selected[i].id, es[i]), selected, es, i + 1)
  {
    var next := Upsert(cur, selected[i].id, es[i]);
    UpsertFind(cur, selected[i].id, es[i]);
    forall j | 0 <= j < i + 1 && j < |selected| && j < |es|
      ensures Find(next, selected[j].id) == Some(RowFor(selected[j].id, es[j]))
    {
      if j < i {
        assert RecordKey(selected[j]) != RecordKey(selected[i]);
      }
    }
  }

  /** One turn of the backfill loop touches no record outside the batch. */
  lemma BackfillFrame(store: Store, cur: Store, ids: seq<RecordId>, vs: seq<Vector>, i: nat)
    requires i < |ids| && i < |vs|
    requires WellFormed(cur)
    requires forall k :: k !in ids ==> Find(cur, k) == Find(store, k)
    ensures forall k :: k !in ids ==> Find(Upsert(cur, ids[i], vs[i]), k) == Find(store, k)
  {
    UpsertFind(cur, ids[i], vs[i]);
  }

  /** `UpsertAll` over one more element is one more upsert. */
  lemma UpsertAllSnoc(store: Store, ids: seq<RecordId>, vs: seq<Vector>, i: nat)
    requires i < |ids| && i < |vs|
    ensures UpsertAll(store, ids[..i + 1], vs[..i + 1]) == Upsert(UpsertAll(store, ids[..i], vs[..i]), ids[i], vs[i])
  {
    assert ids[..i + 1][..i] == ids[..i] && vs[..i + 1][..i] == vs[..i];
  }

  /** The write loop of the backfill: upsert `selected[i]` with `es[i]` for
      each `i` in order. When `es` runs out first, the loop stops at index
      `|es|` with the earlier rows already written, and reports that index. */
  method WriteBatch(store: Store, selected: seq<MedicalRecord>, es: seq<Vector>)
    returns (store': Store, missing: Option<nat>)
    requires WellFormed(store)
    requires Distinct(selected, RecordKey)
    ensures WellFormed(store')
    ensures missing == if |es| < |selected| then Some(|es|) else None
    ensures HoldsBatch(store', selected, es, |selected|)
    ensures forall k :: k !in Ids(selected) ==> Find(store', k) == Find(store, k)
    ensures missing.None? ==> store' == UpsertAll(store, Ids(selected), es[..|selected|])
    ensures missing.Some? ==> store' == UpsertAll(store, Ids(selected)[..|es|], es)
    ensures missing.Some? ==> forall k :: k !in Ids(selected)[..|es|] ==> Find(store', k) == Find(store, k)
  {
    var ids := Ids(selected);
    store' := store;
    var i := 0;
    while i < |selected|
      invariant 0 <= i <= |selected|
      invariant i <= |es|
      invariant WellFormed(store')
      invariant HoldsBatch(store', selected, es, i)
      invariant forall k :: k !in ids ==> Find(store', k) == Find(store, k)
      invariant store' == UpsertAll(store, ids[..i], es[..i])
    {
      if i >= |es| {
        assert es[..i] == es;
        forall k | k !in ids[..i]
          ensures Find(store', k) == Find(store, k)
        {
          UpsertAllFrame(store, ids[..i], es, k);
        }
        return store', Some(i);
      }
      UpsertWellFormed(store', ids[i], es[i]);
      BackfillStep(store', selected, es, i);
      BackfillFrame(store, store', ids, es, i);
      UpsertAllSnoc(store, ids, es, i);
      store' := Upsert(store', ids[i], es[i]);
      i := i + 1;
    }
    assert ids[..i] == ids;
    missing := None;
  }

  /** `generateAllMedicalRecordEmbeddings`. Selects the summarised records,
      makes one batch provider call with their summaries, and upserts
      `selected[i]` with the `i`-th vector in order. Returns how many records
      were embedded.

      With nothing selected, nothing is written and the count is 0. A failed
      provider call writes nothing. If the provider returns fewer vectors
      than texts, the loop throws when it reaches the first missing vector,
      after the earlier rows were already written. */
  method GenerateAllMedicalRecordEmbeddings(
    records: seq<MedicalRecord>, store: Store, embedMany: seq<string> -> Option<seq<Vector>>
  ) returns (store': Store, result: Result<nat, EmbedError>)
    requires WellFormed(store)
    requires Distinct(records, RecordKey)
    ensures WellFormed(store')
    ensures var selected := SelectSummarised(records);
            var response := embedMany(Summaries(selected));
            && (selected == [] ==> result == Ok(0) && store' == store)
            && (selected != [] && response.None? ==> result == Err(ProviderFailed) && store' == store)
            && (result.Ok? ==> result.value == |selected|)
            && (selected != [] && response.Some? ==>
                  && HoldsBatch(store', selected, response.value, |selected|)
                  && (|response.value| < |selected| <==> result == Err(MissingEmbedding(|response.value|)))
                  && (|response.value| >= |selected| ==> result == Ok(|selected|))
                  && (result == Err(MissingEmbedding(|response.value|)) ==>
                        && store' == UpsertAll(store, Ids(selected)[..|response.value|], response.value)
                        && forall k :: k !in Ids(selected)[..|response.value|] ==> Find(store', k) == Find(store, k))
                  && (result.Ok? ==> store' == UpsertAll(store, Ids(selected), response.value[..|selected|])))
            && (result.Err? <==> selected != [] && (response.None? || |response.value| < |selected|))
            && (forall k :: k !in Ids(selected) ==> Find(store', k) == Find(store, k))
    ensures result.Ok? ==>
              forall i :: 0 <= i < |records| && HasSummaryText(records[i]) ==> Find(store', records[i].id).Some?
  {
    var selected := SelectSummarised(records);
    if |selected| == 0 {
      return store, Ok(0);
    }
    var response := embedMany(Summaries(selected));
    if response.None? {
      return store, Err(ProviderFailed);
    }
    var es := response.value;
    var missing;
    store', missing := WriteBatch(store, selected, es);
    if missing.Some? {
      return store', Err(MissingEmbedding(missing.value));
    }
    forall k | 0 <= k < |records| && HasSummaryText(records[k])
      ensures Find(store', records[k].id).Some?
    {
      var j :| 0 <= j < |selected| && selected[j] == records[k];
    }
    result := Ok(|selected|);
  }
}
