/** The two ranking queries over the embeddings table:
    `semanticSearchMedicalRecords` (a text query, optionally restricted to
    one owner) and `findSimilarRecords` (the neighbours of a stored record).

    Both are brute force: inner-join every embedding row with its record,
    filter, score, order by similarity descending, and cut at `LIMIT`. The
    score `1 / (1 + L2)` decreases as the L2 distance grows, and L2 grows
    with its square, so ordering by similarity descending is ordering by
    squared distance ascending; the model ranks by the exact squared
    distance of the integer vectors. Among equal distances it keeps the
    embedding table's order. */
module VectorSearch {
  import opened Common
  import opened Schema
  import opened Embeddings
  import opened Sorting

  /** `limit` when the caller passes none. */
  const DEFAULT_LIMIT: int := 5

  datatype Candidate = Candidate(record: MedicalRecord, vector: Vector)

  /** A result row: the record and its squared distance to the query. */
  datatype Hit = Hit(record: MedicalRecord, distance: nat)

  datatype SearchError = QueryEmbeddingFailed | DimensionMismatch | NotFound

  function HitDistance(h: Hit): int { h.distance }

  /** Squared Euclidean distance; `vec_distance_L2` refuses vectors of
      different lengths, hence the precondition. */
  function SqDist(a: Vector, b: Vector): nat
    requires |a| == |b|
  {
    if a == [] then 0 else (a[0] - b[0]) * (a[0] - b[0]) + SqDist(a[1..], b[1..])
  }

  /** The distance is zero exactly for identical vectors. */
  lemma {:induction false} SqDistZeroIff(a: Vector, b: Vector)
    requires |a| == |b|
    ensures SqDist(a, b) == 0 <==> a == b
  {
    if a != [] {
      SqDistZeroIff(a[1..], b[1..]);
      SquareZeroIff(a[0] - b[0]);
      assert a == [a[0]] + a[1..] && b == [b[0]] + b[1..];
    }
  }

  lemma SquareZeroIff(d: int)
    ensures d * d >= 0
    ensures d * d == 0 <==> d == 0
  {
    if d > 0 {
      assert d * d >= d;
    } else if d < 0 {
      assert d * d == (-d) * (-d);
      assert (-d) * (-d) >= -d;
    }
  }

  /** The inner join of the embeddings table with the records table on the
      record id, keeping the pairs whose record passes `keep`, in
      embedding-table order. */
  function Join(store: Store, records: seq<MedicalRecord>, keep: MedicalRecord -> bool): (r: seq<Candidate>)
    ensures |r| <= |store|
    ensures forall i :: 0 <= i < |r| ==>
              && FindRecord(records, r[i].record.id) == Some(r[i].record)
              && keep(r[i].record)
              && HasKey(store, RowRecordKey, r[i].record.id)
    ensures WellFormed(store) ==>
              forall i :: 0 <= i < |r| ==> Find(store, r[i].record.id) == Some(RowFor(r[i].record.id, r[i].vector))
    ensures forall j :: 0 <= j < |store| && FindRecord(records, store[j].recordId).Some?
                        && keep(FindRecord(records, store[j].recordId).value) ==>
              Candidate(FindRecord(records, store[j].recordId).value, store[j].vector) in r
  {
    if store == [] then []
    else
      var rest := Join(store[1..], records, keep);
      var r := match FindRecord(records, store[0].recordId)
        case Some(m) => if keep(m) then [Candidate(m, store[0].vector)] + rest else rest
        case None => rest;
      assert WellFormed(store) ==> WellFormed(store[1..]) by { if WellFormed(store) { WellFormedTail(store); } }
      JoinStep(store, records, keep, rest, r);
      r
  }

  lemma JoinStep(store: Store, records: seq<MedicalRecord>, keep: MedicalRecord -> bool, rest: seq<Candidate>, r: seq<Candidate>)
    requires store != []
    requires forall i :: 0 <= i < |rest| ==> HasKey(store[1..], RowRecordKey, rest[i].record.id)
    requires WellFormed(store) ==>
               forall i :: 0 <= i < |rest| ==> Find(store[1..], rest[i].record.id) == Some(RowFor(rest[i].record.id, rest[i].vector))
    requires r == match FindRecord(records, store[0].recordId)
                   case Some(m) => if keep(m) then [Candidate(m, store[0].vector)] + rest else rest
                   case None => rest
    ensures forall i :: 0 <= i < |r| ==> HasKey(store, RowRecordKey, r[i].record.id)
    ensures WellFormed(store) ==>
              forall i :: 0 <= i < |r| ==> Find(store, r[i].record.id) == Some(RowFor(r[i].record.id, r[i].vector))
  {
    forall i | 0 <= i < |rest|
      ensures HasKey(store, RowRecordKey, rest[i].record.id)
    {
      HasKeyCons(store, RowRecordKey, rest[i].record.id);
    }
    if WellFormed(store) {
      forall i | 0 <= i < |rest|
        ensures Find(store, rest[i].record.id) == Some(RowFor(rest[i].record.id, rest[i].vector))
      {
        var f := Find(store[1..], rest[i].record.id);
        var j :| 0 <= j < |store[1..]| && store[1..][j] == f.value;
        assert store[j + 1] == f.value;
        assert store[0].recordId != rest[i].record.id;
      }
      assert store[0] == RowFor(store[0].recordId, store[0].vector);
    }
  }

  /** The embedding row `row` has a record, and that record passes `keep`. */
  predicate Joins(records: seq<MedicalRecord>, keep: MedicalRecord -> bool, row: EmbeddingRow) {
    FindRecord(records, row.recordId).Some? && keep(FindRecord(records, row.recordId).value)
  }

  /** The embedding rows the join keeps, in table order: a plain filter of
      the table, the reference `Join` is measured against. */
  function JoinedRows(store: Store, records: seq<MedicalRecord>, keep: MedicalRecord -> bool): (rows: seq<EmbeddingRow>)
    ensures forall i :: 0 <= i < |rows| ==> rows[i] in store && Joins(records, keep, rows[i])
    ensures forall j :: 0 <= j < |store| && Joins(records, keep, store[j]) ==> store[j] in rows
  {
    Filter(store, row => Joins(records, keep, row))
  }

  /** `Join` is the filter of the table followed by pairing each kept row
      with its record: one candidate per kept row, in the same order. */
  lemma {:induction false} JoinMatchesRows(store: Store, records: seq<MedicalRecord>, keep: MedicalRecord -> bool)
    ensures var rows := JoinedRows(store, records, keep);
            var r := Join(store, records, keep);
            && |r| == |rows|
            && forall i :: 0 <= i < |r| ==>
                 FindRecord(records, rows[i].recordId) == Some(r[i].record) && r[i].vector == rows[i].vector
  {
    if store != [] {
      JoinMatchesRows(store[1..], records, keep);
      var rows, rest := JoinedRows(store, records, keep), JoinedRows(store[1..], records, keep);
      var r, jr := Join(store, records, keep), Join(store[1..], records, keep);
      if Joins(records, keep, store[0]) {
        assert rows == [store[0]] + rest;
        assert r == [Candidate(FindRecord(records, store[0].recordId).value, store[0].vector)] + jr;
        forall i | 0 <= i < |r|
          ensures FindRecord(records, rows[i].recordId) == Some(r[i].record) && r[i].vector == rows[i].vector
        {
          if i > 0 {
            assert r[i] == jr[i - 1] && rows[i] == rest[i - 1];
          }
        }
      } else {
        assert rows == rest;
        assert r == jr;
      }
    }
  }

  /** Every candidate's vector has the query's length. */
  ghost predicate DimensionsAgree(cands: seq<Candidate>, q: Vector) {
    forall i :: 0 <= i < |cands| ==> |cands[i].vector| == |q|
  }

  /** Scores every candidate, or fails when one of them has a vector of a
      different length than the query. */
  function Score(cands: seq<Candidate>, q: Vector): (r: Result<seq<Hit>, SearchError>)
    ensures r.Ok? <==> DimensionsAgree(cands, q)
    ensures r.Err? ==> r.error == DimensionMismatch
    ensures r.Ok? ==> |r.value| == |cands|
    ensures r.Ok? ==> forall i :: 0 <= i < |cands| ==> r.value[i] == Hit(cands[i].record, SqDist(cands[i].vector, q))
  {
    if forall i :: 0 <= i < |cands| ==> |cands[i].vector| == |q| then
      Ok(seq(|cands|, i requires 0 <= i < |cands| && |cands[i].vector| == |q| => Hit(cands[i].record, SqDist(cands[i].vector, q))))
    else Err(DimensionMismatch)
  }

  /** Ordering by similarity, highest first, and the cut at the limit:
      closest first, `limit` of them (all of them when the limit is negative
      or exceeds their number), and nothing left out ranks closer than
      anything kept; something is left out only when the result is full. */
  function Rank(hits: seq<Hit>, limit: int): (r: seq<Hit>)
    ensures |r| == if limit < 0 || limit > |hits| then |hits| else limit
    ensures SortedBy(r, HitDistance)
    ensures multiset(r) <= multiset(hits)
    ensures forall h, c :: h in r && c in hits && c !in r ==> h.distance <= c.distance
    ensures forall c :: c in hits && c !in r ==> 0 <= limit < |hits| && |r| == limit
  {
    var sorted := SortBy(hits, HitDistance);
    TakeOfSorted(sorted, HitDistance, limit);
    var r := Take(sorted, limit);
    forall c | c in hits && c !in r
      ensures 0 <= limit < |hits| && |r| == limit
    {
      LeftOutMeansFull(hits, sorted, limit, c);
    }

    forall h, c | h in r && c in hits && c !in r
      ensures h.distance <= c.distance
    {
      assert c in multiset(sorted);
      assert c in multiset(sorted) - multiset(r);
    }
    r
  }

  /** Cutting a permutation of `hits` leaves an element of `hits` out only
      when the limit is below the number of hits. */
  lemma LeftOutMeansFull(hits: seq<Hit>, sorted: seq<Hit>, limit: int, c: Hit)
    requires multiset(sorted) == multiset(hits)
    requires c in hits && c !in Take(sorted, limit)
    ensures 0 <= limit < |hits| && |Take(sorted, limit)| == limit
  {
    assert |sorted| == |hits| by {
      assert |multiset(sorted)| == |multiset(hits)|;
    }
    assert c in multiset(sorted);
  }

  /** The owner filter applies only when a non-empty owner id is given. */
  predicate ScopeActive(userId: Option<UserId>) {
    userId.Some? && userId.value != ""
  }

  predicate InScope(userId: Option<UserId>, m: MedicalRecord) {
    !ScopeActive(userId) || m.userId == userId.value
  }

  /** The ranking both queries share once the query vector is known. */
  function RankCandidates(cands: seq<Candidate>, q: Vector, limit: int): (r: Result<seq<Hit>, SearchError>)
    ensures r.Ok? <==> DimensionsAgree(cands, q)
    ensures r.Err? ==> r.error == DimensionMismatch
    ensures r.Ok? ==> |r.value| == if limit < 0 || limit > |cands| then |cands| else limit
    ensures r.Ok? ==> SortedBy(r.value, HitDistance)
    ensures r.Ok? ==> multiset(r.value) <= multiset(Score(cands, q).value)
    ensures r.Ok? ==> forall h :: h in r.value ==> exists i :: 0 <= i < |cands| && h == Hit(cands[i].record, SqDist(cands[i].vector, q))
    ensures r.Ok? ==>
              forall i, h :: 0 <= i < |cands| && h in r.value && Hit(cands[i].record, SqDist(cands[i].vector, q)) !in r.value ==>
                h.distance <= SqDist(cands[i].vector, q)
    ensures r.Ok? ==>
              forall i :: 0 <= i < |cands| && Hit(cands[i].record, SqDist(cands[i].vector, q)) !in r.value ==>
                0 <= limit < |cands| && |r.value| == limit
  {
    match Score(cands, q)
    case Err(e) => Err(e)
    case Ok(hits) =>
      var r := Rank(hits, limit);
      forall h | h in r
        ensures exists i :: 0 <= i < |cands| && h == Hit(cands[i].record, SqDist(cands[i].vector, q))
      {
        assert h in multiset(hits);
        var i :| 0 <= i < |hits| && hits[i] == h;
      }
      forall i, h | 0 <= i < |cands| && h in r && Hit(cands[i].record, SqDist(cands[i].vector, q)) !in r
        ensures h.distance <= SqDist(cands[i].vector, q)
      {
        assert hits[i] in hits;
      }
      forall i | 0 <= i < |cands| && Hit(cands[i].record, SqDist(cands[i].vector, q)) !in r
        ensures 0 <= limit < |cands| && |r| == limit
      {
        assert hits[i] in hits;
      }
      Ok(r)
  }

  /** The hit a joined row contributes: its record, at its distance from `q`. */
  function RowHit(records: seq<MedicalRecord>, row: EmbeddingRow, q: Vector): Hit
    requires FindRecord(records, row.recordId).Some? && |row.vector| == |q|
  {
    Hit(FindRecord(records, row.recordId).value, SqDist(row.vector, q))
  }

  /** Every row of `rows` refers to an existing record. */
  ghost predicate RowsJoined(rows: seq<EmbeddingRow>, records: seq<MedicalRecord>) {
    forall i :: 0 <= i < |rows| ==> FindRecord(records, rows[i].recordId).Some?
  }

  /** The hits of `rows`, one per row, in table order. */
  function RowHits(records: seq<MedicalRecord>, rows: seq<EmbeddingRow>, q: Vector): (r: seq<Hit>)
    requires RowsJoined(rows, records)
    requires forall i :: 0 <= i < |rows| ==> |rows[i].vector| == |q|
    ensures |r| == |rows|
    ensures forall i :: 0 <= i < |rows| ==> r[i] == RowHit(records, rows[i], q)
  {
    if rows == [] then []
    else
      assert RowsJoined(rows[1..], records) by {
        forall i | 0 <= i < |rows[1..]|
          ensures FindRecord(records, rows[1..][i].recordId).Some?
        {
          assert rows[1..][i] == rows[i + 1];
        }
      }
      [RowHit(records, rows[0], q)] + RowHits(records, rows[1..], q)
  }

  /** `hits` is what a `LIMIT limit` ranking of `rows` against `q` may
      return: `limit` hits (every row when the limit is negative or exceeds
      their number), closest first, each the hit of some row; and a row
      whose hit is left out means the result is full and every hit is at
      least as close as that row. */
  ghost predicate RanksRows(hits: seq<Hit>, rows: seq<EmbeddingRow>, records: seq<MedicalRecord>, q: Vector, limit: int)
    requires RowsJoined(rows, records)
    requires forall i :: 0 <= i < |rows| ==> |rows[i].vector| == |q|
  {
    && |hits| == (if limit < 0 || limit > |rows| then |rows| else limit)
    && SortedBy(hits, HitDistance)
    && multiset(hits) <= multiset(RowHits(records, rows, q))
    && (forall h :: h in hits ==> exists i :: 0 <= i < |rows| && h == RowHit(records, rows[i], q))
    && (forall i :: 0 <= i < |rows| ==>
          RowHit(records, rows[i], q) in hits ||
          (|hits| == limit && forall h :: h in hits ==> h.distance <= RowHit(records, rows[i], q).distance))
  }

  /** The ranking of a join, stated against the joined rows: it fails
      exactly when a kept row's vector has another length than `q`, and
      otherwise ranks the kept rows. */
  lemma RankedJoin(store: Store, records: seq<MedicalRecord>, keep: MedicalRecord -> bool, q: Vector, limit: int)
    ensures RowsJoined(JoinedRows(store, records, keep), records)
    ensures var rows := JoinedRows(store, records, keep);
            var r := RankCandidates(Join(store, records, keep), q, limit);
            && (r.Ok? <==> forall i :: 0 <= i < |rows| ==> |rows[i].vector| == |q|)
            && (r.Ok? ==> RanksRows(r.value, rows, records, q, limit))
  {
    JoinMatchesRows(store, records, keep);
    RankedRows(Join(store, records, keep), JoinedRows(store, records, keep), records, q, limit);
  }

  /** `cands` pairs each of `rows` with its record, in the same order. */
  ghost predicate PairsRows(cands: seq<Candidate>, rows: seq<EmbeddingRow>, records: seq<MedicalRecord>) {
    && |cands| == |rows|
    && forall i :: 0 <= i < |cands| ==>
         FindRecord(records, rows[i].recordId) == Some(cands[i].record) && cands[i].vector == rows[i].vector
  }

  /** `RankCandidates`' guarantees, restated over the rows the candidates
      pair up with. */
  lemma RankedRows(cands: seq<Candidate>, rows: seq<EmbeddingRow>, records: seq<MedicalRecord>, q: Vector, limit: int)
    requires PairsRows(cands, rows, records)
    ensures RowsJoined(rows, records)
    ensures var r := RankCandidates(cands, q, limit);
            && (r.Ok? <==> forall i :: 0 <= i < |rows| ==> |rows[i].vector| == |q|)
            && (r.Ok? ==> RanksRows(r.value, rows, records, q, limit))
  {
    var r := RankCandidates(cands, q, limit);
    assert DimensionsAgree(cands, q) <==> forall i :: 0 <= i < |rows| ==> |rows[i].vector| == |q| by {
      if !DimensionsAgree(cands, q) {
        var i :| 0 <= i < |cands| && |cands[i].vector| != |q|;
        assert |rows[i].vector| != |q|;
      }
    }
    if r.Ok? {
      RankedRowsOk(cands, rows, records, q, limit, r.value);
    }
  }

  /** A successful ranking of the candidates ranks the paired rows. */
  lemma RankedRowsOk(cands: seq<Candidate>, rows: seq<EmbeddingRow>, records: seq<MedicalRecord>, q: Vector, limit: int, hits: seq<Hit>)
    requires PairsRows(cands, rows, records)
    requires RankCandidates(cands, q, limit) == Ok(hits)
    ensures RowsJoined(rows, records)
    ensures forall i :: 0 <= i < |rows| ==> |rows[i].vector| == |q|
    ensures RanksRows(hits, rows, records, q, limit)
  {
    HitsFromRows(cands, rows, records, q, limit, hits);
    RowsInHits(cands, rows, records, q, limit, hits);
    ScoreIsRowHits(cands, rows, records, q);
  }

  /** Scoring the candidates gives exactly the hits of the paired rows. */
  lemma ScoreIsRowHits(cands: seq<Candidate>, rows: seq<EmbeddingRow>, records: seq<MedicalRecord>, q: Vector)
    requires PairsRows(cands, rows, records)
    requires DimensionsAgree(cands, q)
    ensures RowsJoined(rows, records)
    ensures forall i :: 0 <= i < |rows| ==> |rows[i].vector| == |q|
    ensures Score(cands, q).value == RowHits(records, rows, q)
  {
    var a, b := Score(cands, q).value, RowHits(records, rows, q);
    forall i | 0 <= i < |a|
      ensures a[i] == b[i]
    {
      assert RowHit(records, rows[i], q) == Hit(cands[i].record, SqDist(cands[i].vector, q));
    }
  }

  /** Each ranked hit is the hit of one of the paired rows. */
  lemma HitsFromRows(cands: seq<Candidate>, rows: seq<EmbeddingRow>, records: seq<MedicalRecord>, q: Vector, limit: int, hits: seq<Hit>)
    requires PairsRows(cands, rows, records)
    requires RankCandidates(cands, q, limit) == Ok(hits)
    ensures forall i :: 0 <= i < |rows| ==> |rows[i].vector| == |q|
    ensures forall h :: h in hits ==> exists i :: 0 <= i < |rows| && h == RowHit(records, rows[i], q)
  {
    assert DimensionsAgree(cands, q);
    forall h | h in hits
      ensures exists i :: 0 <= i < |rows| && h == RowHit(records, rows[i], q)
    {
      var i :| 0 <= i < |cands| && h == Hit(cands[i].record, SqDist(cands[i].vector, q));
      assert RowHit(records, rows[i], q) == h;
    }
  }

  /** Each paired row's hit is ranked, or the ranking is full of hits at
      least as close. */
  lemma RowsInHits(cands: seq<Candidate>, rows: seq<EmbeddingRow>, records: seq<MedicalRecord>, q: Vector, limit: int, hits: seq<Hit>)
    requires PairsRows(cands, rows, records)
    requires RankCandidates(cands, q, limit) == Ok(hits)
    ensures forall i :: 0 <= i < |rows| ==> |rows[i].vector| == |q|
    ensures forall i :: 0 <= i < |rows| ==>
              RowHit(records, rows[i], q) in hits ||
              (|hits| == limit && forall h :: h in hits ==> h.distance <= RowHit(records, rows[i], q).distance)
  {
    assert DimensionsAgree(cands, q);
    forall i | 0 <= i < |rows|
      ensures RowHit(records, rows[i], q) in hits ||
              (|hits| == limit && forall h :: h in hits ==> h.distance <= RowHit(records, rows[i], q).distance)
    {
      assert RowHit(records, rows[i], q) == Hit(cands[i].record, SqDist(cands[i].vector, q));
    }
  }

  /** Each hit of a ranked join is an existing record that passes the
      filter and has a stored embedding; in a well-formed table that
      embedding has the query's length and gives the hit's distance. */
  lemma JoinHitsSound(records: seq<MedicalRecord>, store: Store, keep: MedicalRecord -> bool, q: Vector, limit: int)
    ensures var r := RankCandidates(Join(store, records, keep), q, limit);
            r.Ok? ==> forall h :: h in r.value ==>
              && FindRecord(records, h.record.id) == Some(h.record)
              && keep(h.record)
              && HasKey(store, RowRecordKey, h.record.id)
              && (WellFormed(store) ==>
                    && Find(store, h.record.id).Some?
                    && |Find(store, h.record.id).value.vector| == |q|
                    && h.distance == SqDist(Find(store, h.record.id).value.vector, q))
  {
    var cands := Join(store, records, keep);
    var r := RankCandidates(cands, q, limit);
    if r.Ok? {
      forall h | h in r.value
        ensures && FindRecord(records, h.record.id) == Some(h.record)
                && keep(h.record)
                && HasKey(store, RowRecordKey, h.record.id)
                && (WellFormed(store) ==>
                      && Find(store, h.record.id).Some?
                      && |Find(store, h.record.id).value.vector| == |q|
                      && h.distance == SqDist(Find(store, h.record.id).value.vector, q))
      {
        var i :| 0 <= i < |cands| && h == Hit(cands[i].record, SqDist(cands[i].vector, q));
      }
    }
  }

  /** In a ranking sorted by distance, a hit at distance 0 that is either
      returned or faces a full, non-empty result puts distance 0 first. */
  lemma ZeroFirst(hits: seq<Hit>, c: Hit, limit: int)
    requires SortedBy(hits, HitDistance) && c.distance == 0 && limit != 0
    requires c in hits || (|hits| == limit && forall h :: h in hits ==> h.distance <= c.distance)
    ensures |hits| > 0 && hits[0].distance == 0
  {
    if c in hits {
      var k :| 0 <= k < |hits| && hits[k] == c;
      assert k == 0 || HitDistance(hits[0]) <= HitDistance(hits[k]);
    } else {
      assert hits[0] in hits;
    }
  }

  /** The records of `userId` when the owner filter is active, else all. */
  function Scope(userId: Option<UserId>): MedicalRecord -> bool {
    m => InScope(userId, m)
  }

  /** Every record except `recordId`. */
  function Others(recordId: RecordId): MedicalRecord -> bool {
    (m: MedicalRecord) => m.id != recordId
  }

  /** `semanticSearchMedicalRecords(query, limit = 5, userId?)`: embed the
      query, then rank every embedded record (of `userId`, when given).
      Stated against the embedded records in scope: the search fails when
      the query cannot be embedded or when one of them has a vector of
      another length; otherwise it returns the `limit` closest of them
      (all of them for a negative limit), closest first, and a record in
      scope is left out only when the result is full of records at least
      as close. */
  function SemanticSearch(
    records: seq<MedicalRecord>, store: Store, embed: string -> Option<Vector>,
    query: string, limit: Option<int>, userId: Option<UserId>
  ): (r: Result<seq<Hit>, SearchError>)
    ensures embed(query).None? ==> r == Err(QueryEmbeddingFailed)
    ensures embed(query).Some? ==>
              var rows := JoinedRows(store, records, Scope(userId));
              var q := embed(query).value;
              var l := limit.GetOr(DEFAULT_LIMIT);
              && RowsJoined(rows, records)
              && (r.Ok? <==> forall i :: 0 <= i < |rows| ==> |rows[i].vector| == |q|)
              && (r.Err? ==> r.error == DimensionMismatch)
              && (r.Ok? ==> RanksRows(r.value, rows, records, q, l))
  {
    match embed(query)
    case None => Err(QueryEmbeddingFailed)
    case Some(q) =>
      RankedJoin(store, records, Scope(userId), q, limit.GetOr(DEFAULT_LIMIT));
      RankCandidates(Join(store, records, Scope(userId)), q, limit.GetOr(DEFAULT_LIMIT))
  }

  /** Every result is an existing record with a stored embedding, of the
      requested owner when one is given; there are at most `limit` of them
      (5 by default), closest first. */
  lemma SearchResultsSound(
    records: seq<MedicalRecord>, store: Store, embed: string -> Option<Vector>,
    query: string, limit: Option<int>, userId: Option<UserId>)
    ensures var r := SemanticSearch(records, store, embed, query, limit, userId);
            r.Ok? ==>
              && (limit.GetOr(DEFAULT_LIMIT) >= 0 ==> |r.value| <= limit.GetOr(DEFAULT_LIMIT))
              && (limit.None? ==> |r.value| <= 5)
              && SortedBy(r.value, HitDistance)
              && forall h :: h in r.value ==>
                   && FindRecord(records, h.record.id) == Some(h.record)
                   && HasKey(store, RowRecordKey, h.record.id)
                   && (ScopeActive(userId) ==> h.record.userId == userId.value)
                   && (WellFormed(store) ==>
                         && Find(store, h.record.id).Some?
                         && |Find(store, h.record.id).value.vector| == |embed(query).value|
                         && h.distance == SqDist(Find(store, h.record.id).value.vector, embed(query).value))
  {
    if embed(query).Some? {
      JoinHitsSound(records, store, Scope(userId), embed(query).value, limit.GetOr(DEFAULT_LIMIT));
    }
  }

  /** Nothing is overlooked: when the search succeeds, every embedded record
      in scope has the query's length and is either returned, or the result
      is full and every returned record is at least as close. Without an
      owner every embedded record is in scope. */
  lemma SearchIsTopK(
    records: seq<MedicalRecord>, store: Store, embed: string -> Option<Vector>,
    query: string, limit: Option<int>, userId: Option<UserId>, j: nat)
    requires j < |store|
    requires FindRecord(records, store[j].recordId).Some?
    requires InScope(userId, FindRecord(records, store[j].recordId).value)
    ensures var r := SemanticSearch(records, store, embed, query, limit, userId);
            r.Ok? ==>
              && |store[j].vector| == |embed(query).value|
              && var c := RowHit(records, store[j], embed(query).value);
                 c in r.value || (|r.value| == limit.GetOr(DEFAULT_LIMIT) && forall h :: h in r.value ==> h.distance <= c.distance)
  {
    if embed(query).Some? {
      var rows := JoinedRows(store, records, Scope(userId));
      assert Joins(records, Scope(userId), store[j]);
      var i :| 0 <= i < |rows| && rows[i] == store[j];
    }
  }

  /** A stored vector equal to the query has distance 0, so when the search
      succeeds its first result has distance 0 (similarity 1), and any
      result at distance 0 has exactly the query's vector. */
  lemma ExactMatchRanksFirst(
    records: seq<MedicalRecord>, store: Store, embed: string -> Option<Vector>,
    query: string, limit: Option<int>, userId: Option<UserId>, j: nat)
    requires WellFormed(store)
    requires limit.GetOr(DEFAULT_LIMIT) != 0
    requires j < |store| && embed(query).Some? && store[j].vector == embed(query).value
    requires FindRecord(records, store[j].recordId).Some?
    requires InScope(userId, FindRecord(records, store[j].recordId).value)
    ensures var r := SemanticSearch(records, store, embed, query, limit, userId);
            r.Ok? ==>
              && |r.value| > 0
              && r.value[0].distance == 0
              && forall h :: h in r.value && h.distance == 0 ==>
                   Find(store, h.record.id) == Some(RowFor(h.record.id, embed(query).value))
  {
    var q := embed(query).value;
    var r := SemanticSearch(records, store, embed, query, limit, userId);
    if r.Ok? {
      SqDistZeroIff(q, q);
      SearchIsTopK(records, store, embed, query, limit, userId, j);
      ZeroFirst(r.value, RowHit(records, store[j], q), limit.GetOr(DEFAULT_LIMIT));
      SearchResultsSound(records, store, embed, query, limit, userId);
      forall h | h in r.value && h.distance == 0
        ensures Find(store, h.record.id) == Some(RowFor(h.record.id, q))
      {
        SqDistZeroIff(Find(store, h.record.id).value.vector, q);
      }
    }
  }

  /** `findSimilarRecords(recordId, limit = 5)`: fails when the record has
      no embedding; otherwise ranks every other embedded record by its
      distance to that record's vector. Stated against the other embedded
      records: it fails when one of them has a vector of another length;
      otherwise it returns the `limit` closest of them, closest first, never
      the record itself. */
  function FindSimilarRecords(records: seq<MedicalRecord>, store: Store, recordId: RecordId, limit: Option<int>)
    : (r: Result<seq<Hit>, SearchError>)
    ensures r == Err(NotFound) <==> !HasKey(store, RowRecordKey, recordId)
    ensures r.Ok? || r == Err(NotFound) || r == Err(DimensionMismatch)
    ensures HasKey(store, RowRecordKey, recordId) ==>
              var rows := JoinedRows(store, records, Others(recordId));
              var q := Find(store, recordId).value.vector;
              var l := limit.GetOr(DEFAULT_LIMIT);
              && RowsJoined(rows, records)
              && (r.Ok? <==> forall i :: 0 <= i < |rows| ==> |rows[i].vector| == |q|)
              && (r.Ok? ==> RanksRows(r.value, rows, records, q, l))
    ensures r.Ok? ==> forall h :: h in r.value ==> h.record.id != recordId
    ensures r.Ok? ==> forall h :: h in r.value ==> FindRecord(records, h.record.id) == Some(h.record)
    ensures r.Ok? && WellFormed(store) ==>
              forall h :: h in r.value ==>
                && Find(store, h.record.id).Some?
                && |Find(store, h.record.id).value.vector| == |Find(store, recordId).value.vector|
                && h.distance == SqDist(Find(store, h.record.id).value.vector, Find(store, recordId).value.vector)
  {
    match Find(store, recordId)
    case None => Err(NotFound)
    case Some(row) =>
      var cands := Join(store, records, Others(recordId));
      var r := RankCandidates(cands, row.vector, limit.GetOr(DEFAULT_LIMIT));
      RankedJoin(store, records, Others(recordId), row.vector, limit.GetOr(DEFAULT_LIMIT));
      JoinHitsSound(records, store, Others(recordId), row.vector, limit.GetOr(DEFAULT_LIMIT));
      r
  }

  /** `findSimilarRecords` overlooks nothing either: when it succeeds, every
      other embedded record has the target's length and is either returned,
      or the result is full and every returned record is at least as close. */
  lemma FindSimilarIsTopK(records: seq<MedicalRecord>, store: Store, recordId: RecordId, limit: Option<int>, j: nat)
    requires j < |store|
    requires FindRecord(records, store[j].recordId).Some?
    requires store[j].recordId != recordId
    ensures var r := FindSimilarRecords(records, store, recordId, limit);
            r.Ok? ==>
              && Find(store, recordId).Some?
              && |store[j].vector| == |Find(store, recordId).value.vector|
              && var c := RowHit(records, store[j], Find(store, recordId).value.vector);
                 c in r.value || (|r.value| == limit.GetOr(DEFAULT_LIMIT) && forall h :: h in r.value ==> h.distance <= c.distance)
  {
    if HasKey(store, RowRecordKey, recordId) {
      var rows := JoinedRows(store, records, Others(recordId));
      assert Joins(records, Others(recordId), store[j]);
      var i :| 0 <= i < |rows| && rows[i] == store[j];
    }
  }

  /** After a user is deleted, no search returns a record of theirs, even
      though their embedding rows are still in the table: the inner join
      finds no record for them. */
  lemma SearchAfterDeleteUser(
    db: Db, user: UserId, store: Store, embed: string -> Option<Vector>,
    query: string, limit: Option<int>, userId: Option<UserId>)
    requires SemanticSearch(DeleteUser(db, user).records, store, embed, query, limit, userId).Ok?
    ensures forall h :: h in SemanticSearch(DeleteUser(db, user).records, store, embed, query, limit, userId).value ==>
              h.record.userId != user
  {
    SearchResultsSound(DeleteUser(db, user).records, store, embed, query, limit, userId);
  }
}
