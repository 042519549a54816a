# Medical-record embeddings, search, records and sessions — a Dafny model

This project models the sequential core of a medical-records server:

- **Embedding store** (`Embeddings`). This is the `medical_record_embeddings` table: one row per record, written by an upsert keyed on `record_id`, with row id `emb_<recordId>` and `dimension = |vector|`.
- **Backfill** (`Embeddings.GenerateAllMedicalRecordEmbeddings`). It selects every record with a non-empty summary, makes one batch call to the embedding provider, and upserts `records[i]` with `embeddings[i]`.
- **Search** (`VectorSearch`). `semanticSearchMedicalRecords` and `findSimilarRecords` are brute-force ranking queries. Each one inner-joins embeddings with records, filters (by owner, or to exclude the record itself), scores by L2 distance, orders from most to least similar, and cuts at `LIMIT`.
- **Schema** (`Schema`). The `users` and `medical_records` tables, with primary keys, `UNIQUE` usernames and emails, and a foreign key from records to users with `ON DELETE CASCADE`.
- **Record routes** (`PatientRecords`). The per-patient listing, newest first. Manual record creation and file upload, with their validation and defaults.
- **Auth routes** (`Auth`). The structural checks of `verifyGoogleToken`, login (which creates a session), the `/me` check and logout.

Modelling choices:

- Tables are sequences of rows in insertion order. Primary-key and `UNIQUE` constraints are therefore invariants (`Schema.Valid`, `Embeddings.WellFormed`) that the operations are proved to keep.
- Identifiers are strings, as the routes (uuid v7) and the seed data produce them. `schema.ts` declares integer id columns; that column type is not modelled.
- A record has one owner field, `userId`. The routes call the same owner `patientId`. Read literally against `schema.ts`, the listing filter's `patientId`/`patient_id` properties would not exist on the rows; the model reads the canonical owner.
- Vectors are integer sequences standing in for float32 values. The ranking key is the exact squared L2 distance. `1/(1+L2)` falls as L2 grows, and L2 grows with its square, so ordering by similarity (highest first) is the same as ordering by squared distance (smallest first). Results carry that distance rather than the similarity value.
- Ties in distance, and in record date, keep table order: the sort is stable. For search this tie order is a modelling choice, because the SQL leaves it unspecified. For the listing, JavaScript's sort is stable too.
- SQLite's `LIMIT` is modelled exactly: a negative limit returns every row and `LIMIT 0` returns none. The default limit is 5.
- The owner filter applies only when `userId` is truthy, so an empty owner id means no filter.
- `vec_distance_L2` rejects vectors of different lengths, so a query whose in-scope candidates include a vector of another length fails with `DimensionMismatch`.
- The backfill's write loop reads `embeddings[i]`. If the provider returns fewer vectors than texts, the loop throws at the first missing one, after the earlier rows were already written. The model keeps this behaviour (`MissingEmbedding`).
- External services become parameters: the embedding provider (`embed`, `embedMany`; `None` means the call threw), base64 decoding with `JSON.parse` (`decode`), JWT signing and verification (`sign`, `verify`), the create-body validator (`valid`), `parseInt`'s result, the fresh uuid and the clock.
- `verifyGoogleToken` never checks the token's signature, and the model claims nothing about authenticity.
- Quirks kept as written:
  - An ID token's `exp` is compared after JavaScript's numeric coercion (`payload.exp * 1000 < Date.now()`). `null`, `false`, `""` and `[]` coerce to 0, so such a token is rejected at every positive time. A numeric string counts as its number. An absent field, a non-numeric string or an object coerce to `NaN`; `NaN < now` is false, so such a token never expires.
  - `/me` never consults the session map; it trusts the session JWT alone.
  - `/me` first runs the JWT library's own clock check, which throws for a non-zero `exp` at or before the current second (`Date.now() / 1000` rounded down); the route's catch turns that into 401 `Invalid session` and keeps the cookie. The route's own `exp` test therefore fires only for a non-numeric `exp`, or for `exp` 0.
- Equal search scores are not broken by record id; table order decides.
- A zero or negative search limit is not an error; SQLite's `LIMIT` semantics apply.
- The backfill makes one batch call, with no per-item failure isolation. It re-embeds every summarised record, not only the ones missing an embedding.
- `schema.ts` does not define the embeddings table that `embeddings.ts` imports, so the source neither declares nor rules out a cascade from records to embeddings. The model gives the table no cascade, as a modelling choice. The search's inner join then hides orphaned rows (`VectorSearch.SearchAfterDeleteUser`).

## Model

| member | source | states |
|---|---|---|
| `Schema.InsertUser` | packages/db/src/schema.ts:11-17 | an insert succeeds exactly when the id, the username and the email are all unused; it appends the row and keeps every table constraint |
| `Schema.InsertRecord` | packages/db/src/schema.ts:19-30 | an insert succeeds exactly when the id is unused and the owner exists; the new row is then what a lookup of its id finds, and every constraint still holds |
| `Schema.DeleteUser` | packages/db/src/schema.ts:21-23 | deleting a user removes that user and every record it owns; every other user and record survives, no new row appears, and every constraint still holds |
| `Embeddings.Upsert` | packages/db/src/embeddings.ts:37-48 | on a clash of record ids the first row of the record takes the new vector and its length, keeping its id; with no such row exactly one row `emb_<id>` is appended; no other row changes |
| `Embeddings.UpsertWellFormed` | packages/db/src/embeddings.ts:37-48 | after an upsert the table still has one row per record, each row's id is `emb_` + its record id, and each row's dimension is its vector's length |
| `Embeddings.UpsertFind` | packages/db/src/embeddings.ts:37-48 | after an upsert, looking up the record gives row `emb_<id>` with the new vector and its length; lookups of every other record are unchanged |
| `Embeddings.UpsertOneRow` | packages/db/src/embeddings.ts:37-48 | after an upsert the table holds exactly one row for the record |
| `Embeddings.WellFormedIdsDistinct` | packages/db/src/embeddings.ts:38 | since each row id is `emb_` + record id, distinct records get distinct row ids |
| `Embeddings.StoreMedicalRecordEmbedding` | packages/db/src/embeddings.ts:30-49 | fails, writing nothing, exactly when the provider fails; otherwise the record has exactly one row, holding the provider's vector for the summary, and other records' rows are unchanged |
| `Embeddings.UpsertTwice` | packages/db/src/embeddings.ts:37-48 | two upserts for one record leave the same table as the second upsert alone |
| `Embeddings.SelectSummarised` | packages/db/src/embeddings.ts:55-61 | the backfill selects exactly the records whose summary is neither NULL nor empty, and the selection's ids stay unique |
| `Embeddings.WriteBatch` | packages/db/src/embeddings.ts:73-90 | selected record `i` ends up with vector `i`; records outside the batch keep their rows; if vectors run out, the loop stops at index `|embeddings|`, exactly the earlier selected records are written, and every later selected record keeps its row |
| `Embeddings.GenerateAllMedicalRecordEmbeddings` | packages/db/src/embeddings.ts:54-94 | no summarised records gives count 0 and no writes; the call fails exactly when the provider fails (writing nothing) or returns fewer vectors than records; too few vectors fails after writing exactly the selected records that have one, leaving the rest untouched; enough vectors always succeeds with the number selected, every summarised record then holding its own vector; unselected records are untouched |
| `Embeddings.UpsertAllContents` | packages/db/src/embeddings.ts:73-90 | after a batch of upserts for distinct records, each record's row holds its own vector |
| `Embeddings.UpsertAllFrame` | packages/db/src/embeddings.ts:73-90 | a batch of upserts leaves every record outside the batch untouched |
| `Embeddings.BackfillConverges` | packages/db/src/embeddings.ts:54-94 | with no change to the records and a provider that repeats its answers, a second backfill leaves the table as the first one left it |
| `VectorSearch.SqDistZeroIff` | packages/db/src/embeddings.ts:121 | the distance is zero exactly when the two vectors are equal, so an identical vector gets the top similarity 1 |
| `VectorSearch.Join` | packages/db/src/embeddings.ts:122-124 | candidates are exactly the embedding rows whose record exists and passes the filter, each paired with that record and its stored vector |
| `VectorSearch.JoinedRows` | packages/db/src/embeddings.ts:122-124 | the rows the inner join keeps are exactly the table rows whose record exists and passes the filter |
| `VectorSearch.JoinMatchesRows` | packages/db/src/embeddings.ts:122-124 | the join yields one candidate per kept row, in order, carrying that row's vector and the record the row refers to |
| `VectorSearch.Score` | packages/db/src/embeddings.ts:121 | scoring fails exactly when some candidate's vector length differs from the query's; otherwise each candidate gets its distance to the query |
| `VectorSearch.Rank` | packages/db/src/embeddings.ts:125-126 | the result holds `min(limit, n)` items (all `n` for a negative limit), ordered by distance, drawn from the hits; an item is left out only when the limit is below `n` and the result is full, and then no kept item is farther than it |
| `VectorSearch.RankCandidates` | packages/db/src/embeddings.ts:121-126 | the ranked candidates are counted, ordered and complete as for `Rank`, drawn without repetition from the scored candidates (a sub-multiset), and each result is a candidate scored against the query |
| `VectorSearch.RankedJoin` | packages/db/src/embeddings.ts:121-126 | ranking the joined candidates fails exactly when a kept row's vector length differs from the query's; otherwise it returns `min(limit, rows)` hits, ordered by distance, drawn without repetition from the kept rows' hits (a sub-multiset), and any kept row left out faces a full result of no farther hits |
| `VectorSearch.JoinHitsSound` | packages/db/src/embeddings.ts:122-126 | every ranked hit of a join is an existing record that passes the filter and has a stored embedding; in a well-formed table that embedding has the query's length and its distance is the hit's |
| `VectorSearch.SemanticSearch` | packages/db/src/embeddings.ts:99-132 | a provider failure fails the search; otherwise the search fails, with `DimensionMismatch`, exactly when some in-scope embedded row has another length than the query; a result holds `min(limit, in-scope rows)` hits (limit 5 by default), ordered by distance, drawn without repetition from the in-scope rows' hits (a sub-multiset), and any in-scope row left out faces a full result of no farther hits |
| `VectorSearch.SearchResultsSound` | packages/db/src/embeddings.ts:101-128 | at most `limit` results (5 by default), closest first; each is an existing record with a stored embedding, owned by `userId` when one is given, and scored against its own stored vector |
| `VectorSearch.SearchIsTopK` | packages/db/src/embeddings.ts:121-128 | for any embedded record in scope, a successful search either returns it or returns exactly `limit` hits (5 by default), none farther than it |
| `VectorSearch.ExactMatchRanksFirst` | packages/db/src/embeddings.ts:121-125 | if a stored in-scope vector equals the query and the search succeeds with a non-zero limit, the first hit has distance zero, and every zero-distance hit is a record whose stored vector is the query's |
| `VectorSearch.FindSimilarRecords` | packages/db/src/embeddings.ts:137-174 | fails with `NotFound` exactly when the record has no embedding; otherwise fails with `DimensionMismatch` exactly when some other joined row's length differs from the record's vector; a result holds exactly `min(limit, other rows)` hits, never the record itself, ordered by distance, drawn without repetition from the other rows' hits (a sub-multiset), and any other row left out faces a full result of no farther hits |
| `VectorSearch.FindSimilarIsTopK` | packages/db/src/embeddings.ts:159-171 | for any other embedded record, a successful lookup either returns it or returns exactly `limit` hits (5 by default), none farther than it |
| `VectorSearch.SearchAfterDeleteUser` | packages/db/src/embeddings.ts:122-123 | after a user is deleted, no search returns any of their records, even though their embedding rows remain |
| `PatientRecords.ListPatientRecords` | apps/server/src/routes/patient-records.ts:21-34 | the listing holds exactly the patient's records, each as often as in the table, none dropped and none added, ordered newest first |
| `PatientRecords.CreateRecord` | apps/server/src/routes/patient-records.ts:62-86 | an invalid body gets 400 and no write; a valid one inserts one record with a fresh id and the body's owner, date and description, MIME type `text/plain` when the body's is absent or empty, a summary that is NULL when the body's is absent or empty, and no file data; every constraint still holds |
| `PatientRecords.CreatedRecordIsListed` | apps/server/src/routes/patient-records.ts:71-79 | a record created for a patient appears in that patient's listing |
| `PatientRecords.UploadRecord` | apps/server/src/routes/patient-records.ts:88-119 | a missing file, patient or description gets 400 and no write; otherwise one record is inserted with the file's bytes, MIME type `application/octet-stream` when the file has none, a summary that is NULL when absent or empty, and the parsed date or the current time in seconds |
| `Auth.Split` | apps/server/src/routes/auth.ts:29 | splitting on `.` gives one more part than there are dots, and no part contains a dot |
| `Auth.SplitJoin` | apps/server/src/routes/auth.ts:29 | joining the parts with the separator gives back the token |
| `Auth.SplitToken` | apps/server/src/routes/auth.ts:29-32 | a token built from three dot-free parts splits into exactly those three parts |
| `Auth.Base64UrlToBase64` | apps/server/src/routes/auth.ts:40 | the output has the same length and no `-` or `_`; `-` becomes `+`, `_` becomes `/`, and every other character is unchanged |
| `Auth.Base64UrlRoundTrip` | apps/server/src/routes/auth.ts:40 | on base64url text (no `+` or `/`) the mapping is undone by the reverse mapping |
| `Auth.VerifyGoogleToken` | apps/server/src/routes/auth.ts:25-61 | a token is accepted exactly when it has two dots, a non-empty middle segment that decodes, an audience matching the client id when one is configured, and an expiry not in the past |
| `Auth.ExpiryBoundary` | apps/server/src/routes/auth.ts:25-61 | for a well-formed token whose coerced `exp` is `e`, verification accepts exactly when `now <= e * 1000`, returning the decoded payload; an `exp` coerced to 0 is rejected at every positive time |
| `Auth.MissingExpNeverExpires` | apps/server/src/routes/auth.ts:25-61 | for a well-formed token whose `exp` coerces to `NaN`, verification returns the decoded payload at every time |
| `Auth.Login` | apps/server/src/routes/auth.ts:64-119 | 400 exactly for a missing or empty token, 401 exactly for one that fails verification, and a login exactly for one that passes; failures leave the sessions unchanged; a login adds exactly the signed session, expiring at now (in seconds) + 604800, and leaves other sessions alone |
| `Auth.Me` | apps/server/src/routes/auth.ts:122-149 | 401 `NotAuthenticated` exactly without a cookie; the current user exactly when the session JWT verifies and its numeric `exp` lies after now in milliseconds (or is 0 at time 0), since the library rejects an `exp` at or before the current second; `SessionExpired` only for a JWT that verifies with a non-numeric `exp`, or `exp` 0 after time 0; every other case is 401 `InvalidSession` from the catch |
| `Auth.Logout` | apps/server/src/routes/auth.ts:152-167 | always reports success; removes the cookie's session if present, leaves sessions unchanged otherwise, and never adds or alters a session |
| `Auth.LoginThenLogout` | apps/server/src/routes/auth.ts:91-96 | logging out with the cookie a login set restores the sessions that existed before the login |
| `Auth.MeAfterLogin` | apps/server/src/routes/auth.ts:64-149 | after a successful login whose signer and verifier agree, the new session is in the map, and `/me` with its cookie returns the user at every time before `exp * 1000` and answers `InvalidSession` from then on |

## Left out

- The embedding provider (`generateEmbedding`, `generateEmbeddings`, a network call to a hosted model) is a parameter function, not modelled.
- Float32 arithmetic, `vec_distance_L2`'s rounding, and the `1/(1+d)` similarity value itself are left out: floating point. Results carry the exact squared distance of integer vectors instead.
- The binary layout of stored vectors (`Buffer.from(embedding.buffer)`) is runtime serialisation; vectors are sequences.
- The listing's fallback of a missing `recordDate` to 0 cannot arise here. The schema declares `record_date` NOT NULL and the model reads one canonical field, so the sort key is always the record's own date.
- The listing's second spellings (`patient_id`, `record_date`) are left out; one canonical field is read.
- The `/patients` and `/create/patient` routes are left out: they use a `patients` table that `schema.ts` does not define.
- `jwtMiddleware` is imported by the record routes but defined nowhere in the route files; it is not part of this model.
- The 500 replies of the listing, of `/google` and of `/logout` come from exceptions in database or library calls, and are left out. Creation and upload do model a refused insert as 500. `/me` has no 500 reply: its catch answers 401, which the model keeps as `InvalidSession`.
- The JWT library's `nbf` and `iat` checks are left out: the session tokens the server signs carry neither claim.
- Me: a session JWT whose `exp` is a numeric string is modelled like any non-numeric `exp` (it passes the library's clock check and gets `SessionExpired`), although the library's loose comparison would reject it once that number is past. Only the server can sign session tokens, and it always signs a numeric `exp`.
- Cookies (`setCookie`, `deleteCookie`, `maxAge`) and HTTP transport are left out; the cookie value is a parameter.
- The `exp` stored in the session map is never read by any route, so nothing is proved about it beyond its value at login.
- `/google` reads the clock three times: once for the ID token's expiry and twice for the session's expiry (auth.ts lines 51, 85 and 95). The model reads one `nowMillis`, so it does not show that the `exp` kept in the map and the one signed into the session JWT can differ by one second when a second boundary falls between the reads.
- A fractional or infinite coerced `exp` is left out: the model holds the coerced value as an integer or `NaN`.
- Foreign-key enforcement: SQLite enforces `REFERENCES` and `ON DELETE CASCADE` only with `PRAGMA foreign_keys = ON`, which `db.ts` does not set. The model follows the declared schema.
- Concurrency and async sequencing are left out. Each operation is one atomic step, and simultaneous upserts are not modelled.
- The AI summary and diagnosis helpers, the UI pages, the seed and embedding scripts, and the database wiring are out of scope.
