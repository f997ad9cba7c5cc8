# Canvas pipeline core, modelled in Dafny

This project models the decision logic of four stages of a pipeline. The
pipeline moves Canvas LMS exports into a raw store and then into a small
dimensional warehouse:

- **Raw loader** (`src/load/load_raw.py`). Reads line-delimited JSON.
  - Each line is classified as written, skipped or failed.
  - Written records are upserted into a raw table by `str(id)`.
  - In incremental mode, records at or below the stored watermark are
    skipped. The largest `updated_at` that was written becomes the new
    watermark for the source.
- **Identity resolution** (`src/transform/build_identity_map.py`).
  - Finds an email anywhere in each raw user payload, using a recursive,
    priority-ordered search checked against `EMAIL_RE`.
  - Normalises the email by trimming and lower-casing, then groups users
    by it.
  - The smallest id of each group becomes the primary identity. Every
    other id of the group gets a `duplicate_email` warning.
  - Both results are written with a delete-then-insert restricted to the
    ids this run emits.
- **Curated build** (`src/transform/build_curated.py`).
  - Course and submission documents are parsed record by record.
  - Submission foreign keys are resolved against natural-to-surrogate key
    maps.
  - `on_time_flag`, `late_flag` and `missing_flag` are derived.
  - The rows are staged in chunks and MERGEd into `cur.dim_student`,
    `cur.dim_course` and `cur.fact_submission`. In the two dimensions,
    matched rows are overwritten and keep their surrogate key, and
    unmatched rows get a fresh IDENTITY key. The fact table has no
    IDENTITY column: its rows are upserted by `canvas_submission_id`.
- **Schema drift** (`src/meta/schema_snapshot.py`).
  - Each listed table is compared with its latest stored snapshot.
  - Column additions, removals and signature changes are logged in sorted
    groups, along with first sightings and disappearances.
  - A new snapshot is then stored.

The model is functional throughout:

- JSON is a tagged union (`Json.Value`). Objects keep their key/value
  pairs in document order, and a lookup returns the last binding of a key,
  as `json.loads` does.
- Tables are maps or keyed sequences. Each MERGE is one atomic update.
- Timestamps are integers.
- Three things the code takes from its environment become parameters:
  - the ISO-8601 parser (`Text.IsoParser`);
  - the clock reading (`now`);
  - Python's `str()` of a JSON value (`render`, `str`).

Files, one module each:

| file | module | models |
|---|---|---|
| wrappers.dfy | Wrappers | `Option` and `Result` |
| json.dfy | Json | JSON values, dict lookup, `jget` |
| text.dfy | Text | `strip`, ASCII `lower`/`upper`, `split`/`join`, `sorted(set(...))` |
| identity.dfy | Identity | `build_identity_map.py` |
| merge.dfy | Merge | `chunked`, staging and the MERGE statements, key maps |
| curated.dfy | Curated | `build_curated.py` readers and `main` |
| loader.dfy | RawLoad | `load_raw.py` |
| schema.dfy | SchemaDiff | `schema_snapshot.py` |

## Model

| member | source | states |
|---|---|---|
| Text.Strip | src/transform/build_identity_map.py:27 | The result begins and ends with a non-whitespace character, or is empty. The input is the result with whitespace only on either side. |
| Text.StripIdempotent | src/transform/build_identity_map.py:49-52 | Stripping twice equals stripping once. |
| Text.StripEmptyIffAllSpace | src/transform/build_identity_map.py:49-52 | A string strips to "" exactly when it is all whitespace. |
| Text.JoinSplit | src/load/load_raw.py:54 | Joining the parts of `s.split(sep)` with `sep` rebuilds `s`. |
| Text.SplitJoin | src/meta/schema_snapshot.py:261 | Splitting a join of separator-free parts gives those parts back. |
| Text.SortedSet | src/meta/schema_snapshot.py:183-185 | `sorted(set(xs))`: strictly increasing in code-point order, with exactly the elements of `xs`. |
| Text.StrictlySortedUnique | src/meta/schema_snapshot.py:183-185 | Two strictly sorted sequences with the same elements are equal, so the sorted listing of a set is unique. |
| Json.Get | src/load/load_raw.py:55-56 | A lookup succeeds exactly when the key occurs, and returns a value bound to that key. |
| Json.GetAt | src/transform/build_curated.py:203 | The value read is that of the last binding of the key, as `json.loads` keeps for repeated keys. |
| Json.DictKeys | src/transform/build_identity_map.py:37 | The keys of a loaded object are exactly the keys that occur in its text, each listed once, so no key appears twice. |
| Json.JGet | src/transform/build_curated.py:18-20 | `jget` returns the default for an absent or null key, and the stored value otherwise. |
| Json.JGetOrNull | src/transform/build_curated.py:18-20 | With no default, `jget` is null exactly when the key is absent or null. |
| Identity.IsEmailIffRe | src/transform/build_identity_map.py:20 | The executable email check holds exactly when the string matches `^[^\s@]+@[^\s@]+\.[^\s@]+$`. That pattern is stated as three non-empty parts with no whitespace and no '@', around one '@' and a later '.'. |
| Identity.EmailShape | src/transform/build_identity_map.py:20 | Any accepted email is non-empty, has no whitespace and exactly one '@'. Some '.' follows the '@' with at least one character on each side. |
| Identity.FindEmail | src/transform/build_identity_map.py:23-46 | Whatever the nesting depth, a found email is non-empty and matches `EMAIL_RE`. |
| Identity.FindEmailScalars | src/transform/build_identity_map.py:23-30 | A string yields its stripped form exactly when that form matches `EMAIL_RE`. Null, booleans and integers yield nothing. |
| Identity.FindEmailObject | src/transform/build_identity_map.py:31-40 | On an object the result is the first hit over two lists in turn: the truthy values under email, email_address, login_id, user_email, user and contact, in that order; then `d.values()`: each distinct key once, in the order it was first inserted, with the value its last occurrence gave it. |
| Identity.SearchPriorityIsFirstHit | src/transform/build_identity_map.py:32-36 | The priority loop from any key on equals the first hit over the truthy values of the remaining priority keys, in key order. |
| Identity.RepeatedKeyLastWins | src/transform/build_identity_map.py:31-40 | For any key, priority or not, `{k: first, k: last}` is searched exactly as its last value alone: the earlier binding is overwritten while loading. |
| Identity.RepeatedKeyExample | src/transform/build_identity_map.py:36-40 | `{"a": "x@y.co", "a": null}` yields no email: only the last binding of "a" is searched. |
| Identity.FindEmailArray | src/transform/build_identity_map.py:41-45 | On a list the result is the first hit over its elements in order. |
| Identity.FirstHitSome | src/transform/build_identity_map.py:37-45 | A scan over a sequence of values finds an email exactly when some element yields one. |
| Identity.FirstHitSpec | src/transform/build_identity_map.py:37-45 | A scan's hit is that of an element before which every element yields nothing. |
| Identity.NormalizeEmail | src/transform/build_identity_map.py:49-52 | The result is None exactly for None or "". Otherwise it is the stripped input, character for character, with each ASCII upper-case letter replaced by its lower-case letter. It has no surrounding whitespace and no upper-case ASCII letter. |
| Identity.NormalizeAlike | src/transform/build_identity_map.py:49-52 | Two emails get the same group key exactly when both are absent or empty, or both are present and their stripped forms agree up to ASCII case. |
| Identity.NormalizeIdempotent | src/transform/build_identity_map.py:49-52 | Normalising a non-empty normalised email gives it back. The result is "" exactly for a non-empty all-whitespace input. |
| Identity.UnparseableSearchedAsString | src/transform/build_identity_map.py:109-122 | Payload text that fails to parse is searched as a string. It yields an email exactly when its stripped form matches `EMAIL_RE`. A NULL payload yields nothing. |
| Identity.GroupPairsSpec | src/transform/build_identity_map.py:123-126 | The groups are exactly the normalised emails that occur. Each group holds exactly the ids paired with that email. |
| Identity.KeyedMembers | src/transform/build_identity_map.py:123-126 | An email is a group key exactly when some row normalises to it. An id is in that group exactly when such a row has that id. |
| Identity.MinOf | src/transform/build_identity_map.py:131-132 | The chosen primary belongs to the group and is no larger than any member. |
| Identity.ResolveSpec | src/transform/build_identity_map.py:128-135 | Primary rows are exactly one per occurring email, with the least id of its group, 'email_exact' and 100. DQ rows are exactly one per other id of a group, with 'duplicate_email' and 'warn', pointing at the least id. |
| Identity.ResolveUnique | src/transform/build_identity_map.py:128-135 | There is one primary per email and one DQ row per (id, email). A DQ row never repeats its group's primary id, and always references that primary. |
| Identity.ResolveOrderIndependent | src/transform/build_identity_map.py:128-133 | Two row sequences with the same elements resolve identically, whatever their order or repetition. |
| Identity.DistinctIdsResolve | src/transform/build_identity_map.py:128-135 | With unique raw ids, primary ids are unique and no primary id is flagged as a duplicate. |
| Identity.WriteIdentity | src/transform/build_identity_map.py:137-181 | The write commits exactly when the primary ids are unique. Otherwise the primary-key violation rolls it back. |
| Identity.WriteIdentitySpec | src/transform/build_identity_map.py:137-176 | Every emitted primary is stored under its id. Every other id keeps its row, or its absence. DQ rows of ids not flagged in this run survive, and flagged ids carry exactly this run's rows. |
| Identity.WriteIdentityIdempotent | src/transform/build_identity_map.py:137-176 | Writing the same resolution twice equals writing it once. |
| Identity.BuildIdentityMapIdempotent | src/transform/build_identity_map.py:109-181 | With unique raw ids the run commits, and a second run over the same rows changes nothing. |
| Merge.Chunks | src/transform/build_curated.py:34-36 | For n > 0 the chunks are non-empty and at most n long. All but the last are exactly n long, and together they spell the input. |
| Merge.Stage | src/transform/build_curated.py:141-162 | Staging fails exactly when rows are present and the batch size is 0. A positive size stages every row in order; a negative size stages none. |
| Merge.MergeRowSpec | src/transform/build_curated.py:164-177 | A matched row gets the new attributes and keeps its surrogate key. An unmatched row is inserted under the next IDENTITY value, which then advances. Other rows are unchanged, and key uniqueness is preserved. |
| Merge.MergeBatchSpec | src/transform/build_curated.py:164-177 | See the first note below the table. |
| Merge.MergeBatchIdempotent | src/transform/build_curated.py:164-177 | Merging the same batch twice equals merging it once. |
| Merge.MergeDimension | src/transform/build_curated.py:141-178 | Fails exactly on the zero-size staging error. Otherwise it equals the MERGE of every row (positive size) or leaves the table unchanged (negative size, empty staging table). |
| Merge.KeyMapAfterMerge | src/transform/build_curated.py:181-188 | The natural-to-surrogate map is injective before and after a merge. Its domain grows by exactly the batch's natural keys, and existing natural keys keep their surrogate key. |
| Merge.UpsertAllSpec | src/transform/build_curated.py:425-452 | The fact MERGE covers the old keys plus the batch keys. Each batch row's attributes are stored, and rows outside the batch are unchanged. |
| Merge.UpsertAllIdempotent | src/transform/build_curated.py:425-452 | Merging the same fact batch twice equals merging it once. |
| Merge.MergeTable | src/transform/build_curated.py:383-453 | Fails exactly on the zero-size staging error. Otherwise it equals the fact MERGE of every row, or leaves the table unchanged. |
| Curated.PyInt | src/transform/build_curated.py:229 | `int()` of a JSON scalar: integers are themselves, `true`/`false` are 1/0, and anything else raises. |
| Curated.IntField | src/transform/build_curated.py:364-370 | `int(v) if v is not None else None` fails exactly for a non-null value `int()` rejects, naming the row and field. Null gives None, and any other value gives `int(v)`. |
| Curated.ParseDt | src/transform/build_curated.py:23-31 | A timestamp comes only from a non-empty string. It is then whatever the parser returns on that string with a final 'Z' replaced by "+00:00". |
| Curated.TriState | src/transform/build_curated.py:371-372 | The flag is 1 exactly for JSON true and 0 exactly for JSON false. It is null for anything else, absent or null included. |
| Curated.OnTimeFlag | src/transform/build_curated.py:350-358 | See the second note below the table. |
| Curated.OnTimeIgnoresFlagsWhenTimed | src/transform/build_curated.py:352-353 | When both timestamps exist the flag is set and does not depend on `late` or `missing`. |
| Curated.TermName | src/transform/build_curated.py:215-218 | `term_name` is null unless `term` is an object; then it is that object's `name`, or null. |
| Curated.ParseCourse | src/transform/build_curated.py:201-232 | See the third note below the table. |
| Curated.ReadCourses | src/transform/build_curated.py:194-233 | The read fails exactly when some row raises. Otherwise the output ids are the ids of the rows whose payload parses, in table order, and with a keyed raw table no natural key repeats. |
| Curated.ReadCoursesRows | src/transform/build_curated.py:201-232 | On success, row k is what the per-record parse makes of the k-th raw row whose payload parses, and there is one row per such raw row. |
| Curated.ResolveKey | src/transform/build_curated.py:325-336 | A surrogate key comes back exactly when the natural key is present and in the map, and is that map entry. A miss is counted exactly when the natural key is present but not in the map. |
| Curated.ParseSubmission | src/transform/build_curated.py:315-378 | See the fourth note below the table. |
| Curated.ReadSubmissions | src/transform/build_curated.py:301-380 | On success the output ids are the ids of the rows whose payload parses, in order, and with a keyed raw table no natural key repeats. Every row's keys agree with the two maps. `skip_user` and `skip_course` equal the number of output rows whose user, or course, is present but unmapped. |
| Curated.ReadSubmissionsRows | src/transform/build_curated.py:315-378 | On success, row k is the id and columns the per-record parse makes of the k-th raw row whose payload parses, and there is one row per such raw row. |
| Curated.ParseSubmissionFailure | src/transform/build_curated.py:321-370 | A parsed object raises exactly when one of `user_id`, `course_id`, `assignment_id`, `attempt` is non-null and not an integer. The error names the first such field, in that order. |
| Curated.ReadSubmissionsFails | src/transform/build_curated.py:315-378 | The read fails exactly when some row raises. |
| Curated.ReadSubmissionsCounts | src/transform/build_curated.py:311-380 | The row count equals the number of parsing payloads. Both skip counters are at most that count. |
| Curated.StudentRows | src/transform/build_curated.py:121-138 | One staged student per identity-map row, in order, under its user id. It carries that row's email, method and confidence and the run's clock reading. |
| Curated.BuildCurated | src/transform/build_curated.py:459-501 | With a positive batch size, dim_student becomes the MERGE of all identity-map rows. The run completes exactly when both raw reads succeed, the submissions resolving against the key maps of the merged dimensions. A complete run leaves dim_course as the MERGE of the course read and fact_submission as the MERGE of the submission read. A run that stops early leaves fact_submission unchanged. A non-positive size changes no table. |
| Curated.BuildCuratedIdempotent | src/transform/build_curated.py:459-501 | A second run over the same inputs and clock reading ends exactly where the first did, failure included. |
| Curated.BuildCuratedResolvesKeys | src/transform/build_curated.py:481-501 | See the fifth note below the table. |
| RawLoad.Follow | src/load/load_raw.py:53-59 | Following no keys returns the value itself. A non-object, or an object without the next key, gives null. |
| RawLoad.FollowAppend | src/load/load_raw.py:54-59 | Following p then q equals following p + q. |
| RawLoad.ExtractByPath | src/load/load_raw.py:43-59 | A non-object gives null. An object is followed along the dotted segments of the path. |
| RawLoad.ExtractSingleKey | src/load/load_raw.py:54-59 | A path without '.' reads that key, or null when it is absent. |
| RawLoad.ExtractComposes | src/load/load_raw.py:43-59 | Extracting "a.b" equals extracting b from the result of extracting a. |
| RawLoad.ParseIso | src/load/load_raw.py:62-91 | Non-strings and blank strings give None. Otherwise the parser gets the stripped text, with 'Z' replaced by "+00:00" when the text ends in 'Z'. |
| RawLoad.UpsertSpec | src/load/load_raw.py:139-155 | UPDATE-else-INSERT: afterwards the key exists and every row with it holds the new value. Other rows are unchanged, and a table with one row per key keeps exactly one. |
| RawLoad.UpsertIdempotent | src/load/load_raw.py:109-125 | Repeating the same upsert leaves the same table. |
| RawLoad.LastWatermark | src/load/load_raw.py:94-106 | A source with no watermark row reads as None; otherwise the read gives the stored value, NULL included. |
| RawLoad.Classify | src/load/load_raw.py:183-216 | See the sixth note below the table. |
| RawLoad.NeverSkipped | src/load/load_raw.py:201-205 | A record with an id is written whenever its `updated_at` is null, the watermark is null, or the run is not incremental. |
| RawLoad.RunCounts | src/load/load_raw.py:176-216 | Every non-blank line increments exactly one of success, skipped and failed. Blank lines increment none. |
| RawLoad.RunRecords | src/load/load_raw.py:207-208 | The table keeps one row per key. Each key holds the record of the last line written under it, or its old row when no line wrote it. |
| RawLoad.RunMax | src/load/load_raw.py:210-212 | The running maximum is the `updated_at` of some written record, and is at least every written record's non-null `updated_at`. |
| RawLoad.WrittenAboveWatermark | src/load/load_raw.py:201-212 | With a stored watermark in incremental mode, every written non-null `updated_at`, and hence the new watermark, is strictly above it. |
| RawLoad.NothingSkipped | src/load/load_raw.py:201-205 | Outside incremental mode, or with no stored watermark, no line is skipped. |
| RawLoad.LoadJsonl | src/load/load_raw.py:158-220 | See the seventh note below the table. |
| RawLoad.LoadJsonlWatermark | src/load/load_raw.py:218-220 | A new watermark lies strictly above a non-null old one. Once stored, it is what the source's watermark reads back as. meta.watermark keeps one row per source. |
| RawLoad.LoadJsonlRecords | src/load/load_raw.py:182-216 | The raw table keeps one row per id. Each id holds its last written record, or its old row when no line wrote it. |
| SchemaDiff.SplitTable | src/meta/schema_snapshot.py:66-70 | A name without '.' is rejected. Otherwise the schema part has no '.', and schema + "." + name rebuilds the input. |
| SchemaDiff.SplitTableRoundTrip | src/meta/schema_snapshot.py:66-70 | Splitting schema + "." + name, with no '.' in the schema, returns exactly (schema, name). |
| SchemaDiff.TableList | src/meta/schema_snapshot.py:261 | Every listed table name is non-empty, comma-free and stripped. |
| SchemaDiff.TableListJoin | src/meta/schema_snapshot.py:261 | Parsing the comma-join of clean names gives those names back. |
| SchemaDiff.ColumnKey | src/meta/schema_snapshot.py:149-151 | A column is indexed exactly when its `name` is present and truthy. A string name is its own non-empty key. |
| SchemaDiff.AddColumn | src/meta/schema_snapshot.py:150-151 | Indexing a column inserts or overwrites its key and leaves the index well formed. |
| SchemaDiff.IndexItemsFails | src/meta/schema_snapshot.py:148-151 | Indexing a column list fails exactly when some item is not an object. |
| SchemaDiff.IndexItemsKeys | src/meta/schema_snapshot.py:146-152 | The keys are exactly the keys of the items. |
| SchemaDiff.IndexItemsSpec | src/meta/schema_snapshot.py:146-152 | Each key maps to the last item that has it: a later duplicate overwrites an earlier one. |
| SchemaDiff.IndexColumns | src/meta/schema_snapshot.py:146-152 | A non-object fails. A missing `columns` key gives an empty index. A list is indexed item by item. Any index produced is well formed. |
| SchemaDiff.Signature | src/meta/schema_snapshot.py:155-168 | The signature lists the eight compared keys in order, each with the column's value or null. |
| SchemaDiff.SameSignatureIff | src/meta/schema_snapshot.py:196 | Two columns compare equal exactly when they agree, under Python `==`, on each of the eight signature keys. |
| SchemaDiff.SignatureOnlyKeys | src/meta/schema_snapshot.py:155-168 | Columns that agree on the eight keys have equal signatures, whatever their other keys hold. |
| SchemaDiff.SameSignatureReflSym | src/meta/schema_snapshot.py:196 | The comparison is reflexive and symmetric. |
| SchemaDiff.DiffSchema | src/meta/schema_snapshot.py:171-178 | `diff_schema` raises exactly when either document cannot be indexed. Otherwise it diffs the two indexes. |
| SchemaDiff.DiffSound | src/meta/schema_snapshot.py:183-208 | Every added entry names a column only in curr, with its curr dict. Every removed entry names a column only in prev, with its prev dict. Every changed entry names a column in both with differing signatures, carrying both dicts and both signatures. |
| SchemaDiff.DiffReportsAdded | src/meta/schema_snapshot.py:183-188 | Every column only in curr is reported as added. |
| SchemaDiff.DiffReportsRemoved | src/meta/schema_snapshot.py:184-191 | Every column only in prev is reported as removed. |
| SchemaDiff.DiffReportsChanged | src/meta/schema_snapshot.py:185-208 | Every common column whose signature differs is reported as changed. |
| SchemaDiff.DiffOrdered | src/meta/schema_snapshot.py:183-208 | All added entries come first, then all removed, then all changed. Each group is in strictly increasing column-name order. |
| SchemaDiff.DiffDistinct | src/meta/schema_snapshot.py:180-208 | No column name appears twice in a diff. |
| SchemaDiff.DiffSelf | src/meta/schema_snapshot.py:171-210 | The diff of any indexable document with itself is empty. |
| SchemaDiff.DiffIndexesSelf | src/meta/schema_snapshot.py:171-210 | The diff of any index with itself is empty. |
| SchemaDiff.ColumnDoc | src/meta/schema_snapshot.py:129-141 | A column dict carries the column's name as a string and its ordinal as an integer. |
| SchemaDiff.TableSchema | src/meta/schema_snapshot.py:143 | The schema document is an object whose `columns` is the list of column dicts in ordinal order. |
| SchemaDiff.TableSchemaIndexes | src/meta/schema_snapshot.py:95-152 | A schema just read always indexes. Its keys are exactly the non-empty column names. |
| SchemaDiff.LatestSnapshot | src/meta/schema_snapshot.py:77-92 | A previous snapshot exists exactly when the table's latest text parses to a non-null JSON value, and is that value. |
| SchemaDiff.TableEntries | src/meta/schema_snapshot.py:294-311 | A first sighting logs one `table_added` row listing the column names in order. Otherwise one row is logged per diff entry, in diff order, and none when `diff_schema` raises. |
| SchemaDiff.SnapStep | src/meta/schema_snapshot.py:275-320 | See the eighth note below the table. |
| SchemaDiff.SnapRunSpec | src/meta/schema_snapshot.py:271-320 | Over a table list, only new rows are appended to the log. The missing counter grows by the number of listed tables that do not exist. Only listed, existing, dotted names get a snapshot. |
| SchemaDiff.SchemaSnapshotCounters | src/meta/schema_snapshot.py:261-320 | After `main`, `changed` equals the number of log rows and `snapped` the number of snapshots stored. `missing` counts the listed names that do not exist. |
| SchemaDiff.SnapStepOutcome | src/meta/schema_snapshot.py:275-320 | A table gone from the catalog logs one "table missing" row when a snapshot of it exists, and stores nothing. A catalogued table whose comparison succeeds logs its comparison rows and has its snapshot stored. Any other table changes nothing. |
| SchemaDiff.SnapStepNoDrift | src/meta/schema_snapshot.py:294-311 | A table whose catalog schema equals its latest snapshot logs nothing. |
| SchemaDiff.SnapStepConsistent | src/meta/schema_snapshot.py:275-320 | Every step keeps the invariant that each snapshot stored in this run is the current catalog schema of an existing table. |
| SchemaDiff.SnapStepRepeat | src/meta/schema_snapshot.py:275-320 | A table listed again after it was snapshotted in the same run changes nothing: no log rows, no counters, no snapshot. |

Notes on the longer rows of the table:

1. **Merge.MergeBatchSpec.** After a batch MERGE:
   - the keys are the old keys plus the batch keys;
   - every batch row's attributes are stored;
   - existing rows keep their surrogate keys;
   - rows outside the batch are unchanged;
   - new keys come from fresh IDENTITY values;
   - surrogate keys stay positive and unique.
2. **Curated.OnTimeFlag.**
   - When both `due_at` and `submitted_at` exist, the flag is 1 exactly when `submitted_at <= due_at`, and 0 otherwise.
   - Otherwise the flag is 0 exactly when `late` or `missing` is JSON true.
   - In every remaining case it is null.
3. **Curated.ParseCourse.**
   - A payload that does not parse is skipped.
   - A parsed non-object raises.
   - An object raises exactly when `account_id` is non-null and not an integer.
   - Otherwise the row carries the course's id, and these columns:
     - `name`, `course_code`, `workflow_state` and `sis_course_id` as the document gives them;
     - `start_at` and `end_at` parsed;
     - the term name;
     - `account_id` as `int()` of the field, or null for null;
     - the raw `updated_at` and the clock reading.
4. **Curated.ParseSubmission.**
   - A payload that does not parse is skipped.
   - A parsed non-object raises.
   - Otherwise the emitted row has the raw id, and:
     - `user_id`, `course_id`, `assignment_id` and `attempt` are `int()` of their fields, or null for null;
     - `submitted_at`, `graded_at` and `due_at` are parsed;
     - `workflow_state` is the document's;
     - its keys agree with the key maps;
     - a user or course miss is flagged exactly when the natural key is present but unmapped;
     - the late and missing flags are three-state;
     - `on_time_flag` is derived from the row's own timestamps and flags.
5. **Curated.BuildCuratedResolvesKeys.** After a complete run, every submission of the run is stored:
   - its person key is set exactly when its user has a dim_student row, and is then that row's surrogate key;
   - the same holds for its course key;
   - an unresolved fact is kept with a null key.
6. **RawLoad.Classify.**
   - Blank lines are ignored.
   - A line fails exactly when it is not an object with a non-null id.
   - A record is skipped exactly when all of these hold: the run is incremental, the watermark is non-null, and the record's `updated_at` is non-null and at or below the watermark.
   - Any other record is written under `str(id)`.
7. **RawLoad.LoadJsonl.**
   - Incremental mode without a source name fails before any line is read.
   - Otherwise success + skipped + failed equals the number of non-blank lines.
   - Outside incremental mode nothing is skipped and meta.watermark is untouched.
   - The new watermark is the largest `updated_at` among the written lines, judged against the stored watermark in incremental mode and against none otherwise.
   - In incremental mode the new watermark is upserted only when some written record has an `updated_at`.
   - The raw table is the one the line loop leaves; RawLoad.LoadJsonlRecords states its contents.
8. **SchemaDiff.SnapStep.** One table of the loop:
   - the log only grows, by rows for this table, and `changed` counts them;
   - `missing` grows exactly for a table that does not exist;
   - only this table's snapshot can change, and at most once per run;
   - a snapshot stored is the table's current catalog schema.

## Left out

- SQL plumbing is not modelled: connections, DDL, temporary staging
  tables, commit and rollback calls, argparse, logging and printing. Tables
  are values and each stage is a function from tables to tables.
- `WITH (HOLDLOCK)` and concurrent runs are not modelled. Each MERGE is one
  atomic sequential update.
- The order in which one MERGE statement allocates IDENTITY values to its
  inserted rows is not modelled. The model issues them in staging order,
  and the contracts say only that they are fresh and unique.
- Floating point is not modelled:
  - `score` is left out;
  - `float(match_confidence)` is kept as the integer 100 the identity map
    stores.
- Curated.ParseSubmission: `float(score)` raising on a non-numeric score is
  not modelled, so ReadSubmissions and Curated.ReadSubmissionsFails report
  success for such a row where the code raises.
- Curated.PyInt: `int()` of a numeric string (e.g. "42") and of a float is
  not modelled. Such values are treated as raising. Ids are integers.
- The ISO-8601 parsers are the parameter `parse`, with timestamps as
  integers. Only the 'Z' handling around them is modelled. In the loader,
  `parse_iso_datetime` converts an offset-aware result to naive UTC. In the
  curated build, `parse_dt` returns `datetime.fromisoformat` unchanged:
  aware for text ending in 'Z' or carrying an offset, naive otherwise.
- Curated.OnTimeFlag: the model's integer timestamps always compare. In the
  code, comparing an offset-aware with a naive datetime raises `TypeError`.
  For example, due "2025-01-10T00:00:00Z" with submitted
  "2025-01-09T12:00:00" aborts the submission read. The model compares
  the two integers the parser returns instead.
- `utcnow()` is one clock reading `now` per run, rather than one reading
  per row. `snapshot_time` and the job run id are left out. Stored
  snapshots are assumed older than the current run, so the one this run
  stores becomes the latest.
- Python's `str()` of a JSON value is the parameter `render` (raw ids) or
  `str` (column names). Two different ids that render alike share a row,
  as they do in the table.
- `json.dumps` of payloads and of change details is not modelled. A stored
  snapshot reads back as the value that was stored.
- Text.Lower and Text.Upper are ASCII-only. They model Python's
  `lower()`/`upper()` on ASCII text. Non-ASCII letters are left unchanged.
- SchemaDiff.PyEq: Python `==` is modelled as structural equality plus
  bool/int equality at the top level. It does not recurse into containers,
  and two dicts with the same bindings in a different order compare
  unequal. Python ignores dict order.
- RawLoad.Upsert, RawLoad.LastWatermark and SchemaDiff.LatestSnapshot:
  keys compare as exact strings. SQL Server's comparisons in `WHERE id =
  @id` (load_raw.py:147), `WHERE source_name = ?` (load_raw.py:99, 117) and
  `WHERE table_name = ?` (schema_snapshot.py:82) differ in three ways that
  are not modelled. They ignore trailing blanks. They follow the column
  collation, which is case-insensitive by default. `DECLARE @id
  NVARCHAR(255)` (load_raw.py:140) truncates longer ids to 255 characters.
- RawLoad.LoadJsonl: database errors in `upsert_record`, which the code
  counts as failed lines, are not modelled. Only JSON and id failures
  count.
- SchemaDiff.SnapStep: a database error inside `insert_change` partway
  through a table's rows is not modelled.
- Identity.WriteIdentity: `cur.person_identity_map_dq` has no key. It is
  modelled as a set of rows, so identical old rows collapse.
- Merge.MergeBatch, Merge.UpsertAll and Curated.BuildCurated require
  distinct natural keys in a batch. The raw tables are keyed by id and the
  identity map by `canvas_user_id`, so the code never stages a repeated
  key.
- `DEFAULT_TABLES` in `schema_snapshot.py` is not modelled. The model
  takes the `--tables` argument as given.
- `src/dq/run_checks.py` and `src/simulate/generate_canvas.py` are not
  part of this model.

Four behaviours of the code that a reader might expect otherwise:

- The identity map is not rebuilt from scratch. The code deletes and
  re-inserts only the ids it emits, and rows for other ids survive.
  Identity.WriteIdentitySpec states this.
- The incremental boundary is exclusive. `load_raw.py` skips a record
  whose `updated_at` is at or below the watermark (`<=`), so a record
  stamped exactly at the watermark is skipped. RawLoad.Classify and
  RawLoad.WrittenAboveWatermark state this.
- The curated build reads the raw tables unfiltered. It does not consult a
  watermark.
- `parse_iso_datetime` replaces every 'Z' in a string that ends in 'Z'.
  `parse_dt` replaces only the final one. The two are modelled separately
  (RawLoad.ParseIso, Curated.ParseDt).
