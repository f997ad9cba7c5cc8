/** The staging-and-MERGE protocol of src/transform/build_curated.py: rows
    are copied into a temporary table in chunks of `batch_size`, then one
    MERGE reconciles the staged rows with the target by natural key (update
    on match, insert otherwise). Each MERGE is modelled as one atomic
    sequential update; locking is not modelled. */
module Merge {
  import opened Wrappers

  // ---------------------------------------------------------------------
  // chunked and staging
  // ---------------------------------------------------------------------

  /** `chunked(rows, n)` for a positive `n`: consecutive slices of length
      `n`, the last one possibly shorter, together spelling `rows`. */
  function Chunks<T>(rows: seq<T>, n: nat): (cs: seq<seq<T>>)
    requires n > 0
    ensures Flatten(cs) == rows
    ensures forall i :: 0 <= i < |cs| ==> 0 < |cs[i]| <= n
    ensures forall i :: 0 <= i < |cs| - 1 ==> |cs[i]| == n
    decreases |rows|
  {
    if |rows| == 0 then []
    else if |rows| <= n then
      assert Flatten([rows]) == rows + Flatten([rows][1..]);
      [rows]
    else
      var rest := Chunks(rows[n..], n);
      var cs := [rows[..n]] + rest;
      assert cs[1..] == rest;
      assert rows == rows[..n] + rows[n..];
      cs
  }

  function Flatten<T>(cs: seq<seq<T>>): seq<T> {
    if |cs| == 0 then [] else cs[0] + Flatten(cs[1..])
  }

  /** `chunked(rows, n)` for any `n`: Python's `range(0, len(rows), n)`
      raises for a zero step (None here) and is empty for a negative one. */
  function Chunked<T>(rows: seq<T>, n: int): Option<seq<seq<T>>> {
    if n == 0 then None
    else if n < 0 then Some([])
    else Some(Chunks(rows, n))
  }

  /** The MERGE raised: `range()` rejected a zero batch size. */
  datatype MergeError = ZeroBatchSize

  /** What the staging table holds after the `executemany` loop; an empty
      input returns before any chunking (`if not rows: return`). */
  function Stage<T>(rows: seq<T>, batchSize: int): (r: Result<seq<T>, MergeError>)
    ensures r.Failure? <==> |rows| > 0 && batchSize == 0
    ensures r.Success? && batchSize > 0 ==> r.value == rows
    ensures r.Success? && batchSize <= 0 ==> r.value == []
  {
    if |rows| == 0 then Success([])
    else match Chunked(rows, batchSize)
      case None => Failure(ZeroBatchSize)
      case Some(cs) => Success(Flatten(cs))
  }

  // ---------------------------------------------------------------------
  // Surrogate-keyed dimensions
  // ---------------------------------------------------------------------

  /** A dimension row: the IDENTITY surrogate key and the non-key columns. */
  datatype DimRow<A> = DimRow(key: int, attrs: A)

  /** A dimension table indexed by its natural key (which is UNIQUE), with
      the IDENTITY(1,1) counter: the next surrogate key to be issued. */
  datatype Dimension<A> = Dimension(rows: map<int, DimRow<A>>, nextKey: int)

  /** A freshly created dimension table. */
  function EmptyDimension<A>(): (d: Dimension<A>)
    ensures Valid(d) && d.rows == map[]
  {
    Dimension(map[], 1)
  }

  /** Every issued surrogate key is positive, below the counter, and used by
      one natural key only. */
  ghost predicate Valid<A>(d: Dimension<A>) {
    && d.nextKey >= 1
    && (forall n :: n in d.rows ==> 1 <= d.rows[n].key < d.nextKey)
    && (forall n, m :: n in d.rows && m in d.rows && n != m ==> d.rows[n].key != d.rows[m].key)
  }

  /** No natural key occurs twice in a staged batch (the raw tables the
      batches come from are keyed by id). */
  predicate DistinctNaturals<A>(batch: seq<(int, A)>) {
    forall i, j :: 0 <= i < j < |batch| ==> batch[i].0 != batch[j].0
  }

  function Naturals<A>(batch: seq<(int, A)>): set<int> {
    set i | 0 <= i < |batch| :: batch[i].0
  }

  /** One source row of the MERGE: on a match overwrite the non-key columns
      and keep the surrogate key; otherwise insert with a fresh key. */
  function MergeRow<A>(d: Dimension<A>, n: int, a: A): Dimension<A> {
    if n in d.rows then d.(rows := d.rows[n := DimRow(d.rows[n].key, a)])
    else Dimension(d.rows[n := DimRow(d.nextKey, a)], d.nextKey + 1)
  }

  /** The MERGE of a whole staged batch. */
  function MergeBatch<A>(d: Dimension<A>, batch: seq<(int, A)>): Dimension<A>
    requires DistinctNaturals(batch)
    decreases |batch|
  {
    if |batch| == 0 then d else MergeBatch(MergeRow(d, batch[0].0, batch[0].1), batch[1..])
  }

  /** After a MERGE: the natural keys are the old ones plus the batch's;
      every batch row's attributes are stored under its natural key; old
      natural keys keep their surrogate key, and those outside the batch keep
      their whole row; new natural keys get keys at or above the old counter
      (so never one issued before); and validity is preserved. */
  lemma {:induction false} MergeBatchSpec<A>(d: Dimension<A>, batch: seq<(int, A)>)
    requires DistinctNaturals(batch)
    ensures var r := MergeBatch(d, batch);
      && r.rows.Keys == d.rows.Keys + Naturals(batch)
      && (forall i :: 0 <= i < |batch| ==> r.rows[batch[i].0].attrs == batch[i].1)
      && (forall n :: n in d.rows ==> r.rows[n].key == d.rows[n].key)
      && (forall n :: n in d.rows && n !in Naturals(batch) ==> r.rows[n] == d.rows[n])
      && (forall n :: n in r.rows && n !in d.rows ==> d.nextKey <= r.rows[n].key < r.nextKey)
      && d.nextKey <= r.nextKey
      && (Valid(d) ==> Valid(r))
    decreases |batch|
  {
    if |batch| > 0 {
      var (n, a) := batch[0];
      var d1 := MergeRow(d, n, a);
      var rest := batch[1..];
      assert DistinctNaturals(rest);
      MergeBatchSpec(d1, rest);
      var r := MergeBatch(d1, rest);
      NaturalsCons(batch);
      MergeRowSpec(d, n, a);
      forall i | 0 <= i < |batch| ensures r.rows[batch[i].0].attrs == batch[i].1 {
        if i > 0 { assert batch[i] == rest[i - 1]; }
      }
    }
  }

  /** The natural keys of a batch: its head's and its tail's, the head's
      not among the tail's. */
  lemma NaturalsCons<A>(batch: seq<(int, A)>)
    requires |batch| > 0 && DistinctNaturals(batch)
    ensures Naturals(batch) == {batch[0].0} + Naturals(batch[1..])
    ensures batch[0].0 !in Naturals(batch[1..])
  {
    var rest := batch[1..];
    forall x | x in Naturals(batch) ensures x in {batch[0].0} + Naturals(rest) {
      var i :| 0 <= i < |batch| && batch[i].0 == x;
      if i > 0 { assert rest[i - 1].0 == x; }
    }
    forall x | x in Naturals(rest) ensures x in Naturals(batch) {
      var i :| 0 <= i < |rest| && rest[i].0 == x;
      assert batch[i + 1].0 == x;
    }
    forall i | 0 <= i < |rest| ensures rest[i].0 != batch[0].0 {
      assert batch[i + 1] == rest[i];
    }
  }

  /** One MERGE row: the key is present with the given attributes; an
      existing key keeps its surrogate, a new one takes the counter; nothing
      else changes; validity is preserved. */
  lemma MergeRowSpec<A>(d: Dimension<A>, n: int, a: A)
    ensures var r := MergeRow(d, n, a);
      && r.rows.Keys == d.rows.Keys + {n}
      && r.rows[n].attrs == a
      && (n in d.rows ==> r.rows[n].key == d.rows[n].key && r.nextKey == d.nextKey)
      && (n !in d.rows ==> r.rows[n].key == d.nextKey && r.nextKey == d.nextKey + 1)
      && (forall m :: m in d.rows && m != n ==> r.rows[m] == d.rows[m])
      && (Valid(d) ==> Valid(r))
  { }

  /** A batch every row of which is already stored as given changes
      nothing. */
  lemma {:induction false} MergeBatchFixed<A>(d: Dimension<A>, batch: seq<(int, A)>)
    requires DistinctNaturals(batch)
    requires forall i :: 0 <= i < |batch| ==> batch[i].0 in d.rows && d.rows[batch[i].0].attrs == batch[i].1
    ensures MergeBatch(d, batch) == d
    decreases |batch|
  {
    if |batch| > 0 {
      var (n, a) := batch[0];
      assert d.rows[n := DimRow(d.rows[n].key, a)] == d.rows;
      assert MergeRow(d, n, a) == d;
      MergeBatchFixed(d, batch[1..]);
    }
  }

  /** Applying the same batch twice equals applying it once. */
  lemma MergeBatchIdempotent<A>(d: Dimension<A>, batch: seq<(int, A)>)
    requires DistinctNaturals(batch)
    ensures MergeBatch(MergeBatch(d, batch), batch) == MergeBatch(d, batch)
  {
    MergeBatchSpec(d, batch);
    var r := MergeBatch(d, batch);
    forall i | 0 <= i < |batch| ensures batch[i].0 in r.rows {
      assert batch[i].0 in Naturals(batch);
    }
    MergeBatchFixed(r, batch);
  }

  /** `merge_dim_*`: stage, then MERGE. */
  function MergeDimension<A>(d: Dimension<A>, rows: seq<(int, A)>, batchSize: int): (r: Result<Dimension<A>, MergeError>)
    requires DistinctNaturals(rows)
    ensures r.Failure? <==> |rows| > 0 && batchSize == 0
    ensures r.Success? && batchSize > 0 ==> r.value == MergeBatch(d, rows)
    ensures r.Success? && batchSize <= 0 ==> r.value == d
  {
    match Stage(rows, batchSize)
    case Failure(e) => Failure(e)
    case Success(staged) => Success(MergeBatch(d, staged))
  }

  /** `load_*_key_map`: natural key -> surrogate key over the whole table. */
  function KeyMap<A>(d: Dimension<A>): (m: map<int, int>)
    ensures m.Keys == d.rows.Keys
  {
    map n | n in d.rows :: d.rows[n].key
  }

  /** A map that never sends two keys to one value. */
  ghost predicate Injective(m: map<int, int>) {
    forall x, y :: x in m && y in m && x != y ==> m[x] != m[y]
  }

  /** The key map of a valid dimension is injective, and a MERGE extends it:
      every natural key it already had keeps its surrogate key, the batch's
      new natural keys are added, and nothing else is. */
  lemma KeyMapAfterMerge<A>(d: Dimension<A>, batch: seq<(int, A)>)
    requires Valid(d) && DistinctNaturals(batch)
    ensures Injective(KeyMap(d))
    ensures var m := KeyMap(MergeBatch(d, batch));
      && Injective(m)
      && m.Keys == KeyMap(d).Keys + Naturals(batch)
      && forall n :: n in KeyMap(d) ==> m[n] == KeyMap(d)[n]
  {
    MergeBatchSpec(d, batch);
  }

  // ---------------------------------------------------------------------
  // Natural-keyed tables (the fact table)
  // ---------------------------------------------------------------------

  /** A MERGE into a table whose primary key is the natural key itself: the
      staged row replaces the stored one, or is inserted. */
  function UpsertAll<V>(t: map<int, V>, batch: seq<(int, V)>): map<int, V>
    requires DistinctNaturals(batch)
    decreases |batch|
  {
    if |batch| == 0 then t else UpsertAll(t[batch[0].0 := batch[0].1], batch[1..])
  }

  /** After the MERGE the table holds exactly the old keys and the batch's;
      each batch row is stored as given; every other row is unchanged. */
  lemma {:induction false} UpsertAllSpec<V>(t: map<int, V>, batch: seq<(int, V)>)
    requires DistinctNaturals(batch)
    ensures var r := UpsertAll(t, batch);
      && r.Keys == t.Keys + Naturals(batch)
      && (forall i :: 0 <= i < |batch| ==> r[batch[i].0] == batch[i].1)
      && (forall n :: n in t && n !in Naturals(batch) ==> r[n] == t[n])
    decreases |batch|
  {
    if |batch| > 0 {
      var rest := batch[1..];
      assert DistinctNaturals(rest);
      UpsertAllSpec(t[batch[0].0 := batch[0].1], rest);
      var r := UpsertAll(t, batch);
      assert Naturals(batch) == {batch[0].0} + Naturals(rest) by {
        forall x | x in Naturals(batch) ensures x in {batch[0].0} + Naturals(rest) {
          var i :| 0 <= i < |batch| && batch[i].0 == x;
          if i > 0 { assert rest[i - 1].0 == x; }
        }
        forall x | x in Naturals(rest) ensures x in Naturals(batch) {
          var i :| 0 <= i < |rest| && rest[i].0 == x;
          assert batch[i + 1].0 == x;
        }
      }
      assert batch[0].0 !in Naturals(rest) by {
        forall i | 0 <= i < |rest| ensures rest[i].0 != batch[0].0 {
          assert batch[i + 1] == rest[i];
        }
      }
      forall i | 0 <= i < |batch| ensures r[batch[i].0] == batch[i].1 {
        if i > 0 { assert batch[i] == rest[i - 1]; }
      }
    }
  }

  /** Applying the same batch twice equals applying it once. */
  lemma UpsertAllIdempotent<V>(t: map<int, V>, batch: seq<(int, V)>)
    requires DistinctNaturals(batch)
    ensures UpsertAll(UpsertAll(t, batch), batch) == UpsertAll(t, batch)
  {
    var r := UpsertAll(t, batch);
    var r2 := UpsertAll(r, batch);
    UpsertAllSpec(t, batch);
    UpsertAllSpec(r, batch);
    forall n | n in r2 ensures n in r && r2[n] == r[n] {
      if n in Naturals(batch) {
        var i :| 0 <= i < |batch| && batch[i].0 == n;
      }
    }
    forall n | n in r ensures n in r2 { }
  }

  /** `merge_fact_submission`: stage, then MERGE by natural key. */
  function MergeTable<V>(t: map<int, V>, rows: seq<(int, V)>, batchSize: int): (r: Result<map<int, V>, MergeError>)
    requires DistinctNaturals(rows)
    ensures r.Failure? <==> |rows| > 0 && batchSize == 0
    ensures r.Success? && batchSize > 0 ==> r.value == UpsertAll(t, rows)
    ensures r.Success? && batchSize <= 0 ==> r.value == t
  {
    match Stage(rows, batchSize)
    case Failure(e) => Failure(e)
    case Success(staged) => Success(UpsertAll(t, staged))
  }
}
