/** Schema-drift detection of src/meta/schema_snapshot.py: each listed table
    is compared with its latest stored snapshot; column-level differences,
    first sightings and disappearances are logged, and a new snapshot is
    stored. Catalog reads and log writes are modelled as values. */
module SchemaDiff {
  import opened Wrappers
  import opened Json
  import opened Text

  // ---------------------------------------------------------------------
  // Table names
  // ---------------------------------------------------------------------

  /** `split_table`: schema and table name around the FIRST '.'; a name
      without '.' raises (None). */
  function SplitTable(full: string): (r: Option<(string, string)>)
    ensures r.None? <==> '.' !in full
    ensures r.Some? ==> '.' !in r.value.0 && r.value.0 + "." + r.value.1 == full
  {
    var r := SplitOnce(full, '.');
    assert r.Some? ==> r.value.0 + "." + r.value.1 == r.value.0 + ['.'] + r.value.1;
    r
  }

  /** Joining a dot-free schema and any name splits back into the two. */
  lemma SplitTableRoundTrip(schema: string, name: string)
    requires '.' !in schema
    ensures SplitTable(schema + "." + name) == Some((schema, name))
  {
    assert schema + "." + name == schema + ['.'] + name;
    SplitOnceUnique(schema, name, '.');
  }

  /** `[t.strip() for t in arg.split(",") if t.strip()]`. */
  function TableList(arg: string): (ts: seq<string>)
    ensures forall i :: 0 <= i < |ts| ==> CleanName(ts[i])
  {
    StripEachClean(Split(arg, ','));
    StripEach(Split(arg, ','))
  }

  /** A list entry as `TableList` produces it: non-empty, comma-free, and
      neither starting nor ending with whitespace (so `strip` keeps it). */
  predicate CleanName(t: string) {
    t != [] && !IsSpace(t[0]) && !IsSpace(t[|t| - 1]) && ',' !in t
  }

  /** The stripped parts, blank ones dropped. */
  function StripEach(parts: seq<string>): seq<string> {
    if |parts| == 0 then []
    else
      var t := Strip(parts[0]);
      (if t == [] then [] else [t]) + StripEach(parts[1..])
  }

  /** Stripping comma-free parts leaves only clean names. */
  lemma {:induction false} StripEachClean(parts: seq<string>)
    requires forall i :: 0 <= i < |parts| ==> ',' !in parts[i]
    ensures forall i :: 0 <= i < |StripEach(parts)| ==> CleanName(StripEach(parts)[i])
  {
    if |parts| > 0 {
      var tail := parts[1..];
      assert forall i :: 0 <= i < |tail| ==> tail[i] == parts[i + 1];
      StripEachClean(tail);
      StripClean(parts[0]);
    }
  }

  /** A comma-free part strips to the empty string or to a clean name. */
  lemma StripClean(s: string)
    requires ',' !in s
    ensures Strip(s) == [] || CleanName(Strip(s))
  {
    StripKeeps(s);
  }

  /** Stripping removes characters only, so it introduces no comma. */
  lemma StripKeeps(s: string)
    requires ',' !in s
    ensures ',' !in Strip(s)
  {
    var t := Strip(s);
    var i: nat :| PaddedBy(s, t, i);
    forall k | 0 <= k < |t| ensures t[k] != ',' {
      assert t[k] == s[i + k];
    }
  }

  /** A comma-joined list of non-empty, stripped, comma-free names reads
      back as the same list. */
  lemma {:induction false} TableListJoin(names: seq<string>)
    requires |names| >= 1
    requires forall i :: 0 <= i < |names| ==> CleanName(names[i])
    ensures TableList(Join(names, ',')) == names
  {
    SplitJoin(names, ',');
    StripEachFixed(names);
  }

  lemma {:induction false} StripEachFixed(names: seq<string>)
    requires forall i :: 0 <= i < |names| ==> CleanName(names[i])
    ensures forall i :: 0 <= i < |names| ==> ',' !in names[i]
    ensures StripEach(names) == names
  {
    if |names| > 0 {
      var head := names[0];
      var tail := names[1..];
      assert CleanName(head);
      StripOfStripped(head);
      assert forall i :: 0 <= i < |tail| ==> tail[i] == names[i + 1];
      StripEachFixed(tail);
      assert StripEach(names) == [Strip(head)] + StripEach(tail);
      assert names == [head] + tail;
    }
  }

  // ---------------------------------------------------------------------
  // index_columns
  // ---------------------------------------------------------------------

  /** A column dict keyed by name; `names` lists the keys in first-insertion
      order, as a Python dict iterates them. */
  datatype ColumnIndex = ColumnIndex(names: seq<string>, cols: map<string, Dict>)

  /** The index invariant: the name list enumerates the keys once each. */
  predicate WellIndexed(ix: ColumnIndex) {
    && Elems(ix.names) == ix.cols.Keys
    && forall i, j :: 0 <= i < j < |ix.names| ==> ix.names[i] != ix.names[j]
  }

  /** The key a column is indexed under: `str(nm)` for a truthy `nm`
      (strings are themselves; `str` renders any other value). */
  function ColumnKey(c: Dict, str: Value -> string): (r: Option<string>)
    ensures r.Some? <==> Get(c, "name").Some? && Truthy(Get(c, "name").value)
    ensures r.Some? && Get(c, "name").value.Str? ==> r.value == Get(c, "name").value.s && r.value != []
  {
    match Get(c, "name")
    case None => None
    case Some(nm) => if !Truthy(nm) then None else if nm.Str? then Some(nm.s) else Some(str(nm))
  }

  /** The key of one list item, when it is an object with a truthy name. */
  function ItemKey(item: Value, str: Value -> string): Option<string> {
    if item.Obj? then ColumnKey(item.fields, str) else None
  }

  /** `m[str(nm)] = c` when the name is truthy. */
  function AddColumn(ix: ColumnIndex, c: Dict, str: Value -> string): (r: ColumnIndex)
    requires WellIndexed(ix)
    ensures WellIndexed(r)
    ensures r.cols == (match ColumnKey(c, str) case Some(k) => ix.cols[k := c] case None => ix.cols)
  {
    match ColumnKey(c, str)
    case None => ix
    case Some(k) =>
      if k in ix.cols then ColumnIndex(ix.names, ix.cols[k := c])
      else
        assert forall i :: 0 <= i < |ix.names| ==> ix.names[i] in ix.cols;
        ColumnIndex(ix.names + [k], ix.cols[k := c])
  }

  /** The loop of `index_columns` over a list: every item must be an object
      (`c.get` raises otherwise, None here). */
  function IndexItems(items: seq<Value>, str: Value -> string): (r: Option<ColumnIndex>)
    ensures r.Some? ==> WellIndexed(r.value)
    decreases |items|
  {
    if |items| == 0 then Some(ColumnIndex([], map[]))
    else
      var last := items[|items| - 1];
      match IndexItems(items[..|items| - 1], str)
      case None => None
      case Some(ix) => if last.Obj? then Some(AddColumn(ix, last.fields, str)) else None
  }

  /** The loop raises exactly when some item is not an object. */
  lemma {:induction false} IndexItemsFails(items: seq<Value>, str: Value -> string)
    ensures IndexItems(items, str).None? <==> exists i :: 0 <= i < |items| && !items[i].Obj?
    decreases |items|
  {
    if |items| > 0 {
      var init := items[..|items| - 1];
      IndexItemsFails(init, str);
      assert forall i :: 0 <= i < |init| ==> init[i] == items[i];
    }
  }

  /** One more item updates the index under its key, if it has one. */
  lemma IndexItemsLast(items: seq<Value>, str: Value -> string)
    requires |items| > 0 && IndexItems(items, str).Some?
    ensures IndexItems(items[..|items| - 1], str).Some?
    ensures var ix0 := IndexItems(items[..|items| - 1], str).value;
      var last := items[|items| - 1];
      IndexItems(items, str).value.cols ==
        (match ItemKey(last, str) case Some(k) => ix0.cols[k := last.fields] case None => ix0.cols)
  { }

  /** Item `i` is the last one keyed `k`. */
  ghost predicate LastKeyed(items: seq<Value>, str: Value -> string, k: string, i: int) {
    && 0 <= i < |items|
    && ItemKey(items[i], str) == Some(k)
    && forall j :: i < j < |items| ==> ItemKey(items[j], str) != Some(k)
  }

  /** Exactly the keys of the objects with a truthy name are indexed. */
  lemma {:induction false} IndexItemsKeys(items: seq<Value>, str: Value -> string, k: string)
    requires IndexItems(items, str).Some?
    ensures k in IndexItems(items, str).value.cols <==> exists i :: 0 <= i < |items| && ItemKey(items[i], str) == Some(k)
    decreases |items|
  {
    if |items| > 0 {
      var n := |items| - 1;
      var init := items[..n];
      IndexItemsLast(items, str);
      IndexItemsKeys(init, str, k);
      if ItemKey(items[n], str) != Some(k) {
        if k in IndexItems(init, str).value.cols {
          var i :| 0 <= i < |init| && ItemKey(init[i], str) == Some(k);
          assert init[i] == items[i];
        } else {
          forall i | 0 <= i < |items| ensures ItemKey(items[i], str) != Some(k) {
            if i < n { assert init[i] == items[i]; }
          }
        }
      }
    }
  }

  /** The position of the last item keyed `k`, if any. */
  function LastWith(items: seq<Value>, str: Value -> string, k: string): (r: Option<nat>)
    ensures r.Some? ==> LastKeyed(items, str, k, r.value)
    ensures r.None? ==> forall j :: 0 <= j < |items| ==> ItemKey(items[j], str) != Some(k)
    decreases |items|
  {
    if |items| == 0 then None
    else if ItemKey(items[|items| - 1], str) == Some(k) then Some(|items| - 1)
    else
      var r := LastWith(items[..|items| - 1], str, k);
      assert forall j :: 0 <= j < |items| - 1 ==> items[..|items| - 1][j] == items[j];
      r
  }

  /** A key is stored with the LAST object that carries it. */
  lemma {:induction false} IndexItemsSpec(items: seq<Value>, str: Value -> string, k: string)
    requires IndexItems(items, str).Some?
    requires k in IndexItems(items, str).value.cols
    ensures LastWith(items, str, k).Some?
    ensures IndexItems(items, str).value.cols[k] == items[LastWith(items, str, k).value].fields
    decreases |items|
  {
    var n := |items| - 1;
    var init := items[..n];
    IndexItemsLast(items, str);
    if ItemKey(items[n], str) != Some(k) {
      IndexItemsSpec(init, str, k);
      assert init[LastWith(init, str, k).value] == items[LastWith(init, str, k).value];
    }
  }

  /** `index_columns(doc)`: the document must be an object (the previous
      snapshot may be any JSON); `.get("columns", [])` is then iterated: a
      list item by item, an empty string or object yields nothing, and any
      other value raises. */
  function IndexColumns(doc: Value, str: Value -> string): (r: Option<ColumnIndex>)
    ensures !doc.Obj? ==> r.None?
    ensures doc.Obj? && !Has(doc.fields, "columns") ==> r == Some(ColumnIndex([], map[]))
    ensures doc.Obj? && Get(doc.fields, "columns").Some? && Get(doc.fields, "columns").value.Arr? ==>
      r == IndexItems(Get(doc.fields, "columns").value.items, str)
    ensures r.Some? ==> WellIndexed(r.value)
  {
    if !doc.Obj? then None
    else match Get(doc.fields, "columns")
      case None => Some(ColumnIndex([], map[]))
      case Some(Arr(items)) => IndexItems(items, str)
      case Some(Str(s)) => if s == [] then Some(ColumnIndex([], map[])) else None
      case Some(Obj(fs)) => if fs == [] then Some(ColumnIndex([], map[])) else None
      case Some(_) => None
  }

  // ---------------------------------------------------------------------
  // col_signature
  // ---------------------------------------------------------------------

  /** The eight keys compared for compatibility. */
  const SignatureKeys: seq<string> :=
    ["data_type", "char_max_length", "numeric_precision", "numeric_scale",
     "is_nullable", "default", "collation", "ordinal"]

  /** `col_signature(c)`: the eight keys with `c.get(key)` (null when
      absent). */
  function Signature(c: Dict): (sig: Dict)
    ensures |sig| == |SignatureKeys|
    ensures forall i :: 0 <= i < |sig| ==> sig[i].0 == SignatureKeys[i] && sig[i].1 == Get(c, SignatureKeys[i]).GetOr(Null)
  {
    seq(|SignatureKeys|, i requires 0 <= i < |SignatureKeys| => (SignatureKeys[i], Get(c, SignatureKeys[i]).GetOr(Null)))
  }

  /** Python `==` on JSON values: booleans equal the integers 0 and 1;
      otherwise values compare structurally. */
  predicate PyEq(a: Value, b: Value) {
    match (a, b)
    case (Bool(x), Int(n)) => n == (if x then 1 else 0)
    case (Int(n), Bool(x)) => n == (if x then 1 else 0)
    case _ => a == b
  }

  /** Value-by-value Python equality of two signatures (both built over
      the same key list). */
  predicate Agree(b: Dict, a: Dict)
    decreases |b|
  {
    |b| == 0 || (|a| > 0 && PyEq(b[0].1, a[0].1) && Agree(b[1..], a[1..]))
  }

  /** `col_signature(before) != col_signature(after)` is the negation of
      this. */
  predicate SameSignature(b: Dict, a: Dict) {
    Agree(Signature(b), Signature(a))
  }

  /** Agreement is position-wise `PyEq`. */
  lemma {:induction false} AgreeIff(b: Dict, a: Dict)
    requires |b| == |a|
    ensures Agree(b, a) <==> forall i :: 0 <= i < |b| ==> PyEq(b[i].1, a[i].1)
    decreases |b|
  {
    if |b| > 0 {
      AgreeIff(b[1..], a[1..]);
      assert forall i :: 1 <= i < |b| ==> b[1..][i - 1] == b[i] && a[1..][i - 1] == a[i];
    }
  }

  /** Two columns have the same signature exactly when each of the eight
      signature values is Python-equal. */
  lemma SameSignatureIff(b: Dict, a: Dict)
    ensures SameSignature(b, a) <==>
      forall i :: 0 <= i < |SignatureKeys| ==>
        PyEq(Get(b, SignatureKeys[i]).GetOr(Null), Get(a, SignatureKeys[i]).GetOr(Null))
  {
    AgreeIff(Signature(b), Signature(a));
  }

  /** Only the eight signature keys matter: columns that agree on them (an
      absent key counting as null) have the same signature, whatever else
      differs. */
  lemma SignatureOnlyKeys(b: Dict, a: Dict)
    requires forall i :: 0 <= i < |SignatureKeys| ==> Get(b, SignatureKeys[i]).GetOr(Null) == Get(a, SignatureKeys[i]).GetOr(Null)
    ensures SameSignature(b, a)
    ensures Signature(b) == Signature(a)
  {
    SameSignatureIff(b, a);
  }

  /** Signature equality is reflexive and symmetric. */
  lemma SameSignatureReflSym(b: Dict, a: Dict)
    ensures SameSignature(a, a)
    ensures SameSignature(b, a) <==> SameSignature(a, b)
  {
    SameSignatureIff(a, a);
    SameSignatureIff(b, a);
    SameSignatureIff(a, b);
  }

  // ---------------------------------------------------------------------
  // diff_schema
  // ---------------------------------------------------------------------

  /** One (change_type, detail) pair of `diff_schema`. */
  datatype Change =
    | ColumnAdded(column: string, after: Dict)
    | ColumnRemoved(column: string, before: Dict)
    | ColumnChanged(column: string, before: Dict, after: Dict, beforeSig: Dict, afterSig: Dict)

  /** Position of a change type in the output. */
  function Rank(ch: Change): nat {
    match ch
    case ColumnAdded(_, _) => 0
    case ColumnRemoved(_, _) => 1
    case ColumnChanged(_, _, _, _, _) => 2
  }

  /** The names of `xs` that are (or are not) keys of `m`, in order. */
  function Filter(xs: seq<string>, m: map<string, Dict>, inside: bool): (r: seq<string>)
    ensures forall x :: x in r <==> x in xs && ((x in m) == inside)
  {
    if |xs| == 0 then []
    else (if (xs[0] in m) == inside then [xs[0]] else []) + Filter(xs[1..], m, inside)
  }

  /** The sorted names of `ix` that are (or are not) keys of `m`. */
  function SortedFilter(ix: ColumnIndex, m: map<string, Dict>, inside: bool): (r: seq<string>)
    requires WellIndexed(ix)
    ensures forall i :: 0 <= i < |r| ==> r[i] in ix.cols && ((r[i] in m) == inside)
  {
    var f := Filter(ix.names, m, inside);
    var r := SortedSet(f);
    assert forall i :: 0 <= i < |r| ==> r[i] in Elems(r);
    assert forall x :: x in ix.names <==> x in Elems(ix.names);
    r
  }

  /** Every name of `ix` on the requested side of `m` is listed. */
  lemma SortedFilterHas(ix: ColumnIndex, m: map<string, Dict>, inside: bool, x: string)
    requires WellIndexed(ix)
    requires x in ix.cols && (x in m) == inside
    ensures x in SortedFilter(ix, m, inside)
  {
    assert x in Elems(ix.names);
    assert x in Elems(SortedSet(Filter(ix.names, m, inside)));
  }

  /** The filtered names come out strictly increasing. */
  lemma SortedFilterSorted(ix: ColumnIndex, m: map<string, Dict>, inside: bool)
    requires WellIndexed(ix)
    ensures StrictlySorted(SortedFilter(ix, m, inside))
  { }

  /** One `column_added` per name, in the given order. */
  function Added(names: seq<string>, cols: map<string, Dict>): (r: seq<Change>)
    requires forall i :: 0 <= i < |names| ==> names[i] in cols
    ensures |r| == |names|
    ensures forall i :: 0 <= i < |r| ==> r[i] == ColumnAdded(names[i], cols[names[i]])
  {
    seq(|names|, i requires 0 <= i < |names| => ColumnAdded(names[i], cols[names[i]]))
  }

  /** One `column_removed` per name, in the given order. */
  function Removed(names: seq<string>, cols: map<string, Dict>): (r: seq<Change>)
    requires forall i :: 0 <= i < |names| ==> names[i] in cols
    ensures |r| == |names|
    ensures forall i :: 0 <= i < |r| ==> r[i] == ColumnRemoved(names[i], cols[names[i]])
  {
    seq(|names|, i requires 0 <= i < |names| => ColumnRemoved(names[i], cols[names[i]]))
  }

  /** The change a common column gives when its signature moved. */
  function ChangedEntry(n: string, prev: map<string, Dict>, curr: map<string, Dict>): Change
    requires n in prev && n in curr
  {
    ColumnChanged(n, prev[n], curr[n], Signature(prev[n]), Signature(curr[n]))
  }

  /** The common names whose signatures differ, in the given order. */
  function ChangedNames(names: seq<string>, prev: map<string, Dict>, curr: map<string, Dict>): (r: seq<string>)
    requires forall i :: 0 <= i < |names| ==> names[i] in prev && names[i] in curr
    ensures forall i :: 0 <= i < |r| ==> r[i] in names && !SameSignature(prev[r[i]], curr[r[i]])
  {
    if |names| == 0 then []
    else
      var n := names[0];
      (if SameSignature(prev[n], curr[n]) then [] else [n]) + ChangedNames(names[1..], prev, curr)
  }

  /** Every name whose signature moved is listed. */
  lemma {:induction false} ChangedNamesHas(names: seq<string>, prev: map<string, Dict>, curr: map<string, Dict>, x: string)
    requires forall i :: 0 <= i < |names| ==> names[i] in prev && names[i] in curr
    requires x in names && !SameSignature(prev[x], curr[x])
    ensures x in ChangedNames(names, prev, curr)
  {
    if names[0] != x {
      ChangedNamesHas(names[1..], prev, curr, x);
    }
  }

  /** Filtering keeps the order of the names. */
  lemma {:induction false} ChangedNamesSorted(names: seq<string>, prev: map<string, Dict>, curr: map<string, Dict>)
    requires forall i :: 0 <= i < |names| ==> names[i] in prev && names[i] in curr
    requires StrictlySorted(names)
    ensures StrictlySorted(ChangedNames(names, prev, curr))
  {
    if |names| > 0 {
      var n := names[0];
      var rest := ChangedNames(names[1..], prev, curr);
      ChangedNamesSorted(names[1..], prev, curr);
      forall i | 0 <= i < |rest| ensures LexLt(n, rest[i]) {
        var k :| 0 <= k < |names[1..]| && names[1..][k] == rest[i];
        assert names[k + 1] == rest[i];
      }
    }
  }

  /** One `column_changed` per name, in the given order. */
  function Changed(names: seq<string>, prev: map<string, Dict>, curr: map<string, Dict>): (r: seq<Change>)
    requires forall i :: 0 <= i < |names| ==> names[i] in prev && names[i] in curr
    ensures |r| == |names|
    ensures forall i :: 0 <= i < |r| ==> r[i] == ChangedEntry(names[i], prev, curr)
  {
    seq(|names|, i requires 0 <= i < |names| => ChangedEntry(names[i], prev, curr))
  }

  /** The diff of two indexed schemas (the body of `diff_schema` once
      both sides are indexed). */
  function DiffIndexes(p: ColumnIndex, c: ColumnIndex): seq<Change>
    requires WellIndexed(p) && WellIndexed(c)
  {
    Added(SortedFilter(c, p.cols, false), c.cols)
    + Removed(SortedFilter(p, c.cols, false), p.cols)
    + Changed(ChangedNames(SortedFilter(p, c.cols, true), p.cols, c.cols), p.cols, c.cols)
  }

  /** The three groups of the diff, named. */
  lemma DiffParts(p: ColumnIndex, c: ColumnIndex)
    requires WellIndexed(p) && WellIndexed(c)
    ensures DiffIndexes(p, c) ==
      Added(SortedFilter(c, p.cols, false), c.cols)
      + Removed(SortedFilter(p, c.cols, false), p.cols)
      + Changed(ChangedNames(SortedFilter(p, c.cols, true), p.cols, c.cols), p.cols, c.cols)
  { }

  /** `diff_schema(prev, curr)`: all `column_added` (names only in the
      current schema), then all `column_removed` (names only in the previous
      one), then `column_changed` for common names whose signatures differ;
      each group by increasing name. Either side failing to index raises
      (None). */
  function DiffSchema(prev: Value, curr: Value, str: Value -> string): (r: Option<seq<Change>>)
    ensures r.None? <==> IndexColumns(prev, str).None? || IndexColumns(curr, str).None?
    ensures r.Some? ==> r.value == DiffIndexes(IndexColumns(prev, str).value, IndexColumns(curr, str).value)
  {
    var p :- IndexColumns(prev, str);
    var c :- IndexColumns(curr, str);
    Some(DiffIndexes(p, c))
  }

  /** What a change says about the two column maps it came from. */
  predicate Describes(ch: Change, prev: map<string, Dict>, curr: map<string, Dict>) {
    match ch
    case ColumnAdded(n, a) => n in curr && n !in prev && a == curr[n]
    case ColumnRemoved(n, b) => n in prev && n !in curr && b == prev[n]
    case ColumnChanged(n, b, a, bsig, asig) =>
      && n in prev && n in curr
      && !SameSignature(prev[n], curr[n])
      && b == prev[n] && a == curr[n]
      && bsig == Signature(b) && asig == Signature(a)
  }

  /** Groups come in the order added, removed, changed; names increase
      within a group. */
  predicate InDiffOrder(r: seq<Change>) {
    forall i, j :: 0 <= i < j < |r| ==>
      Rank(r[i]) < Rank(r[j]) || (Rank(r[i]) == Rank(r[j]) && LexLt(r[i].column, r[j].column))
  }

  /** Every change of `r` is true of the two column maps. */
  predicate AllDescribe(r: seq<Change>, prev: map<string, Dict>, curr: map<string, Dict>) {
    forall i :: 0 <= i < |r| ==> Describes(r[i], prev, curr)
  }

  lemma AllDescribeConcat(a: seq<Change>, b: seq<Change>, prev: map<string, Dict>, curr: map<string, Dict>)
    requires AllDescribe(a, prev, curr) && AllDescribe(b, prev, curr)
    ensures AllDescribe(a + b, prev, curr)
  {
    forall i | 0 <= i < |a + b| ensures Describes((a + b)[i], prev, curr) {
      if i >= |a| {
        assert (a + b)[i] == b[i - |a|];
      }
    }
  }

  lemma AddedSound(p: ColumnIndex, c: ColumnIndex)
    requires WellIndexed(p) && WellIndexed(c)
    ensures AllDescribe(Added(SortedFilter(c, p.cols, false), c.cols), p.cols, c.cols)
  {
    var names := SortedFilter(c, p.cols, false);
    forall i | 0 <= i < |names| ensures names[i] in c.cols && names[i] !in p.cols {
      assert names[i] in names;
    }
  }

  lemma RemovedSound(p: ColumnIndex, c: ColumnIndex)
    requires WellIndexed(p) && WellIndexed(c)
    ensures AllDescribe(Removed(SortedFilter(p, c.cols, false), p.cols), p.cols, c.cols)
  {
    var names := SortedFilter(p, c.cols, false);
    forall i | 0 <= i < |names| ensures names[i] in p.cols && names[i] !in c.cols {
      assert names[i] in names;
    }
  }

  lemma ChangedSound(p: ColumnIndex, c: ColumnIndex)
    requires WellIndexed(p) && WellIndexed(c)
    ensures AllDescribe(Changed(ChangedNames(SortedFilter(p, c.cols, true), p.cols, c.cols), p.cols, c.cols), p.cols, c.cols)
  {
    var names := ChangedNames(SortedFilter(p, c.cols, true), p.cols, c.cols);
    forall i | 0 <= i < |names|
      ensures names[i] in p.cols && names[i] in c.cols && !SameSignature(p.cols[names[i]], c.cols[names[i]])
    {
      assert names[i] in names;
    }
  }

  /** Every reported change is true of the two schemas. */
  lemma DiffSound(p: ColumnIndex, c: ColumnIndex)
    requires WellIndexed(p) && WellIndexed(c)
    ensures AllDescribe(DiffIndexes(p, c), p.cols, c.cols)
  {
    var ra := Added(SortedFilter(c, p.cols, false), c.cols);
    var rr := Removed(SortedFilter(p, c.cols, false), p.cols);
    var rc := Changed(ChangedNames(SortedFilter(p, c.cols, true), p.cols, c.cols), p.cols, c.cols);
    AddedSound(p, c);
    RemovedSound(p, c);
    ChangedSound(p, c);
    AllDescribeConcat(ra, rr, p.cols, c.cols);
    AllDescribeConcat(ra + rr, rc, p.cols, c.cols);
    DiffParts(p, c);
  }

  lemma InConcat(x: Change, a: seq<Change>, b: seq<Change>, c: seq<Change>)
    requires x in a || x in b || x in c
    ensures x in a + b + c
  { }

  /** A column only in the current schema is reported as added. */
  lemma DiffReportsAdded(p: ColumnIndex, c: ColumnIndex, n: string)
    requires WellIndexed(p) && WellIndexed(c)
    requires n in c.cols && n !in p.cols
    ensures ColumnAdded(n, c.cols[n]) in DiffIndexes(p, c)
  {
    var names := SortedFilter(c, p.cols, false);
    SortedFilterHas(c, p.cols, false, n);
    var k :| 0 <= k < |names| && names[k] == n;
    var ra := Added(names, c.cols);
    assert ra[k] == ColumnAdded(n, c.cols[n]);
    DiffParts(p, c);
    InConcat(ra[k], ra, Removed(SortedFilter(p, c.cols, false), p.cols),
      Changed(ChangedNames(SortedFilter(p, c.cols, true), p.cols, c.cols), p.cols, c.cols));
  }

  /** A column only in the previous schema is reported as removed. */
  lemma DiffReportsRemoved(p: ColumnIndex, c: ColumnIndex, n: string)
    requires WellIndexed(p) && WellIndexed(c)
    requires n in p.cols && n !in c.cols
    ensures ColumnRemoved(n, p.cols[n]) in DiffIndexes(p, c)
  {
    var names := SortedFilter(p, c.cols, false);
    SortedFilterHas(p, c.cols, false, n);
    var k :| 0 <= k < |names| && names[k] == n;
    var rr := Removed(names, p.cols);
    assert rr[k] == ColumnRemoved(n, p.cols[n]);
    DiffParts(p, c);
    InConcat(rr[k], Added(SortedFilter(c, p.cols, false), c.cols), rr,
      Changed(ChangedNames(SortedFilter(p, c.cols, true), p.cols, c.cols), p.cols, c.cols));
  }

  /** A common column whose signature moved is reported as changed. */
  lemma DiffReportsChanged(p: ColumnIndex, c: ColumnIndex, n: string)
    requires WellIndexed(p) && WellIndexed(c)
    requires n in p.cols && n in c.cols && !SameSignature(p.cols[n], c.cols[n])
    ensures ChangedEntry(n, p.cols, c.cols) in DiffIndexes(p, c)
  {
    var common := SortedFilter(p, c.cols, true);
    var names := ChangedNames(common, p.cols, c.cols);
    SortedFilterHas(p, c.cols, true, n);
    ChangedNamesHas(common, p.cols, c.cols, n);
    var k :| 0 <= k < |names| && names[k] == n;
    var rc := Changed(names, p.cols, c.cols);
    assert rc[k] == ChangedEntry(n, p.cols, c.cols);
    DiffParts(p, c);
    InConcat(rc[k], Added(SortedFilter(c, p.cols, false), c.cols), Removed(SortedFilter(p, c.cols, false), p.cols), rc);
  }

  /** A run of changes of one type with strictly increasing names. */
  predicate SortedRun(r: seq<Change>, rank: nat) {
    && (forall i :: 0 <= i < |r| ==> Rank(r[i]) == rank)
    && (forall i, j :: 0 <= i < j < |r| ==> LexLt(r[i].column, r[j].column))
  }

  /** Runs of increasing rank, each sorted by name, concatenate into diff
      order. */
  lemma RunsOrdered(ra: seq<Change>, rr: seq<Change>, rc: seq<Change>)
    requires SortedRun(ra, 0) && SortedRun(rr, 1) && SortedRun(rc, 2)
    ensures InDiffOrder(ra + rr + rc)
  {
    var r := ra + rr + rc;
    forall i, j | 0 <= i < j < |r|
      ensures Rank(r[i]) < Rank(r[j]) || (Rank(r[i]) == Rank(r[j]) && LexLt(r[i].column, r[j].column))
    {
      if j < |ra| {
        assert r[i] == ra[i] && r[j] == ra[j];
      } else if i >= |ra| + |rr| {
        assert r[i] == rc[i - |ra| - |rr|] && r[j] == rc[j - |ra| - |rr|];
      } else if i >= |ra| && j < |ra| + |rr| {
        assert r[i] == rr[i - |ra|] && r[j] == rr[j - |ra|];
      } else if i < |ra| {
        assert r[i] == ra[i];
        assert Rank(r[j]) > 0 by {
          if j < |ra| + |rr| { assert r[j] == rr[j - |ra|]; } else { assert r[j] == rc[j - |ra| - |rr|]; }
        }
      } else {
        assert r[i] == rr[i - |ra|] && r[j] == rc[j - |ra| - |rr|];
      }
    }
  }

  lemma AddedRun(p: ColumnIndex, c: ColumnIndex)
    requires WellIndexed(p) && WellIndexed(c)
    ensures SortedRun(Added(SortedFilter(c, p.cols, false), c.cols), 0)
  {
    SortedFilterSorted(c, p.cols, false);
  }

  lemma RemovedRun(p: ColumnIndex, c: ColumnIndex)
    requires WellIndexed(p) && WellIndexed(c)
    ensures SortedRun(Removed(SortedFilter(p, c.cols, false), p.cols), 1)
  {
    SortedFilterSorted(p, c.cols, false);
  }

  lemma ChangedRun(p: ColumnIndex, c: ColumnIndex)
    requires WellIndexed(p) && WellIndexed(c)
    ensures SortedRun(Changed(ChangedNames(SortedFilter(p, c.cols, true), p.cols, c.cols), p.cols, c.cols), 2)
  {
    SortedFilterSorted(p, c.cols, true);
    ChangedNamesSorted(SortedFilter(p, c.cols, true), p.cols, c.cols);
  }

  /** The output order: by change type, then by column name. */
  lemma DiffOrdered(p: ColumnIndex, c: ColumnIndex)
    requires WellIndexed(p) && WellIndexed(c)
    ensures InDiffOrder(DiffIndexes(p, c))
  {
    var ra := Added(SortedFilter(c, p.cols, false), c.cols);
    var rr := Removed(SortedFilter(p, c.cols, false), p.cols);
    var rc := Changed(ChangedNames(SortedFilter(p, c.cols, true), p.cols, c.cols), p.cols, c.cols);
    AddedRun(p, c);
    RemovedRun(p, c);
    ChangedRun(p, c);
    RunsOrdered(ra, rr, rc);
    DiffParts(p, c);
  }

  /** No column is reported twice. */
  lemma DiffDistinct(p: ColumnIndex, c: ColumnIndex)
    requires WellIndexed(p) && WellIndexed(c)
    ensures var r := DiffIndexes(p, c);
      forall i, j :: 0 <= i < j < |r| ==> r[i].column != r[j].column
  {
    var r := DiffIndexes(p, c);
    DiffSound(p, c);
    DiffOrdered(p, c);
    forall i, j | 0 <= i < j < |r| ensures r[i].column != r[j].column {
      assert Describes(r[i], p.cols, c.cols) && Describes(r[j], p.cols, c.cols);
    }
  }

  /** A schema never differs from itself. */
  lemma DiffSelf(doc: Value, str: Value -> string)
    requires IndexColumns(doc, str).Some?
    ensures DiffSchema(doc, doc, str) == Some([])
  {
    DiffIndexesSelf(IndexColumns(doc, str).value);
  }

  /** An index compared with itself has no differences. */
  lemma DiffIndexesSelf(ix: ColumnIndex)
    requires WellIndexed(ix)
    ensures DiffIndexes(ix, ix) == []
  {
    var r := DiffIndexes(ix, ix);
    var p := ix.cols;
    DiffSound(ix, ix);
    if |r| > 0 {
      assert Describes(r[0], p, p);
      match r[0]
      case ColumnChanged(n, _, _, _, _) =>
        SameSignatureReflSym(p[n], p[n]);
      case _ =>
    }
  }

  // ---------------------------------------------------------------------
  // read_table_schema
  // ---------------------------------------------------------------------

  /** One row of INFORMATION_SCHEMA.COLUMNS; absent values are None. */
  datatype ColumnInfo = ColumnInfo(
    name: string,
    ordinal: int,
    dataType: Option<string>,
    charMaxLength: Option<int>,
    numericPrecision: Option<int>,
    numericScale: Option<int>,
    isNullable: Option<string>,
    colDefault: Option<string>,
    collation: Option<string>)

  function OptStr(s: Option<string>): Value {
    match s
    case Some(x) => Str(x)
    case None => Null
  }

  function OptInt(n: Option<int>): Value {
    match n
    case Some(x) => Int(x)
    case None => Null
  }

  /** The column dict `read_table_schema` builds: the type lower-cased and
      `is_nullable` turned into a boolean (`"YES"` in any case). */
  function ColumnDoc(c: ColumnInfo): (d: Dict)
    ensures Get(d, "name") == Some(Str(c.name))
    ensures Get(d, "ordinal") == Some(Int(c.ordinal))
  {
    var d := [("name", Str(c.name)),
     ("ordinal", Int(c.ordinal)),
     ("data_type", match c.dataType case Some(t) => Str(Lower(t)) case None => Null),
     ("char_max_length", OptInt(c.charMaxLength)),
     ("numeric_precision", OptInt(c.numericPrecision)),
     ("numeric_scale", OptInt(c.numericScale)),
     ("is_nullable", match c.isNullable case Some(t) => Bool(Upper(t) == "YES") case None => Null),
     ("default", OptStr(c.colDefault)),
     ("collation", OptStr(c.collation))];
    GetAt(d, "name", 0);
    GetAt(d, "ordinal", 1);
    d
  }

  /** `{"table_name": t, "columns": [...]}`, columns in ordinal order. */
  function TableSchema(t: string, cols: seq<ColumnInfo>): (doc: Value)
    ensures doc.Obj? && Get(doc.fields, "columns") == Some(Arr(ColumnDocs(cols)))
  {
    Obj([("table_name", Str(t)), ("columns", Arr(ColumnDocs(cols)))])
  }

  function ColumnDocs(cols: seq<ColumnInfo>): (items: seq<Value>)
    ensures |items| == |cols|
    ensures forall i :: 0 <= i < |cols| ==> items[i] == Obj(ColumnDoc(cols[i]))
  {
    seq(|cols|, i requires 0 <= i < |cols| => Obj(ColumnDoc(cols[i])))
  }

  /** The names of the catalog columns, in ordinal order. */
  function ColumnNames(cols: seq<ColumnInfo>): (names: seq<string>)
    ensures |names| == |cols|
    ensures forall i :: 0 <= i < |cols| ==> names[i] == cols[i].name
  {
    seq(|cols|, i requires 0 <= i < |cols| => cols[i].name)
  }

  /** A freshly read schema always indexes, and its keys are exactly the
      non-empty column names. */
  lemma TableSchemaIndexes(t: string, cols: seq<ColumnInfo>, str: Value -> string, k: string)
    ensures IndexColumns(TableSchema(t, cols), str).Some?
    ensures k in IndexColumns(TableSchema(t, cols), str).value.cols <==>
      k != [] && exists i :: 0 <= i < |cols| && cols[i].name == k
  {
    var items := ColumnDocs(cols);
    IndexItemsFails(items, str);
    assert IndexColumns(TableSchema(t, cols), str) == IndexItems(items, str);
    IndexItemsKeys(items, str, k);
    forall i | 0 <= i < |cols| ensures ItemKey(items[i], str) == if cols[i].name == [] then None else Some(cols[i].name) {
      ItemKeyOfColumn(cols[i], str);
    }
  }

  /** A catalog column is keyed by its name, when that is non-empty. */
  lemma ItemKeyOfColumn(c: ColumnInfo, str: Value -> string)
    ensures ItemKey(Obj(ColumnDoc(c)), str) == if c.name == [] then None else Some(c.name)
  { }

  // ---------------------------------------------------------------------
  // main: one pass over the table list
  // ---------------------------------------------------------------------

  /** What a schema_change_log row records. */
  datatype TableChange =
    | TableMissing
    | TableAdded(columns: seq<string>)
    | ColumnChange(change: Change)

  datatype LogEntry = LogEntry(table: string, change: TableChange)

  /** The catalog as the job sees it: the names OBJECT_ID resolves to a user
      table, and the INFORMATION_SCHEMA.COLUMNS rows per (schema, table). */
  datatype Catalog = Catalog(tables: set<string>, columns: map<(string, string), seq<ColumnInfo>>)

  /** The job's state: the newest stored snapshot text per table, the tables
      snapshotted in this run (their (snapshot_time, table_name) key is
      taken), the change log written so far, and the three counters. */
  datatype SnapState = SnapState(
    latest: map<string, Payload>,
    taken: set<string>,
    log: seq<LogEntry>,
    changed: nat,
    snapped: nat,
    missing: nat)

  /** `get_latest_snapshot`: no row, an empty or NULL text, text that is not
      JSON, and JSON `null` all read as "no previous snapshot". */
  function LatestSnapshot(latest: map<string, Payload>, t: string): (r: Option<Value>)
    ensures r.Some? <==> t in latest && latest[t].Parsed? && latest[t].doc != Null
    ensures r.Some? ==> r.value == latest[t].doc
  {
    if t !in latest then None
    else match latest[t]
      case Parsed(doc) => if doc == Null then None else Some(doc)
      case _ => None
  }

  /** What `read_table_schema` returns for a name with a '.'. */
  function CurrentSchema(cat: Catalog, t: string): Value
    requires SplitTable(t).Some?
  {
    var (schema, name) := SplitTable(t).value;
    TableSchema(t, CatalogColumns(cat, schema, name))
  }

  /** The INFORMATION_SCHEMA rows for a table; none when unknown. */
  function CatalogColumns(cat: Catalog, schema: string, name: string): seq<ColumnInfo> {
    if (schema, name) in cat.columns then cat.columns[(schema, name)] else []
  }

  /** One `schema_change_log` row per change, in diff order. */
  function ChangeEntries(t: string, changes: seq<Change>): (r: seq<LogEntry>)
    ensures |r| == |changes|
    ensures forall i :: 0 <= i < |r| ==> r[i].table == t && r[i].change == ColumnChange(changes[i])
  {
    seq(|changes|, i requires 0 <= i < |changes| => LogEntry(t, ColumnChange(changes[i])))
  }

  /** The log rows for a table that exists: `table_added` with its column
      names on a first sighting, else one row per change of `diff_schema`
      (None when that raises). */
  function TableEntries(t: string, prev: Option<Value>, curr: Value, cols: seq<ColumnInfo>, str: Value -> string)
    : (r: Option<seq<LogEntry>>)
    ensures r.Some? ==> forall i :: 0 <= i < |r.value| ==> r.value[i].table == t
    ensures prev.None? ==> r == Some([LogEntry(t, TableAdded(ColumnNames(cols)))])
    ensures prev.Some? ==> (r.None? <==> DiffSchema(prev.value, curr, str).None?)
    ensures prev.Some? && r.Some? ==> r.value == ChangeEntries(t, DiffSchema(prev.value, curr, str).value)
  {
    match prev
    case None => Some([LogEntry(t, TableAdded(ColumnNames(cols)))])
    case Some(p) =>
      match DiffSchema(p, curr, str)
      case None => None
      case Some(changes) => Some(ChangeEntries(t, changes))
  }

  /** Writes log rows and counts them. */
  function Log(st: SnapState, entries: seq<LogEntry>): (r: SnapState)
    ensures r.changed - |r.log| == st.changed - |st.log|
    ensures |st.log| <= |r.log| && r.log[..|st.log|] == st.log
    ensures |r.log| == |st.log| + |entries| && r.log[|st.log|..] == entries
    ensures r.latest == st.latest && r.taken == st.taken && r.snapped == st.snapped && r.missing == st.missing
  {
    st.(log := st.log + entries, changed := st.changed + |entries|)
  }

  /** Stores a snapshot and counts it, unless this run has already stored
      one for the same name: that insert violates the primary key
      (snapshot_time, table_name) and changes nothing. */
  function Store(st: SnapState, t: string, curr: Value): (r: SnapState)
    ensures r.snapped - |r.taken| == st.snapped - |st.taken|
    ensures r.taken == st.taken + {t}
    ensures t !in st.taken ==> r.latest == st.latest[t := Parsed(curr)]
    ensures t in st.taken ==> r.latest == st.latest
    ensures r.log == st.log && r.changed == st.changed && r.missing == st.missing
  {
    if t in st.taken then st
    else st.(latest := st.latest[t := Parsed(curr)], taken := st.taken + {t}, snapped := st.snapped + 1)
  }

  /** One iteration of the loop in `main`. A missing table bumps the missing
      counter and, when it had a snapshot, logs `table_missing`. A table
      that raises (a name without '.', or a previous snapshot `diff_schema`
      cannot read) changes nothing. Otherwise its log rows are written and
      counted, then its snapshot is stored; a failing snapshot insert does
      not roll the log rows back. */
  function SnapStep(cat: Catalog, str: Value -> string, st: SnapState, t: string): (r: SnapState)
    ensures r.changed - |r.log| == st.changed - |st.log|
    ensures r.snapped - |r.taken| == st.snapped - |st.taken| && st.taken <= r.taken
    ensures |st.log| <= |r.log| && r.log[..|st.log|] == st.log
    ensures forall i :: |st.log| <= i < |r.log| ==> r.log[i].table == t
    ensures forall u :: u != t ==> (u in r.latest <==> u in st.latest) && (u in st.latest ==> r.latest[u] == st.latest[u])
    ensures r.missing == st.missing + (if t in cat.tables then 0 else 1)
    ensures r.taken - st.taken <= {t}
    ensures t in st.taken ==> r.latest == st.latest
    ensures t in r.taken - st.taken ==>
      t in cat.tables && SplitTable(t).Some? && t in r.latest && r.latest[t] == Parsed(CurrentSchema(cat, t))
  {
    var prev := LatestSnapshot(st.latest, t);
    if t !in cat.tables then
      var entries := if prev.Some? then [LogEntry(t, TableMissing)] else [];
      Log(st, entries).(missing := st.missing + 1)
    else match SplitTable(t)
      case None => st
      case Some((schema, name)) =>
        var curr := TableSchema(t, CatalogColumns(cat, schema, name));
        match TableEntries(t, prev, curr, CatalogColumns(cat, schema, name), str)
        case None => st
        case Some(entries) =>
          Store(Log(st, entries), t, curr)
  }

  /** What one iteration logs and stores: for a table gone from the
      catalog, a single "table missing" row when a snapshot of it exists and
      nothing stored; for a catalogued table whose comparison succeeds, its
      comparison rows and a stored snapshot; otherwise no change at all. */
  lemma SnapStepOutcome(cat: Catalog, str: Value -> string, st: SnapState, t: string)
    ensures var r := SnapStep(cat, str, st, t);
      t !in cat.tables ==>
        && r.log == st.log + (if LatestSnapshot(st.latest, t).Some? then [LogEntry(t, TableMissing)] else [])
        && r.taken == st.taken && r.latest == st.latest
    ensures var r := SnapStep(cat, str, st, t);
      t in cat.tables && SplitTable(t).Some? ==>
        var cols := CatalogColumns(cat, SplitTable(t).value.0, SplitTable(t).value.1);
        var entries := TableEntries(t, LatestSnapshot(st.latest, t), TableSchema(t, cols), cols, str);
        && (entries.Some? ==> r.log == st.log + entries.value && t in r.taken)
        && (entries.None? ==> r == st)
    ensures t in cat.tables && SplitTable(t).None? ==> SnapStep(cat, str, st, t) == st
  { }

  /** The loop over the tables, in list order. */
  function SnapRun(cat: Catalog, str: Value -> string, st: SnapState, tables: seq<string>): (r: SnapState)
    decreases |tables|
  {
    if |tables| == 0 then st
    else SnapRun(cat, str, SnapStep(cat, str, st, tables[0]), tables[1..])
  }

  /** The state `main` starts from: the stored snapshots, nothing else. */
  function StartState(latest: map<string, Payload>): SnapState {
    SnapState(latest, {}, [], 0, 0, 0)
  }

  /** `main` on a `--tables` argument. */
  function SchemaSnapshot(cat: Catalog, str: Value -> string, latest: map<string, Payload>, arg: string): SnapState {
    SnapRun(cat, str, StartState(latest), TableList(arg))
  }

  /** How many entries of the list name no existing table. */
  function MissingCount(cat: Catalog, tables: seq<string>): nat {
    if |tables| == 0 then 0
    else (if tables[0] in cat.tables then 0 else 1) + MissingCount(cat, tables[1..])
  }

  /** Over the whole loop: the change counter moves with the log, the
      snapshot counter with the set of snapshotted tables, the missing
      counter counts the list entries naming no table, the log only grows,
      and only listed, existing, dotted tables get a snapshot. */
  lemma {:induction false} SnapRunSpec(cat: Catalog, str: Value -> string, st: SnapState, tables: seq<string>)
    ensures var r := SnapRun(cat, str, st, tables);
      && r.changed - |r.log| == st.changed - |st.log|
      && r.snapped - |r.taken| == st.snapped - |st.taken|
      && r.missing == st.missing + MissingCount(cat, tables)
      && |st.log| <= |r.log| && r.log[..|st.log|] == st.log
      && st.taken <= r.taken
      && (forall u :: u in r.taken - st.taken ==> u in tables && u in cat.tables && SplitTable(u).Some?)
    decreases |tables|
  {
    if |tables| > 0 {
      var st1 := SnapStep(cat, str, st, tables[0]);
      SnapRunSpec(cat, str, st1, tables[1..]);
      var r := SnapRun(cat, str, st, tables);
      assert r.log[..|st.log|] == r.log[..|st1.log|][..|st.log|];
      forall u | u in r.taken - st.taken ensures u in tables {
        if u !in st1.taken { assert u in tables[1..]; }
      }
    }
  }

  /** The counters `main` logs at the end: changes_logged is the number of
      change-log rows written; snapped is the number of distinct tables
      snapshotted, each listed, existing and schema-qualified;
      missing_skipped counts the list entries naming no table. */
  lemma SchemaSnapshotCounters(cat: Catalog, str: Value -> string, latest: map<string, Payload>, arg: string)
    ensures var r := SchemaSnapshot(cat, str, latest, arg);
      && r.changed == |r.log|
      && r.snapped == |r.taken|
      && r.missing == MissingCount(cat, TableList(arg))
      && forall u :: u in r.taken ==> u in TableList(arg) && u in cat.tables && '.' in u
  {
    var tables := TableList(arg);
    SnapRunSpec(cat, str, StartState(latest), tables);
  }

  /** A table whose stored snapshot equals its current schema logs
      nothing. */
  lemma SnapStepNoDrift(cat: Catalog, str: Value -> string, st: SnapState, t: string)
    requires t in cat.tables && SplitTable(t).Some?
    requires t in st.latest && st.latest[t] == Parsed(CurrentSchema(cat, t))
    ensures SnapStep(cat, str, st, t).log == st.log
    ensures SnapStep(cat, str, st, t).changed == st.changed
  {
    var (schema, name) := SplitTable(t).value;
    var cols := CatalogColumns(cat, schema, name);
    var curr := TableSchema(t, cols);
    TableSchemaIndexes(t, cols, str, "");
    DiffSelf(curr, str);
    assert st.log + [] == st.log;
  }

  /** Every table snapshotted in this run holds its current schema. */
  ghost predicate Consistent(cat: Catalog, st: SnapState) {
    forall u :: u in st.taken ==>
      u in cat.tables && SplitTable(u).Some? && u in st.latest && st.latest[u] == Parsed(CurrentSchema(cat, u))
  }

  /** Each step keeps that. */
  lemma SnapStepConsistent(cat: Catalog, str: Value -> string, st: SnapState, t: string)
    requires Consistent(cat, st)
    ensures Consistent(cat, SnapStep(cat, str, st, t))
  {
    var r := SnapStep(cat, str, st, t);
    forall u | u in r.taken
      ensures u in cat.tables && SplitTable(u).Some? && u in r.latest && r.latest[u] == Parsed(CurrentSchema(cat, u))
    {
      if u in st.taken && u != t {
        assert st.latest[u] == Parsed(CurrentSchema(cat, u));
      }
    }
  }

  /** A table listed again in the same run changes nothing: its snapshot is
      the current schema, so the diff is empty, and the second snapshot
      insert fails on the primary key. */
  lemma SnapStepRepeat(cat: Catalog, str: Value -> string, st: SnapState, t: string)
    requires Consistent(cat, st) && t in st.taken
    ensures SnapStep(cat, str, st, t) == st
  {
    SnapStepNoDrift(cat, str, st, t);
  }
}
