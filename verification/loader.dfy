/** The raw loader of src/load/load_raw.py: JSONL lines are classified one by
    one into written, skipped (already covered by the stored watermark) and
    failed; written records are upserted by id, and in incremental mode the
    largest written `updated_at` becomes the new watermark. Lines arrive
    already parsed; the id rendering `str()` and the ISO-8601 parser are
    inputs. */
module RawLoad {
  import opened Wrappers
  import opened Json
  import opened Text

  // ---------------------------------------------------------------------
  // extract_by_path and parse_iso_datetime
  // ---------------------------------------------------------------------

  /** Walks a sequence of keys down nested objects; a missing key or a
      non-object on the way gives null. */
  function Follow(cur: Value, keys: seq<string>): (r: Value)
    ensures |keys| == 0 ==> r == cur
    ensures |keys| > 0 && !cur.Obj? ==> r == Null
    ensures |keys| > 0 && cur.Obj? && !Has(cur.fields, keys[0]) ==> r == Null
  {
    if |keys| == 0 then cur
    else match cur
      case Obj(fs) =>
        (match Get(fs, keys[0])
         case Some(v) => Follow(v, keys[1..])
         case None => Null)
      case _ => Null
  }

  /** Following two key paths one after the other is following their
      concatenation. */
  lemma {:induction false} FollowAppend(v: Value, p: seq<string>, q: seq<string>)
    ensures Follow(v, p + q) == Follow(Follow(v, p), q)
    decreases |p|
  {
    if |p| > 0 {
      assert (p + q)[0] == p[0] && (p + q)[1..] == p[1..] + q;
      match v {
        case Obj(fs) =>
          match Get(fs, p[0]) {
            case Some(x) =>
              FollowAppend(x, p[1..], q);
            case None =>
          }
        case _ =>
      }
    } else {
      assert p + q == q;
    }
  }

  /** `extract_by_path(obj, path)`: null for a non-object, otherwise the
      value reached along the dot-separated keys of `path`. */
  function ExtractByPath(obj: Value, path: string): (r: Value)
    ensures !obj.Obj? ==> r == Null
    ensures obj.Obj? ==> r == Follow(obj, Split(path, '.'))
  {
    if !obj.Obj? then Null else Follow(obj, Split(path, '.'))
  }

  /** A dot-free path is a plain lookup: the bound value, or null when the
      key is absent. */
  lemma ExtractSingleKey(fs: Dict, k: string)
    requires '.' !in k
    ensures Has(fs, k) ==> Some(ExtractByPath(Obj(fs), k)) == Get(fs, k)
    ensures !Has(fs, k) ==> ExtractByPath(Obj(fs), k) == Null
  {
    SplitJoin([k], '.');
    assert Join([k], '.') == k;
  }

  /** Extracting along `a.b` extracts `a`, then `b` from the result. */
  lemma ExtractComposes(obj: Value, a: string, b: string)
    ensures ExtractByPath(obj, a + "." + b) == ExtractByPath(ExtractByPath(obj, a), b)
  {
    SplitConcat(a, b, '.');
    assert a + "." + b == a + ['.'] + b;
    if obj.Obj? {
      var m := Follow(obj, Split(a, '.'));
      FollowAppend(obj, Split(a, '.'), Split(b, '.'));
      if !m.Obj? {
        assert |Split(b, '.')| > 0;
      }
    }
  }

  /** `s.replace(c, rep)` for a one-character pattern. */
  function ReplaceAll(s: string, c: char, rep: string): (r: string)
    ensures c !in rep ==> c !in r
    ensures c !in s ==> r == s
  {
    if |s| == 0 then []
    else (if s[0] == c then rep else [s[0]]) + ReplaceAll(s[1..], c, rep)
  }

  /** `parse_iso_datetime(v)`: only strings parse; they are stripped, empty
      ones give None, and when the stripped text ends in "Z" EVERY "Z" in it
      is rewritten as "+00:00" before parsing. */
  function ParseIso(parse: IsoParser, v: Value): (r: Option<int>)
    ensures !v.Str? ==> r.None?
    ensures v.Str? && AllSpace(v.s) ==> r.None?
    ensures v.Str? && !AllSpace(v.s) ==>
      var t := Strip(v.s);
      r == parse(if t[|t| - 1] == 'Z' then ReplaceAll(t, 'Z', "+00:00") else t)
  {
    match v
    case Str(s) =>
      var t := Strip(s);
      StripEmptyIffAllSpace(s);
      if t == [] then None
      else if t[|t| - 1] == 'Z' then parse(ReplaceAll(t, 'Z', "+00:00"))
      else parse(t)
    case _ => None
  }

  // ---------------------------------------------------------------------
  // UPDATE ... IF @@ROWCOUNT = 0 INSERT on a table of rows
  // ---------------------------------------------------------------------

  /** `UPDATE t SET v WHERE key = k`: the updated table and @@ROWCOUNT. */
  function UpdateWhere<K(==), V>(t: seq<(K, V)>, k: K, v: V): (r: (seq<(K, V)>, nat))
    ensures |r.0| == |t|
    ensures forall i :: 0 <= i < |t| ==> r.0[i] == (if t[i].0 == k then (k, v) else t[i])
    ensures r.1 == KeyCount(t, k)
  {
    if |t| == 0 then ([], 0)
    else
      var (rest, n) := UpdateWhere(t[1..], k, v);
      if t[0].0 == k then ([(k, v)] + rest, n + 1) else ([t[0]] + rest, n)
  }

  /** How many rows carry key `k`. */
  function KeyCount<K(==), V>(t: seq<(K, V)>, k: K): (n: nat)
    ensures n <= |t|
  {
    if |t| == 0 then 0 else (if t[0].0 == k then 1 else 0) + KeyCount(t[1..], k)
  }

  /** `upsert_record` / `upsert_watermark`: update every row with the key,
      and insert one when none matched. */
  function Upsert<K(==), V>(t: seq<(K, V)>, k: K, v: V): seq<(K, V)> {
    var (u, n) := UpdateWhere(t, k, v);
    if n == 0 then u + [(k, v)] else u
  }

  /** A table honouring its primary key. */
  predicate UniqueKeys<K(==), V>(t: seq<(K, V)>) {
    forall i, j :: 0 <= i < j < |t| ==> t[i].0 != t[j].0
  }

  /** The value of the first row with key `k` (`fetchone`). */
  function FirstWith<K(==), V>(t: seq<(K, V)>, k: K): (r: Option<V>)
    ensures r.None? <==> KeyCount(t, k) == 0
    ensures r.Some? ==> exists i :: 0 <= i < |t| && t[i] == (k, r.value)
  {
    if |t| == 0 then None
    else if t[0].0 == k then Some(t[0].1)
    else
      assert forall i :: 0 <= i < |t[1..]| ==> t[1..][i] == t[i + 1];
      FirstWith(t[1..], k)
  }

  lemma {:induction false} KeyCountZero<K, V>(t: seq<(K, V)>, k: K)
    ensures KeyCount(t, k) == 0 <==> forall i :: 0 <= i < |t| ==> t[i].0 != k
  {
    if |t| > 0 {
      KeyCountZero(t[1..], k);
      if forall i :: 0 <= i < |t[1..]| ==> t[1..][i].0 != k {
        forall i | 0 <= i < |t| ensures t[i].0 != k || t[0].0 == k {
          if i > 0 { assert t[i] == t[1..][i - 1]; }
        }
      }
      if forall i :: 0 <= i < |t| ==> t[i].0 != k {
        forall i | 0 <= i < |t[1..]| ensures t[1..][i].0 != k {
          assert t[1..][i] == t[i + 1];
        }
      }
    }
  }

  /** After an upsert the key is present and every row with it holds the new
      value; rows with other keys are exactly as before, in order; a table
      honouring its primary key keeps honouring it, and then holds exactly
      one row for the key. */
  lemma UpsertSpec<K, V>(t: seq<(K, V)>, k: K, v: V)
    ensures var r := Upsert(t, k, v);
      && KeyCount(r, k) >= 1
      && (forall i :: 0 <= i < |r| && r[i].0 == k ==> r[i].1 == v)
      && (forall i :: 0 <= i < |t| && t[i].0 != k ==> r[i] == t[i])
      && (forall i :: |t| <= i < |r| ==> r[i] == (k, v))
      && FirstWith(r, k) == Some(v)
      && (UniqueKeys(t) ==> UniqueKeys(r) && KeyCount(r, k) == 1)
  {
    var (u, n) := UpdateWhere(t, k, v);
    var r := Upsert(t, k, v);
    KeyCountZero(t, k);
    if n == 0 {
      KeyCountAppend(u, k, v);
      KeyCountZero(u, k);
      FirstWithAppend(u, k, v);
    } else {
      UpdatedCount(t, k, v);
      FirstWithUpdated(t, k, v);
      if UniqueKeys(t) {
        UniqueCount(t, k);
      }
    }
  }

  lemma {:induction false} KeyCountAppend<K, V>(t: seq<(K, V)>, k: K, v: V)
    ensures KeyCount(t + [(k, v)], k) == KeyCount(t, k) + 1
  {
    if |t| > 0 {
      assert (t + [(k, v)])[1..] == t[1..] + [(k, v)];
      KeyCountAppend(t[1..], k, v);
    }
  }

  lemma {:induction false} FirstWithAppend<K, V>(t: seq<(K, V)>, k: K, v: V)
    requires forall i :: 0 <= i < |t| ==> t[i].0 != k
    ensures FirstWith(t + [(k, v)], k) == Some(v)
  {
    if |t| > 0 {
      assert (t + [(k, v)])[1..] == t[1..] + [(k, v)];
      FirstWithAppend(t[1..], k, v);
    }
  }

  lemma {:induction false} UpdatedCount<K, V>(t: seq<(K, V)>, k: K, v: V)
    ensures KeyCount(UpdateWhere(t, k, v).0, k) == KeyCount(t, k)
  {
    if |t| > 0 {
      UpdatedCount(t[1..], k, v);
      assert UpdateWhere(t, k, v).0[1..] == UpdateWhere(t[1..], k, v).0;
    }
  }

  lemma {:induction false} FirstWithUpdated<K, V>(t: seq<(K, V)>, k: K, v: V)
    requires KeyCount(t, k) > 0
    ensures FirstWith(UpdateWhere(t, k, v).0, k) == Some(v)
  {
    if t[0].0 != k {
      FirstWithUpdated(t[1..], k, v);
      assert UpdateWhere(t, k, v).0[1..] == UpdateWhere(t[1..], k, v).0;
    }
  }

  lemma {:induction false} UniqueCount<K, V>(t: seq<(K, V)>, k: K)
    requires UniqueKeys(t)
    ensures KeyCount(t, k) <= 1
  {
    if |t| > 0 {
      assert UniqueKeys(t[1..]);
      UniqueCount(t[1..], k);
      if t[0].0 == k {
        KeyCountZero(t[1..], k);
        forall i | 0 <= i < |t[1..]| ensures t[1..][i].0 != k {
          assert t[1..][i] == t[i + 1];
        }
      }
    }
  }

  /** Repeating an upsert leaves the table as the first one left it. */
  lemma UpsertIdempotent<K, V>(t: seq<(K, V)>, k: K, v: V)
    ensures Upsert(Upsert(t, k, v), k, v) == Upsert(t, k, v)
  {
    var r := Upsert(t, k, v);
    UpsertSpec(t, k, v);
    var (u, n) := UpdateWhere(r, k, v);
    assert n > 0;
    assert u == r;
  }

  // ---------------------------------------------------------------------
  // The line loop of load_jsonl_to_db
  // ---------------------------------------------------------------------

  /** One line of the input file: blank after stripping, rejected by
      `json.loads`, or a parsed document. */
  datatype Line = Blank | Malformed | Doc(v: Value)

  /** A raw table row without its id: the payload and the extracted
      `updated_at`. */
  datatype RawRecord = RawRecord(payload: Value, updatedAt: Option<int>)

  /** The command-line options and the two conversions the loop relies on:
      `str()` of an id value, and the ISO-8601 parser. */
  datatype LoadConfig = LoadConfig(
    idField: string, sourceName: Option<string>, incremental: bool, updatedField: string,
    render: Value -> string, parse: IsoParser)

  /** The document is an object whose id field is present and not null. */
  predicate HasId(v: Value, idField: string) {
    v.Obj? && Has(v.fields, idField) && Get(v.fields, idField) != Some(Null)
  }

  /** The `updated_at` a document carries, per `--updated-field`. */
  function UpdatedAt(cfg: LoadConfig, v: Value): Option<int> {
    ParseIso(cfg.parse, ExtractByPath(v, cfg.updatedField))
  }

  /** What the loop does with one line. */
  datatype Verdict = Ignored | Failed | Skipped | Written(key: string, rec: RawRecord)

  /** The fate of one line given the watermark read at the start: blank
      lines are ignored; a line that is not an object with a non-null id
      fails; a record whose non-null `updated_at` is at or below a non-null
      watermark in incremental mode is skipped; every other record is
      written under `str(id)`. */
  function Classify(cfg: LoadConfig, wm: Option<int>, line: Line): (r: Verdict)
    ensures r.Ignored? <==> line.Blank?
    ensures r.Failed? <==> line.Malformed? || (line.Doc? && !HasId(line.v, cfg.idField))
    ensures r.Skipped? <==>
      line.Doc? && HasId(line.v, cfg.idField) && cfg.incremental && wm.Some?
      && UpdatedAt(cfg, line.v).Some? && UpdatedAt(cfg, line.v).value <= wm.value
    ensures r.Written? ==>
      (line.Doc? && r.rec == RawRecord(line.v, UpdatedAt(cfg, line.v))
      && r.key == cfg.render(Get(line.v.fields, cfg.idField).value))
  {
    match line
    case Blank => Ignored
    case Malformed => Failed
    case Doc(v) =>
      if !HasId(v, cfg.idField) then Failed
      else
        var upd := UpdatedAt(cfg, v);
        if cfg.incremental && wm.Some? && upd.Some? && upd.value <= wm.value then Skipped
        else Written(cfg.render(Get(v.fields, cfg.idField).value), RawRecord(v, upd))
  }

  /** Records with no `updated_at` are never skipped, and nothing is skipped
      without a watermark or outside incremental mode. */
  lemma NeverSkipped(cfg: LoadConfig, wm: Option<int>, line: Line)
    requires line.Doc? && HasId(line.v, cfg.idField)
    requires UpdatedAt(cfg, line.v).None? || wm.None? || !cfg.incremental
    ensures Classify(cfg, wm, line).Written?
  { }

  /** The loop's state: the target table, the three counters and the largest
      `updated_at` written so far. */
  datatype LoadState = LoadState(
    records: seq<(string, RawRecord)>, success: nat, skipped: nat, failed: nat, maxWritten: Option<int>)

  /** The larger of a running maximum and a new (possibly null) value. */
  function MaxOpt(m: Option<int>, x: Option<int>): (r: Option<int>)
    ensures r.Some? <==> m.Some? || x.Some?
    ensures r.Some? ==> (r == m || r == x)
    ensures m.Some? ==> r.Some? && m.value <= r.value
    ensures x.Some? ==> r.Some? && x.value <= r.value
  {
    match x
    case None => m
    case Some(t) => if m.None? || t > m.value then x else m
  }

  /** One iteration of the loop. */
  function Step(cfg: LoadConfig, wm: Option<int>, st: LoadState, line: Line): LoadState {
    match Classify(cfg, wm, line)
    case Ignored => st
    case Failed => st.(failed := st.failed + 1)
    case Skipped => st.(skipped := st.skipped + 1)
    case Written(k, rec) =>
      LoadState(Upsert(st.records, k, rec), st.success + 1, st.skipped, st.failed, MaxOpt(st.maxWritten, rec.updatedAt))
  }

  /** The loop over all lines, starting from the table as it was. */
  function Run(cfg: LoadConfig, wm: Option<int>, records: seq<(string, RawRecord)>, lines: seq<Line>): LoadState
    decreases |lines|
  {
    if |lines| == 0 then LoadState(records, 0, 0, 0, None)
    else Step(cfg, wm, Run(cfg, wm, records, lines[..|lines| - 1]), lines[|lines| - 1])
  }

  /** Lines that are not blank. */
  function NonBlank(lines: seq<Line>): (n: nat)
    ensures n <= |lines|
  {
    if |lines| == 0 then 0 else NonBlank(lines[..|lines| - 1]) + (if lines[|lines| - 1].Blank? then 0 else 1)
  }

  /** The `updated_at` a line contributes to the maximum: that of a written
      record, if it has one. */
  function WrittenAt(cfg: LoadConfig, wm: Option<int>, line: Line): Option<int> {
    match Classify(cfg, wm, line)
    case Written(_, rec) => rec.updatedAt
    case _ => None
  }

  /** `t` is the `updated_at` of some written line. */
  ghost predicate WrittenTime(cfg: LoadConfig, wm: Option<int>, lines: seq<Line>, t: int) {
    exists i :: 0 <= i < |lines| && WrittenAt(cfg, wm, lines[i]) == Some(t)
  }

  lemma StepMax(cfg: LoadConfig, wm: Option<int>, st: LoadState, line: Line)
    ensures Step(cfg, wm, st, line).maxWritten == MaxOpt(st.maxWritten, WrittenAt(cfg, wm, line))
  { }

  /** The record the last written line with key `k` carried, if any. */
  function LastWritten(cfg: LoadConfig, wm: Option<int>, lines: seq<Line>, k: string): Option<RawRecord>
    decreases |lines|
  {
    if |lines| == 0 then None
    else match Classify(cfg, wm, lines[|lines| - 1])
      case Written(k', rec) => if k' == k then Some(rec) else LastWritten(cfg, wm, lines[..|lines| - 1], k)
      case _ => LastWritten(cfg, wm, lines[..|lines| - 1], k)
  }

  /** Every non-blank line bumps exactly one counter; blank lines bump
      none. */
  lemma {:induction false} RunCounts(cfg: LoadConfig, wm: Option<int>, records: seq<(string, RawRecord)>, lines: seq<Line>)
    ensures var st := Run(cfg, wm, records, lines);
      st.success + st.skipped + st.failed == NonBlank(lines)
    decreases |lines|
  {
    if |lines| > 0 {
      RunCounts(cfg, wm, records, lines[..|lines| - 1]);
    }
  }

  /** What the loop does to the table: one honouring its key keeps
      honouring it, each key holds the record of the LAST line written under
      it, and keys no line wrote keep their row. */
  lemma {:induction false} RunRecords(cfg: LoadConfig, wm: Option<int>, records: seq<(string, RawRecord)>, lines: seq<Line>)
    requires UniqueKeys(records)
    ensures var st := Run(cfg, wm, records, lines);
      && UniqueKeys(st.records)
      && (forall k :: FirstWith(st.records, k) ==
            (match LastWritten(cfg, wm, lines, k) case Some(rec) => Some(rec) case None => FirstWith(records, k)))
    decreases |lines|
  {
    if |lines| > 0 {
      var init := lines[..|lines| - 1];
      RunRecords(cfg, wm, records, init);
      var st0 := Run(cfg, wm, records, init);
      var st := Run(cfg, wm, records, lines);
      match Classify(cfg, wm, lines[|lines| - 1]) {
        case Written(k', rec) =>
          UpsertSpec(st0.records, k', rec);
          forall k | k != k' ensures FirstWith(st.records, k) == FirstWith(st0.records, k) {
            UpsertOther(st0.records, k', rec, k);
          }
        case _ =>
      }
    }
  }

  /** The `updated_at` each line contributes. */
  function Times(cfg: LoadConfig, wm: Option<int>, lines: seq<Line>): (ts: seq<Option<int>>)
    ensures |ts| == |lines|
    ensures forall i :: 0 <= i < |lines| ==> ts[i] == WrittenAt(cfg, wm, lines[i])
  {
    seq(|lines|, i requires 0 <= i < |lines| => WrittenAt(cfg, wm, lines[i]))
  }

  /** The largest present value of a sequence of optional values. */
  function MaxPresent(xs: seq<Option<int>>): Option<int> {
    if |xs| == 0 then None else MaxOpt(MaxPresent(xs[..|xs| - 1]), xs[|xs| - 1])
  }

  /** It is one of the present values and bounds all of them; it is None
      only when none is present. */
  lemma {:induction false} MaxPresentSpec(xs: seq<Option<int>>)
    ensures MaxPresent(xs).Some? ==> exists i :: 0 <= i < |xs| && xs[i] == MaxPresent(xs)
    ensures forall i :: 0 <= i < |xs| && xs[i].Some? ==> MaxPresent(xs).Some? && xs[i].value <= MaxPresent(xs).value
  {
    if |xs| > 0 {
      var init := xs[..|xs| - 1];
      MaxPresentSpec(init);
      assert forall i :: 0 <= i < |init| ==> init[i] == xs[i];
    }
  }

  /** The loop's running maximum is the largest contributed time. */
  lemma {:induction false} RunMaxWritten(cfg: LoadConfig, wm: Option<int>, records: seq<(string, RawRecord)>, lines: seq<Line>)
    ensures Run(cfg, wm, records, lines).maxWritten == MaxPresent(Times(cfg, wm, lines))
    decreases |lines|
  {
    if |lines| > 0 {
      var init := lines[..|lines| - 1];
      RunMaxWritten(cfg, wm, records, init);
      StepMax(cfg, wm, Run(cfg, wm, records, init), lines[|lines| - 1]);
      assert Times(cfg, wm, lines)[..|lines| - 1] == Times(cfg, wm, init);
    }
  }

  /** The running maximum is the largest `updated_at` among written lines,
      and null when none of them had one. */
  lemma RunMax(cfg: LoadConfig, wm: Option<int>, records: seq<(string, RawRecord)>, lines: seq<Line>)
    ensures var m := Run(cfg, wm, records, lines).maxWritten;
      && (m.Some? ==> WrittenTime(cfg, wm, lines, m.value))
      && (forall t :: WrittenTime(cfg, wm, lines, t) ==> m.Some? && t <= m.value)
  {
    RunMaxWritten(cfg, wm, records, lines);
    MaxPresentSpec(Times(cfg, wm, lines));
  }

  /** An upsert leaves the first row of every other key alone. */
  lemma {:induction false} UpsertOther<K, V>(t: seq<(K, V)>, k: K, v: V, j: K)
    requires j != k
    ensures FirstWith(Upsert(t, k, v), j) == FirstWith(t, j)
  {
    var (u, n) := UpdateWhere(t, k, v);
    UpdateOther(t, k, v, j);
    if n == 0 {
      AppendOther(u, (k, v), j);
    }
  }

  lemma {:induction false} UpdateOther<K, V>(t: seq<(K, V)>, k: K, v: V, j: K)
    requires j != k
    ensures FirstWith(UpdateWhere(t, k, v).0, j) == FirstWith(t, j)
  {
    if |t| > 0 {
      UpdateOther(t[1..], k, v, j);
      assert UpdateWhere(t, k, v).0[1..] == UpdateWhere(t[1..], k, v).0;
    }
  }

  lemma {:induction false} AppendOther<K, V>(t: seq<(K, V)>, row: (K, V), j: K)
    requires row.0 != j
    ensures FirstWith(t + [row], j) == FirstWith(t, j)
  {
    if |t| > 0 {
      assert (t + [row])[1..] == t[1..] + [row];
      AppendOther(t[1..], row, j);
    } else {
      assert FirstWith([row][1..], j) == None;
    }
  }

  /** In incremental mode with a stored watermark, every written
      `updated_at` lies strictly above it, and so does the new maximum. */
  lemma WrittenAboveWatermark(cfg: LoadConfig, wm: Option<int>, records: seq<(string, RawRecord)>, lines: seq<Line>)
    requires cfg.incremental && wm.Some?
    ensures forall t :: WrittenTime(cfg, wm, lines, t) ==> t > wm.value
    ensures Run(cfg, wm, records, lines).maxWritten.Some? ==> Run(cfg, wm, records, lines).maxWritten.value > wm.value
  {
    forall t | WrittenTime(cfg, wm, lines, t) ensures t > wm.value {
      var i :| 0 <= i < |lines| && WrittenAt(cfg, wm, lines[i]) == Some(t);
      WrittenAtAbove(cfg, wm, lines[i]);
    }
    RunMax(cfg, wm, records, lines);
  }

  /** A written line's time, if any, is above the watermark. */
  lemma WrittenAtAbove(cfg: LoadConfig, wm: Option<int>, line: Line)
    requires cfg.incremental && wm.Some?
    ensures WrittenAt(cfg, wm, line).Some? ==> WrittenAt(cfg, wm, line).value > wm.value
  {
    var v := Classify(cfg, wm, line);
    if v.Written? {
      assert !v.Skipped?;
    }
  }

  /** Outside incremental mode, or without a watermark, nothing is
      skipped. */
  lemma {:induction false} NothingSkipped(cfg: LoadConfig, wm: Option<int>, records: seq<(string, RawRecord)>, lines: seq<Line>)
    requires !cfg.incremental || wm.None?
    ensures Run(cfg, wm, records, lines).skipped == 0
    decreases |lines|
  {
    if |lines| > 0 {
      NothingSkipped(cfg, wm, records, lines[..|lines| - 1]);
    }
  }

  // ---------------------------------------------------------------------
  // The whole load
  // ---------------------------------------------------------------------

  /** The target raw table and meta.watermark (source_name -> last_updated_at). */
  datatype RawTables = RawTables(records: seq<(string, RawRecord)>, watermarks: seq<(string, Option<int>)>)

  /** `--incremental` without `--source-name`. */
  datatype LoadError = MissingSourceName

  /** The tables after the load, the counters, and the old and new
      watermarks the final message reports. */
  datatype LoadReport = LoadReport(
    tables: RawTables, success: nat, skipped: nat, failed: nat,
    lastWatermark: Option<int>, newWatermark: Option<int>)

  /** Python truthiness of the optional source name. */
  predicate SourceGiven(name: Option<string>) {
    name.Some? && name.value != []
  }

  /** `get_last_watermark`: the first row's value; a missing row and a NULL
      value both give None. */
  function LastWatermark(watermarks: seq<(string, Option<int>)>, source: string): (r: Option<int>)
    ensures FirstWith(watermarks, source).None? ==> r.None?
    ensures FirstWith(watermarks, source).Some? ==> r == FirstWith(watermarks, source).value
  {
    match FirstWith(watermarks, source)
    case None => None
    case Some(v) => v
  }

  /** `load_jsonl_to_db`. */
  function LoadJsonl(t: RawTables, lines: seq<Line>, cfg: LoadConfig): (r: Result<LoadReport, LoadError>)
    ensures r.Failure? <==> cfg.incremental && !SourceGiven(cfg.sourceName)
    ensures r.Success? ==> r.value.success + r.value.skipped + r.value.failed == NonBlank(lines)
    ensures r.Success? && !cfg.incremental ==>
      r.value.skipped == 0 && r.value.tables.watermarks == t.watermarks && r.value.lastWatermark.None?
    ensures r.Success? && cfg.incremental ==>
      r.value.lastWatermark == LastWatermark(t.watermarks, cfg.sourceName.value)
    ensures r.Success? ==>
      r.value.tables.watermarks ==
        (if cfg.incremental && r.value.newWatermark.Some?
         then Upsert(t.watermarks, cfg.sourceName.value, r.value.newWatermark)
         else t.watermarks)
    ensures r.Success? ==> r.value.newWatermark == MaxPresent(Times(cfg, r.value.lastWatermark, lines))
    ensures r.Success? ==> r.value.tables.records == Run(cfg, r.value.lastWatermark, t.records, lines).records
  {
    if cfg.incremental && !SourceGiven(cfg.sourceName) then Failure(MissingSourceName)
    else
      var wm := if cfg.incremental then LastWatermark(t.watermarks, cfg.sourceName.value) else None;
      var st := Run(cfg, wm, t.records, lines);
      RunCounts(cfg, wm, t.records, lines);
      RunMaxWritten(cfg, wm, t.records, lines);
      assert !cfg.incremental ==> st.skipped == 0 by {
        if !cfg.incremental { NothingSkipped(cfg, wm, t.records, lines); }
      }
      var watermarks :=
        if cfg.incremental && SourceGiven(cfg.sourceName) && st.maxWritten.Some?
        then Upsert(t.watermarks, cfg.sourceName.value, st.maxWritten)
        else t.watermarks;
      Success(LoadReport(RawTables(st.records, watermarks), st.success, st.skipped, st.failed, wm, st.maxWritten))
  }

  /** The watermark the run computes: in incremental mode with a stored
      non-null watermark it lies strictly above it; when the run stores it,
      reading the watermark back gives it, and meta.watermark keeps one row
      per source. */
  lemma LoadJsonlWatermark(t: RawTables, lines: seq<Line>, cfg: LoadConfig)
    requires UniqueKeys(t.watermarks)
    requires LoadJsonl(t, lines, cfg).Success?
    ensures var r := LoadJsonl(t, lines, cfg).value;
      && (cfg.incremental && r.lastWatermark.Some? && r.newWatermark.Some? ==>
            r.newWatermark.value > r.lastWatermark.value)
      && (cfg.incremental && r.newWatermark.Some? ==>
            LastWatermark(r.tables.watermarks, cfg.sourceName.value) == r.newWatermark)
      && UniqueKeys(r.tables.watermarks)
  {
    var r := LoadJsonl(t, lines, cfg).value;
    if cfg.incremental {
      var wm := LastWatermark(t.watermarks, cfg.sourceName.value);
      if wm.Some? {
        WrittenAboveWatermark(cfg, wm, t.records, lines);
      }
      if r.newWatermark.Some? {
        UpsertSpec(t.watermarks, cfg.sourceName.value, r.newWatermark);
      }
    }
  }

  /** The raw table after the load: its key stays unique, each id holds the
      record of the last line written under it, and every other id keeps its
      row. */
  lemma LoadJsonlRecords(t: RawTables, lines: seq<Line>, cfg: LoadConfig)
    requires UniqueKeys(t.records)
    requires LoadJsonl(t, lines, cfg).Success?
    ensures var r := LoadJsonl(t, lines, cfg).value;
      var wm := if cfg.incremental then LastWatermark(t.watermarks, cfg.sourceName.value) else None;
      && UniqueKeys(r.tables.records)
      && forall k :: FirstWith(r.tables.records, k) ==
           (match LastWritten(cfg, wm, lines, k) case Some(rec) => Some(rec) case None => FirstWith(t.records, k))
  {
    var wm := if cfg.incremental then LastWatermark(t.watermarks, cfg.sourceName.value) else None;
    RunRecords(cfg, wm, t.records, lines);
  }
}
