/** A JSON document as `json.loads` hands it to the pipeline: a tagged union
    of null, booleans, integers, strings, arrays and objects. Objects keep
    their key/value pairs in document order. Floats are not modelled. */
module Json {
  import opened Wrappers

  datatype Value =
    | Null
    | Bool(b: bool)
    | Int(i: int)
    | Str(s: string)
    | Arr(items: seq<Value>)
    | Obj(fields: seq<(string, Value)>)

  /** The key/value pairs of a JSON object. */
  type Dict = seq<(string, Value)>

  /** Index of the binding `d[k]` reads. `json.loads` keeps the LAST value
      of a repeated key, so the last binding wins. */
  function Find(d: Dict, k: string): (r: Option<nat>)
    ensures r.Some? ==> r.value < |d| && d[r.value].0 == k
    ensures r.Some? ==> forall j :: r.value < j < |d| ==> d[j].0 != k
    ensures r.None? <==> forall j :: 0 <= j < |d| ==> d[j].0 != k
  {
    if |d| == 0 then None
    else if d[|d| - 1].0 == k then Some(|d| - 1)
    else Find(d[..|d| - 1], k)
  }

  /** `k in d` */
  predicate Has(d: Dict, k: string) {
    Find(d, k).Some?
  }

  /** `d.get(k)`: the bound value, or None when the key is absent. */
  function Get(d: Dict, k: string): (r: Option<Value>)
    ensures r.Some? <==> Has(d, k)
    ensures r.Some? ==> exists j :: 0 <= j < |d| && d[j] == (k, r.value)
  {
    match Find(d, k)
    case None => None
    case Some(i) => Some(d[i].1)
  }

  /** The value under a key is the one at its last occurrence. */
  lemma GetAt(d: Dict, k: string, i: nat)
    requires i < |d| && d[i].0 == k
    requires forall j :: i < j < |d| ==> d[j].0 != k
    ensures Get(d, k) == Some(d[i].1)
  {
    var r := Find(d, k);
    assert r.Some?;
    assert r.value == i;
  }

  /** `d.keys()` of the dict `json.loads` builds: each distinct key once, in
      the order it was first inserted. */
  function DictKeys(d: Dict): (ks: seq<string>)
    ensures forall k :: k in ks <==> Has(d, k)
    ensures forall a, b :: 0 <= a < b < |ks| ==> ks[a] != ks[b]
  {
    if |d| == 0 then []
    else
      var ks := DictKeys(d[..|d| - 1]);
      var k := d[|d| - 1].0;
      assert forall x :: Has(d, x) <==> Has(d[..|d| - 1], x) || x == k by {
        forall x ensures Has(d, x) <==> Has(d[..|d| - 1], x) || x == k {
          if x != k && Has(d, x) {
            var j := Find(d, x).value;
            assert d[..|d| - 1][j].0 == x;
          }
          if Has(d[..|d| - 1], x) {
            var j := Find(d[..|d| - 1], x).value;
            assert d[j].0 == x;
          }
        }
      }
      if k in ks then ks else ks + [k]
  }

  /** Python truthiness of a JSON value. */
  predicate Truthy(v: Value) {
    match v
    case Null => false
    case Bool(b) => b
    case Int(i) => i != 0
    case Str(s) => s != []
    case Arr(xs) => xs != []
    case Obj(fs) => fs != []
  }

  /** `jget(d, key, default)` of src/transform/build_curated.py: the value
      under `key`, with both an absent key and a JSON null giving `default`. */
  function JGet(d: Dict, k: string, default: Value): (r: Value)
    ensures (!Has(d, k) || Get(d, k) == Some(Null)) ==> r == default
    ensures Has(d, k) && Get(d, k) != Some(Null) ==> Some(r) == Get(d, k)
  {
    match Get(d, k)
    case None => default
    case Some(v) => if v == Null then default else v
  }

  /** `jget(d, key)` with the default default of None (JSON null). */
  function JGetOrNull(d: Dict, k: string): (r: Value)
    ensures r == Null <==> (!Has(d, k) || Get(d, k) == Some(Null))
    ensures r != Null ==> Get(d, k) == Some(r)
  {
    JGet(d, k, Null)
  }

  /** A raw table's `raw_payload` column as `json.loads` sees it: NULL,
      text it rejects, or a parsed document. */
  datatype Payload = NoPayload | Unparseable(text: string) | Parsed(doc: Value)
}
