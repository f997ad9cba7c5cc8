/** Identity resolution of src/transform/build_identity_map.py: find an
    email anywhere in a user's raw payload, normalise it, group users by
    normalised email, pick the smallest id of each group as the primary and
    flag every other id as a duplicate, then write both results with a
    delete-then-insert restricted to the ids this run emits. */
module Identity {
  import opened Wrappers
  import opened Text
  import opened Json

  /** The keys `find_email` tries first on an object, in this order. */
  const PriorityKeys: seq<string> := ["email", "email_address", "login_id", "user_email", "user", "contact"]

  // ---------------------------------------------------------------------
  // EMAIL_RE = ^[^\s@]+@[^\s@]+\.[^\s@]+$
  // ---------------------------------------------------------------------

  /** One character of the class `[^\s@]`. */
  predicate PartChar(c: char) {
    !IsSpace(c) && c != '@'
  }

  /** A match of `[^\s@]+`. */
  predicate IsPart(s: string) {
    |s| > 0 && forall k :: 0 <= k < |s| ==> PartChar(s[k])
  }

  /** The language of EMAIL_RE: three runs of `[^\s@]+` joined by '@' and a
      literal '.'. (`$` would also accept a final newline before the end;
      the strings it is applied to are stripped, so they never end in one.) */
  ghost predicate MatchesEmailRe(s: string) {
    exists i, j :: 0 < i && i + 1 < j && j + 1 < |s| && s[i] == '@' && s[j] == '.'
      && IsPart(s[..i]) && IsPart(s[i + 1..j]) && IsPart(s[j + 1..])
  }

  /** A '.' in `d` with at least one character before and after it. */
  predicate HasInnerDot(d: string) {
    exists j :: 0 < j < |d| - 1 && d[j] == '.'
  }

  /** The check `find_email` applies to a stripped string, decided
      directly: no whitespace, a non-empty part before the first '@', no
      further '@', and an inner '.' in the part after it. */
  predicate IsEmail(s: string) {
    && NoSpace(s)
    && match SplitOnce(s, '@')
       case None => false
       case Some((local, domain)) => |local| > 0 && '@' !in domain && HasInnerDot(domain)
  }

  lemma IsEmailToRe(s: string)
    requires IsEmail(s)
    ensures MatchesEmailRe(s)
  {
    var (local, domain) := SplitOnce(s, '@').value;
    var jd :| 0 < jd < |domain| - 1 && domain[jd] == '.';
    var i := |local|;
    var j := i + 1 + jd;
    assert s[..i] == local;
    assert s[i + 1..] == domain;
    assert s[i + 1..j] == domain[..jd];
    assert s[j + 1..] == domain[jd + 1..];
    assert s[i] == '@' && s[j] == '.';
    assert IsPart(s[..i]);
    assert IsPart(s[i + 1..j]);
    assert IsPart(s[j + 1..]);
  }

  lemma ReToIsEmail(s: string, i: int, j: int)
    requires 0 < i && i + 1 < j && j + 1 < |s| && s[i] == '@' && s[j] == '.'
    requires IsPart(s[..i]) && IsPart(s[i + 1..j]) && IsPart(s[j + 1..])
    ensures IsEmail(s)
  {
    forall k | 0 <= k < |s| ensures !IsSpace(s[k]) {
      if k < i { assert s[k] == s[..i][k]; }
      else if i < k < j { assert s[k] == s[i + 1..j][k - i - 1]; }
      else if j < k { assert s[k] == s[j + 1..][k - j - 1]; }
    }
    var domain := s[i + 1..];
    assert s == s[..i] + ['@'] + domain;
    SplitOnceUnique(s[..i], domain, '@');
    assert domain[j - i - 1] == '.';
    forall k | 0 <= k < |domain| ensures domain[k] != '@' {
      if k < j - i - 1 { assert domain[k] == s[i + 1..j][k]; }
      else if k > j - i - 1 { assert domain[k] == s[j + 1..][k - (j - i)]; }
    }
  }

  /** The direct check decides exactly the language of EMAIL_RE. */
  lemma IsEmailIffRe(s: string)
    ensures IsEmail(s) <==> MatchesEmailRe(s)
  {
    if IsEmail(s) {
      IsEmailToRe(s);
    }
    if MatchesEmailRe(s) {
      var i, j :| 0 < i && i + 1 < j && j + 1 < |s| && s[i] == '@' && s[j] == '.'
        && IsPart(s[..i]) && IsPart(s[i + 1..j]) && IsPart(s[j + 1..]);
      ReToIsEmail(s, i, j);
    }
  }

  /** Anything IsEmail accepts is non-empty, has exactly one '@', no
      whitespace, and a '.' after the '@' with a character on each side. */
  lemma EmailShape(s: string)
    requires IsEmail(s)
    ensures |s| > 0 && NoSpace(s) && Count(s, '@') == 1
    ensures exists i, j :: 0 <= i && i + 1 < j && j + 1 < |s| && s[i] == '@' && s[j] == '.'
  {
    var (local, domain) := SplitOnce(s, '@').value;
    CountAppend(local + ['@'], domain, '@');
    CountAppend(local, ['@'], '@');
    var jd :| 0 < jd < |domain| - 1 && domain[jd] == '.';
    assert s[|local|] == '@';
    assert s[|local| + 1 + jd] == domain[jd];
  }

  // ---------------------------------------------------------------------
  // find_email
  // ---------------------------------------------------------------------

  /** Python truthiness of `find_email`'s result (`if e:`). */
  predicate Found(e: Option<string>) {
    e.Some? && e.value != []
  }

  /** `find_email(obj)`: on a string, its stripped form when that is an
      email; on an object, the truthy values under PriorityKeys first, then
      the value of each distinct key in order; on a list, its elements in order; the first hit
      wins. Every answer passes IsEmail. */
  function FindEmail(v: Value): (r: Option<string>)
    ensures r.Some? ==> IsEmail(r.value) && r.value != []
    decreases v, 1
  {
    match v
    case Str(s) =>
      var t := Strip(s);
      if IsEmail(t) then EmailShape(t); Some(t) else None
    case Obj(fs) =>
      var e := SearchPriority(v, fs, 0);
      if Found(e) then e else SearchValues(v, fs, 0)
    case Arr(xs) => SearchItems(v, xs, 0)
    case _ => None
  }

  /** The loop over PriorityKeys from position `ki` on. */
  function SearchPriority(ghost parent: Value, fs: Dict, ki: nat): (r: Option<string>)
    requires parent == Obj(fs) && ki <= |PriorityKeys|
    ensures r.Some? ==> IsEmail(r.value) && r.value != []
    decreases parent, 0, |PriorityKeys| - ki
  {
    if ki == |PriorityKeys| then None
    else match Find(fs, PriorityKeys[ki])
      case Some(i) =>
        if Truthy(fs[i].1) && Found(FindEmail(fs[i].1)) then FindEmail(fs[i].1)
        else SearchPriority(parent, fs, ki + 1)
      case None => SearchPriority(parent, fs, ki + 1)
  }

  /** The loop over `obj.values()` from the `i`-th key on: each distinct key
      once, in insertion order, with the value a later repeat gave it. */
  function SearchValues(ghost parent: Value, fs: Dict, i: nat): (r: Option<string>)
    requires parent == Obj(fs) && i <= |DictKeys(fs)|
    ensures r.Some? ==> IsEmail(r.value) && r.value != []
    decreases parent, 0, |DictKeys(fs)| - i
  {
    var ks := DictKeys(fs);
    if i == |ks| then None
    else
      assert ks[i] in ks;
      var j := Find(fs, ks[i]).value;
      if Found(FindEmail(fs[j].1)) then FindEmail(fs[j].1)
      else SearchValues(parent, fs, i + 1)
  }

  /** The loop over a list's items from position `i` on. */
  function SearchItems(ghost parent: Value, xs: seq<Value>, i: nat): (r: Option<string>)
    requires parent == Arr(xs) && i <= |xs|
    ensures r.Some? ==> IsEmail(r.value) && r.value != []
    decreases parent, 0, |xs| - i
  {
    if i == |xs| then None
    else if Found(FindEmail(xs[i])) then FindEmail(xs[i])
    else SearchItems(parent, xs, i + 1)
  }

  /** Reference reading of the search order: the first of `vs` in which
      FindEmail finds something decides. */
  function FirstHit(vs: seq<Value>): (r: Option<string>)
  {
    if |vs| == 0 then None
    else if FindEmail(vs[0]).Some? then FindEmail(vs[0])
    else FirstHit(vs[1..])
  }

  /** The truthy values under `keys`, in key order. */
  function PriorityValues(fs: Dict, keys: seq<string>): seq<Value> {
    if |keys| == 0 then []
    else KeyHit(fs, keys[0]) + PriorityValues(fs, keys[1..])
  }

  /** `d.values()`: the value `d[k]` of each key of `d.keys()`, in that
      order; a repeated key contributes once, with its last value. */
  function Values(fs: Dict): (r: seq<Value>)
    ensures |r| == |DictKeys(fs)|
    ensures forall n :: 0 <= n < |r| ==> Get(fs, DictKeys(fs)[n]) == Some(r[n])
  {
    var ks := DictKeys(fs);
    assert forall n :: 0 <= n < |ks| ==> Has(fs, ks[n]) by {
      forall n | 0 <= n < |ks| ensures Has(fs, ks[n]) { assert ks[n] in ks; }
    }
    seq(|ks|, n requires 0 <= n < |ks| => fs[Find(fs, ks[n]).value].1)
  }

  /** The values an object search visits, in visiting order. */
  function Candidates(fs: Dict): seq<Value> {
    PriorityValues(fs, PriorityKeys) + Values(fs)
  }

  /** FirstHit finds something exactly when some value has a hit. */
  lemma {:induction false} FirstHitSome(vs: seq<Value>)
    ensures FirstHit(vs).Some? <==> exists k :: 0 <= k < |vs| && FindEmail(vs[k]).Some?
  {
    if |vs| > 0 {
      FirstHitSome(vs[1..]);
      if exists k :: 0 <= k < |vs| && FindEmail(vs[k]).Some? {
        var k :| 0 <= k < |vs| && FindEmail(vs[k]).Some?;
        if k > 0 { assert vs[1..][k - 1] == vs[k]; }
      }
      if FindEmail(vs[0]).None? && FirstHit(vs[1..]).Some? {
        var k :| 0 <= k < |vs[1..]| && FindEmail(vs[1..][k]).Some?;
        assert vs[k + 1] == vs[1..][k];
      }
    }
  }

  /** FirstHit returns the result for the first value that has one. */
  lemma {:induction false} FirstHitSpec(vs: seq<Value>)
    requires FirstHit(vs).Some?
    ensures exists k :: 0 <= k < |vs| && FindEmail(vs[k]) == FirstHit(vs)
                        && forall j :: 0 <= j < k ==> FindEmail(vs[j]).None?
  {
    if FindEmail(vs[0]).Some? {
      assert FindEmail(vs[0]) == FirstHit(vs);
    } else {
      FirstHitSpec(vs[1..]);
      var k :| 0 <= k < |vs[1..]| && FindEmail(vs[1..][k]) == FirstHit(vs[1..])
               && forall j :: 0 <= j < k ==> FindEmail(vs[1..][j]).None?;
      assert FindEmail(vs[k + 1]) == FirstHit(vs);
      forall j | 0 <= j < k + 1 ensures FindEmail(vs[j]).None? {
        if j > 0 { assert vs[j] == vs[1..][j - 1]; }
      }
    }
  }

  lemma {:induction false} FirstHitAppend(a: seq<Value>, b: seq<Value>)
    ensures FirstHit(a + b) == if FirstHit(a).Some? then FirstHit(a) else FirstHit(b)
  {
    if |a| > 0 {
      assert (a + b)[1..] == a[1..] + b;
      FirstHitAppend(a[1..], b);
    } else {
      assert a + b == b;
    }
  }

  /** The values a key contributes to PriorityValues: its value if truthy. */
  function KeyHit(fs: Dict, k: string): seq<Value> {
    match Get(fs, k)
    case Some(v) => if Truthy(v) then [v] else []
    case None => []
  }

  lemma SearchPriorityStep(fs: Dict, ki: nat)
    requires ki < |PriorityKeys|
    ensures SearchPriority(Obj(fs), fs, ki) ==
      if FirstHit(KeyHit(fs, PriorityKeys[ki])).Some? then FirstHit(KeyHit(fs, PriorityKeys[ki]))
      else SearchPriority(Obj(fs), fs, ki + 1)
  {
    var k := PriorityKeys[ki];
    match Find(fs, k)
    case Some(i) =>
      assert KeyHit(fs, k) == if Truthy(fs[i].1) then [fs[i].1] else [];
      if Truthy(fs[i].1) {
        assert FirstHit([fs[i].1]) == if FindEmail(fs[i].1).Some? then FindEmail(fs[i].1) else FirstHit([]);
      }
    case None =>
  }

  lemma {:induction false} SearchPriorityIsFirstHit(fs: Dict, ki: nat)
    requires ki <= |PriorityKeys|
    ensures SearchPriority(Obj(fs), fs, ki) == FirstHit(PriorityValues(fs, PriorityKeys[ki..]))
    decreases |PriorityKeys| - ki
  {
    var keys := PriorityKeys[ki..];
    if ki < |PriorityKeys| {
      assert keys[1..] == PriorityKeys[ki + 1..];
      SearchPriorityIsFirstHit(fs, ki + 1);
      SearchPriorityStep(fs, ki);
      assert PriorityValues(fs, keys) == KeyHit(fs, keys[0]) + PriorityValues(fs, keys[1..]);
      FirstHitAppend(KeyHit(fs, keys[0]), PriorityValues(fs, keys[1..]));
    }
  }

  lemma {:induction false} SearchValuesIsFirstHit(fs: Dict, i: nat)
    requires i <= |DictKeys(fs)|
    ensures SearchValues(Obj(fs), fs, i) == FirstHit(Values(fs)[i..])
    decreases |DictKeys(fs)| - i
  {
    if i < |DictKeys(fs)| {
      assert Values(fs)[i..][1..] == Values(fs)[i + 1..];
      SearchValuesIsFirstHit(fs, i + 1);
    }
  }

  lemma {:induction false} SearchItemsIsFirstHit(xs: seq<Value>, i: nat)
    requires i <= |xs|
    ensures SearchItems(Arr(xs), xs, i) == FirstHit(xs[i..])
    decreases |xs| - i
  {
    if i < |xs| {
      assert xs[i..][1..] == xs[i + 1..];
      SearchItemsIsFirstHit(xs, i + 1);
    }
  }

  /** On an object, the search visits the truthy values under PriorityKeys,
      then all values in order, and the first hit wins. */
  lemma FindEmailObject(fs: Dict)
    ensures FindEmail(Obj(fs)) == FirstHit(Candidates(fs))
  {
    SearchPriorityIsFirstHit(fs, 0);
    SearchValuesIsFirstHit(fs, 0);
    assert PriorityKeys[0..] == PriorityKeys;
    assert Values(fs)[0..] == Values(fs);
    FirstHitAppend(PriorityValues(fs, PriorityKeys), Values(fs));
  }

  /** A key bound twice is searched once, with its last value: `{k: first,
      k: last}` loads as `{k: last}`, under a priority key or any other. */
  lemma RepeatedKeyLastWins(k: string, first: Value, last: Value)
    ensures FindEmail(Obj([(k, first), (k, last)])) == FindEmail(last)
  {
    var fs := [(k, first), (k, last)];
    TwoBindings(k, first, last);
    assert SearchValues(Obj(fs), fs, 0) == FindEmail(last);
    SearchPriorityLast(Obj(fs), fs, 0);
  }

  /** The case above on text: the earlier email under "a" is overwritten
      while loading, so nothing is found. */
  lemma RepeatedKeyExample()
    ensures FindEmail(Obj([("a", Str("x@y.co")), ("a", Null)])) == None
  {
    RepeatedKeyLastWins("a", Str("x@y.co"), Null);
  }

  /** `{k: first, k: last}` has the single key `k`, found at the second
      binding. */
  lemma TwoBindings(k: string, first: Value, last: Value)
    ensures DictKeys([(k, first), (k, last)]) == [k]
    ensures forall x :: Find([(k, first), (k, last)], x) == if x == k then Some(1) else None
  {
    var fs := [(k, first), (k, last)];
    assert DictKeys(fs[..1]) == [k];
  }

  /** When each priority key still to be tried is absent or found at the
      last binding, the priority loop yields nothing or what that binding's
      value yields. */
  lemma {:induction false} SearchPriorityLast(parent: Value, fs: Dict, ki: nat)
    requires parent == Obj(fs) && ki <= |PriorityKeys| && |fs| > 0
    requires forall j :: ki <= j < |PriorityKeys| ==>
      Find(fs, PriorityKeys[j]) == None || Find(fs, PriorityKeys[j]) == Some(|fs| - 1)
    ensures SearchPriority(parent, fs, ki) == None ||
      SearchPriority(parent, fs, ki) == FindEmail(fs[|fs| - 1].1)
    decreases |PriorityKeys| - ki
  {
    if ki < |PriorityKeys| {
      SearchPriorityLast(parent, fs, ki + 1);
    }
  }

  /** On a list, the search visits the elements in order; first hit wins. */
  lemma FindEmailArray(xs: seq<Value>)
    ensures FindEmail(Arr(xs)) == FirstHit(xs)
  {
    SearchItemsIsFirstHit(xs, 0);
    assert xs[0..] == xs;
  }

  /** On a string, the search is the IsEmail check of its stripped form. */
  lemma FindEmailString(s: string)
    ensures FindEmail(Str(s)) == if IsEmail(Strip(s)) then Some(Strip(s)) else None
  { }

  /** A string yields its stripped form exactly when that matches EMAIL_RE;
      null, booleans and integers yield nothing. */
  lemma FindEmailScalars(s: string, b: bool, n: int)
    ensures FindEmail(Str(s)).Some? <==> MatchesEmailRe(Strip(s))
    ensures FindEmail(Str(s)).Some? ==> FindEmail(Str(s)).value == Strip(s)
    ensures FindEmail(Null).None? && FindEmail(Bool(b)).None? && FindEmail(Int(n)).None?
  {
    assert FindEmail(Null) == None && FindEmail(Bool(b)) == None && FindEmail(Int(n)) == None;
    FindEmailString(s);
    IsEmailIffRe(Strip(s));
  }

  // ---------------------------------------------------------------------
  // normalize_email
  // ---------------------------------------------------------------------

  /** `normalize_email(e)`: None for None or "", else `e.strip().lower()`. */
  function NormalizeEmail(e: Option<string>): (r: Option<string>)
    ensures r.Some? <==> e.Some? && e.value != []
    ensures r.Some? ==> Strip(r.value) == r.value
    ensures r.Some? ==> forall k :: 0 <= k < |r.value| ==> !('A' <= r.value[k] <= 'Z')
    ensures r.Some? ==> var t := Strip(e.value);
      |r.value| == |t| &&
      forall k :: 0 <= k < |t| ==> r.value[k] == LowerChar(t[k])
  {
    if e.None? || e.value == [] then None
    else
      var t := Strip(e.value);
      LowerProperties(t);
      StripOfStripped(Lower(t));
      Some(Lower(t))
  }

  /** Normalising a non-empty normal form changes nothing. The one input
      whose normal form is empty is a whitespace-only string, and that
      empty form normalises to None. */
  lemma NormalizeIdempotent(e: Option<string>)
    ensures NormalizeEmail(e).Some? && NormalizeEmail(e).value != [] ==>
              NormalizeEmail(NormalizeEmail(e)) == NormalizeEmail(e)
    ensures NormalizeEmail(e) == Some([]) <==> e.Some? && e.value != [] && AllSpace(e.value)
  {
    if e.Some? && e.value != [] {
      StripEmptyIffAllSpace(e.value);
      var n := NormalizeEmail(e).value;
      if n != [] {
        NormalFixed(n);
      }
    }
  }

  /** A stripped string with no upper-case ASCII letter is its own normal
      form. */
  lemma NormalFixed(n: string)
    requires n != [] && Strip(n) == n
    requires forall k :: 0 <= k < |n| ==> !('A' <= n[k] <= 'Z')
    ensures NormalizeEmail(Some(n)) == Some(n)
  {
    var r := NormalizeEmail(Some(n)).value;
    forall k | 0 <= k < |n| ensures r[k] == n[k] {
      assert r[k] == LowerChar(n[k]);
    }
    assert r == n;
  }

  /** A present, non-empty email (`if not e` is false). */
  predicate Present(e: Option<string>) {
    e.Some? && e.value != []
  }

  /** Two emails share a group key exactly when both are present and their
      stripped forms agree up to ASCII case, or both are absent. */
  lemma NormalizeAlike(a: Option<string>, b: Option<string>)
    ensures NormalizeEmail(a) == NormalizeEmail(b) <==>
      Present(a) == Present(b) && (Present(a) ==> SameIgnoringCase(Strip(a.value), Strip(b.value)))
  {
    if Present(a) && Present(b) {
      LowerAlike(Strip(a.value), Strip(b.value));
      assert NormalizeEmail(a) == Some(Lower(Strip(a.value)));
      assert NormalizeEmail(b) == Some(Lower(Strip(b.value)));
    }
  }

  // ---------------------------------------------------------------------
  // Grouping, primaries and duplicate warnings
  // ---------------------------------------------------------------------

  /** A row of raw.canvas_users: (id, raw_payload). */
  datatype UserRow = UserRow(id: int, payload: Payload)

  /** `find_email` applied after the parse step: NULL is searched as None,
      unparseable text is searched as a plain string. */
  function PayloadEmail(p: Payload): Option<string> {
    match p
    case NoPayload => FindEmail(Null)
    case Unparseable(t) => FindEmail(Str(t))
    case Parsed(d) => FindEmail(d)
  }

  /** Text that fails to parse is still searched, as a string: it yields its
      stripped form exactly when that matches EMAIL_RE. */
  lemma UnparseableSearchedAsString(t: string)
    ensures PayloadEmail(Unparseable(t)).Some? <==> MatchesEmailRe(Strip(t))
    ensures PayloadEmail(Unparseable(t)).Some? ==> PayloadEmail(Unparseable(t)).value == Strip(t)
    ensures PayloadEmail(NoPayload).None?
  {
    FindEmailScalars(t, false, 0);
  }

  /** The grouping key of a row: its normalised email, or None when the row
      joins no group (`if email_norm:`). */
  function RowKey(r: UserRow): (k: Option<string>)
    ensures k.Some? ==> k.value != []
  {
    var n := NormalizeEmail(PayloadEmail(r.payload));
    if n.Some? && n.value != [] then n else None
  }

  /** Each row's grouping key next to its id, in row order. */
  function Keyed(rows: seq<UserRow>): (ps: seq<(Option<string>, int)>)
    ensures |ps| == |rows| && forall i :: 0 <= i < |rows| ==> ps[i] == (RowKey(rows[i]), rows[i].id)
  {
    seq(|rows|, i requires 0 <= i < |rows| => (RowKey(rows[i]), rows[i].id))
  }

  /** The `email_map.setdefault(email_norm, []).append(id)` loop over keyed
      rows: key -> ids in row order, repeats kept. */
  function GroupPairs(ps: seq<(Option<string>, int)>): (g: map<string, seq<int>>)
    ensures forall e :: e in g ==> |g[e]| > 0
  {
    if |ps| == 0 then map[]
    else
      var g := GroupPairs(ps[..|ps| - 1]);
      var (k, id) := ps[|ps| - 1];
      match k
      case None => g
      case Some(e) => g[e := (if e in g then g[e] else []) + [id]]
  }

  /** `email_map` */
  function Group(rows: seq<UserRow>): map<string, seq<int>> {
    GroupPairs(Keyed(rows))
  }

  /** The ids paired with key `e`. */
  ghost function PairIds(ps: seq<(Option<string>, int)>, e: string): set<int> {
    set p | p in ps && p.0 == Some(e) :: p.1
  }

  /** The groups are exactly the keys that occur, each holding exactly the
      ids paired with that key. */
  lemma {:induction false} GroupPairsSpec(ps: seq<(Option<string>, int)>)
    ensures forall e :: e in GroupPairs(ps) <==> exists p :: p in ps && p.0 == Some(e)
    ensures forall e :: e in GroupPairs(ps) ==> Elems(GroupPairs(ps)[e]) == PairIds(ps, e)
  {
    if |ps| > 0 {
      var init := ps[..|ps| - 1];
      var last := ps[|ps| - 1];
      GroupPairsSpec(init);
      assert ps == init + [last];
      assert forall p :: p in ps <==> p in init || p == last;
      var g := GroupPairs(init);
      forall e | e in GroupPairs(ps) ensures Elems(GroupPairs(ps)[e]) == PairIds(ps, e) {
        if last.0 == Some(e) {
          var old_ := if e in g then g[e] else [];
          assert Elems(old_ + [last.1]) == Elems(old_) + {last.1};
          if e !in g {
            assert PairIds(init, e) == {};
          }
          assert PairIds(ps, e) == PairIds(init, e) + {last.1};
        } else {
          assert PairIds(ps, e) == PairIds(init, e);
        }
      }
    }
  }

  /** The ids of the rows whose key is `e`. */
  ghost function IdsFor(rows: seq<UserRow>, e: string): set<int> {
    PairIds(Keyed(rows), e)
  }

  /** The normalised emails that occur in `rows`. */
  ghost function KeysOf(rows: seq<UserRow>): set<string> {
    set p | p in Keyed(rows) && p.0.Some? :: p.0.value
  }

  /** A key occurs exactly when some row carries it, with that row's id. */
  lemma KeyedMembers(rows: seq<UserRow>, e: string, id: int)
    ensures e in KeysOf(rows) <==> exists r :: r in rows && RowKey(r) == Some(e)
    ensures id in IdsFor(rows, e) <==> exists r :: r in rows && RowKey(r) == Some(e) && r.id == id
  {
    KeyedKey(rows, e);
    KeyedId(rows, e, id);
  }

  lemma KeyedKey(rows: seq<UserRow>, e: string)
    ensures e in KeysOf(rows) <==> exists r :: r in rows && RowKey(r) == Some(e)
  {
    var ps := Keyed(rows);
    if e in KeysOf(rows) {
      var p :| p in ps && p.0 == Some(e);
      var i :| 0 <= i < |ps| && ps[i] == p;
      assert rows[i] in rows;
    }
    if exists r :: r in rows && RowKey(r) == Some(e) {
      var r :| r in rows && RowKey(r) == Some(e);
      var i :| 0 <= i < |rows| && rows[i] == r;
      assert ps[i] in ps;
    }
  }

  lemma KeyedId(rows: seq<UserRow>, e: string, id: int)
    ensures id in IdsFor(rows, e) <==> exists r :: r in rows && RowKey(r) == Some(e) && r.id == id
  {
    var ps := Keyed(rows);
    if id in IdsFor(rows, e) {
      var p :| p in ps && p.0 == Some(e) && p.1 == id;
      var i :| 0 <= i < |ps| && ps[i] == p;
      assert rows[i] in rows;
    }
    if exists r :: r in rows && RowKey(r) == Some(e) && r.id == id {
      var r :| r in rows && RowKey(r) == Some(e) && r.id == id;
      var i :| 0 <= i < |rows| && rows[i] == r;
      assert ps[i] in ps;
    }
  }

  /** The smallest element of a non-empty list (`sorted(set(ids))[0]`). */
  function MinOf(xs: seq<int>): (m: int)
    requires |xs| > 0
    ensures m in xs && forall k :: 0 <= k < |xs| ==> m <= xs[k]
  {
    if |xs| == 1 then xs[0]
    else
      var m := MinOf(xs[1..]);
      assert forall k :: 1 <= k < |xs| ==> xs[k] == xs[1..][k - 1];
      if xs[0] <= m then xs[0] else m
  }

  /** A primary row of cur.person_identity_map. */
  datatype IdentityRow = IdentityRow(userId: int, email: string, matchMethod: string, confidence: int)

  /** A row of cur.person_identity_map_dq. */
  datatype DupRow = DupRow(userId: int, email: string, reason: string, severity: string, primaryId: int)

  /** What one resolver run emits; both target tables are unordered. */
  datatype Resolution = Resolution(primaries: set<IdentityRow>, duplicates: set<DupRow>)

  const MatchMethod: string := "email_exact"
  const MatchConfidence: int := 100
  const DupReason: string := "duplicate_email"
  const DupSeverity: string := "warn"

  /** The resolver's grouping step and row construction. */
  function Resolve(rows: seq<UserRow>): Resolution {
    var g := Group(rows);
    Resolution(
      set e | e in g :: IdentityRow(MinOf(g[e]), e, MatchMethod, MatchConfidence),
      set e, d | e in g && d in g[e] && d != MinOf(g[e]) :: DupRow(d, e, DupReason, DupSeverity, MinOf(g[e])))
  }

  /** The least element of a finite set of ids. */
  ghost predicate IsLeast(m: int, s: set<int>) {
    m in s && forall x :: x in s ==> m <= x
  }

  /** Every normalised email that occurs yields exactly one primary row,
      whose id is the least id in its group, with method 'email_exact' and
      confidence 100; every other distinct id of the group yields exactly
      one duplicate row pointing at the primary; nothing else is emitted. */
  lemma ResolveSpec(rows: seq<UserRow>)
    ensures forall p :: p in Resolve(rows).primaries <==>
      && p.email in KeysOf(rows)
      && IsLeast(p.userId, IdsFor(rows, p.email))
      && p.matchMethod == MatchMethod && p.confidence == MatchConfidence
    ensures forall d :: d in Resolve(rows).duplicates <==>
      && d.email in KeysOf(rows)
      && d.userId in IdsFor(rows, d.email)
      && IsLeast(d.primaryId, IdsFor(rows, d.email))
      && d.userId != d.primaryId
      && d.reason == DupReason && d.severity == DupSeverity
  {
    GroupPairsSpec(Keyed(rows));
    var g := Group(rows);
    forall e | e in g ensures IsLeast(MinOf(g[e]), IdsFor(rows, e)) {
      var m := MinOf(g[e]);
      assert m in Elems(g[e]);
      forall x | x in IdsFor(rows, e) ensures m <= x {
        assert x in Elems(g[e]);
      }
    }
    assert forall e :: e in g <==> e in KeysOf(rows);
    LeastUnique();
  }

  lemma LeastUnique()
    ensures forall m, n, s :: IsLeast(m, s) && IsLeast(n, s) ==> m == n
  {
  }

  /** Exactly one primary per normalised email; no two duplicate rows share
      (id, email); within a group the primary never gets a duplicate row. */
  lemma ResolveUnique(rows: seq<UserRow>)
    ensures forall p, q :: p in Resolve(rows).primaries && q in Resolve(rows).primaries && p.email == q.email ==> p == q
    ensures forall c, d ::
              (c in Resolve(rows).duplicates && d in Resolve(rows).duplicates && c.userId == d.userId && c.email == d.email)
              ==> c == d
    ensures forall p, d :: p in Resolve(rows).primaries && d in Resolve(rows).duplicates && p.email == d.email
                           ==> p.userId != d.userId && d.primaryId == p.userId
  {
    ResolveSpec(rows);
    LeastUnique();
  }

  /** The result depends only on which rows occur, not on their order or
      repetition. */
  lemma ResolveOrderIndependent(rows: seq<UserRow>, rows': seq<UserRow>)
    requires Elems(rows) == Elems(rows')
    ensures Resolve(rows) == Resolve(rows')
  {
    forall e ensures e in KeysOf(rows) <==> e in KeysOf(rows') {
      KeyedMembers(rows, e, 0);
      KeyedMembers(rows', e, 0);
      assert forall r :: r in rows <==> r in Elems(rows);
      assert forall r :: r in rows' <==> r in Elems(rows');
    }
    forall e ensures IdsFor(rows, e) == IdsFor(rows', e) {
      forall id ensures id in IdsFor(rows, e) <==> id in IdsFor(rows', e) {
        KeyedMembers(rows, e, id);
        KeyedMembers(rows', e, id);
        assert forall r :: r in rows <==> r in Elems(rows);
        assert forall r :: r in rows' <==> r in Elems(rows');
      }
    }
    ResolveSpec(rows);
    ResolveSpec(rows');
  }

  /** The ids of raw.canvas_users are unique (it is keyed by id). */
  predicate DistinctIds(rows: seq<UserRow>) {
    forall i, j :: 0 <= i < |rows| && 0 <= j < |rows| && rows[i].id == rows[j].id ==> i == j
  }

  /** No id is the primary of two emails. */
  predicate UniquePrimaryIds(ps: set<IdentityRow>) {
    forall p, q :: p in ps && q in ps && p.userId == q.userId ==> p == q
  }

  /** With unique raw ids every id is in at most one group, so no id is the
      primary of two emails and no primary is also flagged a duplicate. */
  lemma DistinctIdsResolve(rows: seq<UserRow>)
    requires DistinctIds(rows)
    ensures UniquePrimaryIds(Resolve(rows).primaries)
    ensures forall p, d :: p in Resolve(rows).primaries && d in Resolve(rows).duplicates ==> p.userId != d.userId
  {
    ResolveSpec(rows);
    LeastUnique();
    forall e1, e2, x | x in IdsFor(rows, e1) && x in IdsFor(rows, e2) ensures e1 == e2 {
      KeyedMembers(rows, e1, x);
      KeyedMembers(rows, e2, x);
      var r1 :| r1 in rows && RowKey(r1) == Some(e1) && r1.id == x;
      var r2 :| r2 in rows && RowKey(r2) == Some(e2) && r2.id == x;
      var i :| 0 <= i < |rows| && rows[i] == r1;
      var j :| 0 <= j < |rows| && rows[j] == r2;
    }
  }

  // ---------------------------------------------------------------------
  // The write step of main
  // ---------------------------------------------------------------------

  /** A cur.person_identity_map row without its key column. */
  datatype IdentityEntry = IdentityEntry(email: string, matchMethod: string, confidence: int)

  /** cur.person_identity_map (keyed by canvas_user_id) and
      cur.person_identity_map_dq (no key). */
  datatype IdentityTables = IdentityTables(identity: map<int, IdentityEntry>, dq: set<DupRow>)

  /** The INSERT of primaries violates the primary key on canvas_user_id. */
  datatype WriteError = DuplicatePrimaryKey

  function PrimaryIds(ps: set<IdentityRow>): set<int> {
    set p | p in ps :: p.userId
  }

  function DupIds(ds: set<DupRow>): set<int> {
    set d | d in ds :: d.userId
  }

  /** Delete the rows of the emitted ids, insert the emitted rows, commit;
      a key violation rolls the whole transaction back. */
  function WriteIdentity(t: IdentityTables, res: Resolution): (r: Result<IdentityTables, WriteError>)
    ensures r.Success? <==> UniquePrimaryIds(res.primaries)
  {
    if !UniquePrimaryIds(res.primaries) then Failure(DuplicatePrimaryKey)
    else
      var kept := map id | id in t.identity && id !in PrimaryIds(res.primaries) :: t.identity[id];
      var inserted := map p | p in res.primaries :: p.userId := IdentityEntry(p.email, p.matchMethod, p.confidence);
      var keptDq := set d | d in t.dq && d.userId !in DupIds(res.duplicates);
      Success(IdentityTables(kept + inserted, keptDq + res.duplicates))
  }

  /** Only the ids this run emits are touched: every emitted primary is
      stored under its id, every other id keeps its row (or its absence);
      dq rows of ids not flagged this run survive, and the flagged ids carry
      exactly this run's duplicate rows. */
  lemma WriteIdentitySpec(t: IdentityTables, res: Resolution)
    requires UniquePrimaryIds(res.primaries)
    ensures var t' := WriteIdentity(t, res).value;
      && (forall p :: p in res.primaries ==>
            p.userId in t'.identity && t'.identity[p.userId] == IdentityEntry(p.email, p.matchMethod, p.confidence))
      && (forall id :: id !in PrimaryIds(res.primaries) ==>
            (id in t'.identity <==> id in t.identity)
            && (id in t.identity ==> t'.identity[id] == t.identity[id]))
      && (forall d :: d in t'.dq <==> (d in t.dq && d.userId !in DupIds(res.duplicates)) || d in res.duplicates)
  {
    var t' := WriteIdentity(t, res).value;
    forall p | p in res.primaries
      ensures p.userId in t'.identity && t'.identity[p.userId] == IdentityEntry(p.email, p.matchMethod, p.confidence)
    {
      var inserted := map q | q in res.primaries :: q.userId := IdentityEntry(q.email, q.matchMethod, q.confidence);
      assert p.userId in inserted;
    }
  }

  /** Writing the same resolution twice leaves what writing it once left. */
  lemma WriteIdentityIdempotent(t: IdentityTables, res: Resolution)
    requires UniquePrimaryIds(res.primaries)
    ensures WriteIdentity(WriteIdentity(t, res).value, res) == WriteIdentity(t, res)
  {
    var t1 := WriteIdentity(t, res).value;
    var t2 := WriteIdentity(t1, res).value;
    WriteIdentitySpec(t, res);
    WriteIdentitySpec(t1, res);
    forall id | id in t1.identity ensures id in t2.identity && t2.identity[id] == t1.identity[id] {
      if id in PrimaryIds(res.primaries) {
        var p :| p in res.primaries && p.userId == id;
      }
    }
    forall id | id in t2.identity ensures id in t1.identity {
      if id in PrimaryIds(res.primaries) {
        var p :| p in res.primaries && p.userId == id;
      }
    }
    assert t2.identity == t1.identity;
    forall d | d in t2.dq ensures d in t1.dq {
      if d !in res.duplicates {
        assert d in t1.dq;
      }
    }
    forall d | d in t1.dq ensures d in t2.dq {
      if d !in res.duplicates {
        assert d.userId !in DupIds(res.duplicates);
      }
    }
    assert t2.dq == t1.dq;
  }

  /** One resolver run: resolve, then write. */
  function BuildIdentityMap(t: IdentityTables, rows: seq<UserRow>): Result<IdentityTables, WriteError> {
    WriteIdentity(t, Resolve(rows))
  }

  /** With unique raw ids the run always commits, and a second run over the
      same raw rows changes nothing further. */
  lemma BuildIdentityMapIdempotent(t: IdentityTables, rows: seq<UserRow>)
    requires DistinctIds(rows)
    ensures BuildIdentityMap(t, rows).Success?
    ensures BuildIdentityMap(BuildIdentityMap(t, rows).value, rows) == BuildIdentityMap(t, rows)
  {
    DistinctIdsResolve(rows);
    WriteIdentityIdempotent(t, Resolve(rows));
  }
}
