/** The curated build of src/transform/build_curated.py: course and
    submission documents from the raw tables are parsed record by record,
    foreign keys are resolved against natural -> surrogate key maps, and the
    results are MERGEd into cur.dim_student, cur.dim_course and
    cur.fact_submission in that order. Timestamps are integers; the ISO-8601
    parser and the clock are inputs. */
module Curated {
  import opened Wrappers
  import opened Json
  import opened Merge
  import opened Text
  import Identity

  // ---------------------------------------------------------------------
  // Scalar helpers
  // ---------------------------------------------------------------------

  /** Python's `int(v)` on a non-null JSON scalar: integers are themselves,
      booleans are 0 and 1, anything else raises (None here). */
  function PyInt(v: Value): (r: Option<int>)
    ensures v.Int? ==> r == Some(v.i)
    ensures v.Bool? ==> r.Some? && (r.value == 1 <==> v.b) && (r.value == 0 <==> !v.b)
    ensures r.Some? <==> v.Int? || v.Bool?
  {
    match v
    case Int(i) => Some(i)
    case Bool(b) => Some(if b then 1 else 0)
    case _ => None
  }

  /** `s[:-1] + "+00:00"` for a string ending in "Z"; other strings as is. */
  function ZuluFix(s: string): string {
    if |s| > 0 && s[|s| - 1] == 'Z' then s[..|s| - 1] + "+00:00" else s
  }

  /** `parse_dt(v)`: falsy values give None, a non-string raises inside the
      `try` and gives None, a non-empty string is parsed after rewriting a
      trailing "Z" as "+00:00". */
  function ParseDt(parse: IsoParser, v: Value): (r: Option<int>)
    ensures r.Some? ==> v.Str? && v.s != [] && r == parse(ZuluFix(v.s))
    ensures v.Str? && v.s != [] ==> r == parse(ZuluFix(v.s))
  {
    match v
    case Str(s) => if s == [] then None else parse(ZuluFix(s))
    case _ => None
  }

  /** `1 if x is True else 0 if x is False else None`: only the JSON
      booleans themselves produce a flag. */
  function TriState(v: Value): (r: Option<int>)
    ensures r == Some(1) <==> v == Bool(true)
    ensures r == Some(0) <==> v == Bool(false)
    ensures r.None? <==> !v.Bool?
  {
    match v
    case Bool(b) => Some(if b then 1 else 0)
    case _ => None
  }

  /** `on_time_flag`: with both timestamps it says whether the submission
      came no later than the due date; otherwise an explicit `late` or
      `missing` of true makes it 0, and anything else leaves it unknown. */
  function OnTimeFlag(due: Option<int>, submitted: Option<int>, late: Value, missing: Value): (r: Option<int>)
    ensures r == Some(1) <==> due.Some? && submitted.Some? && submitted.value <= due.value
    ensures r == Some(0) <==>
      (due.Some? && submitted.Some? && submitted.value > due.value)
      || (!(due.Some? && submitted.Some?) && (TriState(late) == Some(1) || TriState(missing) == Some(1)))
    ensures r.None? <==> !(due.Some? && submitted.Some?) && TriState(late) != Some(1) && TriState(missing) != Some(1)
  {
    if due.Some? && submitted.Some? then
      (if submitted.value <= due.value then Some(1) else Some(0))
    else if late == Bool(true) || missing == Bool(true) then Some(0)
    else None
  }

  /** With both timestamps known, `late` and `missing` play no part. */
  lemma OnTimeIgnoresFlagsWhenTimed(due: int, submitted: int, late: Value, missing: Value, late': Value, missing': Value)
    ensures OnTimeFlag(Some(due), Some(submitted), late, missing) == OnTimeFlag(Some(due), Some(submitted), late', missing')
    ensures OnTimeFlag(Some(due), Some(submitted), late, missing).Some?
  { }

  // ---------------------------------------------------------------------
  // Raw rows and the errors that abort a read
  // ---------------------------------------------------------------------

  /** A row of raw.canvas_courses or raw.canvas_submissions:
      (id, raw_payload, updated_at). */
  datatype RawRow = RawRow(id: int, payload: Payload, updatedAt: Option<int>)

  /** The exceptions that escape a read loop and end the run: a parsed
      document that is not an object (`d.get` raises), or an `int()` of a
      field value that is not an integer. */
  datatype ReadError = NotAnObject(id: int) | NotAnInteger(id: int, field: string)

  /** `int(v) if v is not None else None` for field `field` of row `id`. */
  function IntField(id: int, field: string, v: Value): (r: Result<Option<int>, ReadError>)
    ensures r.Failure? <==> v != Null && PyInt(v).None?
    ensures r.Failure? ==> r.error == NotAnInteger(id, field)
    ensures r.Success? ==> (r.value.None? <==> v == Null) && (r.value.Some? ==> Some(r.value.value) == PyInt(v))
  {
    if v == Null then Success(None)
    else match PyInt(v)
      case None => Failure(NotAnInteger(id, field))
      case Some(n) => Success(Some(n))
  }

  /** `int(d.get(field))` raises: the value is present and not an integer. */
  predicate BadInt(d: Dict, field: string) {
    JGetOrNull(d, field) != Null && PyInt(JGetOrNull(d, field)).None?
  }

  /** A nullable integer column holds `int(d.get(field))`, or null when the
      field is null or absent. */
  predicate IntOf(x: Option<int>, d: Dict, field: string) {
    && (x.None? <==> JGetOrNull(d, field) == Null)
    && (x.Some? ==> Some(x.value) == PyInt(JGetOrNull(d, field)))
  }

  /** The raw rows whose payload parses, in table order. */
  function ParsedRows(raws: seq<RawRow>): (ps: seq<RawRow>)
    ensures |ps| <= |raws|
    ensures forall i :: 0 <= i < |ps| ==> ps[i].payload.Parsed? && ps[i] in raws
  {
    if |raws| == 0 then []
    else
      var rest := ParsedRows(raws[1..]);
      assert forall x :: x in rest ==> x in raws by {
        forall x | x in rest ensures x in raws {
          var i :| 0 <= i < |raws[1..]| && raws[1..][i] == x;
          assert raws[i + 1] == x;
        }
      }
      if raws[0].payload.Parsed? then [raws[0]] + rest else rest
  }

  /** The ids of the raw rows whose payload parses, in table order. */
  function ParsedIds(raws: seq<RawRow>): (ids: seq<int>)
    ensures |ids| <= |raws|
    ensures forall x :: x in ids ==> exists i :: 0 <= i < |raws| && raws[i].id == x && raws[i].payload.Parsed?
    ensures DistinctRawIds(raws) ==> DistinctInts(ids)
  {
    if |raws| == 0 then []
    else
      var rest := ParsedIds(raws[1..]);
      if raws[0].payload.Parsed? then
        assert DistinctRawIds(raws) ==> raws[0].id !in rest;
        [raws[0].id] + rest
      else rest
  }

  /** The raw table's primary key: no id occurs twice. */
  predicate DistinctRawIds(raws: seq<RawRow>) {
    forall i, j :: 0 <= i < j < |raws| ==> raws[i].id != raws[j].id
  }

  predicate DistinctInts(xs: seq<int>) {
    forall i, j :: 0 <= i < j < |xs| ==> xs[i] != xs[j]
  }

  /** The natural keys of a batch, in order. */
  function Ids<A>(rows: seq<(int, A)>): (ids: seq<int>)
    ensures |ids| == |rows|
    ensures forall i :: 0 <= i < |rows| ==> ids[i] == rows[i].0
  {
    if |rows| == 0 then [] else [rows[0].0] + Ids(rows[1..])
  }

  /** A batch keyed like the parsed rows of a raw table with a primary key
      has distinct natural keys. */
  lemma DistinctByIds<A>(raws: seq<RawRow>, rows: seq<(int, A)>)
    requires Ids(rows) == ParsedIds(raws)
    ensures DistinctRawIds(raws) ==> DistinctNaturals(rows)
  {
    if DistinctRawIds(raws) {
      DistinctIdsNaturals(rows);
    }
  }

  /** A batch whose key list has no repeats has distinct natural keys. */
  lemma DistinctIdsNaturals<A>(rows: seq<(int, A)>)
    requires DistinctInts(Ids(rows))
    ensures DistinctNaturals(rows)
  {
    forall i, j | 0 <= i < j < |rows| ensures rows[i].0 != rows[j].0 {
      assert Ids(rows)[i] != Ids(rows)[j];
    }
  }

  // ---------------------------------------------------------------------
  // dim_course
  // ---------------------------------------------------------------------

  /** The non-key columns of cur.dim_course. Columns the source copies from
      the document without conversion keep their JSON value. */
  datatype CourseAttrs = CourseAttrs(
    name: Value, courseCode: Value, workflowState: Value,
    startAt: Option<int>, endAt: Option<int>,
    termName: Value, sisCourseId: Value, accountId: Option<int>,
    rawUpdatedAt: Option<int>, updatedAt: int)

  /** `term["name"]` when `term` is an object, null otherwise. */
  function TermName(d: Dict): (r: Value)
    ensures (match Get(d, "term") case Some(Obj(_)) => false case _ => true) ==> r == Null
    ensures Get(d, "term").Some? && Get(d, "term").value.Obj? ==> r == JGetOrNull(Get(d, "term").value.fields, "name")
  {
    match Get(d, "term")
    case Some(Obj(t)) => JGetOrNull(t, "name")
    case _ => Null
  }

  /** One iteration of `read_raw_courses`: None for a skipped row. */
  function ParseCourse(parse: IsoParser, now: int, raw: RawRow): (r: Result<Option<(int, CourseAttrs)>, ReadError>)
    ensures !raw.payload.Parsed? ==> r == Success(None)
    ensures raw.payload.Parsed? && !raw.payload.doc.Obj? ==> r == Failure(NotAnObject(raw.id))
    ensures r.Success? && raw.payload.Parsed? ==> r.value.Some? && r.value.value.0 == raw.id
    ensures raw.payload.Parsed? && raw.payload.doc.Obj? ==>
      var d := raw.payload.doc.fields;
      && (r.Failure? <==> BadInt(d, "account_id"))
      && (r.Success? ==>
          var a := r.value.value.1;
          && a.name == JGetOrNull(d, "name")
          && a.courseCode == JGetOrNull(d, "course_code")
          && a.workflowState == JGetOrNull(d, "workflow_state")
          && a.startAt == ParseDt(parse, JGetOrNull(d, "start_at"))
          && a.endAt == ParseDt(parse, JGetOrNull(d, "end_at"))
          && a.termName == TermName(d)
          && a.sisCourseId == JGetOrNull(d, "sis_course_id")
          && IntOf(a.accountId, d, "account_id")
          && a.rawUpdatedAt == raw.updatedAt
          && a.updatedAt == now)
  {
    match raw.payload
    case NoPayload => Success(None)
    case Unparseable(_) => Success(None)
    case Parsed(doc) =>
      if !doc.Obj? then Failure(NotAnObject(raw.id))
      else
        var d := doc.fields;
        var account :- IntField(raw.id, "account_id", JGetOrNull(d, "account_id"));
        Success(Some((raw.id, CourseAttrs(
          JGetOrNull(d, "name"), JGetOrNull(d, "course_code"), JGetOrNull(d, "workflow_state"),
          ParseDt(parse, JGetOrNull(d, "start_at")), ParseDt(parse, JGetOrNull(d, "end_at")),
          TermName(d), JGetOrNull(d, "sis_course_id"), account,
          raw.updatedAt, now))))
  }

  /** `read_raw_courses`: one row per raw row whose payload parses, in table
      order, keyed by the raw id; the first row that raises ends the read. */
  function ReadCourses(parse: IsoParser, now: int, raws: seq<RawRow>): (r: Result<seq<(int, CourseAttrs)>, ReadError>)
    ensures r.Success? ==> Ids(r.value) == ParsedIds(raws)
    ensures r.Success? && DistinctRawIds(raws) ==> DistinctNaturals(r.value)
    ensures r.Failure? <==> exists i :: 0 <= i < |raws| && ParseCourse(parse, now, raws[i]).Failure?
  {
    if |raws| == 0 then Success([])
    else
      match ParseCourse(parse, now, raws[0])
      case Failure(e) => Failure(e)
      case Success(c) =>
        var rest := ReadCourses(parse, now, raws[1..]);
        assert rest.Failure? <==> exists i :: 1 <= i < |raws| && ParseCourse(parse, now, raws[i]).Failure? by {
          if rest.Failure? {
            var i :| 0 <= i < |raws[1..]| && ParseCourse(parse, now, raws[1..][i]).Failure?;
            assert raws[i + 1] == raws[1..][i];
          }
          if exists i :: 1 <= i < |raws| && ParseCourse(parse, now, raws[i]).Failure? {
            var i :| 1 <= i < |raws| && ParseCourse(parse, now, raws[i]).Failure?;
            assert raws[1..][i - 1] == raws[i];
          }
        }
        match rest
        case Failure(e) => Failure(e)
        case Success(rs) =>
          if c.Some? then
            assert Ids([c.value] + rs) == [c.value.0] + Ids(rs) by {
              assert ([c.value] + rs)[1..] == rs;
            }
            DistinctByIds(raws, [c.value] + rs);
            Success([c.value] + rs)
          else
            DistinctByIds(raws, rs);
            Success(rs)
  }

  /** Row k of the read is what `ParseCourse` makes of the k-th raw row whose
      payload parses. */
  lemma {:induction false} ReadCoursesRows(parse: IsoParser, now: int, raws: seq<RawRow>)
    requires ReadCourses(parse, now, raws).Success?
    ensures var rows := ReadCourses(parse, now, raws).value;
      && |rows| == |ParsedRows(raws)|
      && forall k :: 0 <= k < |rows| ==> ParseCourse(parse, now, ParsedRows(raws)[k]) == Success(Some(rows[k]))
  {
    if |raws| > 0 {
      ReadCoursesStep(parse, now, raws);
      ReadCoursesRows(parse, now, raws[1..]);
      if raws[0].payload.Parsed? {
        var rows := ReadCourses(parse, now, raws).value;
        var rest := ReadCourses(parse, now, raws[1..]).value;
        assert rows == [rows[0]] + rest;
        PointwiseCons(raws[0], ParsedRows(raws[1..]), rows[0], rest,
                      (raw, row) => ParseCourse(parse, now, raw) == Success(Some(row)));
      }
    }
  }

  /** One step of a course read that succeeds: the first row and the rest
      both read, and the first row leads the output when its payload
      parses. */
  lemma ReadCoursesStep(parse: IsoParser, now: int, raws: seq<RawRow>)
    requires |raws| > 0 && ReadCourses(parse, now, raws).Success?
    ensures ParseCourse(parse, now, raws[0]).Success? && ReadCourses(parse, now, raws[1..]).Success?
    ensures raws[0].payload.Parsed? ==>
      var rows := ReadCourses(parse, now, raws).value;
      && |rows| > 0
      && ParseCourse(parse, now, raws[0]) == Success(Some(rows[0]))
      && rows[1..] == ReadCourses(parse, now, raws[1..]).value
    ensures !raws[0].payload.Parsed? ==> ReadCourses(parse, now, raws).value == ReadCourses(parse, now, raws[1..]).value
  { }

  /** A relation that holds pointwise between two sequences still holds
      after both gain a related first element. */
  lemma PointwiseCons<T, U>(p: T, ps: seq<T>, x: U, xs: seq<U>, rel: (T, U) -> bool)
    requires |ps| == |xs| && rel(p, x)
    requires forall k :: 0 <= k < |xs| ==> rel(ps[k], xs[k])
    ensures forall k :: 0 <= k < |xs| + 1 ==> rel(([p] + ps)[k], ([x] + xs)[k])
  {
    forall k | 0 <= k < |xs| + 1 ensures rel(([p] + ps)[k], ([x] + xs)[k]) {
      if k > 0 {
        assert ([p] + ps)[k] == ps[k - 1] && ([x] + xs)[k] == xs[k - 1];
      }
    }
  }

  // ---------------------------------------------------------------------
  // fact_submission
  // ---------------------------------------------------------------------

  /** The non-key columns of cur.fact_submission (the score is not
      modelled). */
  datatype SubmissionAttrs = SubmissionAttrs(
    personKey: Option<int>, courseKey: Option<int>,
    userId: Option<int>, courseId: Option<int>, assignmentId: Option<int>,
    submittedAt: Option<int>, gradedAt: Option<int>, attempt: Option<int>,
    lateFlag: Option<int>, missingFlag: Option<int>,
    dueAt: Option<int>, onTimeFlag: Option<int>,
    workflowState: Value, rawUpdatedAt: Option<int>, updatedAt: int)

  /** Foreign-key resolution: a present natural key missing from the map
      yields no surrogate key and counts as a miss; an absent one yields no
      surrogate key and no miss. */
  function ResolveKey(natural: Option<int>, keys: map<int, int>): (r: (Option<int>, bool))
    ensures r.0.Some? <==> natural.Some? && natural.value in keys
    ensures r.0.Some? ==> r.0.value == keys[natural.value]
    ensures r.1 <==> natural.Some? && natural.value !in keys
  {
    match natural
    case None => (None, false)
    case Some(n) => if n in keys then (Some(keys[n]), false) else (None, true)
  }

  /** A parsed submission and whether its user and course went unresolved. */
  datatype ParsedSubmission = ParsedSubmission(id: int, attrs: SubmissionAttrs, missUser: bool, missCourse: bool)

  /** The foreign-key columns agree with the key maps they were resolved
      against. */
  predicate ResolvedAgainst(a: SubmissionAttrs, students: map<int, int>, courses: map<int, int>) {
    && (a.personKey.Some? <==> a.userId.Some? && a.userId.value in students)
    && (a.personKey.Some? ==> a.personKey.value == students[a.userId.value])
    && (a.courseKey.Some? <==> a.courseId.Some? && a.courseId.value in courses)
    && (a.courseKey.Some? ==> a.courseKey.value == courses[a.courseId.value])
  }

  /** One iteration of `read_raw_submissions`: None for a skipped row. */
  function ParseSubmission(parse: IsoParser, now: int, students: map<int, int>, courses: map<int, int>, raw: RawRow)
    : (r: Result<Option<ParsedSubmission>, ReadError>)
    ensures !raw.payload.Parsed? ==> r == Success(None)
    ensures raw.payload.Parsed? && !raw.payload.doc.Obj? ==> r == Failure(NotAnObject(raw.id))
    ensures r.Success? && raw.payload.Parsed? ==> r.value.Some? && r.value.value.id == raw.id
    ensures r.Success? && r.value.Some? ==>
      var s := r.value.value;
      var d := raw.payload.doc.fields;
      && ResolvedAgainst(s.attrs, students, courses)
      && (s.missUser <==> s.attrs.userId.Some? && s.attrs.userId.value !in students)
      && (s.missCourse <==> s.attrs.courseId.Some? && s.attrs.courseId.value !in courses)
      && IntOf(s.attrs.userId, d, "user_id")
      && IntOf(s.attrs.courseId, d, "course_id")
      && IntOf(s.attrs.assignmentId, d, "assignment_id")
      && IntOf(s.attrs.attempt, d, "attempt")
      && s.attrs.submittedAt == ParseDt(parse, JGetOrNull(d, "submitted_at"))
      && s.attrs.gradedAt == ParseDt(parse, JGetOrNull(d, "graded_at"))
      && s.attrs.dueAt == ParseDt(parse, JGetOrNull(d, "due_at"))
      && s.attrs.workflowState == JGetOrNull(d, "workflow_state")
      && s.attrs.lateFlag == TriState(JGetOrNull(d, "late"))
      && s.attrs.missingFlag == TriState(JGetOrNull(d, "missing"))
      && s.attrs.onTimeFlag == OnTimeFlag(s.attrs.dueAt, s.attrs.submittedAt, JGetOrNull(d, "late"), JGetOrNull(d, "missing"))
      && s.attrs.rawUpdatedAt == raw.updatedAt
      && s.attrs.updatedAt == now
  {
    match raw.payload
    case NoPayload => Success(None)
    case Unparseable(_) => Success(None)
    case Parsed(doc) =>
      if !doc.Obj? then Failure(NotAnObject(raw.id))
      else
        var d := doc.fields;
        var userId :- IntField(raw.id, "user_id", JGetOrNull(d, "user_id"));
        var (personKey, missUser) := ResolveKey(userId, students);
        var courseId :- IntField(raw.id, "course_id", JGetOrNull(d, "course_id"));
        var (courseKey, missCourse) := ResolveKey(courseId, courses);
        var submittedAt := ParseDt(parse, JGetOrNull(d, "submitted_at"));
        var gradedAt := ParseDt(parse, JGetOrNull(d, "graded_at"));
        var late := JGetOrNull(d, "late");
        var missing := JGetOrNull(d, "missing");
        var dueAt := ParseDt(parse, JGetOrNull(d, "due_at"));
        var assignmentId :- IntField(raw.id, "assignment_id", JGetOrNull(d, "assignment_id"));
        var attempt :- IntField(raw.id, "attempt", JGetOrNull(d, "attempt"));
        Success(Some(ParsedSubmission(raw.id, SubmissionAttrs(
          personKey, courseKey, userId, courseId, assignmentId,
          submittedAt, gradedAt, attempt,
          TriState(late), TriState(missing),
          dueAt, OnTimeFlag(dueAt, submittedAt, late, missing),
          JGetOrNull(d, "workflow_state"), raw.updatedAt, now), missUser, missCourse)))
  }

  /** A parsed object fails exactly when one of its four integer fields is
      present and not an integer, and the error names the first such field
      in the order the source converts them: user, course, assignment,
      attempt. */
  lemma ParseSubmissionFailure(parse: IsoParser, now: int, students: map<int, int>, courses: map<int, int>, raw: RawRow)
    requires raw.payload.Parsed? && raw.payload.doc.Obj?
    ensures var d := raw.payload.doc.fields;
      var r := ParseSubmission(parse, now, students, courses, raw);
      && (r.Failure? <==> BadInt(d, "user_id") || BadInt(d, "course_id") || BadInt(d, "assignment_id") || BadInt(d, "attempt"))
      && (BadInt(d, "user_id") ==> r == Failure(NotAnInteger(raw.id, "user_id")))
      && (!BadInt(d, "user_id") && BadInt(d, "course_id") ==> r == Failure(NotAnInteger(raw.id, "course_id")))
      && (!BadInt(d, "user_id") && !BadInt(d, "course_id") && BadInt(d, "assignment_id") ==>
            r == Failure(NotAnInteger(raw.id, "assignment_id")))
      && (!BadInt(d, "user_id") && !BadInt(d, "course_id") && !BadInt(d, "assignment_id") && BadInt(d, "attempt") ==>
            r == Failure(NotAnInteger(raw.id, "attempt")))
  { }

  /** The result of `read_raw_submissions`: rows plus the two miss counters. */
  datatype SubmissionBatch = SubmissionBatch(rows: seq<(int, SubmissionAttrs)>, skipUser: nat, skipCourse: nat)

  /** Rows naming a user that the student key map does not know. */
  function UnresolvedUsers(rows: seq<(int, SubmissionAttrs)>, students: map<int, int>): (n: nat)
    ensures n <= |rows|
  {
    if |rows| == 0 then 0
    else
      var here := if rows[0].1.userId.Some? && rows[0].1.userId.value !in students then 1 else 0;
      here + UnresolvedUsers(rows[1..], students)
  }

  /** Rows naming a course that the course key map does not know. */
  function UnresolvedCourses(rows: seq<(int, SubmissionAttrs)>, courses: map<int, int>): (n: nat)
    ensures n <= |rows|
  {
    if |rows| == 0 then 0
    else
      var here := if rows[0].1.courseId.Some? && rows[0].1.courseId.value !in courses then 1 else 0;
      here + UnresolvedCourses(rows[1..], courses)
  }

  /** `read_raw_submissions`: one row per raw row whose payload parses, in
      table order and keyed by the raw id, every row emitted whether or not
      its keys resolve; the counters are the numbers of emitted rows whose
      user (resp. course) did not resolve. */
  function ReadSubmissions(parse: IsoParser, now: int, students: map<int, int>, courses: map<int, int>, raws: seq<RawRow>)
    : (r: Result<SubmissionBatch, ReadError>)
    ensures r.Success? ==> Ids(r.value.rows) == ParsedIds(raws)
    ensures r.Success? && DistinctRawIds(raws) ==> DistinctNaturals(r.value.rows)
    ensures r.Success? ==> r.value.skipUser == UnresolvedUsers(r.value.rows, students)
    ensures r.Success? ==> r.value.skipCourse == UnresolvedCourses(r.value.rows, courses)
    ensures r.Success? ==> forall i :: 0 <= i < |r.value.rows| ==> ResolvedAgainst(r.value.rows[i].1, students, courses)
  {
    if |raws| == 0 then Success(SubmissionBatch([], 0, 0))
    else
      match ParseSubmission(parse, now, students, courses, raws[0])
      case Failure(e) => Failure(e)
      case Success(p) =>
        var rest := ReadSubmissions(parse, now, students, courses, raws[1..]);
        match rest
        case Failure(e) => Failure(e)
        case Success(b) =>
          if p.Some? then
            var nb := Cons(p.value, b, students, courses);
            DistinctByIds(raws, nb.rows);
            Success(nb)
          else
            DistinctByIds(raws, b.rows);
            Success(b)
  }

  /** Puts one parsed submission in front of a batch, bumping the counters
      for its misses. */
  function Cons(s: ParsedSubmission, b: SubmissionBatch, students: map<int, int>, courses: map<int, int>): (r: SubmissionBatch)
    requires ResolvedAgainst(s.attrs, students, courses)
    requires s.missUser <==> s.attrs.userId.Some? && s.attrs.userId.value !in students
    requires s.missCourse <==> s.attrs.courseId.Some? && s.attrs.courseId.value !in courses
    requires b.skipUser == UnresolvedUsers(b.rows, students)
    requires b.skipCourse == UnresolvedCourses(b.rows, courses)
    requires forall i :: 0 <= i < |b.rows| ==> ResolvedAgainst(b.rows[i].1, students, courses)
    ensures Ids(r.rows) == [s.id] + Ids(b.rows)
    ensures r.skipUser == UnresolvedUsers(r.rows, students)
    ensures r.skipCourse == UnresolvedCourses(r.rows, courses)
    ensures forall i :: 0 <= i < |r.rows| ==> ResolvedAgainst(r.rows[i].1, students, courses)
  {
    var rows := [(s.id, s.attrs)] + b.rows;
    assert rows[1..] == b.rows;
    SubmissionBatch(rows,
      b.skipUser + (if s.missUser then 1 else 0),
      b.skipCourse + (if s.missCourse then 1 else 0))
  }

  /** The read fails exactly when some raw row raises. */
  lemma {:induction false} ReadSubmissionsFails(parse: IsoParser, now: int, students: map<int, int>, courses: map<int, int>, raws: seq<RawRow>)
    ensures ReadSubmissions(parse, now, students, courses, raws).Failure?
      <==> exists i :: 0 <= i < |raws| && ParseSubmission(parse, now, students, courses, raws[i]).Failure?
  {
    if |raws| > 0 {
      ReadSubmissionsFails(parse, now, students, courses, raws[1..]);
      ReadSubmissionsStep(parse, now, students, courses, raws);
      SomeInTail(raws, raw => ParseSubmission(parse, now, students, courses, raw).Failure?);
    }
  }

  /** Some element of a non-empty sequence satisfies `p` exactly when its
      head or some element of its tail does. */
  lemma SomeInTail<T>(s: seq<T>, p: T -> bool)
    requires |s| > 0
    ensures (exists i :: 0 <= i < |s| && p(s[i])) <==> p(s[0]) || exists i :: 0 <= i < |s[1..]| && p(s[1..][i])
  {
    if exists i :: 0 <= i < |s[1..]| && p(s[1..][i]) {
      var i :| 0 <= i < |s[1..]| && p(s[1..][i]);
      assert s[i + 1] == s[1..][i];
    }
    if exists i :: 1 <= i < |s| && p(s[i]) {
      var i :| 1 <= i < |s| && p(s[i]);
      assert s[1..][i - 1] == s[i];
    }
  }

  /** One step of the read: it fails when the first row or the rest does. */
  lemma ReadSubmissionsStep(parse: IsoParser, now: int, students: map<int, int>, courses: map<int, int>, raws: seq<RawRow>)
    requires |raws| > 0
    ensures ReadSubmissions(parse, now, students, courses, raws).Failure?
      <==> ParseSubmission(parse, now, students, courses, raws[0]).Failure?
           || ReadSubmissions(parse, now, students, courses, raws[1..]).Failure?
  { }

  /** Every parsed raw row gives exactly one output row, and each miss
      counter is bounded by the number of output rows. */
  lemma ReadSubmissionsCounts(parse: IsoParser, now: int, students: map<int, int>, courses: map<int, int>, raws: seq<RawRow>)
    requires ReadSubmissions(parse, now, students, courses, raws).Success?
    ensures var b := ReadSubmissions(parse, now, students, courses, raws).value;
      && |b.rows| == |ParsedIds(raws)|
      && b.skipUser <= |b.rows|
      && b.skipCourse <= |b.rows|
  {
    var b := ReadSubmissions(parse, now, students, courses, raws).value;
    assert |Ids(b.rows)| == |b.rows|;
  }

  /** Row k of the read is the id and columns that `ParseSubmission` makes of
      the k-th raw row whose payload parses. */
  lemma {:induction false} ReadSubmissionsRows(parse: IsoParser, now: int, students: map<int, int>, courses: map<int, int>, raws: seq<RawRow>)
    requires ReadSubmissions(parse, now, students, courses, raws).Success?
    ensures var rows := ReadSubmissions(parse, now, students, courses, raws).value.rows;
      && |rows| == |ParsedRows(raws)|
      && forall k :: 0 <= k < |rows| ==> SubmissionRowOf(parse, now, students, courses, ParsedRows(raws)[k], rows[k])
  {
    if |raws| > 0 {
      ReadSubmissionsRowsStep(parse, now, students, courses, raws);
      ReadSubmissionsRows(parse, now, students, courses, raws[1..]);
      if raws[0].payload.Parsed? {
        var rows := ReadSubmissions(parse, now, students, courses, raws).value.rows;
        var rest := ReadSubmissions(parse, now, students, courses, raws[1..]).value.rows;
        assert rows == [rows[0]] + rest;
        PointwiseCons(raws[0], ParsedRows(raws[1..]), rows[0], rest,
                      (raw, row) => SubmissionRowOf(parse, now, students, courses, raw, row));
      }
    }
  }

  /** `row` is the id and columns `ParseSubmission` makes of `raw`. */
  predicate SubmissionRowOf(parse: IsoParser, now: int, students: map<int, int>, courses: map<int, int>,
                            raw: RawRow, row: (int, SubmissionAttrs)) {
    var p := ParseSubmission(parse, now, students, courses, raw);
    p.Success? && p.value.Some? && row == (p.value.value.id, p.value.value.attrs)
  }

  /** One step of a submission read that succeeds, as for courses. */
  lemma ReadSubmissionsRowsStep(parse: IsoParser, now: int, students: map<int, int>, courses: map<int, int>, raws: seq<RawRow>)
    requires |raws| > 0 && ReadSubmissions(parse, now, students, courses, raws).Success?
    ensures ParseSubmission(parse, now, students, courses, raws[0]).Success?
    ensures ReadSubmissions(parse, now, students, courses, raws[1..]).Success?
    ensures raws[0].payload.Parsed? ==>
      var rows := ReadSubmissions(parse, now, students, courses, raws).value.rows;
      && |rows| > 0
      && SubmissionRowOf(parse, now, students, courses, raws[0], rows[0])
      && rows[1..] == ReadSubmissions(parse, now, students, courses, raws[1..]).value.rows
    ensures !raws[0].payload.Parsed? ==>
      ReadSubmissions(parse, now, students, courses, raws).value.rows
        == ReadSubmissions(parse, now, students, courses, raws[1..]).value.rows
  { }

  // ---------------------------------------------------------------------
  // dim_student and the whole run
  // ---------------------------------------------------------------------

  /** The non-key columns of cur.dim_student (the confidence is kept as the
      integer the identity map stores). */
  datatype StudentAttrs = StudentAttrs(email: string, matchMethod: string, confidence: int, updatedAt: int)

  /** `read_person_identity_map`: each selected identity-map row, stamped
      with the run time, under its canvas_user_id. */
  function StudentRows(selected: seq<(int, Identity.IdentityEntry)>, now: int): (rows: seq<(int, StudentAttrs)>)
    ensures |rows| == |selected|
    ensures forall i :: 0 <= i < |rows| ==>
      (rows[i].0 == selected[i].0
      && rows[i].1 == StudentAttrs(selected[i].1.email, selected[i].1.matchMethod, selected[i].1.confidence, now))
  {
    if |selected| == 0 then []
    else
      var e := selected[0].1;
      [(selected[0].0, StudentAttrs(e.email, e.matchMethod, e.confidence, now))] + StudentRows(selected[1..], now)
  }

  /** The three curated tables. */
  datatype Warehouse = Warehouse(
    students: Dimension<StudentAttrs>,
    courses: Dimension<CourseAttrs>,
    facts: map<int, SubmissionAttrs>)

  /** What ends a run early: a staging error or an exception while reading. */
  datatype RunError = MergeFailed(m: MergeError) | ReadFailed(e: ReadError)

  /** The tables after a run (each phase commits on its own, so a failure
      keeps the phases before it) and the failure, if any. */
  datatype RunResult = RunResult(w: Warehouse, failure: Option<RunError>)

  /** `main`: students, student key map, courses, course key map,
      submissions. */
  function BuildCurated(w: Warehouse, selected: seq<(int, Identity.IdentityEntry)>, courseRaws: seq<RawRow>,
                        submissionRaws: seq<RawRow>, parse: IsoParser, now: int, batchSize: int): (r: RunResult)
    requires DistinctNaturals(selected)
    requires DistinctRawIds(courseRaws) && DistinctRawIds(submissionRaws)
    ensures batchSize <= 0 ==> r.w == w
    ensures batchSize > 0 ==> r.w.students == MergeBatch(w.students, StudentRows(selected, now))
    ensures batchSize > 0 ==> (r.failure.None? <==>
      ReadCourses(parse, now, courseRaws).Success?
      && ReadSubmissions(parse, now, KeyMap(r.w.students), KeyMap(r.w.courses), submissionRaws).Success?)
    ensures batchSize > 0 && r.failure.None? ==>
      && ReadCourses(parse, now, courseRaws).Success?
      && r.w.courses == MergeBatch(w.courses, ReadCourses(parse, now, courseRaws).value)
      && ReadSubmissions(parse, now, KeyMap(r.w.students), KeyMap(r.w.courses), submissionRaws).Success?
      && r.w.facts == UpsertAll(w.facts, ReadSubmissions(parse, now, KeyMap(r.w.students), KeyMap(r.w.courses), submissionRaws).value.rows)
    ensures r.failure.Some? ==> r.w.facts == w.facts
  {
    var students := StudentRows(selected, now);
    assert DistinctNaturals(students) by {
      forall i, j | 0 <= i < j < |students| ensures students[i].0 != students[j].0 {
        assert selected[i].0 != selected[j].0;
      }
    }
    match MergeDimension(w.students, students, batchSize)
    case Failure(e) => RunResult(w, Some(MergeFailed(e)))
    case Success(sd) =>
      var w1 := w.(students := sd);
      match ReadCourses(parse, now, courseRaws)
      case Failure(e) => RunResult(w1, Some(ReadFailed(e)))
      case Success(cs) =>
        match MergeDimension(w1.courses, cs, batchSize)
        case Failure(e) => RunResult(w1, Some(MergeFailed(e)))
        case Success(cd) =>
          var w2 := w1.(courses := cd);
          match ReadSubmissions(parse, now, KeyMap(sd), KeyMap(cd), submissionRaws)
          case Failure(e) => RunResult(w2, Some(ReadFailed(e)))
          case Success(b) =>
            match MergeTable(w2.facts, b.rows, batchSize)
            case Failure(e) => RunResult(w2, Some(MergeFailed(e)))
            case Success(fd) => RunResult(w2.(facts := fd), None)
  }

  /** A second run over the same inputs (and the same clock reading) ends
      exactly where the first one did, failure included. */
  lemma BuildCuratedIdempotent(w: Warehouse, selected: seq<(int, Identity.IdentityEntry)>, courseRaws: seq<RawRow>,
                               submissionRaws: seq<RawRow>, parse: IsoParser, now: int, batchSize: int)
    requires DistinctNaturals(selected)
    requires DistinctRawIds(courseRaws) && DistinctRawIds(submissionRaws)
    ensures var r := BuildCurated(w, selected, courseRaws, submissionRaws, parse, now, batchSize);
      BuildCurated(r.w, selected, courseRaws, submissionRaws, parse, now, batchSize) == r
  {
    var r := BuildCurated(w, selected, courseRaws, submissionRaws, parse, now, batchSize);
    if batchSize > 0 {
      var students := StudentRows(selected, now);
      assert DistinctNaturals(students) by {
        forall i, j | 0 <= i < j < |students| ensures students[i].0 != students[j].0 {
          assert selected[i].0 != selected[j].0;
        }
      }
      MergeBatchIdempotent(w.students, students);
      var sd := MergeBatch(w.students, students);
      match ReadCourses(parse, now, courseRaws)
      case Failure(_) =>
      case Success(cs) =>
        DistinctIdsNaturals(cs);
        MergeBatchIdempotent(w.courses, cs);
        var cd := MergeBatch(w.courses, cs);
        match ReadSubmissions(parse, now, KeyMap(sd), KeyMap(cd), submissionRaws)
        case Failure(_) =>
        case Success(b) =>
          DistinctIdsNaturals(b.rows);
          UpsertAllIdempotent(w.facts, b.rows);
    }
  }

  /** After a complete run every submission of this run is stored, and its
      surrogate keys point at the dimension rows of its natural keys: the
      person key is set exactly when the user has a dim_student row, and is
      then that row's key (likewise for the course); a user with no student
      row leaves a null person key rather than dropping the fact. */
  lemma BuildCuratedResolvesKeys(w: Warehouse, selected: seq<(int, Identity.IdentityEntry)>, courseRaws: seq<RawRow>,
                                 submissionRaws: seq<RawRow>, parse: IsoParser, now: int, batchSize: int)
    requires DistinctNaturals(selected)
    requires DistinctRawIds(courseRaws) && DistinctRawIds(submissionRaws)
    requires BuildCurated(w, selected, courseRaws, submissionRaws, parse, now, batchSize).failure.None?
    requires batchSize > 0
    ensures var t := BuildCurated(w, selected, courseRaws, submissionRaws, parse, now, batchSize).w;
      forall n :: n in ParsedIds(submissionRaws) ==>
        && n in t.facts
        && (t.facts[n].personKey.Some? <==> t.facts[n].userId.Some? && t.facts[n].userId.value in t.students.rows)
        && (t.facts[n].personKey.Some? ==> t.facts[n].personKey.value == t.students.rows[t.facts[n].userId.value].key)
        && (t.facts[n].courseKey.Some? <==> t.facts[n].courseId.Some? && t.facts[n].courseId.value in t.courses.rows)
        && (t.facts[n].courseKey.Some? ==> t.facts[n].courseKey.value == t.courses.rows[t.facts[n].courseId.value].key)
  {
    var t := BuildCurated(w, selected, courseRaws, submissionRaws, parse, now, batchSize).w;
    var b := ReadSubmissions(parse, now, KeyMap(t.students), KeyMap(t.courses), submissionRaws).value;
    DistinctIdsNaturals(b.rows);
    UpsertAllSpec(w.facts, b.rows);
    forall n | n in ParsedIds(submissionRaws)
      ensures n in t.facts && ResolvedAgainst(t.facts[n], KeyMap(t.students), KeyMap(t.courses))
    {
      var i :| 0 <= i < |b.rows| && Ids(b.rows)[i] == n;
      assert b.rows[i].0 == n;
    }
  }
}
