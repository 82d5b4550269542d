/**
 * manager.ts, as functions on the records the store holds: what every
 * operation of `Manager` returns or throws, and which records it changes.
 * The `Manager` class in manager.dfy is proved against these.
 */
module ManagerSpec {
  import opened Results
  import opened JsText
  import opened JsArrays
  import opened Entities

  /** The errors `Manager` throws, one per message; setter errors are wrapped as the source wraps them. */
  datatype ManagerError =
    | Locked | CapacityFull | DuplicateId | EmailTaken | StudentNotFound | StudentEnrolled
    | CourseCodeDuplicate | SeatsNotPositive | CourseNotFound | CourseHasEnrolled
    | InactiveStudent | NotFound | EmailUsed
    | UpdateFailed(cause: EntityError)        // 'Update failed: ...'
    | CourseUpdateFailed(cause: EntityError)  // 'Course update fail: ...'
    | Rejected(cause: EntityError)            // a setter or counter error passed through unchanged

  /** The id a lookup compares with: a number formatted, a string as given (untrimmed). */
  function LookupId(k: Key): string {
    match k
    case NumKey(_) => FormatId(k)
    case StrKey(s) => s
  }

  /** The code a lookup compares with: a number formatted, a string as given. */
  function LookupCode(k: Key): string {
    match k
    case NumKey(_) => FormatCode(k)
    case StrKey(s) => s
  }

  /** The student lookup of `updateStudent`, `deleteStudent`, `getStudent`, `enroll` and `unenroll`: the id, or the short id. */
  predicate MatchesStudent(s: StudentRecord, k: Key) {
    s.id == LookupId(k) || ShortId(s.id) == KeyString(k)
  }

  /** The course lookup of `updateCourse` and `deleteCourse`: the looked-up code or `String(code)`. */
  predicate MatchesCourseLoosely(c: CourseRecord, k: Key) {
    c.code == LookupCode(k) || c.code == KeyString(k)
  }

  /** The course lookup of `getCourse`, `enroll` and `unenroll`: the looked-up code only. */
  predicate MatchesCourse(c: CourseRecord, k: Key) {
    c.code == LookupCode(k)
  }

  /**
   * The two course lookups compared: a `getCourse` match is an `updateCourse`
   * match, the two agree on a string key, and a number key also reaches a
   * course whose code is the number's own text, which `getCourse`, `enroll`
   * and `unenroll` never find.
   */
  lemma CourseLookupsCompared(c: CourseRecord, k: Key)
    ensures MatchesCourse(c, k) ==> MatchesCourseLoosely(c, k)
    ensures k.StrKey? ==> (MatchesCourseLoosely(c, k) <==> MatchesCourse(c, k))
    ensures k.NumKey? && c.code == IntToString(k.n) ==> MatchesCourseLoosely(c, k) && !MatchesCourse(c, k)
  {
    if k.NumKey? && c.code == IntToString(k.n) {
      var f := FormatCode(k);
      assert f[0] == 'C';
      assert c.code[0] == '-' || IsDigit(c.code[0]);
    }
  }

  function StudentIndex(recs: seq<StudentRecord>, k: Key): Option<nat> {
    FindIndex(recs, s => MatchesStudent(s, k))
  }

  function CourseIndexLoosely(recs: seq<CourseRecord>, k: Key): Option<nat> {
    FindIndex(recs, c => MatchesCourseLoosely(c, k))
  }

  function CourseIndex(recs: seq<CourseRecord>, k: Key): Option<nat> {
    FindIndex(recs, c => MatchesCourse(c, k))
  }

  function Ids(recs: seq<StudentRecord>): (r: seq<string>)
    ensures |r| == |recs| && forall i :: 0 <= i < |recs| ==> r[i] == recs[i].id
  {
    seq(|recs|, i requires 0 <= i < |recs| => recs[i].id)
  }

  function Emails(recs: seq<StudentRecord>): (r: seq<string>)
    ensures |r| == |recs| && forall i :: 0 <= i < |recs| ==> r[i] == recs[i].email
  {
    seq(|recs|, i requires 0 <= i < |recs| => recs[i].email)
  }

  function Codes(recs: seq<CourseRecord>): (r: seq<string>)
    ensures |r| == |recs| && forall i :: 0 <= i < |recs| ==> r[i] == recs[i].code
  {
    seq(|recs|, i requires 0 <= i < |recs| => recs[i].code)
  }

  function ShortIds(recs: seq<StudentRecord>): (r: seq<string>)
    ensures |r| == |recs| && forall i :: 0 <= i < |recs| ==> r[i] == ShortId(recs[i].id)
  {
    seq(|recs|, i requires 0 <= i < |recs| => ShortId(recs[i].id))
  }

  /** A value is among the ids, emails or short ids exactly when some stored student carries it. */
  lemma InStudentLists(recs: seq<StudentRecord>, x: string)
    ensures x in Ids(recs) <==> exists i :: 0 <= i < |recs| && recs[i].id == x
    ensures x in Emails(recs) <==> exists i :: 0 <= i < |recs| && recs[i].email == x
    ensures x in ShortIds(recs) <==> exists i :: 0 <= i < |recs| && ShortId(recs[i].id) == x
  {
  }

  /** A code is among the codes exactly when some stored course carries it. */
  lemma InCodes(recs: seq<CourseRecord>, x: string)
    ensures x in Codes(recs) <==> exists i :: 0 <= i < |recs| && recs[i].code == x
  {
  }

  /** The lists follow the store: appending a student appends its id, email and short id. */
  lemma StudentListsAppend(recs: seq<StudentRecord>, r: StudentRecord)
    ensures Ids(recs + [r]) == Ids(recs) + [r.id]
    ensures Emails(recs + [r]) == Emails(recs) + [r.email]
    ensures ShortIds(recs + [r]) == ShortIds(recs) + [ShortId(r.id)]
  {
  }

  /** Removing the student at `i` removes the entry at `i` from each list. */
  lemma StudentListsRemoveAt(recs: seq<StudentRecord>, i: nat)
    requires i < |recs|
    ensures Ids(RemoveAt(recs, i)) == RemoveAt(Ids(recs), i)
    ensures Emails(RemoveAt(recs, i)) == RemoveAt(Emails(recs), i)
    ensures ShortIds(RemoveAt(recs, i)) == RemoveAt(ShortIds(recs), i)
  {
  }

  /** The codes follow the course list under appending and removal. */
  lemma CodesFollowStore(recs: seq<CourseRecord>, c: CourseRecord, i: nat)
    requires i < |recs|
    ensures Codes(recs + [c]) == Codes(recs) + [c.code]
    ensures Codes(RemoveAt(recs, i)) == RemoveAt(Codes(recs), i)
  {
  }

  /** The duplicate test of `addStudent`: a student with the formatted id, or whose short id is `String(p.id)`. */
  predicate IdTaken(recs: seq<StudentRecord>, k: Key) {
    FormatId(k) in Ids(recs) || KeyString(k) in ShortIds(recs)
  }

  /**
   * The email test of `addStudent` (against every student) and
   * `updateStudent` (against every other student): a non-empty email whose
   * lower case, not trimmed, is a stored email.
   */
  predicate EmailClash(recs: seq<StudentRecord>, email: Option<string>) {
    email.Some? && email.value != "" && Lower(email.value) in Emails(recs)
  }

  // ---------------------------------------------------------------- students

  /**
   * `addStudent`: the record of the new student, or the first guard that
   * throws. It accepts exactly an unlocked store below capacity, an id and a
   * short id not yet taken, a lower-cased email not yet stored, and a payload
   * every setter accepts; the guards are tried in that order.
   */
  function AddStudentSpec(recs: seq<StudentRecord>, locked: bool, capacity: int, p: StudentPayload)
    : (r: Result<StudentRecord, ManagerError>)
    ensures r.Success? <==>
      && !locked && |recs| < capacity && !IdTaken(recs, p.id) && !EmailClash(recs, p.email)
      && CreateStudent(p).Success?
    ensures r.Success? ==> CreateStudent(p).Success? && r.value == CreateStudent(p).value && StudentInvariant(r.value)
    ensures locked ==> r == Failure(Locked)
    ensures !locked && |recs| >= capacity ==> r == Failure(CapacityFull)
    ensures !locked && |recs| < capacity && IdTaken(recs, p.id) ==> r == Failure(DuplicateId)
    ensures !locked && |recs| < capacity && !IdTaken(recs, p.id) && EmailClash(recs, p.email) ==> r == Failure(EmailTaken)
  {
    if locked then Failure(Locked)
    else if |recs| >= capacity then Failure(CapacityFull)
    else if IdTaken(recs, p.id) then Failure(DuplicateId)
    else if EmailClash(recs, p.email) then Failure(EmailTaken)
    else match CreateStudent(p)
      case Failure(e) => Failure(Rejected(e))
      case Success(s) => Success(s)
  }

  /** Appending a value that is not there keeps a sequence free of repeats. */
  lemma AppendFresh(xs: seq<string>, x: string)
    requires NoDuplicates(xs) && x !in xs
    ensures NoDuplicates(xs + [x])
  {
    var ys := xs + [x];
    forall i, j | 0 <= i < j < |ys|
      ensures ys[i] != ys[j]
    {
      assert ys[i] == xs[i];
      if j < |xs| {
        assert ys[j] == xs[j];
      }
    }
  }

  /** A successful `addStudent` keeps the stored ids pairwise distinct. */
  lemma AddStudentKeepsIdsDistinct(recs: seq<StudentRecord>, locked: bool, capacity: int, p: StudentPayload)
    requires NoDuplicates(Ids(recs))
    requires AddStudentSpec(recs, locked, capacity, p).Success?
    ensures NoDuplicates(Ids(recs + [AddStudentSpec(recs, locked, capacity, p).value]))
  {
    var s := AddStudentSpec(recs, locked, capacity, p).value;
    assert s.id == FormatId(p.id);
    assert !IdTaken(recs, p.id);
    AppendFresh(Ids(recs), s.id);
    assert Ids(recs + [s]) == Ids(recs) + [s.id];
  }

  /**
   * A supplied email that has no white space at either end is stored exactly
   * as the guard compares it, so a successful `addStudent` with such an email
   * keeps the stored emails pairwise distinct.
   */
  lemma AddStudentKeepsTrimmedEmailsDistinct(recs: seq<StudentRecord>, locked: bool, capacity: int, p: StudentPayload)
    requires NoDuplicates(Emails(recs))
    requires p.email.Some? && IsTrimmed(p.email.value)
    requires AddStudentSpec(recs, locked, capacity, p).Success?
    ensures NoDuplicates(Emails(recs + [AddStudentSpec(recs, locked, capacity, p).value]))
  {
    var s := AddStudentSpec(recs, locked, capacity, p).value;
    AddStudentStoredEmail(recs, locked, capacity, p);
    AppendFreshEmail(recs, s);
  }

  lemma AppendFreshEmail(recs: seq<StudentRecord>, s: StudentRecord)
    requires NoDuplicates(Emails(recs)) && s.email !in Emails(recs)
    ensures NoDuplicates(Emails(recs + [s]))
  {
    AppendFresh(Emails(recs), s.email);
    assert Emails(recs + [s]) == Emails(recs) + [s.email];
  }

  /** The stored email of a new student is the setter's value, and the guard found no student holding its untrimmed lower case. */
  lemma AddStudentStoredEmail(recs: seq<StudentRecord>, locked: bool, capacity: int, p: StudentPayload)
    requires AddStudentSpec(recs, locked, capacity, p).Success? && p.email.Some?
    ensures !EmailClash(recs, p.email) && p.email.value != ""
    ensures AddStudentSpec(recs, locked, capacity, p).value.email == Lower(Trim(p.email.value))
  {
    CreateStudentEmail(p);
  }

  lemma CreateStudentEmail(p: StudentPayload)
    requires CreateStudent(p).Success? && p.email.Some?
    ensures EmailValue(p.email.value).Success? && CreateStudent(p).value.email == EmailValue(p.email.value).value
  {
    assert PatchAccepted(PayloadPatch(p));
  }

  /**
   * The email guard lower-cases but does not trim, while the setter trims:
   * a stored email with one space in front passes the guard, and the store
   * then holds the same email twice.
   */
  lemma AddStudentAdmitsPaddedEmail(recs: seq<StudentRecord>, capacity: int, p: StudentPayload, i: nat)
    requires forall j :: 0 <= j < |recs| ==> StudentInvariant(recs[j])
    requires i < |recs| && p.email == Some(" " + recs[i].email)
    requires |recs| < capacity && !IdTaken(recs, p.id) && PatchAccepted(PayloadPatch(p))
    ensures AddStudentSpec(recs, false, capacity, p).Success?
    ensures AddStudentSpec(recs, false, capacity, p).value.email == recs[i].email
    ensures !NoDuplicates(Emails(recs + [AddStudentSpec(recs, false, capacity, p).value]))
  {
    var e := recs[i].email;
    PaddedEmailPassesGuard(recs, e);
    PaddedEmailStored(e);
    AddStudentStoredEmail(recs, false, capacity, p);
    var es := Emails(recs + [AddStudentSpec(recs, false, capacity, p).value]);
    assert es[i] == e && es[|recs|] == e;
  }

  lemma PaddedEmailPassesGuard(recs: seq<StudentRecord>, e: string)
    requires forall j :: 0 <= j < |recs| ==> StudentInvariant(recs[j])
    ensures !EmailClash(recs, Some(" " + e))
  {
    var v := " " + e;
    assert Lower(v)[0] == ' ';
    forall j | 0 <= j < |recs|
      ensures recs[j].email != Lower(v)
    {
      assert '@' in recs[j].email && IsTrimmed(recs[j].email);
    }
  }

  lemma PaddedEmailStored(e: string)
    requires '@' in e && IsTrimmed(e) && IsLowerCased(e)
    ensures EmailValue(" " + e) == Success(e)
  {
    var v := " " + e;
    assert v[1..] == e;
    assert !IsSpace(e[0]);
    assert TrimStart(v) == e;
    assert Trim(v) == e;
  }

  /**
   * `updateStudent`: the new record list and the updated record, or the
   * error. No lock check. An unknown id or a taken email changes nothing; a
   * setter that throws leaves the fields before it changed.
   */
  function UpdateStudentSpec(recs: seq<StudentRecord>, id: Key, upd: StudentPatch)
    : (r: (seq<StudentRecord>, Result<StudentRecord, ManagerError>))
    ensures |r.0| == |recs|
    ensures StudentIndex(recs, id).None? ==> r == (recs, Failure(StudentNotFound))
    ensures forall j :: 0 <= j < |recs| && StudentIndex(recs, id) != Some(j) ==> r.0[j] == recs[j]
    ensures r.1.Failure? && !r.1.error.UpdateFailed? ==> r.0 == recs
    ensures r.1.Success? ==> r.0[StudentIndex(recs, id).value] == r.1.value
    ensures (forall j :: 0 <= j < |recs| ==> StudentInvariant(recs[j])) ==>
      forall j :: 0 <= j < |recs| ==> StudentInvariant(r.0[j])
  {
    match StudentIndex(recs, id)
    case None => (recs, Failure(StudentNotFound))
    case Some(i) =>
      if EmailClash(RemoveAt(recs, i), upd.email) then (recs, Failure(EmailUsed))
      else
        PatchStudentAccepts(recs[i], upd);
        PatchStudentKeepsInvariant(recs[i], upd);
        var (s, o) := PatchStudent(recs[i], upd);
        if o.Fail? then (recs[i := s], Failure(UpdateFailed(o.error)))
        else (recs[i := s], Success(s))
  }

  /**
   * A successful update stores the old record overlaid with the patch at the
   * index of the first student the id matches, and keeps every other record.
   */
  lemma UpdateStudentOverlays(recs: seq<StudentRecord>, id: Key, upd: StudentPatch)
    requires UpdateStudentSpec(recs, id, upd).1.Success?
    ensures var i := StudentIndex(recs, id).value;
      && PatchAccepted(upd) && !EmailClash(RemoveAt(recs, i), upd.email)
      && UpdateStudentSpec(recs, id, upd).0 == recs[i := Overlay(recs[i], upd)]
  {
    var i := StudentIndex(recs, id).value;
    PatchStudentAccepts(recs[i], upd);
    PatchStudentOverlays(recs[i], upd);
  }

  /**
   * `updateStudent` is not atomic: a valid name followed by an age out of
   * range throws, and the store keeps the new name.
   */
  lemma UpdateStudentNotAtomic(recs: seq<StudentRecord>, id: Key, name: string, age: int)
    requires StudentIndex(recs, id).Some? && |Trim(name)| >= 3 && (age < 16 || age > 100)
    ensures var i := StudentIndex(recs, id).value;
      var r := UpdateStudentSpec(recs, id, StudentPatch(Some(name), Some(Numeric(age as real)), None, None, None, None));
      r.1 == Failure(UpdateFailed(AgeOutOfRange)) && r.0[i] == recs[i].(name := Trim(name))
  {
    PatchStudentNotAtomic(recs[StudentIndex(recs, id).value], name, age);
  }

  /**
   * `deleteStudent`: the list without the first student the id matches, if
   * the store is unlocked and that student is in no course.
   */
  function DeleteStudentSpec(recs: seq<StudentRecord>, locked: bool, id: Key): (r: Result<seq<StudentRecord>, ManagerError>)
    ensures r.Success? ==> |r.value| == |recs| - 1
  {
    if locked then Failure(Locked)
    else match StudentIndex(recs, id)
      case None => Failure(StudentNotFound)
      case Some(i) =>
        if |recs[i].courses| > 0 then Failure(StudentEnrolled)
        else Success(RemoveAt(recs, i))
  }

  /**
   * A successful delete removes exactly the first matching student, who was
   * in no course, and keeps the others in their order; it fails on a locked
   * store, an unknown id and an enrolled student.
   */
  lemma DeleteStudentRemovesOne(recs: seq<StudentRecord>, locked: bool, id: Key)
    ensures var r := DeleteStudentSpec(recs, locked, id);
      r.Success? <==> !locked && StudentIndex(recs, id).Some? && recs[StudentIndex(recs, id).value].courses == []
    ensures var r := DeleteStudentSpec(recs, locked, id);
      r.Success? ==> var i := StudentIndex(recs, id).value;
        && MatchesStudent(recs[i], id)
        && (forall j :: 0 <= j < i ==> !MatchesStudent(recs[j], id))
        && r.value == recs[..i] + recs[i + 1..]
        && multiset(r.value) == multiset(recs) - multiset{recs[i]}
  {
    var r := DeleteStudentSpec(recs, locked, id);
    if r.Success? {
      var i := StudentIndex(recs, id).value;
      assert r.value == RemoveAt(recs, i);
    }
  }

  /** `getStudent`: the first record the id or the short id matches. */
  function GetStudentSpec(recs: seq<StudentRecord>, id: Key): (r: Option<StudentRecord>)
    ensures r.Some? <==> exists j :: 0 <= j < |recs| && MatchesStudent(recs[j], id)
    ensures r.Some? ==> r.value in recs && MatchesStudent(r.value, id)
    ensures r.Some? ==> r.value == recs[StudentIndex(recs, id).value]
  {
    Find(recs, s => MatchesStudent(s, id))
  }

  /** A student added with a non-zero number id is found again by that number, and by its short-id string. */
  lemma GetStudentFindsAdded(recs: seq<StudentRecord>, locked: bool, capacity: int, p: StudentPayload, n: int)
    requires p.id == NumKey(n)
    requires AddStudentSpec(recs, locked, capacity, p).Success?
    ensures GetStudentSpec(recs + [AddStudentSpec(recs, locked, capacity, p).value], NumKey(n)).Some?
    ensures n != 0 ==> GetStudentSpec(recs + [AddStudentSpec(recs, locked, capacity, p).value], StrKey(IntToString(n))).Some?
  {
    var s := AddStudentSpec(recs, locked, capacity, p).value;
    assert s.id == FormatId(NumKey(n));
    FindsByNumber(recs, s, n);
  }

  /** A record whose id is the formatted number is found by that number and, for a non-zero one, by its decimal string. */
  lemma FindsByNumber(recs: seq<StudentRecord>, s: StudentRecord, n: int)
    requires s.id == FormatId(NumKey(n))
    ensures GetStudentSpec(recs + [s], NumKey(n)).Some?
    ensures n != 0 ==> GetStudentSpec(recs + [s], StrKey(IntToString(n))).Some?
  {
    var all := recs + [s];
    assert all[|recs|] == s && MatchesStudent(s, NumKey(n));
    if n != 0 {
      ShortIdOfFormatId(n);
      assert MatchesStudent(s, StrKey(IntToString(n)));
    }
  }

  // ---------------------------------------------------------------- courses

  /**
   * `addCourse`: the record of the new course, or the first guard that
   * throws. It accepts exactly an unlocked store, a code not yet present, a
   * positive seat count and a payload the course setters accept.
   */
  function AddCourseSpec(recs: seq<CourseRecord>, locked: bool, p: CoursePayload): (r: Result<CourseRecord, ManagerError>)
    ensures r.Success? <==>
      !locked && FormatCode(p.code) !in Codes(recs) && p.seats > 0.0 && CreateCourse(p).Success?
    ensures r.Success? ==> CreateCourse(p).Success? && r.value == CreateCourse(p).value
    ensures r.Success? ==> CourseInvariant(r.value) && r.value.enrolled == 0 && r.value.code == FormatCode(p.code)
    ensures locked ==> r == Failure(Locked)
    ensures !locked && FormatCode(p.code) in Codes(recs) ==> r == Failure(CourseCodeDuplicate)
    ensures !locked && FormatCode(p.code) !in Codes(recs) && p.seats <= 0.0 ==> r == Failure(SeatsNotPositive)
  {
    if locked then Failure(Locked)
    else if FormatCode(p.code) in Codes(recs) then Failure(CourseCodeDuplicate)
    else if p.seats <= 0.0 then Failure(SeatsNotPositive)
    else match CreateCourse(p)
      case Failure(e) => Failure(Rejected(e))
      case Success(c) => Success(c)
  }

  /**
   * `addCourse` fails on a locked store, a code already present and a
   * non-positive seat count; a successful one keeps the codes distinct.
   */
  lemma AddCourseKeepsCodesDistinct(recs: seq<CourseRecord>, locked: bool, p: CoursePayload)
    requires NoDuplicates(Codes(recs))
    requires AddCourseSpec(recs, locked, p).Success?
    ensures !locked && p.seats > 0.0
    ensures NoDuplicates(Codes(recs + [AddCourseSpec(recs, locked, p).value]))
  {
    var c := AddCourseSpec(recs, locked, p).value;
    var cs := Codes(recs + [c]);
    forall i, j | 0 <= i < j < |cs|
      ensures cs[i] != cs[j]
    {
      if j == |recs| {
        assert cs[i] == Codes(recs)[i];
      } else {
        assert cs[i] == Codes(recs)[i] && cs[j] == Codes(recs)[j];
      }
    }
  }

  /** The seat count 0.5 passes the `seats <= 0` guard and is then refused by the setter. */
  lemma AddCourseFractionalSeats(recs: seq<CourseRecord>, code: Key, category: Category)
    requires FormatCode(code) !in Codes(recs)
    ensures AddCourseSpec(recs, false, CoursePayload(code, "Maths", 0.5, category, None)) == Failure(Rejected(SeatsNotPositiveInteger))
  {
    var p := CoursePayload(code, "Maths", 0.5, category, None);
    assert IsTrimmed("Maths");
    assert TitleValue("Maths") == Success("Maths");
    assert (0.5).Floor == 0;
    assert SeatsValue(0.5, 0) == Failure(SeatsNotPositiveInteger);
    assert CreateCourse(p) == Failure(SeatsNotPositiveInteger);
  }

  /**
   * `updateCourse`: no lock check; the course is found by the looked-up code
   * or `String(code)`; the setters run in order and a throwing one leaves the
   * earlier fields changed.
   */
  function UpdateCourseSpec(recs: seq<CourseRecord>, code: Key, upd: CoursePatch)
    : (r: (seq<CourseRecord>, Result<CourseRecord, ManagerError>))
    ensures |r.0| == |recs|
    ensures CourseIndexLoosely(recs, code).None? ==> r == (recs, Failure(CourseNotFound))
    ensures forall j :: 0 <= j < |recs| && CourseIndexLoosely(recs, code) != Some(j) ==> r.0[j] == recs[j]
    ensures forall j :: 0 <= j < |recs| ==> r.0[j].code == recs[j].code && r.0[j].enrolled == recs[j].enrolled
    ensures (forall j :: 0 <= j < |recs| ==> CourseInvariant(recs[j])) ==>
      forall j :: 0 <= j < |recs| ==> CourseInvariant(r.0[j])
  {
    match CourseIndexLoosely(recs, code)
    case None => (recs, Failure(CourseNotFound))
    case Some(i) =>
      var (c, o) := PatchCourse(recs[i], upd);
      if o.Fail? then (recs[i := c], Failure(CourseUpdateFailed(o.error)))
      else (recs[i := c], Success(c))
  }

  /**
   * A found course is replaced by the result of patching it; the call
   * succeeds with that course exactly when every setter accepted its value,
   * and otherwise reports the first setter's error as a course update failure.
   */
  lemma UpdateCoursePatches(recs: seq<CourseRecord>, code: Key, upd: CoursePatch)
    requires CourseIndexLoosely(recs, code).Some?
    ensures var i := CourseIndexLoosely(recs, code).value;
      var r := UpdateCourseSpec(recs, code, upd);
      var p := PatchCourse(recs[i], upd);
      && r.0 == recs[i := p.0]
      && (r.1.Success? <==> p.1.Pass?)
      && (p.1.Pass? ==> r.1 == Success(p.0))
      && (p.1.Fail? ==> r.1 == Failure(CourseUpdateFailed(p.1.error)))
  {
  }

  /**
   * `updateCourse` is not atomic: an accepted title followed by a seat count
   * that is not an integer throws, and the store keeps the new title.
   */
  lemma UpdateCourseNotAtomic(recs: seq<CourseRecord>, code: Key, title: string)
    requires CourseIndexLoosely(recs, code).Some? && TitleValue(title).Success?
    ensures var i := CourseIndexLoosely(recs, code).value;
      var r := UpdateCourseSpec(recs, code, CoursePatch(Some(title), Some(0.5), None, None));
      r.1 == Failure(CourseUpdateFailed(SeatsNotPositiveInteger)) && r.0[i] == recs[i].(title := Trim(title))
  {
    var upd := CoursePatch(Some(title), Some(0.5), None, None);
    PatchCourseNotAtomic(recs[CourseIndexLoosely(recs, code).value], title);
    UpdateCoursePatches(recs, code, upd);
  }

  /** `deleteCourse`: the list without the first matching course, if unlocked and nobody is enrolled in it. */
  function DeleteCourseSpec(recs: seq<CourseRecord>, locked: bool, code: Key): (r: Result<seq<CourseRecord>, ManagerError>)
    ensures r.Success? ==> |r.value| == |recs| - 1
  {
    if locked then Failure(Locked)
    else match CourseIndexLoosely(recs, code)
      case None => Failure(CourseNotFound)
      case Some(i) =>
        if recs[i].enrolled > 0 then Failure(CourseHasEnrolled)
        else Success(RemoveAt(recs, i))
  }

  /** A course anybody is enrolled in cannot be deleted; a successful delete removes exactly that course. */
  lemma DeleteCourseGuard(recs: seq<CourseRecord>, locked: bool, code: Key)
    ensures var r := DeleteCourseSpec(recs, locked, code);
      r.Success? <==> !locked && CourseIndexLoosely(recs, code).Some? && !(recs[CourseIndexLoosely(recs, code).value].enrolled > 0)
    ensures var r := DeleteCourseSpec(recs, locked, code);
      r.Success? ==> var i := CourseIndexLoosely(recs, code).value;
        r.value == recs[..i] + recs[i + 1..] && multiset(r.value) == multiset(recs) - multiset{recs[i]}
  {
  }

  /** `getCourse`: the first record whose code is the looked-up code. */
  function GetCourseSpec(recs: seq<CourseRecord>, code: Key): (r: Option<CourseRecord>)
    ensures r.Some? <==> LookupCode(code) in Codes(recs)
    ensures r.Some? ==> r.value in recs && r.value.code == LookupCode(code)
  {
    CodeInCodes(recs, code);
    Find(recs, c => MatchesCourse(c, code))
  }

  lemma CodeInCodes(recs: seq<CourseRecord>, code: Key)
    ensures LookupCode(code) in Codes(recs) <==> exists j :: 0 <= j < |recs| && MatchesCourse(recs[j], code)
  {
    if LookupCode(code) in Codes(recs) {
      var j :| 0 <= j < |recs| && Codes(recs)[j] == LookupCode(code);
      assert MatchesCourse(recs[j], code);
    }
  }

  // ---------------------------------------------------------------- enrolment

  /**
   * `enroll`: unlocked, the student found, the course found by its exact
   * code, the student active, and a seat left; then one more enrolled and the
   * code joined to the student's list. Every failure changes nothing.
   */
  function EnrollSpec(srecs: seq<StudentRecord>, crecs: seq<CourseRecord>, locked: bool, sid: Key, code: Key)
    : (r: Result<(seq<StudentRecord>, seq<CourseRecord>), ManagerError>)
    ensures r.Success? ==> |r.value.0| == |srecs| && |r.value.1| == |crecs|
  {
    if locked then Failure(Locked)
    else match (StudentIndex(srecs, sid), CourseIndex(crecs, code))
      case (None, _) => Failure(StudentNotFound)
      case (_, None) => Failure(CourseNotFound)
      case (Some(si), Some(ci)) =>
        if !srecs[si].active then Failure(InactiveStudent)
        else match AddOneSpec(crecs[ci])
          case Failure(e) => Failure(Rejected(e))
          case Success(c) =>
            var s := srecs[si].(courses := JoinCode(srecs[si].courses, c.code));
            Success((srecs[si := s], crecs[ci := c]))
  }

  /**
   * A successful enrolment raises that course's counter by exactly one, puts
   * its code in the student's list (once, if the list had no repeats), and
   * leaves every other student and course alone.
   */
  lemma EnrollEffect(srecs: seq<StudentRecord>, crecs: seq<CourseRecord>, locked: bool, sid: Key, code: Key)
    requires EnrollSpec(srecs, crecs, locked, sid, code).Success?
    ensures var (s2, c2) := EnrollSpec(srecs, crecs, locked, sid, code).value;
      var si := StudentIndex(srecs, sid).value;
      var ci := CourseIndex(crecs, code).value;
      && !locked && srecs[si].active
      && c2[ci].enrolled == crecs[ci].enrolled + 1 && c2[ci] == crecs[ci].(enrolled := c2[ci].enrolled)
      && crecs[ci].code in s2[si].courses
      && (NoDuplicates(srecs[si].courses) ==> Count(s2[si].courses, crecs[ci].code) == 1)
      && s2[si] == srecs[si].(courses := s2[si].courses)
      && (forall j :: 0 <= j < |srecs| && j != si ==> s2[j] == srecs[j])
      && (forall j :: 0 <= j < |crecs| && j != ci ==> c2[j] == crecs[j])
  {
    var si := StudentIndex(srecs, sid).value;
    var ci := CourseIndex(crecs, code).value;
    var cs := srecs[si].courses;
    if NoDuplicates(cs) {
      CountAtMostOne(JoinCode(cs, crecs[ci].code), crecs[ci].code);
    }
  }

  /**
   * Enrolling a student who is already enrolled succeeds again while seats
   * last: the course list stays as it was but the counter goes up once more.
   */
  lemma EnrollTwiceCountsTwice(srecs: seq<StudentRecord>, crecs: seq<CourseRecord>, sid: Key, code: Key)
    requires EnrollSpec(srecs, crecs, false, sid, code).Success?
    requires var ci := CourseIndex(crecs, code).value; crecs[ci].enrolled + 2 <= crecs[ci].seats
    ensures var (s1, c1) := EnrollSpec(srecs, crecs, false, sid, code).value;
      var r2 := EnrollSpec(s1, c1, false, sid, code);
      var si := StudentIndex(srecs, sid).value;
      var ci := CourseIndex(crecs, code).value;
      && r2.Success?
      && r2.value.0[si].courses == s1[si].courses
      && r2.value.1[ci].enrolled == crecs[ci].enrolled + 2
  {
    var (s1, c1) := EnrollSpec(srecs, crecs, false, sid, code).value;
    var si := StudentIndex(srecs, sid).value;
    var ci := CourseIndex(crecs, code).value;
    SameIndexAfterUpdate(srecs, si, s1[si], sid);
    SameCourseIndexAfterUpdate(crecs, ci, c1[ci], code);
  }

  /** Replacing the first match by a record with the same id keeps it the first match. */
  lemma SameIndexAfterUpdate(recs: seq<StudentRecord>, i: nat, s: StudentRecord, k: Key)
    requires StudentIndex(recs, k) == Some(i) && s.id == recs[i].id
    ensures StudentIndex(recs[i := s], k) == Some(i)
  {
    var r := recs[i := s];
    forall j | 0 <= j < i
      ensures r[j] == recs[j] && !MatchesStudent(r[j], k)
    {
    }
    assert MatchesStudent(r[i], k);
  }

  lemma SameCourseIndexAfterUpdate(recs: seq<CourseRecord>, i: nat, c: CourseRecord, k: Key)
    requires CourseIndex(recs, k) == Some(i) && c.code == recs[i].code
    ensures CourseIndex(recs[i := c], k) == Some(i)
  {
    var r := recs[i := c];
    forall j | 0 <= j < i
      ensures r[j] == recs[j] && !MatchesCourse(r[j], k)
    {
    }
    assert MatchesCourse(r[i], k);
  }

  /**
   * `unenroll`: no lock check; both found, or 'Not found' with nothing
   * changed; then every occurrence of the code leaves the student's list,
   * and only after that the counter goes down, which may throw at zero with
   * the list already changed.
   */
  function UnenrollSpec(srecs: seq<StudentRecord>, crecs: seq<CourseRecord>, sid: Key, code: Key)
    : (r: (seq<StudentRecord>, seq<CourseRecord>, Outcome<ManagerError>))
    ensures |r.0| == |srecs| && |r.1| == |crecs|
    ensures r.2 == Fail(NotFound) ==> r.0 == srecs && r.1 == crecs
  {
    match (StudentIndex(srecs, sid), CourseIndex(crecs, code))
    case (Some(si), Some(ci)) =>
      var s := srecs[si].(courses := Without(srecs[si].courses, crecs[ci].code));
      var s2 := srecs[si := s];
      (match RemoveOneSpec(crecs[ci])
       case Failure(e) => (s2, crecs, Fail(Rejected(e)))
       case Success(c) => (s2, crecs[ci := c], Pass))
    case _ => (srecs, crecs, Fail(NotFound))
  }

  /**
   * Unenrolling takes the code out of the student's list in every case the
   * course is found; it lowers the counter even if the student never joined,
   * and at zero it throws after the list has changed.
   */
  lemma UnenrollEffect(srecs: seq<StudentRecord>, crecs: seq<CourseRecord>, sid: Key, code: Key)
    requires StudentIndex(srecs, sid).Some? && CourseIndex(crecs, code).Some?
    ensures var (s2, c2, o) := UnenrollSpec(srecs, crecs, sid, code);
      var si := StudentIndex(srecs, sid).value;
      var ci := CourseIndex(crecs, code).value;
      && crecs[ci].code !in s2[si].courses
      && s2[si].courses == Without(srecs[si].courses, crecs[ci].code)
      && (o.Pass? <==> crecs[ci].enrolled > 0)
      && (o.Pass? ==> c2[ci].enrolled == crecs[ci].enrolled - 1)
      && (o.Fail? ==> o.error == Rejected(EnrolledNegative) && c2 == crecs)
  {
  }

  /** Joining and then leaving a course gives back a list that had no such code. */
  lemma LeaveUndoesJoin(courses: seq<string>, c: string)
    requires c !in courses
    ensures Without(JoinCode(courses, c), c) == courses
  {
    WithoutAbsent(courses, c);
    WithoutAppend(courses, [c], c);
    assert Without([c], c) == [] by {
      assert [c][1..] == [];
    }
  }

  lemma {:induction false} WithoutAbsent(s: seq<string>, c: string)
    requires c !in s
    ensures Without(s, c) == s
  {
    if s != [] {
      WithoutAbsent(s[1..], c);
      assert s == [s[0]] + s[1..];
    }
  }

  // ---------------------------------------------------------------- reports

  /** The names of the students in `recs`, in order, each repeated once per occurrence of `code` in their list. */
  function NamesUnder(recs: seq<StudentRecord>, code: string): seq<string> {
    if recs == [] then []
    else
      var last := recs[|recs| - 1];
      NamesUnder(recs[..|recs| - 1], code) + Repeat(Count(last.courses, code), last.name)
  }

  /** The names of the students whose list holds `code`, in order. */
  function NamesIn(recs: seq<StudentRecord>, code: string): seq<string> {
    if recs == [] then []
    else
      var last := recs[|recs| - 1];
      NamesIn(recs[..|recs| - 1], code) + (if code in last.courses then [last.name] else [])
  }

  /** A course list without repeats holds a code at most once. */
  lemma CountAtMostOne(s: seq<string>, c: string)
    requires NoDuplicates(s)
    ensures Count(s, c) == if c in s then 1 else 0
  {
    if c in s {
      var k :| 0 <= k < |s| && s[k] == c;
      assert s == s[..k] + [c] + s[k + 1..];
      assert c !in s[..k] by {
        forall j | 0 <= j < k ensures s[j] != c { }
      }
      assert c !in s[k + 1..] by {
        forall j | k + 1 <= j < |s| ensures s[j] != c { }
      }
      assert multiset(s)[c] == multiset(s[..k])[c] + 1 + multiset(s[k + 1..])[c];
    }
  }

  /**
   * When no student's list repeats a code (as `join` guarantees), the enrol
   * list under a code names each student of that course exactly once.
   */
  lemma {:induction false} NamesUnderOnce(recs: seq<StudentRecord>, code: string)
    requires forall j :: 0 <= j < |recs| ==> NoDuplicates(recs[j].courses)
    ensures NamesUnder(recs, code) == NamesIn(recs, code)
  {
    if recs != [] {
      var last := recs[|recs| - 1];
      NamesUnderOnce(recs[..|recs| - 1], code);
      CountAtMostOne(last.courses, code);
    }
  }

  /** The codes in some student's list. */
  function JoinedCodes(recs: seq<StudentRecord>): set<string> {
    set j, c | 0 <= j < |recs| && c in recs[j].courses :: c
  }

  /** The `buildEnrollList` object: a key per course code and per joined code, holding the names under it. */
  function EnrollList(srecs: seq<StudentRecord>, crecs: seq<CourseRecord>): (m: map<string, seq<string>>)
    ensures m.Keys == Members(Codes(crecs)) + JoinedCodes(srecs)
    ensures forall k :: k in m ==> m[k] == NamesUnder(srecs, k)
  {
    map k | k in Members(Codes(crecs)) + JoinedCodes(srecs) :: NamesUnder(srecs, k)
  }

  /** The `stats` bucket of a student's marks. */
  function Bucket(marks: real): string {
    if marks >= 85.0 then "A" else if marks >= 70.0 then "B" else if marks >= 50.0 then "C" else "D"
  }

  /** The number of students in bucket `b`. */
  function BucketCount(recs: seq<StudentRecord>, b: string): (n: nat)
    ensures n <= |recs|
  {
    if recs == [] then 0
    else BucketCount(recs[..|recs| - 1], b) + (if Bucket(recs[|recs| - 1].marks) == b then 1 else 0)
  }

  /** The `split` object: a key for every bucket some student falls in, holding the number of them. */
  function Split(recs: seq<StudentRecord>): (m: map<string, nat>)
    ensures forall b :: b in m ==> m[b] == BucketCount(recs, b) && m[b] > 0
  {
    map b | b in {"A", "B", "C", "D"} && BucketCount(recs, b) > 0 :: BucketCount(recs, b)
  }

  /** Every student falls in exactly one bucket, so the four counts add up to the number of students. */
  lemma {:induction false} BucketsPartition(recs: seq<StudentRecord>)
    ensures BucketCount(recs, "A") + BucketCount(recs, "B") + BucketCount(recs, "C") + BucketCount(recs, "D") == |recs|
    ensures forall b :: b !in {"A", "B", "C", "D"} ==> BucketCount(recs, b) == 0
  {
    if recs != [] {
      BucketsPartition(recs[..|recs| - 1]);
    }
  }

  function SumAges(recs: seq<StudentRecord>): int {
    if recs == [] then 0 else SumAges(recs[..|recs| - 1]) + recs[|recs| - 1].age
  }

  function SumMarks(recs: seq<StudentRecord>): real {
    if recs == [] then 0.0 else SumMarks(recs[..|recs| - 1]) + recs[|recs| - 1].marks
  }

  /** The sums of valid students stay within the per-student ranges. */
  lemma {:induction false} SumBounds(recs: seq<StudentRecord>)
    requires forall j :: 0 <= j < |recs| ==> StudentInvariant(recs[j])
    ensures 16 * |recs| <= SumAges(recs) <= 100 * |recs|
    ensures 0.0 <= SumMarks(recs) <= 100.0 * |recs| as real
  {
    if recs != [] {
      SumBounds(recs[..|recs| - 1]);
    }
  }

  /** The `stats` result. */
  datatype StatsResult = StatsResult(count: nat, avgAge: Option<real>, avgMarks: Option<real>, split: map<string, nat>)

  /** `stats`: the count, the exact averages (undefined with no student) and the bucket split. */
  function StatsSpec(recs: seq<StudentRecord>): StatsResult {
    var n := |recs|;
    StatsResult(n,
      if n == 0 then None else Some(SumAges(recs) as real / n as real),
      if n == 0 then None else Some(SumMarks(recs) / n as real),
      Split(recs))
  }

  /** With valid students the averages lie in the ranges the setters enforce, and the split covers everybody. */
  lemma StatsBounds(recs: seq<StudentRecord>)
    requires forall j :: 0 <= j < |recs| ==> StudentInvariant(recs[j])
    ensures var st := StatsSpec(recs);
      && (st.avgAge.Some? <==> recs != []) && (st.avgMarks.Some? <==> recs != [])
      && (st.avgAge.Some? ==> 16.0 <= st.avgAge.value <= 100.0)
      && (st.avgMarks.Some? ==> 0.0 <= st.avgMarks.value <= 100.0)
      && (forall b :: b in st.split ==> b in {"A", "B", "C", "D"})
  {
    SumBounds(recs);
    BucketsPartition(recs);
    if recs != [] {
      var n := |recs| as real;
      DivBounds(SumAges(recs) as real, n, 16.0, 100.0);
      DivBounds(SumMarks(recs), n, 0.0, 100.0);
    }
  }

  lemma DivBounds(s: real, n: real, lo: real, hi: real)
    requires n > 0.0 && lo * n <= s <= hi * n
    ensures lo <= s / n <= hi
  {
    assert s / n * n == s;
  }

  // ------------------------------------------------- steps of the report loops

  /** A prefix one record longer adds that record's names under each code. */
  lemma NamesUnderStep(recs: seq<StudentRecord>, i: nat, k: string)
    requires i < |recs|
    ensures NamesUnder(recs[..i + 1], k) == NamesUnder(recs[..i], k) + Repeat(Count(recs[i].courses, k), recs[i].name)
  {
    assert recs[..i + 1][..i] == recs[..i];
  }

  /** A code nobody joined has no names under it. */
  lemma {:induction false} NamesUnderAbsent(recs: seq<StudentRecord>, k: string)
    requires k !in JoinedCodes(recs)
    ensures NamesUnder(recs, k) == []
  {
    if recs != [] {
      var last := recs[|recs| - 1];
      var init := recs[..|recs| - 1];
      assert JoinedCodes(init) <= JoinedCodes(recs) by {
        forall c | c in JoinedCodes(init) ensures c in JoinedCodes(recs) {
          var j :| 0 <= j < |init| && c in init[j].courses;
          assert recs[j] == init[j];
        }
      }
      NamesUnderAbsent(init, k);
      assert k !in last.courses;
      assert Count(last.courses, k) == 0;
    }
  }

  /** A prefix one record longer adds that record's codes. */
  lemma JoinedCodesStep(recs: seq<StudentRecord>, i: nat)
    requires i < |recs|
    ensures JoinedCodes(recs[..i + 1]) == JoinedCodes(recs[..i]) + Members(recs[i].courses)
  {
    var a, b := recs[..i + 1], recs[..i];
    forall c | c in JoinedCodes(a) ensures c in JoinedCodes(b) || c in recs[i].courses {
      var j :| 0 <= j < |a| && c in a[j].courses;
      if j < i {
        assert b[j] == a[j];
      }
    }
    forall c | c in JoinedCodes(b) ensures c in JoinedCodes(a) {
      var j :| 0 <= j < |b| && c in b[j].courses;
      assert a[j] == b[j];
    }
    forall c | c in recs[i].courses ensures c in JoinedCodes(a) {
      assert a[i] == recs[i];
    }
  }

  /** Counting over a prefix one longer counts its last element once more. */
  lemma CountStep(s: seq<string>, j: nat, k: string)
    requires j < |s|
    ensures Count(s[..j + 1], k) == Count(s[..j], k) + (if s[j] == k then 1 else 0)
  {
    assert s[..j + 1][..j] == s[..j];
  }

  /** Every student falls in one of the four buckets. */
  lemma BucketIsLetter(marks: real)
    ensures Bucket(marks) in {"A", "B", "C", "D"}
  {
  }

  /** A prefix one record longer counts one more in that record's bucket and no more in any other. */
  lemma SplitStep(recs: seq<StudentRecord>, i: nat)
    requires i < |recs|
    ensures var m := Split(recs[..i]);
      var b := Bucket(recs[i].marks);
      Split(recs[..i + 1]) == m[b := (if b in m then m[b] else 0) + 1]
  {
    var a, p := recs[..i + 1], recs[..i];
    var m := Split(p);
    var b := Bucket(recs[i].marks);
    var n := m[b := (if b in m then m[b] else 0) + 1];
    forall x
      ensures (x in Split(a) <==> x in n) && (x in n ==> Split(a)[x] == n[x])
    {
      SplitKeyStep(recs, i, x);
    }
    assert Split(a) == n;
  }

  /** `SplitStep` for one key. */
  lemma SplitKeyStep(recs: seq<StudentRecord>, i: nat, x: string)
    requires i < |recs|
    ensures var m := Split(recs[..i]);
      var b := Bucket(recs[i].marks);
      var n := m[b := (if b in m then m[b] else 0) + 1];
      (x in Split(recs[..i + 1]) <==> x in n) && (x in n ==> Split(recs[..i + 1])[x] == n[x])
  {
    BucketIsLetter(recs[i].marks);
    if x in {"A", "B", "C", "D"} {
      BucketCountStep(recs, i, x);
    }
  }

  /** One record more adds one to its own bucket's count. */
  lemma BucketCountStep(recs: seq<StudentRecord>, i: nat, x: string)
    requires i < |recs|
    ensures BucketCount(recs[..i + 1], x) == BucketCount(recs[..i], x) + (if Bucket(recs[i].marks) == x then 1 else 0)
  {
    assert recs[..i + 1][..i] == recs[..i];
  }
}

