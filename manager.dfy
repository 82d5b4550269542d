/**
 * manager.ts: the `Manager` store. It holds references to `Student` and
 * `Course` objects, a name, a capacity and a lock flag; every operation is
 * proved against its function in `ManagerSpec`, applied to the snapshots the
 * objects give with `toObject`.
 */
module Management {
  import opened Results
  import opened JsArrays
  import opened Entities
  import opened ManagerSpec

  class Manager {
    var name: string
    var capacity: int
    var locked: bool
    var students: seq<Student>
    var courses: seq<Course>

    /**
     * Every object keeps its setters' guarantees, and no object is stored
     * twice, so changing one record never changes another.
     */
    ghost predicate Valid()
      reads this, students, courses
    {
      && (forall i :: 0 <= i < |students| ==> students[i].Valid())
      && (forall i :: 0 <= i < |courses| ==> courses[i].Valid())
      && (forall i, j :: 0 <= i < j < |students| ==> students[i] != students[j])
      && (forall i, j :: 0 <= i < j < |courses| ==> courses[i] != courses[j])
    }

    /** `getAllStudents()`: the snapshot of every student, in order. */
    function GetAllStudents(): (r: seq<StudentRecord>)
      reads this, students
      ensures |r| == |students| && forall i :: 0 <= i < |students| ==> r[i] == students[i].ToObject()
    {
      seq(|students|, i reads this, students requires 0 <= i < |students| => students[i].ToObject())
    }

    /** `getAllCourses()`: the snapshot of every course, in order. */
    function GetAllCourses(): (r: seq<CourseRecord>)
      reads this, courses
      ensures |r| == |courses| && forall i :: 0 <= i < |courses| ==> r[i] == courses[i].ToObject()
    {
      seq(|courses|, i reads this, courses requires 0 <= i < |courses| => courses[i].ToObject())
    }

    /** Every record `getAllStudents` and `getAllCourses` return keeps its setters' guarantees. */
    lemma SnapshotsKeepInvariants()
      requires Valid()
      ensures forall i :: 0 <= i < |GetAllStudents()| ==> StudentInvariant(GetAllStudents()[i])
      ensures forall i :: 0 <= i < |GetAllCourses()| ==> CourseInvariant(GetAllCourses()[i])
    {
    }

    /** `new Manager()`, `new Manager(name)`, `new Manager(name, capacity)`: an empty, unlocked store. */
    constructor (name: Option<string>, capacity: Option<int>)
      ensures Valid() && !locked && students == [] && courses == []
      ensures this.name == if name.Some? then name.value else "Local Place"
      ensures this.capacity == if capacity.Some? then capacity.value else 50
    {
      this.name := if name.Some? then name.value else "Local Place";
      this.capacity := if capacity.Some? then capacity.value else 50;
      locked := false;
      students := [];
      courses := [];
    }

    method Lock()
      modifies this
      ensures locked && name == old(name) && capacity == old(capacity)
      ensures students == old(students) && courses == old(courses)
    {
      locked := true;
    }

    method Unlock()
      modifies this
      ensures !locked && name == old(name) && capacity == old(capacity)
      ensures students == old(students) && courses == old(courses)
    {
      locked := false;
    }

    function IsLocked(): (b: bool)
      reads this
      ensures b == locked
    {
      locked
    }

    // -------------------------------------------------------------- students

    /** `addStudent(p)`: the new `Student`, stored last; every failure leaves the store as it was. */
    method AddStudent(p: StudentPayload) returns (r: Result<Student, ManagerError>)
      requires Valid()
      modifies this
      ensures Valid() && unchanged(this`name, this`capacity, this`locked, this`courses)
      ensures var spec := AddStudentSpec(old(GetAllStudents()), locked, capacity, p);
        && (r.Success? <==> spec.Success?)
        && (r.Failure? ==> r.error == spec.error && students == old(students))
        && (r.Success? ==> fresh(r.value) && students == old(students) + [r.value])
        && (r.Success? ==> GetAllStudents() == old(GetAllStudents()) + [spec.value])
    {
      var recs := GetAllStudents();
      if locked {
        r := Failure(Locked);
      } else if |students| >= capacity {
        r := Failure(CapacityFull);
      } else if IdTaken(recs, p.id) {
        r := Failure(DuplicateId);
      } else if EmailClash(recs, p.email) {
        r := Failure(EmailTaken);
      } else {
        r := Admit(p);
      }
    }

    /** The end of `addStudent`, once every guard has passed: `new Student(p)`, pushed. */
    method Admit(p: StudentPayload) returns (r: Result<Student, ManagerError>)
      requires Valid()
      modifies this
      ensures Valid() && unchanged(this`name, this`capacity, this`locked, this`courses)
      ensures r.Success? <==> CreateStudent(p).Success?
      ensures r.Failure? ==> r.error == Rejected(CreateStudent(p).error) && students == old(students)
      ensures r.Success? ==> fresh(r.value) && students == old(students) + [r.value]
      ensures r.Success? ==> GetAllStudents() == old(GetAllStudents()) + [CreateStudent(p).value]
    {
      ghost var recs := GetAllStudents();
      var s := Student.New(p);
      StoreUnchanged();
      if s.Failure? {
        r := Failure(Rejected(s.error));
      } else {
        ghost var rec := s.value.ToObject();
        PushStudent(s.value);
        assert GetAllStudents() == recs + [rec];
        r := Success(s.value);
      }
    }

    /** Allocating a new student or course touches none of the stored objects. */
    twostate lemma StoreUnchanged()
      requires old(Valid()) && unchanged(this) && unchanged(students) && unchanged(courses)
      ensures Valid() && GetAllStudents() == old(GetAllStudents()) && GetAllCourses() == old(GetAllCourses())
    {
    }

    /** `this.students.push(s)` for a valid student not yet stored. */
    method PushStudent(s: Student)
      requires Valid() && s.Valid() && s !in students
      modifies this
      ensures Valid() && unchanged(this`name, this`capacity, this`locked, this`courses)
      ensures students == old(students) + [s]
      ensures GetAllStudents() == old(GetAllStudents()) + [s.ToObject()]
    {
      ghost var recs := GetAllStudents();
      students := students + [s];
      assert GetAllStudents() == recs + [s.ToObject()];
    }

    /**
     * `updateStudent(id, upd)`: the setters run on the stored object itself;
     * the returned record and every snapshot are those of `UpdateStudentSpec`.
     */
    method UpdateStudent(id: Key, upd: StudentPatch) returns (r: Result<StudentRecord, ManagerError>)
      requires Valid()
      modifies students
      ensures Valid()
      ensures (GetAllStudents(), r) == UpdateStudentSpec(old(GetAllStudents()), id, upd)
    {
      var recs := GetAllStudents();
      var idx := StudentIndex(recs, id);
      if idx.None? {
        r := Failure(StudentNotFound);
      } else if EmailClash(RemoveAt(recs, idx.value), upd.email) {
        r := Failure(EmailUsed);
      } else {
        var i := idx.value;
        var o := UpdateAt(i, upd);
        r := if o.Fail? then Failure(UpdateFailed(o.error)) else Success(GetAllStudents()[i]);
      }
    }

    /** The setters of `updateStudent`, run on the `i`-th stored object; no other object changes. */
    method UpdateAt(i: nat, upd: StudentPatch) returns (o: Outcome<EntityError>)
      requires Valid() && i < |students|
      modifies students
      ensures Valid() && |GetAllStudents()| == |old(GetAllStudents())|
      ensures (GetAllStudents()[i], o) == PatchStudent(old(GetAllStudents())[i], upd)
      ensures GetAllStudents() == old(GetAllStudents())[i := GetAllStudents()[i]]
    {
      ghost var recs := GetAllStudents();
      var st := students[i];
      o := st.Update(upd);
      forall j | 0 <= j < |students| && j != i
        ensures students[j].Valid() && students[j].ToObject() == recs[j]
      {
        assert students[j] != students[i];
      }
      assert GetAllStudents() == recs[i := st.ToObject()];
    }

    /** `deleteStudent(id)`: the first matching student removed, if the store is unlocked and the student is in no course. */
    method DeleteStudent(id: Key) returns (o: Outcome<ManagerError>)
      requires Valid()
      modifies this
      ensures Valid() && unchanged(this`name, this`capacity, this`locked, this`courses)
      ensures var spec := DeleteStudentSpec(old(GetAllStudents()), locked, id);
        && (o.Pass? <==> spec.Success?)
        && (o.Fail? ==> spec.Failure? && o.error == spec.error && students == old(students))
        && (o.Pass? ==> spec.Success? && GetAllStudents() == spec.value)
        && (o.Pass? ==> students == RemoveAt(old(students), StudentIndex(old(GetAllStudents()), id).value))
    {
      if locked {
        return Fail(Locked);
      }
      var recs := GetAllStudents();
      var idx := StudentIndex(recs, id);
      if idx.None? {
        return Fail(StudentNotFound);
      }
      var i := idx.value;
      if |students[i].courses| > 0 {
        return Fail(StudentEnrolled);
      }
      RemoveStudentAt(i);
      return Pass;
    }

    /** `this.students.splice(i, 1)`. */
    method RemoveStudentAt(i: nat)
      requires Valid() && i < |students|
      modifies this
      ensures Valid() && unchanged(this`name, this`capacity, this`locked, this`courses)
      ensures students == RemoveAt(old(students), i)
      ensures GetAllStudents() == RemoveAt(old(GetAllStudents()), i)
    {
      ghost var recs := GetAllStudents();
      students := RemoveAt(students, i);
      assert GetAllStudents() == RemoveAt(recs, i);
    }

    /** `getStudent(id)`: the snapshot of the first student the id or the short id matches. */
    function GetStudent(id: Key): (r: Option<StudentRecord>)
      reads this, students
      ensures r == GetStudentSpec(GetAllStudents(), id)
    {
      Find(GetAllStudents(), s => MatchesStudent(s, id))
    }

    // --------------------------------------------------------------- courses

    /** `addCourse(p)`: the new `Course`, stored last; every failure leaves the store as it was. */
    method AddCourse(p: CoursePayload) returns (r: Result<Course, ManagerError>)
      requires Valid()
      modifies this
      ensures Valid() && unchanged(this`name, this`capacity, this`locked, this`students)
      ensures var spec := AddCourseSpec(old(GetAllCourses()), locked, p);
        && (r.Success? <==> spec.Success?)
        && (r.Failure? ==> r.error == spec.error && courses == old(courses))
        && (r.Success? ==> fresh(r.value) && courses == old(courses) + [r.value])
        && (r.Success? ==> GetAllCourses() == old(GetAllCourses()) + [spec.value])
    {
      var recs := GetAllCourses();
      if locked {
        r := Failure(Locked);
      } else if FormatCode(p.code) in Codes(recs) {
        r := Failure(CourseCodeDuplicate);
      } else if p.seats <= 0.0 {
        r := Failure(SeatsNotPositive);
      } else {
        r := AdmitCourse(p);
      }
    }

    /** The end of `addCourse`, once every guard has passed: `new Course(p)`, pushed. */
    method AdmitCourse(p: CoursePayload) returns (r: Result<Course, ManagerError>)
      requires Valid()
      modifies this
      ensures Valid() && unchanged(this`name, this`capacity, this`locked, this`students)
      ensures r.Success? <==> CreateCourse(p).Success?
      ensures r.Failure? ==> r.error == Rejected(CreateCourse(p).error) && courses == old(courses)
      ensures r.Success? ==> fresh(r.value) && courses == old(courses) + [r.value]
      ensures r.Success? ==> GetAllCourses() == old(GetAllCourses()) + [CreateCourse(p).value]
    {
      ghost var recs := GetAllCourses();
      var c := Course.New(p);
      StoreUnchanged();
      if c.Failure? {
        r := Failure(Rejected(c.error));
      } else {
        ghost var rec := c.value.ToObject();
        PushCourse(c.value);
        assert GetAllCourses() == recs + [rec];
        r := Success(c.value);
      }
    }

    /** `this.courses.push(c)` for a valid course not yet stored. */
    method PushCourse(c: Course)
      requires Valid() && c.Valid() && c !in courses
      modifies this
      ensures Valid() && unchanged(this`name, this`capacity, this`locked, this`students)
      ensures courses == old(courses) + [c]
      ensures GetAllCourses() == old(GetAllCourses()) + [c.ToObject()]
    {
      ghost var recs := GetAllCourses();
      courses := courses + [c];
      assert GetAllCourses() == recs + [c.ToObject()];
    }

    /**
     * `updateCourse(code, upd)`: the setters run on the stored object itself;
     * the returned record and every snapshot are those of `UpdateCourseSpec`.
     */
    method UpdateCourse(code: Key, upd: CoursePatch) returns (r: Result<CourseRecord, ManagerError>)
      requires Valid()
      modifies courses
      ensures Valid()
      ensures (GetAllCourses(), r) == UpdateCourseSpec(old(GetAllCourses()), code, upd)
    {
      var recs := GetAllCourses();
      var idx := CourseIndexLoosely(recs, code);
      if idx.None? {
        r := Failure(CourseNotFound);
      } else {
        var i := idx.value;
        var o := UpdateCourseAt(i, upd);
        r := if o.Fail? then Failure(CourseUpdateFailed(o.error)) else Success(GetAllCourses()[i]);
      }
    }

    /** The setters of `updateCourse`, run on the `i`-th stored course; no other object changes. */
    method UpdateCourseAt(i: nat, upd: CoursePatch) returns (o: Outcome<EntityError>)
      requires Valid() && i < |courses|
      modifies courses
      ensures Valid() && |GetAllCourses()| == |old(GetAllCourses())|
      ensures (GetAllCourses()[i], o) == PatchCourse(old(GetAllCourses())[i], upd)
      ensures GetAllCourses() == old(GetAllCourses())[i := GetAllCourses()[i]]
    {
      ghost var recs := GetAllCourses();
      var cr := courses[i];
      o := cr.Update(upd);
      forall j | 0 <= j < |courses| && j != i
        ensures courses[j].Valid() && courses[j].ToObject() == recs[j]
      {
        assert courses[j] != courses[i];
      }
      assert GetAllCourses() == recs[i := cr.ToObject()];
    }

    /** `deleteCourse(code)`: the first matching course removed, if the store is unlocked and nobody is enrolled. */
    method DeleteCourse(code: Key) returns (o: Outcome<ManagerError>)
      requires Valid()
      modifies this
      ensures Valid() && unchanged(this`name, this`capacity, this`locked, this`students)
      ensures var spec := DeleteCourseSpec(old(GetAllCourses()), locked, code);
        && o == OutcomeOf(spec)
        && GetAllCourses() == ValueOr(spec, old(GetAllCourses()))
        && (o.Fail? ==> courses == old(courses))
        && (o.Pass? ==> courses == RemoveAt(old(courses), CourseIndexLoosely(old(GetAllCourses()), code).value))
    {
      if locked {
        return Fail(Locked);
      }
      var recs := GetAllCourses();
      var idx := CourseIndexLoosely(recs, code);
      if idx.None? {
        return Fail(CourseNotFound);
      }
      var i := idx.value;
      if courses[i].enrolled > 0 {
        return Fail(CourseHasEnrolled);
      }
      RemoveCourseAt(i);
      return Pass;
    }

    /** `this.courses.splice(i, 1)`. */
    method RemoveCourseAt(i: nat)
      requires Valid() && i < |courses|
      modifies this
      ensures Valid() && unchanged(this`name, this`capacity, this`locked, this`students)
      ensures courses == RemoveAt(old(courses), i)
      ensures GetAllCourses() == RemoveAt(old(GetAllCourses()), i)
    {
      ghost var recs := GetAllCourses();
      courses := RemoveAt(courses, i);
      assert GetAllCourses() == RemoveAt(recs, i);
    }

    /** `getCourse(code)`: the snapshot of the first course with the looked-up code. */
    function GetCourse(code: Key): (r: Option<CourseRecord>)
      reads this, courses
      ensures r == GetCourseSpec(GetAllCourses(), code)
    {
      Find(GetAllCourses(), c => MatchesCourse(c, code))
    }

    // ------------------------------------------------------------- enrolment

    /** `enroll(studentId, courseCode)`: the stored objects change as `EnrollSpec` says, and not at all on a failure. */
    method Enroll(sid: Key, code: Key) returns (o: Outcome<ManagerError>)
      requires Valid()
      modifies students, courses
      ensures Valid()
      ensures var spec := EnrollSpec(old(GetAllStudents()), old(GetAllCourses()), locked, sid, code);
        && o == OutcomeOf(spec)
        && (GetAllStudents(), GetAllCourses()) == ValueOr(spec, (old(GetAllStudents()), old(GetAllCourses())))
    {
      var srecs := GetAllStudents();
      var crecs := GetAllCourses();
      var si := StudentIndex(srecs, sid);
      var ci := CourseIndex(crecs, code);
      ghost var spec := EnrollSpec(srecs, crecs, locked, sid, code);
      if locked {
        o := Fail(Locked);
        assert spec == Failure(Locked);
        assert (GetAllStudents(), GetAllCourses()) == ValueOr(spec, (srecs, crecs));
      } else if si.None? {
        o := Fail(StudentNotFound);
        assert spec == Failure(StudentNotFound);
        assert (GetAllStudents(), GetAllCourses()) == ValueOr(spec, (srecs, crecs));
      } else if ci.None? {
        o := Fail(CourseNotFound);
        assert spec == Failure(CourseNotFound);
        assert (GetAllStudents(), GetAllCourses()) == ValueOr(spec, (srecs, crecs));
      } else if !students[si.value].active {
        assert !srecs[si.value].active;
        o := Fail(InactiveStudent);
        assert spec == Failure(InactiveStudent);
        assert (GetAllStudents(), GetAllCourses()) == ValueOr(spec, (srecs, crecs));
      } else {
        var i, j := si.value, ci.value;
        assert srecs[i].active;
        o := EnrollAt(i, j);
        ghost var r := AddOneSpec(crecs[j]);
        if r.Success? {
          assert spec == Success((srecs[i := srecs[i].(courses := JoinCode(srecs[i].courses, r.value.code))], crecs[j := r.value]));
          assert GetAllStudents() == srecs[i := srecs[i].(courses := JoinCode(srecs[i].courses, r.value.code))];
          assert GetAllCourses() == crecs[j := r.value];
          assert (GetAllStudents(), GetAllCourses()) == ValueOr(spec, (srecs, crecs));
        } else {
          assert spec == Failure(Rejected(r.error));
          assert (GetAllStudents(), GetAllCourses()) == ValueOr(spec, (srecs, crecs));
        }
      }
    }

    /** `cr.addOne()`, which may throw, then `st.join(cr.code)`, on the `si`-th student and the `ci`-th course. */
    method EnrollAt(si: nat, ci: nat) returns (o: Outcome<ManagerError>)
      requires Valid() && si < |students| && ci < |courses|
      modifies students[si], courses[ci]
      ensures Valid()
      ensures var s0 := old(GetAllStudents());
        var c0 := old(GetAllCourses());
        var r := AddOneSpec(c0[ci]);
        && o == (if r.Success? then Pass else Fail(Rejected(r.error)))
        && (r.Failure? ==> GetAllCourses() == c0 && GetAllStudents() == s0)
        && (r.Success? ==> GetAllCourses() == c0[ci := r.value])
        && (r.Success? ==> GetAllStudents() == s0[si := s0[si].(courses := JoinCode(s0[si].courses, c0[ci].code))])
    {
      var added := AddOneAt(ci);
      if added.Fail? {
        o := Fail(Rejected(added.error));
      } else {
        JoinAt(si, courses[ci].code);
        o := Pass;
      }
    }

    /** `cr.addOne()` on the `ci`-th course; nothing else changes. */
    method AddOneAt(ci: nat) returns (o: Outcome<EntityError>)
      requires Valid() && ci < |courses|
      modifies courses[ci]
      ensures Valid() && GetAllStudents() == old(GetAllStudents())
      ensures o == OutcomeOf(AddOneSpec(old(GetAllCourses())[ci]))
      ensures GetAllCourses() == old(GetAllCourses())[ci := ValueOr(AddOneSpec(old(GetAllCourses())[ci]), old(GetAllCourses())[ci])]
      ensures o.Fail? ==> GetAllCourses() == old(GetAllCourses())
      ensures |GetAllCourses()| == |courses| && courses[ci].code == old(courses[ci].code)
    {
      ghost var c0 := GetAllCourses();
      var cr := courses[ci];
      o := cr.AddOne();
      forall j | 0 <= j < |courses| && j != ci
        ensures courses[j].Valid() && courses[j].ToObject() == c0[j]
      {
        assert courses[j] != courses[ci];
      }
      assert GetAllCourses() == c0[ci := cr.ToObject()];
    }

    /** `st.join(c)` on the `si`-th student; nothing else changes. */
    method JoinAt(si: nat, c: string)
      requires Valid() && si < |students|
      modifies students[si]
      ensures Valid() && GetAllCourses() == old(GetAllCourses())
      ensures var s0 := old(GetAllStudents());
        GetAllStudents() == s0[si := s0[si].(courses := JoinCode(s0[si].courses, c))]
    {
      ghost var s0 := GetAllStudents();
      var st := students[si];
      st.Join(StrKey(c));
      forall j | 0 <= j < |students| && j != si
        ensures students[j].Valid() && students[j].ToObject() == s0[j]
      {
        assert students[j] != students[si];
      }
      assert GetAllStudents() == s0[si := st.ToObject()];
    }

    /** `unenroll(studentId, courseCode)`: no lock check; the stored objects change as `UnenrollSpec` says. */
    method Unenroll(sid: Key, code: Key) returns (o: Outcome<ManagerError>)
      requires Valid()
      modifies students, courses
      ensures Valid()
      ensures (GetAllStudents(), GetAllCourses(), o) == UnenrollSpec(old(GetAllStudents()), old(GetAllCourses()), sid, code)
    {
      var srecs := GetAllStudents();
      var crecs := GetAllCourses();
      var si := StudentIndex(srecs, sid);
      var ci := CourseIndex(crecs, code);
      ghost var spec := UnenrollSpec(srecs, crecs, sid, code);
      if si.None? || ci.None? {
        o := Fail(NotFound);
      } else {
        var i, j := si.value, ci.value;
        o := UnenrollAt(i, j);
        ghost var r := RemoveOneSpec(crecs[j]);
        ghost var s2 := srecs[i := srecs[i].(courses := Without(srecs[i].courses, crecs[j].code))];
        if r.Success? {
          assert spec == (s2, crecs[j := r.value], Pass);
        } else {
          assert spec == (s2, crecs, Fail(Rejected(r.error)));
        }
      }
    }

    /** `st.leave(cr.code)`, then `cr.removeOne()`, which may throw with the list already changed. */
    method UnenrollAt(si: nat, ci: nat) returns (o: Outcome<ManagerError>)
      requires Valid() && si < |students| && ci < |courses|
      modifies students[si], courses[ci]
      ensures Valid()
      ensures var s0 := old(GetAllStudents());
        var c0 := old(GetAllCourses());
        var r := RemoveOneSpec(c0[ci]);
        && o == (if r.Success? then Pass else Fail(Rejected(r.error)))
        && (r.Failure? ==> GetAllCourses() == c0)
        && (r.Success? ==> GetAllCourses() == c0[ci := r.value])
        && GetAllStudents() == s0[si := s0[si].(courses := Without(s0[si].courses, c0[ci].code))]
    {
      LeaveAt(si, courses[ci].code);
      var removed := RemoveOneAt(ci);
      o := if removed.Fail? then Fail(Rejected(removed.error)) else Pass;
    }

    /** `st.leave(c)` on the `si`-th student; nothing else changes. */
    method LeaveAt(si: nat, c: string)
      requires Valid() && si < |students|
      modifies students[si]
      ensures Valid() && GetAllCourses() == old(GetAllCourses())
      ensures var s0 := old(GetAllStudents());
        GetAllStudents() == s0[si := s0[si].(courses := Without(s0[si].courses, c))]
    {
      ghost var s0 := GetAllStudents();
      var st := students[si];
      st.Leave(StrKey(c));
      forall j | 0 <= j < |students| && j != si
        ensures students[j].Valid() && students[j].ToObject() == s0[j]
      {
        assert students[j] != students[si];
      }
      assert GetAllStudents() == s0[si := st.ToObject()];
    }

    /** `cr.removeOne()` on the `ci`-th course; nothing else changes. */
    method RemoveOneAt(ci: nat) returns (o: Outcome<EntityError>)
      requires Valid() && ci < |courses|
      modifies courses[ci]
      ensures Valid() && GetAllStudents() == old(GetAllStudents())
      ensures o == OutcomeOf(RemoveOneSpec(old(GetAllCourses())[ci]))
      ensures GetAllCourses() == old(GetAllCourses())[ci := ValueOr(RemoveOneSpec(old(GetAllCourses())[ci]), old(GetAllCourses())[ci])]
      ensures o.Fail? ==> GetAllCourses() == old(GetAllCourses())
    {
      ghost var c0 := GetAllCourses();
      var cr := courses[ci];
      o := cr.RemoveOne();
      forall j | 0 <= j < |courses| && j != ci
        ensures courses[j].Valid() && courses[j].ToObject() == c0[j]
      {
        assert courses[j] != courses[ci];
      }
      assert GetAllCourses() == c0[ci := cr.ToObject()];
    }

    // --------------------------------------------------------------- reports

    /** `validate()`: no two students share an email and no two courses share a code. */
    method Validate() returns (ok: bool)
      requires Valid()
      ensures ok <==> NoDuplicates(Emails(GetAllStudents())) && NoDuplicates(Codes(GetAllCourses()))
    {
      ok := NoRepeats(Emails(GetAllStudents()));
      if ok {
        ok := NoRepeats(Codes(GetAllCourses()));
      }
    }

    /**
     * `buildEnrollList()`: an empty list for every course code, then each
     * student's name pushed under every code of their list, in order.
     */
    method BuildEnrollList() returns (out: map<string, seq<string>>)
      requires Valid()
      ensures out == EnrollList(GetAllStudents(), GetAllCourses())
    {
      var srecs := GetAllStudents();
      var crecs := GetAllCourses();
      out := EmptyLists(Codes(crecs));
      assert JoinedCodes(srecs[..0]) == {};
      for i := 0 to |srecs|
        invariant forall k :: k in out <==> k in Codes(crecs) || k in JoinedCodes(srecs[..i])
        invariant forall k :: k in out ==> out[k] == NamesUnder(srecs[..i], k)
        invariant forall k :: k !in out ==> NamesUnder(srecs[..i], k) == []
      {
        ghost var before := out;
        out := PushNames(out, srecs[..i], srecs[i].courses, srecs[i].name);
        PushNamesStep(before, out, srecs, crecs, i);
      }
      assert srecs[..|srecs|] == srecs;
      EnrollListAgrees(out, srecs, crecs);
      assert srecs == GetAllStudents() && crecs == GetAllCourses();
    }

    /** `stats()`: the count, the averages (undefined with no student) and the bucket split of the snapshots. */
    method Stats() returns (st: StatsResult)
      requires Valid()
      ensures st == StatsSpec(GetAllStudents())
    {
      var arr := GetAllStudents();
      var count := |arr|;
      var avgAge := if count > 0 then Some(SumAges(arr) as real / count as real) else None;
      var avgMarks := if count > 0 then Some(SumMarks(arr) / count as real) else None;
      var split := SplitOf(arr);
      st := StatsResult(count, avgAge, avgMarks, split);
    }
  }

  /** The duplicate scan of `validate()`: every element checked against those seen before it. */
  method NoRepeats(xs: seq<string>) returns (ok: bool)
    ensures ok <==> NoDuplicates(xs)
  {
    var seen: seq<string> := [];
    for i := 0 to |xs|
      invariant seen == xs[..i] && NoDuplicates(seen)
    {
      if xs[i] in seen {
        return false;
      }
      seen := seen + [xs[i]];
    }
    assert xs[..|xs|] == xs;
    return true;
  }

  /** The first loop of `buildEnrollList()`: an empty list under every code. */
  method EmptyLists(codes: seq<string>) returns (out: map<string, seq<string>>)
    ensures forall k :: k in out <==> k in codes
    ensures forall k :: k in out ==> out[k] == []
  {
    out := map[];
    for i := 0 to |codes|
      invariant forall k :: k in out <==> k in codes[..i]
      invariant forall k :: k in out ==> out[k] == []
    {
      assert codes[..i + 1] == codes[..i] + [codes[i]];
      out := out[codes[i] := []];
    }
    assert codes[..|codes|] == codes;
  }

  /**
   * The inner loop of `buildEnrollList()` for one student: the name pushed
   * under every code of the list, in order.
   */
  method PushNames(out: map<string, seq<string>>, ghost done: seq<StudentRecord>, cs: seq<string>, nm: string)
    returns (out': map<string, seq<string>>)
    requires forall k :: k in out ==> out[k] == NamesUnder(done, k)
    requires forall k :: k !in out ==> NamesUnder(done, k) == []
    ensures forall k :: k in out' <==> k in out || k in cs
    ensures forall k :: k in out' ==> out'[k] == NamesUnder(done, k) + Repeat(Count(cs, k), nm)
  {
    out' := out;
    for j := 0 to |cs|
      invariant forall k :: k in out' <==> k in out || k in cs[..j]
      invariant forall k :: k in out' ==> out'[k] == NamesUnder(done, k) + Repeat(Count(cs[..j], k), nm)
    {
      assert cs[..j + 1] == cs[..j] + [cs[j]];
      out' := PushName(out', done, cs, j, nm);
    }
    assert cs[..|cs|] == cs;
  }

  /**
   * One step of the inner `buildEnrollList()` loop: a missing key gets an
   * empty list (`if (!out[code]) out[code] = []`), then the name is pushed under it.
   */
  method PushName(out: map<string, seq<string>>, ghost done: seq<StudentRecord>, cs: seq<string>, j: nat, nm: string)
    returns (out': map<string, seq<string>>)
    requires j < |cs|
    requires forall k :: k in out ==> out[k] == NamesUnder(done, k) + Repeat(Count(cs[..j], k), nm)
    requires cs[j] !in out ==> NamesUnder(done, cs[j]) == [] && cs[j] !in cs[..j]
    ensures forall k :: k in out' <==> k in out || k == cs[j]
    ensures forall k :: k in out' ==> out'[k] == NamesUnder(done, k) + Repeat(Count(cs[..j + 1], k), nm)
  {
    var code := cs[j];
    var cur := if code in out then out[code] else [];
    out' := out[code := cur + [nm]];
    PushedHere(out, done, cs, j, nm);
    forall k | k in out' && k != code
      ensures out'[k] == NamesUnder(done, k) + Repeat(Count(cs[..j + 1], k), nm)
    {
      PushedElsewhere(out, done, cs, j, nm, k);
    }
  }

  /** The list under the pushed code gains the name once. */
  lemma PushedHere(out: map<string, seq<string>>, done: seq<StudentRecord>, cs: seq<string>, j: nat, nm: string)
    requires j < |cs|
    requires cs[j] in out ==> out[cs[j]] == NamesUnder(done, cs[j]) + Repeat(Count(cs[..j], cs[j]), nm)
    requires cs[j] !in out ==> NamesUnder(done, cs[j]) == [] && cs[j] !in cs[..j]
    ensures (if cs[j] in out then out[cs[j]] else []) + [nm] == NamesUnder(done, cs[j]) + Repeat(Count(cs[..j + 1], cs[j]), nm)
  {
    var code := cs[j];
    var n := Count(cs[..j], code);
    CountStep(cs, j, code);
    if code !in out {
      assert n == 0;
    }
    assert Repeat(n + 1, nm) == Repeat(n, nm) + [nm];
  }

  /** Any other list is unchanged, and so is its count. */
  lemma PushedElsewhere(out: map<string, seq<string>>, done: seq<StudentRecord>, cs: seq<string>, j: nat, nm: string, k: string)
    requires j < |cs| && k != cs[j] && k in out
    requires out[k] == NamesUnder(done, k) + Repeat(Count(cs[..j], k), nm)
    ensures out[k] == NamesUnder(done, k) + Repeat(Count(cs[..j + 1], k), nm)
  {
    CountStep(cs, j, k);
  }

  /** After one student's names are pushed, the keys and the lists are those of the one-longer prefix. */
  lemma PushNamesStep(before: map<string, seq<string>>, out: map<string, seq<string>>,
                      srecs: seq<StudentRecord>, crecs: seq<CourseRecord>, i: nat)
    requires i < |srecs|
    requires forall k :: k in before <==> k in Codes(crecs) || k in JoinedCodes(srecs[..i])
    requires forall k :: k !in before ==> NamesUnder(srecs[..i], k) == []
    requires forall k :: k in out <==> k in before || k in srecs[i].courses
    requires forall k :: k in out ==> out[k] == NamesUnder(srecs[..i], k) + Repeat(Count(srecs[i].courses, k), srecs[i].name)
    ensures forall k :: k in out <==> k in Codes(crecs) || k in JoinedCodes(srecs[..i + 1])
    ensures forall k :: k in out ==> out[k] == NamesUnder(srecs[..i + 1], k)
    ensures forall k :: k !in out ==> NamesUnder(srecs[..i + 1], k) == []
  {
    JoinedCodesStep(srecs, i);
    forall k
      ensures k in out ==> out[k] == NamesUnder(srecs[..i + 1], k)
      ensures k !in out ==> NamesUnder(srecs[..i + 1], k) == []
    {
      NamesUnderStep(srecs, i, k);
      if k !in out {
        assert Count(srecs[i].courses, k) == 0;
      }
    }
  }

  /** A map with the keys and the lists of `EnrollList` is `EnrollList`. */
  lemma EnrollListAgrees(out: map<string, seq<string>>, srecs: seq<StudentRecord>, crecs: seq<CourseRecord>)
    requires forall k :: k in out <==> k in Codes(crecs) || k in JoinedCodes(srecs)
    requires forall k :: k in out ==> out[k] == NamesUnder(srecs, k)
    ensures out == EnrollList(srecs, crecs)
  {
    var m := EnrollList(srecs, crecs);
    assert out.Keys == m.Keys;
  }

  /** The `split` loop of `stats()`: one more in each student's bucket. */
  method SplitOf(arr: seq<StudentRecord>) returns (split: map<string, nat>)
    ensures split == Split(arr)
  {
    split := map[];
    assert Split(arr[..0]) == map[] by {
      assert forall b :: BucketCount(arr[..0], b) == 0;
    }
    for i := 0 to |arr|
      invariant split == Split(arr[..i])
    {
      var key := Bucket(arr[i].marks);
      SplitStep(arr, i);
      split := split[key := (if key in split then split[key] else 0) + 1];
    }
    assert arr[..|arr|] == arr;
  }
}
