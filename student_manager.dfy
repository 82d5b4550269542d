/**
 * student.ts: the abstract base's grade classifiers and `getStudentById`, and
 * `StudentManager`, a second store of plain student and course records with a
 * capacity bound, unique ids, an immutable id on update, the `currentStudent`
 * validation and a guarded `addCourse`.
 *
 * Every operation is first a function on a `Store` value (what it returns or
 * throws, and the store it leaves); the `StudentManager` class is proved
 * against those functions, and the lemmas at the end are about them.
 */
module StudentManagement {
  import opened Results
  import opened JsText
  import opened JsArrays

  /** An `IStudent`: a plain record, replaced whole by `updateStudent`. */
  datatype StudentInfo = StudentInfo(id: int, name: string, age: real, email: string)

  /** A `Partial<IStudent>`: every field present or absent. */
  datatype StudentPatch = StudentPatch(id: Option<int>, name: Option<string>, age: Option<real>, email: Option<string>)

  /** An `ICourse`: a course taken, with the grade obtained. */
  datatype CourseInfo = CourseInfo(courseId: string, courseName: string, grade: real)

  /** The three values `_gradeScale` may hold. */
  datatype GradeScale = Numeric | Letter | Gpa

  /** The errors `StudentManager` throws, one per message. */
  datatype StudentManagerError =
    | AgeOutOfRange | InvalidEmail | NameTooShort
    | CapacityReached | DuplicateId | IdChanged
    | GradeOutOfRange | InvalidCourseId
    | InvalidGradeScale | MaxBelowCount

  /** The message each error is thrown with. */
  function Message(e: StudentManagerError): string {
    match e
    case AgeOutOfRange => "Age must be between 16 and 100"
    case InvalidEmail => "Invalid email"
    case NameTooShort => "Name too short"
    case CapacityReached => "Maximum capacity reached"
    case DuplicateId => "Student ID already exists"
    case IdChanged => "Cannot modify student ID"
    case GradeOutOfRange => "Grade must be 0-100"
    case InvalidCourseId => "Invalid course ID format"
    case InvalidGradeScale => "Invalid grade scale"
    case MaxBelowCount => "Cannot set max lower than current count"
  }

  /** Everything a `StudentManager` holds. */
  datatype Store = Store(
    students: seq<StudentInfo>,
    courses: seq<CourseInfo>,
    current: Option<StudentInfo>,
    scale: GradeScale,
    maxStudents: int)

  // ---------------------------------------------------------------------
  // Grade classifiers (`formatGrade`, `gradeToGPA`, the pass mark of `courseStatus`)
  // ---------------------------------------------------------------------

  /** `formatGrade`: the letter of the band a numeric grade falls in. */
  function FormatGrade(g: real): (r: string)
    ensures r == "A" || r == "B" || r == "C" || r == "D" || r == "F"
    ensures r == "F" <==> g < 60.0
  {
    if g >= 90.0 then "A"
    else if g >= 80.0 then "B"
    else if g >= 70.0 then "C"
    else if g >= 60.0 then "D"
    else "F"
  }

  /** `gradeToGPA`: the grade points of the band a numeric grade falls in. */
  function GradeToGpa(g: real): (p: real)
    ensures 0.0 <= p <= 4.0
    ensures p == 0.0 <==> g < 60.0
  {
    if g >= 90.0 then 4.0
    else if g >= 80.0 then 3.0
    else if g >= 70.0 then 2.0
    else if g >= 60.0 then 1.0
    else 0.0
  }

  /** The four-point scale: the points a letter is worth. */
  function LetterPoints(letter: string): real {
    if letter == "A" then 4.0
    else if letter == "B" then 3.0
    else if letter == "C" then 2.0
    else if letter == "D" then 1.0
    else 0.0
  }

  /** The letter and the grade points of a grade always come from the same band. */
  lemma GradeBandsAgree(g: real)
    ensures GradeToGpa(g) == LetterPoints(FormatGrade(g))
  {
  }

  /** A higher grade never earns fewer grade points. */
  lemma GradeToGpaMonotone(g: real, h: real)
    requires g <= h
    ensures GradeToGpa(g) <= GradeToGpa(h)
    ensures LetterPoints(FormatGrade(g)) <= LetterPoints(FormatGrade(h))
  {
  }

  /** The status `courseStatus` gives a grade. */
  function StatusOf(g: real): (s: string)
    ensures s == "PASSING" || s == "FAILING"
    ensures s == "PASSING" <==> g >= 60.0
  {
    if g >= 60.0 then "PASSING" else "FAILING"
  }

  /** Passing is exactly not getting an F, and exactly earning some grade points. */
  lemma PassingIsNotF(g: real)
    ensures StatusOf(g) == "PASSING" <==> FormatGrade(g) != "F"
    ensures StatusOf(g) == "PASSING" <==> GradeToGpa(g) > 0.0
  {
  }

  // ---------------------------------------------------------------------
  // Queries over the stored records
  // ---------------------------------------------------------------------

  predicate HasStudentId(s: StudentInfo, id: int) {
    s.id == id
  }

  /** `findIndex(s => s.id === id)`. */
  function IndexOfId(students: seq<StudentInfo>, id: int): Option<nat> {
    FindIndex(students, s => HasStudentId(s, id))
  }

  /** `getStudentById`: the first student with the id, if there is one. */
  function StudentById(students: seq<StudentInfo>, id: int): (r: Option<StudentInfo>)
    ensures r.Some? <==> exists i :: 0 <= i < |students| && students[i].id == id
    ensures r.Some? ==> r.value in students && r.value.id == id
    ensures r.Some? ==> exists i :: (0 <= i < |students| && students[i] == r.value
      && forall j :: 0 <= j < i ==> students[j].id != id)
  {
    match IndexOfId(students, id)
    case None => None
    case Some(i) => Some(students[i])
  }

  /** The ids of the students, in their order. */
  function Ids(students: seq<StudentInfo>): (r: seq<int>)
    ensures |r| == |students| && forall i :: 0 <= i < |students| ==> r[i] == students[i].id
  {
    if students == [] then [] else Ids(students[..|students| - 1]) + [students[|students| - 1].id]
  }

  /** `validateData`: every student is at least 16 and has an `'@'` in the email. */
  predicate ValidateData(students: seq<StudentInfo>) {
    forall i :: 0 <= i < |students| ==> students[i].age >= 16.0 && '@' in students[i].email
  }

  /** The sum of the grades, as `reduce` adds them. */
  function SumGrades(cs: seq<CourseInfo>): real {
    if cs == [] then 0.0 else SumGrades(cs[..|cs| - 1]) + cs[|cs| - 1].grade
  }

  /** `getAverageGrade`: 0 without courses, otherwise the mean grade (exactly). */
  function AverageGrade(cs: seq<CourseInfo>): (avg: real)
    ensures cs == [] ==> avg == 0.0
    ensures cs != [] ==> avg * (|cs| as real) == SumGrades(cs)
  {
    if |cs| == 0 then 0.0 else SumGrades(cs) / (|cs| as real)
  }

  /** `courseStatus`: one entry per course id, set course by course, so the last course with an id decides. */
  function CourseStatus(cs: seq<CourseInfo>): (m: map<string, string>)
    ensures forall i :: 0 <= i < |cs| ==> cs[i].courseId in m
    ensures forall k :: k in m ==> exists i :: 0 <= i < |cs| && cs[i].courseId == k
    ensures forall k :: k in m ==> m[k] == "PASSING" || m[k] == "FAILING"
  {
    if cs == [] then map[]
    else
      var init := cs[..|cs| - 1];
      var m := CourseStatus(init);
      var last := cs[|cs| - 1];
      assert cs == init + [last];
      CourseStatusStep(init, last, m);
      m[last.courseId := StatusOf(last.grade)]
  }

  /** One course more: its id joins the keys, and every key still comes from some course. */
  lemma CourseStatusStep(init: seq<CourseInfo>, last: CourseInfo, m: map<string, string>)
    requires forall i :: 0 <= i < |init| ==> init[i].courseId in m
    requires forall k :: k in m ==> exists i :: 0 <= i < |init| && init[i].courseId == k
    requires forall k :: k in m ==> m[k] == "PASSING" || m[k] == "FAILING"
    ensures var cs, m' := init + [last], m[last.courseId := StatusOf(last.grade)];
      && (forall i :: 0 <= i < |cs| ==> cs[i].courseId in m')
      && (forall k :: k in m' ==> exists i :: 0 <= i < |cs| && cs[i].courseId == k)
      && (forall k :: k in m' ==> m'[k] == "PASSING" || m'[k] == "FAILING")
  {
    var cs, m' := init + [last], m[last.courseId := StatusOf(last.grade)];
    forall k | k in m'
      ensures exists i :: 0 <= i < |cs| && cs[i].courseId == k
    {
      if k == last.courseId {
        assert cs[|init|].courseId == k;
      } else {
        var i :| 0 <= i < |init| && init[i].courseId == k;
        assert cs[i].courseId == k;
      }
    }
  }

  // ---------------------------------------------------------------------
  // The validation rules
  // ---------------------------------------------------------------------

  /** The `currentStudent` setter's checks on a student, in their order. */
  function CheckStudent(s: StudentInfo): (r: Outcome<StudentManagerError>)
    ensures r.Pass? <==> 16.0 <= s.age <= 100.0 && '@' in s.email && |Trim(s.name)| >= 2
    ensures !(16.0 <= s.age <= 100.0) ==> r == Fail(AgeOutOfRange)
    ensures 16.0 <= s.age <= 100.0 && '@' !in s.email ==> r == Fail(InvalidEmail)
  {
    if s.age < 16.0 || s.age > 100.0 then Fail(AgeOutOfRange)
    else if '@' !in s.email then Fail(InvalidEmail)
    else if |Trim(s.name)| < 2 then Fail(NameTooShort)
    else Pass
  }

  /** `/^[A-Z]{2,}/.test(id)`: the id starts with two upper-case ASCII letters. */
  predicate CourseIdFormat(id: string) {
    |id| >= 2 && IsUpperAscii(id[0]) && IsUpperAscii(id[1])
  }

  /** `addCourse`'s checks, grade range first. */
  function CheckCourse(c: CourseInfo): (r: Outcome<StudentManagerError>)
    ensures r.Pass? <==> 0.0 <= c.grade <= 100.0 && CourseIdFormat(c.courseId)
    ensures !(0.0 <= c.grade <= 100.0) ==> r == Fail(GradeOutOfRange)
  {
    if c.grade < 0.0 || c.grade > 100.0 then Fail(GradeOutOfRange)
    else if !CourseIdFormat(c.courseId) then Fail(InvalidCourseId)
    else Pass
  }

  /** The name the `gradeScale` getter gives a scale. */
  function ScaleName(g: GradeScale): string {
    match g
    case Numeric => "numeric"
    case Letter => "letter"
    case Gpa => "gpa"
  }

  /** The `gradeScale` setter's parse: one of the three names, or nothing. */
  function ParseScale(s: string): (r: Option<GradeScale>)
    ensures r.Some? <==> s == "numeric" || s == "letter" || s == "gpa"
    ensures r.Some? ==> ScaleName(r.value) == s
  {
    if s == "numeric" then Some(Numeric)
    else if s == "letter" then Some(Letter)
    else if s == "gpa" then Some(Gpa)
    else None
  }

  /** The getter's name parses back to the same scale. */
  lemma ScaleNameParses(g: GradeScale)
    ensures ParseScale(ScaleName(g)) == Some(g)
  {
  }

  function Pick<T>(o: Option<T>, current: T): T {
    if o.Some? then o.value else current
  }

  /** `{ ...s, ...p }`: the fields the patch carries, the others from `s`. */
  function Overlay(s: StudentInfo, p: StudentPatch): StudentInfo {
    StudentInfo(Pick(p.id, s.id), Pick(p.name, s.name), Pick(p.age, s.age), Pick(p.email, s.email))
  }

  // ---------------------------------------------------------------------
  // The operations, as functions on the store
  // ---------------------------------------------------------------------

  /** The store a fresh `StudentManager` starts from, given the arrays passed to it. */
  function Initial(students: seq<StudentInfo>, courses: seq<CourseInfo>): Store {
    Store(students, courses, None, Numeric, 50)
  }

  /** The `gradeScale` setter. */
  function SetGradeScaleSpec(st: Store, scale: string): Result<Store, StudentManagerError> {
    match ParseScale(scale)
    case None => Failure(InvalidGradeScale)
    case Some(g) => Success(st.(scale := g))
  }

  /** The `currentStudent` setter: `null` is stored unchecked, a student only if it passes the checks. */
  function SetCurrentSpec(st: Store, s: Option<StudentInfo>): Result<Store, StudentManagerError> {
    if s.None? then Success(st.(current := None))
    else match CheckStudent(s.value)
      case Fail(e) => Failure(e)
      case Pass => Success(st.(current := s))
  }

  /** The `maxStudents` setter. */
  function SetMaxSpec(st: Store, max: int): Result<Store, StudentManagerError> {
    if max < |st.students| then Failure(MaxBelowCount) else Success(st.(maxStudents := max))
  }

  /** `addStudent`: capacity, then the id, then the `currentStudent` setter, then the push. */
  function AddStudentSpec(st: Store, s: StudentInfo): Result<Store, StudentManagerError> {
    if |st.students| >= st.maxStudents then Failure(CapacityReached)
    else if StudentById(st.students, s.id).Some? then Failure(DuplicateId)
    else
      var st1 :- SetCurrentSpec(st, Some(s));
      Success(st1.(students := st1.students + [s]))
  }

  /**
   * `updateStudent`: `false` for an unknown id; otherwise the id rule, then the
   * `currentStudent` setter on the overlaid record, then the write and `true`.
   */
  function UpdateStudentSpec(st: Store, id: int, p: StudentPatch): Result<(Store, bool), StudentManagerError> {
    match IndexOfId(st.students, id)
    case None => Success((st, false))
    case Some(i) =>
      if p.id.Some? && p.id.value != id then Failure(IdChanged)
      else
        var updated := Overlay(st.students[i], p);
        var st1 :- SetCurrentSpec(st, Some(updated));
        Success((st1.(students := st1.students[i := updated]), true))
  }

  /** `deleteStudent`: `false` for an unknown id; otherwise the first student with the id is spliced out. */
  function DeleteStudentSpec(st: Store, id: int): (Store, bool) {
    match IndexOfId(st.students, id)
    case None => (st, false)
    case Some(i) => (st.(students := RemoveAt(st.students, i)), true)
  }

  /** `addCourse`: the checks, then the push. */
  function AddCourseSpec(st: Store, c: CourseInfo): Result<Store, StudentManagerError> {
    match CheckCourse(c)
    case Fail(e) => Failure(e)
    case Pass => Success(st.(courses := st.courses + [c]))
  }

  // ---------------------------------------------------------------------
  // The class
  // ---------------------------------------------------------------------

  /** `StudentManager`: its arrays and private fields, changed in place by its methods. */
  class StudentManager {
    var students: seq<StudentInfo>
    var courses: seq<CourseInfo>
    var current: Option<StudentInfo>
    var scale: GradeScale
    var maxStudents: int

    /** The whole state, as a value. */
    function Snapshot(): Store
      reads this
    {
      Store(students, courses, current, scale, maxStudents)
    }

    /** `new StudentManager()`. */
    constructor Empty()
      ensures Snapshot() == Initial([], [])
    {
      students := [];
      courses := [];
      current := None;
      scale := Numeric;
      maxStudents := 50;
    }

    /** `new StudentManager(initialStudents)`: taken as given, unchecked. */
    constructor WithStudents(initialStudents: seq<StudentInfo>)
      ensures Snapshot() == Initial(initialStudents, [])
    {
      students := initialStudents;
      courses := [];
      current := None;
      scale := Numeric;
      maxStudents := 50;
    }

    /** `new StudentManager(initialStudents, initialCourses)`: both taken as given, unchecked. */
    constructor WithStudentsAndCourses(initialStudents: seq<StudentInfo>, initialCourses: seq<CourseInfo>)
      ensures Snapshot() == Initial(initialStudents, initialCourses)
    {
      students := initialStudents;
      courses := initialCourses;
      current := None;
      scale := Numeric;
      maxStudents := 50;
    }

    /** The `gradeScale` getter: a name the setter accepts and maps back to the scale held. */
    function GetGradeScale(): (r: string)
      reads this
      ensures ParseScale(r) == Some(scale)
    {
      ScaleName(scale)
    }

    /** `getStudentById`: a student held with that id exactly when there is one. */
    function GetStudentById(id: int): (r: Option<StudentInfo>)
      reads this
      ensures r.Some? <==> id in Ids(students)
      ensures r.Some? ==> r.value in students && r.value.id == id
    {
      StudentById(students, id)
    }

    /** `getAverageGrade`: 0 without courses, otherwise the mean of the grades held. */
    function GetAverageGrade(): (avg: real)
      reads this
      ensures courses == [] ==> avg == 0.0
      ensures courses != [] ==> avg * (|courses| as real) == SumGrades(courses)
    {
      AverageGrade(courses)
    }

    /** `averageLetterGrade`: the letter of the mean grade, worth the points `averageGPA` gives. */
    function AverageLetterGrade(): (r: string)
      reads this
      ensures LetterPoints(r) == AverageGpa()
      ensures r == "F" <==> GetAverageGrade() < 60.0
    {
      var g := GetAverageGrade();
      GradeBandsAgree(g);
      FormatGrade(g)
    }

    /** `averageGPA`: the grade points of the mean grade. */
    function AverageGpa(): (p: real)
      reads this
      ensures 0.0 <= p <= 4.0
      ensures p == 0.0 <==> GetAverageGrade() < 60.0
    {
      GradeToGpa(GetAverageGrade())
    }

    /** The `courseStatus` getter: a status for every course id held, and only for those. */
    function GetCourseStatus(): (m: map<string, string>)
      reads this
      ensures forall i :: 0 <= i < |courses| ==> courses[i].courseId in m
      ensures forall k :: k in m ==> exists i :: 0 <= i < |courses| && courses[i].courseId == k
      ensures forall k :: k in m ==> m[k] == "PASSING" || m[k] == "FAILING"
    {
      CourseStatus(courses)
    }

    /**
     * `validateData`: false exactly when some student held is under 16 or has no
     * `'@'` in the email; so it holds whenever every student passes the
     * `currentStudent` checks.
     */
    function IsDataValid(): (ok: bool)
      reads this
      ensures !ok <==> exists i :: 0 <= i < |students| && (students[i].age < 16.0 || '@' !in students[i].email)
      ensures AllAdmissible(students) ==> ok
    {
      if AllAdmissible(students) then
        AdmissibleValidates(students);
        ValidateData(students)
      else ValidateData(students)
    }

    /** The `gradeScale` setter. */
    method SetGradeScale(s: string) returns (o: Outcome<StudentManagerError>)
      modifies this
      ensures o == OutcomeOf(SetGradeScaleSpec(old(Snapshot()), s))
      ensures Snapshot() == ValueOr(SetGradeScaleSpec(old(Snapshot()), s), old(Snapshot()))
    {
      var g := ParseScale(s);
      if g.None? {
        return Fail(InvalidGradeScale);
      }
      scale := g.value;
      o := Pass;
    }

    /** The `currentStudent` setter. */
    method SetCurrentStudent(s: Option<StudentInfo>) returns (o: Outcome<StudentManagerError>)
      modifies this
      ensures o == OutcomeOf(SetCurrentSpec(old(Snapshot()), s))
      ensures Snapshot() == ValueOr(SetCurrentSpec(old(Snapshot()), s), old(Snapshot()))
    {
      if s.Some? {
        o := CheckStudent(s.value);
        if o.Fail? {
          return;
        }
      }
      current := s;
      o := Pass;
    }

    /** The `maxStudents` setter. */
    method SetMaxStudents(max: int) returns (o: Outcome<StudentManagerError>)
      modifies this
      ensures o == OutcomeOf(SetMaxSpec(old(Snapshot()), max))
      ensures Snapshot() == ValueOr(SetMaxSpec(old(Snapshot()), max), old(Snapshot()))
    {
      if max < |students| {
        return Fail(MaxBelowCount);
      }
      maxStudents := max;
      o := Pass;
    }

    /** `addStudent`. */
    method AddStudent(s: StudentInfo) returns (o: Outcome<StudentManagerError>)
      modifies this
      ensures o == OutcomeOf(AddStudentSpec(old(Snapshot()), s))
      ensures Snapshot() == ValueOr(AddStudentSpec(old(Snapshot()), s), old(Snapshot()))
    {
      if |students| >= maxStudents {
        return Fail(CapacityReached);
      }
      if StudentById(students, s.id).Some? {
        return Fail(DuplicateId);
      }
      o := SetCurrentStudent(Some(s));
      if o.Fail? {
        return;
      }
      students := students + [s];
    }

    /** `updateStudent`. */
    method UpdateStudent(id: int, p: StudentPatch) returns (r: Result<bool, StudentManagerError>)
      modifies this
      ensures var spec := UpdateStudentSpec(old(Snapshot()), id, p);
        && r == (if spec.Success? then Success(spec.value.1) else Failure(spec.error))
        && Snapshot() == (if spec.Success? then spec.value.0 else old(Snapshot()))
    {
      var index := IndexOfId(students, id);
      if index.None? {
        return Success(false);
      }
      if p.id.Some? && p.id.value != id {
        return Failure(IdChanged);
      }
      var updated := Overlay(students[index.value], p);
      var o := SetCurrentStudent(Some(updated));
      if o.Fail? {
        return Failure(o.error);
      }
      students := students[index.value := updated];
      r := Success(true);
    }

    /** `deleteStudent`. */
    method DeleteStudent(id: int) returns (found: bool)
      modifies this
      ensures (Snapshot(), found) == DeleteStudentSpec(old(Snapshot()), id)
    {
      var index := IndexOfId(students, id);
      if index.None? {
        return false;
      }
      students := RemoveAt(students, index.value);
      found := true;
    }

    /** `addCourse`. */
    method AddCourse(c: CourseInfo) returns (o: Outcome<StudentManagerError>)
      modifies this
      ensures o == OutcomeOf(AddCourseSpec(old(Snapshot()), c))
      ensures Snapshot() == ValueOr(AddCourseSpec(old(Snapshot()), c), old(Snapshot()))
    {
      o := CheckCourse(c);
      if o.Fail? {
        return;
      }
      courses := courses + [c];
    }
  }

  // ---------------------------------------------------------------------
  // What the operations promise
  // ---------------------------------------------------------------------

  /** `addStudent` fails exactly on a full store, a taken id or a rejected record; on success it appends and selects the student. */
  lemma AddStudentCases(st: Store, s: StudentInfo)
    ensures var r := AddStudentSpec(st, s);
      && (r.Success? <==> |st.students| < st.maxStudents && s.id !in Ids(st.students) && CheckStudent(s) == Pass)
      && (r.Success? ==> r.value == st.(students := st.students + [s], current := Some(s)))
  {
    if s.id in Ids(st.students) {
      var i :| 0 <= i < |Ids(st.students)| && Ids(st.students)[i] == s.id;
      assert st.students[i].id == s.id;
    }
  }

  /** On a full store `addStudent` reports the capacity before anything about the record. */
  lemma AddStudentCapacityFirst(st: Store, s: StudentInfo)
    requires |st.students| >= st.maxStudents
    ensures AddStudentSpec(st, s) == Failure(CapacityReached)
  {
  }

  /** An unknown id makes `updateStudent` return `false` and change nothing, whatever the patch. */
  lemma UpdateUnknownIsNoOp(st: Store, id: int, p: StudentPatch)
    requires id !in Ids(st.students)
    ensures UpdateStudentSpec(st, id, p) == Success((st, false))
  {
  }

  /** A patch that carries a different id is refused for a known student. */
  lemma UpdateRefusesNewId(st: Store, id: int, p: StudentPatch)
    requires id in Ids(st.students)
    requires p.id.Some? && p.id.value != id
    ensures UpdateStudentSpec(st, id, p) == Failure(IdChanged)
  {
    var i :| 0 <= i < |Ids(st.students)| && Ids(st.students)[i] == id;
    assert HasStudentId(st.students[i], id);
  }

  /**
   * A successful update of a known student: the first student with the id
   * becomes the old record overlaid with the patch, keeps the id, and is
   * selected; every other student, the courses and the settings are unchanged.
   */
  lemma UpdateOverlays(st: Store, id: int, p: StudentPatch)
    requires UpdateStudentSpec(st, id, p).Success? && UpdateStudentSpec(st, id, p).value.1
    ensures var (st1, _) := UpdateStudentSpec(st, id, p).value;
      exists i :: (0 <= i < |st.students| && st.students[i].id == id
        && (forall j :: 0 <= j < i ==> st.students[j].id != id)
        && st1 == st.(students := st.students[i := Overlay(st.students[i], p)], current := Some(Overlay(st.students[i], p)))
        && st1.students[i].id == id
        && (p.name.None? ==> st1.students[i].name == st.students[i].name)
        && (p.age.None? ==> st1.students[i].age == st.students[i].age)
        && (p.email.None? ==> st1.students[i].email == st.students[i].email))
  {
    var i := IndexOfId(st.students, id).value;
    assert st.students[i].id == id;
  }

  /** A failed update changes nothing: all checks run before the write. */
  lemma UpdateFailureWritesNothing(st: Store, id: int, p: StudentPatch)
    requires UpdateStudentSpec(st, id, p).Failure?
    ensures id in Ids(st.students)
    ensures var e := UpdateStudentSpec(st, id, p).error;
      e == IdChanged || e == AgeOutOfRange || e == InvalidEmail || e == NameTooShort
  {
    var i := IndexOfId(st.students, id).value;
    assert Ids(st.students)[i] == id;
  }

  /** `deleteStudent` of a known id removes exactly the first student with it, keeping the order of the rest; of an unknown id, nothing. */
  lemma DeleteRemovesOne(st: Store, id: int)
    ensures var (st1, found) := DeleteStudentSpec(st, id);
      && (found <==> id in Ids(st.students))
      && (!found ==> st1 == st)
      && (found ==> exists i :: (0 <= i < |st.students| && st.students[i].id == id
            && (forall j :: 0 <= j < i ==> st.students[j].id != id)
            && st1 == st.(students := st.students[..i] + st.students[i + 1..])))
  {
    match IndexOfId(st.students, id)
    case None =>
      if id in Ids(st.students) {
        var i :| 0 <= i < |Ids(st.students)| && Ids(st.students)[i] == id;
        assert HasStudentId(st.students[i], id);
      }
    case Some(i) =>
      assert Ids(st.students)[i] == id;
  }

  /** `addCourse` fails exactly on a grade outside 0..100 or an id that does not start with two capitals; on success it appends. */
  lemma AddCourseCases(c: CourseInfo, st: Store)
    ensures var r := AddCourseSpec(st, c);
      && (r.Success? <==> 0.0 <= c.grade <= 100.0 && CourseIdFormat(c.courseId))
      && (r.Failure? ==> r.error == (if c.grade < 0.0 || c.grade > 100.0 then GradeOutOfRange else InvalidCourseId))
      && (r.Success? ==> r.value == st.(courses := st.courses + [c]))
  {
  }

  /** The restriction the demo exercises: `'test'` with grade 150 fails on the grade, not on the id format. */
  lemma TestCourseFailsOnGrade(st: Store)
    ensures AddCourseSpec(st, CourseInfo("test", "Bad", 150.0)) == Failure(GradeOutOfRange)
    ensures Message(GradeOutOfRange) == "Grade must be 0-100"
    ensures AddCourseSpec(st, CourseInfo("test", "Bad", 50.0)) == Failure(InvalidCourseId)
  {
  }

  /**
   * The first restriction test: below capacity and with a fresh id, the record
   * of age 10 is refused on its age before its email and name are looked at.
   */
  lemma TestStudentFailsOnAge(st: Store)
    requires |st.students| < st.maxStudents && 99 !in Ids(st.students)
    ensures AddStudentSpec(st, StudentInfo(99, "X", 10.0, "bad")) == Failure(AgeOutOfRange)
    ensures Message(AgeOutOfRange) == "Age must be between 16 and 100"
  {
    AddStudentCases(st, StudentInfo(99, "X", 10.0, "bad"));
  }

  /**
   * The `currentStudent` setter stores `null` unchecked and a student exactly
   * when it passes the checks; a refused student leaves the store as it was
   * and reports the first check that failed.
   */
  lemma SetCurrentCases(st: Store, s: Option<StudentInfo>)
    ensures SetCurrentSpec(st, s).Success? <==> s.None? || CheckStudent(s.value).Pass?
    ensures SetCurrentSpec(st, s).Success? ==> SetCurrentSpec(st, s).value == st.(current := s)
    ensures SetCurrentSpec(st, s).Failure? ==> s.Some? && CheckStudent(s.value) == Fail(SetCurrentSpec(st, s).error)
  {
  }

  /** The `maxStudents` setter fails exactly below the current count. */
  lemma SetMaxCases(st: Store, max: int)
    ensures SetMaxSpec(st, max).Success? <==> max >= |st.students|
    ensures SetMaxSpec(st, max).Success? ==> SetMaxSpec(st, max).value.maxStudents == max
  {
  }

  /** The letter the `gradeScale` setter accepts is the one the getter then reports. */
  lemma SetGradeScaleCases(st: Store, s: string)
    ensures SetGradeScaleSpec(st, s).Success? <==> s == "numeric" || s == "letter" || s == "gpa"
    ensures SetGradeScaleSpec(st, s).Success? ==> ScaleName(SetGradeScaleSpec(st, s).value.scale) == s
  {
  }

  /** The last course with an id decides its status. */
  lemma {:induction false} CourseStatusLastWins(cs: seq<CourseInfo>, i: nat)
    requires i < |cs|
    requires forall j :: i < j < |cs| ==> cs[j].courseId != cs[i].courseId
    ensures CourseStatus(cs)[cs[i].courseId] == StatusOf(cs[i].grade)
  {
    if i < |cs| - 1 {
      var init := cs[..|cs| - 1];
      assert forall j :: i < j < |init| ==> init[j] == cs[j];
      CourseStatusLastWins(init, i);
    }
  }

  /** For distinct ids, `courseStatus` is `'PASSING'` for a course exactly when its grade is at least 60. */
  lemma CourseStatusPassing(cs: seq<CourseInfo>, i: nat)
    requires i < |cs|
    requires forall j :: i < j < |cs| ==> cs[j].courseId != cs[i].courseId
    ensures CourseStatus(cs)[cs[i].courseId] == "PASSING" <==> cs[i].grade >= 60.0
  {
    CourseStatusLastWins(cs, i);
  }

  lemma {:induction false} SumGradesBounds(cs: seq<CourseInfo>, lo: real, hi: real)
    requires forall i :: 0 <= i < |cs| ==> lo <= cs[i].grade <= hi
    ensures (|cs| as real) * lo <= SumGrades(cs) <= (|cs| as real) * hi
  {
    if cs != [] {
      var init := cs[..|cs| - 1];
      assert forall i :: 0 <= i < |init| ==> init[i] == cs[i];
      SumGradesBounds(init, lo, hi);
    }
  }

  /** The average lies between the lowest and highest bounds of the grades. */
  lemma AverageWithinBounds(cs: seq<CourseInfo>, lo: real, hi: real)
    requires cs != []
    requires forall i :: 0 <= i < |cs| ==> lo <= cs[i].grade <= hi
    ensures lo <= AverageGrade(cs) <= hi
  {
    SumGradesBounds(cs, lo, hi);
    var n := |cs| as real;
    var avg := AverageGrade(cs);
    assert avg * n == SumGrades(cs);
  }

  /** The averages of the demo's three courses: 85, hence a B and 3.0 grade points, all passing. */
  lemma DemoAverages()
    ensures var cs := [CourseInfo("CS101", "Programming", 92.0), CourseInfo("MATH201", "Calculus", 85.0),
                       CourseInfo("ENG101", "English", 78.0)];
      && AverageGrade(cs) == 85.0
      && FormatGrade(AverageGrade(cs)) == "B"
      && GradeToGpa(AverageGrade(cs)) == 3.0
      && CourseStatus(cs) == map["CS101" := "PASSING", "MATH201" := "PASSING", "ENG101" := "PASSING"]
  {
    var cs := [CourseInfo("CS101", "Programming", 92.0), CourseInfo("MATH201", "Calculus", 85.0),
               CourseInfo("ENG101", "English", 78.0)];
    assert cs[..2] == [cs[0], cs[1]] && [cs[0], cs[1]][..1] == [cs[0]] && [cs[0]][..0] == [];
    assert SumGrades([cs[0]]) == 92.0;
    assert SumGrades([cs[0], cs[1]]) == 177.0;
    assert SumGrades(cs) == 255.0;
    assert CourseStatus([cs[0]]) == map["CS101" := "PASSING"];
    assert CourseStatus([cs[0], cs[1]]) == map["CS101" := "PASSING", "MATH201" := "PASSING"];
  }

  // ---------------------------------------------------------------------
  // The invariant the operations keep
  // ---------------------------------------------------------------------

  /** No two students share an id. */
  predicate UniqueIds(students: seq<StudentInfo>) {
    forall i, j :: 0 <= i < j < |students| ==> students[i].id != students[j].id
  }

  /** Every stored student passes the `currentStudent` checks. */
  predicate AllAdmissible(students: seq<StudentInfo>) {
    forall i :: 0 <= i < |students| ==> CheckStudent(students[i]) == Pass
  }

  /**
   * What a store built only through the operations keeps: unique ids, every
   * student admissible, no more students than allowed, every course accepted.
   * The constructors take their arrays unchecked, so a store may start without it.
   */
  predicate Healthy(st: Store) {
    && UniqueIds(st.students)
    && AllAdmissible(st.students)
    && |st.students| <= st.maxStudents
    && (forall i :: 0 <= i < |st.courses| ==> CheckCourse(st.courses[i]) == Pass)
  }

  /** A store of admissible students passes `validateData`. */
  lemma AdmissibleValidates(students: seq<StudentInfo>)
    requires AllAdmissible(students)
    ensures ValidateData(students)
  {
    forall i | 0 <= i < |students|
      ensures students[i].age >= 16.0 && '@' in students[i].email
    {
      assert CheckStudent(students[i]) == Pass;
    }
  }

  /** A store given records that would all have been accepted starts healthy. */
  lemma InitialHealthy(students: seq<StudentInfo>, courses: seq<CourseInfo>)
    requires UniqueIds(students) && AllAdmissible(students) && |students| <= 50
    requires forall i :: 0 <= i < |courses| ==> CheckCourse(courses[i]) == Pass
    ensures Healthy(Initial(students, courses))
  {
    var st := Initial(students, courses);
    assert st.students == students && st.courses == courses && st.maxStudents == 50;
  }

  /** `new StudentManager()` starts healthy. */
  lemma EmptyHealthy()
    ensures Healthy(Initial([], []))
  {
    assert Ids([]) == [];
  }

  /** Appending an admissible student with a new id keeps the ids unique and every student admissible. */
  lemma AppendKeepsStudents(students: seq<StudentInfo>, s: StudentInfo)
    requires UniqueIds(students) && AllAdmissible(students)
    requires s.id !in Ids(students) && CheckStudent(s) == Pass
    ensures UniqueIds(students + [s]) && AllAdmissible(students + [s])
  {
    var s1 := students + [s];
    forall i, j | 0 <= i < j < |s1|
      ensures s1[i].id != s1[j].id
    {
      if j == |students| {
        assert Ids(students)[i] == s1[i].id;
      }
    }
    forall i | 0 <= i < |s1|
      ensures CheckStudent(s1[i]) == Pass
    {
      if i < |students| {
        assert s1[i] == students[i];
      }
    }
  }

  lemma AddStudentKeepsHealthy(st: Store, s: StudentInfo)
    requires Healthy(st) && AddStudentSpec(st, s).Success?
    ensures Healthy(AddStudentSpec(st, s).value)
  {
    AddStudentCases(st, s);
    AppendKeepsStudents(st.students, s);
  }

  lemma SetCurrentKeepsHealthy(st: Store, s: Option<StudentInfo>)
    requires Healthy(st) && SetCurrentSpec(st, s).Success?
    ensures Healthy(SetCurrentSpec(st, s).value)
  {
  }

  lemma SetMaxKeepsHealthy(st: Store, max: int)
    requires Healthy(st) && SetMaxSpec(st, max).Success?
    ensures Healthy(SetMaxSpec(st, max).value)
  {
  }

  lemma SetGradeScaleKeepsHealthy(st: Store, s: string)
    requires Healthy(st) && SetGradeScaleSpec(st, s).Success?
    ensures Healthy(SetGradeScaleSpec(st, s).value)
  {
  }

  /** Replacing a student by an admissible record with the same id keeps the ids unique and every student admissible. */
  lemma ReplaceKeepsStudents(students: seq<StudentInfo>, i: nat, s: StudentInfo)
    requires UniqueIds(students) && AllAdmissible(students)
    requires i < |students| && s.id == students[i].id && CheckStudent(s) == Pass
    ensures UniqueIds(students[i := s]) && AllAdmissible(students[i := s])
  {
    ReplaceKeepsIds(students, i, s);
    var s1 := students[i := s];
    forall j | 0 <= j < |s1|
      ensures CheckStudent(s1[j]) == Pass
    {
      if j == i {
        assert s1[j] == s;
      } else {
        assert s1[j] == students[j];
      }
    }
  }

  lemma ReplaceKeepsIds(students: seq<StudentInfo>, i: nat, s: StudentInfo)
    requires UniqueIds(students)
    requires i < |students| && s.id == students[i].id
    ensures UniqueIds(students[i := s])
  {
    var s1 := students[i := s];
    assert forall j :: 0 <= j < |s1| ==> s1[j].id == students[j].id;
  }

  /** An update keeps every id where it was, so ids stay unique; the new record passed the checks. */
  lemma UpdateKeepsHealthy(st: Store, id: int, p: StudentPatch)
    requires Healthy(st) && UpdateStudentSpec(st, id, p).Success?
    ensures Healthy(UpdateStudentSpec(st, id, p).value.0)
  {
    match IndexOfId(st.students, id)
    case None =>
    case Some(i) =>
      var updated := Overlay(st.students[i], p);
      assert st.students[i].id == id && updated.id == id;
      assert CheckStudent(updated) == Pass;
      ReplaceKeepsStudents(st.students, i, updated);
  }

  /** Splicing a student out keeps the ids unique, every student admissible, and leaves none with the removed id. */
  lemma RemoveKeepsStudents(students: seq<StudentInfo>, i: nat)
    requires UniqueIds(students) && AllAdmissible(students) && i < |students|
    ensures UniqueIds(RemoveAt(students, i)) && AllAdmissible(RemoveAt(students, i))
    ensures forall j :: 0 <= j < |students| - 1 ==> RemoveAt(students, i)[j].id != students[i].id
  {
    var rest := RemoveAt(students, i);
    forall a, b | 0 <= a < b < |rest|
      ensures rest[a].id != rest[b].id
    {
      RemoveAtIndex(students, i, a);
      RemoveAtIndex(students, i, b);
    }
    forall j | 0 <= j < |rest|
      ensures CheckStudent(rest[j]) == Pass && rest[j].id != students[i].id
    {
      RemoveAtIndex(students, i, j);
    }
  }

  /** Deleting keeps the store healthy, and a deleted id is gone from it. */
  lemma DeleteKeepsHealthy(st: Store, id: int)
    requires Healthy(st)
    ensures Healthy(DeleteStudentSpec(st, id).0)
    ensures var (st1, found) := DeleteStudentSpec(st, id);
      found ==> forall j :: 0 <= j < |st1.students| ==> st1.students[j].id != id
  {
    match IndexOfId(st.students, id)
    case None =>
    case Some(i) =>
      assert st.students[i].id == id;
      RemoveKeepsStudents(st.students, i);
  }

  lemma AddCourseKeepsHealthy(st: Store, c: CourseInfo)
    requires Healthy(st) && AddCourseSpec(st, c).Success?
    ensures Healthy(AddCourseSpec(st, c).value)
  {
    var cs := st.courses + [c];
    assert forall i :: 0 <= i < |st.courses| ==> cs[i] == st.courses[i];
  }

  /** In a healthy store the grade average lies in 0..100. */
  lemma HealthyAverageInRange(st: Store)
    requires Healthy(st)
    ensures 0.0 <= AverageGrade(st.courses) <= 100.0
  {
    if st.courses != [] {
      forall i | 0 <= i < |st.courses|
        ensures 0.0 <= st.courses[i].grade <= 100.0
      {
        assert CheckCourse(st.courses[i]) == Pass;
      }
      AverageWithinBounds(st.courses, 0.0, 100.0);
    }
  }
}
