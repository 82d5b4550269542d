/**
 * entities.ts: the `Student` and `Course` records. Every setter validates and
 * normalises its argument; what it stores, or why it throws, is given by a
 * function (`NameValue`, `AgeValue`, ...) that the class methods are proved
 * against.
 */
module Entities {
  import opened Results
  import opened JsText
  import opened JsArrays

  /** A `string | number` id or course code argument (integers only). */
  datatype Key = NumKey(n: int) | StrKey(s: string)

  /** A `number | string` age or marks argument. */
  datatype NumberOrText = Numeric(x: real) | Textual(text: string)

  /** A `boolean | string` argument of the `active` setter. */
  datatype FlagOrText = Flag(b: bool) | FlagText(text: string)

  datatype Category = Beginner | Intermediate | Advanced

  /** The errors the setters and counters throw, one per message. */
  datatype EntityError =
    | NameTooShort | AgeNotNumeric | AgeOutOfRange | EmailWithoutAt
    | InvalidMarks | MarksOutOfRange
    | TitleTooShort | SeatsNotPositiveInteger | SeatsBelowEnrolled | NegativeFee
    | NoSeatsLeft | EnrolledNegative

  /** `String(k)`. */
  function KeyString(k: Key): string {
    match k
    case NumKey(n) => IntToString(n)
    case StrKey(s) => s
  }

  /** `formatId` / `formatCode`: a number is `prefix` and its decimal form padded to three digits with zeros; a string is trimmed. */
  function FormatKey(prefix: string, k: Key): string {
    match k
    case NumKey(n) => prefix + PadStart(IntToString(n), 3, '0')
    case StrKey(s) => Trim(s)
  }

  function FormatId(k: Key): string { FormatKey("R-", k) }

  function FormatCode(k: Key): string { FormatKey("C-", k) }

  // The `shortId` getter: drops a leading "R-" and the zeros after it.
  function ShortId(id: string): string {
    if |id| >= 2 && id[..2] == "R-" then DropLeadingZeros(id[2..]) else id
  }

  lemma {:induction false} ZerosValue(z: string, s: string)
    requires forall i :: 0 <= i < |z| ==> z[i] == '0'
    requires AllDigits(s)
    ensures AllDigits(z + s) && DigitsValue(z + s) == DigitsValue(s)
  {
    if s == [] {
      assert z + s == z;
      if z != [] {
        ZerosValue(z[..|z| - 1], []);
        assert z[..|z| - 1] + [] == z[..|z| - 1];
      }
    } else {
      var s' := s[..|s| - 1];
      ZerosValue(z, s');
      assert (z + s)[..|z + s| - 1] == z + s';
    }
  }

  /**
   * A natural number `n` is formatted as `prefix` followed by at least three
   * decimal digits, exactly as many as `n` needs beyond that, that denote `n`.
   */
  lemma FormatKeyOfNat(prefix: string, n: nat)
    ensures var r := FormatKey(prefix, NumKey(n)); var m := |NatToString(n)|;
      && |r| == |prefix| + (if m >= 3 then m else 3)
      && r[..|prefix|] == prefix
      && AllDigits(r[|prefix|..]) && DigitsValue(r[|prefix|..]) == n
  {
    var digits := NatToString(n);
    var padded := PadStart(digits, 3, '0');
    var z := padded[..|padded| - |digits|];
    assert padded == z + digits;
    ZerosValue(z, digits);
    assert (prefix + padded)[|prefix|..] == padded;
  }

  lemma {:induction false} DropZerosBeforeNonZero(z: string, s: string)
    requires forall i :: 0 <= i < |z| ==> z[i] == '0'
    requires s == [] || s[0] != '0'
    ensures DropLeadingZeros(z + s) == s
  {
    if z == [] {
      assert z + s == s;
    } else {
      assert (z + s)[1..] == z[1..] + s;
      DropZerosBeforeNonZero(z[1..], s);
    }
  }

  /**
   * `shortId` undoes `formatId` for every non-zero number: it gives back
   * `String(n)`. For 0 the zeros are all stripped and nothing is left.
   */
  lemma ShortIdOfFormatId(n: int)
    ensures n != 0 ==> ShortId(FormatId(NumKey(n))) == IntToString(n)
    ensures n == 0 ==> ShortId(FormatId(NumKey(n))) == ""
  {
    var digits := IntToString(n);
    ShortIdOfPadded(digits);
    if n != 0 {
      assert digits[0] != '0';
      DropPadding(digits);
    } else {
      assert digits == "0";
      assert PadStart(digits, 3, '0') == "000";
      assert DropLeadingZeros("000") == DropLeadingZeros("");
    }
  }

  /** The short form of a formatted number is its padded digits with the zeros in front dropped. */
  lemma ShortIdOfPadded(digits: string)
    ensures ShortId("R-" + PadStart(digits, 3, '0')) == DropLeadingZeros(PadStart(digits, 3, '0'))
  {
    var id := "R-" + PadStart(digits, 3, '0');
    assert id[..2] == "R-" && id[2..] == PadStart(digits, 3, '0');
  }

  /** Padding with zeros and dropping the zeros in front gives back a string that does not start with one. */
  lemma DropPadding(digits: string)
    requires digits == [] || digits[0] != '0'
    ensures DropLeadingZeros(PadStart(digits, 3, '0')) == digits
  {
    var padded := PadStart(digits, 3, '0');
    var z := padded[..|padded| - |digits|];
    assert padded == z + digits;
    DropZerosBeforeNonZero(z, digits);
  }

  // ---------------------------------------------------------------- Student

  /** The `IStudent` view that `toObject` returns (without `joined`). */
  datatype StudentRecord = StudentRecord(
    id: string, name: string, age: int, email: string, marks: real, active: bool, courses: seq<string>)

  /** What the setters guarantee about the fields of every student. */
  predicate StudentInvariant(r: StudentRecord) {
    && |r.name| >= 3 && IsTrimmed(r.name)
    && 16 <= r.age <= 100
    && '@' in r.email && IsTrimmed(r.email) && IsLowerCased(r.email)
    && 0.0 <= r.marks <= 100.0
  }

  /** The `name` setter: the trimmed value, which must keep at least three characters. */
  function NameValue(v: string): (r: Result<string, EntityError>)
    ensures r.Success? <==> |Trim(v)| >= 3
    ensures r.Success? ==> r.value == Trim(v)
    ensures r.Failure? ==> r.error == NameTooShort
  {
    var s := Trim(v);
    if |s| < 3 then Failure(NameTooShort) else Success(s)
  }

  /** Setting a name that the setter stored stores it unchanged. */
  lemma NameSetterIdempotent(v: string)
    requires NameValue(v).Success?
    ensures NameValue(NameValue(v).value) == NameValue(v)
  {
  }

  /**
   * The `age` setter: a number is floored, a string goes through `parseInt`,
   * and the integer must lie in 16..100.
   */
  function AgeValue(v: NumberOrText): (r: Result<int, EntityError>)
    ensures r.Success? ==> 16 <= r.value <= 100
    ensures v.Numeric? ==> (r.Success? <==> 16.0 <= v.x < 101.0)
    ensures v.Numeric? && r.Success? ==> r.value as real <= v.x < r.value as real + 1.0
    ensures v.Numeric? && r.Failure? ==> r.error == AgeOutOfRange
    ensures v.Textual? ==> (r.Success? <==> ParseInt(v.text).Some? && 16 <= ParseInt(v.text).value <= 100)
    ensures v.Textual? && r.Success? ==> r.value == ParseInt(v.text).value
    ensures v.Textual? && ParseInt(v.text).None? ==> r == Failure(AgeNotNumeric)
    ensures v.Textual? && ParseInt(v.text).Some? && r.Failure? ==> r.error == AgeOutOfRange
  {
    var n :- match v
      case Numeric(x) => Success(x.Floor)
      case Textual(s) => (match ParseInt(s) case None => Failure(AgeNotNumeric) case Some(n) => Success(n));
    if n < 16 || n > 100 then Failure(AgeOutOfRange) else Success(n)
  }

  /** A decimal string and the number it spells give the same age. */
  lemma AgeTextAgreesWithNumber(n: int)
    ensures AgeValue(Textual(IntToString(n))) == AgeValue(Numeric(n as real))
  {
    ParseIntOfIntToString(n);
    assert (n as real).Floor == n;
    AgeOfParsed(IntToString(n), n);
    AgeOfFloored(n as real, n);
  }

  /** A string age is checked as the integer `parseInt` reads from it. */
  lemma AgeOfParsed(s: string, n: int)
    requires ParseInt(s) == Some(n)
    ensures AgeValue(Textual(s)) == if n < 16 || n > 100 then Failure(AgeOutOfRange) else Success(n)
  {
  }

  /** A numeric age is checked as its floor. */
  lemma AgeOfFloored(x: real, n: int)
    requires x.Floor == n
    ensures AgeValue(Numeric(x)) == if n < 16 || n > 100 then Failure(AgeOutOfRange) else Success(n)
  {
  }

  /**
   * The `email` setter: trimmed and lower-cased; it succeeds exactly when the
   * argument has an '@' anywhere.
   */
  function EmailValue(v: string): (r: Result<string, EntityError>)
    ensures r.Success? <==> '@' in v
    ensures r.Success? ==> r.value == Lower(Trim(v))
    ensures r.Success? ==> '@' in r.value && IsTrimmed(r.value) && IsLowerCased(r.value)
    ensures r.Failure? ==> r.error == EmailWithoutAt
  {
    TrimKeeps(v, '@');
    LowerKeepsNonLetters(Trim(v));
    var e := Lower(Trim(v));
    if '@' !in e then Failure(EmailWithoutAt) else Success(e)
  }

  /** An accepted name keeps a student's invariant. */
  lemma NameKeepsInvariant(rec: StudentRecord, v: string)
    requires StudentInvariant(rec) && NameValue(v).Success?
    ensures StudentInvariant(rec.(name := NameValue(v).value))
  {
  }

  /** An accepted age keeps a student's invariant. */
  lemma AgeKeepsInvariant(rec: StudentRecord, v: NumberOrText)
    requires StudentInvariant(rec) && AgeValue(v).Success?
    ensures StudentInvariant(rec.(age := AgeValue(v).value))
  {
  }

  /** Accepted marks keep a student's invariant. */
  lemma MarksKeepsInvariant(rec: StudentRecord, v: NumberOrText)
    requires StudentInvariant(rec) && MarksValue(v).Success?
    ensures StudentInvariant(rec.(marks := MarksValue(v).value))
  {
  }

  /** An accepted email keeps a student's invariant. */
  lemma EmailKeepsInvariant(rec: StudentRecord, v: string)
    requires StudentInvariant(rec) && EmailValue(v).Success?
    ensures StudentInvariant(rec.(email := EmailValue(v).value))
  {
  }

  /** The stored email is already normalised: setting it again stores the same string. */
  lemma EmailSetterIdempotent(v: string)
    requires EmailValue(v).Success?
    ensures EmailValue(EmailValue(v).value) == EmailValue(v)
  {
  }

  /** The letter shorthand table, looked up under `toUpperCase`; any other character gives 0. */
  function LetterMarks(c: char): real {
    match UpperChar(c)
    case 'A' => 95.0
    case 'B' => 82.0
    case 'C' => 68.0
    case 'D' => 55.0
    case 'F' => 35.0
    case _ => 0.0
  }

  /**
   * The number the `marks` setter reads before its checks: a number as it is;
   * a trimmed string ending in '%' through `parseFloat` of the rest; a
   * one-character string through the letter table; any other through `parseFloat`.
   * `None` stands for NaN.
   */
  function MarksNumber(v: NumberOrText): Option<real> {
    match v
    case Numeric(x) => Some(x)
    case Textual(text) =>
      var t := Trim(text);
      if |t| > 0 && t[|t| - 1] == '%' then ParseFloat(t[..|t| - 1])
      else if |t| == 1 then Some(LetterMarks(t[0]))
      else ParseFloat(t)
  }

  /**
   * `Math.round(m * 100) / 100` in exact arithmetic: the nearest hundredth,
   * a half rounded up. It moves `m` by at most half a hundredth, keeps 0..100
   * and leaves a whole number of hundredths alone.
   */
  function RoundCents(m: real): (r: real)
    ensures 0.0 <= m <= 100.0 ==> 0.0 <= r <= 100.0
  {
    var k := (m * 100.0 + 0.5).Floor;
    RoundCentsSteps(m, k);
    k as real / 100.0
  }

  /** Rounding moves a value by at most half a hundredth, leaves a whole number of hundredths alone, and yields one. */
  lemma RoundCentsNear(m: real)
    ensures m - 0.005 < RoundCents(m) <= m + 0.005
    ensures (m * 100.0).Floor as real == m * 100.0 ==> RoundCents(m) == m
    ensures RoundCents(RoundCents(m)) == RoundCents(m)
  {
    var k := (m * 100.0 + 0.5).Floor;
    RoundCentsSteps(m, k);
    var r := RoundCents(m);
    RoundCentsSteps(r, (r * 100.0 + 0.5).Floor);
  }

  lemma RoundCentsSteps(m: real, k: int)
    requires k == (m * 100.0 + 0.5).Floor
    ensures m - 0.005 < k as real / 100.0 <= m + 0.005
    ensures 0.0 <= m <= 100.0 ==> 0 <= k <= 10000
    ensures (m * 100.0).Floor as real == m * 100.0 ==> k as real == m * 100.0
    ensures ((k as real / 100.0) * 100.0).Floor == k
  {
    var x := m * 100.0 + 0.5;
    assert k as real <= x < k as real + 1.0;
    assert (k as real / 100.0) * 100.0 == k as real;
    var j := (m * 100.0).Floor;
    if j as real == m * 100.0 {
      var d := k - j;
      assert d as real == k as real - j as real;
      assert -0.5 < d as real <= 0.5;
      assert d == 0;
    }
  }

  /** The `marks` setter: the value read must be a number in 0..100, and is stored rounded to hundredths. */
  function MarksValue(v: NumberOrText): (r: Result<real, EntityError>)
    ensures r.Success? ==> 0.0 <= r.value <= 100.0
    ensures r.Success? <==> MarksNumber(v).Some? && 0.0 <= MarksNumber(v).value <= 100.0
    ensures r.Success? ==> r.value == RoundCents(MarksNumber(v).value)
    ensures r.Failure? && MarksNumber(v).None? ==> r.error == InvalidMarks
    ensures r.Failure? && MarksNumber(v).Some? ==> r.error == MarksOutOfRange
  {
    match MarksNumber(v)
    case None => Failure(InvalidMarks)
    case Some(m) => if m < 0.0 || m > 100.0 then Failure(MarksOutOfRange) else Success(RoundCents(m))
  }

  /** Setting the stored marks again stores them unchanged. */
  lemma MarksSetterIdempotent(v: NumberOrText)
    requires MarksValue(v).Success?
    ensures MarksValue(Numeric(MarksValue(v).value)) == MarksValue(v)
  {
    RoundCentsNear(MarksNumber(v).value);
  }

  /**
   * A string that trims to one letter A, B, C, D or F in either case stores
   * 95, 82, 68, 55 or 35; any other single character except '%' stores 0.
   */
  lemma MarksShorthand(s: string, c: char)
    requires Trim(s) == [c] && c != '%'
    ensures MarksValue(Textual(s)) == Success(
      if c == 'A' || c == 'a' then 95.0
      else if c == 'B' || c == 'b' then 82.0
      else if c == 'C' || c == 'c' then 68.0
      else if c == 'D' || c == 'd' then 55.0
      else if c == 'F' || c == 'f' then 35.0
      else 0.0)
  {
    var t := Trim(s);
    assert |t| == 1 && t[0] == c && t[|t| - 1] != '%';
    assert MarksNumber(Textual(s)) == Some(LetterMarks(c));
    LetterMarksTable(c);
  }

  lemma LetterMarksTable(c: char)
    ensures var m := LetterMarks(c);
      && 0.0 <= m <= 100.0 && RoundCents(m) == m
      && m == if c == 'A' || c == 'a' then 95.0
        else if c == 'B' || c == 'b' then 82.0
        else if c == 'C' || c == 'c' then 68.0
        else if c == 'D' || c == 'd' then 55.0
        else if c == 'F' || c == 'f' then 35.0
        else 0.0
  {
    var m := LetterMarks(c);
    assert (m * 100.0).Floor as real == m * 100.0;
    RoundCentsNear(m);
  }

  /** A percentage of a whole number reads as that number. */
  lemma MarksPercent(n: nat)
    ensures MarksNumber(Textual(NatToString(n) + "%")) == Some(n as real)
  {
    var s := NatToString(n) + "%";
    assert !IsSpace(s[0]) && !IsSpace(s[|s| - 1]);
    assert Trim(s) == s;
    assert s[..|s| - 1] == NatToString(n);
    ParseFloatOfNatToString(n);
  }

  /** The `active` setter: a boolean as it is; a string is true exactly when its lower case is one of four words. */
  function ActiveValue(v: FlagOrText): bool {
    match v
    case Flag(b) => b
    case FlagText(s) => var l := Lower(s); l == "true" || l == "yes" || l == "1" || l == "active"
  }

  /**
   * The string form ignores case but not white space: it is true exactly when
   * the lower case is one of "true", "yes", "1", "active".
   */
  lemma ActiveText(s: string)
    ensures ActiveValue(FlagText(s)) <==> Lower(s) in {"true", "yes", "1", "active"}
    ensures ActiveValue(FlagText(s)) == ActiveValue(FlagText(Lower(s)))
    ensures ActiveValue(FlagText("TRUE")) && ActiveValue(FlagText("Yes")) && !ActiveValue(FlagText(" yes"))
  {
    assert Lower("TRUE") == "true";
    assert Lower("Yes") == "yes";
    assert Lower(" yes") == " yes";
  }

  /** `join`: the code is appended unless it is already there. */
  function JoinCode(courses: seq<string>, c: string): (r: seq<string>)
    ensures c in r && |r| <= |courses| + 1
    ensures c in courses ==> r == courses
    ensures Count(r, c) == if c in courses then Count(courses, c) else 1
    ensures NoDuplicates(courses) ==> NoDuplicates(r)
  {
    if c in courses then courses else courses + [c]
  }

  /** Joining twice is joining once. */
  lemma JoinIdempotent(courses: seq<string>, c: string)
    ensures JoinCode(JoinCode(courses, c), c) == JoinCode(courses, c)
  {
  }

  /** `courses.map(x => String(x))`. */
  function KeyStrings(ks: seq<Key>): (r: seq<string>)
    ensures |r| == |ks| && forall i :: 0 <= i < |ks| ==> r[i] == KeyString(ks[i])
  {
    seq(|ks|, i requires 0 <= i < |ks| => KeyString(ks[i]))
  }

  /**
   * The stored course codes read back as the keys they came from: a number's
   * string parses back to it, a string is kept as it is.
   */
  lemma KeyStringsReadBack(ks: seq<Key>)
    ensures |KeyStrings(ks)| == |ks|
    ensures forall i :: 0 <= i < |ks| && ks[i].NumKey? ==> ParseInt(KeyStrings(ks)[i]) == Some(ks[i].n)
    ensures forall i :: 0 <= i < |ks| && ks[i].StrKey? ==> KeyStrings(ks)[i] == ks[i].s
  {
    forall i | 0 <= i < |ks| && ks[i].NumKey?
      ensures ParseInt(KeyStrings(ks)[i]) == Some(ks[i].n)
    {
      ParseIntOfIntToString(ks[i].n);
    }
  }

  /** The `StudentPayload` the constructor takes (`joined` left out). */
  datatype StudentPayload = StudentPayload(
    id: Key, name: string, age: Option<NumberOrText>, email: Option<string>,
    marks: Option<NumberOrText>, active: Option<FlagOrText>, courses: Option<seq<Key>>)

  /** The fields of a `Partial<StudentPayload>` that `updateStudent` applies. */
  datatype StudentPatch = StudentPatch(
    name: Option<string>, age: Option<NumberOrText>, email: Option<string>,
    marks: Option<NumberOrText>, active: Option<FlagOrText>, courses: Option<seq<Key>>)

  /** The field initialisers of `Student`. */
  function DefaultStudent(id: string): (r: StudentRecord)
    ensures StudentInvariant(r)
  {
    PlaceholderEmailNormal();
    StudentRecord(id, "Unknown", 18, "unknown@example.com", 0.0, true, [])
  }

  lemma PlaceholderEmailNormal()
    ensures var e := "unknown@example.com"; '@' in e && IsTrimmed(e) && IsLowerCased(e)
  {
    var e := "unknown@example.com";
    assert e[7] == '@';
    forall i | 0 <= i < |e|
      ensures !IsUpperAscii(e[i])
    {
    }
  }

  function SetActiveAndCourses(rec: StudentRecord, a: Option<FlagOrText>, cs: Option<seq<Key>>): (r: StudentRecord)
    ensures r == rec.(active := if a.None? then rec.active else ActiveValue(a.value),
                      courses := if cs.None? then rec.courses else KeyStrings(cs.value))
    ensures r.(active := rec.active, courses := rec.courses) == rec
    ensures StudentInvariant(r) <==> StudentInvariant(rec)
  {
    var r1 := if a.None? then rec else rec.(active := ActiveValue(a.value));
    if cs.None? then r1 else r1.(courses := KeyStrings(cs.value))
  }

  /** The record with every supplied field stored through its setter and every other field kept. */
  function Overlay(rec: StudentRecord, upd: StudentPatch): StudentRecord {
    StudentRecord(
      rec.id,
      if upd.name.Some? && NameValue(upd.name.value).Success? then NameValue(upd.name.value).value else rec.name,
      if upd.age.Some? && AgeValue(upd.age.value).Success? then AgeValue(upd.age.value).value else rec.age,
      if upd.email.Some? && EmailValue(upd.email.value).Success? then EmailValue(upd.email.value).value else rec.email,
      if upd.marks.Some? && MarksValue(upd.marks.value).Success? then MarksValue(upd.marks.value).value else rec.marks,
      if upd.active.None? then rec.active else ActiveValue(upd.active.value),
      if upd.courses.None? then rec.courses else KeyStrings(upd.courses.value))
  }

  /** Every supplied field passes its setter. */
  predicate PatchAccepted(upd: StudentPatch) {
    && (upd.name.Some? ==> NameValue(upd.name.value).Success?)
    && (upd.age.Some? ==> AgeValue(upd.age.value).Success?)
    && (upd.email.Some? ==> EmailValue(upd.email.value).Success?)
    && (upd.marks.Some? ==> MarksValue(upd.marks.value).Success?)
  }

  /** The number of supplied fields that go through a throwing setter. */
  function Pending(upd: StudentPatch): nat {
    (if upd.name.Some? then 1 else 0) + (if upd.age.Some? then 1 else 0)
    + (if upd.email.Some? then 1 else 0) + (if upd.marks.Some? then 1 else 0)
  }

  /**
   * The fields of a patch applied one setter at a time, in the order name,
   * age, email, marks, active, courses: the first supplied field is stored
   * and the rest of the patch applied to the result. The first setter that
   * throws stops the application: the record returned is the one with the
   * fields before it already changed (see `PatchStudentNotAtomic`), and the
   * outcome carries its error. When every setter accepts, the result is the
   * overlay.
   */
  function PatchStudent(rec: StudentRecord, upd: StudentPatch): (StudentRecord, Outcome<EntityError>)
    decreases Pending(upd)
  {
    if upd.name.Some? then
      match NameValue(upd.name.value)
      case Failure(e) => (rec, Fail(e))
      case Success(n) => PatchStudent(rec.(name := n), upd.(name := None))
    else if upd.age.Some? then
      match AgeValue(upd.age.value)
      case Failure(e) => (rec, Fail(e))
      case Success(n) => PatchStudent(rec.(age := n), upd.(age := None))
    else if upd.email.Some? then
      match EmailValue(upd.email.value)
      case Failure(e) => (rec, Fail(e))
      case Success(e) => PatchStudent(rec.(email := e), upd.(email := None))
    else if upd.marks.Some? then
      match MarksValue(upd.marks.value)
      case Failure(e) => (rec, Fail(e))
      case Success(m) => PatchStudent(rec.(marks := m), upd.(marks := None))
    else (SetActiveAndCourses(rec, upd.active, upd.courses), Pass)
  }

  // One step of the application each: the first supplied field, then the rest of the patch.

  lemma PatchStudentName(rec: StudentRecord, upd: StudentPatch)
    requires upd.name.Some?
    ensures NameValue(upd.name.value).Failure? ==> PatchStudent(rec, upd) == (rec, Fail(NameValue(upd.name.value).error))
    ensures NameValue(upd.name.value).Success? ==>
      PatchStudent(rec, upd) == PatchStudent(rec.(name := NameValue(upd.name.value).value), upd.(name := None))
  {
  }

  lemma PatchStudentAge(rec: StudentRecord, upd: StudentPatch)
    requires upd.name.None? && upd.age.Some?
    ensures AgeValue(upd.age.value).Failure? ==> PatchStudent(rec, upd) == (rec, Fail(AgeValue(upd.age.value).error))
    ensures AgeValue(upd.age.value).Success? ==>
      PatchStudent(rec, upd) == PatchStudent(rec.(age := AgeValue(upd.age.value).value), upd.(age := None))
  {
  }

  lemma PatchStudentEmail(rec: StudentRecord, upd: StudentPatch)
    requires upd.name.None? && upd.age.None? && upd.email.Some?
    ensures EmailValue(upd.email.value).Failure? ==> PatchStudent(rec, upd) == (rec, Fail(EmailValue(upd.email.value).error))
    ensures EmailValue(upd.email.value).Success? ==>
      PatchStudent(rec, upd) == PatchStudent(rec.(email := EmailValue(upd.email.value).value), upd.(email := None))
  {
  }

  lemma PatchStudentMarks(rec: StudentRecord, upd: StudentPatch)
    requires upd.name.None? && upd.age.None? && upd.email.None? && upd.marks.Some?
    ensures MarksValue(upd.marks.value).Failure? ==> PatchStudent(rec, upd) == (rec, Fail(MarksValue(upd.marks.value).error))
    ensures MarksValue(upd.marks.value).Success? ==>
      PatchStudent(rec, upd) == PatchStudent(rec.(marks := MarksValue(upd.marks.value).value), upd.(marks := None))
  {
  }

  lemma PatchStudentRest(rec: StudentRecord, upd: StudentPatch)
    requires upd.name.None? && upd.age.None? && upd.email.None? && upd.marks.None?
    ensures PatchStudent(rec, upd) == (SetActiveAndCourses(rec, upd.active, upd.courses), Pass)
  {
  }

  /** Applying a patch never changes the id, and it succeeds exactly when every supplied field passes its setter. */
  lemma {:induction false} PatchStudentAccepts(rec: StudentRecord, upd: StudentPatch)
    ensures PatchStudent(rec, upd).0.id == rec.id
    ensures PatchStudent(rec, upd).1.Pass? <==> PatchAccepted(upd)
    decreases Pending(upd)
  {
    if upd.name.Some? && NameValue(upd.name.value).Success? {
      PatchStudentAccepts(rec.(name := NameValue(upd.name.value).value), upd.(name := None));
    } else if upd.name.None? && upd.age.Some? && AgeValue(upd.age.value).Success? {
      PatchStudentAccepts(rec.(age := AgeValue(upd.age.value).value), upd.(age := None));
    } else if upd.name.None? && upd.age.None? && upd.email.Some? && EmailValue(upd.email.value).Success? {
      PatchStudentAccepts(rec.(email := EmailValue(upd.email.value).value), upd.(email := None));
    } else if upd.name.None? && upd.age.None? && upd.email.None? && upd.marks.Some? && MarksValue(upd.marks.value).Success? {
      PatchStudentAccepts(rec.(marks := MarksValue(upd.marks.value).value), upd.(marks := None));
    }
  }

  /** A patch that succeeds stores the overlay: every supplied field through its setter, every other field kept. */
  lemma {:induction false} PatchStudentOverlays(rec: StudentRecord, upd: StudentPatch)
    requires PatchStudent(rec, upd).1.Pass?
    ensures PatchStudent(rec, upd).0 == Overlay(rec, upd)
    decreases Pending(upd)
  {
    if upd.name.Some? {
      var next := rec.(name := NameValue(upd.name.value).value);
      PatchStudentOverlays(next, upd.(name := None));
      OverlayName(rec, upd);
    } else if upd.age.Some? {
      var next := rec.(age := AgeValue(upd.age.value).value);
      PatchStudentOverlays(next, upd.(age := None));
      OverlayAge(rec, upd);
    } else if upd.email.Some? {
      var next := rec.(email := EmailValue(upd.email.value).value);
      PatchStudentOverlays(next, upd.(email := None));
      OverlayEmail(rec, upd);
    } else if upd.marks.Some? {
      var next := rec.(marks := MarksValue(upd.marks.value).value);
      PatchStudentOverlays(next, upd.(marks := None));
      OverlayMarks(rec, upd);
    }
  }

  lemma OverlayName(rec: StudentRecord, upd: StudentPatch)
    requires upd.name.Some? && NameValue(upd.name.value).Success?
    ensures Overlay(rec.(name := NameValue(upd.name.value).value), upd.(name := None)) == Overlay(rec, upd)
  {
  }

  lemma OverlayAge(rec: StudentRecord, upd: StudentPatch)
    requires upd.age.Some? && AgeValue(upd.age.value).Success?
    ensures Overlay(rec.(age := AgeValue(upd.age.value).value), upd.(age := None)) == Overlay(rec, upd)
  {
  }

  lemma OverlayEmail(rec: StudentRecord, upd: StudentPatch)
    requires upd.email.Some? && EmailValue(upd.email.value).Success?
    ensures Overlay(rec.(email := EmailValue(upd.email.value).value), upd.(email := None)) == Overlay(rec, upd)
  {
  }

  lemma OverlayMarks(rec: StudentRecord, upd: StudentPatch)
    requires upd.marks.Some? && MarksValue(upd.marks.value).Success?
    ensures Overlay(rec.(marks := MarksValue(upd.marks.value).value), upd.(marks := None)) == Overlay(rec, upd)
  {
  }

  /** Whether it succeeds or stops half-way, a patch keeps the setters' guarantees. */
  lemma {:induction false} PatchStudentKeepsInvariant(rec: StudentRecord, upd: StudentPatch)
    ensures StudentInvariant(rec) ==> StudentInvariant(PatchStudent(rec, upd).0)
    decreases Pending(upd)
  {
    if !StudentInvariant(rec) {
    } else if upd.name.Some? {
      PatchStudentName(rec, upd);
      if NameValue(upd.name.value).Success? {
        NameKeepsInvariant(rec, upd.name.value);
        PatchStudentKeepsInvariant(rec.(name := NameValue(upd.name.value).value), upd.(name := None));
      }
    } else if upd.age.Some? {
      PatchStudentAge(rec, upd);
      if AgeValue(upd.age.value).Success? {
        AgeKeepsInvariant(rec, upd.age.value);
        PatchStudentKeepsInvariant(rec.(age := AgeValue(upd.age.value).value), upd.(age := None));
      }
    } else if upd.email.Some? {
      PatchStudentEmail(rec, upd);
      if EmailValue(upd.email.value).Success? {
        EmailKeepsInvariant(rec, upd.email.value);
        PatchStudentKeepsInvariant(rec.(email := EmailValue(upd.email.value).value), upd.(email := None));
      }
    } else if upd.marks.Some? {
      PatchStudentMarks(rec, upd);
      if MarksValue(upd.marks.value).Success? {
        MarksKeepsInvariant(rec, upd.marks.value);
        PatchStudentKeepsInvariant(rec.(marks := MarksValue(upd.marks.value).value), upd.(marks := None));
      }
    } else {
      PatchStudentRest(rec, upd);
    }
  }

  /** The fields of a payload as the constructor applies them. */
  function PayloadPatch(p: StudentPayload): StudentPatch {
    StudentPatch(Some(p.name), p.age, p.email, p.marks, p.active, p.courses)
  }

  /**
   * `new Student(p)`: the formatted id, then every supplied field through its
   * setter; a setter that throws makes the constructor throw.
   */
  function CreateStudent(p: StudentPayload): (r: Result<StudentRecord, EntityError>)
    ensures r.Success? <==> PatchAccepted(PayloadPatch(p))
    ensures r.Success? ==> StudentInvariant(r.value)
    ensures r.Success? ==> r.value == Overlay(DefaultStudent(FormatId(p.id)), PayloadPatch(p))
  {
    var d := DefaultStudent(FormatId(p.id));
    PatchStudentAccepts(d, PayloadPatch(p));
    PatchStudentKeepsInvariant(d, PayloadPatch(p));
    var (rec, o) := PatchStudent(d, PayloadPatch(p));
    if o.Fail? then Failure(o.error)
    else
      PatchStudentOverlays(d, PayloadPatch(p));
      Success(rec)
  }

  /**
   * A payload with only an id and a valid name gives the defaults: age 18,
   * the placeholder email, no marks, active and in no course.
   */
  lemma CreateStudentDefaults(id: Key, name: string)
    requires |Trim(name)| >= 3
    ensures CreateStudent(StudentPayload(id, name, None, None, None, None, None))
      == Success(StudentRecord(FormatId(id), Trim(name), 18, "unknown@example.com", 0.0, true, []))
  {
    var d := DefaultStudent(FormatId(id));
    var upd := PayloadPatch(StudentPayload(id, name, None, None, None, None, None));
    PatchStudentName(d, upd);
    PatchStudentRest(d.(name := Trim(name)), upd.(name := None));
  }

  /**
   * The setters run one after the other and nothing is undone: a patch with a
   * valid name and an out-of-range age throws, yet the name is already changed.
   */
  lemma PatchStudentNotAtomic(rec: StudentRecord, name: string, age: int)
    requires |Trim(name)| >= 3 && (age < 16 || age > 100)
    ensures var r := PatchStudent(rec, StudentPatch(Some(name), Some(Numeric(age as real)), None, None, None, None));
      r.1 == Fail(AgeOutOfRange) && r.0 == rec.(name := Trim(name))
  {
    var upd := StudentPatch(Some(name), Some(Numeric(age as real)), None, None, None, None);
    PatchStudentName(rec, upd);
    assert AgeValue(Numeric(age as real)).Failure?;
    PatchStudentAge(rec.(name := Trim(name)), upd.(name := None));
  }

  class Student {
    var id: string
    var name: string
    var age: int
    var email: string
    var marks: real
    var active: bool
    var courses: seq<string>

    ghost predicate Valid()
      reads this
    {
      StudentInvariant(StudentRecord(id, name, age, email, marks, active, courses))
    }

    /** `toObject()`: a snapshot of the fields; a valid student's snapshot satisfies the invariant. */
    function ToObject(): (r: StudentRecord)
      reads this
      ensures Valid() ==> StudentInvariant(r)
      ensures r.courses == courses && r.id == id
    {
      StudentRecord(id, name, age, email, marks, active, courses)
    }

    /** The field initialisers, with the id already formatted. */
    constructor Init(id: string)
      ensures Valid() && ToObject() == DefaultStudent(id)
    {
      this.id := id;
      name := "Unknown";
      age := 18;
      email := "unknown@example.com";
      marks := 0.0;
      active := true;
      courses := [];
      new;
      assert ToObject() == DefaultStudent(id);
    }

    method SetName(v: string) returns (o: Outcome<EntityError>)
      requires Valid()
      modifies this
      ensures Valid()
      ensures o == OutcomeOf(NameValue(v))
      ensures ToObject() == old(ToObject()).(name := ValueOr(NameValue(v), old(name)))
    {
      var r := NameValue(v);
      if r.Failure? {
        return Fail(r.error);
      }
      NameKeepsInvariant(ToObject(), v);
      name := r.value;
      return Pass;
    }

    method SetAge(v: NumberOrText) returns (o: Outcome<EntityError>)
      requires Valid()
      modifies this
      ensures Valid()
      ensures o == OutcomeOf(AgeValue(v))
      ensures ToObject() == old(ToObject()).(age := ValueOr(AgeValue(v), old(age)))
    {
      var r := AgeValue(v);
      if r.Failure? {
        return Fail(r.error);
      }
      AgeKeepsInvariant(ToObject(), v);
      age := r.value;
      return Pass;
    }

    method SetEmail(v: string) returns (o: Outcome<EntityError>)
      requires Valid()
      modifies this
      ensures Valid()
      ensures o == OutcomeOf(EmailValue(v))
      ensures ToObject() == old(ToObject()).(email := ValueOr(EmailValue(v), old(email)))
    {
      var r := EmailValue(v);
      if r.Failure? {
        return Fail(r.error);
      }
      EmailKeepsInvariant(ToObject(), v);
      email := r.value;
      return Pass;
    }

    method SetMarks(v: NumberOrText) returns (o: Outcome<EntityError>)
      requires Valid()
      modifies this
      ensures Valid()
      ensures o == OutcomeOf(MarksValue(v))
      ensures ToObject() == old(ToObject()).(marks := ValueOr(MarksValue(v), old(marks)))
    {
      var r := MarksValue(v);
      if r.Failure? {
        return Fail(r.error);
      }
      MarksKeepsInvariant(ToObject(), v);
      marks := r.value;
      return Pass;
    }

    method SetActive(v: FlagOrText)
      requires Valid()
      modifies this
      ensures Valid()
      ensures ToObject() == old(ToObject()).(active := ActiveValue(v))
    {
      active := ActiveValue(v);
    }

    method Join(code: Key)
      requires Valid()
      modifies this
      ensures Valid()
      ensures ToObject() == old(ToObject()).(courses := JoinCode(old(courses), KeyString(code)))
    {
      var c := KeyString(code);
      if c !in courses {
        courses := courses + [c];
      }
    }

    method Leave(code: Key)
      requires Valid()
      modifies this
      ensures Valid()
      ensures ToObject() == old(ToObject()).(courses := Without(old(courses), KeyString(code)))
    {
      courses := Without(courses, KeyString(code));
    }

    // `if (upd.name !== undefined) s.name = upd.name`, and so on: each step stores one field of
    // what is left of the patch; applying the rest to the new fields gives the same result.

    method ApplyName(v: Option<string>, ghost rest: StudentPatch) returns (o: Outcome<EntityError>, ghost next: StudentPatch)
      requires Valid() && rest.name == v
      modifies this
      ensures Valid() && next == rest.(name := None)
      ensures o.Fail? ==> (ToObject(), o) == PatchStudent(old(ToObject()), rest)
      ensures o.Pass? ==> PatchStudent(old(ToObject()), rest) == PatchStudent(ToObject(), next)
    {
      next := rest.(name := None);
      o := Pass;
      if v.Some? {
        PatchStudentName(ToObject(), rest);
        o := SetName(v.value);
      }
    }

    method ApplyAge(v: Option<NumberOrText>, ghost rest: StudentPatch) returns (o: Outcome<EntityError>, ghost next: StudentPatch)
      requires Valid() && rest.age == v && rest.name.None?
      modifies this
      ensures Valid() && next == rest.(age := None)
      ensures o.Fail? ==> (ToObject(), o) == PatchStudent(old(ToObject()), rest)
      ensures o.Pass? ==> PatchStudent(old(ToObject()), rest) == PatchStudent(ToObject(), next)
    {
      next := rest.(age := None);
      o := Pass;
      if v.Some? {
        PatchStudentAge(ToObject(), rest);
        o := SetAge(v.value);
      }
    }

    method ApplyEmail(v: Option<string>, ghost rest: StudentPatch) returns (o: Outcome<EntityError>, ghost next: StudentPatch)
      requires Valid() && rest.email == v && rest.name.None? && rest.age.None?
      modifies this
      ensures Valid() && next == rest.(email := None)
      ensures o.Fail? ==> (ToObject(), o) == PatchStudent(old(ToObject()), rest)
      ensures o.Pass? ==> PatchStudent(old(ToObject()), rest) == PatchStudent(ToObject(), next)
    {
      next := rest.(email := None);
      o := Pass;
      if v.Some? {
        PatchStudentEmail(ToObject(), rest);
        o := SetEmail(v.value);
      }
    }

    method ApplyMarks(v: Option<NumberOrText>, ghost rest: StudentPatch) returns (o: Outcome<EntityError>, ghost next: StudentPatch)
      requires Valid() && rest.marks == v && rest.name.None? && rest.age.None? && rest.email.None?
      modifies this
      ensures Valid() && next == rest.(marks := None)
      ensures o.Fail? ==> (ToObject(), o) == PatchStudent(old(ToObject()), rest)
      ensures o.Pass? ==> PatchStudent(old(ToObject()), rest) == PatchStudent(ToObject(), next)
    {
      next := rest.(marks := None);
      o := Pass;
      if v.Some? {
        PatchStudentMarks(ToObject(), rest);
        o := SetMarks(v.value);
      }
    }

    /**
     * The setters of every supplied field, in order, as `updateStudent` and the
     * constructor run them; a throwing setter leaves the earlier fields changed.
     */
    method Update(upd: StudentPatch) returns (o: Outcome<EntityError>)
      requires Valid()
      modifies this
      ensures Valid()
      ensures (ToObject(), o) == PatchStudent(old(ToObject()), upd)
    {
      ghost var rest;
      o, rest := ApplyName(upd.name, upd);
      if o.Fail? {
        return;
      }
      o, rest := ApplyAge(upd.age, rest);
      if o.Fail? {
        return;
      }
      o, rest := ApplyEmail(upd.email, rest);
      if o.Fail? {
        return;
      }
      o, rest := ApplyMarks(upd.marks, rest);
      if o.Fail? {
        return;
      }
      PatchStudentRest(ToObject(), rest);
      if upd.active.Some? {
        SetActive(upd.active.value);
      }
      if upd.courses.Some? {
        courses := KeyStrings(upd.courses.value);
      }
    }

    /** The constructor as `new Student(p)` runs it: initialisers, then the setters in order. */
    static method New(p: StudentPayload) returns (r: Result<Student, EntityError>)
      ensures r.Success? <==> CreateStudent(p).Success?
      ensures r.Failure? ==> r.error == CreateStudent(p).error
      ensures r.Success? ==> fresh(r.value) && r.value.Valid() && r.value.ToObject() == CreateStudent(p).value
    {
      var s := new Student.Init(FormatId(p.id));
      var o := s.Update(PayloadPatch(p));
      if o.Fail? {
        return Failure(o.error);
      }
      return Success(s);
    }
  }

  // ---------------------------------------------------------------- Course

  /** The `ICourse` view that `toObject` returns. */
  datatype CourseRecord = CourseRecord(
    code: string, title: string, seats: int, enrolled: int, category: Category, fee: Option<real>)

  /** What the setters and counters guarantee about every course. */
  predicate CourseInvariant(c: CourseRecord) {
    && |c.title| >= 3 && IsTrimmed(c.title)
    && 1 <= c.seats
    && 0 <= c.enrolled <= c.seats
  }

  /** The `title` setter: the trimmed value, at least three characters. */
  function TitleValue(v: string): (r: Result<string, EntityError>)
    ensures r.Success? <==> |Trim(v)| >= 3
    ensures r.Success? ==> r.value == Trim(v)
    ensures r.Failure? ==> r.error == TitleTooShort
  {
    var s := Trim(v);
    if |s| < 3 then Failure(TitleTooShort) else Success(s)
  }

  /**
   * The `seats` setter: a positive integer no smaller than the number already
   * enrolled.
   */
  function SeatsValue(n: real, enrolled: int): (r: Result<int, EntityError>)
    ensures r.Success? <==> n == n.Floor as real && n > 0.0 && enrolled as real <= n
    ensures r.Success? ==> r.value as real == n && r.value >= 1 && r.value >= enrolled
    ensures r.Failure? && (n != n.Floor as real || n <= 0.0) ==> r.error == SeatsNotPositiveInteger
    ensures r.Failure? && n == n.Floor as real && n > 0.0 ==> r.error == SeatsBelowEnrolled
  {
    if n != n.Floor as real || n <= 0.0 then Failure(SeatsNotPositiveInteger)
    else if enrolled as real > n then Failure(SeatsBelowEnrolled)
    else Success(n.Floor)
  }

  /** The `fee` setter: undefined, or a number that is not negative. */
  function FeeValue(f: Option<real>): (r: Result<Option<real>, EntityError>)
    ensures r.Success? <==> f.None? || f.value >= 0.0
    ensures r.Success? ==> r.value == f
    ensures r.Failure? ==> r.error == NegativeFee
  {
    if f.Some? && f.value < 0.0 then Failure(NegativeFee) else Success(f)
  }

  /** `addOne`: one more enrolled, unless every seat is taken. */
  function AddOneSpec(c: CourseRecord): (r: Result<CourseRecord, EntityError>)
    ensures r.Success? <==> c.enrolled < c.seats
    ensures r.Success? ==> r.value == c.(enrolled := c.enrolled + 1)
    ensures r.Failure? ==> r.error == NoSeatsLeft
    ensures CourseInvariant(c) && r.Success? ==> CourseInvariant(r.value)
  {
    if c.enrolled + 1 > c.seats then Failure(NoSeatsLeft) else Success(c.(enrolled := c.enrolled + 1))
  }

  /** `removeOne`: one fewer enrolled, unless none is. */
  function RemoveOneSpec(c: CourseRecord): (r: Result<CourseRecord, EntityError>)
    ensures r.Success? <==> c.enrolled > 0
    ensures r.Success? ==> r.value == c.(enrolled := c.enrolled - 1)
    ensures r.Failure? ==> r.error == EnrolledNegative
    ensures CourseInvariant(c) && r.Success? ==> CourseInvariant(r.value)
  {
    if c.enrolled - 1 < 0 then Failure(EnrolledNegative) else Success(c.(enrolled := c.enrolled - 1))
  }

  /** The `CoursePayload` the constructor takes. */
  datatype CoursePayload = CoursePayload(code: Key, title: string, seats: real, category: Category, fee: Option<real>)

  /** The fields of a `Partial<CoursePayload>` that `updateCourse` applies. */
  datatype CoursePatch = CoursePatch(title: Option<string>, seats: Option<real>, category: Option<Category>, fee: Option<real>)

  /**
   * `new Course(p)`: the formatted code, the title and seats through their
   * setters; the category and the fee are stored as given, so the fee
   * setter's check does not apply here.
   */
  function CreateCourse(p: CoursePayload): (r: Result<CourseRecord, EntityError>)
    ensures r.Success? <==> TitleValue(p.title).Success? && SeatsValue(p.seats, 0).Success?
    ensures r.Success? ==> CourseInvariant(r.value) && r.value.enrolled == 0
    ensures r.Success? ==> r.value.code == FormatCode(p.code) && r.value.fee == p.fee && r.value.category == p.category
  {
    var t :- TitleValue(p.title);
    var s :- SeatsValue(p.seats, 0);
    Success(CourseRecord(FormatCode(p.code), t, s, 0, p.category, p.fee))
  }

  /**
   * The fields of a course patch applied one setter at a time (title, seats,
   * category, fee); the first that throws stops the rest, with the earlier
   * fields already changed.
   */
  function PatchCourse(rec: CourseRecord, upd: CoursePatch): (r: (CourseRecord, Outcome<EntityError>))
    ensures r.0.code == rec.code && r.0.enrolled == rec.enrolled
    ensures upd.title.None? ==> r.0.title == rec.title
    ensures upd.seats.None? ==> r.0.seats == rec.seats
    ensures upd.category.None? ==> r.0.category == rec.category
    ensures upd.fee.None? ==> r.0.fee == rec.fee
    ensures CourseInvariant(rec) ==> CourseInvariant(r.0)
    ensures r.1.Pass? <==>
      && (upd.title.Some? ==> TitleValue(upd.title.value).Success?)
      && (upd.seats.Some? ==> SeatsValue(upd.seats.value, rec.enrolled).Success?)
      && (upd.fee.Some? ==> upd.fee.value >= 0.0)
    ensures r.1.Pass? && upd.title.Some? ==> TitleValue(upd.title.value).Success? && r.0.title == TitleValue(upd.title.value).value
    ensures r.1.Pass? && upd.seats.Some? ==>
      SeatsValue(upd.seats.value, rec.enrolled).Success? && r.0.seats == SeatsValue(upd.seats.value, rec.enrolled).value
    ensures r.1.Pass? && upd.category.Some? ==> r.0.category == upd.category.value
    ensures r.1.Pass? && upd.fee.Some? ==> r.0.fee == upd.fee
  {
    var t := if upd.title.None? then Success(rec.title) else TitleValue(upd.title.value);
    if t.Failure? then (rec, Fail(t.error)) else
    var r1 := rec.(title := t.value);
    var s := if upd.seats.None? then Success(r1.seats) else SeatsValue(upd.seats.value, r1.enrolled);
    if s.Failure? then (r1, Fail(s.error)) else
    var r2 := r1.(seats := s.value);
    var r3 := if upd.category.None? then r2 else r2.(category := upd.category.value);
    var f := if upd.fee.None? then Success(r3.fee) else FeeValue(upd.fee);
    if f.Failure? then (r3, Fail(f.error)) else
    (r3.(fee := f.value), Pass)
  }

  /** A rejected title stops the patch before anything is stored. */
  lemma PatchCourseTitleFails(rec: CourseRecord, upd: CoursePatch)
    requires upd.title.Some? && TitleValue(upd.title.value).Failure?
    ensures PatchCourse(rec, upd) == (rec, Fail(TitleTooShort))
  {
  }

  /** Rejected seats stop the patch with the new title, if any, already stored. */
  lemma PatchCourseSeatsFail(rec: CourseRecord, upd: CoursePatch)
    requires upd.title.None? || TitleValue(upd.title.value).Success?
    requires upd.seats.Some? && SeatsValue(upd.seats.value, rec.enrolled).Failure?
    ensures var titled := if upd.title.None? then rec else rec.(title := TitleValue(upd.title.value).value);
      PatchCourse(rec, upd) == (titled, Fail(SeatsValue(upd.seats.value, rec.enrolled).error))
  {
  }

  /** A negative fee stops the patch with the title, seats and category already stored. */
  lemma PatchCourseFeeFails(rec: CourseRecord, upd: CoursePatch)
    requires upd.title.None? || TitleValue(upd.title.value).Success?
    requires upd.seats.None? || SeatsValue(upd.seats.value, rec.enrolled).Success?
    requires upd.fee.Some? && upd.fee.value < 0.0
    ensures var titled := if upd.title.None? then rec else rec.(title := TitleValue(upd.title.value).value);
      var seated := if upd.seats.None? then titled else titled.(seats := SeatsValue(upd.seats.value, rec.enrolled).value);
      var sorted := if upd.category.None? then seated else seated.(category := upd.category.value);
      PatchCourse(rec, upd) == (sorted, Fail(NegativeFee))
  {
  }

  /**
   * A course patch is not atomic: an accepted title stays stored when the
   * seat count after it (0.5, not an integer) is rejected.
   */
  lemma PatchCourseNotAtomic(rec: CourseRecord, title: string)
    requires TitleValue(title).Success?
    ensures PatchCourse(rec, CoursePatch(Some(title), Some(0.5), None, None))
         == (rec.(title := Trim(title)), Fail(SeatsNotPositiveInteger))
  {
    HalfSeat(rec.enrolled);
    PatchCourseSeatsFail(rec, CoursePatch(Some(title), Some(0.5), None, None));
  }

  lemma HalfSeat(enrolled: int)
    ensures SeatsValue(0.5, enrolled) == Failure(SeatsNotPositiveInteger)
  {
    assert (0.5).Floor == 0;
  }

  class Course {
    var code: string
    var title: string
    var seats: int
    var enrolled: int
    var category: Category
    var fee: Option<real>

    ghost predicate Valid()
      reads this
    {
      CourseInvariant(CourseRecord(code, title, seats, enrolled, category, fee))
    }

    /** `toObject()`: a snapshot of the fields; a valid course's snapshot satisfies the invariant. */
    function ToObject(): (r: CourseRecord)
      reads this
      ensures Valid() ==> CourseInvariant(r)
      ensures r.code == code && r.enrolled == enrolled && r.seats == seats
    {
      CourseRecord(code, title, seats, enrolled, category, fee)
    }

    /** The field initialisers (title "untitled", one seat, none enrolled, no fee), with the code formatted. */
    constructor Init(code: string, category: Category)
      ensures Valid() && ToObject() == CourseRecord(code, "untitled", 1, 0, category, None)
    {
      this.code := code;
      title := "untitled";
      seats := 1;
      enrolled := 0;
      this.category := category;
      fee := None;
    }

    method SetTitle(v: string) returns (o: Outcome<EntityError>)
      requires Valid()
      modifies this
      ensures Valid()
      ensures o == OutcomeOf(TitleValue(v))
      ensures ToObject() == old(ToObject()).(title := ValueOr(TitleValue(v), old(title)))
    {
      var r := TitleValue(v);
      if r.Failure? {
        return Fail(r.error);
      }
      title := r.value;
      return Pass;
    }

    method SetSeats(n: real) returns (o: Outcome<EntityError>)
      requires Valid()
      modifies this
      ensures Valid()
      ensures o == OutcomeOf(SeatsValue(n, old(enrolled)))
      ensures ToObject() == old(ToObject()).(seats := ValueOr(SeatsValue(n, old(enrolled)), old(seats)))
    {
      var r := SeatsValue(n, enrolled);
      if r.Failure? {
        return Fail(r.error);
      }
      seats := r.value;
      return Pass;
    }

    method SetCategory(c: Category)
      requires Valid()
      modifies this
      ensures Valid()
      ensures ToObject() == old(ToObject()).(category := c)
    {
      category := c;
    }

    method SetFee(f: Option<real>) returns (o: Outcome<EntityError>)
      requires Valid()
      modifies this
      ensures Valid()
      ensures o == OutcomeOf(FeeValue(f))
      ensures ToObject() == old(ToObject()).(fee := ValueOr(FeeValue(f), old(fee)))
    {
      var r := FeeValue(f);
      if r.Failure? {
        return Fail(r.error);
      }
      fee := r.value;
      return Pass;
    }

    method AddOne() returns (o: Outcome<EntityError>)
      requires Valid()
      modifies this
      ensures Valid()
      ensures o == OutcomeOf(AddOneSpec(old(ToObject())))
      ensures ToObject() == ValueOr(AddOneSpec(old(ToObject())), old(ToObject()))
    {
      if enrolled + 1 > seats {
        return Fail(NoSeatsLeft);
      }
      enrolled := enrolled + 1;
      return Pass;
    }

    method RemoveOne() returns (o: Outcome<EntityError>)
      requires Valid()
      modifies this
      ensures Valid()
      ensures o == OutcomeOf(RemoveOneSpec(old(ToObject())))
      ensures ToObject() == ValueOr(RemoveOneSpec(old(ToObject())), old(ToObject()))
    {
      if enrolled - 1 < 0 {
        return Fail(EnrolledNegative);
      }
      enrolled := enrolled - 1;
      return Pass;
    }

    /**
     * The setters of every supplied field, in order, as `updateCourse` runs
     * them; a throwing setter leaves the earlier fields changed.
     */
    method Update(upd: CoursePatch) returns (o: Outcome<EntityError>)
      requires Valid()
      modifies this
      ensures Valid()
      ensures (ToObject(), o) == PatchCourse(old(ToObject()), upd)
    {
      o := Pass;
      if upd.title.Some? {
        o := SetTitle(upd.title.value);
        if o.Fail? {
          return;
        }
      }
      if upd.seats.Some? {
        o := SetSeats(upd.seats.value);
        if o.Fail? {
          return;
        }
      }
      if upd.category.Some? {
        SetCategory(upd.category.value);
      }
      if upd.fee.Some? {
        o := SetFee(upd.fee);
      }
    }

    /** The constructor as `new Course(p)` runs it. */
    static method New(p: CoursePayload) returns (r: Result<Course, EntityError>)
      ensures r.Success? <==> CreateCourse(p).Success?
      ensures r.Failure? ==> r.error == CreateCourse(p).error
      ensures r.Success? ==> fresh(r.value) && r.value.Valid() && r.value.ToObject() == CreateCourse(p).value
    {
      var c := new Course.Init(FormatCode(p.code), p.category);
      var o := c.SetTitle(p.title);
      if o.Fail? {
        return Failure(o.error);
      }
      o := c.SetSeats(p.seats);
      if o.Fail? {
        return Failure(o.error);
      }
      c.fee := p.fee;
      return Success(c);
    }
  }
}
