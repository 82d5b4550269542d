# Student and course records, in Dafny

This project models the student and course handling of the `intern-pd`
TypeScript exercises. It proves what their setters, guards and stores keep.

- **`Entities`** (`entities.ts`) covers the `Student` and `Course` classes.
  - Their private fields are changed in place by the setters (`name`, `age`, `email`, `marks`, `active`, `title`, `seats`, `category`, `fee`).
  - It also covers the course helpers (`join`, `leave`, `addOne`, `removeOne`) and the constructors, which run the setters one after another.
  - Each setter is a function returning the stored value or the error it throws. The class methods are proved against those functions, and they keep the record invariant (`StudentInvariant`, `CourseInvariant`).
- **`Management`** (`manager.ts`) covers the `Manager` store.
  - It holds the `Student` and `Course` objects, plus a lock and a capacity.
  - Its operations are CRUD on both lists, `enroll`/`unenroll`, `validate`, `buildEnrollList` and `stats`.
- **`ManagerSpec`** holds the functions that the `Manager` methods are proved against, on the lists of plain records that `getAllStudents`/`getAllCourses` return. It also holds the lemmas about those functions:
  - ids stay distinct
  - delete removes exactly the first match
  - enrolment moves one seat and one course code
  - the enrolment list groups names by course
  - the stats stay in range
- **`StudentManagement`** (`student.ts`) covers the grade classifiers and `StudentManager`.
  - `StudentManager` is a second store of plain records with a capacity bound, unique ids, an id that may not change on update, the `currentStudent` checks and a guarded `addCourse`.
  - A `Store` value and a function per operation specify it. The lemmas show that every operation keeps the store `Healthy`.
- **`DataHandlers`** (`Jest.ts`) covers `BaseClass` state with the methods of `A` and `B`.
  - The state is a JavaScript object as a map of properties, with `key_N` auto-keys and `key in obj` seeing inherited names.
  - It also covers the bounds-checked operations on the array under `d`, and `B`'s two conversions.
  - The scenarios of class `C` are lemmas.
- **`JsText`** and **`JsArrays`** hold the JavaScript built-ins the code relies on:
  - `trim`, `toLowerCase`, `padStart`, `String(n)`, `parseInt`, `parseFloat`
  - `findIndex`, `find`, `splice`, `filter`

  Each comes with what it guarantees, for example `parseInt(String(n)) == n`.
- **`Results`** holds `Option`, `Result` and `Outcome` (pass, or fail with an error). A thrown error is a `Failure`/`Fail` carrying the error.

Several behaviours of the code come out of the proofs:

- `addStudent` compares the lower-cased but untrimmed email with the stored ones. So `" " + e` passes the duplicate guard for a stored `e`, and is then stored as `e` (`ManagerSpec.AddStudentAdmitsPaddedEmail`).
- `updateStudent`'s setters are not atomic: a rejected age leaves the new name in place (`ManagerSpec.UpdateStudentNotAtomic`).
- `updateCourse` is not atomic either: seats of 0.5 after an accepted title throw, and the new title stays (`ManagerSpec.UpdateCourseNotAtomic`).
- The `Course` constructor stores `fee` without the setter's sign check.
- In `student.ts` the second restriction test fails on the grade, not on its course id: the comment there names the other message (`StudentManagement.TestCourseFailsOnGrade`).

## Model

| member | source | states |
|---|---|---|
| JsText.TrimStart | entities.ts:85 | the result is a suffix with no leading white space, and everything dropped is white space |
| JsText.TrimEnd | entities.ts:85 | the result is a prefix with no trailing white space, and everything dropped is white space |
| JsText.Trim | entities.ts:85 | the result is trimmed, is a slice of the input with only white space cut on both sides, and a trimmed input is its own trim |
| JsText.TrimKeeps | entities.ts:98-99 | a non-space character occurs in the trimmed string exactly when it occurs in the input |
| JsText.LowerChar | entities.ts:98 | an upper-case ASCII letter becomes its lower case, and any other character is unchanged |
| JsText.UpperChar | entities.ts:112 | a lower-case ASCII letter becomes its upper case, and any other character is unchanged |
| JsText.Lower | entities.ts:98 | same length, no capital letter left, every other character in place, and a lower-cased string is its own lower case |
| JsText.LowerKeepsNonLetters | entities.ts:98-99 | lower-casing keeps a string trimmed and keeps `'@'` in it exactly when it was there |
| JsText.PadStart | entities.ts:69 | the length is the larger of the length and the width, the input is the suffix, and the prefix is all fill |
| JsText.NatToString | entities.ts:69 | a non-empty digit string whose value is `n`, with no leading zero except for 0 |
| JsText.IntToString | entities.ts:69 | a minus sign exactly for negatives, and the decimal digits otherwise |
| JsText.DigitRun | entities.ts:91 | the longest digit prefix |
| JsText.ParseInt | entities.ts:91 | NaN exactly when no digit follows the leading white space and the optional sign; the value read is stated by `ParseIntOfIntToString` and `ParseIntReadsPrefix` |
| JsText.ParseIntOfIntToString | entities.ts:91 | `parseInt(String(n)) == n` for every integer |
| JsText.ParseIntReadsPrefix | entities.ts:91 | white space, then `String(n)`, then text that does not start with a digit, reads as `n`: leading white space is skipped and reading stops at the first non-digit |
| JsText.ParseFloatOfNatToString | entities.ts:108 | `parseFloat(String(n)) == n` for every natural number |
| JsText.ParseFloat | entities.ts:108 | no contract of its own: `ParseFloatOfNatToString` states that it reads back `String(n)`, and `Entities.MarksPercent` that `"n%"` reads as `n` |
| JsText.DropLeadingZeros | entities.ts:74 | the result is a suffix with no leading `'0'`, and everything dropped is `'0'` |
| JsArrays.FindIndex | manager.ts:77 | the first index satisfying the predicate, or none exactly when no element does |
| JsArrays.Find | manager.ts:156 | an element satisfying the predicate, found exactly when one exists; it is the first such element of the sequence |
| JsArrays.RemoveAt | manager.ts:103 | the elements before the index, then those after it, and the multiset loses exactly the removed element |
| JsArrays.Without | entities.ts:135 | `x` no longer occurs, every other element keeps its count, and the length drops by the count of `x` |
| JsArrays.WithoutAppend | entities.ts:135 | filtering distributes over concatenation, so the kept elements keep their order |
| Entities.FormatKeyOfNat | entities.ts:68-70 | a number id is the prefix, then at least three digits whose value is the number |
| Entities.ShortIdOfFormatId | entities.ts:73-74 | `shortId` gives back `String(n)` for every non-zero `n` formatted by `formatId`, and `""` for 0 |
| Entities.FormatKey | entities.ts:68-70 | no contract of its own: `FormatKeyOfNat` states the form a number takes |
| Entities.FormatId | entities.ts:68-70 | `FormatKey` with prefix "R-"; `ShortIdOfFormatId` states that `shortId` undoes it |
| Entities.FormatCode | entities.ts:169-171 | `FormatKey` with prefix "C-"; `FormatKeyOfNat` states the form a number takes |
| Entities.ShortId | entities.ts:73-74 | no contract of its own: `ShortIdOfFormatId` and `ShortIdOfPadded` state what it gives back |
| Entities.NameValue | entities.ts:84-88 | accepted exactly when the trim keeps three characters, and the trim is stored |
| Entities.NameSetterIdempotent | entities.ts:84-88 | storing an accepted name again changes nothing |
| Entities.AgeValue | entities.ts:90-95 | a stored age is in 16..100. A number is accepted exactly in [16, 101) and floored, and otherwise gives AgeOutOfRange. A string is read by `parseInt`: with no digit it gives AgeNotNumeric, otherwise the value read is stored exactly when it is in 16..100, and otherwise it gives AgeOutOfRange |
| Entities.AgeTextAgreesWithNumber | entities.ts:90-95 | the text of an integer and the integer give the same age or the same error |
| Entities.EmailValue | entities.ts:97-101 | accepted exactly with an `'@'`, and the stored email is the trimmed lower case, still with `'@'` |
| Entities.EmailSetterIdempotent | entities.ts:97-101 | storing an accepted email again changes nothing |
| Entities.RoundCents | entities.ts:117 | rounding to hundredths keeps 0..100 |
| Entities.RoundCentsNear | entities.ts:117 | the rounding moves a value by at most half a hundredth, fixes whole hundredths, and is idempotent |
| Entities.MarksValue | entities.ts:103-118 | accepted exactly when the number read is in 0..100 (then rounded to hundredths), and otherwise the NaN or range error |
| Entities.MarksSetterIdempotent | entities.ts:103-118 | storing accepted marks again as a number changes nothing |
| Entities.MarksShorthand | entities.ts:109-112 | a one-letter string reads through the letter table, in either case, and 0 for any other letter |
| Entities.LetterMarksTable | entities.ts:111-112 | every table value is in range and already rounded |
| Entities.MarksPercent | entities.ts:108 | `"n%"` reads as `n` |
| Entities.MarksNumber | entities.ts:103-114 | no contract of its own: `MarksShorthand`, `LetterMarksTable` and `MarksPercent` state how text is read |
| Entities.ActiveText | entities.ts:120-126 | the string form is true exactly for the four words in any case, and white space is not trimmed |
| Entities.ActiveValue | entities.ts:120-126 | no contract of its own: `ActiveText` states it |
| Entities.JoinCode | entities.ts:129-132 | the code is present afterwards, a present code changes nothing, it occurs once if it was new, and no repeats are introduced |
| Entities.JoinIdempotent | entities.ts:129-132 | joining twice is joining once |
| Entities.KeyStrings | entities.ts:64 | one string per course key, in order; `KeyStringsReadBack` states what each means |
| Entities.KeyStringsReadBack | entities.ts:64 | each stored string reads back as its key: a number's string parses back to the number, and a string is kept as it is |
| Entities.DefaultStudent | entities.ts:47-54 | the field defaults satisfy the student invariant |
| Entities.PlaceholderEmailNormal | entities.ts:50 | the default email is one the email setter would store |
| Entities.SetActiveAndCourses | entities.ts:62-64 | only `active` and `courses` change, each only when supplied, so the record invariant holds afterwards exactly when it held before |
| Entities.PatchStudent | manager.ts:83-89 | no contract of its own: `PatchStudentName`, `PatchStudentAge`, `PatchStudentEmail`, `PatchStudentMarks` and `PatchStudentRest` state it step by step, and `PatchStudentAccepts` and `PatchStudentOverlays` its outcome |
| Entities.PatchStudentName | entities.ts:84-88 | a rejected name stops the patch unchanged, and an accepted one is stored before the rest |
| Entities.PatchStudentAge | entities.ts:90-95 | the same for the age, once the name is done |
| Entities.PatchStudentEmail | entities.ts:97-101 | the same for the email, once name and age are done |
| Entities.PatchStudentMarks | entities.ts:103-118 | the same for the marks, once the earlier fields are done |
| Entities.PatchStudentRest | entities.ts:120-126 | after the throwing setters, only `active` and `courses` are applied, and nothing fails |
| Entities.PatchStudentAccepts | manager.ts:83-89 | the patch keeps the id and succeeds exactly when every supplied field passes its setter |
| Entities.PatchStudentOverlays | manager.ts:83-89 | a successful patch is the overlay of the accepted values |
| Entities.OverlayName | manager.ts:84 | storing the name first and overlaying the rest is the whole overlay |
| Entities.OverlayAge | manager.ts:85 | storing the age first and overlaying the rest is the whole overlay |
| Entities.OverlayEmail | manager.ts:86 | storing the email first and overlaying the rest is the whole overlay |
| Entities.OverlayMarks | manager.ts:87 | storing the marks first and overlaying the rest is the whole overlay |
| Entities.PatchStudentKeepsInvariant | manager.ts:83-89 | a valid record stays valid however far the patch gets |
| Entities.PatchStudentNotAtomic | manager.ts:83-92 | an accepted name followed by a rejected age leaves the new name stored, with the age error |
| Entities.CreateStudent | entities.ts:56-65 | construction succeeds exactly when every supplied setter accepts, and then yields a valid record overlaid on the defaults with the formatted id |
| Entities.CreateStudentDefaults | entities.ts:47-65 | a payload with only id and name gets age 18, the placeholder email, marks 0, active, and no courses |
| Entities.NameKeepsInvariant | entities.ts:84-88 | an accepted name keeps the student invariant |
| Entities.AgeKeepsInvariant | entities.ts:90-95 | an accepted age keeps the student invariant |
| Entities.EmailKeepsInvariant | entities.ts:97-101 | an accepted email keeps the student invariant |
| Entities.MarksKeepsInvariant | entities.ts:103-118 | accepted marks keep the student invariant |
| Entities.Student.ToObject | entities.ts:138-149 | the snapshot of a valid student satisfies the invariant and carries its id and courses |
| Entities.Student.Init | entities.ts:47-54 | a fresh student holds the field defaults and is valid |
| Entities.Student.SetName | entities.ts:84-88 | returns the setter's outcome, changes only the name, to the accepted value, and keeps the object valid |
| Entities.Student.SetAge | entities.ts:90-95 | returns the setter's outcome, changes only the age, to the accepted value, and keeps the object valid |
| Entities.Student.SetEmail | entities.ts:97-101 | returns the setter's outcome, changes only the email, to the accepted value, and keeps the object valid |
| Entities.Student.SetMarks | entities.ts:103-118 | returns the setter's outcome, changes only the marks, to the accepted value, and keeps the object valid |
| Entities.Student.SetActive | entities.ts:120-126 | changes only `active`, to the parsed flag |
| Entities.Student.Join | entities.ts:129-132 | changes only the course list, as `JoinCode` of `String(code)` |
| Entities.Student.Leave | entities.ts:133-136 | changes only the course list, to its filter without `String(code)` |
| Entities.Student.ApplyName | manager.ts:84 | one step of the patch: a failure ends in the state and error of the whole patch, and a success leaves the rest of the patch to apply |
| Entities.Student.ApplyAge | manager.ts:85 | the same step for the age |
| Entities.Student.ApplyEmail | manager.ts:86 | the same step for the email |
| Entities.Student.ApplyMarks | manager.ts:87 | the same step for the marks |
| Entities.Student.Update | manager.ts:83-89 | the new state and the outcome are those of `PatchStudent`, and the object stays valid |
| Entities.Student.New | entities.ts:56-65 | a fresh valid student holding `CreateStudent`'s record, or that function's error |
| Entities.TitleValue | entities.ts:180-184 | accepted exactly when the trim keeps three characters, and the trim is stored |
| Entities.SeatsValue | entities.ts:186-190 | accepted exactly for a positive integer not below the enrolled count, and stored as given. A fraction or a number not above 0 gives SeatsNotPositiveInteger; fewer seats than enrolled give SeatsBelowEnrolled |
| Entities.FeeValue | entities.ts:193-196 | accepted exactly when absent or non-negative, and stored as given; a negative fee gives NegativeFee |
| Entities.AddOneSpec | entities.ts:198-201 | succeeds exactly with a free seat, adds one enrolment, and keeps the course invariant |
| Entities.RemoveOneSpec | entities.ts:202-205 | succeeds exactly with someone enrolled, removes one enrolment, and keeps the course invariant |
| Entities.CreateCourse | entities.ts:161-167 | succeeds exactly when title and seats are accepted, with no one enrolled, the formatted code, and the fee unchecked |
| Entities.PatchCourse | manager.ts:127-131 | code and enrolment never change, and absent fields keep their value. Success exactly when every supplied field is accepted, and then each supplied value is stored. The course invariant is kept. The state and error on failure are stated by `PatchCourseTitleFails`, `PatchCourseSeatsFail` and `PatchCourseFeeFails` |
| Entities.PatchCourseTitleFails | manager.ts:128 | a rejected title stops the patch with nothing stored and TitleTooShort |
| Entities.PatchCourseSeatsFail | manager.ts:128-129 | rejected seats stop the patch with the seats error, and the accepted title, if any, is already stored |
| Entities.PatchCourseFeeFails | manager.ts:128-131 | a negative fee stops the patch with NegativeFee, and title, seats and category are already stored |
| Entities.PatchCourseNotAtomic | manager.ts:128-129 | an accepted title followed by seats of 0.5 leaves the new title stored, with SeatsNotPositiveInteger |
| Entities.Course.ToObject | entities.ts:207-216 | the snapshot of a valid course satisfies the invariant |
| Entities.Course.Init | entities.ts:154-159 | a fresh course holds the field defaults and is valid |
| Entities.Course.SetTitle | entities.ts:180-184 | returns the setter's outcome, changes only the title, to the accepted value, and keeps the object valid |
| Entities.Course.SetSeats | entities.ts:186-190 | returns the setter's outcome, changes only the seats, to the accepted value, and keeps the object valid |
| Entities.Course.SetCategory | entities.ts:192 | changes only the category |
| Entities.Course.SetFee | entities.ts:193-196 | returns the setter's outcome, changes only the fee, to the accepted value, and keeps the object valid |
| Entities.Course.AddOne | entities.ts:198-201 | the new state and the outcome are those of `AddOneSpec` |
| Entities.Course.RemoveOne | entities.ts:202-205 | the new state and the outcome are those of `RemoveOneSpec` |
| Entities.Course.Update | manager.ts:127-131 | the new state and the outcome are those of `PatchCourse` |
| Entities.Course.New | entities.ts:161-167 | a fresh valid course holding `CreateCourse`'s record, or that function's error |
| Management.Manager.GetAllStudents | manager.ts:15 | one snapshot per student object, in order; `SnapshotsKeepInvariants` states that in a valid store each one satisfies the student invariant |
| Management.Manager.GetAllCourses | manager.ts:16 | one snapshot per course object, in order; `SnapshotsKeepInvariants` states that in a valid store each one satisfies the course invariant |
| Management.Manager.SnapshotsKeepInvariants | manager.ts:15-16 | in a valid store every student snapshot satisfies the student invariant and every course snapshot the course invariant |
| Management.Manager.constructor | manager.ts:32-36 | an empty, unlocked store, with name and capacity defaulting to "Local Place" and 50 |
| Management.Manager.Lock | manager.ts:57 | sets the lock and changes nothing else |
| Management.Manager.Unlock | manager.ts:58 | clears the lock and changes nothing else |
| Management.Manager.IsLocked | manager.ts:59 | reports the lock |
| Management.Manager.AddStudent | manager.ts:62-73 | fails exactly as `AddStudentSpec` does and then stores nothing; on success it appends one fresh student holding that function's record |
| Management.Manager.Admit | manager.ts:70-71 | constructs the student and appends it, or fails with the constructor's error |
| Management.Manager.PushStudent | manager.ts:71 | appends the object and its snapshot |
| Management.Manager.UpdateStudent | manager.ts:75-94 | the new records and the result are those of `UpdateStudentSpec` |
| Management.Manager.UpdateAt | manager.ts:83-92 | only record `i` changes, as `PatchStudent` says |
| Management.Manager.DeleteStudent | manager.ts:96-105 | fails exactly as `DeleteStudentSpec` does and then keeps the list; on success it splices out the found student |
| Management.Manager.RemoveStudentAt | manager.ts:103 | splices out the object at `i` and its snapshot |
| Management.Manager.GetStudent | manager.ts:107-109 | the record `GetStudentSpec` finds |
| Management.Manager.AddCourse | manager.ts:112-120 | fails exactly as `AddCourseSpec` does and then stores nothing; on success it appends one fresh course holding that function's record |
| Management.Manager.AdmitCourse | manager.ts:117-118 | constructs the course and appends it, or fails with the constructor's error |
| Management.Manager.PushCourse | manager.ts:118 | appends the object and its snapshot |
| Management.Manager.UpdateCourse | manager.ts:122-136 | the new records and the result are those of `UpdateCourseSpec` |
| Management.Manager.UpdateCourseAt | manager.ts:127-134 | only record `i` changes, as `PatchCourse` says |
| Management.Manager.DeleteCourse | manager.ts:138-147 | the outcome and the records are those of `DeleteCourseSpec`, and on success the found course is spliced out |
| Management.Manager.RemoveCourseAt | manager.ts:145 | splices out the object at `i` and its snapshot |
| Management.Manager.GetCourse | manager.ts:149-151 | the record `GetCourseSpec` finds |
| Management.Manager.Enroll | manager.ts:154-164 | the outcome and both record lists are those of `EnrollSpec` |
| Management.Manager.EnrollAt | manager.ts:162-163 | a full course changes nothing; otherwise one seat is taken and the code joins the student's list |
| Management.Manager.AddOneAt | manager.ts:162 | only course `ci` changes, as `AddOneSpec` says |
| Management.Manager.JoinAt | manager.ts:163 | only student `si`'s course list changes, as `JoinCode` says |
| Management.Manager.Unenroll | manager.ts:166-172 | the outcome and both record lists are those of `UnenrollSpec` |
| Management.Manager.UnenrollAt | manager.ts:170-171 | the code leaves the student's list even when `removeOne` then throws |
| Management.Manager.LeaveAt | manager.ts:170 | only student `si`'s course list changes, filtered |
| Management.Manager.RemoveOneAt | manager.ts:171 | only course `ci` changes, as `RemoveOneSpec` says |
| Management.Manager.Validate | manager.ts:42-55 | true exactly when no email and no course code repeats |
| Management.Manager.BuildEnrollList | manager.ts:175-183 | the object `EnrollList` describes |
| Management.Manager.Stats | manager.ts:186-197 | the count, averages and split `StatsSpec` describes |
| Management.NoRepeats | manager.ts:44-48 | true exactly when the list has no repeats |
| Management.EmptyLists | manager.ts:177 | one empty list per course code |
| Management.PushNames | manager.ts:178-181 | one student's name is pushed once per occurrence of each of its codes |
| Management.PushName | manager.ts:179-180 | one code's list gets the name, and a missing list is created empty first |
| Management.PushNamesStep | manager.ts:178-181 | after student `i` the object holds the names of the first `i + 1` students |
| Management.EnrollListAgrees | manager.ts:175-183 | an object with those keys and lists is `EnrollList` |
| Management.SplitOf | manager.ts:191-195 | the split `Split` describes |
| ManagerSpec.Ids | manager.ts:67 | the ids, in order; `InStudentLists`, `StudentListsAppend` and `StudentListsRemoveAt` state what membership means and how the list follows the store |
| ManagerSpec.Emails | manager.ts:68 | the emails, in order; `InStudentLists`, `StudentListsAppend` and `StudentListsRemoveAt` state what membership means and how the list follows the store |
| ManagerSpec.Codes | manager.ts:115 | the course codes, in order; `InCodes` and `CodesFollowStore` state what membership means and how the list follows the store |
| ManagerSpec.ShortIds | manager.ts:67 | the short ids, in order; `InStudentLists`, `StudentListsAppend` and `StudentListsRemoveAt` state what membership means and how the list follows the store |
| ManagerSpec.InStudentLists | manager.ts:67-68 | a string is among the ids, emails or short ids exactly when some stored student carries it |
| ManagerSpec.InCodes | manager.ts:115 | a code is among the codes exactly when some stored course carries it |
| ManagerSpec.StudentListsAppend | manager.ts:71 | appending a student appends its id, email and short id |
| ManagerSpec.StudentListsRemoveAt | manager.ts:103 | removing the student at `i` removes entry `i` from each list |
| ManagerSpec.CodesFollowStore | manager.ts:118-145 | the codes follow the course list when a course is appended or removed |
| ManagerSpec.AddStudentSpec | manager.ts:62-73 | accepts exactly when unlocked, below capacity, the id and short id free, the lower-cased email not stored, and the payload constructible. The guards are tried in that order, and the new record is the constructed one |
| ManagerSpec.IdTaken | manager.ts:66-67 | no contract of its own: `AddStudentSpec` states that it is the duplicate-id guard, and `AddStudentKeepsIdsDistinct` that passing it keeps the ids distinct |
| ManagerSpec.EmailClash | manager.ts:68 | no contract of its own: the raw lower-cased email against the stored ones; `AddStudentSpec` and `UpdateStudentOverlays` state it as the email guards, and `PaddedEmailPassesGuard` that a padded email never clashes |
| ManagerSpec.AddStudentKeepsIdsDistinct | manager.ts:66-71 | an accepted student keeps the stored ids distinct |
| ManagerSpec.AddStudentKeepsTrimmedEmailsDistinct | manager.ts:68-71 | with an already trimmed email, an accepted student keeps the emails distinct |
| ManagerSpec.AddStudentStoredEmail | manager.ts:68-70 | an accepted email passed the guard untrimmed and is stored trimmed and lower-cased |
| ManagerSpec.CreateStudentEmail | entities.ts:60 | a constructed student holds the email setter's value |
| ManagerSpec.AddStudentAdmitsPaddedEmail | manager.ts:68 | a stored email with a leading space is accepted and then stored twice |
| ManagerSpec.PaddedEmailPassesGuard | manager.ts:68 | a padded email never equals a stored (trimmed) one |
| ManagerSpec.PaddedEmailStored | entities.ts:97-101 | the setter strips the padding |
| ManagerSpec.AppendFreshEmail | manager.ts:71 | appending a new email keeps the emails distinct |
| ManagerSpec.UpdateStudentSpec | manager.ts:75-94 | an unknown id changes nothing; only the found record may change; a guard failure changes nothing; the result is the stored record; valid records stay valid |
| ManagerSpec.UpdateStudentOverlays | manager.ts:81-93 | a successful update passes every setter, no other student holds the email, and the found record becomes the overlay |
| ManagerSpec.UpdateStudentNotAtomic | manager.ts:83-92 | a rejected age after an accepted name reports the failure and keeps the new name |
| ManagerSpec.DeleteStudentSpec | manager.ts:96-105 | a successful delete removes one record |
| ManagerSpec.DeleteStudentRemovesOne | manager.ts:96-105 | succeeds exactly when unlocked and the first match has no courses, and then removes exactly that first match |
| ManagerSpec.GetStudentSpec | manager.ts:107-109 | found exactly when some record matches, and then it is the first match |
| ManagerSpec.LookupId | manager.ts:76 | no contract of its own: a number is formatted, a string is taken as given; `FindsByNumber` states that a formatted id is found by the number and, for a non-zero number, by its text |
| ManagerSpec.MatchesStudent | manager.ts:77 | no contract of its own: the id or the short id; `GetStudentSpec` and `DeleteStudentRemovesOne` state the first match it selects |
| ManagerSpec.GetStudentFindsAdded | manager.ts:66-72 | a student added under number `n` is found by `n` and, for `n != 0`, by `String(n)` |
| ManagerSpec.FindsByNumber | manager.ts:107-109 | a record with the formatted id is found by the number and its text |
| ManagerSpec.AddCourseSpec | manager.ts:112-120 | accepts exactly when unlocked, the code new, seats positive and the payload constructible, with the guards in order |
| ManagerSpec.AddCourseKeepsCodesDistinct | manager.ts:114-118 | an accepted course keeps the codes distinct |
| ManagerSpec.AddCourseFractionalSeats | manager.ts:116-117 | half a seat passes the manager's guard and the constructor then rejects it |
| ManagerSpec.UpdateCourseSpec | manager.ts:122-136 | an unknown code changes nothing; only the found record may change; codes and enrolments never change; valid courses stay valid; `UpdateCoursePatches` states what happens to the found record |
| ManagerSpec.UpdateCoursePatches | manager.ts:122-136 | the found course becomes its patched form. The call succeeds with that course exactly when every setter accepted its value, and otherwise reports the first setter's error as CourseUpdateFailed |
| ManagerSpec.UpdateCourseNotAtomic | manager.ts:127-133 | an accepted title followed by seats of 0.5 fails with CourseUpdateFailed(SeatsNotPositiveInteger), and the store keeps the new title |
| ManagerSpec.DeleteCourseSpec | manager.ts:138-147 | a successful delete removes one record |
| ManagerSpec.DeleteCourseGuard | manager.ts:138-147 | succeeds exactly when unlocked and the first match has nobody enrolled, and then removes exactly that match |
| ManagerSpec.GetCourseSpec | manager.ts:149-151 | found exactly when the looked-up code is stored, and then the record has that code |
| ManagerSpec.CodeInCodes | manager.ts:150 | the code is stored exactly when some course matches it |
| ManagerSpec.LookupCode | manager.ts:123 | no contract of its own: a number is formatted, a string is taken as given; `CodeInCodes` states the lookup |
| ManagerSpec.MatchesCourse | manager.ts:150 | no contract of its own: the looked-up code only; `CodeInCodes` and `CourseLookupsCompared` state it |
| ManagerSpec.MatchesCourseLoosely | manager.ts:124 | no contract of its own: the looked-up code or `String(code)`; `CourseLookupsCompared` states how it differs from `MatchesCourse` |
| ManagerSpec.CourseLookupsCompared | manager.ts:124 | a `getCourse` match is an `updateCourse` match, the two agree on a string key, and a number key also finds a course whose code is the number's text, which only the loose lookup does |
| ManagerSpec.EnrollSpec | manager.ts:154-164 | a successful enrolment keeps both list lengths |
| ManagerSpec.EnrollEffect | manager.ts:154-164 | success needs an unlocked store and an active student; one seat is taken, the code joins that student's list (once, if it had no repeats), and nothing else changes |
| ManagerSpec.EnrollTwiceCountsTwice | manager.ts:162-163 | enrolling twice takes two seats but lists the code once |
| ManagerSpec.SameIndexAfterUpdate | manager.ts:156 | replacing a record with one of the same id keeps the student lookup |
| ManagerSpec.SameCourseIndexAfterUpdate | manager.ts:157 | replacing a record with one of the same code keeps the course lookup |
| ManagerSpec.UnenrollSpec | manager.ts:166-172 | a missing student or course changes nothing |
| ManagerSpec.UnenrollEffect | manager.ts:166-172 | the code always leaves the list; the seat is freed exactly when someone was enrolled, and otherwise the error is reported with the courses unchanged |
| ManagerSpec.LeaveUndoesJoin | entities.ts:129-136 | leaving a newly joined code restores the list |
| ManagerSpec.WithoutAbsent | entities.ts:135 | filtering out an absent code changes nothing |
| ManagerSpec.CountAtMostOne | entities.ts:131 | a list without repeats holds a code at most once |
| ManagerSpec.NamesUnderOnce | manager.ts:178-181 | with join-built (repeat-free) lists, a code's names are those of the students listing it, in order |
| ManagerSpec.EnrollList | manager.ts:175-183 | the keys are the course codes and the joined codes, each holding the names under it |
| ManagerSpec.BucketCount | manager.ts:193 | at most the number of students |
| ManagerSpec.Split | manager.ts:191-195 | each present bucket holds its positive count |
| ManagerSpec.BucketsPartition | manager.ts:193 | the four buckets count every student once, and nothing else is counted |
| ManagerSpec.SumBounds | manager.ts:189-190 | the sums of valid students lie between the per-student bounds |
| ManagerSpec.StatsSpec | manager.ts:186-197 | no contract of its own: `StatsBounds` states the averages and the split |
| ManagerSpec.StatsBounds | manager.ts:186-197 | averages exist exactly for a non-empty store and lie in 16..100 and 0..100; the split holds only A-D |
| ManagerSpec.DivBounds | manager.ts:189-190 | a sum within bounds divides into an average within them |
| ManagerSpec.NamesUnderStep | manager.ts:178-181 | one student more appends its names |
| ManagerSpec.NamesUnderAbsent | manager.ts:179 | a code nobody joined has no names |
| ManagerSpec.JoinedCodesStep | manager.ts:178 | one student more adds its codes |
| ManagerSpec.CountStep | manager.ts:178 | one code more counts once more |
| ManagerSpec.BucketIsLetter | manager.ts:193 | the bucket is one of A-D |
| ManagerSpec.Bucket | manager.ts:193 | no contract of its own: `BucketIsLetter` states it is one of A-D, and `SplitStep` that each student adds one to it |
| ManagerSpec.SplitStep | manager.ts:192-195 | one student more adds one to its bucket |
| ManagerSpec.SplitKeyStep | manager.ts:194 | the same, key by key |
| ManagerSpec.BucketCountStep | manager.ts:194 | one student more adds one to its bucket's count |
| StudentManagement.FormatGrade | student.ts:114-120 | one of A-F, and F exactly below 60 |
| StudentManagement.GradeToGpa | student.ts:122-128 | in 0..4, and 0 exactly below 60 |
| StudentManagement.GradeBandsAgree | student.ts:114-128 | the grade points are what the letter is worth |
| StudentManagement.GradeToGpaMonotone | student.ts:114-128 | a higher grade never earns fewer points or a worse letter |
| StudentManagement.StatusOf | student.ts:226-227 | PASSING exactly from 60 |
| StudentManagement.PassingIsNotF | student.ts:114-128 | passing is exactly not F, and exactly earning points |
| StudentManagement.StudentById | student.ts:134-136 | found exactly when some student has the id, and then it is the first one |
| StudentManagement.IndexOfId | student.ts:286-287 | no contract of its own: the `findIndex` by id; `UpdateOverlays` and `DeleteRemovesOne` state the first match it selects |
| StudentManagement.ValidateData | student.ts:338-340 | no contract of its own: `IsDataValid` states when it is false, and `AdmissibleValidates` that admissible students pass it |
| StudentManagement.Ids | student.ts:277 | the ids, in order |
| StudentManagement.AverageGrade | student.ts:320-324 | 0 without courses, and otherwise the mean: times the count it is the sum |
| StudentManagement.CourseStatus | student.ts:223-231 | a key per course id and no other, each PASSING or FAILING |
| StudentManagement.CourseStatusStep | student.ts:225-228 | one course more keeps the three facts |
| StudentManagement.ParseScale | student.ts:171-177 | accepts exactly the three names, and the name of the result is the input |
| StudentManagement.ScaleNameParses | student.ts:171-181 | the getter's name parses back to the scale |
| StudentManagement.StudentManager.Empty | student.ts:149-153 | a store with no records, no current student, the numeric scale and a limit of 50 |
| StudentManagement.StudentManager.WithStudents | student.ts:149-153 | the same, holding the given students unchecked |
| StudentManagement.StudentManager.WithStudentsAndCourses | student.ts:149-153 | the same, holding the given students and courses unchecked |
| StudentManagement.StudentManager.GetGradeScale | student.ts:179-181 | a name the setter accepts and maps back to the scale held |
| StudentManagement.StudentManager.GetStudentById | student.ts:134-136 | found exactly when a student held has the id, and then it has it |
| StudentManagement.StudentManager.GetAverageGrade | student.ts:320-324 | 0 without courses, and otherwise the mean of the grades held |
| StudentManagement.StudentManager.AverageLetterGrade | student.ts:326-328 | the letter's points are `averageGPA`, and F exactly when the mean is below 60 |
| StudentManagement.StudentManager.AverageGpa | student.ts:330-332 | in 0..4, and 0 exactly when the mean is below 60 |
| StudentManagement.StudentManager.GetCourseStatus | student.ts:223-231 | a status for every course id held and only those |
| StudentManagement.StudentManager.IsDataValid | student.ts:338-340 | false exactly when some student held is under 16 or has no `'@'` in the email; so true whenever every student passes the `currentStudent` checks |
| StudentManagement.StudentManager.SetGradeScale | student.ts:171-177 | the outcome and new state of `SetGradeScaleSpec`, and nothing changes on failure |
| StudentManagement.StudentManager.SetCurrentStudent | student.ts:250-263 | the outcome and new state of `SetCurrentSpec`, and nothing changes on failure |
| StudentManagement.StudentManager.SetMaxStudents | student.ts:265-270 | the outcome and new state of `SetMaxSpec`, and nothing changes on failure |
| StudentManagement.StudentManager.AddStudent | student.ts:273-282 | the outcome and new state of `AddStudentSpec`, and nothing changes on failure |
| StudentManagement.StudentManager.UpdateStudent | student.ts:285-295 | the result and new state of `UpdateStudentSpec`, and nothing changes on failure |
| StudentManagement.StudentManager.DeleteStudent | student.ts:298-303 | the result and new state of `DeleteStudentSpec` |
| StudentManagement.StudentManager.AddCourse | student.ts:306-314 | the outcome and new state of `AddCourseSpec`, and nothing changes on failure |
| StudentManagement.CheckStudent | student.ts:250-263 | passes exactly for an age in 16..100, an '@' in the email and a trimmed name of at least two characters; the age is checked first, then the email |
| StudentManagement.CheckCourse | student.ts:306-311 | passes exactly for a grade in 0..100 and an id that starts with two capitals; the grade is checked first |
| StudentManagement.CourseIdFormat | student.ts:310 | no contract of its own: two upper-case ASCII letters first; `CheckCourse` and `AddCourseCases` state it as the second check |
| StudentManagement.SetGradeScaleSpec | student.ts:171-177 | no contract of its own: `SetGradeScaleCases` states it |
| StudentManagement.SetCurrentSpec | student.ts:250-263 | no contract of its own: `SetCurrentCases` states it |
| StudentManagement.SetCurrentCases | student.ts:250-263 | `null` is stored unchecked and a student exactly when it passes the checks; a refused student leaves the store as it was, with the first failing check's error |
| StudentManagement.SetMaxSpec | student.ts:265-270 | no contract of its own: `SetMaxCases` states it |
| StudentManagement.AddStudentSpec | student.ts:273-282 | no contract of its own: `AddStudentCases` and `AddStudentCapacityFirst` state it |
| StudentManagement.UpdateStudentSpec | student.ts:285-295 | no contract of its own: `UpdateUnknownIsNoOp`, `UpdateRefusesNewId`, `UpdateOverlays` and `UpdateFailureWritesNothing` state it |
| StudentManagement.DeleteStudentSpec | student.ts:298-303 | no contract of its own: `DeleteRemovesOne` states it |
| StudentManagement.AddCourseSpec | student.ts:306-314 | no contract of its own: `AddCourseCases` states it |
| StudentManagement.AddStudentCases | student.ts:273-282 | succeeds exactly below the limit with a new id and an admissible record, which is then appended and made current |
| StudentManagement.AddStudentCapacityFirst | student.ts:274-276 | a full store reports the capacity whatever the record |
| StudentManagement.UpdateUnknownIsNoOp | student.ts:286-287 | an unknown id returns false and changes nothing |
| StudentManagement.UpdateRefusesNewId | student.ts:288-290 | a known student's id cannot be changed |
| StudentManagement.UpdateOverlays | student.ts:291-294 | a successful update replaces the first match by the overlay, keeps its id and absent fields, and makes it current |
| StudentManagement.UpdateFailureWritesNothing | student.ts:285-295 | a failure needs a known id, and is the id rule or a `currentStudent` check |
| StudentManagement.DeleteRemovesOne | student.ts:298-303 | true exactly for a known id, and then exactly the first match is spliced out; otherwise nothing changes |
| StudentManagement.AddCourseCases | student.ts:306-314 | accepted exactly for a grade in 0..100 and a two-capital id, with the grade checked first, and then appended |
| StudentManagement.TestCourseFailsOnGrade | student.ts:437-440 | the demo course fails on its grade, and with a legal grade it would fail on its id |
| StudentManagement.TestStudentFailsOnAge | student.ts:431-435 | the demo student of age 10 fails on its age |
| StudentManagement.SetMaxCases | student.ts:265-270 | accepted exactly from the current count, and then stored |
| StudentManagement.SetGradeScaleCases | student.ts:171-177 | accepted exactly for the three names, and then the getter reports it |
| StudentManagement.CourseStatusLastWins | student.ts:225-229 | the last course with an id decides its status |
| StudentManagement.CourseStatusPassing | student.ts:226-228 | that status is PASSING exactly when its grade is at least 60 |
| StudentManagement.SumGradesBounds | student.ts:322 | grades within bounds sum within the count times those bounds |
| StudentManagement.AverageWithinBounds | student.ts:320-324 | the mean of grades within bounds lies within them |
| StudentManagement.DemoAverages | student.ts:375-418 | the demo courses average 85, letter B, GPA 3.0, all passing |
| StudentManagement.AdmissibleValidates | student.ts:338-340 | admissible students pass `validateData` |
| StudentManagement.InitialHealthy | student.ts:149-153 | a constructor given healthy arrays gives a healthy store |
| StudentManagement.EmptyHealthy | student.ts:149-153 | the empty store is healthy |
| StudentManagement.AppendKeepsStudents | student.ts:281 | appending an admissible student with a new id keeps ids unique and everyone admissible |
| StudentManagement.AddStudentKeepsHealthy | student.ts:273-282 | `addStudent` keeps the store healthy |
| StudentManagement.SetCurrentKeepsHealthy | student.ts:250-263 | the `currentStudent` setter keeps it healthy |
| StudentManagement.SetMaxKeepsHealthy | student.ts:265-270 | the `maxStudents` setter keeps it healthy |
| StudentManagement.SetGradeScaleKeepsHealthy | student.ts:171-177 | the `gradeScale` setter keeps it healthy |
| StudentManagement.ReplaceKeepsStudents | student.ts:293 | replacing a student by an admissible one with the same id keeps the students healthy |
| StudentManagement.ReplaceKeepsIds | student.ts:293 | replacing a student by one with the same id keeps ids unique |
| StudentManagement.UpdateKeepsHealthy | student.ts:285-295 | `updateStudent` keeps the store healthy |
| StudentManagement.RemoveKeepsStudents | student.ts:301 | splicing keeps the students healthy and removes the id |
| StudentManagement.DeleteKeepsHealthy | student.ts:298-303 | `deleteStudent` keeps the store healthy, and the id is gone afterwards |
| StudentManagement.AddCourseKeepsHealthy | student.ts:306-314 | `addCourse` keeps the store healthy |
| StudentManagement.HealthyAverageInRange | student.ts:320-324 | a healthy store's average grade is in 0..100 |
| DataHandlers.FlagsOf | Jest.ts:168-170 | one 0/1 per element, 1 exactly for a truthy `a`, failing exactly on `null`/`undefined` elements |
| DataHandlers.NonZerosOf | Jest.ts:172-174 | one flag per element, true exactly when `b` is not 0, failing exactly on `null`/`undefined` elements |
| DataHandlers.Field | Jest.ts:169 | no contract of its own: `el.a` / `el.b`; `FlagsOf` and `NonZerosOf` state that it throws exactly on `null` and `undefined` |
| DataHandlers.Truthy | Jest.ts:169 | no contract of its own: `FlagsOf` and `ConversionsOnTypedElements` state it |
| DataHandlers.Handler.A | Jest.ts:55-59 | `BaseClass`'s id, key and initial object |
| DataHandlers.Handler.B | Jest.ts:146-155 | the same id and key, with `B`'s four fields set |
| DataHandlers.Handler.SetObjField | Jest.ts:81-83 | one property written, id and key unchanged |
| DataHandlers.Handler.Create | Jest.ts:101-104 | the object becomes `CreateSpec`'s |
| DataHandlers.Handler.Update | Jest.ts:110-115 | the object becomes `UpdateSpec`'s |
| DataHandlers.Handler.Delete | Jest.ts:117-122 | the object becomes `DeleteSpec`'s |
| DataHandlers.Handler.Add | Jest.ts:124-126 | the outcome and object of `AddSpec`, and nothing changes on failure |
| DataHandlers.Handler.Remove | Jest.ts:128-133 | the outcome and object of `RemoveSpec`, and nothing changes on failure |
| DataHandlers.Handler.UpdateItem | Jest.ts:135-140 | the outcome and object of `UpdateItemSpec`, and nothing changes on failure |
| DataHandlers.CreateSpec | Jest.ts:101-104 | no contract of its own: `CreateStores` states it |
| DataHandlers.CreateKey | Jest.ts:102 | no contract of its own: `CreateStores` states where the value lands, and `CreateAfterDeleteOverwrites` the collision after a delete |
| DataHandlers.HasKey | Jest.ts:112 | no contract of its own: `key in obj`, inherited names included; `UpdateCases` and `DeleteCases` state it |
| DataHandlers.UpdateSpec | Jest.ts:110-115 | no contract of its own: `UpdateCases` states it |
| DataHandlers.DeleteSpec | Jest.ts:117-122 | no contract of its own: `DeleteCases` states it |
| DataHandlers.AddSpec | Jest.ts:124-126 | no contract of its own: `AddAppends` states it |
| DataHandlers.RemoveSpec | Jest.ts:128-133 | no contract of its own: `RemoveCases` states it on arrays and `BooleanLength` off them |
| DataHandlers.LengthOf | Jest.ts:130 | no contract of its own: `arr.length` as `<` reads it; `RemoveCases`, `UpdateItemCases` and `BooleanLength` state it |
| DataHandlers.InBounds | Jest.ts:130 | no contract of its own: `RemoveCases` and `UpdateItemCases` state it on arrays, `BooleanLength` off them |
| DataHandlers.UpdateItemSpec | Jest.ts:135-140 | no contract of its own: `UpdateItemCases` states it on arrays and `BooleanLength` off them |
| DataHandlers.CreateStores | Jest.ts:101-104 | the value lands under `key_` plus the property count, and the rest is kept; the object grows unless that key existed |
| DataHandlers.UpdateCases | Jest.ts:110-115 | writes exactly when `key in obj` (inherited names included), and touches nothing else |
| DataHandlers.DeleteCases | Jest.ts:117-122 | the own property is gone, and an absent one changes nothing |
| DataHandlers.CreateAfterDeleteOverwrites | Jest.ts:101-122 | after deleting `key_4`, the next `create` writes over `key_5` and the object does not grow |
| DataHandlers.PerformCrudResult | Jest.ts:196-202 | `performCRUD` leaves `B`'s object with `key_4`, `key_5` and the new `b`; deleting `key_0` does nothing |
| DataHandlers.AddAppends | Jest.ts:124-126 | succeeds exactly on an array, appends the item, and touches nothing else |
| DataHandlers.RemoveCases | Jest.ts:128-133 | on an array: out of bounds changes nothing, and in bounds splices the index out |
| DataHandlers.UpdateItemCases | Jest.ts:135-140 | on an array: out of bounds changes nothing, and in bounds replaces exactly that element |
| DataHandlers.BooleanLength | Jest.ts:128-140 | on an object whose `length` is `true`, index 0 is in bounds: `remove` throws and `updateItem` writes property "0"; index 1 changes nothing |
| DataHandlers.ArrayOpsFailOnlyOffArrays | Jest.ts:124-140 | on an array the three operations never throw |
| DataHandlers.BooleansToNumbers | Jest.ts:168-170 | only an array can be converted, and then into one number per element; `FlagsOf` and `ConversionsOnTypedElements` state the values |
| DataHandlers.NumbersToBooleans | Jest.ts:172-174 | only an array can be converted, and then into one boolean per element; `NonZerosOf` and `ConversionsOnTypedElements` state the values |
| DataHandlers.ConversionsOnTypedElements | Jest.ts:168-174 | on typed elements the conversions give 1 for a true `a`, and true for a non-zero `b` |
| DataHandlers.PerformArrayOpsResult | Jest.ts:204-209 | `performArrayOps` on `B` leaves `[modified, added]` |
| DataHandlers.AddReplaceRemove | Jest.ts:205-207 | on any two-element array the same three steps leave `[modified, added]` |
| DataHandlers.BConversions | Jest.ts:211-216 | on `B`'s elements the conversions give `[1, 0]` and `[true, true]` |

## Left out

- `joined` and `Date`, `console` output, `display`, `displayInfo`, `displayGrades`, `toLocaleString` and `toFixed`: output formatting and clocks, which the model has no use for.
- `cgpa10`: a derived getter that no operation in these files reads.
- `getAllStudents` and `getCourses` copies in `student.ts`: the model's sequences are values, so a copy is the same value.
- `studentMap`, `studentSummary`, `emailDomains`, `studentInitials`, `gradeStatistics` and `ReportGenerator`: presentation views over the same arrays.
- Jest.ts `setA`, `setB`, `getId`, `getKey`, `setId`, `setKey`, `read` and `getState`: no operation in these files calls them. `read` returns the object itself, which is the `obj` field.
- The NestJS service and controller around class `C`, and `index.ts`: framework wiring, not program logic.
- Aliasing: `addStudent`/`addCourse` in `manager.ts` return the stored object, and `StudentManager` keeps the arrays its constructor is given. The model does not follow writes made through those references by other code.
- Numbers are exact: integers are unbounded and decimals are exact reals, so floating-point rounding, `NaN` inputs and `Infinity` are not modelled.
- Entities.RoundCents: `Math.round(m * 100) / 100` is computed on exact reals, not on IEEE doubles.
- JsText.ParseFloat: reads the leading white space, an optional sign, digits and one fractional part. Exponents such as `1e5` and the word `Infinity` are not read.
- JsText.Lower: maps the ASCII letters only; the Unicode case mapping of other letters is not modelled.
- Ids, indices, capacities and `maxStudents` are integers; fractional values of those parameters are not modelled.
- String lengths count characters, not UTF-16 code units.
- DataHandlers.LengthOf: `<` converts a `length` that is not a number. The model converts `true`, `false` and `null`. A string or an array as `length`, which `<` would read as a number, counts as NaN instead. So `remove` on such an object returns without the TypeError that JavaScript throws, and `updateItem` skips the write of property `index` that JavaScript makes.
- The key order of JavaScript objects and of `Map`, and the `__proto__` key, are not modelled: objects and maps are unordered maps.
- `buildEnrollList` on a code that names an inherited property such as `toString` is not modelled: the model's object starts with no inherited keys.
- A patch property that is present but explicitly `undefined` is treated as absent.
