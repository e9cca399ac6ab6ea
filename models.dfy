/**
 * Entity shapes, column constraints and read projections of the course
 * enrollment API (app/models.py), together with the table transitions the
 * request handlers perform and the facts that keep the constraints intact.
 *
 * A table is a map from its primary key to the rest of the row: students and
 * courses are keyed by their generated id, enrollments by the composite key
 * (student id, course id), so the table itself holds at most one enrollment
 * per pair.
 */
module Models {

  datatype Option<+T> = None | Some(value: T) {
    function GetOr(default: T): T {
      match this
      case Some(v) => v
      case None => default
    }
  }

  /** A timestamp. The model never looks inside it; the handlers receive "now" from their caller. */
  datatype Date = Date(ticks: int)

  /** A student row without its id; also the create payload (StudentCreate adds nothing to StudentBase). */
  datatype Student = Student(firstName: string, lastName: string, email: string)

  /** A course row without its id; also the create payload. The description defaults to none. */
  datatype Course = Course(name: string, description: Option<string> := None, credits: int)

  /** Primary key of the enrollment table: (student id, course id). */
  type Key = (int, int)

  /** An enrollment row as the enrollment handlers return it. */
  datatype Enrollment = Enrollment(studentId: int, courseId: int, enrollmentDate: Date)

  /** The enrollment create payload; a missing date is filled in with the creation time. */
  datatype EnrollmentCreate = EnrollmentCreate(studentId: int, courseId: int, enrollmentDate: Option<Date> := None)

  // ---------------------------------------------------------------- projections

  datatype StudentRead = StudentRead(id: int, firstName: string, lastName: string, email: string)

  datatype CourseRead = CourseRead(id: int, name: string, description: Option<string> := None, credits: int)

  datatype CourseWithEnrollmentDate = CourseWithEnrollmentDate(
    id: int, name: string, description: Option<string> := None, credits: int,
    enrollmentDate: Option<Date> := None)

  datatype StudentWithEnrollmentDate = StudentWithEnrollmentDate(
    id: int, firstName: string, lastName: string, email: string,
    enrollmentDate: Option<Date> := None)

  datatype CourseReadWithStudents = CourseReadWithStudents(
    id: int, name: string, description: Option<string> := None, credits: int,
    students: seq<StudentWithEnrollmentDate> := [])

  datatype StudentReadWithCourses = StudentReadWithCourses(
    id: int, firstName: string, lastName: string, email: string,
    courses: seq<CourseWithEnrollmentDate> := [])

  function AsStudentRead(id: int, s: Student): StudentRead {
    StudentRead(id, s.firstName, s.lastName, s.email)
  }

  function AsCourseRead(id: int, c: Course): CourseRead {
    CourseRead(id, c.name, c.description, c.credits)
  }

  /** The entry for one enrolled course in a student's nested read projection. */
  function CourseEntry(id: int, c: Course, date: Date): CourseWithEnrollmentDate {
    CourseWithEnrollmentDate(id, c.name, c.description, c.credits, Some(date))
  }

  /** The entry for one enrolled student in a course's nested read projection. */
  function StudentEntry(id: int, s: Student, date: Date): StudentWithEnrollmentDate {
    StudentWithEnrollmentDate(id, s.firstName, s.lastName, s.email, Some(date))
  }

  /** The optional fields of the read projections default to none and their nested lists to empty. */
  lemma ReadModelDefaults(id: int, name: string, credits: int, first: string, last: string, email: string)
    ensures CourseReadWithStudents(id := id, name := name, credits := credits).students == []
    ensures CourseReadWithStudents(id := id, name := name, credits := credits).description == None
    ensures StudentReadWithCourses(id, first, last, email).courses == []
    ensures StudentWithEnrollmentDate(id, first, last, email).enrollmentDate == None
    ensures CourseWithEnrollmentDate(id := id, name := name, credits := credits).enrollmentDate == None
  {
  }

  // ---------------------------------------------------------------- column constraints

  const MinCredits: int := 1
  const MaxCredits: int := 8

  predicate CreditsInRange(credits: int) {
    MinCredits <= credits <= MaxCredits
  }

  predicate CreditsValid(courses: map<int, Course>) {
    forall id :: id in courses ==> CreditsInRange(courses[id].credits)
  }

  /** The unique index on student.email. */
  predicate EmailsDistinct(students: map<int, Student>) {
    forall a, b :: a in students && b in students && a != b ==> students[a].email != students[b].email
  }

  predicate EmailInUse(students: map<int, Student>, email: string) {
    exists id :: id in students && students[id].email == email
  }

  /** The two foreign keys of the enrollment table. */
  predicate ReferencesExist(students: map<int, Student>, courses: map<int, Course>, enrollments: map<Key, Date>) {
    forall k :: k in enrollments ==> k.0 in students && k.1 in courses
  }

  /** The enrollment table read back as rows. */
  function Rows(enrollments: map<Key, Date>): set<Enrollment> {
    set k | k in enrollments :: Enrollment(k.0, k.1, enrollments[k])
  }

  /** Because the pair is the primary key, two rows for the same pair are the same row. */
  lemma AtMostOneRowPerPair(enrollments: map<Key, Date>, a: Enrollment, b: Enrollment)
    requires a in Rows(enrollments) && b in Rows(enrollments)
    requires a.studentId == b.studentId && a.courseId == b.courseId
    ensures a == b
  {
  }

  // ---------------------------------------------------------------- partial updates

  /** A PATCH body for a student: a field that was not sent is None. */
  datatype StudentPatch = StudentPatch(firstName: Option<string>, lastName: Option<string>, email: Option<string>)

  /**
   * A PATCH body for a course. The description is nullable, so "not sent"
   * (None) differs from "sent as null" (Some(None)).
   */
  datatype CoursePatch = CoursePatch(name: Option<string>, description: Option<Option<string>>, credits: Option<int>)

  /** Only the fields that were sent are applied. */
  function ApplyStudentPatch(s: Student, p: StudentPatch): (r: Student)
    ensures p.firstName.None? ==> r.firstName == s.firstName
    ensures p.lastName.None? ==> r.lastName == s.lastName
    ensures p.email.None? ==> r.email == s.email
    ensures p.firstName.Some? ==> r.firstName == p.firstName.value
    ensures p.lastName.Some? ==> r.lastName == p.lastName.value
    ensures p.email.Some? ==> r.email == p.email.value
  {
    Student(p.firstName.GetOr(s.firstName), p.lastName.GetOr(s.lastName), p.email.GetOr(s.email))
  }

  /** The body-level validation of a course PATCH: credits, when sent, must be in range. */
  predicate CoursePatchValid(p: CoursePatch) {
    p.credits.Some? ==> CreditsInRange(p.credits.value)
  }

  /** Only the fields that were sent are applied; a valid patch keeps the credits constraint. */
  function ApplyCoursePatch(c: Course, p: CoursePatch): (r: Course)
    ensures p.name.None? ==> r.name == c.name
    ensures p.description.None? ==> r.description == c.description
    ensures p.credits.None? ==> r.credits == c.credits
    ensures p.name.Some? ==> r.name == p.name.value
    ensures p.description.Some? ==> r.description == p.description.value
    ensures p.credits.Some? ==> r.credits == p.credits.value
    ensures CreditsInRange(c.credits) && CoursePatchValid(p) ==> CreditsInRange(r.credits)
  {
    Course(p.name.GetOr(c.name), p.description.GetOr(c.description), p.credits.GetOr(c.credits))
  }

  /** A patch that sends every field of a row turns any row into that row. */
  lemma FullStudentPatchReplaces(before: Student, s: Student)
    ensures ApplyStudentPatch(before, StudentPatch(Some(s.firstName), Some(s.lastName), Some(s.email))) == s
  {
  }

  /** Sending nothing changes nothing, and applying the same patch twice is applying it once. */
  lemma StudentPatchIdempotent(s: Student, p: StudentPatch)
    ensures ApplyStudentPatch(s, StudentPatch(None, None, None)) == s
    ensures ApplyStudentPatch(ApplyStudentPatch(s, p), p) == ApplyStudentPatch(s, p)
  {
  }

  lemma CoursePatchIdempotent(c: Course, p: CoursePatch)
    ensures ApplyCoursePatch(c, CoursePatch(None, None, None)) == c
    ensures ApplyCoursePatch(ApplyCoursePatch(c, p), p) == ApplyCoursePatch(c, p)
  {
  }

  /**
   * As declared, the PATCH handlers take a StudentBase / CourseBase body, whose
   * fields (all but a course's description) are required; the request parser
   * rejects a body that leaves one out before the handler runs.
   */
  predicate StudentBaseAccepts(p: StudentPatch) {
    p.firstName.Some? && p.lastName.Some? && p.email.Some?
  }

  predicate CourseBaseAccepts(p: CoursePatch) {
    p.name.Some? && p.credits.Some? && CreditsInRange(p.credits.value)
  }

  /** As written, a body that sends only an email is refused, although the handler is meant to apply it alone. */
  lemma EmailOnlyPatchRefusedAsWritten(email: string)
    ensures !StudentBaseAccepts(StudentPatch(None, None, Some(email)))
  {
  }

  /** As written, a body that sends only new credits is refused, although they are in range. */
  lemma CreditsOnlyPatchRefusedAsWritten(credits: int)
    requires CreditsInRange(credits)
    ensures CoursePatchValid(CoursePatch(None, None, Some(credits)))
    ensures !CourseBaseAccepts(CoursePatch(None, None, Some(credits)))
  {
  }

  /** The intended partial update: an email-only patch changes the email and keeps both names. */
  lemma EmailOnlyPatchKeepsNames(s: Student, email: string)
    ensures ApplyStudentPatch(s, StudentPatch(None, None, Some(email))) == s.(email := email)
  {
  }

  /** The intended partial update: a credits-only patch keeps the name and the description. */
  lemma CreditsOnlyPatchKeepsRest(c: Course, credits: int)
    ensures ApplyCoursePatch(c, CoursePatch(None, None, Some(credits))) == c.(credits := credits)
  {
  }

  // ---------------------------------------------------------------- table transitions

  /** Inserting the row for a pair that is not yet enrolled. */
  function Enroll(enrollments: map<Key, Date>, k: Key, date: Date): map<Key, Date>
    requires k !in enrollments
  {
    enrollments[k := date]
  }

  /** Deleting the row of one pair. */
  function Unenroll(enrollments: map<Key, Date>, k: Key): map<Key, Date>
    requires k in enrollments
  {
    enrollments - {k}
  }

  /** Every row of the enrollment table that does not reference the given student. */
  function WithoutStudent(enrollments: map<Key, Date>, studentId: int): map<Key, Date>
  {
    map k | k in enrollments && k.0 != studentId :: enrollments[k]
  }

  /** Every row of the enrollment table that does not reference the given course. */
  function WithoutCourse(enrollments: map<Key, Date>, courseId: int): map<Key, Date>
  {
    map k | k in enrollments && k.1 != courseId :: enrollments[k]
  }

  /** The insert adds the one pair with its date and keeps every other row as it was. */
  lemma EnrollAddsExactlyThatPair(enrollments: map<Key, Date>, k: Key, date: Date)
    requires k !in enrollments
    ensures Enroll(enrollments, k, date).Keys == enrollments.Keys + {k}
    ensures Enroll(enrollments, k, date)[k] == date
    ensures forall j :: j in enrollments ==> Enroll(enrollments, k, date)[j] == enrollments[j]
  {
  }

  /** The delete removes the one pair and keeps every other row as it was. */
  lemma UnenrollRemovesExactlyThatPair(enrollments: map<Key, Date>, k: Key)
    requires k in enrollments
    ensures Unenroll(enrollments, k).Keys == enrollments.Keys - {k}
    ensures forall j :: j in Unenroll(enrollments, k) ==> Unenroll(enrollments, k)[j] == enrollments[j]
  {
  }

  /** The cascades remove exactly the rows that reference the deleted row and keep the others as they were. */
  lemma CascadesRemoveExactlyDependents(enrollments: map<Key, Date>, id: int)
    ensures forall k :: k in WithoutStudent(enrollments, id) <==> k in enrollments && k.0 != id
    ensures forall k :: k in WithoutCourse(enrollments, id) <==> k in enrollments && k.1 != id
    ensures forall k :: k in WithoutStudent(enrollments, id) ==> WithoutStudent(enrollments, id)[k] == enrollments[k]
    ensures forall k :: k in WithoutCourse(enrollments, id) ==> WithoutCourse(enrollments, id)[k] == enrollments[k]
  {
  }

  /** Deleting a pair right after inserting it gives back the table as it was. */
  lemma UnenrollUndoesEnroll(enrollments: map<Key, Date>, k: Key, date: Date)
    requires k !in enrollments
    ensures Unenroll(Enroll(enrollments, k, date), k) == enrollments
  {
    var after := Unenroll(Enroll(enrollments, k, date), k);
    assert after.Keys == enrollments.Keys;
  }

  lemma EnrollKeepsReferences(students: map<int, Student>, courses: map<int, Course>,
                              enrollments: map<Key, Date>, k: Key, date: Date)
    requires ReferencesExist(students, courses, enrollments)
    requires k !in enrollments && k.0 in students && k.1 in courses
    ensures ReferencesExist(students, courses, Enroll(enrollments, k, date))
  {
  }

  /** Removing a student together with its enrollments keeps every foreign key pointing at a row. */
  lemma CascadeStudentKeepsReferences(students: map<int, Student>, courses: map<int, Course>,
                                      enrollments: map<Key, Date>, studentId: int)
    requires ReferencesExist(students, courses, enrollments)
    ensures ReferencesExist(students - {studentId}, courses, WithoutStudent(enrollments, studentId))
  {
  }

  /** Removing a course together with its enrollments keeps every foreign key pointing at a row. */
  lemma CascadeCourseKeepsReferences(students: map<int, Student>, courses: map<int, Course>,
                                     enrollments: map<Key, Date>, courseId: int)
    requires ReferencesExist(students, courses, enrollments)
    ensures ReferencesExist(students, courses - {courseId}, WithoutCourse(enrollments, courseId))
  {
  }

  /** Without the cascade, deleting an enrolled student would leave a dangling reference. */
  lemma DeleteWithoutCascadeDangles(students: map<int, Student>, courses: map<int, Course>,
                                    enrollments: map<Key, Date>, k: Key)
    requires k in enrollments
    ensures !ReferencesExist(students - {k.0}, courses, enrollments)
    ensures !ReferencesExist(students, courses - {k.1}, enrollments)
  {
  }

  // ---------------------------------------------------------------- nested read projections

  /**
   * `list` is a student's nested course list: one entry per enrollment of
   * that student whose course exists, each with that course's fields and that
   * enrollment's date, in some order.
   */
  ghost predicate ListsCoursesOf(list: seq<CourseWithEnrollmentDate>, studentId: int,
                                 courses: map<int, Course>, enrollments: map<Key, Date>)
  {
    && (forall i, j :: 0 <= i < j < |list| ==> list[i].id != list[j].id)
    && (forall i :: 0 <= i < |list| ==>
          && (studentId, list[i].id) in enrollments
          && list[i].id in courses
          && list[i] == CourseEntry(list[i].id, courses[list[i].id], enrollments[(studentId, list[i].id)]))
    && (forall k :: k in enrollments && k.0 == studentId && k.1 in courses ==>
          exists i :: 0 <= i < |list| && list[i].id == k.1)
  }

  /**
   * `list` is a course's nested student list: one entry per enrollment in
   * that course whose student exists, each with that student's fields and that
   * enrollment's date, in some order.
   */
  ghost predicate ListsStudentsOf(list: seq<StudentWithEnrollmentDate>, courseId: int,
                                  students: map<int, Student>, enrollments: map<Key, Date>)
  {
    && (forall i, j :: 0 <= i < j < |list| ==> list[i].id != list[j].id)
    && (forall i :: 0 <= i < |list| ==>
          && (list[i].id, courseId) in enrollments
          && list[i].id in students
          && list[i] == StudentEntry(list[i].id, students[list[i].id], enrollments[(list[i].id, courseId)]))
    && (forall k :: k in enrollments && k.1 == courseId && k.0 in students ==>
          exists i :: 0 <= i < |list| && list[i].id == k.0)
  }

  /** `v` is what reading student `id` yields: its own fields and its nested course list. */
  ghost predicate IsStudentView(v: StudentReadWithCourses, id: int, students: map<int, Student>,
                                courses: map<int, Course>, enrollments: map<Key, Date>)
  {
    && id in students
    && v.id == id
    && v.firstName == students[id].firstName
    && v.lastName == students[id].lastName
    && v.email == students[id].email
    && ListsCoursesOf(v.courses, id, courses, enrollments)
  }

  /** `v` is what reading course `id` yields: its own fields and its nested student list. */
  ghost predicate IsCourseView(v: CourseReadWithStudents, id: int, courses: map<int, Course>,
                               students: map<int, Student>, enrollments: map<Key, Date>)
  {
    && id in courses
    && v.id == id
    && v.name == courses[id].name
    && v.description == courses[id].description
    && v.credits == courses[id].credits
    && ListsStudentsOf(v.students, id, students, enrollments)
  }

  ghost predicate Distinct<T>(s: seq<T>) {
    forall i, j :: 0 <= i < j < |s| ==> s[i] != s[j]
  }

  /** A sequence without repetitions holds each of its elements exactly once. */
  lemma {:induction false} DistinctMultiset<T>(s: seq<T>)
    requires Distinct(s)
    ensures multiset(s) == multiset(set x | x in s)
  {
    if s != [] {
      var t := s[1..];
      assert Distinct(t) by {
        forall i, j | 0 <= i < j < |t| ensures t[i] != t[j] {
          assert t[i] == s[i + 1] && t[j] == s[j + 1];
        }
      }
      DistinctMultiset(t);
      assert s == [s[0]] + t;
      assert s[0] !in t by {
        forall i | 0 <= i < |t| ensures t[i] != s[0] {
          assert t[i] == s[i + 1];
        }
      }
      assert (set x | x in s) == {s[0]} + (set x | x in t);
    }
  }

  /** A sequence without repetitions is as long as the set of its elements is large. */
  lemma DistinctCount<T>(s: seq<T>)
    requires Distinct(s)
    ensures |set x | x in s| == |s|
  {
    DistinctMultiset(s);
    assert |multiset(s)| == |s|;
  }

  /** The ids of the courses a student is enrolled in that still exist. */
  ghost function CourseIdsOf(studentId: int, courses: map<int, Course>, enrollments: map<Key, Date>): set<int> {
    set k | k in enrollments && k.0 == studentId && k.1 in courses :: k.1
  }

  /** The ids of the students enrolled in a course that still exist. */
  ghost function StudentIdsOf(courseId: int, students: map<int, Student>, enrollments: map<Key, Date>): set<int> {
    set k | k in enrollments && k.1 == courseId && k.0 in students :: k.0
  }

  /** A student's nested course list has exactly one entry per enrollment whose course exists. */
  lemma CourseListLength(list: seq<CourseWithEnrollmentDate>, studentId: int,
                         courses: map<int, Course>, enrollments: map<Key, Date>)
    requires ListsCoursesOf(list, studentId, courses, enrollments)
    ensures |list| == |CourseIdsOf(studentId, courses, enrollments)|
  {
    var ids := seq(|list|, i requires 0 <= i < |list| => list[i].id);
    forall c | c in CourseIdsOf(studentId, courses, enrollments) ensures c in ids {
      var k :| k in enrollments && k.0 == studentId && k.1 in courses && k.1 == c;
      var i :| 0 <= i < |list| && list[i].id == k.1;
      assert ids[i] == c;
    }
    forall c | c in ids ensures c in CourseIdsOf(studentId, courses, enrollments) {
      var i :| 0 <= i < |ids| && ids[i] == c;
      assert (studentId, c) in enrollments;
    }
    assert (set x | x in ids) == CourseIdsOf(studentId, courses, enrollments);
    DistinctCount(ids);
  }

  /** A course's nested student list has exactly one entry per enrollment whose student exists. */
  lemma StudentListLength(list: seq<StudentWithEnrollmentDate>, courseId: int,
                          students: map<int, Student>, enrollments: map<Key, Date>)
    requires ListsStudentsOf(list, courseId, students, enrollments)
    ensures |list| == |StudentIdsOf(courseId, students, enrollments)|
  {
    var ids := seq(|list|, i requires 0 <= i < |list| => list[i].id);
    forall s | s in StudentIdsOf(courseId, students, enrollments) ensures s in ids {
      var k :| k in enrollments && k.1 == courseId && k.0 in students && k.0 == s;
      var i :| 0 <= i < |list| && list[i].id == k.0;
      assert ids[i] == s;
    }
    forall s | s in ids ensures s in StudentIdsOf(courseId, students, enrollments) {
      var i :| 0 <= i < |ids| && ids[i] == s;
      assert (s, courseId) in enrollments;
    }
    assert (set x | x in ids) == StudentIdsOf(courseId, students, enrollments);
    DistinctCount(ids);
  }

  /** Two course lists that both satisfy ListsCoursesOf hold the same entries, differing at most in order. */
  lemma CourseListsAgree(a: seq<CourseWithEnrollmentDate>, b: seq<CourseWithEnrollmentDate>, studentId: int,
                         courses: map<int, Course>, enrollments: map<Key, Date>)
    requires ListsCoursesOf(a, studentId, courses, enrollments)
    requires ListsCoursesOf(b, studentId, courses, enrollments)
    ensures multiset(a) == multiset(b)
  {
    forall x | x in a ensures x in b {
      var i :| 0 <= i < |a| && a[i] == x;
      assert (studentId, x.id) in enrollments;
      var j :| 0 <= j < |b| && b[j].id == x.id;
    }
    forall x | x in b ensures x in a {
      var j :| 0 <= j < |b| && b[j] == x;
      assert (studentId, x.id) in enrollments;
      var i :| 0 <= i < |a| && a[i].id == x.id;
    }
    assert (set x | x in a) == (set x | x in b);
    DistinctMultiset(a);
    DistinctMultiset(b);
  }

  /** Two student lists that both satisfy ListsStudentsOf hold the same entries, differing at most in order. */
  lemma StudentListsAgree(a: seq<StudentWithEnrollmentDate>, b: seq<StudentWithEnrollmentDate>, courseId: int,
                          students: map<int, Student>, enrollments: map<Key, Date>)
    requires ListsStudentsOf(a, courseId, students, enrollments)
    requires ListsStudentsOf(b, courseId, students, enrollments)
    ensures multiset(a) == multiset(b)
  {
    forall x | x in a ensures x in b {
      var i :| 0 <= i < |a| && a[i] == x;
      assert (x.id, courseId) in enrollments;
      var j :| 0 <= j < |b| && b[j].id == x.id;
    }
    forall x | x in b ensures x in a {
      var j :| 0 <= j < |b| && b[j] == x;
      assert (x.id, courseId) in enrollments;
      var i :| 0 <= i < |a| && a[i].id == x.id;
    }
    assert (set x | x in a) == (set x | x in b);
    DistinctMultiset(a);
    DistinctMultiset(b);
  }

  /** Two views of the same student agree on every field, the nested list up to order. */
  lemma StudentViewsAgree(v: StudentReadWithCourses, w: StudentReadWithCourses, id: int, students: map<int, Student>,
                          courses: map<int, Course>, enrollments: map<Key, Date>)
    requires IsStudentView(v, id, students, courses, enrollments)
    requires IsStudentView(w, id, students, courses, enrollments)
    ensures v.(courses := []) == w.(courses := [])
    ensures multiset(v.courses) == multiset(w.courses)
  {
    CourseListsAgree(v.courses, w.courses, id, courses, enrollments);
  }
}
