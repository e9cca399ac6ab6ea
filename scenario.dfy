/**
 * Request sequences against a fresh database, showing what a client can
 * conclude from the handlers' contracts alone.
 */
module Scenarios {
  import opened Models
  import opened Outcomes
  import opened Store
  import Students
  import Courses
  import Enrollments

  /**
   * Create a student and a course, enroll the one in the other, read the
   * student back, delete the course, and read both again.
   */
  method EnrollThenDropCourse(alice: Student, algebra: Course, now: Date)
    returns (enrolled: Outcome<Enrollment>, before: Outcome<StudentReadWithCourses>,
             after: Outcome<StudentReadWithCourses>, gone: Outcome<CourseReadWithStudents>)
    requires CreditsInRange(algebra.credits)
    ensures enrolled == Ok(Enrollment(1, 1, now))
    ensures before.Ok? && before.value.courses == [CourseEntry(1, algebra, now)]
    ensures after.Ok? && after.value.courses == []
    ensures gone == NotFound(CourseRow)
  {
    var db := new Database();
    var s := Students.CreateStudent(db, alice);
    var c := Courses.CreateCourse(db, algebra);
    assert db.students == map[1 := alice] && db.courses == map[1 := algebra];
    enrolled := Enrollments.CreateEnrollment(db, EnrollmentCreate(1, 1), now);
    assert db.enrollments == map[(1, 1) := now];
    before := Students.ReadStudent(db, 1);
    assert CourseIdsOf(1, db.courses, db.enrollments) == {1} by {
      assert (1, 1) in db.enrollments;
    }
    CourseListLength(before.value.courses, 1, db.courses, db.enrollments);
    var dropped := Courses.DeleteCourse(db, 1);
    assert db.enrollments == map[];
    after := Students.ReadStudent(db, 1);
    assert CourseIdsOf(1, db.courses, db.enrollments) == {};
    CourseListLength(after.value.courses, 1, db.courses, db.enrollments);
    gone := Courses.ReadCourse(db, 1);
  }

  /**
   * The second student with a taken email is refused by storage, and the
   * first one stays readable.
   */
  method DuplicateEmail(first: Student, second: Student)
    returns (created: Outcome<StudentRead>, refused: Outcome<StudentRead>, kept: Outcome<StudentReadWithCourses>)
    requires first.email == second.email
    ensures created == Ok(AsStudentRead(1, first))
    ensures refused == StorageReject
    ensures kept.Ok? && kept.value.email == first.email && kept.value.firstName == first.firstName
  {
    var db := new Database();
    created := Students.CreateStudent(db, first);
    assert db.students == map[1 := first];
    refused := Students.CreateStudent(db, second);
    kept := Students.ReadStudent(db, 1);
  }

  /** Credits 0 and 9 are refused; credits 1 and 8, the bounds themselves, are accepted. */
  method CreditsBoundaries(name: string)
    returns (zero: Outcome<CourseRead>, one: Outcome<CourseRead>, eight: Outcome<CourseRead>, nine: Outcome<CourseRead>)
    ensures zero == Invalid && nine == Invalid
    ensures one.Ok? && one.value.credits == 1
    ensures eight.Ok? && eight.value.credits == 8
  {
    var db := new Database();
    zero := Courses.CreateCourse(db, Course(name := name, credits := 0));
    one := Courses.CreateCourse(db, Course(name := name, credits := 1));
    eight := Courses.CreateCourse(db, Course(name := name, credits := 8));
    nine := Courses.CreateCourse(db, Course(name := name, credits := 9));
  }

  /** A patch that sends only an email changes the email and keeps both names. */
  method EmailOnlyUpdate(s: Student, email: string)
    returns (updated: Outcome<StudentRead>)
    ensures updated == Ok(StudentRead(1, s.firstName, s.lastName, email))
  {
    var db := new Database();
    var created := Students.CreateStudent(db, s);
    updated := Students.UpdateStudent(db, 1, StudentPatch(None, None, Some(email)));
  }
}
