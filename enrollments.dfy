/**
 * The request handlers of the enrollment resource (app/routers/enrollments.py).
 * A handler that fails leaves the tables as they were.
 */
module Enrollments {
  import opened Models
  import opened Outcomes
  import opened Store

  /**
   * POST /enrollments: the guards run in a fixed order (student missing,
   * course missing, pair already enrolled) and only then is the row inserted,
   * dated `now` unless the body carries a date.
   */
  method CreateEnrollment(db: Database, body: EnrollmentCreate, now: Date) returns (r: Outcome<Enrollment>)
    requires db.Valid()
    modifies db
    ensures db.Valid()
    ensures r.Ok? || r.NotFound? || r.Conflict?
    ensures r.NotFound? <==> body.studentId !in old(db.students) || body.courseId !in old(db.courses)
    ensures r.NotFound? ==>
      r.missing == (if body.studentId !in old(db.students) then StudentWithId(body.studentId)
                    else CourseWithId(body.courseId))
    ensures r.Conflict? <==>
      && body.studentId in old(db.students) && body.courseId in old(db.courses)
      && (body.studentId, body.courseId) in old(db.enrollments)
    ensures !r.Ok? ==> unchanged(db)
    ensures r.Ok? ==>
      var key := (body.studentId, body.courseId);
      && key !in old(db.enrollments)
      && r.value == Enrollment(body.studentId, body.courseId, body.enrollmentDate.GetOr(now))
      && db.enrollments == Enroll(old(db.enrollments), key, r.value.enrollmentDate)
      && db.students == old(db.students)
      && db.courses == old(db.courses)
      && db.nextStudentId == old(db.nextStudentId)
      && db.nextCourseId == old(db.nextCourseId)
  {
    var studentFound := body.studentId in db.students;
    var courseFound := body.courseId in db.courses;
    if !studentFound {
      return NotFound(StudentWithId(body.studentId));
    }
    if !courseFound {
      return NotFound(CourseWithId(body.courseId));
    }
    var key := (body.studentId, body.courseId);
    if key in db.enrollments {
      return Conflict;
    }
    var date := body.enrollmentDate.GetOr(now);
    EnrollKeepsReferences(db.students, db.courses, db.enrollments, key, date);
    db.enrollments := Enroll(db.enrollments, key, date);
    r := Ok(Enrollment(body.studentId, body.courseId, date));
  }

  /** DELETE /enrollments/{student_id}/{course_id}: removes exactly that pair, or Not-Found. */
  method DeleteEnrollment(db: Database, studentId: int, courseId: int) returns (r: Outcome<()>)
    requires db.Valid()
    modifies db
    ensures db.Valid()
    ensures r.Ok? || r.NotFound?
    ensures r.NotFound? <==> (studentId, courseId) !in old(db.enrollments)
    ensures r.NotFound? ==> r.missing == EnrollmentRow && unchanged(db)
    ensures r.Ok? ==>
      && db.enrollments == Unenroll(old(db.enrollments), (studentId, courseId))
      && db.students == old(db.students)
      && db.courses == old(db.courses)
      && db.nextStudentId == old(db.nextStudentId)
      && db.nextCourseId == old(db.nextCourseId)
  {
    var key := (studentId, courseId);
    if key !in db.enrollments {
      return NotFound(EnrollmentRow);
    }
    db.enrollments := Unenroll(db.enrollments, key);
    r := Ok(());
  }

  /**
   * A successful enrollment followed by the deletion of the same pair leaves
   * the enrollment table as it was, and the other tables untouched.
   */
  method EnrollThenWithdraw(db: Database, studentId: int, courseId: int, now: Date)
    returns (created: Outcome<Enrollment>, deleted: Outcome<()>)
    requires db.Valid()
    modifies db
    ensures db.Valid()
    ensures created.Ok? ==> deleted.Ok?
    ensures created.Ok? ==>
      && db.enrollments == old(db.enrollments)
      && db.students == old(db.students)
      && db.courses == old(db.courses)
  {
    created := CreateEnrollment(db, EnrollmentCreate(studentId, courseId), now);
    deleted := DeleteEnrollment(db, studentId, courseId);
    if created.Ok? {
      UnenrollUndoesEnroll(old(db.enrollments), (studentId, courseId), created.value.enrollmentDate);
    }
  }
}
