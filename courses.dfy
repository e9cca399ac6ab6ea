/**
 * The request handlers of the course resource (app/routers/courses.py).
 * A handler that fails leaves the tables as they were.
 */
module Courses {
  import opened Models
  import opened Outcomes
  import opened Store

  /**
   * POST /courses: the body's credits are validated against [1, 8] before
   * the handler runs; a valid course is inserted under a freshly generated id.
   */
  method CreateCourse(db: Database, course: Course) returns (r: Outcome<CourseRead>)
    requires db.Valid()
    modifies db
    ensures db.Valid()
    ensures r.Ok? || r.Invalid?
    ensures r.Invalid? <==> !CreditsInRange(course.credits)
    ensures r.Invalid? ==> unchanged(db)
    ensures r.Ok? ==>
      && r.value == AsCourseRead(r.value.id, course)
      && r.value.id == old(db.nextCourseId) && r.value.id !in old(db.courses)
      && db.courses == old(db.courses)[r.value.id := course]
      && db.nextCourseId == old(db.nextCourseId) + 1
      && db.students == old(db.students)
      && db.enrollments == old(db.enrollments)
      && db.nextStudentId == old(db.nextStudentId)
  {
    if !CreditsInRange(course.credits) {
      return Invalid;
    }
    var id := db.nextCourseId;
    db.courses := db.courses[id := course];
    db.nextCourseId := id + 1;
    r := Ok(AsCourseRead(id, course));
  }

  /** GET /courses: every course, without enrollment data, in no particular order. */
  method ReadCourses(db: Database) returns (result: seq<CourseRead>)
    ensures |result| == |db.courses|
    ensures forall i, j :: 0 <= i < j < |result| ==> result[i].id != result[j].id
    ensures forall i :: 0 <= i < |result| ==>
      result[i].id in db.courses && result[i] == AsCourseRead(result[i].id, db.courses[result[i].id])
    ensures forall id :: id in db.courses ==> exists i :: 0 <= i < |result| && result[i].id == id
  {
    var pending := db.courses.Keys;
    result := [];
    while pending != {}
      invariant pending <= db.courses.Keys
      invariant |result| + |pending| == |db.courses.Keys|
      invariant forall i, j :: 0 <= i < j < |result| ==> result[i].id != result[j].id
      invariant forall i :: 0 <= i < |result| ==>
        && result[i].id !in pending
        && result[i].id in db.courses
        && result[i] == AsCourseRead(result[i].id, db.courses[result[i].id])
      invariant forall id :: id in db.courses && id !in pending ==>
        exists i :: 0 <= i < |result| && result[i].id == id
      decreases pending
    {
      // Hint for the `:|` below: a non-empty set has a member.
      assert (forall x :: x !in pending) ==> pending == {};
      var courseId :| courseId in pending;
      ghost var before := result;
      result := result + [AsCourseRead(courseId, db.courses[courseId])];
      pending := pending - {courseId};
      forall other | other in db.courses && other !in pending
        ensures exists i :: 0 <= i < |result| && result[i].id == other
      {
        if other == courseId {
          assert result[|result| - 1].id == other;
        } else {
          var i :| 0 <= i < |before| && before[i].id == other;
          assert result[i] == before[i];
        }
      }
    }
  }

  /**
   * The nested student list of one course: walks the course's enrollments
   * and, for each whose student row exists, adds that student with the
   * enrollment's date.
   */
  method StudentsWithDates(db: Database, courseId: int) returns (list: seq<StudentWithEnrollmentDate>)
    ensures ListsStudentsOf(list, courseId, db.students, db.enrollments)
  {
    var pending := set k | k in db.enrollments && k.1 == courseId;
    list := [];
    while pending != {}
      invariant forall k :: k in pending ==> k in db.enrollments && k.1 == courseId
      invariant forall i, j :: 0 <= i < j < |list| ==> list[i].id != list[j].id
      invariant forall i :: 0 <= i < |list| ==>
        && (list[i].id, courseId) in db.enrollments
        && (list[i].id, courseId) !in pending
        && list[i].id in db.students
        && list[i] == StudentEntry(list[i].id, db.students[list[i].id], db.enrollments[(list[i].id, courseId)])
      invariant forall k :: k in db.enrollments && k.1 == courseId && k.0 in db.students && k !in pending ==>
        exists i :: 0 <= i < |list| && list[i].id == k.0
      decreases pending
    {
      // Hint for the `:|` below: a non-empty set has a member.
      assert (forall x :: x !in pending) ==> pending == {};
      var k :| k in pending;
      ghost var before := list;
      if k.0 in db.students {
        list := list + [StudentEntry(k.0, db.students[k.0], db.enrollments[k])];
      }
      pending := pending - {k};
      forall j | j in db.enrollments && j.1 == courseId && j.0 in db.students && j !in pending
        ensures exists i :: 0 <= i < |list| && list[i].id == j.0
      {
        if j == k {
          assert list[|list| - 1].id == j.0;
        } else {
          var i :| 0 <= i < |before| && before[i].id == j.0;
          assert list[i] == before[i];
        }
      }
    }
  }

  /** GET /courses/{id}: the course with its nested student list, or Not-Found. */
  method ReadCourse(db: Database, courseId: int) returns (r: Outcome<CourseReadWithStudents>)
    ensures r.Ok? || r.NotFound?
    ensures r.NotFound? <==> courseId !in db.courses
    ensures r.NotFound? ==> r.missing == CourseRow
    ensures r.Ok? ==> IsCourseView(r.value, courseId, db.courses, db.students, db.enrollments)
  {
    if courseId !in db.courses {
      return NotFound(CourseRow);
    }
    var course := db.courses[courseId];
    var students := StudentsWithDates(db, courseId);
    r := Ok(CourseReadWithStudents(courseId, course.name, course.description, course.credits, students));
  }

  /**
   * PATCH /courses/{id}: the body's credits, when sent, are validated before
   * the handler runs; then the fields that were sent are applied.
   */
  method UpdateCourse(db: Database, courseId: int, patch: CoursePatch) returns (r: Outcome<CourseRead>)
    requires db.Valid()
    modifies db
    ensures db.Valid()
    ensures r.Ok? || r.Invalid? || r.NotFound?
    ensures r.Invalid? <==> !CoursePatchValid(patch)
    ensures r.NotFound? <==> CoursePatchValid(patch) && courseId !in old(db.courses)
    ensures r.NotFound? ==> r.missing == CourseRow
    ensures !r.Ok? ==> unchanged(db)
    ensures r.Ok? ==>
      var updated := ApplyCoursePatch(old(db.courses)[courseId], patch);
      && r.value == AsCourseRead(courseId, updated)
      && db.courses == old(db.courses)[courseId := updated]
      && db.students == old(db.students)
      && db.enrollments == old(db.enrollments)
      && db.nextStudentId == old(db.nextStudentId)
      && db.nextCourseId == old(db.nextCourseId)
  {
    if !CoursePatchValid(patch) {
      return Invalid;
    }
    if courseId !in db.courses {
      return NotFound(CourseRow);
    }
    var updated := ApplyCoursePatch(db.courses[courseId], patch);
    db.courses := db.courses[courseId := updated];
    r := Ok(AsCourseRead(courseId, updated));
  }

  /**
   * DELETE /courses/{id}: the course's enrollments are deleted one by one,
   * then the course.
   */
  method DeleteCourse(db: Database, courseId: int) returns (r: Outcome<()>)
    requires db.Valid()
    modifies db
    ensures db.Valid()
    ensures r.Ok? || r.NotFound?
    ensures r.NotFound? <==> courseId !in old(db.courses)
    ensures r.NotFound? ==> r.missing == CourseRow && unchanged(db)
    ensures r.Ok? ==>
      && db.courses == old(db.courses) - {courseId}
      && db.students == old(db.students)
      && db.enrollments == WithoutCourse(old(db.enrollments), courseId)
      && db.nextStudentId == old(db.nextStudentId)
      && db.nextCourseId == old(db.nextCourseId)
  {
    if courseId !in db.courses {
      return NotFound(CourseRow);
    }
    var doomed := set k | k in db.enrollments && k.1 == courseId;
    while doomed != {}
      invariant forall k :: k in doomed ==> k in db.enrollments && k.1 == courseId
      invariant forall k :: k in db.enrollments <==> k in old(db.enrollments) && (k.1 != courseId || k in doomed)
      invariant forall k :: k in db.enrollments ==> db.enrollments[k] == old(db.enrollments)[k]
      invariant db.students == old(db.students) && db.courses == old(db.courses)
      invariant db.nextStudentId == old(db.nextStudentId) && db.nextCourseId == old(db.nextCourseId)
      decreases doomed
    {
      // Hint for the `:|` below: a non-empty set has a member.
      assert (forall x :: x !in doomed) ==> doomed == {};
      var k :| k in doomed;
      db.enrollments := Unenroll(db.enrollments, k);
      doomed := doomed - {k};
    }
    assert db.enrollments == WithoutCourse(old(db.enrollments), courseId);
    CascadeCourseKeepsReferences(db.students, db.courses, old(db.enrollments), courseId);
    db.courses := db.courses - {courseId};
    r := Ok(());
  }
}
