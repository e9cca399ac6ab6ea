/**
 * The request handlers of the student resource (app/routers/students.py).
 * Each handler works on the database it is given, as the original works on
 * its request-scoped session; a handler that fails leaves the tables as they
 * were, since its transaction is never committed.
 */
module Students {
  import opened Models
  import opened Outcomes
  import opened Store

  /** The bounds the delete query parameter is validated against. */
  const MinDeleteId: int := 1
  const MaxDeleteId: int := 1000000

  /**
   * POST /students: inserts the row under a freshly generated id. There is no
   * explicit email check; a taken email is refused by the unique index at
   * commit.
   */
  method CreateStudent(db: Database, student: Student) returns (r: Outcome<StudentRead>)
    requires db.Valid()
    modifies db
    ensures db.Valid()
    ensures r.Ok? || r.StorageReject?
    ensures r.StorageReject? <==> EmailInUse(old(db.students), student.email)
    ensures r.StorageReject? ==> unchanged(db)
    ensures r.Ok? ==>
      && r.value == AsStudentRead(r.value.id, student)
      && r.value.id == old(db.nextStudentId) && r.value.id !in old(db.students)
      && db.students == old(db.students)[r.value.id := student]
      && db.nextStudentId == old(db.nextStudentId) + 1
      && db.courses == old(db.courses)
      && db.enrollments == old(db.enrollments)
      && db.nextCourseId == old(db.nextCourseId)
  {
    if exists id :: id in db.students && db.students[id].email == student.email {
      return StorageReject;
    }
    var id := db.nextStudentId;
    db.students := db.students[id := student];
    db.nextStudentId := id + 1;
    r := Ok(AsStudentRead(id, student));
  }

  /**
   * The nested course list of one student: walks the student's enrollments
   * and, for each whose course row exists, adds that course with the
   * enrollment's date.
   */
  method CoursesWithDates(db: Database, studentId: int) returns (list: seq<CourseWithEnrollmentDate>)
    ensures ListsCoursesOf(list, studentId, db.courses, db.enrollments)
  {
    var pending := set k | k in db.enrollments && k.0 == studentId;
    list := [];
    while pending != {}
      invariant forall k :: k in pending ==> k in db.enrollments && k.0 == studentId
      invariant forall i, j :: 0 <= i < j < |list| ==> list[i].id != list[j].id
      invariant forall i :: 0 <= i < |list| ==>
        && (studentId, list[i].id) in db.enrollments
        && (studentId, list[i].id) !in pending
        && list[i].id in db.courses
        && list[i] == CourseEntry(list[i].id, db.courses[list[i].id], db.enrollments[(studentId, list[i].id)])
      invariant forall k :: k in db.enrollments && k.0 == studentId && k.1 in db.courses && k !in pending ==>
        exists i :: 0 <= i < |list| && list[i].id == k.1
      decreases pending
    {
      // Hint for the `:|` below: a non-empty set has a member.
      assert (forall x :: x !in pending) ==> pending == {};
      var k :| k in pending;
      ghost var before := list;
      if k.1 in db.courses {
        list := list + [CourseEntry(k.1, db.courses[k.1], db.enrollments[k])];
      }
      pending := pending - {k};
      forall j | j in db.enrollments && j.0 == studentId && j.1 in db.courses && j !in pending
        ensures exists i :: 0 <= i < |list| && list[i].id == j.1
      {
        if j == k {
          assert list[|list| - 1].id == j.1;
        } else {
          var i :| 0 <= i < |before| && before[i].id == j.1;
          assert list[i] == before[i];
        }
      }
    }
  }

  /** GET /students: every student with its nested course list, in no particular order. */
  method ReadStudents(db: Database) returns (result: seq<StudentReadWithCourses>)
    ensures |result| == |db.students|
    ensures forall i, j :: 0 <= i < j < |result| ==> result[i].id != result[j].id
    ensures forall i :: 0 <= i < |result| ==>
      IsStudentView(result[i], result[i].id, db.students, db.courses, db.enrollments)
    ensures forall id :: id in db.students ==> exists i :: 0 <= i < |result| && result[i].id == id
  {
    var pending := db.students.Keys;
    result := [];
    while pending != {}
      invariant pending <= db.students.Keys
      invariant |result| + |pending| == |db.students.Keys|
      invariant forall i, j :: 0 <= i < j < |result| ==> result[i].id != result[j].id
      invariant forall i :: 0 <= i < |result| ==>
        && result[i].id !in pending
        && IsStudentView(result[i], result[i].id, db.students, db.courses, db.enrollments)
      invariant forall id :: id in db.students && id !in pending ==>
        exists i :: 0 <= i < |result| && result[i].id == id
      decreases pending
    {
      // Hint for the `:|` below: a non-empty set has a member.
      assert (forall x :: x !in pending) ==> pending == {};
      var studentId :| studentId in pending;
      var student := db.students[studentId];
      var courses := CoursesWithDates(db, studentId);
      ghost var before := result;
      result := result + [StudentReadWithCourses(studentId, student.firstName, student.lastName, student.email, courses)];
      pending := pending - {studentId};
      forall other | other in db.students && other !in pending
        ensures exists i :: 0 <= i < |result| && result[i].id == other
      {
        if other == studentId {
          assert result[|result| - 1].id == other;
        } else {
          var i :| 0 <= i < |before| && before[i].id == other;
          assert result[i] == before[i];
        }
      }
    }
  }

  /** GET /students/{id}: the student with its nested course list, or Not-Found. */
  method ReadStudent(db: Database, studentId: int) returns (r: Outcome<StudentReadWithCourses>)
    ensures r.Ok? || r.NotFound?
    ensures r.NotFound? <==> studentId !in db.students
    ensures r.NotFound? ==> r.missing == StudentRow
    ensures r.Ok? ==> IsStudentView(r.value, studentId, db.students, db.courses, db.enrollments)
  {
    if studentId !in db.students {
      return NotFound(StudentRow);
    }
    var student := db.students[studentId];
    var courses := CoursesWithDates(db, studentId);
    r := Ok(StudentReadWithCourses(studentId, student.firstName, student.lastName, student.email, courses));
  }

  /**
   * PATCH /students/{id}: applies the fields that were sent. An email that
   * another student holds is refused by the unique index at commit.
   */
  method UpdateStudent(db: Database, studentId: int, patch: StudentPatch) returns (r: Outcome<StudentRead>)
    requires db.Valid()
    modifies db
    ensures db.Valid()
    ensures r.Ok? || r.NotFound? || r.StorageReject?
    ensures r.NotFound? <==> studentId !in old(db.students)
    ensures r.NotFound? ==> r.missing == StudentRow
    ensures r.StorageReject? <==>
      studentId in old(db.students)
      && EmailInUse(old(db.students) - {studentId}, ApplyStudentPatch(old(db.students)[studentId], patch).email)
    ensures !r.Ok? ==> unchanged(db)
    ensures r.Ok? ==>
      var updated := ApplyStudentPatch(old(db.students)[studentId], patch);
      && r.value == AsStudentRead(studentId, updated)
      && db.students == old(db.students)[studentId := updated]
      && db.courses == old(db.courses)
      && db.enrollments == old(db.enrollments)
      && db.nextStudentId == old(db.nextStudentId)
      && db.nextCourseId == old(db.nextCourseId)
  {
    if studentId !in db.students {
      return NotFound(StudentRow);
    }
    var updated := ApplyStudentPatch(db.students[studentId], patch);
    if exists id :: id in db.students && id != studentId && db.students[id].email == updated.email {
      var other :| other in db.students && other != studentId && db.students[other].email == updated.email;
      assert other in db.students - {studentId};
      return StorageReject;
    }
    db.students := db.students[studentId := updated];
    r := Ok(AsStudentRead(studentId, updated));
  }

  /**
   * DELETE /students/deleteStudentById/?student_id=...: the id is validated
   * against [1, 1000000] before any lookup; the student's enrollments are
   * deleted one by one, then the student.
   */
  method DeleteStudent(db: Database, studentId: int) returns (r: Outcome<()>)
    requires db.Valid()
    modifies db
    ensures db.Valid()
    ensures r.Invalid? <==> !(MinDeleteId <= studentId <= MaxDeleteId)
    ensures r.NotFound? <==> MinDeleteId <= studentId <= MaxDeleteId && studentId !in old(db.students)
    ensures r.NotFound? ==> r.missing == StudentRow
    ensures r.Ok? || r.Invalid? || r.NotFound?
    ensures !r.Ok? ==> unchanged(db)
    ensures r.Ok? ==>
      && db.students == old(db.students) - {studentId}
      && db.courses == old(db.courses)
      && db.enrollments == WithoutStudent(old(db.enrollments), studentId)
      && db.nextStudentId == old(db.nextStudentId)
      && db.nextCourseId == old(db.nextCourseId)
  {
    if !(MinDeleteId <= studentId <= MaxDeleteId) {
      return Invalid;
    }
    if studentId !in db.students {
      return NotFound(StudentRow);
    }
    var doomed := set k | k in db.enrollments && k.0 == studentId;
    while doomed != {}
      invariant forall k :: k in doomed ==> k in db.enrollments && k.0 == studentId
      invariant forall k :: k in db.enrollments <==> k in old(db.enrollments) && (k.0 != studentId || k in doomed)
      invariant forall k :: k in db.enrollments ==> db.enrollments[k] == old(db.enrollments)[k]
      invariant db.students == old(db.students) && db.courses == old(db.courses)
      invariant db.nextStudentId == old(db.nextStudentId) && db.nextCourseId == old(db.nextCourseId)
      decreases doomed
    {
      // Hint for the `:|` below: a non-empty set has a member.
      assert (forall x :: x !in doomed) ==> doomed == {};
      var k :| k in doomed;
      db.enrollments := Unenroll(db.enrollments, k);
      doomed := doomed - {k};
    }
    assert db.enrollments == WithoutStudent(old(db.enrollments), studentId);
    CascadeStudentKeepsReferences(db.students, db.courses, old(db.enrollments), studentId);
    db.students := db.students - {studentId};
    r := Ok(());
  }
}
