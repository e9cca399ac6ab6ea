/**
 * The relational store behind the API: the student, course and enrollment
 * tables and the two id generators of the student and course tables.
 */
module Store {
  import opened Models

  class Database {
    var students: map<int, Student>
    var courses: map<int, Course>
    var enrollments: map<Key, Date>
    /** The next id the student table hands out. */
    var nextStudentId: int
    /** The next id the course table hands out. */
    var nextCourseId: int

    /**
     * The table constraints: both foreign keys of the enrollment table,
     * the unique email index, the credits range, and generated ids that are
     * positive and below the next id to be handed out.
     */
    ghost predicate Valid()
      reads this
    {
      && ReferencesExist(students, courses, enrollments)
      && EmailsDistinct(students)
      && CreditsValid(courses)
      && 1 <= nextStudentId && 1 <= nextCourseId
      && (forall id :: id in students ==> 1 <= id < nextStudentId)
      && (forall id :: id in courses ==> 1 <= id < nextCourseId)
    }

    /** The freshly created schema: three empty tables. */
    constructor ()
      ensures Valid()
      ensures students == map[] && courses == map[] && enrollments == map[]
      ensures nextStudentId == 1 && nextCourseId == 1
    {
      students, courses, enrollments := map[], map[], map[];
      nextStudentId, nextCourseId := 1, 1;
    }
  }
}
