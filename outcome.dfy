/**
 * What a request handler answers: a value, or one of the error classes the
 * API distinguishes. The HTTP status codes are not modelled.
 */
module Outcomes {

  /** Which row a Not-Found answer names. */
  datatype Missing =
    | StudentRow                 // "Student not found"
    | CourseRow                  // "Course not found"
    | StudentWithId(id: int)     // "Student with ID <id> not found."
    | CourseWithId(id: int)      // "Course with ID <id> not found."
    | EnrollmentRow              // "Enrollment record not found."

  datatype Outcome<+T> =
    | Ok(value: T)
    | NotFound(missing: Missing)
    | Conflict                   // the enrollment pair already exists
    | Invalid                    // the request parser refused the input
    | StorageReject              // the unique index on student.email refused the commit
}
