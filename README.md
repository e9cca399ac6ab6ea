# Course enrollment API: the store and its request handlers

This project models the core of a small CRUD service that manages students,
courses and enrollments (a student enrolled in a course, with a date). The
service keeps three relational tables. Its request handlers create, read,
update and delete rows, and they shape the results into nested read
projections.

The model has these parts:

- `models.dfy` (module `Models`) holds the rows, the request payloads and
  the read projections as datatypes. It holds the column constraints as
  predicates: credits in [1, 8], the unique email index, and the two foreign
  keys of the enrollment table. It also holds the table transitions the
  handlers perform (insert a pair, delete a pair, the two cascades) and the
  lemmas about them.
- `store.dfy` (module `Store`) holds the class `Database`. Its fields are the
  three tables as maps and the two id generators of the student and course
  tables. `Valid()` is the table constraints, plus "every generated id is
  positive and below the next one".
- `students.dfy`, `courses.dfy` and `enrollments.dfy` hold one method per
  handler. Each method takes the database, as the original handler takes its
  request-scoped session. The methods that change the store state the whole
  new state in terms of the old one, and they keep `Valid()`. The methods
  that only read say exactly what they return.
- `scenario.dfy` (module `Scenarios`) chains handler calls on a fresh
  database. Their postconditions are proved from the handlers' contracts
  alone.

Every handler result is an `Outcome`. It is `Ok(value)`, `NotFound(missing)`,
`Conflict`, `Invalid` (the request parser refused the input) or
`StorageReject` (the unique email index refused the commit). A handler that
fails leaves every table unchanged, because its transaction is never
committed. Request-body and query-parameter validation runs before the
handler body. So `Invalid` is decided before any lookup: credits outside
[1, 8], and a delete-student id outside [1, 1000000].

Where the code and its prose description disagree, the model follows the
code:

- Creating or updating a student with an email that another student already
  holds is not reported as a Conflict. No handler checks for it; the unique
  index refuses the commit. The model answers `StorageReject`.
- A student whose id is above 1000000 can never be deleted. The delete
  handler's query parameter is bounded, and `Students.DeleteStudent` answers
  `Invalid` for such an id.

The PATCH handlers are the exception to that rule. As written, they declare
their bodies as `StudentBase` / `CourseBase`, whose fields are required, so
a partial body is refused before the handler runs. That refusal is modelled
only by the predicates `StudentBaseAccepts` / `CourseBaseAccepts` and the
lemmas `EmailOnlyPatchRefusedAsWritten` / `CreditsOnlyPatchRefusedAsWritten`.
`Students.UpdateStudent`, `Courses.UpdateCourse` and
`Scenarios.EmailOnlyUpdate` model the intended partial update instead, in
which only the fields that were sent are applied. See "## Findings".

Nested read lists have no specified order. The predicates `ListsCoursesOf` and
`ListsStudentsOf` say what such a list must hold: one entry per enrollment
whose partner row exists, carrying that enrollment's date, and no other
entries. Lemmas show that two lists meeting the predicate are permutations
of each other, and that the list length is the number of such enrollments.

## Model

| member | source | states |
|---|---|---|
| `Models.ReadModelDefaults` | app/models.py:74-104 | In the read projections, an omitted description or enrollment date is none, and the nested `students` / `courses` lists are empty. |
| `Models.AtMostOneRowPerPair` | app/models.py:17-28 | The enrollment primary key is (student_id, course_id), so two rows with the same pair are the same row. |
| `Models.ApplyStudentPatch` | app/routers/students.py:136-139 | A student field that was sent takes the sent value. A field that was not sent keeps its old value. |
| `Models.ApplyCoursePatch` | app/routers/courses.py:101-102 | A course field that was sent takes the sent value, and one that was not sent is kept. A description sent as null clears it. A patch whose credits are valid keeps the credits in [1, 8]. |
| `Models.FullStudentPatchReplaces` | app/routers/students.py:136-139 | A body that sends every field replaces the whole row. |
| `Models.StudentPatchIdempotent` | app/routers/students.py:136-139 | An empty student patch changes nothing. Applying the same patch twice is the same as applying it once. |
| `Models.CoursePatchIdempotent` | app/routers/courses.py:101-102 | An empty course patch changes nothing. Applying the same patch twice is the same as applying it once. |
| `Models.EmailOnlyPatchRefusedAsWritten` | app/routers/students.py:121-126 | As declared, a student PATCH body holding only an email is refused, because StudentBase requires all three fields. |
| `Models.CreditsOnlyPatchRefusedAsWritten` | app/routers/courses.py:87-92 | As declared, a course PATCH body holding only in-range credits is refused, because CourseBase requires the name and the credits. |
| `Models.EmailOnlyPatchKeepsNames` | app/routers/students.py:128-139 | The intended partial update: an email-only patch changes the email and keeps both names. |
| `Models.CreditsOnlyPatchKeepsRest` | app/routers/courses.py:101-102 | The intended partial update: a credits-only patch changes the credits and keeps the name and the description. |
| `Models.EnrollAddsExactlyThatPair` | app/routers/enrollments.py:50-54 | An enrollment insert adds one row for the pair, with its date, and leaves every other row unchanged. |
| `Models.UnenrollRemovesExactlyThatPair` | app/routers/enrollments.py:83-84 | An enrollment delete removes that one pair and leaves every other row unchanged. |
| `Models.CascadesRemoveExactlyDependents` | app/routers/students.py:164-170 | The cascade removes exactly the enrollments that reference the deleted student (or course). Every other enrollment keeps its date. |
| `Models.UnenrollUndoesEnroll` | app/routers/enrollments.py:50-84 | Deleting a pair right after inserting it gives back the enrollment table as it was. |
| `Models.EnrollKeepsReferences` | app/routers/enrollments.py:22-54 | Inserting a pair whose student and course both exist keeps both foreign keys intact. |
| `Models.CascadeStudentKeepsReferences` | app/routers/students.py:164-173 | Deleting a student after its enrollments keeps every foreign key pointing at an existing row. |
| `Models.CascadeCourseKeepsReferences` | app/routers/courses.py:123-132 | Deleting a course after its enrollments keeps every foreign key pointing at an existing row. |
| `Models.DeleteWithoutCascadeDangles` | app/models.py:23-28 | Without the cascade, deleting an enrolled student or course would break the foreign key. |
| `Models.CourseListLength` | app/routers/students.py:97-108 | A student's nested course list has exactly as many entries as the student has enrollments whose course exists. |
| `Models.StudentListLength` | app/routers/courses.py:63-74 | A course's nested student list has exactly as many entries as the course has enrollments whose student exists. |
| `Models.CourseListsAgree` | app/routers/students.py:48-108 | Any two lists that meet the nested-course-list description hold the same entries and differ at most in order. So the list-all and the read-one handler agree. |
| `Models.StudentListsAgree` | app/routers/courses.py:59-74 | Any two lists that meet the nested-student-list description hold the same entries and differ at most in order. |
| `Models.StudentViewsAgree` | app/routers/students.py:46-116 | Two projections of the same student agree on id, names and email, and on their course lists up to order. |
| `Store.Database.constructor` | app/database.py:30-37 | A freshly created, empty database: three empty tables that meet every table constraint. Ids start at 1, as the database's sequences do. |
| `Students.CreateStudent` | app/routers/students.py:24-37 | If the email is taken, the answer is StorageReject and nothing changes. Otherwise the student is added under the next generated id, which is fresh, and it is returned with that id. Courses and enrollments do not change. |
| `Students.CoursesWithDates` | app/routers/students.py:93-108 | The loop returns one entry per enrollment of the student whose course exists, with the course's fields and the enrollment's date, and no other entry. |
| `Students.ReadStudents` | app/routers/students.py:46-78 | One entry per student, with no id twice. Each entry is exactly what reading that student yields. |
| `Students.ReadStudent` | app/routers/students.py:83-116 | NotFound exactly when the id is absent. Otherwise the answer is the student's fields and its nested course list. Nothing changes, because the method has no frame. |
| `Students.UpdateStudent` | app/routers/students.py:121-145 | The intended partial update, not the as-written refusal of a partial body (see "## Findings"). NotFound when the id is absent. StorageReject when the patched email is held by another student. Otherwise only the sent fields change. Both failure answers leave the store unchanged. On success the id, the other students, the courses and the enrollments stay the same. |
| `Students.DeleteStudent` | app/routers/students.py:150-176 | Invalid for an id outside [1, 1000000], before any lookup. NotFound when the id is absent. Both leave the store unchanged. Otherwise the student and all its enrollments are removed, while courses and other enrollments stay. The foreign keys still hold. |
| `Courses.CreateCourse` | app/routers/courses.py:24-34 | Invalid, with no change, for credits outside [1, 8]. Otherwise the course is added under the next generated id, which is fresh. Students and enrollments do not change. |
| `Courses.ReadCourses` | app/routers/courses.py:39-44 | One flat entry per course, with no id twice and no enrollment data. |
| `Courses.StudentsWithDates` | app/routers/courses.py:59-74 | The loop returns one entry per enrollment in the course whose student exists, with the student's fields and the enrollment's date, and no other entry. |
| `Courses.ReadCourse` | app/routers/courses.py:49-82 | NotFound exactly when the id is absent. Otherwise the answer is the course's fields and its nested student list. |
| `Courses.UpdateCourse` | app/routers/courses.py:87-108 | The intended partial update, not the as-written refusal of a partial body (see "## Findings"). Invalid for sent credits out of range. Otherwise NotFound when the id is absent. Both leave the store unchanged. Otherwise only the sent fields change, and everything else stays the same. |
| `Courses.DeleteCourse` | app/routers/courses.py:113-135 | NotFound, with no change, when the id is absent. Otherwise the course and all its enrollments are removed, while all students stay. The foreign keys still hold. |
| `Enrollments.CreateEnrollment` | app/routers/enrollments.py:17-56 | A missing student gives NotFound naming the student id, even when the course is missing too. Next, a missing course gives NotFound naming the course id. Next, an existing pair gives Conflict. Every error leaves the store unchanged. On success exactly that pair is added, dated with the body's date or else `now`. Students and courses stay unchanged. |
| `Enrollments.DeleteEnrollment` | app/routers/enrollments.py:60-86 | NotFound, with no change, for an absent pair. Otherwise exactly that pair is removed, and the other enrollments, the students and the courses stay. |
| `Enrollments.EnrollThenWithdraw` | app/routers/enrollments.py:50-84 | When the enrollment succeeds, deleting the same pair also succeeds. Afterwards all three tables are as they were before. |
| `Scenarios.EnrollThenDropCourse` | app/routers/courses.py:118-133 | On a fresh store, student 1 and course 1 are created and enrolled. Reading the student then shows that one course with its date. After the course is deleted, the student shows no course and the course is NotFound. |
| `Scenarios.DuplicateEmail` | app/models.py:46 | A second student with the same email is refused by storage, and the first one stays readable. |
| `Scenarios.CreditsBoundaries` | app/models.py:35 | Credits 0 and 9 are refused; credits 1 and 8 are accepted. |
| `Scenarios.EmailOnlyUpdate` | app/routers/students.py:128-145 | Under the intended partial update, not the as-written refusal (see "## Findings"), a patch that sends only an email changes the email and keeps both names. |

## Left out

- HTTP routing, status codes, CORS, the startup hook and the welcome endpoint are not modelled. They are framework wiring; the `Outcome` constructors stand for the status classes.
- The browser front end is not modelled. All of it is I/O.
- Engine creation and settings loading are not modelled. They are external configuration.
- Not-Found message texts are not modelled. `NotFound` carries a `Missing` value that says which row, and which id, the message names.
- ORM and parser mechanics (`model_validate`, `sqlmodel_update`, `refresh`, sessions) are not modelled. A handler acts on the tables directly. One committed transaction is one method call.
- Timestamps are opaque `Date` values. The handler receives "now" as a parameter instead of reading a clock.
- Concurrent requests and races between duplicate creates are not modelled. Each method runs alone.
- List order is not modelled. The handlers return lists in whatever order the query yields, and the contracts claim no order.
- Ids are unbounded integers, and the width of the database's integer column is not modelled.
- Students.UpdateStudent and Courses.UpdateCourse model the intended partial update. As written, a partial body is refused before the handler runs; that refusal is captured only by `Models.EmailOnlyPatchRefusedAsWritten` and `Models.CreditsOnlyPatchRefusedAsWritten` (see "## Findings").
- Students.CreateStudent: a refused insert does not advance the id generator, although a database sequence may consume an id even then.
- The enrollment create body's ids are plain integers. The table model declares them optional, but a body without them is not modelled.
- Storage failures other than the unique email index are not modelled. None can arise once the handlers' own existence checks have passed.

## Findings

| source | as written | input that shows it | evidently intended | confidence | as-written member | corrected member |
|---|---|---|---|---|---|---|
| app/routers/students.py:121-139 | The PATCH body is declared as `StudentBase`, whose three fields are required. A body that leaves one out is refused before the handler runs, so `exclude_unset` never has anything to leave out. | PATCH `/students/1` with body `{"email": "x@y.com"}` | Only the fields that were sent are applied, as the handler's docstring and its use of `exclude_unset` say. | medium (not executed) | `Models.EmailOnlyPatchRefusedAsWritten` | `Students.UpdateStudent`, with `Models.EmailOnlyPatchKeepsNames` |
| app/routers/courses.py:87-102 | The PATCH body is declared as `CourseBase`, whose name and credits are required. A body with only new credits is refused before the handler runs. | PATCH `/courses/1` with body `{"credits": 4}` | Only the fields that were sent are applied, through `exclude_unset`. | medium (not executed) | `Models.CreditsOnlyPatchRefusedAsWritten` | `Courses.UpdateCourse`, with `Models.CreditsOnlyPatchKeepsRest` |
