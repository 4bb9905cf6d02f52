/** The six tables of the school database: one record type per table row,
    the whole database as a value, and the outcomes of the request
    handlers. Columns that only hold a CURRENT_TIMESTAMP default and are
    never read back (created_at, enrolled_at, uploaded_at) are not kept. */
module Schema {
  import opened Wrappers

  /** Role names as stored in the users.role column and compared by the gate. */
  const ADMIN := "admin"
  const TEACHER := "teacher"
  const STUDENT := "student"

  /** The account that seeding guarantees, with its display name. */
  const SEED_USERNAME := "admin"
  const SEED_FULL_NAME := "مدیر سیستم"

  /** Column defaults: classes.status and homework.status. */
  const SCHEDULED := "scheduled"
  const PENDING := "pending"

  /** A row of `users`; `password` holds the hash the credential library
      produced, `role` is free text. */
  datatype User = User(id: int, username: string, password: string, fullName: string, role: string)

  /** A row of `classes`, owned by the teacher `teacherId`. */
  datatype Class = Class(
    id: int, title: string, description: string, teacherId: int,
    classDate: string, meetingLink: string, status: string)

  /** A row of `homework`: one submission by `studentId` for `classId`,
      reviewed by `teacherId`; `grade` and `feedback` are NULL until review. */
  datatype Homework = Homework(
    id: int, classId: int, studentId: int, teacherId: int,
    title: string, description: string, filePath: Option<string>,
    submissionDate: string, status: string,
    grade: Option<string>, feedback: Option<string>)

  /** A row of `enrollments`; the table has no UNIQUE constraint. */
  datatype Enrollment = Enrollment(id: int, studentId: int, classId: int)

  /** A row of `class_materials`. */
  datatype Material = Material(id: int, classId: int, title: string, filePath: string)

  /** A row of `attendance` for one student, class and date. */
  datatype Attendance = Attendance(id: int, classId: int, studentId: int, date: string, status: string)

  /** The contents of all six tables at one moment. */
  datatype Db = Db(
    users: seq<User>, classes: seq<Class>, homework: seq<Homework>,
    enrollments: seq<Enrollment>, materials: seq<Material>, attendance: seq<Attendance>)

  /** Why a request did not take effect. */
  datatype Error =
    | LoginRequired      // no user id in the session: redirect to the login page
    | Unauthorized       // no role, or a role the route does not allow
    | DuplicateUsername  // add_user's INSERT hit the UNIQUE username constraint
    | IntegrityFailure   // edit_user's UPDATE hit that constraint; nothing is committed
    | ClassNotFound      // no class with that id owned by the calling teacher
    | NoFileSelected     // an upload without a file part or with an empty file name
    | NotEnrolled        // a student's view of a class they have no enrollment for
    | ServerError        // submit_homework for a class id with no row
    | AlreadyEnrolled    // a repeated enrollment, refused by the corrected enroll only

  datatype Outcome = Done | Failed(error: Error)

  /** Keys of the tables, as values that key constraints are stated over. */
  function UserKey(u: User): int { u.id }
  function UserName(u: User): string { u.username }
  function ClassKey(c: Class): int { c.id }
  function HomeworkKey(h: Homework): int { h.id }
  function EnrollmentKey(e: Enrollment): int { e.id }
  function MaterialKey(m: Material): int { m.id }
  function AttendanceKey(a: Attendance): int { a.id }
  function EnrollmentPair(e: Enrollment): (int, int) { (e.studentId, e.classId) }
}
