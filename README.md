# School management core, modelled in Dafny

`school_app.py` is a small Flask application for an online school. It keeps
six SQLite tables: users, classes, homework, enrollments, class materials
and attendance. An admin manages accounts. A teacher creates classes,
uploads materials, reviews submitted homework and records attendance. A
student enrolls in classes, submits homework and reads their own records.
Every admin, teacher and student route sits behind two decorators,
`login_required` and `role_required`. The root URL, the login page and
logout have neither. The file download has only `login_required`.

This project models that core. The modules follow the application:

- `wrappers.dfy` (`Wrappers`): `Option` and `Result`.
- `query.dfy` (`Query`): the SQL building blocks over tables held as
  sequences of rows.
  - `Where` is a WHERE clause.
  - `Select` is a join that matches at most once, together with its
    projection.
  - `Update` is a row-wise UPDATE.
  - `Distinct` and `Below` state PRIMARY KEY, UNIQUE and AUTOINCREMENT
    constraints.
- `ordering.dfy` (`Ordering`): `ORDER BY ... DESC` over TEXT columns under
  SQLite's BINARY collation, as a stable insertion sort. It is proved
  sorted, a permutation and membership-preserving.
- `schema.dfy` (`Schema`): one datatype per table row, the database value
  `Db`, the role and status constants of the code, and the errors a
  handler can report.
- `access.dfy` (`Access`): the session as a `Caller` value, passed
  explicitly.
  - `Admit` is the two decorators.
  - `Home` is the dispatch of the root URL.
- `tables.dfy` (`Tables`): each insert, update and delete as a function
  from the old table to the new one, with the laws the code implies.
  - Seeding the admin account is idempotent.
  - A review touches only the named submission of the calling teacher.
  - Re-recording a day's attendance replaces that day and only that day.
- `views.dfy` (`Views`): every SELECT behind a page, as a function of the
  tables. Each page first runs the gate.
- `store.dfy` (`School.Store`): the database as a class. It has one `seq`
  field per table and one AUTOINCREMENT counter per table. Each POST or
  GET handler that writes is a method that changes only its own tables.
  - Its loops are the SQL statements' row-by-row effect.
  - Each method's postcondition states the new table. `AddUser`,
    `CreateClass`, `AddMaterial`, `Enroll`, `EnrollOnce` and
    `SubmitHomework` state the appended row. `InitDb`, `DeleteUser`,
    `EditUser`, `ReviewHomework` and `RecordAttendance` state it as the
    function in `Tables`.
  - Each keeps `Valid()`: unique, in-range primary keys and unique
    usernames.
- `scenarios.dfy` (`Scenarios`): whole request sequences on a fresh
  store, proved from the handlers' contracts.
  - An admin adding a teacher and a student, the teacher creating a
    class, and the student enrolling, submitting homework and being graded.
  - A day's attendance recorded and then re-recorded.
  - A username added twice.
  - A repeated enrollment, refused by the corrected handler.

Inputs that come from outside the program are parameters:

- the session contents (`Caller`), form fields (`Option` where the code
  reads them with `.get`), uploaded files (`Upload`), password hashes,
  and the current date or timestamp.

Where the code behaves differently from what its messages suggest, the
model follows the code:

- `add_user` does not validate the role, so any string is stored.
- `enroll_class` stores a repeated enrollment. The enrollments table has
  no UNIQUE constraint, so its IntegrityError branch never runs. See
  Findings.
- Foreign keys are declared but SQLite does not enforce them by default.
  Deleting a user leaves their classes, homework, enrollments and
  attendance in place. The joins of the views then drop or blank those
  rows.
- `upload_material` checks neither that the class exists nor that the
  caller owns it.
- `submit_homework` does not check enrollment. For a class id with no row
  it fails on the lookup, before anything is stored (`ServerError`).
- `verify_homework` reports success even when no row matched.
- The attendance form's `status_<id>` entries are inserted as they come.
  Nothing checks that the student is enrolled.
- A clashing username in `edit_user` raises an uncaught IntegrityError.
  Nothing is committed (`IntegrityFailure`).

## Model

| member | source | states |
|---|---|---|
| Access.Admit | school_app.py:113-132 | the handler runs exactly when the session has a user id and a role among the allowed ones, and then for that user id; the login redirect happens exactly when the user id is missing |
| Access.Refusal | school_app.py:117-129 | a refused caller gets the login redirect exactly when not logged in, and otherwise the unauthorized message |
| Access.Home | school_app.py:134-144 | the root URL sends the caller to a dashboard exactly when logged in with role admin, teacher or student, and to the login page otherwise |
| Access.HomeAgreesWithGate | school_app.py:134-144 | the root URL sends a caller to a dashboard exactly when that dashboard's gate admits them |
| Tables.UsernameTaken | school_app.py:26-28 | a username is taken exactly when it is counted at least once |
| Tables.CountNamed | school_app.py:26-28 | the number of accounts with the username, at most the table's size, positive exactly when some account has it |
| Tables.CountNamedUnique | school_app.py:26-33 | under the UNIQUE username constraint a username names one account if taken and none otherwise |
| Tables.SeedUsers | school_app.py:98-103 | after seeding an account called admin exists, and the table is either unchanged or gains exactly the seed account |
| Tables.SeedIdempotent | school_app.py:98-103 | seeding a second time changes nothing |
| Tables.SeedLeavesOneAdmin | school_app.py:98-103 | seeding keeps usernames unique and leaves exactly one account called admin |
| Tables.NewCredential | school_app.py:238-240 | the password changes exactly when a non-empty new_password field is sent, and then to its hash |
| Tables.EditConflicts | school_app.py:235-236 | when the edited row exists and another row has the new username, the UPDATE would break the UNIQUE username constraint (school_app.py line 27), leaving two rows with that username, whatever the other columns |
| Tables.EditRows | school_app.py:235-240 | the row with the id gets the new name, username and (if any) password; every other row is unchanged; ids and roles never change |
| Tables.EditKeepsKeys | school_app.py:227-245 | an edit that does not clash keeps ids unique and in range and usernames unique |
| Tables.DeleteUserRows | school_app.py:219-222 | the remaining rows are exactly the old rows with another id |
| Tables.DeleteKeepsKeys | school_app.py:219-222 | deleting keeps ids unique and in range and usernames unique |
| Tables.ReviewRows | school_app.py:320-328 | only the submission with that id and that teacher gets the new status, grade and feedback; every row keeps all its other columns; no other row changes |
| Tables.ReviewByOtherTeacherIsNoOp | school_app.py:326-328 | a teacher other than the submission's teacher changes nothing |
| Tables.ReviewAgainOverwrites | school_app.py:326-328 | a second review of a submission overwrites the first |
| Tables.ReviewKeepsKeys | school_app.py:326-328 | a review keeps homework ids unique and in range |
| Tables.FormRows | school_app.py:387-392 | one inserted row per status entry, all for that class and date, with ids from the counter on |
| Tables.FormStatuses | school_app.py:387-392 | exactly the values the form sends under that student's status key, no more of them than form entries |
| Tables.ReplaceAttendance | school_app.py:382-392 | afterwards the rows of that class and date are exactly the form's rows, and the rows of every other class or date are exactly the old ones |
| Tables.FormRowsShape | school_app.py:387-392 | the rows the form inserts have distinct ids |
| Tables.ReplaceDay | school_app.py:382-392 | after recording, the rows of that class and date are exactly the rows of the form |
| Tables.ReplaceOtherDays | school_app.py:382-384 | the rows of every other class or date are unchanged |
| Tables.ReplaceNoResidue | school_app.py:382-392 | recording a day twice leaves no row of the first form |
| Tables.ReplaceKeepsKeys | school_app.py:379-392 | recording keeps attendance ids unique and below the advanced counter |
| Query.Where | school_app.py:180-181 | a WHERE clause keeps exactly the rows that satisfy it |
| Query.Select | school_app.py:256-263 | a join keeps no more rows than its input, every row it maps appears in the output, and every output row comes from an input row |
| Query.Update | school_app.py:235-236 | an UPDATE keeps the table's length and order, changes exactly the rows its WHERE selects, as the SET says, and leaves the others |
| Query.DistinctSelect | school_app.py:256-263 | a join that keeps each row's key yields one row per input row |
| Query.SelectCount | school_app.py:302-306 | a join yields a value once for every input row that maps to it |
| Ordering.SortDesc | school_app.py:256-263 | `ORDER BY ... DESC` yields the same rows, as a permutation, in descending TEXT order |
| Ordering.TextLe | school_app.py:262 | a prefix sorts no later than the longer string, and a string sorts no later only if its first character is no greater |
| Ordering.TextLeAntisymmetric | school_app.py:262 | two dates that each sort no later than the other are equal |
| Ordering.DistinctSort | school_app.py:256-263 | sorting keeps one row per key |
| Ordering.FirstIsGreatest | school_app.py:262 | the first row of a descending list has the greatest key: no row sorts later, and a row that sorts no earlier has the same key |
| Views.FindUser | school_app.py:259 | the joined user row has the id, and no row is found exactly when no user has that id |
| Views.FindUserById | school_app.py:26-27 | with a primary key on id, the join finds each user by its id |
| Views.FindClassById | school_app.py:35-36 | with a primary key on id, the join finds each class by its id |
| Views.FindClass | school_app.py:518-519 | the class row with that id, and none exactly when no class has it |
| Views.OwnedClass | school_app.py:294-295 | a class row with that id and teacher, and none exactly when the caller owns no class with that id |
| Views.TeacherName | school_app.py:182-186 | a name exactly when the class's teacher row exists; it is the full name of a user with the teacher's id, and, with unique ids, of that user |
| Views.FullName | school_app.py:257-259 | a name exactly when a user row with the id exists; it is that row's full name, and, with unique ids, the only one |
| Views.ClassTitle | school_app.py:432-434 | a title exactly when the class row exists; it is the title of a class with the id, and, with unique ids, of that class |
| Views.Joined | school_app.py:489-494 | the class with its teacher's name, and none exactly when the class or the teacher row is missing |
| Views.IsEnrolled | school_app.py:443-445 | enrolled exactly when the class id is among the class ids of the student's enrollment rows |
| Views.EnrolledAfterInsert | school_app.py:461-462 | after an enrollment insert, a pair is enrolled exactly when it was before or is the new pair |
| Views.TeacherClasses | school_app.py:253-254 | exactly the classes of the calling teacher |
| Views.TeacherHomework | school_app.py:256-263 | exactly the homework handed to the teacher whose student and class rows exist, newest first, with no more rows than submissions and, with unique submission ids, one row per submission |
| Views.NewestSubmissionFirst | school_app.py:256-263 | the dashboard's first row is its newest submission |
| Views.ClassStudents | school_app.py:302-306 | exactly the existing users with an enrollment in the class, with no more rows than enrollments |
| Views.ClassStudentsAppend | school_app.py:302-306 | each enrollment row of the class adds its student, when the user row exists, at the end |
| Views.ClassStudentsCount | school_app.py:302-306 | a student appears once per enrollment row linking them to the class, so a twice-enrolled student appears twice |
| Views.ClassMaterials | school_app.py:308-309 | exactly the materials of the class |
| Views.StatusesOf | school_app.py:404 | exactly the statuses recorded for the student in that class on that date, no more of them than records |
| Views.Shown | school_app.py:400-406 | the LEFT JOIN shows a single empty status exactly when nothing is recorded, and otherwise one entry per recorded status, in order |
| Views.RosterFor | school_app.py:400-406 | one roster row for the student per shown status, in order |
| Views.TodayRoster | school_app.py:400-406 | every roster row is an enrolled, existing student with a status as shown for that day, and every such pair appears |
| Views.TodayRosterAppend | school_app.py:400-406 | each enrollment row adds that enrollment's rows at the end |
| Views.EnrollmentRosterCount | school_app.py:400-406 | one enrollment row of the student shows each status as often as the day's records show it |
| Views.RosterForCount | school_app.py:400-406 | a student's rows show each status as often as it is shown |
| Views.TodayRosterCount | school_app.py:400-406 | a student with a status appears once per enrollment row in the class times each time that status is shown for them |
| Views.OneEnrollmentRoster | school_app.py:400-406 | a class with one enrollment row, whose student has one status that day, shows exactly that student with that status |
| Views.StatusesOfAppend | school_app.py:390-392 | the statuses of two row lists together are those of each in turn |
| Views.StatusesOfOne | school_app.py:404 | a single record carries its status exactly when it is the student's for that class and day |
| Views.FormRowsStatuses | school_app.py:387-392 | the rows inserted by a form carry, for each student, exactly the statuses the form sends for them |
| Views.RecordedStatuses | school_app.py:382-392 | after recording, a student's statuses for that day are exactly those of the form |
| Views.StatusesOfOtherDays | school_app.py:382-384 | the rows kept by the DELETE carry no status for that class and day |
| Views.RerecordShowsLatest | school_app.py:382-406 | after recording a day twice the roster shows only the second form's statuses |
| Views.StudentAttendance | school_app.py:545-552 | exactly the student's records whose class and teacher rows exist, latest date first, with no more rows than records and, with unique record ids, one row per record |
| Views.EnrolledClasses | school_app.py:422-428 | exactly the classes the student has an enrollment for whose class and teacher rows exist, with no more rows than enrollments |
| Views.AvailableClasses | school_app.py:440-447 | exactly the classes with an existing teacher that the student has no enrollment for |
| Views.StudentHomework | school_app.py:431-437 | exactly the student's homework whose class exists, newest first, with no more rows than submissions and, with unique submission ids, one row per submission |
| Views.EnrolledAndAvailableDisjoint | school_app.py:422-447 | no class is both listed as the student's and offered to them |
| Views.EnrollingRemovesFromAvailable | school_app.py:440-462 | enrolling removes exactly that class from the offered list |
| Views.EnrollingAppendsClass | school_app.py:422-462 | each enrollment of the student adds one row for its class to their list |
| Views.EnrollingTwiceListsTwice | school_app.py:455-470 | enrolling twice in a class lists it twice |
| Views.UniquePairsListOnce | school_app.py:465-466 | with unique (student, class) pairs a student's list shows each class at most once |
| Views.EnrollingKeepsPairsUnique | school_app.py:465-466 | adding a pair that is not yet enrolled keeps the pairs unique |
| Views.AdminOverview | school_app.py:179-186 | exactly the students and the teachers, and every class in order with its teacher's name, present exactly when the teacher row exists |
| Views.AdminDashboardPage | school_app.py:175-192 | shown exactly to an admin, with the overview; otherwise the gate's refusal |
| Views.TeacherDashboardPage | school_app.py:248-268 | shown exactly to a teacher, with exactly their classes and the homework view for them |
| Views.TeacherClassPage | school_app.py:289-315 | shown exactly to the teacher who owns the class, with its materials and enrolled students as the views give them; class-not-found for any other teacher |
| Views.TeacherAttendancePage | school_app.py:365-412 | shown exactly to the owning teacher, for the given date, with the day's roster |
| Views.StudentDashboardPage | school_app.py:415-453 | shown exactly to a student, with the enrolled-class, homework and offered-class views for them |
| Views.StudentClassPage | school_app.py:472-508 | shown exactly to a student enrolled in the class, with the class, its materials and exactly their own submissions for it; not-enrolled otherwise |
| Views.StudentAttendancePage | school_app.py:539-556 | shown exactly to a student, with the attendance view for them: only their own records, latest date first |
| School.Store.constructor | school_app.py:21-96 | a new database: empty tables, keys valid, every counter at 1 |
| School.Store.FindUsername | school_app.py:99-100 | true exactly when some account has the username |
| School.Store.InitDb | school_app.py:98-105 | the users table becomes the seeded table; the counter advances by the rows added; keys stay valid |
| School.Store.AddUser | school_app.py:194-214 | refused callers change nothing; a taken username fails with a duplicate error and changes nothing; otherwise exactly the new account is appended with the next id |
| School.Store.DeleteUser | school_app.py:216-225 | an admin's delete leaves exactly the delete's rows; nothing else changes |
| School.Store.EditWouldConflict | school_app.py:235-236 | true exactly when the edited row exists and another row already has the new username |
| School.Store.EditUser | school_app.py:227-245 | a clash fails and commits nothing; otherwise the table becomes the edit's rows, with the password replaced only for a non-empty new one |
| School.Store.CreateClass | school_app.py:270-287 | a teacher's class is appended with the next id, the teacher as owner, an empty link by default and status scheduled |
| School.Store.ReviewHomework | school_app.py:317-333 | a teacher's review turns the table into the review's rows, with empty grade and feedback by default, and reports success |
| School.Store.AddMaterial | school_app.py:335-363 | no file or an empty file name fails and stores nothing; otherwise the material is appended, titled by the form or by the secured file name |
| School.Store.DayDeleted | school_app.py:383-384 | the rows the DELETE leaves are exactly those of other classes or dates |
| School.Store.InsertForm | school_app.py:387-392 | the form's rows are appended in form order and the counter advances by their number |
| School.Store.RecordAttendance | school_app.py:365-397 | only for a class the teacher owns: the table becomes the replaced table; class-not-found otherwise, with nothing changed |
| School.Store.Enroll | school_app.py:455-470 | a student's enrollment is appended unconditionally, with the next id |
| School.Store.FindEnrollment | school_app.py:479-482 | true exactly when the student has an enrollment in the class |
| School.Store.EnrollOnce | school_app.py:455-470 | corrected enroll, see Findings: a repeated enrollment is refused and stores nothing; otherwise the enrollment is appended; unique pairs stay unique |
| School.Store.SubmitHomework | school_app.py:510-537 | a missing class fails before anything is stored; otherwise a pending submission for the class's teacher is appended, with the file path only for a named file |
| Scenarios.Seeded | school_app.py:194-214 | from a fresh database, the seeded admin adds a teacher, who gets id 2 |
| Scenarios.Staffed | school_app.py:194-214 | a student added after that gets id 3 |
| Scenarios.Classroom | school_app.py:455-470 | after the teacher creates class 1, the as-written enroll stores the student's enrollment |
| Scenarios.Reenrolled | school_app.py:455-470 | corrected enroll, see Findings: a second enrollment in the same class is refused and stores nothing |
| Scenarios.EnrollTwice | school_app.py:422-428 | corrected enroll, see Findings: after that, the student's list shows the class once, with its teacher's name |
| Scenarios.Submitted | school_app.py:510-537 | the submission is stored pending, handed to the class's teacher |
| Scenarios.Graded | school_app.py:317-333 | the teacher's review sets status reviewed and grade A |
| Scenarios.HomeworkLifecycle | school_app.py:431-447 | after enrolling, the class is not offered, and the student's homework list is exactly one row, HW1, graded A |
| Scenarios.Rerecorded | school_app.py:379-392 | recording present and then absent for one day leaves the doubly replaced table |
| Scenarios.AttendanceRerecord | school_app.py:400-406 | the day's roster is then exactly one row: the student, absent |
| Scenarios.AddTwice | school_app.py:204-210 | adding a new username twice: the first succeeds, the second fails as a duplicate, and the name names exactly one account |

## Findings

| source | as written | input that shows it | evidently intended | confidence | as-written member | corrected member |
|---|---|---|---|---|---|---|
| school_app.py:460-466 | the enrollments table (school_app.py:67-74) has no UNIQUE constraint on (student_id, class_id), so the INSERT never raises IntegrityError and the "already enrolled" branch can never run; a repeated enrollment is stored again | student 3 enrolls in class 1 twice: two enrollment rows, and the student's class list shows class 1 twice | a repeated enrollment is refused with the "already enrolled" message, and each class is listed once | high that the branch is dead; medium that refusal was intended; not executed | Views.EnrollingTwiceListsTwice | School.Store.EnrollOnce |

`School.Store.Enroll` models the code as written, and
`Views.EnrollingTwiceListsTwice` shows its repeated row. `EnrollOnce` is
the corrected handler. `Scenarios.Classroom` enrolls with `Enroll`, and
`Scenarios.Reenrolled` repeats the enrollment with `EnrollOnce`. `Views.UniquePairsListOnce`
proves that under it each class appears at most once in a student's list.

## Left out

- Rendering: templates, flash messages, redirects and HTTP status codes are left out. Each outcome is an `Outcome` or a `Result`.
- Login and logout: `check_password_hash` and the session cookie are not modelled. The session is the `Caller` parameter.
- Password hashing (`generate_password_hash`): hashes are opaque strings passed in.
- The seed password `admin123` appears only as the hash parameter of `InitDb`.
- File storage: `secure_filename`, `file.save`, `os.makedirs`, the upload folder paths and the timestamped homework file names are not modelled. An `Upload` carries the client name, the secured name and the stored path as given.
- `download_file` (school_app.py:558-561) only streams a file from disk, so it is left out.
- Clocks: `datetime.now()` and `CURRENT_TIMESTAMP` are parameters (`now`, `today`).
- The `created_at`, `enrolled_at` and `uploaded_at` columns are not modelled, because nothing reads them.
- Parsing of attendance form keys: `key.split('_')[1]` and SQLite's conversion of the id text to an integer are not modelled. A form entry is already a `StatusKey(id)` or another key.
- A form with a repeated key is richer in the model than a real form: Flask's `items()` yields one value per key.
- Ties in `ORDER BY ... DESC`: SQLite does not specify the order of rows with equal keys. The model keeps table order among equals, which is one of the orders SQLite may produce.
- SQL NULLs: `description` and `meeting_link` are stored as the empty string when the form leaves them out. `teacher_id` is always set by `create_class`, so it is an `int`.
- Missing required form fields (a `KeyError` and HTTP 400) are not modelled. The model takes every `request.form[...]` field as present.
- Connection handling, `MAX_CONTENT_LENGTH`, the app secret key and concurrency between requests are not modelled. Each handler is one atomic step.
- School.Store.Enroll: the IntegrityError branch of `enroll_class` is not modelled, because no constraint of the table can raise it.
- Scenarios.HomeworkLifecycle: states the homework list's single row rather than the whole row list.
