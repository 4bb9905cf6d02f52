/** Whole request sequences against one store: the end-to-end walks
    through the school, proved from the handlers' contracts alone. */
module Scenarios {
  import opened Wrappers
  import opened Schema
  import opened Access
  import opened Tables
  import opened Views
  import opened School

  /** A fresh database after init_db, and an admin session adding one
      teacher (id 2). */
  method Seeded(adminHash: string, teacherHash: string) returns (s: Store)
    ensures fresh(s) && s.Valid()
    ensures s.users == [SeedAccount(1, adminHash), User(2, "teacher1", teacherHash, "Teacher One", TEACHER)]
    ensures s.classes == [] && s.enrollments == [] && s.homework == [] && s.attendance == [] && s.materials == []
    ensures s.nextUserId == 3 && s.nextClassId == 1 && s.nextEnrollmentId == 1 && s.nextHomeworkId == 1 && s.nextAttendanceId == 1
  {
    s := new Store();
    assert !UsernameTaken([], SEED_USERNAME);
    s.InitDb(adminHash);
    assert s.users == [SeedAccount(1, adminHash)];
    var admin := Caller(Some(1), Some(ADMIN));
    assert Admit(admin, {ADMIN}).Granted?;
    assert !UsernameTaken(s.users, "teacher1") by {
      assert s.users[0].username == "admin" != "teacher1";
    }
    var r1 := s.AddUser(admin, "teacher1", teacherHash, "Teacher One", TEACHER);
  }

  /** Then one student (id 3). */
  method Staffed(adminHash: string, teacherHash: string, studentHash: string) returns (s: Store)
    ensures fresh(s) && s.Valid()
    ensures s.users == [SeedAccount(1, adminHash),
                        User(2, "teacher1", teacherHash, "Teacher One", TEACHER),
                        User(3, "student1", studentHash, "Student One", STUDENT)]
    ensures s.classes == [] && s.enrollments == [] && s.homework == [] && s.attendance == [] && s.materials == []
    ensures s.nextClassId == 1 && s.nextEnrollmentId == 1 && s.nextHomeworkId == 1 && s.nextAttendanceId == 1
  {
    s := Seeded(adminHash, teacherHash);
    var admin := Caller(Some(1), Some(ADMIN));
    assert Admit(admin, {ADMIN}).Granted?;
    assert !UsernameTaken(s.users, "student1") by {
      assert s.users[0].username == "admin" != "student1";
      assert s.users[1].username == "teacher1" != "student1";
    }
    var r2 := s.AddUser(admin, "student1", studentHash, "Student One", STUDENT);
  }

  /** Then the teacher creating class 1 and the student enrolling in it. */
  method Classroom(adminHash: string, teacherHash: string, studentHash: string) returns (s: Store)
    ensures fresh(s) && s.Valid()
    ensures s.users == [SeedAccount(1, adminHash),
                        User(2, "teacher1", teacherHash, "Teacher One", TEACHER),
                        User(3, "student1", studentHash, "Student One", STUDENT)]
    ensures s.classes == [Class(1, "Algebra", "", 2, "2024-01-10", "", SCHEDULED)]
    ensures s.enrollments == [Enrollment(1, 3, 1)]
    ensures s.homework == [] && s.attendance == [] && s.materials == []
    ensures s.nextHomeworkId == 1 && s.nextAttendanceId == 1
  {
    s := Staffed(adminHash, teacherHash, studentHash);
    var teacher := Caller(Some(2), Some(TEACHER));
    assert Admit(teacher, {TEACHER}).Granted?;
    var r3 := s.CreateClass(teacher, "Algebra", "", "2024-01-10", None);
    var student := Caller(Some(3), Some(STUDENT));
    assert Admit(student, {STUDENT}).Granted?;
    var r4 := s.Enroll(student, 1);
  }

  /** A second enrollment in the same class is refused and stores nothing. */
  method Reenrolled(adminHash: string, teacherHash: string, studentHash: string)
    returns (s: Store, second: Outcome)
    ensures second == Failed(AlreadyEnrolled)
    ensures s.users == [SeedAccount(1, adminHash),
                        User(2, "teacher1", teacherHash, "Teacher One", TEACHER),
                        User(3, "student1", studentHash, "Student One", STUDENT)]
    ensures s.classes == [Class(1, "Algebra", "", 2, "2024-01-10", "", SCHEDULED)]
    ensures s.enrollments == [Enrollment(1, 3, 1)]
  {
    s := Classroom(adminHash, teacherHash, studentHash);
    var student := Caller(Some(3), Some(STUDENT));
    assert Admit(student, {STUDENT}).Granted?;
    assert IsEnrolled(s.enrollments, 3, 1) by {
      assert s.enrollments[0] in s.enrollments;
    }
    second := s.EnrollOnce(student, 1);
  }

  /** After that the student's list shows the class once, with its
      teacher's name. */
  method EnrollTwice(adminHash: string, teacherHash: string, studentHash: string)
    returns (second: Outcome, listed: seq<ClassRow>)
    ensures second == Failed(AlreadyEnrolled)
    ensures |listed| == 1 && listed[0].cls.id == 1 && listed[0].teacherName == "Teacher One"
  {
    var s;
    s, second := Reenrolled(adminHash, teacherHash, studentHash);
    listed := EnrolledClasses(s.classes, s.users, s.enrollments, 3);
    assert FindClass(s.classes, 1) == Some(s.classes[0]);
    assert FindUser(s.users, 2) == Some(s.users[1]);
    assert TeacherName(s.users, s.classes[0]) == Some("Teacher One");
    var row := ClassRow(s.classes[0], "Teacher One");
    assert IsEnrolled(s.enrollments, 3, 1) by {
      assert s.enrollments[0] in s.enrollments;
    }
    assert row in listed;
  }

  /** Then the student submitting HW1 for class 1, with no file. */
  method Submitted(adminHash: string, teacherHash: string, studentHash: string, now: string) returns (s: Store)
    ensures fresh(s) && s.Valid()
    ensures s.classes == [Class(1, "Algebra", "", 2, "2024-01-10", "", SCHEDULED)]
    ensures s.enrollments == [Enrollment(1, 3, 1)]
    ensures s.homework == [Homework(1, 1, 3, 2, "HW1", "", None, now, PENDING, None, None)]
  {
    s := Classroom(adminHash, teacherHash, studentHash);
    var student := Caller(Some(3), Some(STUDENT));
    assert Admit(student, {STUDENT}).Granted?;
    assert FindClass(s.classes, 1) == Some(s.classes[0]);
    var r5 := s.SubmitHomework(student, 1, "HW1", None, None, now);
  }

  /** Then the teacher reviewing it with grade A and no feedback. */
  method Graded(adminHash: string, teacherHash: string, studentHash: string, now: string) returns (s: Store)
    ensures fresh(s) && s.Valid()
    ensures s.classes == [Class(1, "Algebra", "", 2, "2024-01-10", "", SCHEDULED)]
    ensures s.enrollments == [Enrollment(1, 3, 1)]
    ensures s.homework == [Homework(1, 1, 3, 2, "HW1", "", None, now, "reviewed", Some("A"), Some(""))]
  {
    s := Submitted(adminHash, teacherHash, studentHash, now);
    var teacher := Caller(Some(2), Some(TEACHER));
    assert Admit(teacher, {TEACHER}).Granted?;
    var r6 := s.ReviewHomework(teacher, 1, "reviewed", Some("A"), None);
  }

  /** Enrolling takes the class off the student's offer list; the
      submission, once reviewed with grade A, is the one row of the
      student's homework list. */
  method HomeworkLifecycle(adminHash: string, teacherHash: string, studentHash: string, now: string)
    returns (available: seq<ClassRow>, listed: seq<StudentHomeworkRow>)
    ensures forall row :: row in available ==> row.cls.id != 1
    ensures |listed| == 1
    ensures listed[0].hw.title == "HW1" && listed[0].classTitle == "Algebra"
    ensures listed[0].hw.status == "reviewed" && listed[0].hw.grade == Some("A")
  {
    var s := Graded(adminHash, teacherHash, studentHash, now);
    available := AvailableClasses(s.classes, s.users, s.enrollments, 3);
    assert IsEnrolled(s.enrollments, 3, 1) by {
      assert s.enrollments[0] in s.enrollments;
    }
    listed := StudentHomework(s.homework, s.classes, 3);
    var graded := s.homework[0];
    assert ClassTitle(s.classes, 1) == Some("Algebra");
    assert StudentHomeworkRow(graded, "Algebra") in listed;
  }

  /** The two attendance forms the teacher submits for class 1 on one day. */
  function Present(): seq<FormItem> { [FormItem(StatusKey(3), "present")] }
  function Absent(): seq<FormItem> { [FormItem(StatusKey(3), "absent")] }

  /** Then the teacher recording the student present on 2024-01-10, and
      then recording the same day again with the student absent. */
  method Rerecorded(adminHash: string, teacherHash: string, studentHash: string) returns (s: Store)
    ensures fresh(s) && s.Valid()
    ensures s.users == [SeedAccount(1, adminHash),
                        User(2, "teacher1", teacherHash, "Teacher One", TEACHER),
                        User(3, "student1", studentHash, "Student One", STUDENT)]
    ensures s.enrollments == [Enrollment(1, 3, 1)]
    ensures s.attendance == ReplaceAttendance(ReplaceAttendance([], 1, "2024-01-10", Present(), 1),
                                              1, "2024-01-10", Absent(), 2)
  {
    s := Classroom(adminHash, teacherHash, studentHash);
    var teacher := Caller(Some(2), Some(TEACHER));
    assert Admit(teacher, {TEACHER}).Granted?;
    assert OwnedClass(s.classes, 1, 2).Some?;
    var r1 := s.RecordAttendance(teacher, 1, "2024-01-10", Present());
    assert StatusCount(Present()) == 1 by {
      assert Present()[..0] == [];
    }
    var r2 := s.RecordAttendance(teacher, 1, "2024-01-10", Absent());
  }

  /** Recording the same day twice: the roster of that day is the student
      once, with the second form's status. */
  method AttendanceRerecord(adminHash: string, teacherHash: string, studentHash: string)
    returns (roster: seq<RosterRow>)
    ensures roster == [RosterRow(User(3, "student1", studentHash, "Student One", STUDENT), Some("absent"))]
  {
    var s := Rerecorded(adminHash, teacherHash, studentHash);
    var date := "2024-01-10";
    var student := User(3, "student1", studentHash, "Student One", STUDENT);
    RerecordShowsLatest([], 1, date, Present(), 1, Absent(), 2, 3);
    assert FormStatuses(Absent(), 3) == ["absent"] by {
      assert Absent()[..0] == [];
    }
    assert FindUser(s.users, 3) == Some(student);
    OneEnrollmentRoster(s.users, s.enrollments[0], s.attendance, 1, date, student, "absent");
    roster := TodayRoster(s.users, s.enrollments, s.attendance, 1, date);
  }

  /** Two add_user requests for one new username: the first inserts, the
      second is refused, and the name then names exactly one account. */
  method AddTwice(s: Store, caller: Caller, username: string, hash: string, fullName: string, role: string)
    returns (first: Outcome, second: Outcome)
    requires s.Valid() && Admit(caller, {ADMIN}).Granted? && !UsernameTaken(s.users, username)
    modifies s
    ensures s.Valid()
    ensures first == Done && second == Failed(DuplicateUsername)
    ensures CountNamed(s.users, username) == 1
  {
    first := s.AddUser(caller, username, hash, fullName, role);
    second := s.AddUser(caller, username, hash, fullName, role);
    CountNamedUnique(s.users, username);
  }
}
