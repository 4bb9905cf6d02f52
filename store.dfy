/** The database as a mutable store: one field per table, one
    AUTOINCREMENT counter per table, and the request handlers that insert,
    update and delete rows. Every handler first runs the gate; each one is
    a single atomic step on the store. */
module School {
  import opened Wrappers
  import opened Query
  import opened Schema
  import opened Access
  import opened Tables
  import opened Views

  /** The file part of an upload: the name the client sent, the name
      secure_filename made of it, and the path the file was saved under. */
  datatype Upload = Upload(clientName: string, safeName: string, storedPath: string)

  class Store {
    var users: seq<User>
    var classes: seq<Class>
    var homework: seq<Homework>
    var enrollments: seq<Enrollment>
    var materials: seq<Material>
    var attendance: seq<Attendance>

    /** The id each table hands out next: one more than the largest id it
        ever handed out, so a deleted id is never reused. */
    var nextUserId: int
    var nextClassId: int
    var nextHomeworkId: int
    var nextEnrollmentId: int
    var nextMaterialId: int
    var nextAttendanceId: int

    /** Every id is a PRIMARY KEY below its table's counter, and usernames
        are UNIQUE. */
    ghost predicate Valid()
      reads this
    {
      && Distinct(users, UserKey) && Distinct(users, UserName) && Below(users, UserKey, nextUserId) && nextUserId > 0
      && Distinct(classes, ClassKey) && Below(classes, ClassKey, nextClassId) && nextClassId > 0
      && Distinct(homework, HomeworkKey) && Below(homework, HomeworkKey, nextHomeworkId) && nextHomeworkId > 0
      && Distinct(enrollments, EnrollmentKey) && Below(enrollments, EnrollmentKey, nextEnrollmentId) && nextEnrollmentId > 0
      && Distinct(materials, MaterialKey) && Below(materials, MaterialKey, nextMaterialId) && nextMaterialId > 0
      && Distinct(attendance, AttendanceKey) && Below(attendance, AttendanceKey, nextAttendanceId) && nextAttendanceId > 0
    }

    /** The tables as a value, for the read-only views. */
    function Snapshot(): Db
      reads this
    {
      Db(users, classes, homework, enrollments, materials, attendance)
    }

    /** A new database file: the CREATE TABLE statements of init_db. */
    constructor ()
      ensures Valid() && Snapshot() == Db([], [], [], [], [], [])
      ensures nextUserId == 1 && nextClassId == 1 && nextHomeworkId == 1
      ensures nextEnrollmentId == 1 && nextMaterialId == 1 && nextAttendanceId == 1
    {
      users, classes, homework := [], [], [];
      enrollments, materials, attendance := [], [], [];
      nextUserId, nextClassId, nextHomeworkId := 1, 1, 1;
      nextEnrollmentId, nextMaterialId, nextAttendanceId := 1, 1, 1;
    }

    /** `SELECT * FROM users WHERE username = name`, is there a row. */
    method FindUsername(name: string) returns (taken: bool)
      ensures taken <==> exists u :: u in users && u.username == name
    {
      taken := false;
      var i := 0;
      while i < |users|
        invariant 0 <= i <= |users|
        invariant taken <==> exists u :: u in users[..i] && u.username == name
      {
        assert users[..i + 1] == users[..i] + [users[i]];
        taken := taken || users[i].username == name;
        i := i + 1;
      }
      assert users[..i] == users;
    }

    /** The seeding step of init_db: insert the admin account unless an
        account called admin exists. */
    method InitDb(adminHash: string)
      requires Valid()
      modifies this`users, this`nextUserId
      ensures Valid()
      ensures users == SeedUsers(old(users), old(nextUserId), adminHash)
      ensures nextUserId == old(nextUserId) + (|users| - |old(users)|)
    {
      var taken := FindUsername(SEED_USERNAME);
      if !taken {
        var row := SeedAccount(nextUserId, adminHash);
        KeyedAppend(users, row, UserKey, nextUserId);
        SeedLeavesOneAdmin(users, nextUserId, adminHash);
        users := users + [row];
        nextUserId := nextUserId + 1;
      }
    }

    /** add_user: an INSERT that the UNIQUE constraint on username rejects
        when the name is taken. */
    method AddUser(caller: Caller, username: string, passwordHash: string, fullName: string, role: string)
      returns (r: Outcome)
      requires Valid()
      modifies this`users, this`nextUserId
      ensures Valid()
      ensures !Admit(caller, {ADMIN}).Granted? ==>
        r == Failed(Refusal(Admit(caller, {ADMIN}))) && users == old(users) && nextUserId == old(nextUserId)
      ensures Admit(caller, {ADMIN}).Granted? && UsernameTaken(old(users), username) ==>
        r == Failed(DuplicateUsername) && users == old(users) && nextUserId == old(nextUserId)
      ensures Admit(caller, {ADMIN}).Granted? && !UsernameTaken(old(users), username) ==>
        r == Done && nextUserId == old(nextUserId) + 1 &&
        users == old(users) + [User(old(nextUserId), username, passwordHash, fullName, role)]
    {
      var access := Admit(caller, {ADMIN});
      if !access.Granted? {
        return Failed(Refusal(access));
      }
      var taken := FindUsername(username);
      if taken {
        return Failed(DuplicateUsername);
      }
      var row := User(nextUserId, username, passwordHash, fullName, role);
      KeyedAppend(users, row, UserKey, nextUserId);
      DistinctConcat(users, [row], UserName);
      users := users + [row];
      nextUserId := nextUserId + 1;
      r := Done;
    }

    /** delete_user: `DELETE FROM users WHERE id = uid`, with no cascade to
        the rows that refer to the account. */
    method DeleteUser(caller: Caller, uid: int) returns (r: Outcome)
      requires Valid()
      modifies this`users
      ensures Valid()
      ensures !Admit(caller, {ADMIN}).Granted? ==> r == Failed(Refusal(Admit(caller, {ADMIN}))) && users == old(users)
      ensures Admit(caller, {ADMIN}).Granted? ==> r == Done && users == DeleteUserRows(old(users), uid)
    {
      var access := Admit(caller, {ADMIN});
      if !access.Granted? {
        return Failed(Refusal(access));
      }
      var kept: seq<User> := [];
      var i := 0;
      while i < |users|
        invariant 0 <= i <= |users|
        invariant kept == DeleteUserRows(users[..i], uid)
      {
        assert users[..i + 1][..i] == users[..i];
        if users[i].id != uid {
          kept := kept + [users[i]];
        }
        i := i + 1;
      }
      assert users[..i] == users;
      DeleteKeepsKeys(users, uid, nextUserId);
      users := kept;
      r := Done;
    }

    /** Whether edit_user's UPDATE would violate the UNIQUE username
        constraint. */
    method EditWouldConflict(uid: int, username: string) returns (c: bool)
      ensures c == EditConflicts(users, uid, username)
    {
      var found, clash := false, false;
      var i := 0;
      while i < |users|
        invariant 0 <= i <= |users|
        invariant found <==> exists u :: u in users[..i] && u.id == uid
        invariant clash <==> exists v :: v in users[..i] && v.id != uid && v.username == username
      {
        assert users[..i + 1] == users[..i] + [users[i]];
        found := found || users[i].id == uid;
        clash := clash || (users[i].id != uid && users[i].username == username);
        i := i + 1;
      }
      assert users[..i] == users;
      c := found && clash;
    }

    /** edit_user: set the name and username of account `uid`, and its
        password when a non-empty new one is given. A username clash raises
        an uncaught IntegrityError and nothing is committed. */
    method EditUser(caller: Caller, uid: int, fullName: string, username: string,
                    newPassword: Option<string>, newHash: string) returns (r: Outcome)
      requires Valid()
      modifies this`users
      ensures Valid()
      ensures !Admit(caller, {ADMIN}).Granted? ==> r == Failed(Refusal(Admit(caller, {ADMIN}))) && users == old(users)
      ensures Admit(caller, {ADMIN}).Granted? && EditConflicts(old(users), uid, username) ==>
        r == Failed(IntegrityFailure) && users == old(users)
      ensures Admit(caller, {ADMIN}).Granted? && !EditConflicts(old(users), uid, username) ==>
        r == Done && users == EditRows(old(users), uid, fullName, username, NewCredential(newPassword, newHash))
    {
      var access := Admit(caller, {ADMIN});
      if !access.Granted? {
        return Failed(Refusal(access));
      }
      var conflict := EditWouldConflict(uid, username);
      if conflict {
        return Failed(IntegrityFailure);
      }
      var password := NewCredential(newPassword, newHash);
      var rows: seq<User> := [];
      var i := 0;
      while i < |users|
        invariant 0 <= i <= |users|
        invariant rows == EditRows(users[..i], uid, fullName, username, password)
      {
        assert users[..i + 1][..i] == users[..i];
        var u := users[i];
        rows := rows + [if u.id == uid then u.(fullName := fullName, username := username, password := password.GetOr(u.password)) else u];
        i := i + 1;
      }
      assert users[..i] == users;
      EditKeepsKeys(users, uid, fullName, username, password, nextUserId);
      users := rows;
      r := Done;
    }

    /** create_class: a new class owned by the calling teacher, with an
        empty meeting link when none is given and status scheduled. */
    method CreateClass(caller: Caller, title: string, description: string, classDate: string,
                       meetingLink: Option<string>) returns (r: Outcome)
      requires Valid()
      modifies this`classes, this`nextClassId
      ensures Valid()
      ensures !Admit(caller, {TEACHER}).Granted? ==>
        r == Failed(Refusal(Admit(caller, {TEACHER}))) && classes == old(classes) && nextClassId == old(nextClassId)
      ensures Admit(caller, {TEACHER}).Granted? ==>
        r == Done && nextClassId == old(nextClassId) + 1 &&
        classes == old(classes) + [Class(old(nextClassId), title, description, caller.userId.value,
                                         classDate, meetingLink.GetOr(""), SCHEDULED)]
    {
      var access := Admit(caller, {TEACHER});
      if !access.Granted? {
        return Failed(Refusal(access));
      }
      var row := Class(nextClassId, title, description, access.uid, classDate, meetingLink.GetOr(""), SCHEDULED);
      KeyedAppend(classes, row, ClassKey, nextClassId);
      classes := classes + [row];
      nextClassId := nextClassId + 1;
      r := Done;
    }

    /** verify_homework: the owner-scoped UPDATE of one submission; grade
        and feedback default to the empty string. It reports success even
        when no row matched. */
    method ReviewHomework(caller: Caller, hid: int, status: string, grade: Option<string>, feedback: Option<string>)
      returns (r: Outcome)
      requires Valid()
      modifies this`homework
      ensures Valid()
      ensures !Admit(caller, {TEACHER}).Granted? ==> r == Failed(Refusal(Admit(caller, {TEACHER}))) && homework == old(homework)
      ensures Admit(caller, {TEACHER}).Granted? ==>
        r == Done && homework == ReviewRows(old(homework), hid, caller.userId.value, status, grade.GetOr(""), feedback.GetOr(""))
    {
      var access := Admit(caller, {TEACHER});
      if !access.Granted? {
        return Failed(Refusal(access));
      }
      var g, f := grade.GetOr(""), feedback.GetOr("");
      var rows: seq<Homework> := [];
      var i := 0;
      while i < |homework|
        invariant 0 <= i <= |homework|
        invariant rows == ReviewRows(homework[..i], hid, access.uid, status, g, f)
      {
        assert homework[..i + 1][..i] == homework[..i];
        var h := homework[i];
        rows := rows + [if h.id == hid && h.teacherId == access.uid then h.(status := status, grade := Some(g), feedback := Some(f)) else h];
        i := i + 1;
      }
      assert homework[..i] == homework;
      ReviewKeepsKeys(homework, hid, access.uid, status, g, f, nextHomeworkId);
      homework := rows;
      r := Done;
    }

    /** upload_material: refuses a request without a file or with an empty
        file name; otherwise records the saved file for class `cid`, titled
        by the form or by the secured file name. Neither the class's owner
        nor its existence is checked. */
    method AddMaterial(caller: Caller, cid: int, file: Option<Upload>, title: Option<string>) returns (r: Outcome)
      requires Valid()
      modifies this`materials, this`nextMaterialId
      ensures Valid()
      ensures !Admit(caller, {TEACHER}).Granted? ==>
        r == Failed(Refusal(Admit(caller, {TEACHER}))) && materials == old(materials) && nextMaterialId == old(nextMaterialId)
      ensures Admit(caller, {TEACHER}).Granted? && (file.None? || file.value.clientName == "") ==>
        r == Failed(NoFileSelected) && materials == old(materials) && nextMaterialId == old(nextMaterialId)
      ensures Admit(caller, {TEACHER}).Granted? && file.Some? && file.value.clientName != "" ==>
        r == Done && nextMaterialId == old(nextMaterialId) + 1 &&
        materials == old(materials) + [Material(old(nextMaterialId), cid, title.GetOr(file.value.safeName), file.value.storedPath)]
    {
      var access := Admit(caller, {TEACHER});
      if !access.Granted? {
        return Failed(Refusal(access));
      }
      if file.None? || file.value.clientName == "" {
        return Failed(NoFileSelected);
      }
      var row := Material(nextMaterialId, cid, title.GetOr(file.value.safeName), file.value.storedPath);
      KeyedAppend(materials, row, MaterialKey, nextMaterialId);
      materials := materials + [row];
      nextMaterialId := nextMaterialId + 1;
      r := Done;
    }

    /** `DELETE FROM attendance WHERE class_id = cid AND date = date`:
        the rows that statement leaves. */
    method DayDeleted(cid: int, date: string) returns (kept: seq<Attendance>)
      ensures kept == Where(attendance, OtherDay(cid, date))
    {
      kept := [];
      var i := 0;
      while i < |attendance|
        invariant 0 <= i <= |attendance|
        invariant kept == Where(attendance[..i], OtherDay(cid, date))
      {
        assert attendance[..i + 1][..i] == attendance[..i];
        if !OnDay(attendance[i], cid, date) {
          kept := kept + [attendance[i]];
        }
        i := i + 1;
      }
      assert attendance[..i] == attendance;
    }

    /** The INSERT loop of teacher_attendance: one row per `status_<id>`
        entry, in form order. */
    method InsertForm(cid: int, date: string, form: seq<FormItem>)
      modifies this`attendance, this`nextAttendanceId
      ensures attendance == old(attendance) + FormRows(form, cid, date, old(nextAttendanceId))
      ensures nextAttendanceId == old(nextAttendanceId) + StatusCount(form)
    {
      var j := 0;
      while j < |form|
        invariant 0 <= j <= |form|
        invariant attendance == old(attendance) + FormRows(form[..j], cid, date, old(nextAttendanceId))
        invariant nextAttendanceId == old(nextAttendanceId) + StatusCount(form[..j])
      {
        assert form[..j + 1][..j] == form[..j];
        var item := form[j];
        if item.key.StatusKey? {
          attendance := attendance + [Attendance(nextAttendanceId, cid, item.key.studentId, date, item.value)];
          nextAttendanceId := nextAttendanceId + 1;
        }
        j := j + 1;
      }
      assert form[..j] == form;
    }

    /** The POST side of teacher_attendance: only for a class the caller
        owns, delete every row of (cid, date), then insert one row per
        `status_<id>` entry of the form. */
    method RecordAttendance(caller: Caller, cid: int, date: string, form: seq<FormItem>) returns (r: Outcome)
      requires Valid()
      modifies this`attendance, this`nextAttendanceId
      ensures Valid()
      ensures !Admit(caller, {TEACHER}).Granted? ==>
        r == Failed(Refusal(Admit(caller, {TEACHER}))) && attendance == old(attendance) && nextAttendanceId == old(nextAttendanceId)
      ensures Admit(caller, {TEACHER}).Granted? && OwnedClass(classes, cid, caller.userId.value).None? ==>
        r == Failed(ClassNotFound) && attendance == old(attendance) && nextAttendanceId == old(nextAttendanceId)
      ensures Admit(caller, {TEACHER}).Granted? && OwnedClass(classes, cid, caller.userId.value).Some? ==>
        r == Done && nextAttendanceId == old(nextAttendanceId) + StatusCount(form) &&
        attendance == ReplaceAttendance(old(attendance), cid, date, form, old(nextAttendanceId))
    {
      var access := Admit(caller, {TEACHER});
      if !access.Granted? {
        return Failed(Refusal(access));
      }
      if OwnedClass(classes, cid, access.uid).None? {
        return Failed(ClassNotFound);
      }
      ReplaceKeepsKeys(attendance, cid, date, form, nextAttendanceId);
      var kept := DayDeleted(cid, date);
      attendance := kept;
      InsertForm(cid, date, form);
      r := Done;
    }

    /** enroll_class: an unconditional INSERT; no constraint of the table
        can reject it, so even a repeated enrollment is stored. */
    method Enroll(caller: Caller, cid: int) returns (r: Outcome)
      requires Valid()
      modifies this`enrollments, this`nextEnrollmentId
      ensures Valid()
      ensures !Admit(caller, {STUDENT}).Granted? ==>
        r == Failed(Refusal(Admit(caller, {STUDENT}))) && enrollments == old(enrollments) && nextEnrollmentId == old(nextEnrollmentId)
      ensures Admit(caller, {STUDENT}).Granted? ==>
        r == Done && nextEnrollmentId == old(nextEnrollmentId) + 1 &&
        enrollments == old(enrollments) + [Enrollment(old(nextEnrollmentId), caller.userId.value, cid)]
    {
      var access := Admit(caller, {STUDENT});
      if !access.Granted? {
        return Failed(Refusal(access));
      }
      var row := Enrollment(nextEnrollmentId, access.uid, cid);
      KeyedAppend(enrollments, row, EnrollmentKey, nextEnrollmentId);
      enrollments := enrollments + [row];
      nextEnrollmentId := nextEnrollmentId + 1;
      r := Done;
    }

    /** `SELECT * FROM enrollments WHERE student_id = sid AND class_id = cid`,
        is there a row. */
    method FindEnrollment(sid: int, cid: int) returns (found: bool)
      ensures found == IsEnrolled(enrollments, sid, cid)
    {
      found := false;
      var i := 0;
      while i < |enrollments|
        invariant 0 <= i <= |enrollments|
        invariant found == IsEnrolled(enrollments[..i], sid, cid)
      {
        EnrolledAfterInsert(enrollments[..i], enrollments[i], sid, cid);
        assert enrollments[..i + 1] == enrollments[..i] + [enrollments[i]];
        found := found || (enrollments[i].studentId == sid && enrollments[i].classId == cid);
        i := i + 1;
      }
      assert enrollments[..i] == enrollments;
    }

    /** enroll_class as its duplicate-enrollment branch intends it: a
        second enrollment of a student in the same class is refused, so
        the (student, class) pairs stay unique. */
    method EnrollOnce(caller: Caller, cid: int) returns (r: Outcome)
      requires Valid()
      modifies this`enrollments, this`nextEnrollmentId
      ensures Valid()
      ensures Distinct(old(enrollments), EnrollmentPair) ==> Distinct(enrollments, EnrollmentPair)
      ensures !Admit(caller, {STUDENT}).Granted? ==>
        r == Failed(Refusal(Admit(caller, {STUDENT}))) && enrollments == old(enrollments) && nextEnrollmentId == old(nextEnrollmentId)
      ensures Admit(caller, {STUDENT}).Granted? && IsEnrolled(old(enrollments), caller.userId.value, cid) ==>
        r == Failed(AlreadyEnrolled) && enrollments == old(enrollments) && nextEnrollmentId == old(nextEnrollmentId)
      ensures Admit(caller, {STUDENT}).Granted? && !IsEnrolled(old(enrollments), caller.userId.value, cid) ==>
        r == Done && nextEnrollmentId == old(nextEnrollmentId) + 1 &&
        enrollments == old(enrollments) + [Enrollment(old(nextEnrollmentId), caller.userId.value, cid)]
    {
      var access := Admit(caller, {STUDENT});
      if !access.Granted? {
        return Failed(Refusal(access));
      }
      var found := FindEnrollment(access.uid, cid);
      if found {
        return Failed(AlreadyEnrolled);
      }
      var row := Enrollment(nextEnrollmentId, access.uid, cid);
      KeyedAppend(enrollments, row, EnrollmentKey, nextEnrollmentId);
      if Distinct(enrollments, EnrollmentPair) {
        EnrollingKeepsPairsUnique(enrollments, nextEnrollmentId, access.uid, cid);
      }
      enrollments := enrollments + [row];
      nextEnrollmentId := nextEnrollmentId + 1;
      r := Done;
    }

    /** submit_homework: a pending submission handed to the class's teacher,
        stamped `now`, with the saved file's path when a named file came
        with it. A class id with no row fails before anything is stored.
        Enrollment is not checked. */
    method SubmitHomework(caller: Caller, cid: int, title: string, description: Option<string>,
                          file: Option<Upload>, now: string) returns (r: Outcome)
      requires Valid()
      modifies this`homework, this`nextHomeworkId
      ensures Valid()
      ensures !Admit(caller, {STUDENT}).Granted? ==>
        r == Failed(Refusal(Admit(caller, {STUDENT}))) && homework == old(homework) && nextHomeworkId == old(nextHomeworkId)
      ensures Admit(caller, {STUDENT}).Granted? && FindClass(classes, cid).None? ==>
        r == Failed(ServerError) && homework == old(homework) && nextHomeworkId == old(nextHomeworkId)
      ensures Admit(caller, {STUDENT}).Granted? && FindClass(classes, cid).Some? ==>
        r == Done && nextHomeworkId == old(nextHomeworkId) + 1 &&
        homework == old(homework) + [Homework(
          old(nextHomeworkId), cid, caller.userId.value, FindClass(classes, cid).value.teacherId,
          title, description.GetOr(""),
          if file.Some? && file.value.clientName != "" then Some(file.value.storedPath) else None,
          now, PENDING, None, None)]
    {
      var access := Admit(caller, {STUDENT});
      if !access.Granted? {
        return Failed(Refusal(access));
      }
      var cls := FindClass(classes, cid);
      if cls.None? {
        return Failed(ServerError);
      }
      var path := if file.Some? && file.value.clientName != "" then Some(file.value.storedPath) else None;
      var row := Homework(nextHomeworkId, cid, access.uid, cls.value.teacherId, title, description.GetOr(""),
                          path, now, PENDING, None, None);
      KeyedAppend(homework, row, HomeworkKey, nextHomeworkId);
      homework := homework + [row];
      nextHomeworkId := nextHomeworkId + 1;
      r := Done;
    }
  }
}
