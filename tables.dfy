/** What the handlers' INSERT, UPDATE and DELETE statements do to a table,
    as functions of the table before the statement. */
module Tables {
  import opened Wrappers
  import opened Query
  import opened Schema

  // ----- users -----

  /** Some account is called `name`: the username is counted at least once. */
  predicate UsernameTaken(us: seq<User>, name: string): (t: bool)
    ensures t <==> CountNamed(us, name) > 0
  {
    exists u :: u in us && u.username == name
  }

  /** The number of accounts called `name`. */
  function CountNamed(us: seq<User>, name: string): (n: nat)
    ensures n <= |us|
    ensures n > 0 <==> exists u :: u in us && u.username == name
  {
    if us == [] then 0
    else
      var init, last := us[..|us| - 1], us[|us| - 1];
      assert us == init + [last];
      CountNamed(init, name) + (if last.username == name then 1 else 0)
  }

  /** Under the UNIQUE constraint a username names at most one account. */
  lemma {:induction false} CountNamedUnique(us: seq<User>, name: string)
    requires Distinct(us, UserName)
    ensures CountNamed(us, name) == if UsernameTaken(us, name) then 1 else 0
  {
    if us != [] {
      var init, last := us[..|us| - 1], us[|us| - 1];
      assert us == init + [last];
      assert Distinct(init, UserName);
      CountNamedUnique(init, name);
      if last.username == name {
        forall u | u in init ensures u.username != name {
          var k :| 0 <= k < |init| && init[k] == u;
          assert UserName(us[k]) != UserName(us[|us| - 1]);
        }
      }
    }
  }

  /** The row init_db inserts when no account is called admin. */
  function SeedAccount(id: int, passwordHash: string): User {
    User(id, SEED_USERNAME, passwordHash, SEED_FULL_NAME, ADMIN)
  }

  /** The users table after init_db's seeding step. */
  function SeedUsers(us: seq<User>, next: int, passwordHash: string): (r: seq<User>)
    ensures UsernameTaken(r, SEED_USERNAME)
    ensures r == us || r == us + [SeedAccount(next, passwordHash)]
  {
    if UsernameTaken(us, SEED_USERNAME) then us
    else
      assert SeedAccount(next, passwordHash) in us + [SeedAccount(next, passwordHash)];
      us + [SeedAccount(next, passwordHash)]
  }

  /** Seeding a second time changes nothing. */
  lemma SeedIdempotent(us: seq<User>, n1: int, h1: string, n2: int, h2: string)
    ensures SeedUsers(SeedUsers(us, n1, h1), n2, h2) == SeedUsers(us, n1, h1)
  {
  }

  /** Seeding a table with unique usernames keeps them unique and leaves
      exactly one account called admin, however often it runs. */
  lemma SeedLeavesOneAdmin(us: seq<User>, next: int, passwordHash: string)
    requires Distinct(us, UserName)
    ensures Distinct(SeedUsers(us, next, passwordHash), UserName)
    ensures CountNamed(SeedUsers(us, next, passwordHash), SEED_USERNAME) == 1
  {
    var r := SeedUsers(us, next, passwordHash);
    if r != us {
      DistinctConcat(us, [SeedAccount(next, passwordHash)], UserName);
    }
    CountNamedUnique(r, SEED_USERNAME);
  }

  /** The password column after edit_user: a new hash only when the form's
      new_password field is present and not empty. */
  function NewCredential(newPassword: Option<string>, newHash: string): (r: Option<string>)
    ensures r.Some? <==> newPassword.Some? && newPassword.value != ""
    ensures r.Some? ==> r.value == newHash
  {
    if newPassword.Some? && newPassword.value != "" then Some(newHash) else None
  }

  function IsUser(uid: int): User -> bool {
    (u: User) => u.id == uid
  }

  function NotUser(uid: int): User -> bool {
    (u: User) => u.id != uid
  }

  function Edited(fullName: string, username: string, password: Option<string>): User -> User {
    (u: User) => u.(fullName := fullName, username := username, password := password.GetOr(u.password))
  }

  /** The UPDATE of edit_user would break the UNIQUE username constraint:
      it changes some row, and another row already has the new username. */
  predicate EditConflicts(us: seq<User>, uid: int, username: string): (c: bool)
    ensures c ==> forall fullName, password :: !Distinct(EditRows(us, uid, fullName, username, password), UserName)
  {
    var c := (exists u :: u in us && u.id == uid) && (exists v :: v in us && v.id != uid && v.username == username);
    assert c ==> forall fullName, password :: !Distinct(EditRows(us, uid, fullName, username, password), UserName) by {
      if c {
        var u :| u in us && u.id == uid;
        var v :| v in us && v.id != uid && v.username == username;
        var i :| 0 <= i < |us| && us[i] == u;
        var j :| 0 <= j < |us| && us[j] == v;
        forall fullName, password ensures !Distinct(EditRows(us, uid, fullName, username, password), UserName) {
          var r := EditRows(us, uid, fullName, username, password);
          assert UserName(r[i]) == UserName(r[j]);
          if i < j {
            assert !(UserName(r[i]) != UserName(r[j]));
          } else {
            assert !(UserName(r[j]) != UserName(r[i]));
          }
        }
      }
    }
    c
  }

  /** `UPDATE users SET full_name, username [, password] WHERE id = uid`. */
  function EditRows(us: seq<User>, uid: int, fullName: string, username: string, password: Option<string>): (r: seq<User>)
    ensures |r| == |us|
    ensures forall i :: 0 <= i < |us| && us[i].id == uid ==>
      r[i].fullName == fullName && r[i].username == username && r[i].password == password.GetOr(us[i].password)
    ensures forall i :: 0 <= i < |us| && us[i].id != uid ==> r[i] == us[i]
    ensures forall i :: 0 <= i < |us| ==> r[i].id == us[i].id && r[i].role == us[i].role
  {
    Update(us, IsUser(uid), Edited(fullName, username, password))
  }

  /** An edit that passes the UNIQUE check keeps both key constraints. */
  lemma EditKeepsKeys(us: seq<User>, uid: int, fullName: string, username: string, password: Option<string>, bound: int)
    requires Distinct(us, UserKey) && Distinct(us, UserName) && Below(us, UserKey, bound)
    requires !EditConflicts(us, uid, username)
    ensures var r := EditRows(us, uid, fullName, username, password);
      Distinct(r, UserKey) && Distinct(r, UserName) && Below(r, UserKey, bound)
  {
    var r := EditRows(us, uid, fullName, username, password);
    SameKeys(us, r, UserKey);
    forall i, j | 0 <= i < j < |r| ensures UserName(r[i]) != UserName(r[j]) {
      assert UserKey(us[i]) != UserKey(us[j]);
      if us[i].id == uid && us[j].id != uid {
        assert us[i] in us && us[j] in us;
      } else if us[i].id != uid && us[j].id == uid {
        assert us[i] in us && us[j] in us;
      } else {
        assert UserName(us[i]) != UserName(us[j]);
      }
    }
  }

  /** `DELETE FROM users WHERE id = uid`. */
  function DeleteUserRows(us: seq<User>, uid: int): (r: seq<User>)
    ensures forall u :: u in r <==> u in us && u.id != uid
  {
    Where(us, NotUser(uid))
  }

  lemma DeleteKeepsKeys(us: seq<User>, uid: int, bound: int)
    requires Distinct(us, UserKey) && Distinct(us, UserName) && Below(us, UserKey, bound)
    ensures var r := DeleteUserRows(us, uid);
      Distinct(r, UserKey) && Distinct(r, UserName) && Below(r, UserKey, bound)
  {
    DistinctWhere(us, NotUser(uid), UserKey);
    DistinctWhere(us, NotUser(uid), UserName);
  }

  // ----- homework -----

  function Reviewable(hid: int, tid: int): Homework -> bool {
    (h: Homework) => h.id == hid && h.teacherId == tid
  }

  function Reviewed(status: string, grade: string, feedback: string): Homework -> Homework {
    (h: Homework) => h.(status := status, grade := Some(grade), feedback := Some(feedback))
  }

  /** `UPDATE homework SET status, grade, feedback WHERE id = hid AND
      teacher_id = tid`: only the submission `hid`, and only when `tid` is
      the teacher it was handed to, gets the review; every row keeps its
      id, class, student, teacher, title, file and submission date. */
  function ReviewRows(hw: seq<Homework>, hid: int, tid: int, status: string, grade: string, feedback: string): (r: seq<Homework>)
    ensures |r| == |hw|
    ensures forall i :: 0 <= i < |hw| && hw[i].id == hid && hw[i].teacherId == tid ==>
      r[i].status == status && r[i].grade == Some(grade) && r[i].feedback == Some(feedback)
    ensures forall i :: 0 <= i < |hw| && !(hw[i].id == hid && hw[i].teacherId == tid) ==> r[i] == hw[i]
    ensures forall i :: 0 <= i < |hw| ==>
      r[i].(status := hw[i].status, grade := hw[i].grade, feedback := hw[i].feedback) == hw[i]
  {
    Update(hw, Reviewable(hid, tid), Reviewed(status, grade, feedback))
  }

  /** A teacher who is not the submission's teacher changes nothing. */
  lemma ReviewByOtherTeacherIsNoOp(hw: seq<Homework>, hid: int, tid: int, status: string, grade: string, feedback: string)
    requires forall h :: h in hw && h.id == hid ==> h.teacherId != tid
    ensures ReviewRows(hw, hid, tid, status, grade, feedback) == hw
  {
    var r := ReviewRows(hw, hid, tid, status, grade, feedback);
    forall i | 0 <= i < |hw| ensures r[i] == hw[i] {
      assert hw[i] in hw;
    }
  }

  /** A second review of the same submission overwrites the first. */
  lemma ReviewAgainOverwrites(hw: seq<Homework>, hid: int, tid: int,
                              s1: string, g1: string, f1: string, s2: string, g2: string, f2: string)
    ensures ReviewRows(ReviewRows(hw, hid, tid, s1, g1, f1), hid, tid, s2, g2, f2) == ReviewRows(hw, hid, tid, s2, g2, f2)
  {
  }

  lemma ReviewKeepsKeys(hw: seq<Homework>, hid: int, tid: int, status: string, grade: string, feedback: string, bound: int)
    requires Distinct(hw, HomeworkKey) && Below(hw, HomeworkKey, bound)
    ensures var r := ReviewRows(hw, hid, tid, status, grade, feedback);
      Distinct(r, HomeworkKey) && Below(r, HomeworkKey, bound)
  {
    var r := ReviewRows(hw, hid, tid, status, grade, feedback);
    forall i | 0 <= i < |hw| ensures HomeworkKey(r[i]) == HomeworkKey(hw[i]) {
      assert r[i].id == r[i].(status := hw[i].status, grade := hw[i].grade, feedback := hw[i].feedback).id;
    }
    SameKeys(hw, r, HomeworkKey);
  }

  // ----- attendance -----

  /** A key of the submitted attendance form: `status_<id>` for a student,
      anything else (the `date` field among them) otherwise. */
  datatype FormKey = StatusKey(studentId: int) | OtherKey(name: string)
  datatype FormItem = FormItem(key: FormKey, value: string)

  predicate OnDay(a: Attendance, cid: int, date: string) {
    a.classId == cid && a.date == date
  }

  function DayOf(cid: int, date: string): Attendance -> bool {
    (a: Attendance) => OnDay(a, cid, date)
  }

  function OtherDay(cid: int, date: string): Attendance -> bool {
    (a: Attendance) => !OnDay(a, cid, date)
  }

  /** The number of `status_<id>` entries of the form. */
  function StatusCount(form: seq<FormItem>): nat {
    if form == [] then 0
    else StatusCount(form[..|form| - 1]) + (if form[|form| - 1].key.StatusKey? then 1 else 0)
  }

  /** The rows that the form loop inserts: one per `status_<id>` entry, all
      for (cid, date), with ids `next`, `next + 1`, ... */
  function FormRows(form: seq<FormItem>, cid: int, date: string, next: int): (r: seq<Attendance>)
    ensures |r| == StatusCount(form)
    ensures forall a :: a in r ==> OnDay(a, cid, date) && next <= a.id < next + StatusCount(form)
  {
    if form == [] then []
    else
      var init, item := form[..|form| - 1], form[|form| - 1];
      FormRows(init, cid, date, next) +
        (if item.key.StatusKey?
         then [Attendance(next + StatusCount(init), cid, item.key.studentId, date, item.value)]
         else [])
  }

  /** The statuses the form submits for student `sid`, in form order. */
  function FormStatuses(form: seq<FormItem>, sid: int): (r: seq<string>)
    ensures |r| <= |form|
    ensures forall v :: v in r <==> FormItem(StatusKey(sid), v) in form
  {
    if form == [] then []
    else
      var init, item := form[..|form| - 1], form[|form| - 1];
      assert form == init + [item];
      FormStatuses(init, sid) + (if item.key == StatusKey(sid) then [item.value] else [])
  }

  /** The attendance table after the POST: every row for (cid, date) is
      deleted, then one row is inserted per `status_<id>` entry. */
  function ReplaceAttendance(att: seq<Attendance>, cid: int, date: string, form: seq<FormItem>, next: int): (r: seq<Attendance>)
    ensures forall a :: a in r && OnDay(a, cid, date) <==> a in FormRows(form, cid, date, next)
    ensures forall a :: a in r && !OnDay(a, cid, date) <==> a in att && !OnDay(a, cid, date)
  {
    Where(att, OtherDay(cid, date)) + FormRows(form, cid, date, next)
  }

  /** The inserted rows have distinct ids. */
  lemma {:induction false} FormRowsShape(form: seq<FormItem>, cid: int, date: string, next: int)
    ensures Distinct(FormRows(form, cid, date, next), AttendanceKey)
  {
    if form != [] {
      var init, item := form[..|form| - 1], form[|form| - 1];
      FormRowsShape(init, cid, date, next);
      var rows := FormRows(init, cid, date, next);
      if item.key.StatusKey? {
        var row := Attendance(next + StatusCount(init), cid, item.key.studentId, date, item.value);
        DistinctConcat(rows, [row], AttendanceKey);
      }
    }
  }

  /** Afterwards the rows for (cid, date) are exactly the form's rows. */
  lemma ReplaceDay(att: seq<Attendance>, cid: int, date: string, form: seq<FormItem>, next: int)
    ensures Where(ReplaceAttendance(att, cid, date, form, next), DayOf(cid, date)) == FormRows(form, cid, date, next)
  {
    var kept, rows := Where(att, OtherDay(cid, date)), FormRows(form, cid, date, next);
    WhereAppend(kept, rows, DayOf(cid, date));
    WhereNone(kept, DayOf(cid, date));
    FormRowsShape(form, cid, date, next);
    WhereAll(rows, DayOf(cid, date));
  }

  /** The rows of every other (class, date) pair are left as they were. */
  lemma ReplaceOtherDays(att: seq<Attendance>, cid: int, date: string, form: seq<FormItem>, next: int, c2: int, d2: string)
    requires c2 != cid || d2 != date
    ensures Where(ReplaceAttendance(att, cid, date, form, next), DayOf(c2, d2)) == Where(att, DayOf(c2, d2))
  {
    var kept, rows := Where(att, OtherDay(cid, date)), FormRows(form, cid, date, next);
    WhereAppend(kept, rows, DayOf(c2, d2));
    WhereNarrow(att, OtherDay(cid, date), DayOf(c2, d2));
    FormRowsShape(form, cid, date, next);
    WhereNone(rows, DayOf(c2, d2));
  }

  /** Recording the same day twice leaves no trace of the first form. */
  lemma ReplaceNoResidue(att: seq<Attendance>, cid: int, date: string,
                         a: seq<FormItem>, n1: int, b: seq<FormItem>, n2: int)
    ensures ReplaceAttendance(ReplaceAttendance(att, cid, date, a, n1), cid, date, b, n2)
         == ReplaceAttendance(att, cid, date, b, n2)
  {
    var other := OtherDay(cid, date);
    var kept, rows := Where(att, other), FormRows(a, cid, date, n1);
    assert ReplaceAttendance(att, cid, date, a, n1) == kept + rows;
    WhereAppend(kept, rows, other);
    WhereNarrow(att, other, other);
    FormRowsShape(a, cid, date, n1);
    WhereNone(rows, other);
    assert Where(kept + rows, other) == kept;
  }

  lemma ReplaceKeepsKeys(att: seq<Attendance>, cid: int, date: string, form: seq<FormItem>, next: int)
    requires Distinct(att, AttendanceKey) && Below(att, AttendanceKey, next) && next > 0
    ensures var r := ReplaceAttendance(att, cid, date, form, next);
      Distinct(r, AttendanceKey) && Below(r, AttendanceKey, next + StatusCount(form))
  {
    var kept, rows := Where(att, OtherDay(cid, date)), FormRows(form, cid, date, next);
    DistinctWhere(att, OtherDay(cid, date), AttendanceKey);
    FormRowsShape(form, cid, date, next);
    DistinctConcat(kept, rows, AttendanceKey);
  }
}
