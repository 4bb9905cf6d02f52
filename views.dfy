/** The SELECT statements of the dashboards and class pages, as functions
    of the database, and each page's handler: the gate, the ownership or
    enrollment check, then the queries. Inner joins on a table's id column
    are lookups of the first row with that id; `id` is the PRIMARY KEY, so
    there is at most one. */
module Views {
  import opened Wrappers
  import opened Query
  import opened Ordering
  import opened Schema
  import opened Access
  import opened Tables

  datatype ClassRow = ClassRow(cls: Class, teacherName: string)
  datatype AdminClassRow = AdminClassRow(cls: Class, teacherName: Option<string>)
  datatype TeacherHomeworkRow = TeacherHomeworkRow(hw: Homework, studentName: string, classTitle: string)
  datatype StudentHomeworkRow = StudentHomeworkRow(hw: Homework, classTitle: string)
  datatype RosterRow = RosterRow(student: User, todayStatus: Option<string>)
  datatype AttendanceRow = AttendanceRow(record: Attendance, classTitle: string, teacherName: string)

  datatype AdminHome = AdminHome(students: seq<User>, teachers: seq<User>, classes: seq<AdminClassRow>)
  datatype TeacherHome = TeacherHome(classes: seq<Class>, homework: seq<TeacherHomeworkRow>)
  datatype TeacherClass = TeacherClass(info: Class, students: seq<User>, materials: seq<Material>)
  datatype TeacherRoster = TeacherRoster(info: Class, students: seq<RosterRow>, today: string)
  datatype StudentHome = StudentHome(classes: seq<ClassRow>, homework: seq<StudentHomeworkRow>, available: seq<ClassRow>)
  datatype StudentClass = StudentClass(info: Option<ClassRow>, materials: seq<Material>, homework: seq<Homework>)

  // ----- lookups and joins -----

  function FindUser(us: seq<User>, id: int): (r: Option<User>)
    ensures r.Some? ==> r.value in us && r.value.id == id
    ensures r.None? <==> forall u :: u in us ==> u.id != id
  {
    if us == [] then None
    else if us[0].id == id then Some(us[0])
    else FindUser(us[1..], id)
  }

  function FindClass(cs: seq<Class>, id: int): (r: Option<Class>)
    ensures r.Some? ==> r.value in cs && r.value.id == id
    ensures r.None? <==> forall c :: c in cs ==> c.id != id
  {
    if cs == [] then None
    else if cs[0].id == id then Some(cs[0])
    else FindClass(cs[1..], id)
  }

  /** With distinct ids the lookup finds each row by its own id. */
  lemma {:induction false} FindUserById(us: seq<User>, u: User)
    requires Distinct(us, UserKey) && u in us
    ensures FindUser(us, u.id) == Some(u)
  {
    if us[0] != u {
      assert UserKey(us[0]) != UserKey(u) by {
        var k :| 0 <= k < |us| && us[k] == u;
        assert k != 0;
      }
      assert Distinct(us[1..], UserKey);
      FindUserById(us[1..], u);
    }
  }

  lemma {:induction false} FindClassById(cs: seq<Class>, c: Class)
    requires Distinct(cs, ClassKey) && c in cs
    ensures FindClass(cs, c.id) == Some(c)
  {
    if cs[0] != c {
      assert ClassKey(cs[0]) != ClassKey(c) by {
        var k :| 0 <= k < |cs| && cs[k] == c;
        assert k != 0;
      }
      assert Distinct(cs[1..], ClassKey);
      FindClassById(cs[1..], c);
    }
  }

  /** `SELECT * FROM classes WHERE id = cid AND teacher_id = uid`, first row. */
  function OwnedClass(cs: seq<Class>, cid: int, uid: int): (r: Option<Class>)
    ensures r.Some? ==> r.value in cs && r.value.id == cid && r.value.teacherId == uid
    ensures r.None? <==> forall c :: c in cs ==> !(c.id == cid && c.teacherId == uid)
  {
    if cs == [] then None
    else if cs[0].id == cid && cs[0].teacherId == uid then Some(cs[0])
    else OwnedClass(cs[1..], cid, uid)
  }

  /** The teacher's full name through `JOIN users u ON c.teacher_id = u.id`;
      none when no such user row exists. */
  function TeacherName(us: seq<User>, c: Class): (r: Option<string>)
    ensures r.Some? <==> exists u :: u in us && u.id == c.teacherId
    ensures r.Some? ==> exists u :: u in us && u.id == c.teacherId && u.fullName == r.value
    ensures Distinct(us, UserKey) ==> forall u :: u in us && u.id == c.teacherId ==> r == Some(u.fullName)
  {
    FullName(us, c.teacherId)
  }

  /** The full name of user `id`; with unique ids, the name on that row. */
  function FullName(us: seq<User>, id: int): (r: Option<string>)
    ensures r.Some? <==> exists u :: u in us && u.id == id
    ensures r.Some? ==> exists u :: u in us && u.id == id && u.fullName == r.value
    ensures Distinct(us, UserKey) ==> forall u :: u in us && u.id == id ==> r == Some(u.fullName)
  {
    assert Distinct(us, UserKey) ==> forall u :: u in us && u.id == id ==> FindUser(us, id) == Some(u) by {
      if Distinct(us, UserKey) {
        forall u | u in us && u.id == id ensures FindUser(us, id) == Some(u) {
          FindUserById(us, u);
        }
      }
    }
    match FindUser(us, id)
    case Some(u) => Some(u.fullName)
    case None => None
  }

  /** The title of class `cid`; with unique ids, the title on that row. */
  function ClassTitle(cs: seq<Class>, cid: int): (r: Option<string>)
    ensures r.Some? <==> exists c :: c in cs && c.id == cid
    ensures r.Some? ==> exists c :: c in cs && c.id == cid && c.title == r.value
    ensures Distinct(cs, ClassKey) ==> forall c :: c in cs && c.id == cid ==> r == Some(c.title)
  {
    assert Distinct(cs, ClassKey) ==> forall c :: c in cs && c.id == cid ==> FindClass(cs, cid) == Some(c) by {
      if Distinct(cs, ClassKey) {
        forall c | c in cs && c.id == cid ensures FindClass(cs, cid) == Some(c) {
          FindClassById(cs, c);
        }
      }
    }
    match FindClass(cs, cid)
    case Some(c) => Some(c.title)
    case None => None
  }

  /** Class `cid` with its teacher's name (`classes JOIN users`); none when
      the class or its teacher's row is missing. */
  function Joined(cs: seq<Class>, us: seq<User>, cid: int): (r: Option<ClassRow>)
    ensures r.Some? ==> FindClass(cs, cid) == Some(r.value.cls) && TeacherName(us, r.value.cls) == Some(r.value.teacherName)
    ensures r.None? <==> FindClass(cs, cid).None? || TeacherName(us, FindClass(cs, cid).value).None?
  {
    match FindClass(cs, cid)
    case Some(c) => (match TeacherName(us, c) case Some(n) => Some(ClassRow(c, n)) case None => None)
    case None => None
  }

  /** Some enrollment row links student `sid` to class `cid`: `cid` is
      among the class ids of the student's enrollment rows. */
  predicate IsEnrolled(es: seq<Enrollment>, sid: int, cid: int): (b: bool)
    ensures b <==> cid in (set e | e in es && e.studentId == sid :: e.classId)
  {
    exists e :: e in es && e.studentId == sid && e.classId == cid
  }

  lemma EnrolledAfterInsert(es: seq<Enrollment>, e: Enrollment, sid: int, cid: int)
    ensures IsEnrolled(es + [e], sid, cid) <==> IsEnrolled(es, sid, cid) || (e.studentId == sid && e.classId == cid)
  {
    if IsEnrolled(es + [e], sid, cid) && !(e.studentId == sid && e.classId == cid) {
      var x :| x in es + [e] && x.studentId == sid && x.classId == cid;
      assert x in es;
    }
    if e.studentId == sid && e.classId == cid {
      assert e in es + [e];
    }
    if IsEnrolled(es, sid, cid) {
      var x :| x in es && x.studentId == sid && x.classId == cid;
      assert x in es + [e];
    }
  }

  // ----- teacher views -----

  function TaughtBy(uid: int): Class -> bool {
    (c: Class) => c.teacherId == uid
  }

  /** `SELECT * FROM classes WHERE teacher_id = uid`. */
  function TeacherClasses(cs: seq<Class>, uid: int): (r: seq<Class>)
    ensures forall c :: c in r <==> c in cs && c.teacherId == uid
  {
    Where(cs, TaughtBy(uid))
  }

  function HandedTo(us: seq<User>, cs: seq<Class>, uid: int): Homework -> Option<TeacherHomeworkRow> {
    (h: Homework) =>
      if h.teacherId != uid then None
      else match (FullName(us, h.studentId), ClassTitle(cs, h.classId))
        case (Some(n), Some(t)) => Some(TeacherHomeworkRow(h, n, t))
        case _ => None
  }

  function TeacherRowDate(row: TeacherHomeworkRow): string { row.hw.submissionDate }
  function TeacherRowId(row: TeacherHomeworkRow): int { row.hw.id }

  /** The teacher dashboard's submissions: those handed to `uid` whose
      student and class rows exist, newest first, one row per submission. */
  function TeacherHomework(hw: seq<Homework>, us: seq<User>, cs: seq<Class>, uid: int): (r: seq<TeacherHomeworkRow>)
    ensures SortedDesc(r, TeacherRowDate)
    ensures |r| <= |hw|
    ensures Distinct(hw, HomeworkKey) ==> Distinct(r, TeacherRowId)
    ensures forall row :: row in r <==>
      row.hw in hw && row.hw.teacherId == uid &&
      FullName(us, row.hw.studentId) == Some(row.studentName) &&
      ClassTitle(cs, row.hw.classId) == Some(row.classTitle)
  {
    var f := HandedTo(us, cs, uid);
    var s := Select(hw, f);
    var r := SortDesc(s, TeacherRowDate);
    forall row ensures row in s <==>
      row.hw in hw && row.hw.teacherId == uid &&
      FullName(us, row.hw.studentId) == Some(row.studentName) &&
      ClassTitle(cs, row.hw.classId) == Some(row.classTitle)
    {
      if row in s {
        var h :| h in hw && f(h) == Some(row);
      }
      if row.hw in hw && row.hw.teacherId == uid &&
         FullName(us, row.hw.studentId) == Some(row.studentName) &&
         ClassTitle(cs, row.hw.classId) == Some(row.classTitle) {
        assert f(row.hw) == Some(row);
      }
    }
    assert |r| == |multiset(r)| == |multiset(s)| == |s|;
    assert Distinct(hw, HomeworkKey) ==> Distinct(r, TeacherRowId) by {
      if Distinct(hw, HomeworkKey) {
        assert forall h :: f(h).Some? ==> TeacherRowId(f(h).value) == HomeworkKey(h);
        DistinctSelect(hw, f, HomeworkKey, TeacherRowId);
        DistinctSort(s, TeacherRowDate, TeacherRowId);
      }
    }
    r
  }

  /** The dashboard's first row is its newest submission: no row is dated
      later, and one dated no earlier carries the same date. */
  lemma NewestSubmissionFirst(hw: seq<Homework>, us: seq<User>, cs: seq<Class>, uid: int, row: TeacherHomeworkRow)
    requires row in TeacherHomework(hw, us, cs, uid)
    ensures var first := TeacherHomework(hw, us, cs, uid)[0].hw.submissionDate;
      TextLe(row.hw.submissionDate, first) &&
      (TextLe(first, row.hw.submissionDate) ==> row.hw.submissionDate == first)
  {
    FirstIsGreatest(TeacherHomework(hw, us, cs, uid), TeacherRowDate, row);
  }

  function EnrolledStudent(us: seq<User>, cid: int): Enrollment -> Option<User> {
    (e: Enrollment) => if e.classId == cid then FindUser(us, e.studentId) else None
  }

  /** `users JOIN enrollments WHERE class_id = cid`: one row per enrollment
      whose student row exists. */
  function ClassStudents(us: seq<User>, es: seq<Enrollment>, cid: int): (r: seq<User>)
    ensures |r| <= |es|
    ensures forall u :: u in r <==> IsEnrolled(es, u.id, cid) && FindUser(us, u.id) == Some(u)
  {
    var r := Select(es, EnrolledStudent(us, cid));
    assert forall u: User :: IsEnrolled(es, u.id, cid) && FindUser(us, u.id) == Some(u) ==> u in r by {
      forall u: User | IsEnrolled(es, u.id, cid) && FindUser(us, u.id) == Some(u) ensures u in r {
        var e :| e in es && e.studentId == u.id && e.classId == cid;
        assert EnrolledStudent(us, cid)(e) == Some(u);
      }
    }
    r
  }

  /** Each enrollment row of the class adds its student once more. */
  lemma ClassStudentsAppend(us: seq<User>, es: seq<Enrollment>, e: Enrollment, cid: int)
    ensures ClassStudents(us, es + [e], cid) == ClassStudents(us, es, cid) +
      (if e.classId == cid && FindUser(us, e.studentId).Some? then [FindUser(us, e.studentId).value] else [])
  {
    SelectAppend(es, e, EnrolledStudent(us, cid));
  }

  /** The enrollment rows of student `sid` in class `cid`. */
  function Links(sid: int, cid: int): Enrollment -> bool {
    (e: Enrollment) => e.studentId == sid && e.classId == cid
  }

  /** A student is listed once for every enrollment row linking them to the
      class; nothing makes the pair unique, so a repeated row is a repeated
      student. */
  lemma ClassStudentsCount(us: seq<User>, es: seq<Enrollment>, cid: int, u: User)
    ensures multiset(ClassStudents(us, es, cid))[u] ==
      if FindUser(us, u.id) == Some(u) then |Where(es, Links(u.id, cid))| else 0
  {
    var f := EnrolledStudent(us, cid);
    SelectCount(es, f, u);
    if FindUser(us, u.id) == Some(u) {
      WhereSame(es, MapsTo(f, u), Links(u.id, cid));
    } else {
      WhereNone(es, MapsTo(f, u));
    }
  }

  function OfClass(cid: int): Material -> bool {
    (m: Material) => m.classId == cid
  }

  /** `SELECT * FROM class_materials WHERE class_id = cid`. */
  function ClassMaterials(ms: seq<Material>, cid: int): (r: seq<Material>)
    ensures forall m :: m in r <==> m in ms && m.classId == cid
  {
    Where(ms, OfClass(cid))
  }

  // ----- attendance views -----

  /** The statuses recorded for student `sid` in class `cid` on `date`. */
  function StatusesOf(att: seq<Attendance>, cid: int, date: string, sid: int): (r: seq<string>)
    ensures |r| <= |att|
    ensures forall s :: s in r ==> exists a :: a in att && OnDay(a, cid, date) && a.studentId == sid && a.status == s
    ensures forall a :: a in att && OnDay(a, cid, date) && a.studentId == sid ==> a.status in r
  {
    if att == [] then []
    else
      var init, a := att[..|att| - 1], att[|att| - 1];
      assert att == init + [a];
      StatusesOf(init, cid, date, sid) + (if OnDay(a, cid, date) && a.studentId == sid then [a.status] else [])
  }

  /** What the LEFT JOIN shows for one enrolled student: one entry per
      matching record, or a single empty status when there is none; an
      absent record is not shown as "absent". */
  function Shown(att: seq<Attendance>, cid: int, date: string, sid: int): (r: seq<Option<string>>)
    ensures None in r <==> StatusesOf(att, cid, date, sid) == []
    ensures forall s :: Some(s) in r <==> s in StatusesOf(att, cid, date, sid)
    ensures StatusesOf(att, cid, date, sid) == [] ==> r == [None]
    ensures var st := StatusesOf(att, cid, date, sid);
      st != [] ==> |r| == |st| && forall i :: 0 <= i < |st| ==> r[i] == Some(st[i])
  {
    var st := StatusesOf(att, cid, date, sid);
    if st == [] then [None]
    else
      var r := seq(|st|, i requires 0 <= i < |st| => Some(st[i]));
      assert forall s :: s in st ==> Some(s) in r by {
        forall s | s in st ensures Some(s) in r {
          var k :| 0 <= k < |st| && st[k] == s;
          assert r[k] == Some(s);
        }
      }
      r
  }

  /** One roster row for `u` per entry the LEFT JOIN shows, in order. */
  function RosterFor(u: User, shown: seq<Option<string>>): (r: seq<RosterRow>)
    ensures forall row :: row in r <==> row.student == u && row.todayStatus in shown
    ensures |r| == |shown| && forall i :: 0 <= i < |shown| ==> r[i] == RosterRow(u, shown[i])
  {
    var r := seq(|shown|, i requires 0 <= i < |shown| => RosterRow(u, shown[i]));
    assert forall st :: st in shown ==> RosterRow(u, st) in r by {
      forall st | st in shown ensures RosterRow(u, st) in r {
        var k :| 0 <= k < |shown| && shown[k] == st;
        assert r[k] == RosterRow(u, st);
      }
    }
    r
  }

  /** The rows one enrollment row contributes to the roster: none for
      another class or a missing student row. */
  function EnrollmentRoster(us: seq<User>, att: seq<Attendance>, cid: int, today: string, e: Enrollment): seq<RosterRow> {
    if e.classId == cid && FindUser(us, e.studentId).Some?
    then RosterFor(FindUser(us, e.studentId).value, Shown(att, cid, today, e.studentId))
    else []
  }

  /** The teacher's attendance page: `users JOIN enrollments LEFT JOIN
      attendance` for class `cid` on `today`. */
  function TodayRoster(us: seq<User>, es: seq<Enrollment>, att: seq<Attendance>, cid: int, today: string): (r: seq<RosterRow>)
    ensures forall row :: row in r ==>
      IsEnrolled(es, row.student.id, cid) && FindUser(us, row.student.id) == Some(row.student) &&
      row.todayStatus in Shown(att, cid, today, row.student.id)
    ensures forall e, st :: e in es && e.classId == cid && FindUser(us, e.studentId).Some? && st in Shown(att, cid, today, e.studentId) ==>
      RosterRow(FindUser(us, e.studentId).value, st) in r
  {
    if es == [] then []
    else
      var init, e := es[..|es| - 1], es[|es| - 1];
      assert es == init + [e];
      var rest := TodayRoster(us, init, att, cid, today);
      var mine := EnrollmentRoster(us, att, cid, today, e);
      assert forall row :: row in mine ==> IsEnrolled(es, row.student.id, cid) by {
        forall row | row in mine ensures IsEnrolled(es, row.student.id, cid) {
          assert e in es;
        }
      }
      assert forall row :: row in rest ==> IsEnrolled(es, row.student.id, cid) by {
        forall row | row in rest ensures IsEnrolled(es, row.student.id, cid) {
          EnrolledAfterInsert(init, e, row.student.id, cid);
        }
      }
      rest + mine
  }

  lemma {:induction false} RosterForCount(v: User, shown: seq<Option<string>>, u: User, st: Option<string>)
    ensures multiset(RosterFor(v, shown))[RosterRow(u, st)] == if v == u then multiset(shown)[st] else 0
  {
    if shown != [] {
      var init, last := shown[..|shown| - 1], shown[|shown| - 1];
      assert shown == init + [last];
      assert RosterFor(v, shown) == RosterFor(v, init) + [RosterRow(v, last)];
      RosterForCount(v, init, u, st);
    }
  }

  lemma TodayRosterAppend(us: seq<User>, es: seq<Enrollment>, e: Enrollment, att: seq<Attendance>, cid: int, today: string)
    ensures TodayRoster(us, es + [e], att, cid, today) ==
      TodayRoster(us, es, att, cid, today) + EnrollmentRoster(us, att, cid, today, e)
  {
    assert (es + [e])[..|es + [e]| - 1] == es;
  }

  /** A class with one enrollment row, whose student has one status that
      day, shows exactly that student with that status. */
  lemma OneEnrollmentRoster(us: seq<User>, e: Enrollment, att: seq<Attendance>, cid: int, today: string, u: User, status: string)
    requires e.classId == cid && FindUser(us, e.studentId) == Some(u)
    requires StatusesOf(att, cid, today, e.studentId) == [status]
    ensures TodayRoster(us, [e], att, cid, today) == [RosterRow(u, Some(status))]
  {
    TodayRosterAppend(us, [], e, att, cid, today);
    assert [] + [e] == [e];
  }

  /** An enrollment row shows student `u` with status `st` as often as the
      day's records show `st` for `u`, when the row is `u`'s in this class. */
  lemma EnrollmentRosterCount(us: seq<User>, att: seq<Attendance>, cid: int, today: string, e: Enrollment,
                              u: User, st: Option<string>)
    ensures multiset(EnrollmentRoster(us, att, cid, today, e))[RosterRow(u, st)] ==
      if FindUser(us, u.id) == Some(u) && Links(u.id, cid)(e) then multiset(Shown(att, cid, today, u.id))[st] else 0
  {
    if e.classId == cid && FindUser(us, e.studentId).Some? {
      RosterForCount(FindUser(us, e.studentId).value, Shown(att, cid, today, e.studentId), u, st);
    }
  }

  /** The roster shows student `u` with status `st` once for every
      enrollment row of `u` in the class times every time the day's records
      show `st` for them. */
  lemma {:induction false} TodayRosterCount(us: seq<User>, es: seq<Enrollment>, att: seq<Attendance>, cid: int, today: string,
                                            u: User, st: Option<string>)
    ensures multiset(TodayRoster(us, es, att, cid, today))[RosterRow(u, st)] ==
      if FindUser(us, u.id) == Some(u)
      then |Where(es, Links(u.id, cid))| * multiset(Shown(att, cid, today, u.id))[st]
      else 0
  {
    if es != [] {
      var init, e := es[..|es| - 1], es[|es| - 1];
      assert es == init + [e];
      var row := RosterRow(u, st);
      var found, links := FindUser(us, u.id) == Some(u), Links(u.id, cid)(e);
      var m := multiset(Shown(att, cid, today, u.id))[st];
      TodayRosterAppend(us, init, e, att, cid, today);
      TodayRosterCount(us, init, att, cid, today, u, st);
      EnrollmentRosterCount(us, att, cid, today, e, u, st);
      assert |Where(es, Links(u.id, cid))| == |Where(init, Links(u.id, cid))| + (if links then 1 else 0);
      CountStep(multiset(TodayRoster(us, es, att, cid, today))[row],
                multiset(TodayRoster(us, init, att, cid, today))[row],
                multiset(EnrollmentRoster(us, att, cid, today, e))[row],
                |Where(es, Links(u.id, cid))|, |Where(init, Links(u.id, cid))|, m, found, links);
    }
  }

  lemma CountStep(total: int, before: int, added: int, w: int, n: int, m: int, found: bool, links: bool)
    requires total == before + added
    requires before == (if found then n * m else 0) && added == (if found && links then m else 0)
    requires w == n + (if links then 1 else 0)
    ensures total == if found then w * m else 0
  {
    if found && links {
      assert w * m == n * m + m;
    }
  }

  lemma {:induction false} StatusesOfAppend(a: seq<Attendance>, b: seq<Attendance>, cid: int, date: string, sid: int)
    ensures StatusesOf(a + b, cid, date, sid) == StatusesOf(a, cid, date, sid) + StatusesOf(b, cid, date, sid)
  {
    if b != [] {
      var init := b[..|b| - 1];
      assert (a + b)[..|a + b| - 1] == a + init;
      assert (a + b)[|a + b| - 1] == b[|b| - 1];
      StatusesOfAppend(a, init, cid, date, sid);
    } else {
      assert a + b == a;
    }
  }

  lemma {:induction false} FormRowsStatuses(form: seq<FormItem>, cid: int, date: string, next: int, sid: int)
    ensures StatusesOf(FormRows(form, cid, date, next), cid, date, sid) == FormStatuses(form, sid)
  {
    if form != [] {
      var init, item := form[..|form| - 1], form[|form| - 1];
      FormRowsStatuses(init, cid, date, next, sid);
      var tail := if item.key.StatusKey?
        then [Attendance(next + StatusCount(init), cid, item.key.studentId, date, item.value)]
        else [];
      StatusesOfAppend(FormRows(init, cid, date, next), tail, cid, date, sid);
      if item.key.StatusKey? {
        StatusesOfOne(tail[0], cid, date, sid);
      }
    }
  }

  lemma StatusesOfOne(a: Attendance, cid: int, date: string, sid: int)
    ensures StatusesOf([a], cid, date, sid) == if OnDay(a, cid, date) && a.studentId == sid then [a.status] else []
  {
    assert [a][..0] == [];
  }

  /** After the POST, the statuses of every student for that class and
      day are exactly the ones the form submitted for them. */
  lemma RecordedStatuses(att: seq<Attendance>, cid: int, date: string, form: seq<FormItem>, next: int, sid: int)
    ensures StatusesOf(ReplaceAttendance(att, cid, date, form, next), cid, date, sid) == FormStatuses(form, sid)
  {
    var kept := Where(att, OtherDay(cid, date));
    StatusesOfAppend(kept, FormRows(form, cid, date, next), cid, date, sid);
    FormRowsStatuses(form, cid, date, next, sid);
    StatusesOfOtherDays(kept, cid, date, sid);
  }

  lemma {:induction false} StatusesOfOtherDays(att: seq<Attendance>, cid: int, date: string, sid: int)
    requires forall a :: a in att ==> !OnDay(a, cid, date)
    ensures StatusesOf(att, cid, date, sid) == []
  {
    if att != [] {
      StatusesOfOtherDays(att[..|att| - 1], cid, date, sid);
    }
  }

  /** Recording status set A and then set B for the same class and day
      shows each student exactly what B says about them. */
  lemma RerecordShowsLatest(att: seq<Attendance>, cid: int, date: string,
                            a: seq<FormItem>, n1: int, b: seq<FormItem>, n2: int, sid: int)
    ensures var after := ReplaceAttendance(ReplaceAttendance(att, cid, date, a, n1), cid, date, b, n2);
      StatusesOf(after, cid, date, sid) == FormStatuses(b, sid)
  {
    ReplaceNoResidue(att, cid, date, a, n1, b, n2);
    RecordedStatuses(att, cid, date, b, n2, sid);
  }

  function AttendedBy(cs: seq<Class>, us: seq<User>, sid: int): Attendance -> Option<AttendanceRow> {
    (a: Attendance) =>
      if a.studentId != sid then None
      else match Joined(cs, us, a.classId)
        case Some(j) => Some(AttendanceRow(a, j.cls.title, j.teacherName))
        case None => None
  }

  function AttendanceRowDate(row: AttendanceRow): string { row.record.date }
  function AttendanceRowId(row: AttendanceRow): int { row.record.id }

  /** The student's attendance list, joined with class and teacher, latest
      date first, one row per record. */
  function StudentAttendance(att: seq<Attendance>, cs: seq<Class>, us: seq<User>, sid: int): (r: seq<AttendanceRow>)
    ensures SortedDesc(r, AttendanceRowDate)
    ensures |r| <= |att|
    ensures Distinct(att, AttendanceKey) ==> Distinct(r, AttendanceRowId)
    ensures forall row :: row in r <==>
      row.record in att && row.record.studentId == sid &&
      Joined(cs, us, row.record.classId).Some? &&
      Joined(cs, us, row.record.classId).value.cls.title == row.classTitle &&
      Joined(cs, us, row.record.classId).value.teacherName == row.teacherName
  {
    var f := AttendedBy(cs, us, sid);
    var s := Select(att, f);
    var r := SortDesc(s, AttendanceRowDate);
    forall row ensures row in s <==>
      row.record in att && row.record.studentId == sid &&
      Joined(cs, us, row.record.classId).Some? &&
      Joined(cs, us, row.record.classId).value.cls.title == row.classTitle &&
      Joined(cs, us, row.record.classId).value.teacherName == row.teacherName
    {
      if row in s {
        var a :| a in att && f(a) == Some(row);
      }
      if row.record in att && row.record.studentId == sid &&
         Joined(cs, us, row.record.classId).Some? &&
         Joined(cs, us, row.record.classId).value.cls.title == row.classTitle &&
         Joined(cs, us, row.record.classId).value.teacherName == row.teacherName {
        assert f(row.record) == Some(row);
      }
    }
    assert |r| == |multiset(r)| == |multiset(s)| == |s|;
    assert Distinct(att, AttendanceKey) ==> Distinct(r, AttendanceRowId) by {
      if Distinct(att, AttendanceKey) {
        assert forall a :: f(a).Some? ==> AttendanceRowId(f(a).value) == AttendanceKey(a);
        DistinctSelect(att, f, AttendanceKey, AttendanceRowId);
        DistinctSort(s, AttendanceRowDate, AttendanceRowId);
      }
    }
    r
  }

  // ----- student views -----

  function EnrolledRow(cs: seq<Class>, us: seq<User>, sid: int): Enrollment -> Option<ClassRow> {
    (e: Enrollment) => if e.studentId == sid then Joined(cs, us, e.classId) else None
  }

  /** The student's classes: one row per enrollment of `sid` whose class
      and teacher rows exist. */
  function EnrolledClasses(cs: seq<Class>, us: seq<User>, es: seq<Enrollment>, sid: int): (r: seq<ClassRow>)
    ensures |r| <= |es|
    ensures forall row :: row in r <==> IsEnrolled(es, sid, row.cls.id) && Joined(cs, us, row.cls.id) == Some(row)
  {
    var r := Select(es, EnrolledRow(cs, us, sid));
    assert forall row: ClassRow :: IsEnrolled(es, sid, row.cls.id) && Joined(cs, us, row.cls.id) == Some(row) ==> row in r by {
      forall row: ClassRow | IsEnrolled(es, sid, row.cls.id) && Joined(cs, us, row.cls.id) == Some(row) ensures row in r {
        var e :| e in es && e.studentId == sid && e.classId == row.cls.id;
        assert EnrolledRow(cs, us, sid)(e) == Some(row);
      }
    }
    r
  }

  function AvailableRow(us: seq<User>, es: seq<Enrollment>, sid: int): Class -> Option<ClassRow> {
    (c: Class) =>
      if IsEnrolled(es, sid, c.id) then None
      else match TeacherName(us, c)
        case Some(n) => Some(ClassRow(c, n))
        case None => None
  }

  /** `classes JOIN users WHERE c.id NOT IN (the student's class ids)`. */
  function AvailableClasses(cs: seq<Class>, us: seq<User>, es: seq<Enrollment>, sid: int): (r: seq<ClassRow>)
    ensures forall row :: row in r <==>
      row.cls in cs && !IsEnrolled(es, sid, row.cls.id) && TeacherName(us, row.cls) == Some(row.teacherName)
  {
    var r := Select(cs, AvailableRow(us, es, sid));
    assert forall row: ClassRow ::
      (row.cls in cs && !IsEnrolled(es, sid, row.cls.id) && TeacherName(us, row.cls) == Some(row.teacherName)) ==> row in r
    by {
      forall row: ClassRow | row.cls in cs && !IsEnrolled(es, sid, row.cls.id) && TeacherName(us, row.cls) == Some(row.teacherName)
        ensures row in r
      {
        assert AvailableRow(us, es, sid)(row.cls) == Some(row);
      }
    }
    r
  }

  function SubmittedBy(cs: seq<Class>, sid: int): Homework -> Option<StudentHomeworkRow> {
    (h: Homework) =>
      if h.studentId != sid then None
      else match ClassTitle(cs, h.classId)
        case Some(t) => Some(StudentHomeworkRow(h, t))
        case None => None
  }

  function StudentRowDate(row: StudentHomeworkRow): string { row.hw.submissionDate }
  function StudentRowId(row: StudentHomeworkRow): int { row.hw.id }

  /** The student's submissions with their class titles, newest first, one
      row per submission. */
  function StudentHomework(hw: seq<Homework>, cs: seq<Class>, sid: int): (r: seq<StudentHomeworkRow>)
    ensures SortedDesc(r, StudentRowDate)
    ensures |r| <= |hw|
    ensures Distinct(hw, HomeworkKey) ==> Distinct(r, StudentRowId)
    ensures forall row :: row in r <==>
      row.hw in hw && row.hw.studentId == sid && ClassTitle(cs, row.hw.classId) == Some(row.classTitle)
  {
    var f := SubmittedBy(cs, sid);
    var s := Select(hw, f);
    var r := SortDesc(s, StudentRowDate);
    forall row ensures row in s <==> row.hw in hw && row.hw.studentId == sid && ClassTitle(cs, row.hw.classId) == Some(row.classTitle) {
      if row in s {
        var h :| h in hw && f(h) == Some(row);
      }
      if row.hw in hw && row.hw.studentId == sid && ClassTitle(cs, row.hw.classId) == Some(row.classTitle) {
        assert f(row.hw) == Some(row);
      }
    }
    assert |r| == |multiset(r)| == |multiset(s)| == |s|;
    assert Distinct(hw, HomeworkKey) ==> Distinct(r, StudentRowId) by {
      if Distinct(hw, HomeworkKey) {
        assert forall h :: f(h).Some? ==> StudentRowId(f(h).value) == HomeworkKey(h);
        DistinctSelect(hw, f, HomeworkKey, StudentRowId);
        DistinctSort(s, StudentRowDate, StudentRowId);
      }
    }
    r
  }

  /** No class is both listed as the student's and offered to them. */
  lemma EnrolledAndAvailableDisjoint(cs: seq<Class>, us: seq<User>, es: seq<Enrollment>, sid: int, a: ClassRow, b: ClassRow)
    requires a in EnrolledClasses(cs, us, es, sid) && b in AvailableClasses(cs, us, es, sid)
    ensures a.cls.id != b.cls.id
  {
  }

  /** Enrolling in `cid` removes exactly that class from the offered list. */
  lemma EnrollingRemovesFromAvailable(cs: seq<Class>, us: seq<User>, es: seq<Enrollment>, sid: int, cid: int, n: int)
    ensures forall row :: row in AvailableClasses(cs, us, es + [Enrollment(n, sid, cid)], sid) <==>
      row in AvailableClasses(cs, us, es, sid) && row.cls.id != cid
  {
    forall x {
      EnrolledAfterInsert(es, Enrollment(n, sid, cid), sid, x);
    }
  }

  /** Each enrollment row adds its class to the student's list, a repeated
      one as a repeated row, since nothing makes the pair unique. */
  lemma EnrollingAppendsClass(cs: seq<Class>, us: seq<User>, es: seq<Enrollment>, sid: int, cid: int, n: int)
    ensures EnrolledClasses(cs, us, es + [Enrollment(n, sid, cid)], sid) ==
      EnrolledClasses(cs, us, es, sid) + (if Joined(cs, us, cid).Some? then [Joined(cs, us, cid).value] else [])
  {
    var es' := es + [Enrollment(n, sid, cid)];
    assert es'[..|es'| - 1] == es;
  }

  lemma EnrollingTwiceListsTwice(cs: seq<Class>, us: seq<User>, es: seq<Enrollment>, sid: int, cid: int, n1: int, n2: int)
    requires Joined(cs, us, cid).Some?
    ensures var row := Joined(cs, us, cid).value;
      EnrolledClasses(cs, us, es + [Enrollment(n1, sid, cid)] + [Enrollment(n2, sid, cid)], sid) ==
      EnrolledClasses(cs, us, es, sid) + [row, row]
  {
    EnrollingAppendsClass(cs, us, es, sid, cid, n1);
    EnrollingAppendsClass(cs, us, es + [Enrollment(n1, sid, cid)], sid, cid, n2);
  }

  function RowClassId(row: ClassRow): int { row.cls.id }

  /** With at most one enrollment row per (student, class) pair, the
      student's list shows each class at most once. */
  lemma {:induction false} UniquePairsListOnce(cs: seq<Class>, us: seq<User>, es: seq<Enrollment>, sid: int)
    requires Distinct(es, EnrollmentPair)
    ensures Distinct(EnrolledClasses(cs, us, es, sid), RowClassId)
  {
    if es != [] {
      var init, e := es[..|es| - 1], es[|es| - 1];
      assert es == init + [e];
      assert Distinct(init, EnrollmentPair) by {
        forall i, j | 0 <= i < j < |init| ensures EnrollmentPair(init[i]) != EnrollmentPair(init[j]) {
          assert init[i] == es[i] && init[j] == es[j];
        }
      }
      UniquePairsListOnce(cs, us, init, sid);
      var f := EnrolledRow(cs, us, sid);
      var rest := EnrolledClasses(cs, us, init, sid);
      var tail := if f(e).Some? then [f(e).value] else [];
      SelectAppend(init, e, f);
      forall x, y | x in rest && y in tail ensures RowClassId(x) != RowClassId(y) {
        assert e.studentId == sid && y.cls.id == e.classId;
      }
      DistinctConcat(rest, tail, RowClassId);
    }
  }

  /** A new enrollment for a pair that has none keeps the pairs unique. */
  lemma EnrollingKeepsPairsUnique(es: seq<Enrollment>, n: int, sid: int, cid: int)
    requires Distinct(es, EnrollmentPair) && !IsEnrolled(es, sid, cid)
    ensures Distinct(es + [Enrollment(n, sid, cid)], EnrollmentPair)
  {
    DistinctConcat(es, [Enrollment(n, sid, cid)], EnrollmentPair);
  }

  // ----- admin view -----

  function HasRole(role: string): User -> bool {
    (u: User) => u.role == role
  }

  /** The admin dashboard: students, teachers, and every class with its
      teacher's name through a LEFT JOIN, so a class whose teacher row is
      gone is still listed, with no name. */
  function AdminOverview(db: Db): (r: AdminHome)
    ensures forall u :: u in r.students <==> u in db.users && u.role == STUDENT
    ensures forall u :: u in r.teachers <==> u in db.users && u.role == TEACHER
    ensures |r.classes| == |db.classes|
    ensures forall i :: 0 <= i < |db.classes| ==>
      r.classes[i].cls == db.classes[i] && (r.classes[i].teacherName.Some? <==> exists u :: u in db.users && u.id == db.classes[i].teacherId)
    ensures forall i :: 0 <= i < |db.classes| ==> r.classes[i].teacherName == TeacherName(db.users, db.classes[i])
  {
    AdminHome(
      Where(db.users, HasRole(STUDENT)),
      Where(db.users, HasRole(TEACHER)),
      seq(|db.classes|, i requires 0 <= i < |db.classes| => AdminClassRow(db.classes[i], TeacherName(db.users, db.classes[i]))))
  }

  // ----- pages: the gate, then the queries -----

  function AdminDashboardPage(db: Db, caller: Caller): (r: Result<AdminHome, Error>)
    ensures r.Success? <==> Admit(caller, {ADMIN}).Granted?
    ensures r.Failure? ==> r.error == Refusal(Admit(caller, {ADMIN}))
    ensures r.Success? ==> r.value == AdminOverview(db)
  {
    var a := Admit(caller, {ADMIN});
    if !a.Granted? then Failure(Refusal(a)) else Success(AdminOverview(db))
  }

  function TeacherDashboardPage(db: Db, caller: Caller): (r: Result<TeacherHome, Error>)
    ensures r.Success? <==> Admit(caller, {TEACHER}).Granted?
    ensures r.Failure? ==> r.error == Refusal(Admit(caller, {TEACHER}))
    ensures r.Success? ==> var uid := caller.userId.value;
      (forall c :: c in r.value.classes <==> c in db.classes && c.teacherId == uid) &&
      (forall row :: row in r.value.homework ==> row.hw in db.homework && row.hw.teacherId == uid) &&
      r.value == TeacherHome(TeacherClasses(db.classes, uid), TeacherHomework(db.homework, db.users, db.classes, uid))
  {
    var a := Admit(caller, {TEACHER});
    if !a.Granted? then Failure(Refusal(a))
    else Success(TeacherHome(TeacherClasses(db.classes, a.uid), TeacherHomework(db.homework, db.users, db.classes, a.uid)))
  }

  function TeacherClassPage(db: Db, caller: Caller, cid: int): (r: Result<TeacherClass, Error>)
    ensures r.Success? <==> Admit(caller, {TEACHER}).Granted? && OwnedClass(db.classes, cid, caller.userId.value).Some?
    ensures !Admit(caller, {TEACHER}).Granted? ==> r == Failure(Refusal(Admit(caller, {TEACHER})))
    ensures Admit(caller, {TEACHER}).Granted? && r.Failure? ==> r.error == ClassNotFound
    ensures r.Success? ==>
      r.value.info in db.classes && r.value.info.id == cid && r.value.info.teacherId == caller.userId.value &&
      (forall m :: m in r.value.materials <==> m in db.materials && m.classId == cid) &&
      (forall u :: u in r.value.students <==> IsEnrolled(db.enrollments, u.id, cid) && FindUser(db.users, u.id) == Some(u)) &&
      r.value.students == ClassStudents(db.users, db.enrollments, cid) &&
      r.value.materials == ClassMaterials(db.materials, cid)
  {
    var a := Admit(caller, {TEACHER});
    if !a.Granted? then Failure(Refusal(a))
    else match OwnedClass(db.classes, cid, a.uid)
      case None => Failure(ClassNotFound)
      case Some(c) => Success(TeacherClass(c, ClassStudents(db.users, db.enrollments, cid), ClassMaterials(db.materials, cid)))
  }

  /** The GET side of the teacher's attendance page, for the date `today`. */
  function TeacherAttendancePage(db: Db, caller: Caller, cid: int, today: string): (r: Result<TeacherRoster, Error>)
    ensures r.Success? <==> Admit(caller, {TEACHER}).Granted? && OwnedClass(db.classes, cid, caller.userId.value).Some?
    ensures !Admit(caller, {TEACHER}).Granted? ==> r == Failure(Refusal(Admit(caller, {TEACHER})))
    ensures Admit(caller, {TEACHER}).Granted? && r.Failure? ==> r.error == ClassNotFound
    ensures r.Success? ==>
      r.value.info.id == cid && r.value.info.teacherId == caller.userId.value && r.value.today == today &&
      (forall row :: row in r.value.students ==> IsEnrolled(db.enrollments, row.student.id, cid)) &&
      r.value.students == TodayRoster(db.users, db.enrollments, db.attendance, cid, today)
  {
    var a := Admit(caller, {TEACHER});
    if !a.Granted? then Failure(Refusal(a))
    else match OwnedClass(db.classes, cid, a.uid)
      case None => Failure(ClassNotFound)
      case Some(c) => Success(TeacherRoster(c, TodayRoster(db.users, db.enrollments, db.attendance, cid, today), today))
  }

  function StudentDashboardPage(db: Db, caller: Caller): (r: Result<StudentHome, Error>)
    ensures r.Success? <==> Admit(caller, {STUDENT}).Granted?
    ensures r.Failure? ==> r.error == Refusal(Admit(caller, {STUDENT}))
    ensures r.Success? ==> var sid := caller.userId.value;
      (forall row :: row in r.value.classes ==> IsEnrolled(db.enrollments, sid, row.cls.id)) &&
      (forall row :: row in r.value.available ==> row.cls in db.classes && !IsEnrolled(db.enrollments, sid, row.cls.id)) &&
      (forall row :: row in r.value.homework ==> row.hw in db.homework && row.hw.studentId == sid) &&
      r.value == StudentHome(EnrolledClasses(db.classes, db.users, db.enrollments, sid),
                             StudentHomework(db.homework, db.classes, sid),
                             AvailableClasses(db.classes, db.users, db.enrollments, sid))
  {
    var a := Admit(caller, {STUDENT});
    if !a.Granted? then Failure(Refusal(a))
    else Success(StudentHome(
      EnrolledClasses(db.classes, db.users, db.enrollments, a.uid),
      StudentHomework(db.homework, db.classes, a.uid),
      AvailableClasses(db.classes, db.users, db.enrollments, a.uid)))
  }

  function OwnSubmission(cid: int, sid: int): Homework -> bool {
    (h: Homework) => h.classId == cid && h.studentId == sid
  }

  /** A student's class page opens only with an enrollment for that class,
      and lists only the student's own submissions for it. */
  function StudentClassPage(db: Db, caller: Caller, cid: int): (r: Result<StudentClass, Error>)
    ensures r.Success? <==> Admit(caller, {STUDENT}).Granted? && IsEnrolled(db.enrollments, caller.userId.value, cid)
    ensures !Admit(caller, {STUDENT}).Granted? ==> r == Failure(Refusal(Admit(caller, {STUDENT})))
    ensures Admit(caller, {STUDENT}).Granted? && r.Failure? ==> r.error == NotEnrolled
    ensures r.Success? ==> var sid := caller.userId.value;
      r.value.info == Joined(db.classes, db.users, cid) &&
      (forall m :: m in r.value.materials <==> m in db.materials && m.classId == cid) &&
      (forall h :: h in r.value.homework <==> h in db.homework && h.classId == cid && h.studentId == sid)
  {
    var a := Admit(caller, {STUDENT});
    if !a.Granted? then Failure(Refusal(a))
    else if !IsEnrolled(db.enrollments, a.uid, cid) then Failure(NotEnrolled)
    else Success(StudentClass(
      Joined(db.classes, db.users, cid),
      ClassMaterials(db.materials, cid),
      Where(db.homework, OwnSubmission(cid, a.uid))))
  }

  function StudentAttendancePage(db: Db, caller: Caller): (r: Result<seq<AttendanceRow>, Error>)
    ensures r.Success? <==> Admit(caller, {STUDENT}).Granted?
    ensures r.Failure? ==> r.error == Refusal(Admit(caller, {STUDENT}))
    ensures r.Success? ==>
      SortedDesc(r.value, AttendanceRowDate) &&
      (forall row :: row in r.value ==> row.record in db.attendance && row.record.studentId == caller.userId.value) &&
      r.value == StudentAttendance(db.attendance, db.classes, db.users, caller.userId.value)
  {
    var a := Admit(caller, {STUDENT});
    if !a.Granted? then Failure(Refusal(a))
    else Success(StudentAttendance(db.attendance, db.classes, db.users, a.uid))
  }
}
