/** The requests the worker handles, as transitions of the bot's state: the
    database tables, the week map of the time provider, the lead times, the
    listener's tables and the request channel. Both revisions of the
    handlers are described here; `Revision` selects where they differ. The
    scheduler hooks are launched as coroutines in the source: here they run
    to completion at once, and their exceptions do not reach the handler. */
module Requests {
  import opened Wrappers
  import opened Dates
  import opened Store
  import opened BellSchedule
  import opened Scheduler
  import Calendar

  /** `Newer`: the per-request classes under `me/.../service/request`.
      `Older`: the branches of the all-in-one `RequestHandlerService`. */
  datatype Revision = Newer | Older

  /** The session cookie a login hands to the course fetch. */
  datatype Cookie = Cookie(jSessionId: string, serverId: string)

  datatype Request =
    | LoginRequest(qq: int, username: string, password: string)
    | SyncCourse(qq: int)
    | InternalSyncCourse(qq: int, cookie: Cookie)
    | DeleteCourse(qq: int)
    | SyncSchoolTimetable(qq: int, newTimetable: Option<seq<TextPair>>, forceUpdate: bool, alsoSyncCourses: bool)
    | SyncSchoolWeekPeriod(qq: int, currentWeek: int)
    | InheritTimetable(qq: int)
    | ChangeUserPassword(qq: int, password: string)

  /** Everything a handler reads or writes. `queue` is the channel's
      contents, oldest first. */
  datatype World = World(
    users: seq<User>,
    timetables: seq<Timetable>,
    courseTables: map<int, seq<Course>>,
    weeks: map<int, int>,
    tips: map<int, int>,
    listener: Listener,
    queue: seq<Request>)

  /** The clock: today's date, the minute of the day and the second of the
      minute. */
  datatype Clock = Clock(today: Date, now: int, second: int)

  /** `immediateUpdateSchoolWeekPeriod`: the newer revision recomputes the
      schools with a row of the current term, the older one every row. */
  function Recompute(rev: Revision, weeks: map<int, int>, rows: seq<Timetable>, term: Term, today: Date): map<int, int>
  {
    if rev == Newer then Calendar.RecomputeWeeks(weeks, Calendar.TermRows(rows, term), today)
    else Calendar.RecomputeWeeks(weeks, rows, today)
  }

  /** What the listener sees of the world. */
  function EnvOf(w: World, term: Term, clock: Clock): Env
  {
    Env(term, w.weeks, w.tips, w.users, w.timetables, w.courseTables, clock.now, clock.second, DayOfWeek(EpochDay(clock.today)))
  }

  /** `onChangeSchoolWeekPeriod`; `jitters[i]` is the random second of the
      i-th user armed. */
  function WeekHook(w: World, term: Term, clock: Clock, schoolId: int, jitters: seq<int>): World
    requires |jitters| >= |w.users|
  {
    var us := UsersOfSchool(w.users, schoolId);
    w.(listener := RestartAll(w.listener, us, EnvOf(w, term, clock), jitters[..|us|]).0)
  }

  /** `onChangeSchoolTimetable`. */
  function TimetableHook(w: World, term: Term, clock: Clock, schoolId: int, jitters: seq<int>): (r: World)
    requires |jitters| >= |w.users|
    ensures r.(listener := w.listener) == w
  {
    var us := UsersOfSchool(w.users, schoolId);
    w.(listener := OnChangeTimetableSpec(w.listener, schoolId, EnvOf(w, term, clock), jitters[..|us|]).0)
  }

  /** A `SyncCourse` request for each account, in order. */
  function SyncCourses(qqs: seq<int>): (r: seq<Request>)
    ensures |r| == |qqs|
    ensures forall i :: 0 <= i < |qqs| ==> r[i] == SyncCourse(qqs[i])
  {
    if |qqs| == 0 then [] else [SyncCourse(qqs[0])] + SyncCourses(qqs[1..])
  }

  // ----- SyncSchoolWeekPeriod -----

  /** The anchor of the school's current-term row becomes today and the
      requested week; the weeks are recomputed, then the hook runs. A missing
      user or row changes nothing. */
  function SyncWeekSpec(rev: Revision, w: World, term: Term, clock: Clock, qq: int, currentWeek: int, jitters: seq<int>): (r: World)
    requires |jitters| >= |w.users|
    ensures r.users == w.users && r.courseTables == w.courseTables && r.tips == w.tips && r.queue == w.queue
  {
    match FindUser(w.users, qq)
    case None => w
    case Some(u) =>
      match FindTimetable(w.timetables, u.schoolId, term)
      case None => w
      case Some(i) =>
        var rows := w.timetables[i := w.timetables[i].(timeStampWhenAdd := clock.today, weekPeriodWhenAdd := currentWeek)];
        WeekHook(w.(timetables := rows, weeks := Recompute(rev, w.weeks, rows, term, clock.today)), term, clock, u.schoolId, jitters)
  }

  lemma SyncWeekMissing(rev: Revision, w: World, term: Term, clock: Clock, qq: int, currentWeek: int, jitters: seq<int>)
    requires |jitters| >= |w.users|
    requires FindUser(w.users, qq).None? || FindTimetable(w.timetables, FindUser(w.users, qq).value.schoolId, term).None?
    ensures SyncWeekSpec(rev, w, term, clock, qq, currentWeek, jitters) == w
  {
  }

  /** The first current-term row of the school is re-anchored at today and
      the requested week; no other row changes. */
  lemma SyncWeekAnchors(rev: Revision, w: World, term: Term, clock: Clock, qq: int, currentWeek: int, jitters: seq<int>)
    requires |jitters| >= |w.users|
    requires FindUser(w.users, qq).Some?
    requires FindTimetable(w.timetables, FindUser(w.users, qq).value.schoolId, term).Some?
    ensures var i := FindTimetable(w.timetables, FindUser(w.users, qq).value.schoolId, term).value;
      var r := SyncWeekSpec(rev, w, term, clock, qq, currentWeek, jitters);
      |r.timetables| == |w.timetables| &&
      r.timetables[i] == w.timetables[i].(timeStampWhenAdd := clock.today, weekPeriodWhenAdd := currentWeek) &&
      forall j :: 0 <= j < |w.timetables| && j != i ==> r.timetables[j] == w.timetables[j]
  {
  }

  /** Right after the update the school's week is the requested one, because
      the offset on the anchor date is 0, provided the row is the school's
      only row the updater visits (of the current term in the newer
      revision, of any term in the older). */
  lemma SyncWeekTakesEffect(rev: Revision, w: World, term: Term, clock: Clock, qq: int, currentWeek: int, jitters: seq<int>)
    requires |jitters| >= |w.users|
    requires FindUser(w.users, qq).Some?
    requires FindTimetable(w.timetables, FindUser(w.users, qq).value.schoolId, term).Some?
    requires var school := FindUser(w.users, qq).value.schoolId;
      var i := FindTimetable(w.timetables, school, term).value;
      forall j :: 0 <= j < |w.timetables| && w.timetables[j].schoolId == school && (rev == Newer ==> InTerm(w.timetables[j], term)) ==> j == i
    ensures var r := SyncWeekSpec(rev, w, term, clock, qq, currentWeek, jitters);
      var school := FindUser(w.users, qq).value.schoolId;
      school in r.weeks && r.weeks[school] == currentWeek
  {
    var school := FindUser(w.users, qq).value.schoolId;
    var i := FindTimetable(w.timetables, school, term).value;
    var row := w.timetables[i].(timeStampWhenAdd := clock.today, weekPeriodWhenAdd := currentWeek);
    var rows := w.timetables[i := row];
    assert rows[i] == row;
    Calendar.WeekOnAnchorDate(row);
    if rev == Newer {
      forall t | t in rows && InTerm(t, term) && t.schoolId == school ensures t == row {
        var j :| 0 <= j < |rows| && rows[j] == t;
      }
      Calendar.RecomputeSingleRow(w.weeks, rows, term, clock.today, row);
    } else {
      forall t | t in rows && t.schoolId == school ensures t == row {
        var j :| 0 <= j < |rows| && rows[j] == t;
      }
      LastOfSchoolUnique(rows, row);
    }
  }

  /** A school's only row is its last. */
  lemma LastOfSchoolUnique(rows: seq<Timetable>, row: Timetable)
    requires row in rows
    requires forall t :: t in rows && t.schoolId == row.schoolId ==> t == row
    ensures Calendar.LastOfSchool(rows, row.schoolId) == Some(row)
  {
  }

  /** Users of other schools keep their jobs. */
  lemma SyncWeekKeepsOtherSchools(rev: Revision, w: World, term: Term, clock: Clock, qq: int, currentWeek: int, jitters: seq<int>, v: User)
    requires |jitters| >= |w.users|
    requires FindUser(w.users, qq).Some? && v.schoolId != FindUser(w.users, qq).value.schoolId
    requires forall x :: x in w.users && x.qq == v.qq ==> x == v
    ensures var r := SyncWeekSpec(rev, w, term, clock, qq, currentWeek, jitters).listener;
      (v.qq in r.jobs <==> v.qq in w.listener.jobs) && (v.qq in w.listener.jobs ==> r.jobs[v.qq] == w.listener.jobs[v.qq])
  {
    var school := FindUser(w.users, qq).value.schoolId;
    var us := UsersOfSchool(w.users, school);
    forall a | 0 <= a < |us| ensures us[a].qq != v.qq {
      assert us[a] in us;
    }
    match FindTimetable(w.timetables, school, term)
    case None =>
    case Some(i) =>
      var rows := w.timetables[i := w.timetables[i].(timeStampWhenAdd := clock.today, weekPeriodWhenAdd := currentWeek)];
      var w1 := w.(timetables := rows, weeks := Recompute(rev, w.weeks, rows, term, clock.today));
      RestartAllKeepsOthers(w1.listener, us, EnvOf(w1, term, clock), jitters[..|us|], v.qq);
  }

  // ----- DeleteCourse -----

  /** Deleting an account: the last user of a school takes the school's
      rows, week and cached schedule along; the lead time, the job, the
      course table and the user row go in every case. A missing user changes
      nothing. */
  function DeleteSpec(w: World, qq: int): (r: World)
    ensures r.queue == w.queue
  {
    match FindUser(w.users, qq)
    case None => w
    case Some(u) =>
      var w1 :=
        if |UsersOfSchool(w.users, u.schoolId)| == 1 then
          w.(timetables := RemoveSchool(w.timetables, u.schoolId),
             weeks := w.weeks - {u.schoolId},
             listener := w.listener.(cache := DropSchool(w.listener.cache, u.schoolId)))
        else w;
      w1.(tips := w1.tips - {qq}, listener := Stop(w1.listener, qq), courseTables := w1.courseTables - {qq}, users := RemoveUser(w1.users, qq))
  }

  lemma DeleteMissing(w: World, qq: int)
    requires FindUser(w.users, qq).None?
    ensures DeleteSpec(w, qq) == w
  {
  }

  /** Every trace of the account is gone, and every other user remains. */
  lemma DeleteForgetsUser(w: World, qq: int)
    requires FindUser(w.users, qq).Some?
    ensures var r := DeleteSpec(w, qq);
      FindUser(r.users, qq).None? && qq !in r.tips && qq !in r.listener.jobs && qq !in r.courseTables
    ensures var r := DeleteSpec(w, qq);
      forall v :: v in w.users && v.qq != qq ==> v in r.users
  {
    var r := DeleteSpec(w, qq);
    forall i | 0 <= i < |r.users| ensures r.users[i].qq != qq {
      assert r.users[i] in r.users;
    }
  }

  /** The last user of a school takes its rows, its week and its cached
      schedule along. */
  lemma DeleteLastUserDropsSchool(w: World, qq: int)
    requires FindUser(w.users, qq).Some?
    requires |UsersOfSchool(w.users, FindUser(w.users, qq).value.schoolId)| == 1
    ensures var school := FindUser(w.users, qq).value.schoolId;
      var r := DeleteSpec(w, qq);
      (forall t :: t in r.timetables ==> t.schoolId != school) && school !in r.weeks &&
      (forall e :: e in r.listener.cache ==> e.schoolId != school)
  {
  }

  /** While others share the school its data is untouched. */
  lemma DeleteSharedSchoolKeepsData(w: World, qq: int)
    requires FindUser(w.users, qq).Some?
    requires |UsersOfSchool(w.users, FindUser(w.users, qq).value.schoolId)| > 1
    ensures var r := DeleteSpec(w, qq);
      r.timetables == w.timetables && r.weeks == w.weeks && r.listener.cache == w.listener.cache
  {
  }

  /** Deleting keeps accounts distinct. */
  lemma DeleteKeepsDistinct(w: World, qq: int)
    requires DistinctQQs(w.users)
    ensures DistinctQQs(DeleteSpec(w, qq).users)
  {
    if FindUser(w.users, qq).Some? {
      RemoveUserDistinct(w.users, qq);
    }
  }

  lemma {:induction false} RemoveUserDistinct(users: seq<User>, qq: int)
    requires DistinctQQs(users)
    ensures DistinctQQs(RemoveUser(users, qq))
    decreases |users|
  {
    if |users| > 0 {
      var tail := users[1..];
      assert DistinctQQs(tail) by {
        forall a, b | 0 <= a < b < |tail| ensures tail[a].qq != tail[b].qq {
          assert tail[a] == users[a + 1] && tail[b] == users[b + 1];
        }
      }
      RemoveUserDistinct(tail, qq);
      if users[0].qq != qq {
        var rest := RemoveUser(tail, qq);
        forall v | v in rest ensures v.qq != users[0].qq {
          var j :| 0 <= j < |tail| && tail[j] == v;
          assert users[j + 1] == v;
        }
        DistinctQQsCons(users[0], rest);
      }
    }
  }

  // ----- InternalSyncCourseRequestViaCookieData -----

  /** A lesson of the course reply. */
  datatype Lesson = Lesson(courseId: int, name: string, teacher: string, locale: string, day: int, sectionstart: int, sectionend: int, smartPeriod: string)

  /** The course row inserted for a lesson, tagged with the current term. */
  function LessonRow(e: Lesson, term: Term): (c: Course)
    ensures CourseInTerm(c, term)
  {
    Course(e.courseId, e.name, e.teacher, e.locale, e.day, e.sectionstart, e.sectionend, e.smartPeriod, term.beginYear, term.semester)
  }

  function LessonRows(es: seq<Lesson>, term: Term): (r: seq<Course>)
    ensures |r| == |es|
    ensures forall i :: 0 <= i < |es| ==> r[i] == LessonRow(es[i], term)
  {
    if |es| == 0 then [] else [LessonRow(es[0], term)] + LessonRows(es[1..], term)
  }

  /** The course table is created if missing and its current-term rows are
      deleted before anything else. With a user and a reply, the lessons are
      inserted: the older revision always, the newer one only for a
      non-empty list, which it follows by restarting the user's reminder. An
      exception there fails the request and rolls back the transaction the
      handler runs in, so the course tables are as they were, while the
      listener's in-memory tables keep what the restart did. `fetched` is
      `None` for a failed fetch. */
  function InternalSyncSpec(rev: Revision, w: World, term: Term, clock: Clock, qq: int, fetched: Option<seq<Lesson>>, jitter: int): (r: (World, bool))
    ensures r.0.users == w.users && r.0.timetables == w.timetables && r.0.weeks == w.weeks && r.0.tips == w.tips && r.0.queue == w.queue
  {
    var table := if qq in w.courseTables then w.courseTables[qq] else [];
    var kept := RemoveTermCourses(table, term);
    var w1 := w.(courseTables := w.courseTables[qq := kept]);
    if FindUser(w.users, qq).None? || fetched.None? then (w1, true)
    else if rev == Older then (w1.(courseTables := w.courseTables[qq := kept + LessonRows(fetched.value, term)]), true)
    else if |fetched.value| == 0 then (w1, true)
    else
      var w2 := w1.(courseTables := w.courseTables[qq := kept + LessonRows(fetched.value, term)]);
      var s := RestartUserSpec(w2.listener, qq, EnvOf(w2, term, clock), jitter);
      if s.1 then (w2.(listener := s.0), true) else (w.(listener := s.0), false)
  }

  /** The course tables after a course sync: when the request completes the
      user's table holds its rows of other terms followed by the inserted
      rows; when it fails the tables are as they were. */
  lemma InternalSyncTables(rev: Revision, w: World, term: Term, clock: Clock, qq: int, fetched: Option<seq<Lesson>>, jitter: int)
    ensures var r := InternalSyncSpec(rev, w, term, clock, qq, fetched, jitter);
      var table := if qq in w.courseTables then w.courseTables[qq] else [];
      var inserted := if FindUser(w.users, qq).Some? && fetched.Some? && (rev == Older || |fetched.value| > 0)
                      then LessonRows(fetched.value, term) else [];
      r.0.courseTables == if r.1 then w.courseTables[qq := RemoveTermCourses(table, term) + inserted] else w.courseTables
  {
    var table := if qq in w.courseTables then w.courseTables[qq] else [];
    var kept := RemoveTermCourses(table, term);
    var r := InternalSyncSpec(rev, w, term, clock, qq, fetched, jitter);
    if FindUser(w.users, qq).None? || fetched.None? || (rev == Newer && |fetched.value| == 0) {
      assert r.1 && r.0.courseTables == w.courseTables[qq := kept];
      assert kept + [] == kept;
    } else if rev == Older {
      assert r.1 && r.0.courseTables == w.courseTables[qq := kept + LessonRows(fetched.value, term)];
    } else {
      var w2 := w.(courseTables := w.courseTables[qq := kept + LessonRows(fetched.value, term)]);
      var s := RestartUserSpec(w2.listener, qq, EnvOf(w2, term, clock), jitter);
      assert r.1 == s.1 && r.0.courseTables == if s.1 then w2.courseTables else w.courseTables;
    }
  }

  /** When the request completes, the rows of other terms stay and every
      current-term row left is one of the fetched lessons; whatever the
      outcome, other users' tables are untouched. */
  lemma InternalSyncReplacesTerm(rev: Revision, w: World, term: Term, clock: Clock, qq: int, fetched: Option<seq<Lesson>>, jitter: int)
    ensures var r := InternalSyncSpec(rev, w, term, clock, qq, fetched, jitter);
      r.1 ==>
        qq in r.0.courseTables &&
        forall c :: c in r.0.courseTables[qq] && !CourseInTerm(c, term) <==> qq in w.courseTables && c in w.courseTables[qq] && !CourseInTerm(c, term)
    ensures var r := InternalSyncSpec(rev, w, term, clock, qq, fetched, jitter);
      r.1 ==> forall c :: c in r.0.courseTables[qq] && CourseInTerm(c, term) ==> fetched.Some? && c in LessonRows(fetched.value, term)
    ensures var r := InternalSyncSpec(rev, w, term, clock, qq, fetched, jitter).0;
      forall k :: k != qq ==> (k in r.courseTables <==> k in w.courseTables) && (k in w.courseTables ==> r.courseTables[k] == w.courseTables[k])
  {
    InternalSyncTables(rev, w, term, clock, qq, fetched, jitter);
  }

  /** When the request completes, a known user's fetched lessons all land in
      the table (in the newer revision only a non-empty list is inserted,
      which for an empty list is the same thing). */
  lemma InternalSyncInsertsLessons(rev: Revision, w: World, term: Term, clock: Clock, qq: int, lessons: seq<Lesson>, jitter: int)
    requires FindUser(w.users, qq).Some?
    ensures var r := InternalSyncSpec(rev, w, term, clock, qq, Some(lessons), jitter);
      r.1 ==> forall e :: e in lessons ==> LessonRow(e, term) in r.0.courseTables[qq]
  {
    var r := InternalSyncSpec(rev, w, term, clock, qq, Some(lessons), jitter);
    forall e | e in lessons && r.1 ensures LessonRow(e, term) in r.0.courseTables[qq] {
      var i :| 0 <= i < |lessons| && lessons[i] == e;
      assert LessonRows(lessons, term)[i] == LessonRow(e, term);
    }
  }

  /** In the newer revision only a non-empty insert restarts the reminder:
      otherwise the listener is as it was. */
  lemma InternalSyncRestartsOnlyAfterInsert(w: World, term: Term, clock: Clock, qq: int, fetched: Option<seq<Lesson>>, jitter: int)
    requires FindUser(w.users, qq).None? || fetched.None? || |fetched.value| == 0
    ensures InternalSyncSpec(Newer, w, term, clock, qq, fetched, jitter).0.listener == w.listener
    ensures InternalSyncSpec(Newer, w, term, clock, qq, fetched, jitter).1
  {
  }

  /** After a non-empty insert the user is re-armed on the lessons of the day
      as the listener finds them with the new rows in place; the request
      fails exactly when that restart does, and then the course tables are
      rolled back while the listener keeps what the restart did. */
  lemma InternalSyncRestarts(w: World, term: Term, clock: Clock, qq: int, lessons: seq<Lesson>, jitter: int)
    requires FindUser(w.users, qq).Some? && |lessons| > 0
    ensures var r := InternalSyncSpec(Newer, w, term, clock, qq, Some(lessons), jitter);
      var table := if qq in w.courseTables then w.courseTables[qq] else [];
      var w2 := w.(courseTables := w.courseTables[qq := RemoveTermCourses(table, term) + LessonRows(lessons, term)]);
      var s := RestartUserSpec(w.listener, qq, EnvOf(w2, term, clock), jitter);
      r.1 == s.1 && r.0.listener == s.0 &&
      (r.1 ==> r.0.courseTables == w2.courseTables) &&
      (!r.1 ==> r.0.courseTables == w.courseTables)
  {
  }

  /** A failed request changes nothing in the database: only the listener's
      in-memory tables may differ. It fails only in the newer revision, for
      a known user with a non-empty lesson list. */
  lemma InternalSyncFaultRollsBack(rev: Revision, w: World, term: Term, clock: Clock, qq: int, fetched: Option<seq<Lesson>>, jitter: int)
    ensures var r := InternalSyncSpec(rev, w, term, clock, qq, fetched, jitter);
      !r.1 ==> r.0.(listener := w.listener) == w
    ensures var r := InternalSyncSpec(rev, w, term, clock, qq, fetched, jitter);
      !r.1 ==> rev == Newer && FindUser(w.users, qq).Some? && fetched.Some? && |fetched.value| > 0
  {
  }

  // ----- InheritTimetableFromLastSemester -----

  /** The term before: autumn of the same academic year before a spring
      term, otherwise spring of the year before. */
  function PreviousTerm(term: Term): (p: Term)
    ensures term.semester == 2 ==> p == Term(term.beginYear, 1)
    ensures term.semester != 2 ==> p == Term(term.beginYear - 1, 2)
  {
    if term.semester == 2 then Term(term.beginYear, 1) else Term(term.beginYear - 1, 2)
  }

  /** The term after, by the calendar's own rule: spring follows autumn in
      the same academic year, autumn opens the next one. */
  function NextTerm(term: Term): Term
  {
    if term.semester == 1 then Term(term.beginYear, 2) else Term(term.beginYear + 1, 1)
  }

  /** `PreviousTerm` undoes `NextTerm` and the other way round. */
  lemma PreviousTermInvertsNext(term: Term)
    requires term.semester == 1 || term.semester == 2
    ensures PreviousTerm(NextTerm(term)) == term
    ensures NextTerm(PreviousTerm(term)) == term
  {
  }

  /** The day before 15 February belongs to autumn, 15 February to spring of
      the same academic year: the calendar's terms step as `NextTerm` says. */
  lemma CalendarStepsToNextTerm(y: int)
    ensures var autumn := Date(y, 2, 14);
      var spring := Date(y, 2, 15);
      var ta := Term(Calendar.SemesterBeginYear(Calendar.Semester(autumn), autumn), Calendar.Semester(autumn));
      var ts := Term(Calendar.SemesterBeginYear(Calendar.Semester(spring), spring), Calendar.Semester(spring));
      NextTerm(ta) == ts && PreviousTerm(ts) == ta
  {
  }

  /** The row inheriting the previous term's schedule. */
  function InheritedRow(p: Timetable, term: Term, today: Date): (t: Timetable)
    ensures InTerm(t, term) && t.schoolId == p.schoolId && t.scheduledTimeList == p.scheduledTimeList
    ensures t.timeStampWhenAdd == today && t.weekPeriodWhenAdd == 1
  {
    Timetable(p.schoolId, p.schoolName, term.beginYear, term.semester, p.scheduledTimeList, today, 1)
  }

  /** A new current-term row copies the previous term's first row of the
      school; weeks are recomputed, the hook runs, and the newer revision
      asks every user of the school (the requester too) to sync courses. A
      missing user or previous row changes nothing. */
  function InheritSpec(rev: Revision, w: World, term: Term, clock: Clock, qq: int, jitters: seq<int>): (r: World)
    requires |jitters| >= |w.users|
    ensures r.users == w.users && r.courseTables == w.courseTables && r.tips == w.tips
  {
    match FindUser(w.users, qq)
    case None => w
    case Some(u) =>
      match FindTimetable(w.timetables, u.schoolId, PreviousTerm(term))
      case None => w
      case Some(i) =>
        var rows := w.timetables + [InheritedRow(w.timetables[i], term, clock.today)];
        var w1 := TimetableHook(w.(timetables := rows, weeks := Recompute(rev, w.weeks, rows, term, clock.today)), term, clock, u.schoolId, jitters);
        if rev == Older then w1
        else w1.(queue := w1.queue + SyncCourses(QQs(UsersOfSchool(w.users, u.schoolId))))
  }

  lemma InheritMissing(rev: Revision, w: World, term: Term, clock: Clock, qq: int, jitters: seq<int>)
    requires |jitters| >= |w.users|
    requires FindUser(w.users, qq).None? || FindTimetable(w.timetables, FindUser(w.users, qq).value.schoolId, PreviousTerm(term)).None?
    ensures InheritSpec(rev, w, term, clock, qq, jitters) == w
  {
  }

  lemma LastOfSchoolAppend(rows: seq<Timetable>, t: Timetable)
    ensures Calendar.LastOfSchool(rows + [t], t.schoolId) == Some(t)
  {
  }

  lemma TermRowsAppend(rows: seq<Timetable>, t: Timetable, term: Term)
    requires InTerm(t, term)
    ensures Calendar.TermRows(rows + [t], term) == Calendar.TermRows(rows, term) + [t]
    decreases |rows|
  {
    if |rows| > 0 {
      assert (rows + [t])[1..] == rows[1..] + [t];
      TermRowsAppend(rows[1..], t, term);
    } else {
      assert Calendar.TermRows([t], term) == [t] + Calendar.TermRows([t][1..], term);
    }
  }

  /** The inherited row is appended last, so in both revisions it decides
      the school's week: week 1 on the day of inheritance. */
  lemma InheritStartsAtWeekOne(rev: Revision, w: World, term: Term, clock: Clock, qq: int, jitters: seq<int>)
    requires |jitters| >= |w.users|
    requires FindUser(w.users, qq).Some?
    requires FindTimetable(w.timetables, FindUser(w.users, qq).value.schoolId, PreviousTerm(term)).Some?
    ensures var school := FindUser(w.users, qq).value.schoolId;
      var r := InheritSpec(rev, w, term, clock, qq, jitters);
      school in r.weeks && r.weeks[school] == 1
  {
    var school := FindUser(w.users, qq).value.schoolId;
    var i := FindTimetable(w.timetables, school, PreviousTerm(term)).value;
    var t := InheritedRow(w.timetables[i], term, clock.today);
    var rows := w.timetables + [t];
    Calendar.WeekOnAnchorDate(t);
    if rev == Newer {
      TermRowsAppend(w.timetables, t, term);
      LastOfSchoolAppend(Calendar.TermRows(w.timetables, term), t);
    } else {
      LastOfSchoolAppend(w.timetables, t);
    }
  }

  /** With no current-term row before, the school now loads the previous
      term's schedule. */
  lemma InheritCopiesSchedule(rev: Revision, w: World, term: Term, clock: Clock, qq: int, jitters: seq<int>)
    requires |jitters| >= |w.users|
    requires FindUser(w.users, qq).Some?
    requires FindTimetable(w.timetables, FindUser(w.users, qq).value.schoolId, term).None?
    requires FindTimetable(w.timetables, FindUser(w.users, qq).value.schoolId, PreviousTerm(term)).Some?
    ensures var school := FindUser(w.users, qq).value.schoolId;
      var i := FindTimetable(w.timetables, school, PreviousTerm(term)).value;
      var r := InheritSpec(rev, w, term, clock, qq, jitters);
      FindTimetable(r.timetables, school, term) == Some(|w.timetables|) &&
      DbSchedule(r.timetables, school, term) == ParseSchedule(w.timetables[i].scheduledTimeList)
  {
    var school := FindUser(w.users, qq).value.schoolId;
    var i := FindTimetable(w.timetables, school, PreviousTerm(term)).value;
    var t := InheritedRow(w.timetables[i], term, clock.today);
    FindTimetableAppend(w.timetables, t, school, term);
  }

  lemma FindTimetableAppend(rows: seq<Timetable>, t: Timetable, schoolId: int, term: Term)
    requires FindTimetable(rows, schoolId, term).None?
    requires t.schoolId == schoolId && InTerm(t, term)
    ensures FindTimetable(rows + [t], schoolId, term) == Some(|rows|)
  {
    assert (rows + [t])[|rows|] == t;
    assert forall j :: 0 <= j < |rows| ==> (rows + [t])[j] == rows[j];
  }

  /** The newer revision asks every user of the school, the requester
      included, to sync courses, in table order; the older asks nobody. */
  lemma InheritEnqueues(rev: Revision, w: World, term: Term, clock: Clock, qq: int, jitters: seq<int>)
    requires |jitters| >= |w.users|
    requires FindUser(w.users, qq).Some?
    requires FindTimetable(w.timetables, FindUser(w.users, qq).value.schoolId, PreviousTerm(term)).Some?
    ensures var r := InheritSpec(rev, w, term, clock, qq, jitters);
      var us := UsersOfSchool(w.users, FindUser(w.users, qq).value.schoolId);
      r.queue == w.queue + (if rev == Newer then SyncCourses(QQs(us)) else [])
  {
    var u := FindUser(w.users, qq).value;
    var i := FindTimetable(w.timetables, u.schoolId, PreviousTerm(term)).value;
    var rows := w.timetables + [InheritedRow(w.timetables[i], term, clock.today)];
    var w1 := TimetableHook(w.(timetables := rows, weeks := Recompute(rev, w.weeks, rows, term, clock.today)), term, clock, u.schoolId, jitters);
    var r := InheritSpec(rev, w, term, clock, qq, jitters);
    if rev == Newer {
      assert r == w1.(queue := w1.queue + SyncCourses(QQs(UsersOfSchool(w.users, u.schoolId))));
    } else {
      assert r == w1;
      assert w.queue + [] == w.queue;
    }
  }

  /** In the newer revision the requester is among the users whose courses
      are synced after an inheritance. */
  lemma InheritSyncsRequester(rev: Revision, w: World, term: Term, clock: Clock, qq: int, jitters: seq<int>)
    requires |jitters| >= |w.users|
    requires FindUser(w.users, qq).Some?
    requires FindTimetable(w.timetables, FindUser(w.users, qq).value.schoolId, PreviousTerm(term)).Some?
    ensures rev == Newer ==>
      var r := InheritSpec(rev, w, term, clock, qq, jitters);
      SyncCourse(qq) in r.queue[|w.queue|..]
  {
    if rev == Newer {
      InheritEnqueues(rev, w, term, clock, qq, jitters);
      var u := FindUser(w.users, qq).value;
      var us := UsersOfSchool(w.users, u.schoolId);
      var r := InheritSpec(rev, w, term, clock, qq, jitters);
      assert r.queue[|w.queue|..] == SyncCourses(QQs(us));
      SyncCoursesHolds(us, u);
    }
  }

  /** Each user of the list gets its `SyncCourse` request. */
  lemma SyncCoursesHolds(us: seq<User>, u: User)
    requires u in us
    ensures SyncCourse(u.qq) in SyncCourses(QQs(us))
  {
    var k :| 0 <= k < |us| && us[k] == u;
    assert SyncCourses(QQs(us))[k] == SyncCourse(u.qq);
  }

  // ----- SyncSchoolTimetable -----

  /** A term of the login reply with its periods. */
  datatype ServerTerm = ServerTerm(beginYear: int, term: int, periods: seq<ServerPeriod>)

  /** The part of a successful login reply the sync reads. */
  datatype LoginReply = LoginReply(schoolId: int, schoolName: string, terms: seq<ServerTerm>)

  /** `myTermList.first { it.beginYear == ... && it.term == ... }`. */
  function FindServerTerm(terms: seq<ServerTerm>, term: Term): (r: Option<nat>)
    ensures r.None? <==> forall k :: 0 <= k < |terms| ==> !(terms[k].beginYear == term.beginYear && terms[k].term == term.semester)
    ensures r.Some? ==> r.value < |terms| && terms[r.value].beginYear == term.beginYear && terms[r.value].term == term.semester
  {
    if |terms| == 0 then None
    else if terms[0].beginYear == term.beginYear && terms[0].term == term.semester then Some(0)
    else match FindServerTerm(terms[1..], term)
      case None => None
      case Some(k) => Some(k + 1)
  }

  /** The schedule string a revision builds from the server's periods. */
  function ServerSchedule(rev: Revision, ps: seq<ServerPeriod>): Option<string>
  {
    if rev == Newer then ScheduleFromServer(ps) else LegacyScheduleFromServer(ps)
  }

  /** `syncFromServer`: log in again (`None` for a failed login, which is
      only reported), take the current term's periods, and create a row
      (with the server's school, week 1 and today) or rewrite the schedule of
      the existing one, then recompute the weeks. A missing server term, a
      malformed period or a missing row throws. */
  function SyncFromServerSpec(rev: Revision, w: World, term: Term, clock: Clock, u: User, createNew: bool, login: Option<LoginReply>): (r: (World, bool))
    ensures r.0.users == w.users && r.0.courseTables == w.courseTables && r.0.tips == w.tips && r.0.listener == w.listener && r.0.queue == w.queue
  {
    if login.None? then (w, true)
    else match FindServerTerm(login.value.terms, term)
      case None => (w, false)
      case Some(k) =>
        var sched := ServerSchedule(rev, login.value.terms[k].periods);
        if sched.None? then (w, false)
        else WriteServerSchedule(rev, w, term, clock, u, createNew, login.value, sched.value)
  }

  /** The write of `syncFromServer` once the schedule string is built: a new
      current-term row at week 1 today, or the schedule of the school's
      existing current-term row (`first()` throws without one), then the
      weeks recomputed. */
  function WriteServerSchedule(rev: Revision, w: World, term: Term, clock: Clock, u: User, createNew: bool,
                               reply: LoginReply, sched: string): (r: (World, bool))
    ensures r.0.users == w.users && r.0.courseTables == w.courseTables && r.0.tips == w.tips && r.0.listener == w.listener && r.0.queue == w.queue
  {
    if createNew then
      var rows := w.timetables + [Timetable(reply.schoolId, reply.schoolName, term.beginYear, term.semester, sched, clock.today, 1)];
      (w.(timetables := rows, weeks := Recompute(rev, w.weeks, rows, term, clock.today)), true)
    else match FindTimetable(w.timetables, u.schoolId, term)
      case None => (w, false)
      case Some(i) =>
        var rows := w.timetables[i := w.timetables[i].(scheduledTimeList := sched)];
        (w.(timetables := rows, weeks := Recompute(rev, w.weeks, rows, term, clock.today)), true)
  }

  /** The forced branch after the schedule is written: the hook, and in the
      newer revision with `alsoSyncCourses` a course sync for every user of
      the school. */
  function AfterForcedSync(rev: Revision, w: World, term: Term, clock: Clock, schoolId: int, alsoSync: bool, jitters: seq<int>): (r: World)
    requires |jitters| >= |w.users|
  {
    var w1 := TimetableHook(w, term, clock, schoolId, jitters);
    if rev == Newer && alsoSync then w1.(queue := w1.queue + SyncCourses(QQs(UsersOfSchool(w.users, schoolId))))
    else w1
  }

  /** The forced branch: from the server, or a manual correction written on
      the existing current-term row (`first()` throws without one), then the
      hook. */
  function ForcedSyncSpec(rev: Revision, w: World, term: Term, clock: Clock, u: User, newTimetable: Option<seq<TextPair>>,
                          alsoSync: bool, login: Option<LoginReply>, jitters: seq<int>): (r: (World, bool))
    requires |jitters| >= |w.users|
    ensures r.0.users == w.users && r.0.courseTables == w.courseTables && r.0.tips == w.tips
  {
    var row := FindTimetable(w.timetables, u.schoolId, term);
    if newTimetable.None? then
      var s := SyncFromServerSpec(rev, w, term, clock, u, row.None?, login);
      if !s.1 then s
      else (AfterForcedSync(rev, s.0, term, clock, u.schoolId, alsoSync, jitters), true)
    else if row.None? then (w, false)
    else
      var rows := w.timetables[row.value := w.timetables[row.value].(scheduledTimeList := ManualScheduleString(newTimetable.value))];
      (AfterForcedSync(rev, w.(timetables := rows), term, clock, u.schoolId, alsoSync, jitters), true)
  }

  /** The first sync of a school with no current-term row, followed by a
      week-1 request. */
  function FirstSyncSpec(rev: Revision, w: World, term: Term, clock: Clock, qq: int, u: User, login: Option<LoginReply>): (r: (World, bool))
    ensures r.0.users == w.users && r.0.courseTables == w.courseTables && r.0.tips == w.tips
  {
    var s := SyncFromServerSpec(rev, w, term, clock, u, true, login);
    if !s.1 then s
    else (s.0.(queue := s.0.queue + [SyncSchoolWeekPeriod(qq, 1)]), true)
  }

  /** `SyncSchoolTimetable.handle`. Forced: the forced branch. Unforced: only
      a school with no current-term row is synced; otherwise the request is
      denied. A missing user changes nothing. The flag is `false` where the
      handler throws. */
  function SyncTimetableSpec(rev: Revision, w: World, term: Term, clock: Clock, qq: int, newTimetable: Option<seq<TextPair>>,
                             force: bool, alsoSync: bool, login: Option<LoginReply>, jitters: seq<int>): (r: (World, bool))
    requires |jitters| >= |w.users|
    ensures r.0.users == w.users && r.0.courseTables == w.courseTables && r.0.tips == w.tips
  {
    match FindUser(w.users, qq)
    case None => (w, true)
    case Some(u) =>
      if force then ForcedSyncSpec(rev, w, term, clock, u, newTimetable, alsoSync, login, jitters)
      else if FindTimetable(w.timetables, u.schoolId, term).None? then FirstSyncSpec(rev, w, term, clock, qq, u, login)
      else (w, true)
  }

  lemma SyncMissingUser(rev: Revision, w: World, term: Term, clock: Clock, qq: int, newTimetable: Option<seq<TextPair>>,
                        force: bool, alsoSync: bool, login: Option<LoginReply>, jitters: seq<int>)
    requires |jitters| >= |w.users|
    requires FindUser(w.users, qq).None?
    ensures SyncTimetableSpec(rev, w, term, clock, qq, newTimetable, force, alsoSync, login, jitters) == (w, true)
  {
  }

  /** Without `forceUpdate` an existing current-term row is never
      overwritten: nothing changes at all. */
  lemma SyncUnforcedKeepsExisting(rev: Revision, w: World, term: Term, clock: Clock, qq: int, newTimetable: Option<seq<TextPair>>,
                                  alsoSync: bool, login: Option<LoginReply>, jitters: seq<int>)
    requires |jitters| >= |w.users|
    requires FindUser(w.users, qq).Some?
    requires FindTimetable(w.timetables, FindUser(w.users, qq).value.schoolId, term).Some?
    ensures SyncTimetableSpec(rev, w, term, clock, qq, newTimetable, false, alsoSync, login, jitters) == (w, true)
  {
  }

  /** The first sync of a school creates its current-term row, anchored at
      week 1 today, and asks for a week-1 sync. */
  lemma SyncFirstTimeCreates(rev: Revision, w: World, term: Term, clock: Clock, qq: int, newTimetable: Option<seq<TextPair>>,
                             alsoSync: bool, reply: LoginReply, jitters: seq<int>)
    requires |jitters| >= |w.users|
    requires FindUser(w.users, qq).Some?
    requires FindTimetable(w.timetables, FindUser(w.users, qq).value.schoolId, term).None?
    requires FindServerTerm(reply.terms, term).Some?
    requires ServerSchedule(rev, reply.terms[FindServerTerm(reply.terms, term).value].periods).Some?
    ensures var r := SyncTimetableSpec(rev, w, term, clock, qq, newTimetable, false, alsoSync, Some(reply), jitters);
      var sched := ServerSchedule(rev, reply.terms[FindServerTerm(reply.terms, term).value].periods).value;
      r.1 &&
      r.0.timetables == w.timetables + [Timetable(reply.schoolId, reply.schoolName, term.beginYear, term.semester, sched, clock.today, 1)] &&
      r.0.queue == w.queue + [SyncSchoolWeekPeriod(qq, 1)]
  {
  }

  /** The newer revision stores the twelve-period default when the server
      sends no periods for the term. */
  lemma SyncEmptyServerTermDefault(w: World, term: Term, clock: Clock, u: User, reply: LoginReply)
    requires FindServerTerm(reply.terms, term).Some?
    requires reply.terms[FindServerTerm(reply.terms, term).value].periods == []
    ensures var r := SyncFromServerSpec(Newer, w, term, clock, u, true, Some(reply)).0;
      |r.timetables| == |w.timetables| + 1 && ParseSchedule(r.timetables[|w.timetables|].scheduledTimeList) == Some(DefaultPeriods())
  {
    var k := FindServerTerm(reply.terms, term).value;
    assert ServerSchedule(Newer, reply.terms[k].periods) == Some(DefaultSchedule);
    CreatedRowSchedule(Newer, w, term, clock, u, reply);
    DefaultScheduleLoads();
  }

  /** The older revision stores the empty string, which no load accepts. */
  lemma SyncEmptyServerTermLegacy(w: World, term: Term, clock: Clock, u: User, reply: LoginReply)
    requires FindServerTerm(reply.terms, term).Some?
    requires reply.terms[FindServerTerm(reply.terms, term).value].periods == []
    ensures var r := SyncFromServerSpec(Older, w, term, clock, u, true, Some(reply)).0;
      |r.timetables| == |w.timetables| + 1 && ParseSchedule(r.timetables[|w.timetables|].scheduledTimeList).None?
  {
    var k := FindServerTerm(reply.terms, term).value;
    assert ServerSchedule(Older, reply.terms[k].periods) == Some("");
    CreatedRowSchedule(Older, w, term, clock, u, reply);
    var r := SyncFromServerSpec(Older, w, term, clock, u, true, Some(reply)).0;
    EmptyStoredFails(r.timetables[|w.timetables|].scheduledTimeList);
  }

  lemma EmptyStoredFails(stored: string)
    requires stored == ""
    ensures ParseSchedule(stored).None?
  {
    EmptyScheduleFails();
  }

  /** The row a first sync creates holds the revision's schedule string. */
  lemma CreatedRowSchedule(rev: Revision, w: World, term: Term, clock: Clock, u: User, reply: LoginReply)
    requires FindServerTerm(reply.terms, term).Some?
    requires ServerSchedule(rev, reply.terms[FindServerTerm(reply.terms, term).value].periods).Some?
    ensures var r := SyncFromServerSpec(rev, w, term, clock, u, true, Some(reply)).0;
      |r.timetables| == |w.timetables| + 1 &&
      r.timetables[|w.timetables|].scheduledTimeList == ServerSchedule(rev, reply.terms[FindServerTerm(reply.terms, term).value].periods).value
  {
  }

  /** A missing server term throws before anything is written. */
  lemma SyncServerTermMissing(rev: Revision, w: World, term: Term, clock: Clock, u: User, createNew: bool, reply: LoginReply)
    requires FindServerTerm(reply.terms, term).None?
    ensures SyncFromServerSpec(rev, w, term, clock, u, createNew, Some(reply)) == (w, false)
  {
  }

  /** A manual correction is written on the school's current-term row as
      "first-second" segments; entered as "HH:MM" pairs of valid periods it
      loads back as those periods. */
  lemma SyncManualCorrection(rev: Revision, w: World, term: Term, clock: Clock, qq: int, ps: seq<Period>,
                             alsoSync: bool, login: Option<LoginReply>, jitters: seq<int>)
    requires |jitters| >= |w.users|
    requires Encodable(ps) && |ps| >= 1
    requires FindUser(w.users, qq).Some?
    requires FindTimetable(w.timetables, FindUser(w.users, qq).value.schoolId, term).Some?
    ensures var school := FindUser(w.users, qq).value.schoolId;
      var i := FindTimetable(w.timetables, school, term).value;
      var r := SyncTimetableSpec(rev, w, term, clock, qq, Some(ClockPairs(ps)), true, alsoSync, login, jitters);
      r.1 && r.0.timetables == w.timetables[i := w.timetables[i].(scheduledTimeList := ManualScheduleString(ClockPairs(ps)))] &&
      DbSchedule(r.0.timetables, school, term) == Some(ps)
  {
    var school := FindUser(w.users, qq).value.schoolId;
    var i := FindTimetable(w.timetables, school, term).value;
    var rows := w.timetables[i := w.timetables[i].(scheduledTimeList := ManualScheduleString(ClockPairs(ps)))];
    FindTimetableKeepsKey(w.timetables, i, rows[i], school, term);
    ManualScheduleRoundTrip(ps);
  }

  /** Changing a row without moving it to another school or term keeps it the
      one `first()` finds. */
  lemma FindTimetableKeepsKey(rows: seq<Timetable>, i: nat, t: Timetable, schoolId: int, term: Term)
    requires FindTimetable(rows, schoolId, term) == Some(i)
    requires t.schoolId == schoolId && InTerm(t, term)
    ensures FindTimetable(rows[i := t], schoolId, term) == Some(i)
  {
    var rs := rows[i := t];
    assert rs[i] == t;
    assert forall j :: 0 <= j < |rows| && j != i ==> rs[j] == rows[j];
  }

  /** A manual correction without a current-term row throws and writes
      nothing. */
  lemma SyncManualWithoutRow(rev: Revision, w: World, term: Term, clock: Clock, qq: int, pairs: seq<TextPair>,
                             alsoSync: bool, login: Option<LoginReply>, jitters: seq<int>)
    requires |jitters| >= |w.users|
    requires FindUser(w.users, qq).Some?
    requires FindTimetable(w.timetables, FindUser(w.users, qq).value.schoolId, term).None?
    ensures SyncTimetableSpec(rev, w, term, clock, qq, Some(pairs), true, alsoSync, login, jitters) == (w, false)
  {
  }

  /** A forced sync that goes through sends a course sync for every user of
      the school exactly when the newer revision is asked to. */
  lemma SyncForcedEnqueues(rev: Revision, w: World, term: Term, clock: Clock, qq: int, newTimetable: Option<seq<TextPair>>,
                           alsoSync: bool, login: Option<LoginReply>, jitters: seq<int>)
    requires |jitters| >= |w.users|
    requires FindUser(w.users, qq).Some?
    ensures var r := SyncTimetableSpec(rev, w, term, clock, qq, newTimetable, true, alsoSync, login, jitters);
      var us := UsersOfSchool(w.users, FindUser(w.users, qq).value.schoolId);
      r.1 ==> r.0.queue == w.queue + (if rev == Newer && alsoSync then SyncCourses(QQs(us)) else [])
  {
  }

  // ----- the older revision's own branches -----

  /** The student record of a successful login. */
  datatype Student = Student(studentId: int, nickName: string, schoolId: int)

  /** `LoginRequest`: only an unknown account logs in; on success the user
      row is added (the password stored as `encrypted`, the cipher being
      outside the model), the lead time set to the default, and a course
      sync and then a timetable sync are requested. */
  function LoginSpec(w: World, qq: int, username: string, encrypted: string, reply: Option<Student>, cookie: Cookie): (r: World)
    ensures r.timetables == w.timetables && r.courseTables == w.courseTables && r.weeks == w.weeks && r.listener == w.listener
  {
    if FindUser(w.users, qq).Some? || reply.None? then w
    else
      w.(users := w.users + [User(qq, reply.value.studentId, reply.value.nickName, reply.value.schoolId, username, encrypted)],
         tips := w.tips[qq := DefaultTipTime],
         queue := w.queue + [InternalSyncCourse(qq, cookie), SyncSchoolTimetable(qq, None, false, false)])
  }

  /** A second login of the same account is refused and changes nothing. */
  lemma LoginRefusesKnownUser(w: World, qq: int, username: string, encrypted: string, reply: Option<Student>, cookie: Cookie)
    requires FindUser(w.users, qq).Some?
    ensures LoginSpec(w, qq, username, encrypted, reply, cookie) == w
  {
  }

  /** A login keeps accounts distinct, and a successful one makes the account
      known with the default lead time, course sync queued before timetable
      sync. */
  lemma LoginAddsUser(w: World, qq: int, username: string, encrypted: string, reply: Option<Student>, cookie: Cookie)
    requires DistinctQQs(w.users)
    ensures DistinctQQs(LoginSpec(w, qq, username, encrypted, reply, cookie).users)
    ensures var r := LoginSpec(w, qq, username, encrypted, reply, cookie);
      FindUser(w.users, qq).None? && reply.Some? ==>
        FindUser(r.users, qq).Some? && r.tips[qq] == DefaultTipTime &&
        r.queue[|w.queue|..] == [InternalSyncCourse(qq, cookie), SyncSchoolTimetable(qq, None, false, false)]
  {
    var r := LoginSpec(w, qq, username, encrypted, reply, cookie);
    if FindUser(w.users, qq).None? && reply.Some? {
      var us := r.users;
      forall a, b | 0 <= a < b < |us| ensures us[a].qq != us[b].qq {
        if b == |w.users| {
          assert us[a] == w.users[a];
        } else {
          assert us[a] == w.users[a] && us[b] == w.users[b];
        }
      }
      assert us[|w.users|].qq == qq;
    }
  }

  /** `SyncCourseRequest`: a known user logs in again and hands the fresh
      cookie to a course fetch; a failed login is only reported. */
  function SyncCourseSpec(w: World, qq: int, cookie: Option<Cookie>): (r: World)
    ensures r.queue == w.queue || (FindUser(w.users, qq).Some? && cookie.Some? && r.queue == w.queue + [InternalSyncCourse(qq, cookie.value)])
    ensures r.(queue := w.queue) == w
  {
    if FindUser(w.users, qq).Some? && cookie.Some? then w.(queue := w.queue + [InternalSyncCourse(qq, cookie.value)]) else w
  }

  /** `ChangeUserPasswordRequest`: the first row of the account takes the new
      (encrypted) password; nothing else changes. */
  function ChangePasswordSpec(w: World, qq: int, encrypted: string): (r: World)
    ensures FindUser(w.users, qq).None? ==> r == w
    ensures FindUser(w.users, qq).Some? ==> |r.users| == |w.users| && FindUser(r.users, qq) == Some(FindUser(w.users, qq).value.(password := encrypted))
    ensures r.(users := w.users) == w
  {
    w.(users := SetPassword(w.users, qq, encrypted))
  }

  /** The first row holding `qq` takes the new password; every other row is
      kept, in place. */
  function SetPassword(users: seq<User>, qq: int, encrypted: string): (r: seq<User>)
    ensures |r| == |users|
    ensures FindUser(users, qq).None? ==> r == users
    ensures FindUser(users, qq).Some? ==> FindUser(r, qq) == Some(FindUser(users, qq).value.(password := encrypted))
  {
    if |users| == 0 then []
    else if users[0].qq == qq then [users[0].(password := encrypted)] + users[1..]
    else [users[0]] + SetPassword(users[1..], qq, encrypted)
  }

  /** The row changed is the account's first, and it alone: for the first
      index `k` holding `qq`, the result is the table with row `k` given the
      new password. */
  lemma {:induction false} SetPasswordFirstRow(users: seq<User>, qq: int, encrypted: string, k: nat)
    requires k < |users| && users[k].qq == qq
    requires forall j :: 0 <= j < k ==> users[j].qq != qq
    ensures SetPassword(users, qq, encrypted) == users[k := users[k].(password := encrypted)]
    decreases k
  {
    var row := users[k].(password := encrypted);
    var tail := users[1..];
    assert users == [users[0]] + tail;
    if k == 0 {
      assert SetPassword(users, qq, encrypted) == [row] + tail;
    } else {
      assert SetPassword(users, qq, encrypted) == [users[0]] + SetPassword(tail, qq, encrypted) by {
        assert users[0].qq != qq;
      }
      SetPasswordFirstRow(tail, qq, encrypted, k - 1);
      assert tail[k - 1] == users[k];
    }
    ConsUpdate(users[0], tail, k, row);
  }

  /** Updating the list `[x] + t` at `k` is updating `t` at `k - 1`, or
      replacing `x` when `k` is 0. */
  lemma ConsUpdate<T>(x: T, t: seq<T>, k: nat, v: T)
    requires k <= |t|
    ensures ([x] + t)[k := v] == if k == 0 then [v] + t else [x] + t[k - 1 := v]
  {
  }
}
