/** The newer revision's request classes (`SyncSchoolTimetable`,
    `InheritTimetableFromLastSemester`, `SyncSchoolWeekPeriod`, `DeleteCourse`,
    `InternalSyncCourseRequestViaCookieData`), each a method over the bot's
    objects that changes them step by step as the handler does, and ends in
    the state its transition in `Requests` describes. Messages to users are
    not modelled. */
module Handlers {
  import opened Wrappers
  import opened Dates
  import opened Store
  import opened BellSchedule
  import opened Scheduler
  import opened Requests
  import opened RequestQueue
  import Calendar

  /** The state the handlers see, read off the objects; `weeks` is the time
      provider's week map (the two revisions keep it in different classes). */
  function WorldOf(db: Database, weeks: map<int, int>, pd: PluginData, sl: ScheduleListener, q: Channel<Request>): World
    reads db, pd, sl, q
  {
    World(db.users, db.timetables, db.courseTables, weeks, pd.advancedTipOffset, sl.Snapshot(), q.Contents())
  }

  /** `forEach { sendRequest(SyncCourse(it.qq)) }`. */
  method EnqueueSyncCourses(q: Channel<Request>, qqs: seq<int>)
    requires q.Valid()
    modifies q
    ensures q.Valid() && q.Contents() == old(q.Contents()) + SyncCourses(qqs)
  {
    for k := 0 to |qqs|
      invariant q.Valid() && q.Contents() == old(q.Contents()) + SyncCourses(qqs[..k])
    {
      SyncCoursesStep(qqs, k);
      q.Send(SyncCourse(qqs[k]));
    }
    assert qqs[..|qqs|] == qqs;
  }

  lemma SyncCoursesStep(qqs: seq<int>, k: int)
    requires 0 <= k < |qqs|
    ensures SyncCourses(qqs[..k + 1]) == SyncCourses(qqs[..k]) + [SyncCourse(qqs[k])]
  {
    var a, b := SyncCourses(qqs[..k + 1]), SyncCourses(qqs[..k]) + [SyncCourse(qqs[k])];
    assert |a| == |b|;
    forall j | 0 <= j < |a| ensures a[j] == b[j] {
      assert qqs[..k + 1][j] == qqs[j];
    }
  }

  /** `lessonList.forEach { courseTable.insert { ... } }`. */
  method InsertLessons(db: Database, qq: int, lessons: seq<Lesson>, term: Term)
    requires qq in db.courseTables
    modifies db
    ensures db.courseTables == old(db.courseTables)[qq := old(db.courseTables[qq]) + LessonRows(lessons, term)]
    ensures db.users == old(db.users) && db.timetables == old(db.timetables)
  {
    ghost var tables, table := db.courseTables, db.courseTables[qq];
    assert table + LessonRows(lessons[..0], term) == table;
    for k := 0 to |lessons|
      invariant db.courseTables == tables[qq := table + LessonRows(lessons[..k], term)]
      invariant db.users == old(db.users) && db.timetables == old(db.timetables)
    {
      LessonRowsStep(lessons, k, term);
      assert table + LessonRows(lessons[..k + 1], term) == db.courseTables[qq] + [LessonRow(lessons[k], term)];
      db.courseTables := db.courseTables[qq := db.courseTables[qq] + [LessonRow(lessons[k], term)]];
    }
    assert lessons[..|lessons|] == lessons;
  }

  lemma LessonRowsStep(lessons: seq<Lesson>, k: int, term: Term)
    requires 0 <= k < |lessons|
    ensures LessonRows(lessons[..k + 1], term) == LessonRows(lessons[..k], term) + [LessonRow(lessons[k], term)]
  {
    var a, b := LessonRows(lessons[..k + 1], term), LessonRows(lessons[..k], term) + [LessonRow(lessons[k], term)];
    assert |a| == |b|;
    forall j | 0 <= j < |a| ensures a[j] == b[j] {
      assert lessons[..k + 1][j] == lessons[j];
    }
  }

  /** What the listener sees now. */
  function EnvNow(db: Database, weeks: map<int, int>, pd: PluginData, term: Term, clock: Clock): Env
    reads db, pd
  {
    Env(term, weeks, pd.advancedTipOffset, db.users, db.timetables, db.courseTables, clock.now, clock.second, DayOfWeek(EpochDay(clock.today)))
  }

  /** `syncFromServer`; `login` is the reply of the new login, `None` when
      it fails. */
  method SyncFromServer(db: Database, tp: Calendar.TimeProvider, pd: PluginData, sl: ScheduleListener, q: Channel<Request>,
                        clock: Clock, u: User, createNew: bool, login: Option<LoginReply>) returns (ok: bool)
    modifies db, tp
    ensures tp.currentSemester == old(tp.currentSemester)
    ensures (WorldOf(db, tp.currentWeekPeriod, pd, sl, q), ok) ==
      SyncFromServerSpec(Newer, old(WorldOf(db, tp.currentWeekPeriod, pd, sl, q)), old(tp.CurrentTerm(clock.today)), clock, u, createNew, login)
  {
    if login.None? {
      return true;
    }
    var term := tp.CurrentTerm(clock.today);
    var k := FindServerTerm(login.value.terms, term);
    if k.None? {
      return false;
    }
    var scheduledTimetable := ScheduleFromServer(login.value.terms[k.value].periods);
    if scheduledTimetable.None? {
      return false;
    }
    ok := StoreServerSchedule(db, tp, pd, sl, q, clock, term, u, createNew, login.value, scheduledTimetable.value);
  }

  /** The write of `syncFromServer`, then the immediate week update. */
  method StoreServerSchedule(db: Database, tp: Calendar.TimeProvider, pd: PluginData, sl: ScheduleListener, q: Channel<Request>,
                             clock: Clock, term: Term, u: User, createNew: bool, reply: LoginReply, sched: string) returns (ok: bool)
    requires term == tp.CurrentTerm(clock.today)
    modifies db, tp
    ensures tp.currentSemester == old(tp.currentSemester)
    ensures (WorldOf(db, tp.currentWeekPeriod, pd, sl, q), ok) ==
      WriteServerSchedule(Newer, old(WorldOf(db, tp.currentWeekPeriod, pd, sl, q)), term, clock, u, createNew, reply, sched)
  {
    ghost var w0 := WorldOf(db, tp.currentWeekPeriod, pd, sl, q);
    if createNew {
      db.timetables := db.timetables + [Timetable(reply.schoolId, reply.schoolName, term.beginYear, term.semester,
                                                  sched, clock.today, 1)];
    } else {
      var row := FindTimetable(db.timetables, u.schoolId, term);
      if row.None? {
        return false;
      }
      db.timetables := db.timetables[row.value := db.timetables[row.value].(scheduledTimeList := sched)];
    }
    ghost var rows := db.timetables;
    tp.ImmediateUpdateSchoolWeekPeriod(db.timetables, clock.today);
    assert tp.CurrentTerm(clock.today) == term;
    assert tp.currentWeekPeriod == Recompute(Newer, w0.weeks, rows, term, clock.today);
    assert WorldOf(db, tp.currentWeekPeriod, pd, sl, q) == w0.(timetables := rows, weeks := tp.currentWeekPeriod);
    ok := true;
  }

  /** `onChangeSchoolTimetable` on the school, then, with `alsoSyncCourses`,
      a course sync for each of its users. */
  method TimetableChanged(db: Database, tp: Calendar.TimeProvider, pd: PluginData, sl: ScheduleListener, q: Channel<Request>,
                          clock: Clock, term: Term, schoolId: int, alsoSyncCourses: bool, jitters: seq<int>)
    requires q.Valid()
    requires |jitters| >= |db.users|
    modifies sl, q
    ensures q.Valid()
    ensures WorldOf(db, tp.currentWeekPeriod, pd, sl, q) ==
      AfterForcedSync(Newer, old(WorldOf(db, tp.currentWeekPeriod, pd, sl, q)), term, clock, schoolId, alsoSyncCourses, jitters)
  {
    ghost var w0 := WorldOf(db, tp.currentWeekPeriod, pd, sl, q);
    var schoolUsers := UsersOfSchool(db.users, schoolId);
    var env := EnvNow(db, tp.currentWeekPeriod, pd, term, clock);
    assert env == EnvOf(w0, term, clock);
    var hookOk := sl.OnChangeSchoolTimetable(schoolId, env, jitters[..|schoolUsers|]);
    assert WorldOf(db, tp.currentWeekPeriod, pd, sl, q) == TimetableHook(w0, term, clock, schoolId, jitters);
    if alsoSyncCourses {
      EnqueueSyncCourses(q, QQs(schoolUsers));
    }
  }

  /** The forced branch of the timetable sync. */
  method ForcedTimetableSync(db: Database, tp: Calendar.TimeProvider, pd: PluginData, sl: ScheduleListener, q: Channel<Request>,
                             clock: Clock, u: User, newTimetable: Option<seq<TextPair>>, alsoSyncCourses: bool,
                             login: Option<LoginReply>, jitters: seq<int>) returns (ok: bool)
    requires q.Valid()
    requires |jitters| >= |db.users|
    modifies db, tp, sl, q
    ensures q.Valid() && tp.currentSemester == old(tp.currentSemester)
    ensures (WorldOf(db, tp.currentWeekPeriod, pd, sl, q), ok) ==
      ForcedSyncSpec(Newer, old(WorldOf(db, tp.currentWeekPeriod, pd, sl, q)), old(tp.CurrentTerm(clock.today)), clock, u,
                     newTimetable, alsoSyncCourses, login, jitters)
  {
    var term := tp.CurrentTerm(clock.today);
    var schoolTimeTable := FindTimetable(db.timetables, u.schoolId, term);
    if newTimetable.None? {
      ok := SyncFromServer(db, tp, pd, sl, q, clock, u, schoolTimeTable.None?, login);
      assert tp.CurrentTerm(clock.today) == term;
      if !ok {
        return;
      }
    } else {
      if schoolTimeTable.None? {
        return false;
      }
      var i := schoolTimeTable.value;
      db.timetables := db.timetables[i := db.timetables[i].(scheduledTimeList := ManualScheduleString(newTimetable.value))];
      ok := true;
    }
    TimetableChanged(db, tp, pd, sl, q, clock, term, u.schoolId, alsoSyncCourses, jitters);
  }

  /** The first sync of a school, then a week-1 request. */
  method FirstTimetableSync(db: Database, tp: Calendar.TimeProvider, pd: PluginData, sl: ScheduleListener, q: Channel<Request>,
                            clock: Clock, qq: int, u: User, login: Option<LoginReply>) returns (ok: bool)
    requires q.Valid()
    modifies db, tp, q
    ensures q.Valid() && tp.currentSemester == old(tp.currentSemester)
    ensures (WorldOf(db, tp.currentWeekPeriod, pd, sl, q), ok) ==
      FirstSyncSpec(Newer, old(WorldOf(db, tp.currentWeekPeriod, pd, sl, q)), old(tp.CurrentTerm(clock.today)), clock, qq, u, login)
  {
    ok := SyncFromServer(db, tp, pd, sl, q, clock, u, true, login);
    if !ok {
      return;
    }
    q.Send(SyncSchoolWeekPeriod(qq, 1));
  }

  /** `SyncSchoolTimetable.handle`; `false` where it throws. */
  method SyncSchoolTimetableHandle(db: Database, tp: Calendar.TimeProvider, pd: PluginData, sl: ScheduleListener, q: Channel<Request>,
                                   clock: Clock, qq: int, newTimetable: Option<seq<TextPair>>, forceUpdate: bool, alsoSyncCourses: bool,
                                   login: Option<LoginReply>, jitters: seq<int>) returns (ok: bool)
    requires q.Valid()
    requires |jitters| >= |db.users|
    modifies db, tp, sl, q
    ensures q.Valid() && tp.currentSemester == old(tp.currentSemester)
    ensures (WorldOf(db, tp.currentWeekPeriod, pd, sl, q), ok) ==
      SyncTimetableSpec(Newer, old(WorldOf(db, tp.currentWeekPeriod, pd, sl, q)), old(tp.CurrentTerm(clock.today)), clock, qq,
                        newTimetable, forceUpdate, alsoSyncCourses, login, jitters)
  {
    var term := tp.CurrentTerm(clock.today);
    var user := FindUser(db.users, qq);
    if user.None? {
      return true;
    }
    var u := user.value;
    if forceUpdate {
      ok := ForcedTimetableSync(db, tp, pd, sl, q, clock, u, newTimetable, alsoSyncCourses, login, jitters);
    } else if FindTimetable(db.timetables, u.schoolId, term).None? {
      ok := FirstTimetableSync(db, tp, pd, sl, q, clock, qq, u, login);
    } else {
      ok := true;
    }
  }

  /** `InheritTimetableFromLastSemester.handle`. */
  method InheritHandle(db: Database, tp: Calendar.TimeProvider, pd: PluginData, sl: ScheduleListener, q: Channel<Request>,
                       clock: Clock, qq: int, jitters: seq<int>)
    requires q.Valid()
    requires |jitters| >= |db.users|
    modifies db, tp, sl, q
    ensures q.Valid() && tp.currentSemester == old(tp.currentSemester)
    ensures WorldOf(db, tp.currentWeekPeriod, pd, sl, q) ==
      InheritSpec(Newer, old(WorldOf(db, tp.currentWeekPeriod, pd, sl, q)), old(tp.CurrentTerm(clock.today)), clock, qq, jitters)
  {
    var term := tp.CurrentTerm(clock.today);
    var user := FindUser(db.users, qq);
    if user.None? {
      return;
    }
    var u := user.value;
    var lastSemester := if term.semester == 2 then 1 else 2;
    var lastSemesterBeginYear := if term.semester == 2 then term.beginYear else term.beginYear - 1;
    assert Term(lastSemesterBeginYear, lastSemester) == PreviousTerm(term);
    var last := FindTimetable(db.timetables, u.schoolId, Term(lastSemesterBeginYear, lastSemester));
    if last.None? {
      return;
    }
    var p := db.timetables[last.value];
    db.timetables := db.timetables + [Timetable(p.schoolId, p.schoolName, term.beginYear, term.semester, p.scheduledTimeList, clock.today, 1)];
    tp.ImmediateUpdateSchoolWeekPeriod(db.timetables, clock.today);
    TimetableChanged(db, tp, pd, sl, q, clock, term, u.schoolId, true, jitters);
  }

  /** `SyncSchoolWeekPeriod.handle`. */
  method SyncSchoolWeekPeriodHandle(db: Database, tp: Calendar.TimeProvider, pd: PluginData, sl: ScheduleListener, q: Channel<Request>,
                                    clock: Clock, qq: int, currentWeek: int, jitters: seq<int>)
    requires |jitters| >= |db.users|
    modifies db, tp, sl
    ensures tp.currentSemester == old(tp.currentSemester)
    ensures WorldOf(db, tp.currentWeekPeriod, pd, sl, q) ==
      SyncWeekSpec(Newer, old(WorldOf(db, tp.currentWeekPeriod, pd, sl, q)), old(tp.CurrentTerm(clock.today)), clock, qq, currentWeek, jitters)
  {
    var term := tp.CurrentTerm(clock.today);
    var user := FindUser(db.users, qq);
    if user.None? {
      return;
    }
    var u := user.value;
    var schoolTimetable := FindTimetable(db.timetables, u.schoolId, term);
    if schoolTimetable.None? {
      return;
    }
    var i := schoolTimetable.value;
    db.timetables := db.timetables[i := db.timetables[i].(timeStampWhenAdd := clock.today, weekPeriodWhenAdd := currentWeek)];
    tp.ImmediateUpdateSchoolWeekPeriod(db.timetables, clock.today);
    var schoolUsers := UsersOfSchool(db.users, db.timetables[i].schoolId);
    var hookOk := sl.OnChangeSchoolWeekPeriod(db.timetables[i].schoolId, EnvNow(db, tp.currentWeekPeriod, pd, term, clock), jitters[..|schoolUsers|]);
  }

  /** `DeleteCourse.handle`. */
  method DeleteCourseHandle(db: Database, tp: Calendar.TimeProvider, pd: PluginData, sl: ScheduleListener, q: Channel<Request>, qq: int)
    modifies db, tp, pd, sl
    ensures tp.currentSemester == old(tp.currentSemester)
    ensures WorldOf(db, tp.currentWeekPeriod, pd, sl, q) == DeleteSpec(old(WorldOf(db, tp.currentWeekPeriod, pd, sl, q)), qq)
  {
    var user := FindUser(db.users, qq);
    if user.None? {
      return;
    }
    var u := user.value;
    if |UsersOfSchool(db.users, u.schoolId)| == 1 {
      db.timetables := RemoveSchool(db.timetables, u.schoolId);
      tp.currentWeekPeriod := tp.currentWeekPeriod - {u.schoolId};
      sl.RemoveSchoolTimetable(u.schoolId);
    }
    pd.advancedTipOffset := pd.advancedTipOffset - {qq};
    sl.StopAndRemoveUserNotificationJob(qq);
    db.courseTables := db.courseTables - {qq};
    db.users := RemoveUser(db.users, qq);
  }

  /** `InternalSyncCourseRequestViaCookieData.handle`; `fetched` is the
      lesson list of the course reply, `None` when the fetch fails. */
  method InternalSyncHandle(db: Database, tp: Calendar.TimeProvider, pd: PluginData, sl: ScheduleListener, q: Channel<Request>,
                            clock: Clock, qq: int, fetched: Option<seq<Lesson>>, jitter: int) returns (ok: bool)
    modifies db, sl
    ensures (WorldOf(db, tp.currentWeekPeriod, pd, sl, q), ok) ==
      InternalSyncSpec(Newer, old(WorldOf(db, tp.currentWeekPeriod, pd, sl, q)), tp.CurrentTerm(clock.today), clock, qq, fetched, jitter)
  {
    ghost var w0 := WorldOf(db, tp.currentWeekPeriod, pd, sl, q);
    var saved := db.courseTables;
    var term := tp.CurrentTerm(clock.today);
    var courseTable := if qq in db.courseTables then db.courseTables[qq] else [];
    var kept := RemoveTermCourses(courseTable, term);
    db.courseTables := db.courseTables[qq := kept];
    ghost var w1 := w0.(courseTables := w0.courseTables[qq := kept]);
    assert WorldOf(db, tp.currentWeekPeriod, pd, sl, q) == w1;
    var user := FindUser(db.users, qq);
    if user.None? || fetched.None? || |fetched.value| == 0 {
      assert InternalSyncSpec(Newer, w0, term, clock, qq, fetched, jitter) == (w1, true);
      return true;
    }
    var lessons := fetched.value;
    InsertLessons(db, qq, lessons, term);
    ghost var w2 := w0.(courseTables := w0.courseTables[qq := kept + LessonRows(lessons, term)]);
    assert WorldOf(db, tp.currentWeekPeriod, pd, sl, q) == w2;
    ghost var s := RestartUserSpec(w2.listener, qq, EnvOf(w2, term, clock), jitter);
    assert InternalSyncSpec(Newer, w0, term, clock, qq, fetched, jitter) ==
      if s.1 then (w2.(listener := s.0), true) else (w0.(listener := s.0), false);
    ok := RestartUser(db, tp, pd, sl, q, clock, term, qq, jitter);
    if !ok {
      // the exception rolls back the transaction: the delete and the inserts
      db.courseTables := saved;
    }
  }

  /** `restartUserNotification` on what the database holds now. */
  method RestartUser(db: Database, tp: Calendar.TimeProvider, pd: PluginData, sl: ScheduleListener, q: Channel<Request>,
                     clock: Clock, term: Term, qq: int, jitter: int) returns (ok: bool)
    modifies sl
    ensures var w := old(WorldOf(db, tp.currentWeekPeriod, pd, sl, q));
      var s := RestartUserSpec(w.listener, qq, EnvOf(w, term, clock), jitter);
      WorldOf(db, tp.currentWeekPeriod, pd, sl, q) == w.(listener := s.0) && ok == s.1
  {
    ghost var w := WorldOf(db, tp.currentWeekPeriod, pd, sl, q);
    var env := EnvNow(db, tp.currentWeekPeriod, pd, term, clock);
    assert env == EnvOf(w, term, clock);
    ok := sl.RestartUserNotification(qq, env, jitter);
  }
}
