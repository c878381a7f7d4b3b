/** The older revision's `RequestHandlerService`: one worker takes the
    requests from the channel in order and handles each by its kind, in one
    branch of a `when`. The replies of the remote course service and the
    cipher of the passwords are inputs of a step. Messages to users are not
    modelled. */
module LegacyHandler {
  import opened Wrappers
  import opened Dates
  import opened Store
  import opened BellSchedule
  import opened Scheduler
  import opened Requests
  import opened RequestQueue
  import opened Handlers
  import Calendar
  import CalendarLegacy

  /** What the outside world answers while one request is handled. */
  datatype Replies = Replies(
    /** The password login of a `LoginRequest`: the student, or `None`. */
    student: Option<Student>,
    /** The session cookie that login yields. */
    cookie: Cookie,
    /** The login of a `SyncCourseRequest` with the stored password. */
    relogin: Option<Cookie>,
    /** `getCourses` for an internal sync: the lesson list, or `None`. */
    lessons: Option<seq<Lesson>>,
    /** The login of `syncFromServer`. */
    login: Option<LoginReply>,
    /** The encrypted form of the request's password. */
    encrypted: string)

  /** The `when` of the worker: the transition of each kind of request in the
      older revision. The flag is `false` where the branch throws. */
  function Handle(w: World, term: Term, clock: Clock, req: Request, rep: Replies, jitters: seq<int>): (r: (World, bool))
    requires |jitters| >= |w.users|
  {
    match req
    case LoginRequest(qq, username, _) => (LoginSpec(w, qq, username, rep.encrypted, rep.student, rep.cookie), true)
    case SyncCourse(qq) => (SyncCourseSpec(w, qq, rep.relogin), true)
    case InternalSyncCourse(qq, _) => InternalSyncSpec(Older, w, term, clock, qq, rep.lessons, 0)
    case DeleteCourse(qq) => (DeleteSpec(w, qq), true)
    case SyncSchoolTimetable(qq, newTimetable, forceUpdate, _) =>
      SyncTimetableSpec(Older, w, term, clock, qq, newTimetable, forceUpdate, false, rep.login, jitters)
    case SyncSchoolWeekPeriod(qq, currentWeek) => (SyncWeekSpec(Older, w, term, clock, qq, currentWeek, jitters), true)
    case InheritTimetable(qq) => (InheritSpec(Older, w, term, clock, qq, jitters), true)
    case ChangeUserPassword(qq, _) => (ChangePasswordSpec(w, qq, rep.encrypted), true)
  }

  /** One turn of `for (request in handlerChannel)`: the oldest request is
      taken off the channel and handled; with none pending nothing happens. */
  function Step(w: World, term: Term, clock: Clock, rep: Replies, jitters: seq<int>): (r: (World, Option<Request>, bool))
    requires |jitters| >= |w.users|
  {
    if |w.queue| == 0 then (w, None, true)
    else
      var h := Handle(w.(queue := w.queue[1..]), term, clock, w.queue[0], rep, jitters);
      (h.0, Some(w.queue[0]), h.1)
  }

  /** No branch drops or reorders pending requests: what it sends goes
      behind them. */
  lemma HandleOnlyAppends(w: World, term: Term, clock: Clock, req: Request, rep: Replies, jitters: seq<int>)
    requires |jitters| >= |w.users|
    ensures w.queue <= Handle(w, term, clock, req, rep, jitters).0.queue
  {
  }

  /** The worker serves the channel first in, first out: the request handled
      is the oldest one, and the requests still pending stay ahead of every
      request the handling sends. */
  lemma StepIsFifo(w: World, term: Term, clock: Clock, rep: Replies, jitters: seq<int>)
    requires |jitters| >= |w.users|
    ensures var r := Step(w, term, clock, rep, jitters);
      (|w.queue| == 0 ==> r == (w, None, true)) &&
      (|w.queue| > 0 ==> r.1 == Some(w.queue[0]) && w.queue[1..] <= r.0.queue)
  {
    if |w.queue| > 0 {
      HandleOnlyAppends(w.(queue := w.queue[1..]), term, clock, w.queue[0], rep, jitters);
    }
  }

  /** A turn adds at most one user (a login); every other branch keeps the
      users or removes one. */
  lemma StepAddsAtMostOneUser(w: World, term: Term, clock: Clock, rep: Replies, jitters: seq<int>)
    requires |jitters| >= |w.users|
    ensures |Step(w, term, clock, rep, jitters).0.users| <= |w.users| + 1
  {
    if |w.queue| > 0 {
      var w0 := w.(queue := w.queue[1..]);
      match w.queue[0]
      case DeleteCourse(qq) =>
        if FindUser(w0.users, qq).Some? {
          RemoveUserShrinks(w0.users, qq);
        }
      case _ =>
    }
  }

  /** Turn `i` has a random second for each user it may restart: the users
      at the start plus one per earlier turn. */
  predicate JittersFit(w: World, jitterss: seq<seq<int>>)
  {
    forall i :: 0 <= i < |jitterss| ==> |jitterss[i]| >= |w.users| + i
  }

  lemma JittersFitNext(w: World, w': World, jitterss: seq<seq<int>>)
    requires |jitterss| > 0 && JittersFit(w, jitterss)
    requires |w'.users| <= |w.users| + 1
    ensures JittersFit(w', jitterss[1..])
  {
    forall i | 0 <= i < |jitterss| - 1
      ensures |jitterss[1..][i]| >= |w'.users| + i
    {
      assert jitterss[1..][i] == jitterss[i + 1];
    }
  }

  /** The worker's `main` over `|reps|` turns, as written: no branch's
      exception is caught, so the first turn that throws ends `main`, which
      is never launched again, and the requests behind it are never taken.
      `reps[i]` and `jitterss[i]` are the replies and random seconds of turn
      `i`. The result is the world, the requests taken in order, and whether
      the worker still runs. */
  function Run(w: World, term: Term, clock: Clock, reps: seq<Replies>, jitterss: seq<seq<int>>): (World, seq<Request>, bool)
    requires |jitterss| == |reps| && JittersFit(w, jitterss)
    decreases |reps|
  {
    if |reps| == 0 then (w, [], true)
    else
      var s := Step(w, term, clock, reps[0], jitterss[0]);
      var taken := if s.1.Some? then [s.1.value] else [];
      if !s.2 then (s.0, taken, false)
      else
        StepAddsAtMostOneUser(w, term, clock, reps[0], jitterss[0]);
        JittersFitNext(w, s.0, jitterss);
        var rest := Run(s.0, term, clock, reps[1..], jitterss[1..]);
        (rest.0, taken + rest.1, rest.2)
  }

  /** The loop the design intends: a request whose branch throws is dropped
      and the worker goes on with the next one. */
  function RunDropping(w: World, term: Term, clock: Clock, reps: seq<Replies>, jitterss: seq<seq<int>>): (World, seq<Request>)
    requires |jitterss| == |reps| && JittersFit(w, jitterss)
    decreases |reps|
  {
    if |reps| == 0 then (w, [])
    else
      var s := Step(w, term, clock, reps[0], jitterss[0]);
      var taken := if s.1.Some? then [s.1.value] else [];
      StepAddsAtMostOneUser(w, term, clock, reps[0], jitterss[0]);
      JittersFitNext(w, s.0, jitterss);
      var rest := RunDropping(s.0, term, clock, reps[1..], jitterss[1..]);
      (rest.0, taken + rest.1)
  }

  lemma DropFirst<T>(s: seq<T>, i: nat)
    requires i < |s|
    ensures s[i..][0] == s[i] && s[i..][1..] == s[i + 1..]
  {
  }

  lemma TakeThenDrop<T>(s: seq<T>, k: nat)
    requires 0 < k <= |s|
    ensures s[..k][0] == s[0] && s[..k][1..] == s[1..][..k - 1]
  {
  }

  lemma JittersFitPrefix(w: World, jitterss: seq<seq<int>>, k: nat)
    requires JittersFit(w, jitterss) && k <= |jitterss|
    ensures JittersFit(w, jitterss[..k])
  {
    assert forall i :: 0 <= i < k ==> jitterss[..k][i] == jitterss[i];
  }

  /** The head of a queue followed by a prefix of its tail's successor is a
      prefix of the queue. */
  lemma HeadThenPrefix(q: seq<Request>, q': seq<Request>, taken: seq<Request>)
    requires |q| > 0 && q[1..] <= q'
    requires |taken| < |q| && taken == q'[..|taken|]
    ensures [q[0]] + taken == q[..1 + |taken|]
  {
    assert q'[..|taken|] == q[1..][..|taken|];
  }

  /** What is still pending behind a prefix of the tail is still pending
      behind the head and that prefix. */
  lemma PendingBehind(q: seq<Request>, q': seq<Request>, n: nat, q'': seq<Request>)
    requires |q| > 0 && q[1..] <= q'
    requires n < |q| && q'[n..] <= q''
    ensures q[1 + n..] <= q''
  {
    assert q[1 + n..] == q[1..][n..];
    assert q[1..][n..] <= q'[n..];
  }

  /** As written, the worker takes the oldest requests in order; while it
      runs it takes one per turn, and once a turn throws every request
      behind the failed one is still pending. */
  lemma {:induction false} RunStallsOnFault(w: World, term: Term, clock: Clock, reps: seq<Replies>, jitterss: seq<seq<int>>)
    requires |jitterss| == |reps| && JittersFit(w, jitterss)
    requires |reps| <= |w.queue|
    ensures var r := Run(w, term, clock, reps, jitterss);
      |r.1| <= |reps| && r.1 == w.queue[..|r.1|] &&
      (r.2 ==> |r.1| == |reps|) &&
      (!r.2 ==> |r.1| > 0 && w.queue[|r.1|..] <= r.0.queue)
    decreases |reps|
  {
    if |reps| > 0 {
      var s := Step(w, term, clock, reps[0], jitterss[0]);
      StepIsFifo(w, term, clock, reps[0], jitterss[0]);
      if s.2 {
        StepAddsAtMostOneUser(w, term, clock, reps[0], jitterss[0]);
        JittersFitNext(w, s.0, jitterss);
        RunStallsOnFault(s.0, term, clock, reps[1..], jitterss[1..]);
        var rest := Run(s.0, term, clock, reps[1..], jitterss[1..]);
        HeadThenPrefix(w.queue, s.0.queue, rest.1);
        if !rest.2 {
          PendingBehind(w.queue, s.0.queue, |rest.1|, rest.0.queue);
        }
      }
    }
  }

  /** Once the worker has stopped, further turns take nothing and change
      nothing: the run over any longer stretch of turns is the run up to
      the stop. */
  lemma {:induction false} RunStopsForGood(w: World, term: Term, clock: Clock, reps: seq<Replies>, jitterss: seq<seq<int>>, k: nat)
    requires |jitterss| == |reps| && JittersFit(w, jitterss)
    requires k <= |reps|
    ensures JittersFit(w, jitterss[..k])
    ensures !Run(w, term, clock, reps[..k], jitterss[..k]).2 ==>
      Run(w, term, clock, reps, jitterss) == Run(w, term, clock, reps[..k], jitterss[..k])
    decreases k
  {
    JittersFitPrefix(w, jitterss, k);
    if k > 0 {
      var s := Step(w, term, clock, reps[0], jitterss[0]);
      TakeThenDrop(reps, k);
      TakeThenDrop(jitterss, k);
      if s.2 {
        StepAddsAtMostOneUser(w, term, clock, reps[0], jitterss[0]);
        JittersFitNext(w, s.0, jitterss);
        RunStopsForGood(s.0, term, clock, reps[1..], jitterss[1..], k - 1);
      }
    }
  }

  /** With every throwing request dropped, the worker takes one of the
      original requests per turn, in channel order, whatever the branches
      do. */
  lemma {:induction false} RunDroppingServesAll(w: World, term: Term, clock: Clock, reps: seq<Replies>, jitterss: seq<seq<int>>)
    requires |jitterss| == |reps| && JittersFit(w, jitterss)
    requires |reps| <= |w.queue|
    ensures RunDropping(w, term, clock, reps, jitterss).1 == w.queue[..|reps|]
    decreases |reps|
  {
    if |reps| > 0 {
      var s := Step(w, term, clock, reps[0], jitterss[0]);
      StepIsFifo(w, term, clock, reps[0], jitterss[0]);
      StepAddsAtMostOneUser(w, term, clock, reps[0], jitterss[0]);
      JittersFitNext(w, s.0, jitterss);
      RunDroppingServesAll(s.0, term, clock, reps[1..], jitterss[1..]);
      HeadThenPrefix(w.queue, s.0.queue, RunDropping(s.0, term, clock, reps[1..], jitterss[1..]).1);
    }
  }

  /** While no branch throws, the two loops are the same. */
  lemma {:induction false} RunDroppingAgrees(w: World, term: Term, clock: Clock, reps: seq<Replies>, jitterss: seq<seq<int>>)
    requires |jitterss| == |reps| && JittersFit(w, jitterss)
    ensures var r := Run(w, term, clock, reps, jitterss);
      r.2 ==> RunDropping(w, term, clock, reps, jitterss) == (r.0, r.1)
    decreases |reps|
  {
    if |reps| > 0 {
      var s := Step(w, term, clock, reps[0], jitterss[0]);
      StepAddsAtMostOneUser(w, term, clock, reps[0], jitterss[0]);
      JittersFitNext(w, s.0, jitterss);
      RunDroppingAgrees(s.0, term, clock, reps[1..], jitterss[1..]);
    }
  }

  /** A user whose school has no row for the term asks for a manual
      correction of the bell schedule and then to be deleted. */
  function StallUser(): User { User(1, 10, "student", 7, "account", "secret") }
  function StallFix(): Request { SyncSchoolTimetable(1, Some([TextPair("08:00", "08:45")]), true, false) }
  function StallWorld(): World
  {
    World([StallUser()], [], map[], map[], map[], Listener(map[], map[], []), [StallFix(), DeleteCourse(1)])
  }
  function StallReplies(): Replies { Replies(None, Cookie("", ""), None, None, None, "") }

  /** The first turn of that example: the correction throws at `first()`
      and changes nothing but the queue. */
  lemma StallFirstTurn(term: Term, clock: Clock)
    ensures Step(StallWorld(), term, clock, StallReplies(), [0]) == (StallWorld().(queue := [DeleteCourse(1)]), Some(StallFix()), false)
  {
    var w1 := StallWorld().(queue := [DeleteCourse(1)]);
    assert FindUser(w1.users, 1) == Some(StallUser());
    SyncManualWithoutRow(Older, w1, term, clock, 1, [TextPair("08:00", "08:45")], false, None, [0]);
  }

  /** As written the correction stops the worker: the deletion is never
      taken and the user stays. */
  lemma WorkerStallsAsWritten(term: Term, clock: Clock)
    ensures var r := Run(StallWorld(), term, clock, [StallReplies(), StallReplies()], [[0], [0, 0]]);
      !r.2 && r.1 == [StallFix()] && r.0.queue == [DeleteCourse(1)] && r.0.users == [StallUser()]
  {
    StallFirstTurn(term, clock);
  }

  /** Dropping the failed request, the deletion is taken in the next turn
      and the user is gone. */
  lemma WorkerDropsAndGoesOn(term: Term, clock: Clock)
    ensures var d := RunDropping(StallWorld(), term, clock, [StallReplies(), StallReplies()], [[0], [0, 0]]);
      d.1 == [StallFix(), DeleteCourse(1)] && d.0.queue == [] && d.0.users == []
  {
    var rep := StallReplies();
    StallFirstTurn(term, clock);
    var w1 := StallWorld().(queue := [DeleteCourse(1)]);
    var w2 := DeleteSpec(w1.(queue := []), 1);
    assert Step(w1, term, clock, rep, [0, 0]) == (w2, Some(DeleteCourse(1)), true);
    assert RemoveUser([StallUser()], 1) == [];
    assert [rep, rep][1..] == [rep] && [[0], [0, 0]][1..] == [[0, 0]];
    assert [rep][1..] == [] && [[0, 0]][1..] == [];
    assert [DeleteCourse(1)] + [] == [DeleteCourse(1)];
    assert RunDropping(w1, term, clock, [rep], [[0, 0]]) == (w2, [DeleteCourse(1)]);
  }

  // ----- the branches, over the objects -----

  /** `LoginRequest`. */
  method HandleLogin(db: Database, tp: CalendarLegacy.LegacyTimeProvider, pd: PluginData, sl: ScheduleListener, q: Channel<Request>,
                     qq: int, username: string, encrypted: string, student: Option<Student>, cookie: Cookie)
    requires q.Valid()
    modifies db, pd, q
    ensures q.Valid()
    ensures WorldOf(db, tp.currentWeekPeriod, pd, sl, q) ==
      LoginSpec(old(WorldOf(db, tp.currentWeekPeriod, pd, sl, q)), qq, username, encrypted, student, cookie)
  {
    var user := FindUser(db.users, qq);
    if user.Some? || student.None? {
      return;
    }
    db.users := db.users + [User(qq, student.value.studentId, student.value.nickName, student.value.schoolId, username, encrypted)];
    pd.advancedTipOffset := pd.advancedTipOffset[qq := DefaultTipTime];
    q.Send(InternalSyncCourse(qq, cookie));
    q.Send(SyncSchoolTimetable(qq, None, false, false));
  }

  /** `SyncCourseRequest`: a fresh login with the stored password and, when
      it succeeds, an internal sync with its cookie. */
  method HandleSyncCourse(db: Database, tp: CalendarLegacy.LegacyTimeProvider, pd: PluginData, sl: ScheduleListener, q: Channel<Request>,
                          qq: int, relogin: Option<Cookie>)
    requires q.Valid()
    modifies q
    ensures q.Valid()
    ensures WorldOf(db, tp.currentWeekPeriod, pd, sl, q) == SyncCourseSpec(old(WorldOf(db, tp.currentWeekPeriod, pd, sl, q)), qq, relogin)
  {
    var user := FindUser(db.users, qq);
    if user.None? || relogin.None? {
      return;
    }
    q.Send(InternalSyncCourse(qq, relogin.value));
  }

  /** `InternalSyncCourseRequestViaCookieDataRequest`. */
  method HandleInternalSync(db: Database, tp: CalendarLegacy.LegacyTimeProvider, pd: PluginData, sl: ScheduleListener, q: Channel<Request>,
                            clock: Clock, qq: int, fetched: Option<seq<Lesson>>)
    modifies db
    ensures (WorldOf(db, tp.currentWeekPeriod, pd, sl, q), true) ==
      InternalSyncSpec(Older, old(WorldOf(db, tp.currentWeekPeriod, pd, sl, q)), tp.CurrentTerm(clock.today), clock, qq, fetched, 0)
  {
    ghost var w0 := WorldOf(db, tp.currentWeekPeriod, pd, sl, q);
    var term := tp.CurrentTerm(clock.today);
    var courseTable := if qq in db.courseTables then db.courseTables[qq] else [];
    var kept := RemoveTermCourses(courseTable, term);
    db.courseTables := db.courseTables[qq := kept];
    var user := FindUser(db.users, qq);
    if user.None? || fetched.None? {
      assert InternalSyncSpec(Older, w0, term, clock, qq, fetched, 0) == (w0.(courseTables := w0.courseTables[qq := kept]), true);
      return;
    }
    InsertLessons(db, qq, fetched.value, term);
    ghost var tables := w0.courseTables[qq := kept + LessonRows(fetched.value, term)];
    assert db.courseTables == tables;
    assert InternalSyncSpec(Older, w0, term, clock, qq, fetched, 0) == (w0.(courseTables := tables), true);
  }

  /** `DeleteCourseRequest`. */
  method HandleDelete(db: Database, tp: CalendarLegacy.LegacyTimeProvider, pd: PluginData, sl: ScheduleListener, q: Channel<Request>, qq: int)
    modifies db, tp, pd, sl
    ensures tp.currentYear == old(tp.currentYear) && tp.currentSemester == old(tp.currentSemester)
    ensures WorldOf(db, tp.currentWeekPeriod, pd, sl, q) == DeleteSpec(old(WorldOf(db, tp.currentWeekPeriod, pd, sl, q)), qq)
  {
    var user := FindUser(db.users, qq);
    if user.None? {
      return;
    }
    var u := user.value;
    if |UsersOfSchool(db.users, u.schoolId)| == 1 {
      db.timetables := RemoveSchool(db.timetables, u.schoolId);
      tp.currentWeekPeriod := tp.currentWeekPeriod - {u.schoolId};
      sl.RemoveSchoolTimetable(u.schoolId);
    }
    pd.advancedTipOffset := pd.advancedTipOffset - {qq};
    sl.StopAndRemoveUserNotificationJob(qq);
    db.courseTables := db.courseTables - {qq};
    db.users := RemoveUser(db.users, qq);
  }

  /** The local `syncFromServer` of the timetable branch. */
  method SyncFromServer(db: Database, tp: CalendarLegacy.LegacyTimeProvider, pd: PluginData, sl: ScheduleListener, q: Channel<Request>,
                        clock: Clock, u: User, createNew: bool, login: Option<LoginReply>) returns (ok: bool)
    modifies db, tp
    ensures tp.currentYear == old(tp.currentYear) && tp.currentSemester == old(tp.currentSemester)
    ensures (WorldOf(db, tp.currentWeekPeriod, pd, sl, q), ok) ==
      SyncFromServerSpec(Older, old(WorldOf(db, tp.currentWeekPeriod, pd, sl, q)), old(tp.CurrentTerm(clock.today)), clock, u, createNew, login)
  {
    if login.None? {
      return true;
    }
    var term := tp.CurrentTerm(clock.today);
    var k := FindServerTerm(login.value.terms, term);
    if k.None? {
      return false;
    }
    var scheduledTimetable := LegacyScheduleFromServer(login.value.terms[k.value].periods);
    assert ServerSchedule(Older, login.value.terms[k.value].periods) == scheduledTimetable;
    if scheduledTimetable.None? {
      return false;
    }
    ghost var w0 := WorldOf(db, tp.currentWeekPeriod, pd, sl, q);
    ok := StoreServerSchedule(db, tp, pd, sl, q, clock, term, u, createNew, login.value, scheduledTimetable.value);
    assert (WorldOf(db, tp.currentWeekPeriod, pd, sl, q), ok) == WriteServerSchedule(Older, w0, term, clock, u, createNew, login.value, scheduledTimetable.value);
  }

  /** The write of `syncFromServer`, then the immediate week update. */
  method StoreServerSchedule(db: Database, tp: CalendarLegacy.LegacyTimeProvider, pd: PluginData, sl: ScheduleListener, q: Channel<Request>,
                             clock: Clock, term: Term, u: User, createNew: bool, reply: LoginReply, sched: string) returns (ok: bool)
    requires term == tp.CurrentTerm(clock.today)
    modifies db, tp
    ensures tp.currentYear == old(tp.currentYear) && tp.currentSemester == old(tp.currentSemester)
    ensures (WorldOf(db, tp.currentWeekPeriod, pd, sl, q), ok) ==
      WriteServerSchedule(Older, old(WorldOf(db, tp.currentWeekPeriod, pd, sl, q)), term, clock, u, createNew, reply, sched)
  {
    ghost var w0 := WorldOf(db, tp.currentWeekPeriod, pd, sl, q);
    if createNew {
      db.timetables := db.timetables + [Timetable(reply.schoolId, reply.schoolName, term.beginYear, term.semester,
                                                  sched, clock.today, 1)];
    } else {
      var row := FindTimetable(db.timetables, u.schoolId, term);
      if row.None? {
        return false;
      }
      db.timetables := db.timetables[row.value := db.timetables[row.value].(scheduledTimeList := sched)];
    }
    ghost var rows := db.timetables;
    tp.ImmediateUpdateSchoolWeekPeriod(db.timetables, clock.today);
    assert tp.currentWeekPeriod == Recompute(Older, w0.weeks, rows, term, clock.today);
    assert WorldOf(db, tp.currentWeekPeriod, pd, sl, q) == w0.(timetables := rows, weeks := tp.currentWeekPeriod);
    ok := true;
  }

  /** `onChangeSchoolTimetable` on the school. */
  method TimetableChanged(db: Database, tp: CalendarLegacy.LegacyTimeProvider, pd: PluginData, sl: ScheduleListener, q: Channel<Request>,
                          clock: Clock, term: Term, schoolId: int, jitters: seq<int>)
    requires |jitters| >= |db.users|
    modifies sl
    ensures WorldOf(db, tp.currentWeekPeriod, pd, sl, q) ==
      TimetableHook(old(WorldOf(db, tp.currentWeekPeriod, pd, sl, q)), term, clock, schoolId, jitters)
  {
    ghost var w0 := WorldOf(db, tp.currentWeekPeriod, pd, sl, q);
    var schoolUsers := UsersOfSchool(db.users, schoolId);
    var env := EnvNow(db, tp.currentWeekPeriod, pd, term, clock);
    assert env == EnvOf(w0, term, clock);
    var hookOk := sl.OnChangeSchoolTimetable(schoolId, env, jitters[..|schoolUsers|]);
  }

  /** The forced branch of the timetable sync. */
  method ForcedTimetableSync(db: Database, tp: CalendarLegacy.LegacyTimeProvider, pd: PluginData, sl: ScheduleListener, q: Channel<Request>,
                             clock: Clock, u: User, newTimetable: Option<seq<TextPair>>,
                             login: Option<LoginReply>, jitters: seq<int>) returns (ok: bool)
    requires q.Valid()
    requires |jitters| >= |db.users|
    modifies db, tp, sl, q
    ensures q.Valid() && tp.currentYear == old(tp.currentYear) && tp.currentSemester == old(tp.currentSemester)
    ensures (WorldOf(db, tp.currentWeekPeriod, pd, sl, q), ok) ==
      ForcedSyncSpec(Older, old(WorldOf(db, tp.currentWeekPeriod, pd, sl, q)), old(tp.CurrentTerm(clock.today)), clock, u,
                     newTimetable, false, login, jitters)
  {
    var term := tp.CurrentTerm(clock.today);
    var schoolTimeTable := FindTimetable(db.timetables, u.schoolId, term);
    if newTimetable.None? {
      ok := SyncFromServer(db, tp, pd, sl, q, clock, u, schoolTimeTable.None?, login);
      assert tp.CurrentTerm(clock.today) == term;
      if !ok {
        return;
      }
    } else {
      if schoolTimeTable.None? {
        return false;
      }
      var i := schoolTimeTable.value;
      db.timetables := db.timetables[i := db.timetables[i].(scheduledTimeList := ManualScheduleString(newTimetable.value))];
      ok := true;
    }
    TimetableChanged(db, tp, pd, sl, q, clock, term, u.schoolId, jitters);
  }

  /** The first sync of a school, then a week-1 request. */
  method FirstTimetableSync(db: Database, tp: CalendarLegacy.LegacyTimeProvider, pd: PluginData, sl: ScheduleListener, q: Channel<Request>,
                            clock: Clock, qq: int, u: User, login: Option<LoginReply>) returns (ok: bool)
    requires q.Valid()
    modifies db, tp, q
    ensures q.Valid() && tp.currentYear == old(tp.currentYear) && tp.currentSemester == old(tp.currentSemester)
    ensures (WorldOf(db, tp.currentWeekPeriod, pd, sl, q), ok) ==
      FirstSyncSpec(Older, old(WorldOf(db, tp.currentWeekPeriod, pd, sl, q)), old(tp.CurrentTerm(clock.today)), clock, qq, u, login)
  {
    ok := SyncFromServer(db, tp, pd, sl, q, clock, u, true, login);
    if !ok {
      return;
    }
    q.Send(SyncSchoolWeekPeriod(qq, 1));
  }

  /** `SyncSchoolTimetableRequest`; `false` where it throws. */
  method HandleSyncTimetable(db: Database, tp: CalendarLegacy.LegacyTimeProvider, pd: PluginData, sl: ScheduleListener, q: Channel<Request>,
                             clock: Clock, qq: int, newTimetable: Option<seq<TextPair>>, forceUpdate: bool,
                             login: Option<LoginReply>, jitters: seq<int>) returns (ok: bool)
    requires q.Valid()
    requires |jitters| >= |db.users|
    modifies db, tp, sl, q
    ensures q.Valid() && tp.currentYear == old(tp.currentYear) && tp.currentSemester == old(tp.currentSemester)
    ensures (WorldOf(db, tp.currentWeekPeriod, pd, sl, q), ok) ==
      SyncTimetableSpec(Older, old(WorldOf(db, tp.currentWeekPeriod, pd, sl, q)), old(tp.CurrentTerm(clock.today)), clock, qq,
                        newTimetable, forceUpdate, false, login, jitters)
  {
    var term := tp.CurrentTerm(clock.today);
    var user := FindUser(db.users, qq);
    if user.None? {
      return true;
    }
    var u := user.value;
    if forceUpdate {
      ok := ForcedTimetableSync(db, tp, pd, sl, q, clock, u, newTimetable, login, jitters);
    } else if FindTimetable(db.timetables, u.schoolId, term).None? {
      ok := FirstTimetableSync(db, tp, pd, sl, q, clock, qq, u, login);
    } else {
      ok := true;
    }
  }

  /** `InheritTimetableFromLastSemester`. */
  method HandleInherit(db: Database, tp: CalendarLegacy.LegacyTimeProvider, pd: PluginData, sl: ScheduleListener, q: Channel<Request>,
                       clock: Clock, qq: int, jitters: seq<int>)
    requires |jitters| >= |db.users|
    modifies db, tp, sl
    ensures tp.currentYear == old(tp.currentYear) && tp.currentSemester == old(tp.currentSemester)
    ensures WorldOf(db, tp.currentWeekPeriod, pd, sl, q) ==
      InheritSpec(Older, old(WorldOf(db, tp.currentWeekPeriod, pd, sl, q)), old(tp.CurrentTerm(clock.today)), clock, qq, jitters)
  {
    var term := tp.CurrentTerm(clock.today);
    var user := FindUser(db.users, qq);
    if user.None? {
      return;
    }
    var u := user.value;
    var lastSemester := if term.semester == 2 then 1 else 2;
    var lastSemesterBeginYear := if term.semester == 2 then term.beginYear else term.beginYear - 1;
    assert Term(lastSemesterBeginYear, lastSemester) == PreviousTerm(term);
    var last := FindTimetable(db.timetables, u.schoolId, Term(lastSemesterBeginYear, lastSemester));
    if last.None? {
      return;
    }
    var p := db.timetables[last.value];
    db.timetables := db.timetables + [Timetable(p.schoolId, p.schoolName, term.beginYear, term.semester, p.scheduledTimeList, clock.today, 1)];
    tp.ImmediateUpdateSchoolWeekPeriod(db.timetables, clock.today);
    TimetableChanged(db, tp, pd, sl, q, clock, term, u.schoolId, jitters);
  }

  /** `SyncSchoolWeekPeriodRequest`. */
  method HandleSyncWeek(db: Database, tp: CalendarLegacy.LegacyTimeProvider, pd: PluginData, sl: ScheduleListener, q: Channel<Request>,
                        clock: Clock, qq: int, currentWeek: int, jitters: seq<int>)
    requires |jitters| >= |db.users|
    modifies db, tp, sl
    ensures tp.currentYear == old(tp.currentYear) && tp.currentSemester == old(tp.currentSemester)
    ensures WorldOf(db, tp.currentWeekPeriod, pd, sl, q) ==
      SyncWeekSpec(Older, old(WorldOf(db, tp.currentWeekPeriod, pd, sl, q)), old(tp.CurrentTerm(clock.today)), clock, qq, currentWeek, jitters)
  {
    var term := tp.CurrentTerm(clock.today);
    var user := FindUser(db.users, qq);
    if user.None? {
      return;
    }
    var u := user.value;
    var schoolTimetable := FindTimetable(db.timetables, u.schoolId, term);
    if schoolTimetable.None? {
      return;
    }
    var i := schoolTimetable.value;
    db.timetables := db.timetables[i := db.timetables[i].(timeStampWhenAdd := clock.today, weekPeriodWhenAdd := currentWeek)];
    tp.ImmediateUpdateSchoolWeekPeriod(db.timetables, clock.today);
    var schoolUsers := UsersOfSchool(db.users, db.timetables[i].schoolId);
    var hookOk := sl.OnChangeSchoolWeekPeriod(db.timetables[i].schoolId, EnvNow(db, tp.currentWeekPeriod, pd, term, clock), jitters[..|schoolUsers|]);
  }

  /** `ChangeUserPasswordRequest`. */
  method HandleChangePassword(db: Database, tp: CalendarLegacy.LegacyTimeProvider, pd: PluginData, sl: ScheduleListener, q: Channel<Request>,
                              qq: int, encrypted: string)
    modifies db
    ensures WorldOf(db, tp.currentWeekPeriod, pd, sl, q) == ChangePasswordSpec(old(WorldOf(db, tp.currentWeekPeriod, pd, sl, q)), qq, encrypted)
  {
    var user := FindUser(db.users, qq);
    if user.None? {
      return;
    }
    db.users := SetPassword(db.users, qq, encrypted);
  }

  /** The `when` over the request's kind. */
  method Dispatch(db: Database, tp: CalendarLegacy.LegacyTimeProvider, pd: PluginData, sl: ScheduleListener, q: Channel<Request>,
                  clock: Clock, request: Request, rep: Replies, jitters: seq<int>) returns (ok: bool)
    requires q.Valid()
    requires |jitters| >= |db.users|
    modifies db, tp, pd, sl, q
    ensures q.Valid() && tp.currentYear == old(tp.currentYear) && tp.currentSemester == old(tp.currentSemester)
    ensures (WorldOf(db, tp.currentWeekPeriod, pd, sl, q), ok) ==
      Handle(old(WorldOf(db, tp.currentWeekPeriod, pd, sl, q)), old(tp.CurrentTerm(clock.today)), clock, request, rep, jitters)
  {
    if request.SyncSchoolTimetable? || request.SyncSchoolWeekPeriod? || request.InheritTimetable? {
      ok := DispatchTimetable(db, tp, pd, sl, q, clock, request, rep, jitters);
    } else {
      DispatchAccount(db, tp, pd, sl, q, clock, request, rep, jitters);
      ok := true;
    }
  }

  /** The branches about an account: login, course sync, deletion and password. */
  method DispatchAccount(db: Database, tp: CalendarLegacy.LegacyTimeProvider, pd: PluginData, sl: ScheduleListener, q: Channel<Request>,
                         clock: Clock, request: Request, rep: Replies, jitters: seq<int>)
    requires q.Valid()
    requires |jitters| >= |db.users|
    requires !(request.SyncSchoolTimetable? || request.SyncSchoolWeekPeriod? || request.InheritTimetable?)
    modifies db, tp, pd, sl, q
    ensures q.Valid() && tp.currentYear == old(tp.currentYear) && tp.currentSemester == old(tp.currentSemester)
    ensures (WorldOf(db, tp.currentWeekPeriod, pd, sl, q), true) ==
      Handle(old(WorldOf(db, tp.currentWeekPeriod, pd, sl, q)), old(tp.CurrentTerm(clock.today)), clock, request, rep, jitters)
  {
    match request
    case LoginRequest(qq, username, _) =>
      HandleLogin(db, tp, pd, sl, q, qq, username, rep.encrypted, rep.student, rep.cookie);
    case SyncCourse(qq) =>
      HandleSyncCourse(db, tp, pd, sl, q, qq, rep.relogin);
    case InternalSyncCourse(qq, _) =>
      HandleInternalSync(db, tp, pd, sl, q, clock, qq, rep.lessons);
    case DeleteCourse(qq) =>
      HandleDelete(db, tp, pd, sl, q, qq);
    case ChangeUserPassword(qq, _) =>
      HandleChangePassword(db, tp, pd, sl, q, qq, rep.encrypted);
  }

  /** The branches about a school's timetable: sync, week change and inheriting. */
  method DispatchTimetable(db: Database, tp: CalendarLegacy.LegacyTimeProvider, pd: PluginData, sl: ScheduleListener, q: Channel<Request>,
                           clock: Clock, request: Request, rep: Replies, jitters: seq<int>) returns (ok: bool)
    requires q.Valid()
    requires |jitters| >= |db.users|
    requires request.SyncSchoolTimetable? || request.SyncSchoolWeekPeriod? || request.InheritTimetable?
    modifies db, tp, pd, sl, q
    ensures q.Valid() && tp.currentYear == old(tp.currentYear) && tp.currentSemester == old(tp.currentSemester)
    ensures (WorldOf(db, tp.currentWeekPeriod, pd, sl, q), ok) ==
      Handle(old(WorldOf(db, tp.currentWeekPeriod, pd, sl, q)), old(tp.CurrentTerm(clock.today)), clock, request, rep, jitters)
  {
    ghost var w0 := WorldOf(db, tp.currentWeekPeriod, pd, sl, q);
    ghost var term := tp.CurrentTerm(clock.today);
    ok := true;
    match request
    case SyncSchoolTimetable(qq, newTimetable, forceUpdate, _) =>
      ok := HandleSyncTimetable(db, tp, pd, sl, q, clock, qq, newTimetable, forceUpdate, rep.login, jitters);
      assert Handle(w0, term, clock, request, rep, jitters) ==
        SyncTimetableSpec(Older, w0, term, clock, qq, newTimetable, forceUpdate, false, rep.login, jitters);
    case SyncSchoolWeekPeriod(qq, currentWeek) =>
      HandleSyncWeek(db, tp, pd, sl, q, clock, qq, currentWeek, jitters);
      assert Handle(w0, term, clock, request, rep, jitters) == (SyncWeekSpec(Older, w0, term, clock, qq, currentWeek, jitters), true);
    case InheritTimetable(qq) =>
      HandleInherit(db, tp, pd, sl, q, clock, qq, jitters);
      assert Handle(w0, term, clock, request, rep, jitters) == (InheritSpec(Older, w0, term, clock, qq, jitters), true);
  }

  /** One turn of the worker: receive the oldest request and run its branch. */
  method HandleNext(db: Database, tp: CalendarLegacy.LegacyTimeProvider, pd: PluginData, sl: ScheduleListener, q: Channel<Request>,
                    clock: Clock, rep: Replies, jitters: seq<int>) returns (req: Option<Request>, ok: bool)
    requires q.Valid()
    requires |jitters| >= |db.users|
    modifies db, tp, pd, sl, q
    ensures q.Valid() && tp.currentYear == old(tp.currentYear) && tp.currentSemester == old(tp.currentSemester)
    ensures (WorldOf(db, tp.currentWeekPeriod, pd, sl, q), req, ok) ==
      Step(old(WorldOf(db, tp.currentWeekPeriod, pd, sl, q)), old(tp.CurrentTerm(clock.today)), clock, rep, jitters)
  {
    req := q.Receive();
    if req.None? {
      return req, true;
    }
    ok := Dispatch(db, tp, pd, sl, q, clock, req.value, rep, jitters);
  }

  lemma AppendAssoc<T>(a: seq<T>, b: seq<T>, c: seq<T>)
    ensures a + (b + c) == (a + b) + c
  {
  }

  /** The loop of `main` after `i` turns, still running in world `w` with
      `taken` received: the rest of the run completes the whole run. */
  ghost predicate Resumes(w0: World, term: Term, clock: Clock, reps: seq<Replies>, jitterss: seq<seq<int>>, i: nat, w: World, taken: seq<Request>)
    requires |jitterss| == |reps| && JittersFit(w0, jitterss)
  {
    i <= |reps| && JittersFit(w, jitterss[i..]) &&
    var r := Run(w, term, clock, reps[i..], jitterss[i..]);
    Run(w0, term, clock, reps, jitterss) == (r.0, taken + r.1, r.2)
  }

  lemma ResumeFirst(w0: World, term: Term, clock: Clock, reps: seq<Replies>, jitterss: seq<seq<int>>)
    requires |jitterss| == |reps| && JittersFit(w0, jitterss)
    ensures Resumes(w0, term, clock, reps, jitterss, 0, w0, [])
  {
    assert reps[0..] == reps && jitterss[0..] == jitterss;
    assert [] + Run(w0, term, clock, reps, jitterss).1 == Run(w0, term, clock, reps, jitterss).1;
  }

  /** A loop still running after the last turn has completed the run. */
  lemma ResumeLast(w0: World, term: Term, clock: Clock, reps: seq<Replies>, jitterss: seq<seq<int>>, w: World, taken: seq<Request>)
    requires |jitterss| == |reps| && JittersFit(w0, jitterss)
    requires Resumes(w0, term, clock, reps, jitterss, |reps|, w, taken)
    ensures Run(w0, term, clock, reps, jitterss) == (w, taken, true)
  {
    assert reps[|reps|..] == [] && jitterss[|reps|..] == [];
    assert taken + [] == taken;
  }

  /** One more turn of `main`: either it keeps running and the rest of the
      run still completes the whole run, or it throws and the run ends
      there. */
  lemma ResumeTurn(w0: World, term: Term, clock: Clock, reps: seq<Replies>, jitterss: seq<seq<int>>, i: nat, w: World, taken: seq<Request>)
    requires |jitterss| == |reps| && JittersFit(w0, jitterss)
    requires i < |reps| && Resumes(w0, term, clock, reps, jitterss, i, w, taken)
    ensures |jitterss[i]| >= |w.users|
    ensures var s := Step(w, term, clock, reps[i], jitterss[i]);
      var t := if s.1.Some? then [s.1.value] else [];
      (s.2 ==> Resumes(w0, term, clock, reps, jitterss, i + 1, s.0, taken + t)) &&
      (!s.2 ==> Run(w0, term, clock, reps, jitterss) == (s.0, taken + t, false))
  {
    DropFirst(reps, i);
    DropFirst(jitterss, i);
    var s := Step(w, term, clock, reps[i], jitterss[i]);
    if s.2 {
      StepAddsAtMostOneUser(w, term, clock, reps[i], jitterss[i]);
      JittersFitNext(w, s.0, jitterss[i..]);
      var t := if s.1.Some? then [s.1.value] else [];
      AppendAssoc(taken, t, Run(s.0, term, clock, reps[i + 1..], jitterss[i + 1..]).1);
    }
  }

  /** `main`: turn after turn the worker receives and handles the oldest
      request, and the first branch that throws ends the loop for good. */
  method Serve(db: Database, tp: CalendarLegacy.LegacyTimeProvider, pd: PluginData, sl: ScheduleListener, q: Channel<Request>,
               clock: Clock, reps: seq<Replies>, jitterss: seq<seq<int>>) returns (taken: seq<Request>, running: bool)
    requires q.Valid()
    requires |jitterss| == |reps| && JittersFit(WorldOf(db, tp.currentWeekPeriod, pd, sl, q), jitterss)
    modifies db, tp, pd, sl, q
    ensures q.Valid()
    ensures (WorldOf(db, tp.currentWeekPeriod, pd, sl, q), taken, running) ==
      Run(old(WorldOf(db, tp.currentWeekPeriod, pd, sl, q)), old(tp.CurrentTerm(clock.today)), clock, reps, jitterss)
  {
    ghost var w0 := WorldOf(db, tp.currentWeekPeriod, pd, sl, q);
    ghost var term := tp.CurrentTerm(clock.today);
    ghost var w := w0;
    taken, running := [], true;
    var i := 0;
    ResumeFirst(w0, term, clock, reps, jitterss);
    while i < |reps| && running
      invariant 0 <= i <= |reps|
      invariant q.Valid() && tp.CurrentTerm(clock.today) == term
      invariant w == WorldOf(db, tp.currentWeekPeriod, pd, sl, q)
      invariant running ==> Resumes(w0, term, clock, reps, jitterss, i, w, taken)
      invariant !running ==> (w, taken, false) == Run(w0, term, clock, reps, jitterss)
      decreases |reps| - i
    {
      ResumeTurn(w0, term, clock, reps, jitterss, i, w, taken);
      var req, ok := HandleNext(db, tp, pd, sl, q, clock, reps[i], jitterss[i]);
      w := WorldOf(db, tp.currentWeekPeriod, pd, sl, q);
      taken := taken + if req.Some? then [req.value] else [];
      running := ok;
      i := i + 1;
    }
    if running {
      ResumeLast(w0, term, clock, reps, jitterss, w, taken);
    }
  }
}
