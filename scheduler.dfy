/** The class-reminder scheduler of `ScheduleListenerService`: which job to
    arm for a user from the bell schedule, the user's sorted courses of the
    day, the lead time and the time of day, and the listener's three tables
    (jobs, cached courses of the day, cached bell schedules). Quartz, the
    clock and `Math.random()` are parameters: the time of day in minutes, the
    weekday, and a jitter second in 0..59 per arming. */
module Scheduler {
  import opened Wrappers
  import opened Text
  import opened Store
  import opened BellSchedule
  import opened Courses

  /** `PluginConfig.advancedTipTime`: minutes of lead time for a user with no
      entry of their own. */
  const DefaultTipTime: int := 15

  /** How the reminder fires: at once (the lead time has already begun), or
      by a cron expression at a time of day. */
  datatype Trigger = Immediate | At(hour: int, minute: int, second: int)

  /** A reminder job: its job data and its trigger. `section` is the section
      the job was armed for (it names the Quartz job) and `nextSection` the
      section to re-arm for once it fires, or -1. */
  datatype Job = Job(
    qq: int,
    belongingSchool: int,
    section: int,
    nextSection: int,
    courseName: string,
    teacherName: string,
    locale: string,
    startTime: int,
    endTime: int,
    trigger: Trigger)

  /** A cached bell schedule: one school's periods for one term. */
  datatype PeriodSchoolTimetable = PeriodSchoolTimetable(schoolId: int, semester: int, beginYear: int, scheduledTimetable: seq<Period>)

  /** What the listener reads from the rest of the bot at one moment: the
      current term and weeks, the lead times, the database, and the clock. */
  datatype Env = Env(
    term: Term,
    weeks: map<int, int>,
    tips: map<int, int>,
    users: seq<User>,
    timetables: seq<Timetable>,
    courseTables: map<int, seq<Course>>,
    now: int,
    second: int,
    dayOfWeek: int)

  /** `advancedTipOffset[qq] ?: advancedTipTime`. */
  function TipOf(env: Env, qq: int): (tip: int)
    ensures qq !in env.tips ==> tip == DefaultTipTime
    ensures qq in env.tips ==> tip == env.tips[qq]
  {
    if qq in env.tips then env.tips[qq] else DefaultTipTime
  }

  // ----- choosing the job -----

  /** Whether `schoolTimetable[section - 1]` is in range. */
  predicate ValidSection(st: seq<Period>, section: int)
  {
    1 <= section <= |st|
  }

  function StartTime(st: seq<Period>, section: int): int
    requires ValidSection(st, section)
  {
    st[section - 1].start
  }

  function EndTime(st: seq<Period>, section: int): int
    requires ValidSection(st, section)
  {
    st[section - 1].end
  }

  /** `courses.first { now <= schoolTimetable[it.startSection - 1].first }`
      as an index; `None` where a lookup is out of range before a match, or
      where no course matches. */
  function FirstNotStarted(today: seq<SingleCourse>, st: seq<Period>, now: int): (r: Option<nat>)
    ensures r.Some? ==> (r.value < |today| && ValidSection(st, today[r.value].startSection) &&
                         now <= StartTime(st, today[r.value].startSection))
    ensures r.Some? ==> forall j :: 0 <= j < r.value ==>
                          ValidSection(st, today[j].startSection) && now > StartTime(st, today[j].startSection)
    ensures r.None? && |today| > 0 && (forall j :: 0 <= j < |today| ==> ValidSection(st, today[j].startSection)) ==>
      now > StartTime(st, today[|today| - 1].startSection)
  {
    if |today| == 0 then None
    else if !ValidSection(st, today[0].startSection) then None
    else if now <= StartTime(st, today[0].startSection) then Some(0)
    else match FirstNotStarted(today[1..], st, now)
      case None => None
      case Some(i) => Some(i + 1)
  }

  /** `filter { it.startSection == section }.first()` followed by `indexOf`:
      the first course starting at `section`. */
  function FirstWithSection(today: seq<SingleCourse>, section: int): (r: Option<nat>)
    ensures r.None? <==> forall j :: 0 <= j < |today| ==> today[j].startSection != section
    ensures r.Some? ==> r.value < |today| && today[r.value].startSection == section
    ensures r.Some? ==> forall j :: 0 <= j < r.value ==> today[j].startSection != section
  {
    if |today| == 0 then None
    else if today[0].startSection == section then Some(0)
    else match FirstWithSection(today[1..], section)
      case None => None
      case Some(i) => Some(i + 1)
  }

  /** The section recorded for re-arming, as the source computes it: the
      start section of the course right after the fired one, or -1 after the
      day's last course. */
  function NextSectionAsWritten(today: seq<SingleCourse>, i: nat): int
    requires i < |today|
  {
    if i == |today| - 1 then -1 else today[i + 1].startSection
  }

  /** The first course starting after `section` (used by the corrected
      rule below). */
  function FirstAfter(today: seq<SingleCourse>, section: int): (r: Option<nat>)
    ensures r.None? <==> forall j :: 0 <= j < |today| ==> today[j].startSection <= section
    ensures r.Some? ==> r.value < |today| && today[r.value].startSection > section
    ensures r.Some? ==> forall j :: 0 <= j < r.value ==> today[j].startSection <= section
  {
    if |today| == 0 then None
    else if today[0].startSection > section then Some(0)
    else match FirstAfter(today[1..], section)
      case None => None
      case Some(i) => Some(i + 1)
  }

  /** The corrected rule for the section recorded for re-arming: the start
      section of the first course that starts after the fired one, or -1 when
      none does. The source records `NextSectionAsWritten` instead, which
      repeats a section shared by two courses (`RearmRepeatsAsWritten`). */
  function NextSection(today: seq<SingleCourse>, section: int): (r: int)
    requires section >= 1
    ensures r == -1 <==> forall j :: 0 <= j < |today| ==> today[j].startSection <= section
    ensures r != -1 ==> r > section
  {
    match FirstAfter(today, section)
    case None => -1
    case Some(i) => today[i].startSection
  }

  /** The trigger for a class starting at minute `start`: at once when
      `start - tip` is already past, otherwise a cron at that time of day
      with the jitter as its second (`it % 60` and `(it - it % 60) / 60` with
      Kotlin's truncating remainder, in 32-bit arithmetic). */
  function TriggerFor(start: int, tip: int, now: int, jitter: int): Trigger
  {
    var it := Wrap32(start - tip);
    if it < now then Immediate else At((it - Rem60(it)) / 60, Rem60(it), jitter)
  }

  /** The reminder is immediate exactly when its time is already past;
      otherwise it fires at that minute of the day, at the jitter second. */
  lemma TriggerForSpec(start: int, tip: int, now: int, jitter: int)
    requires 0 <= now
    requires IntMin <= start - tip <= IntMax
    ensures var t := TriggerFor(start, tip, now, jitter);
      t.Immediate? <==> start - tip < now
    ensures var t := TriggerFor(start, tip, now, jitter);
      t.At? ==> t.hour * 60 + t.minute == start - tip && 0 <= t.minute < 60 && t.second == jitter
  {
    var it := start - tip;
    assert Wrap32(start - tip) == it;
    if it >= now {
      assert Rem60(it) == it % 60;
      MinuteOfHour(it);
    }
  }

  lemma MinuteOfHour(x: int)
    requires x >= 0
    ensures (x - x % 60) / 60 * 60 + x % 60 == x
  {
    assert x == x / 60 * 60 + x % 60;
    assert (x - x % 60) / 60 == x / 60;
  }

  /** The section an arming is for. */
  datatype Target = NoneLeft | Faulted | Section(section: int)

  /** With no explicit section: nothing when the day's last course has
      already started, otherwise the first course not yet started. */
  function AutoTarget(today: seq<SingleCourse>, st: seq<Period>, now: int): Target
    requires |today| > 0
  {
    var last := today[|today| - 1].startSection;
    if !ValidSection(st, last) then Faulted
    else if now >= StartTime(st, last) then NoneLeft
    else match FirstNotStarted(today, st, now)
      case None => Faulted
      case Some(i) => Section(today[i].startSection)
  }

  /** The job an arming stores (if any) and whether it throws (before or
      after storing the job). */
  datatype Plan = Plan(job: Option<Job>, fault: bool)

  /** The decision of `startUserNotificationJob` once the bell schedule and
      the courses of the day are at hand. A section beyond the schedule or
      without a course is only logged. An index out of range throws before
      the job is stored; a cron hour beyond 23, or a cron for the current
      minute whose jitter second is already past (`second` is the current
      second of the minute), throws after it is. */
  function PlanJob(qq: int, school: int, whichSection: Option<int>, st: seq<Period>, today: seq<SingleCourse>, tip: int, now: int, second: int, jitter: int): Plan
  {
    if |today| == 0 then Plan(None, false)
    else
      var target := if whichSection.Some? then Section(whichSection.value) else AutoTarget(today, st, now);
      match target
      case NoneLeft => Plan(None, false)
      case Faulted => Plan(None, true)
      case Section(s) =>
        if s > |st| then Plan(None, false)
        else match FirstWithSection(today, s)
          case None => Plan(None, false)
          case Some(i) =>
            var c := today[i];
            if !ValidSection(st, c.startSection) || !ValidSection(st, c.endSection) then Plan(None, true)
            else
              var trigger := TriggerFor(StartTime(st, s), tip, now, jitter);
              var job := Job(qq, school, s, NextSectionAsWritten(today, i), c.courseName, c.teacherName, c.locale,
                             StartTime(st, s), EndTime(st, c.endSection), trigger);
              Plan(Some(job), trigger.At? && (!(0 <= trigger.hour <= 23 && 0 <= trigger.minute <= 59) || NeverFires(trigger, now, second)))
  }

  /** A cron pinned to today's date whose time of day is before the current
      second has no fire time left, and Quartz refuses to schedule it. */
  predicate NeverFires(t: Trigger, now: int, second: int)
  {
    t.At? && t.hour * 3600 + t.minute * 60 + t.second < now * 60 + second
  }

  /** A job is stored only for a section within the schedule at which some
      course of the day starts; it announces the first such course, with its
      start and end taken from the schedule. */
  lemma PlanArmsExistingSection(qq: int, school: int, whichSection: Option<int>, st: seq<Period>, today: seq<SingleCourse>, tip: int, now: int, second: int, jitter: int)
    ensures var p := PlanJob(qq, school, whichSection, st, today, tip, now, second, jitter);
      p.job.Some? ==> ValidSection(st, p.job.value.section) && FirstWithSection(today, p.job.value.section).Some?
    ensures var p := PlanJob(qq, school, whichSection, st, today, tip, now, second, jitter);
      p.job.Some? ==>
        var c := today[FirstWithSection(today, p.job.value.section).value];
        ValidSection(st, c.endSection) &&
        p.job.value == Job(qq, school, c.startSection, NextSectionAsWritten(today, FirstWithSection(today, p.job.value.section).value), c.courseName, c.teacherName, c.locale,
          StartTime(st, c.startSection), EndTime(st, c.endSection), TriggerFor(StartTime(st, c.startSection), tip, now, jitter))
  {
  }

  /** A cron for a later minute always has a fire time left today; one for
      the current minute has none exactly when its jitter second is already
      past. */
  lemma NeverFiresSpec(start: int, tip: int, now: int, second: int, jitter: int)
    requires 0 <= now
    requires IntMin <= start - tip <= IntMax
    requires 0 <= second < 60 && 0 <= jitter < 60
    ensures NeverFires(TriggerFor(start, tip, now, jitter), now, second) <==> start - tip == now && jitter < second
  {
    TriggerForSpec(start, tip, now, jitter);
    var t := TriggerFor(start, tip, now, jitter);
    if t.At? {
      assert t.hour * 3600 + t.minute * 60 == (t.hour * 60 + t.minute) * 60;
    }
  }

  /** An armed plan whose reminder minute is the current one and whose
      jitter second is already past throws after storing the job; one whose
      reminder minute is later today does not throw. */
  lemma PlanFaultsOnPastCron(qq: int, school: int, whichSection: Option<int>, st: seq<Period>, today: seq<SingleCourse>, tip: int, now: int, second: int, jitter: int)
    requires 0 <= now
    requires 0 <= second < 60 && 0 <= jitter < 60
    ensures var p := PlanJob(qq, school, whichSection, st, today, tip, now, second, jitter);
      p.job.Some? && IntMin <= p.job.value.startTime - tip <= IntMax ==>
        (p.job.value.startTime - tip == now && jitter < second ==> p.fault) &&
        (now < p.job.value.startTime - tip < 24 * 60 ==> !p.fault)
  {
    var p := PlanJob(qq, school, whichSection, st, today, tip, now, second, jitter);
    PlanArmsExistingSection(qq, school, whichSection, st, today, tip, now, second, jitter);
    if p.job.Some? && IntMin <= p.job.value.startTime - tip <= IntMax {
      var start := p.job.value.startTime;
      var t := TriggerFor(start, tip, now, jitter);
      assert p.job.value.trigger == t;
      assert p.fault == (t.At? && (!(0 <= t.hour <= 23 && 0 <= t.minute <= 59) || NeverFires(t, now, second)));
      TriggerForSpec(start, tip, now, jitter);
      NeverFiresSpec(start, tip, now, second, jitter);
      if now < start - tip < 24 * 60 {
        assert t.At? && t.hour * 60 + t.minute == start - tip && 0 <= t.minute < 60;
        assert 0 <= t.hour <= 23;
      }
    }
  }

  /** An explicit section beyond the schedule, or one at which no course
      starts, arms nothing and throws nothing. */
  lemma PlanRejectsSection(qq: int, school: int, section: int, st: seq<Period>, today: seq<SingleCourse>, tip: int, now: int, second: int, jitter: int)
    requires section > |st| || forall j :: 0 <= j < |today| ==> today[j].startSection != section
    ensures PlanJob(qq, school, Some(section), st, today, tip, now, second, jitter) == Plan(None, false)
  {
  }

  /** An explicit section, when armed, is the section of the job. */
  lemma PlanKeepsRequestedSection(qq: int, school: int, section: int, st: seq<Period>, today: seq<SingleCourse>, tip: int, now: int, second: int, jitter: int)
    ensures var p := PlanJob(qq, school, Some(section), st, today, tip, now, second, jitter);
      p.job.Some? ==> p.job.value.section == section && p.job.value.qq == qq
  {
  }

  /** Without an explicit section, once the day's last course has started
      nothing is armed. */
  lemma PlanDayOver(qq: int, school: int, st: seq<Period>, today: seq<SingleCourse>, tip: int, now: int, second: int, jitter: int)
    requires |today| > 0
    requires ValidSection(st, today[|today| - 1].startSection)
    requires now >= StartTime(st, today[|today| - 1].startSection)
    ensures PlanJob(qq, school, None, st, today, tip, now, second, jitter) == Plan(None, false)
  {
  }

  /** Without an explicit section, when every course's section is in the
      schedule and the last has not started, the job is for the first course
      that has not started. */
  lemma PlanAutoTarget(qq: int, school: int, st: seq<Period>, today: seq<SingleCourse>, tip: int, now: int, second: int, jitter: int)
    requires |today| > 0
    requires forall j :: 0 <= j < |today| ==> ValidSection(st, today[j].startSection) && ValidSection(st, today[j].endSection)
    requires now < StartTime(st, today[|today| - 1].startSection)
    ensures var p := PlanJob(qq, school, None, st, today, tip, now, second, jitter);
      p.job.Some? &&
      exists i :: 0 <= i < |today| && p.job.value.section == today[i].startSection &&
                  now <= StartTime(st, today[i].startSection) &&
                  (forall j :: 0 <= j < i ==> now > StartTime(st, today[j].startSection))
  {
    var i := FirstNotStarted(today, st, now);
    assert i.Some?;
    var s := today[i.value].startSection;
    var k := FirstWithSection(today, s);
    assert k.Some?;
  }

  /** The recorded next section is that of the course right after the
      announced one in the day's list, or -1 when the announced course is
      the list's last; it need not be a later section (see
      `RearmRepeatsAsWritten`). */
  lemma PlanNextSection(qq: int, school: int, whichSection: Option<int>, st: seq<Period>, today: seq<SingleCourse>, tip: int, now: int, second: int, jitter: int)
    ensures var p := PlanJob(qq, school, whichSection, st, today, tip, now, second, jitter);
      p.job.Some? ==>
        var i := FirstWithSection(today, p.job.value.section);
        i.Some? &&
        (i.value == |today| - 1 ==> p.job.value.nextSection == -1) &&
        (i.value < |today| - 1 ==> p.job.value.nextSection == today[i.value + 1].startSection)
  {
  }

  /** For a sorted day whose courses start at distinct sections the next
      section is the source's "course right after" (the two definitions
      agree on the input they were written for). */
  lemma NextSectionAgrees(today: seq<SingleCourse>, i: nat)
    requires i < |today| && today[i].startSection >= 1
    requires forall a, b :: 0 <= a < b < |today| ==> today[a].startSection < today[b].startSection
    ensures NextSectionAsWritten(today, i) == NextSection(today, today[i].startSection)
  {
    var s := today[i].startSection;
    if i < |today| - 1 {
      assert today[i + 1].startSection > s;
      assert forall j :: 0 <= j <= i ==> today[j].startSection <= s;
    }
  }

  /** Two courses at the same section: the source records that same
      section as the next one, and re-arming for it picks the first course
      again, which again records the same section, so the second course is
      never announced and the job re-arms itself for ever. */
  lemma RearmRepeatsAsWritten()
    ensures var today := [SingleCourse(1, 2, "A", "T", "L", 1, 2024), SingleCourse(1, 2, "B", "U", "M", 1, 2024)];
      FirstWithSection(today, 1) == Some(0) && NextSectionAsWritten(today, 0) == 1
    ensures var today := [SingleCourse(1, 2, "A", "T", "L", 1, 2024), SingleCourse(1, 2, "B", "U", "M", 1, 2024)];
      NextSection(today, 1) == -1
  {
    var today := [SingleCourse(1, 2, "A", "T", "L", 1, 2024), SingleCourse(1, 2, "B", "U", "M", 1, 2024)];
    assert FirstWithSection(today, 1) == Some(0);
    assert FirstAfter(today[1..], 1) == None;
  }

  /** The largest start section of the day (0 for an empty day). */
  function MaxSection(today: seq<SingleCourse>): (m: int)
    ensures forall j :: 0 <= j < |today| ==> today[j].startSection <= m
  {
    if |today| == 0 then 0
    else
      var rest := MaxSection(today[1..]);
      if today[0].startSection > rest then today[0].startSection else rest
  }

  /** Under the corrected rule re-arming always moves to a later section and
      never past the day's last start section, so a chain of re-arms over one
      day's courses ends after at most `MaxSection(today) - section` steps. */
  lemma RearmProgresses(today: seq<SingleCourse>, section: int)
    requires section >= 1
    ensures NextSection(today, section) != -1 ==> section < NextSection(today, section) <= MaxSection(today)
  {
  }

  // ----- the listener's tables -----

  /** The listener's three tables: one job per user, the cached courses of
      the day per user, and the cached bell schedules. */
  datatype Listener = Listener(jobs: map<int, Job>, userCourses: map<int, seq<SingleCourse>>, cache: seq<PeriodSchoolTimetable>)

  predicate CacheKey(e: PeriodSchoolTimetable, schoolId: int, term: Term)
  {
    e.schoolId == schoolId && e.semester == term.semester && e.beginYear == term.beginYear
  }

  /** The cached schedules of a school for a term, in cache order. */
  function CacheHits(cache: seq<PeriodSchoolTimetable>, schoolId: int, term: Term): (r: seq<PeriodSchoolTimetable>)
    ensures forall e :: e in r <==> e in cache && CacheKey(e, schoolId, term)
  {
    if |cache| == 0 then []
    else CacheHits(cache[..|cache| - 1], schoolId, term) + (if CacheKey(cache[|cache| - 1], schoolId, term) then [cache[|cache| - 1]] else [])
  }

  lemma CacheHitsAppend(cache: seq<PeriodSchoolTimetable>, e: PeriodSchoolTimetable, schoolId: int, term: Term)
    ensures CacheHits(cache + [e], schoolId, term) == CacheHits(cache, schoolId, term) + (if CacheKey(e, schoolId, term) then [e] else [])
  {
    assert (cache + [e])[..|cache|] == cache;
  }

  /** The bell schedule as the database gives it: the first row of the
      school in the term, parsed; no row gives the empty list. `None` where
      the parse throws. */
  function DbSchedule(rows: seq<Timetable>, schoolId: int, term: Term): Option<seq<Period>>
  {
    match FindTimetable(rows, schoolId, term)
    case None => Some([])
    case Some(i) => ParseSchedule(rows[i].scheduledTimeList)
  }

  /** What `getSchoolTimetable` returns: the one cached schedule, or the
      database's; `single()` throws on two cached entries. */
  function LookupSchedule(cache: seq<PeriodSchoolTimetable>, rows: seq<Timetable>, schoolId: int, term: Term): Option<seq<Period>>
  {
    var hits := CacheHits(cache, schoolId, term);
    if |hits| == 1 then Some(hits[0].scheduledTimetable)
    else if |hits| > 1 then None
    else DbSchedule(rows, schoolId, term)
  }

  /** The cache after `getSchoolTimetable`: a schedule read from an existing
      row is appended; a missing row or a failed parse caches nothing. */
  function CacheAfter(cache: seq<PeriodSchoolTimetable>, rows: seq<Timetable>, schoolId: int, term: Term): seq<PeriodSchoolTimetable>
  {
    var db := DbSchedule(rows, schoolId, term);
    if |CacheHits(cache, schoolId, term)| == 0 && FindTimetable(rows, schoolId, term).Some? && db.Some? then
      cache + [PeriodSchoolTimetable(schoolId, term.semester, term.beginYear, db.value)]
    else cache
  }

  /** `removeIf { it.schoolId == schoolId }`. */
  function DropSchool(cache: seq<PeriodSchoolTimetable>, schoolId: int): (r: seq<PeriodSchoolTimetable>)
    ensures forall e :: e in r <==> e in cache && e.schoolId != schoolId
  {
    if |cache| == 0 then []
    else if cache[0].schoolId == schoolId then DropSchool(cache[1..], schoolId)
    else [cache[0]] + DropSchool(cache[1..], schoolId)
  }

  /** The cache agrees with the database on a school's schedule for a term:
      at most one entry, holding what the database gives. */
  predicate CoherentFor(cache: seq<PeriodSchoolTimetable>, rows: seq<Timetable>, schoolId: int, term: Term)
  {
    var hits := CacheHits(cache, schoolId, term);
    |hits| <= 1 && (|hits| == 1 ==> DbSchedule(rows, schoolId, term) == Some(hits[0].scheduledTimetable))
  }

  /** A coherent cache is transparent: the lookup answers what the database
      gives, and caching keeps it coherent for every school. */
  lemma LookupCoherent(cache: seq<PeriodSchoolTimetable>, rows: seq<Timetable>, schoolId: int, term: Term, k: int)
    requires CoherentFor(cache, rows, schoolId, term)
    requires CoherentFor(cache, rows, k, term)
    ensures LookupSchedule(cache, rows, schoolId, term) == DbSchedule(rows, schoolId, term)
    ensures CoherentFor(CacheAfter(cache, rows, schoolId, term), rows, k, term)
  {
    var db := DbSchedule(rows, schoolId, term);
    if |CacheHits(cache, schoolId, term)| == 0 && FindTimetable(rows, schoolId, term).Some? && db.Some? {
      CacheHitsAppend(cache, PeriodSchoolTimetable(schoolId, term.semester, term.beginYear, db.value), k, term);
    }
  }

  /** A missing current-term row gives the empty schedule and caches
      nothing. */
  lemma MissingRowCachesNothing(cache: seq<PeriodSchoolTimetable>, rows: seq<Timetable>, schoolId: int, term: Term)
    requires |CacheHits(cache, schoolId, term)| == 0
    requires FindTimetable(rows, schoolId, term).None?
    ensures LookupSchedule(cache, rows, schoolId, term) == Some([])
    ensures CacheAfter(cache, rows, schoolId, term) == cache
  {
  }

  lemma {:induction false} NoHits(cache: seq<PeriodSchoolTimetable>, schoolId: int, term: Term)
    requires forall i :: 0 <= i < |cache| ==> !CacheKey(cache[i], schoolId, term)
    ensures CacheHits(cache, schoolId, term) == []
    decreases |cache|
  {
    if |cache| > 0 {
      NoHits(cache[..|cache| - 1], schoolId, term);
    }
  }

  /** After dropping a school's entries the cache is coherent for it. */
  lemma DropSchoolCoherent(cache: seq<PeriodSchoolTimetable>, rows: seq<Timetable>, schoolId: int, term: Term)
    ensures CoherentFor(DropSchool(cache, schoolId), rows, schoolId, term)
  {
    var d := DropSchool(cache, schoolId);
    assert forall i :: 0 <= i < |d| ==> d[i] in d;
    NoHits(d, schoolId, term);
  }

  /** The cached courses of the current term. */
  function InTermCourses(list: seq<SingleCourse>, term: Term): (r: seq<SingleCourse>)
    ensures forall c :: c in r <==> c in list && c.semester == term.semester && c.beginYear == term.beginYear
  {
    if |list| == 0 then []
    else if list[0].semester == term.semester && list[0].beginYear == term.beginYear then [list[0]] + InTermCourses(list[1..], term)
    else InTermCourses(list[1..], term)
  }

  /** The courses of the day from the user's course table; `None` where the
      table is missing or the fetch throws. */
  function FetchToday(env: Env, qq: int, school: int, day: int): Option<seq<SingleCourse>>
  {
    if qq !in env.courseTables then None
    else LegacyTodayCourses(env.courseTables[qq], env.term, env.weeks, school, day)
  }

  /** What `getUserTodayCourses` returns: the cached courses of the current
      term, or a fresh fetch when there are none. */
  function LookupCourses(uc: map<int, seq<SingleCourse>>, qq: int, school: int, day: int, env: Env): Option<seq<SingleCourse>>
  {
    if qq in uc && |InTermCourses(uc[qq], env.term)| > 0 then Some(InTermCourses(uc[qq], env.term))
    else FetchToday(env, qq, school, day)
  }

  /** The course cache after `getUserTodayCourses`: a fresh fetch becomes
      the entry of a user without one. An entry that exists is left as is,
      even when it holds no course of the term: the source's `forEach` there
      runs over the empty filtered list, so the fetch is only returned. */
  function CoursesAfter(uc: map<int, seq<SingleCourse>>, qq: int, school: int, day: int, env: Env): map<int, seq<SingleCourse>>
  {
    if qq in uc then uc
    else match FetchToday(env, qq, school, day)
      case None => uc
      case Some(f) => uc[qq := f]
  }

  /** `startUserNotificationJob`: nothing when the user already has a job;
      otherwise the schedule and the courses are looked up (filling the
      caches) and the plan's job is stored. The flag is false when the call
      throws. */
  function StartSpec(s: Listener, qq: int, school: int, whichSection: Option<int>, env: Env, jitter: int): (Listener, bool)
  {
    if qq in s.jobs then (s, true)
    else
      var st := LookupSchedule(s.cache, env.timetables, school, env.term);
      var s1 := s.(cache := CacheAfter(s.cache, env.timetables, school, env.term));
      if st.None? then (s1, false)
      else
        var tc := LookupCourses(s1.userCourses, qq, school, env.dayOfWeek, env);
        var s2 := s1.(userCourses := CoursesAfter(s1.userCourses, qq, school, env.dayOfWeek, env));
        if tc.None? then (s2, false)
        else
          var plan := PlanJob(qq, school, whichSection, st.value, tc.value, TipOf(env, qq), env.now, env.second, jitter);
          (if plan.job.Some? then s2.(jobs := s2.jobs[qq := plan.job.value]) else s2, !plan.fault)
  }

  /** `stopAndRemoveUserNotificationJob`. */
  function Stop(s: Listener, qq: int): Listener
  {
    s.(jobs := s.jobs - {qq})
  }

  /** Stopping removes exactly the user's job: other jobs, the cached
      courses and schedules stay, a user without a job is left as is, and a
      second stop changes nothing. */
  lemma StopRemovesOnlyUser(s: Listener, qq: int, k: int)
    ensures qq !in Stop(s, qq).jobs
    ensures k != qq ==> (k in Stop(s, qq).jobs <==> k in s.jobs) && (k in s.jobs ==> Stop(s, qq).jobs[k] == s.jobs[k])
    ensures Stop(s, qq).userCourses == s.userCourses && Stop(s, qq).cache == s.cache
    ensures qq !in s.jobs ==> Stop(s, qq) == s
    ensures Stop(Stop(s, qq), qq) == Stop(s, qq)
  {
  }

  /** What the hooks and the daily distribution do for one user: stop the
      job, drop the cached courses, arm again from scratch. */
  function Restart(s: Listener, qq: int, school: int, env: Env, jitter: int): (Listener, bool)
  {
    var s1 := Stop(s, qq);
    StartSpec(s1.(userCourses := s1.userCourses - {qq}), qq, school, None, env, jitter)
  }

  /** Restarting a list of users in order, stopping at the first that
      throws. */
  function RestartAll(s: Listener, users: seq<User>, env: Env, jitters: seq<int>): (Listener, bool)
    requires |jitters| == |users|
  {
    if |users| == 0 then (s, true)
    else
      var before := RestartAll(s, users[..|users| - 1], env, jitters[..|users| - 1]);
      if !before.1 then before
      else Restart(before.0, users[|users| - 1].qq, users[|users| - 1].schoolId, env, jitters[|users| - 1])
  }

  /** The job a user gets when armed from scratch with no explicit section;
      `None` when the lookups throw. */
  function FreshPlan(u: User, env: Env, jitter: int): Option<Plan>
  {
    var st := DbSchedule(env.timetables, u.schoolId, env.term);
    var tc := FetchToday(env, u.qq, u.schoolId, env.dayOfWeek);
    if st.None? || tc.None? then None
    else Some(PlanJob(u.qq, u.schoolId, None, st.value, tc.value, TipOf(env, u.qq), env.now, env.second, jitter))
  }

  /** Arming touches no other user's job or cached courses, and an existing
      job blocks arming altogether. */
  lemma StartTouchesOnlyUser(s: Listener, qq: int, school: int, whichSection: Option<int>, env: Env, jitter: int, k: int)
    requires k != qq
    ensures var r := StartSpec(s, qq, school, whichSection, env, jitter).0;
      (k in r.jobs <==> k in s.jobs) && (k in s.jobs ==> r.jobs[k] == s.jobs[k])
    ensures var r := StartSpec(s, qq, school, whichSection, env, jitter).0;
      (k in r.userCourses <==> k in s.userCourses) && (k in s.userCourses ==> r.userCourses[k] == s.userCourses[k])
    ensures qq in s.jobs ==> StartSpec(s, qq, school, whichSection, env, jitter) == (s, true)
  {
    if qq !in s.jobs {
      var r := StartSpec(s, qq, school, whichSection, env, jitter).0;
      var st := LookupSchedule(s.cache, env.timetables, school, env.term);
      var s1 := s.(cache := CacheAfter(s.cache, env.timetables, school, env.term));
      if st.None? {
        assert r == s1;
      } else {
        var tc := LookupCourses(s1.userCourses, qq, school, env.dayOfWeek, env);
        var s2 := s1.(userCourses := CoursesAfter(s1.userCourses, qq, school, env.dayOfWeek, env));
        CoursesAfterOnlyUser(s1.userCourses, qq, school, env.dayOfWeek, env, k);
        if tc.None? {
          assert r == s2;
        } else {
          var plan := PlanJob(qq, school, whichSection, st.value, tc.value, TipOf(env, qq), env.now, env.second, jitter);
          assert r == if plan.job.Some? then s2.(jobs := s2.jobs[qq := plan.job.value]) else s2;
        }
      }
    }
  }

  /** Filling the course cache for one user leaves every other entry, and
      never changes an entry the user already has, even one without a
      course of the term. */
  lemma CoursesAfterOnlyUser(uc: map<int, seq<SingleCourse>>, qq: int, school: int, day: int, env: Env, k: int)
    requires k != qq
    ensures var r := CoursesAfter(uc, qq, school, day, env);
      (k in r <==> k in uc) && (k in uc ==> r[k] == uc[k])
    ensures qq in uc ==> CoursesAfter(uc, qq, school, day, env) == uc
  {
  }

  /** Arming for an explicit section stores, if anything, a job for that
      section. */
  lemma StartArmsRequestedSection(s: Listener, qq: int, school: int, section: int, env: Env, jitter: int)
    requires qq !in s.jobs
    ensures var r := StartSpec(s, qq, school, Some(section), env, jitter).0;
      qq in r.jobs ==> r.jobs[qq].section == section
  {
    var st := LookupSchedule(s.cache, env.timetables, school, env.term);
    var s1 := s.(cache := CacheAfter(s.cache, env.timetables, school, env.term));
    if st.Some? {
      var tc := LookupCourses(s1.userCourses, qq, school, env.dayOfWeek, env);
      if tc.Some? {
        PlanKeepsRequestedSection(qq, school, section, st.value, tc.value, TipOf(env, qq), env.now, env.second, jitter);
      }
    }
  }

  /** When the reminder minute of the stored job is the current minute and
      the jitter second is already past, the arming throws with the job left
      in the table, so the user cannot be armed again until it is stopped. */
  lemma StartStoresThenFaults(s: Listener, qq: int, school: int, whichSection: Option<int>, env: Env, jitter: int)
    requires qq !in s.jobs
    requires 0 <= env.now && 0 <= env.second < 60 && 0 <= jitter < 60
    ensures var r := StartSpec(s, qq, school, whichSection, env, jitter);
      qq in r.0.jobs && IntMin <= r.0.jobs[qq].startTime - TipOf(env, qq) <= IntMax &&
      r.0.jobs[qq].startTime - TipOf(env, qq) == env.now && jitter < env.second ==>
        !r.1 && StartSpec(r.0, qq, school, whichSection, env, jitter) == (r.0, true)
  {
    var st := LookupSchedule(s.cache, env.timetables, school, env.term);
    var s1 := s.(cache := CacheAfter(s.cache, env.timetables, school, env.term));
    if st.Some? {
      var tc := LookupCourses(s1.userCourses, qq, school, env.dayOfWeek, env);
      if tc.Some? {
        PlanFaultsOnPastCron(qq, school, whichSection, st.value, tc.value, TipOf(env, qq), env.now, env.second, jitter);
      }
    }
  }

  /** Arming a user with no job and no cached courses on a coherent cache
      arms them from the database, and keeps the cache coherent. */
  lemma StartFresh(s: Listener, u: User, env: Env, jitter: int, k: int)
    requires u.qq !in s.jobs && u.qq !in s.userCourses
    requires CoherentFor(s.cache, env.timetables, u.schoolId, env.term)
    requires CoherentFor(s.cache, env.timetables, k, env.term)
    ensures var p := FreshPlan(u, env, jitter);
      StartSpec(s, u.qq, u.schoolId, None, env, jitter).1 ==> p.Some? && !p.value.fault
    ensures var r := StartSpec(s, u.qq, u.schoolId, None, env, jitter);
      var p := FreshPlan(u, env, jitter);
      r.1 ==> (u.qq in r.0.jobs <==> p.value.job.Some?) && (p.value.job.Some? ==> r.0.jobs[u.qq] == p.value.job.value)
    ensures CoherentFor(StartSpec(s, u.qq, u.schoolId, None, env, jitter).0.cache, env.timetables, k, env.term)
  {
    LookupCoherent(s.cache, env.timetables, u.schoolId, env.term, k);
    LookupCoherent(s.cache, env.timetables, u.schoolId, env.term, u.schoolId);
    var st := LookupSchedule(s.cache, env.timetables, u.schoolId, env.term);
    var s1 := s.(cache := CacheAfter(s.cache, env.timetables, u.schoolId, env.term));
    assert st == DbSchedule(env.timetables, u.schoolId, env.term);
    if st.Some? {
      var tc := LookupCourses(s1.userCourses, u.qq, u.schoolId, env.dayOfWeek, env);
      assert tc == FetchToday(env, u.qq, u.schoolId, env.dayOfWeek);
      var s2 := s1.(userCourses := CoursesAfter(s1.userCourses, u.qq, u.schoolId, env.dayOfWeek, env));
      if tc.Some? {
        var plan := PlanJob(u.qq, u.schoolId, None, st.value, tc.value, TipOf(env, u.qq), env.now, env.second, jitter);
        assert FreshPlan(u, env, jitter) == Some(plan);
        assert StartSpec(s, u.qq, u.schoolId, None, env, jitter) ==
          (if plan.job.Some? then s2.(jobs := s2.jobs[u.qq := plan.job.value]) else s2, !plan.fault);
      }
    }
  }

  /** Restarting a user on a coherent cache arms them as from scratch, and
      keeps the cache coherent. */
  lemma RestartFresh(s: Listener, u: User, env: Env, jitter: int, k: int)
    requires CoherentFor(s.cache, env.timetables, u.schoolId, env.term)
    requires CoherentFor(s.cache, env.timetables, k, env.term)
    ensures var p := FreshPlan(u, env, jitter);
      Restart(s, u.qq, u.schoolId, env, jitter).1 ==> p.Some? && !p.value.fault
    ensures var r := Restart(s, u.qq, u.schoolId, env, jitter);
      var p := FreshPlan(u, env, jitter);
      r.1 ==> (u.qq in r.0.jobs <==> p.value.job.Some?) && (p.value.job.Some? ==> r.0.jobs[u.qq] == p.value.job.value)
    ensures CoherentFor(Restart(s, u.qq, u.schoolId, env, jitter).0.cache, env.timetables, k, env.term)
  {
    var s1 := Stop(s, u.qq);
    StartFresh(s1.(userCourses := s1.userCourses - {u.qq}), u, env, jitter, k);
  }

  /** A user's job is what arming from scratch gives. */
  predicate JobIsFresh(r: Listener, u: User, env: Env, jitter: int)
  {
    var p := FreshPlan(u, env, jitter);
    p.Some? && !p.value.fault &&
    (u.qq in r.jobs <==> p.value.job.Some?) && (p.value.job.Some? ==> r.jobs[u.qq] == p.value.job.value)
  }

  lemma RestartTouchesOnlyUser(s: Listener, u: User, env: Env, jitter: int, k: int)
    requires k != u.qq
    ensures var r := Restart(s, u.qq, u.schoolId, env, jitter).0;
      (k in r.jobs <==> k in s.jobs) && (k in s.jobs ==> r.jobs[k] == s.jobs[k])
    ensures var r := Restart(s, u.qq, u.schoolId, env, jitter).0;
      (k in r.userCourses <==> k in s.userCourses) && (k in s.userCourses ==> r.userCourses[k] == s.userCourses[k])
  {
    var s1 := Stop(s, u.qq);
    StartTouchesOnlyUser(s1.(userCourses := s1.userCourses - {u.qq}), u.qq, u.schoolId, None, env, jitter, k);
  }

  /** Restarting a list of users leaves every other user's job and cached
      courses as they were. */
  lemma {:induction false} RestartAllKeepsOthers(s: Listener, users: seq<User>, env: Env, jitters: seq<int>, k: int)
    requires |jitters| == |users|
    requires forall i :: 0 <= i < |users| ==> users[i].qq != k
    ensures var r := RestartAll(s, users, env, jitters).0;
      (k in r.jobs <==> k in s.jobs) && (k in s.jobs ==> r.jobs[k] == s.jobs[k])
    ensures var r := RestartAll(s, users, env, jitters).0;
      (k in r.userCourses <==> k in s.userCourses) && (k in s.userCourses ==> r.userCourses[k] == s.userCourses[k])
    decreases |users|
  {
    if |users| > 0 {
      var n := |users| - 1;
      RestartAllKeepsOthers(s, users[..n], env, jitters[..n], k);
      var before := RestartAll(s, users[..n], env, jitters[..n]);
      if before.1 {
        RestartTouchesOnlyUser(before.0, users[n], env, jitters[n], k);
      }
    }
  }

  /** Restarting users whose schools' schedules are cached coherently keeps
      every coherent school coherent. */
  lemma {:induction false} RestartAllCoherent(s: Listener, users: seq<User>, env: Env, jitters: seq<int>, k: int)
    requires |jitters| == |users|
    requires forall i :: 0 <= i < |users| ==> CoherentFor(s.cache, env.timetables, users[i].schoolId, env.term)
    requires CoherentFor(s.cache, env.timetables, k, env.term)
    ensures CoherentFor(RestartAll(s, users, env, jitters).0.cache, env.timetables, k, env.term)
    decreases |users|
  {
    if |users| > 0 {
      var n := |users| - 1;
      RestartAllCoherent(s, users[..n], env, jitters[..n], k);
      RestartAllCoherent(s, users[..n], env, jitters[..n], users[n].schoolId);
      var before := RestartAll(s, users[..n], env, jitters[..n]);
      if before.1 {
        RestartFresh(before.0, users[n], env, jitters[n], k);
      }
    }
  }

  lemma RestartLastFresh(before: (Listener, bool), u: User, env: Env, jitter: int)
    requires CoherentFor(before.0.cache, env.timetables, u.schoolId, env.term)
    ensures Restart(before.0, u.qq, u.schoolId, env, jitter).1 ==> JobIsFresh(Restart(before.0, u.qq, u.schoolId, env, jitter).0, u, env, jitter)
  {
    RestartFresh(before.0, u, env, jitter, u.schoolId);
  }

  lemma FreshKeptByOtherRestart(b: Listener, v: User, jv: int, u: User, env: Env, jitter: int)
    requires JobIsFresh(b, v, env, jv) && v.qq != u.qq
    ensures JobIsFresh(Restart(b, u.qq, u.schoolId, env, jitter).0, v, env, jv)
  {
    RestartTouchesOnlyUser(b, u, env, jitter, v.qq);
  }

  /** When a restart of distinct users on coherently cached schedules
      completes, every one of them holds exactly the job that arming from
      scratch gives. */
  lemma {:induction false} RestartAllFresh(s: Listener, users: seq<User>, env: Env, jitters: seq<int>, i: int)
    requires |jitters| == |users| && 0 <= i < |users|
    requires forall a, b :: 0 <= a < b < |users| ==> users[a].qq != users[b].qq
    requires forall a :: 0 <= a < |users| ==> CoherentFor(s.cache, env.timetables, users[a].schoolId, env.term)
    ensures RestartAll(s, users, env, jitters).1 ==> JobIsFresh(RestartAll(s, users, env, jitters).0, users[i], env, jitters[i])
    decreases |users|, 1
  {
    if i == |users| - 1 {
      RestartAllFreshLast(s, users, env, jitters);
    } else {
      RestartAllFreshEarlier(s, users, env, jitters, i);
    }
  }

  lemma RestartAllFreshLast(s: Listener, users: seq<User>, env: Env, jitters: seq<int>)
    requires |jitters| == |users| > 0
    requires forall a :: 0 <= a < |users| ==> CoherentFor(s.cache, env.timetables, users[a].schoolId, env.term)
    ensures var n := |users| - 1;
      RestartAll(s, users, env, jitters).1 ==> JobIsFresh(RestartAll(s, users, env, jitters).0, users[n], env, jitters[n])
  {
    var n := |users| - 1;
    var init, inits := users[..n], jitters[..n];
    var before := RestartAll(s, init, env, inits);
    if before.1 {
      RestartAllCoherent(s, init, env, inits, users[n].schoolId);
      RestartLastFresh(before, users[n], env, jitters[n]);
    }
  }

  lemma {:induction false} RestartAllFreshEarlier(s: Listener, users: seq<User>, env: Env, jitters: seq<int>, i: int)
    requires |jitters| == |users| && 0 <= i < |users| - 1
    requires forall a, b :: 0 <= a < b < |users| ==> users[a].qq != users[b].qq
    requires forall a :: 0 <= a < |users| ==> CoherentFor(s.cache, env.timetables, users[a].schoolId, env.term)
    ensures RestartAll(s, users, env, jitters).1 ==> JobIsFresh(RestartAll(s, users, env, jitters).0, users[i], env, jitters[i])
    decreases |users|, 0
  {
    var n := |users| - 1;
    var init, inits := users[..n], jitters[..n];
    PrefixKeepsRestartFacts(s, users, env);
    RestartAllFresh(s, init, env, inits, i);
    RestartAllStep(s, users, env, jitters);
    FreshKeptByLastRestart(RestartAll(s, init, env, inits), users[i], jitters[i], users[n], env, jitters[n]);
  }

  /** The prefix of a list of distinct, coherently cached users is one too. */
  lemma PrefixKeepsRestartFacts(s: Listener, users: seq<User>, env: Env)
    requires |users| > 0
    requires forall a, b :: 0 <= a < b < |users| ==> users[a].qq != users[b].qq
    requires forall a :: 0 <= a < |users| ==> CoherentFor(s.cache, env.timetables, users[a].schoolId, env.term)
    ensures var init := users[..|users| - 1];
      (forall a, b :: 0 <= a < b < |init| ==> init[a].qq != init[b].qq) &&
      (forall a :: 0 <= a < |init| ==> CoherentFor(s.cache, env.timetables, init[a].schoolId, env.term))
  {
    var init := users[..|users| - 1];
    forall a, b | 0 <= a < b < |init| ensures init[a].qq != init[b].qq {
      assert init[a] == users[a] && init[b] == users[b];
    }
    forall a | 0 <= a < |init| ensures CoherentFor(s.cache, env.timetables, init[a].schoolId, env.term) {
      assert init[a] == users[a];
    }
  }

  /** One more user restarted at the end of the list. */
  lemma RestartAllStep(s: Listener, users: seq<User>, env: Env, jitters: seq<int>)
    requires |jitters| == |users| > 0
    ensures var n := |users| - 1;
      var before := RestartAll(s, users[..n], env, jitters[..n]);
      RestartAll(s, users, env, jitters) ==
        if before.1 then Restart(before.0, users[n].qq, users[n].schoolId, env, jitters[n]) else before
  { }

  lemma FreshKeptByLastRestart(before: (Listener, bool), v: User, jv: int, u: User, env: Env, jitter: int)
    requires v.qq != u.qq
    requires before.1 ==> JobIsFresh(before.0, v, env, jv)
    ensures var after := if before.1 then Restart(before.0, u.qq, u.schoolId, env, jitter) else before;
      after.1 ==> JobIsFresh(after.0, v, env, jv)
  {
    if before.1 {
      FreshKeptByOtherRestart(before.0, v, jv, u, env, jitter);
    }
  }

  // ----- hooks, the daily distribution and the fired job -----

  /** No two users share a chat account. */
  predicate DistinctQQs(users: seq<User>)
  {
    forall a, b :: 0 <= a < b < |users| ==> users[a].qq != users[b].qq
  }

  lemma DistinctQQsCons(u: User, rest: seq<User>)
    requires DistinctQQs(rest)
    requires forall v :: v in rest ==> v.qq != u.qq
    ensures DistinctQQs([u] + rest)
  {
    var us := [u] + rest;
    forall a, b | 0 <= a < b < |us| ensures us[a].qq != us[b].qq {
      assert us[b] == rest[b - 1];
      if a > 0 {
        assert us[a] == rest[a - 1];
      } else {
        assert rest[b - 1] in rest;
      }
    }
  }

  /** Keeping the users of one school keeps accounts distinct. */
  lemma {:induction false} UsersOfSchoolDistinct(users: seq<User>, schoolId: int)
    requires DistinctQQs(users)
    ensures DistinctQQs(UsersOfSchool(users, schoolId))
    decreases |users|
  {
    if |users| > 0 {
      var tail := users[1..];
      assert DistinctQQs(tail) by {
        forall a, b | 0 <= a < b < |tail| ensures tail[a].qq != tail[b].qq {
          assert tail[a] == users[a + 1] && tail[b] == users[b + 1];
        }
      }
      UsersOfSchoolDistinct(tail, schoolId);
      if users[0].schoolId == schoolId {
        var rest := UsersOfSchool(tail, schoolId);
        forall v | v in rest ensures v.qq != users[0].qq {
          assert v in tail;
          var j :| 0 <= j < |tail| && tail[j] == v;
          assert users[j + 1] == v;
        }
        DistinctQQsCons(users[0], rest);
      }
    }
  }

  /** `onChangeSchoolTimetable`: drop the school's cached schedule, then
      restart every user of the school. */
  function OnChangeTimetableSpec(s: Listener, schoolId: int, env: Env, jitters: seq<int>): (Listener, bool)
    requires |jitters| == |UsersOfSchool(env.users, schoolId)|
  {
    RestartAll(s.(cache := DropSchool(s.cache, schoolId)), UsersOfSchool(env.users, schoolId), env, jitters)
  }

  /** After a timetable change every user of the school (the users table
      has one row per account) holds the job that arming from scratch on the
      new schedule gives, unless a restart throws. */
  lemma OnChangeTimetableRearms(s: Listener, schoolId: int, env: Env, jitters: seq<int>, i: int)
    requires DistinctQQs(env.users)
    requires |jitters| == |UsersOfSchool(env.users, schoolId)|
    requires 0 <= i < |jitters|
    ensures var r := OnChangeTimetableSpec(s, schoolId, env, jitters);
      r.1 ==> JobIsFresh(r.0, UsersOfSchool(env.users, schoolId)[i], env, jitters[i])
  {
    var us := UsersOfSchool(env.users, schoolId);
    var s0 := s.(cache := DropSchool(s.cache, schoolId));
    UsersOfSchoolDistinct(env.users, schoolId);
    DropSchoolCoherent(s.cache, env.timetables, schoolId, env.term);
    forall a | 0 <= a < |us| ensures CoherentFor(s0.cache, env.timetables, us[a].schoolId, env.term) {
      assert us[a] in us;
    }
    RestartAllFresh(s0, us, env, jitters, i);
  }

  /** A hook leaves the jobs and cached courses of users outside the school
      as they were. */
  lemma OnChangeTimetableKeepsOthers(s: Listener, schoolId: int, env: Env, jitters: seq<int>, u: User)
    requires |jitters| == |UsersOfSchool(env.users, schoolId)|
    requires u in env.users && u.schoolId != schoolId
    requires forall v :: v in env.users && v.qq == u.qq ==> v == u
    ensures var r := OnChangeTimetableSpec(s, schoolId, env, jitters).0;
      (u.qq in r.jobs <==> u.qq in s.jobs) && (u.qq in s.jobs ==> r.jobs[u.qq] == s.jobs[u.qq])
  {
    var us := UsersOfSchool(env.users, schoolId);
    forall a | 0 <= a < |us| ensures us[a].qq != u.qq {
      assert us[a] in us;
    }
    RestartAllKeepsOthers(s.(cache := DropSchool(s.cache, schoolId)), us, env, jitters, u.qq);
  }

  /** `restartUserNotification`: stop and re-arm a known user (keeping the
      cached courses); an unknown account is only logged. */
  function RestartUserSpec(s: Listener, qq: int, env: Env, jitter: int): (Listener, bool)
  {
    match FindUser(env.users, qq)
    case None => (s, true)
    case Some(u) => StartSpec(Stop(s, u.qq), u.qq, u.schoolId, None, env, jitter)
  }

  /** The fired job announces its course, removes itself and re-arms for the
      recorded next section unless it is -1. */
  function FireSpec(s: Listener, job: Job, env: Env, jitter: int): (Listener, bool)
  {
    var s1 := Stop(s, job.qq);
    if job.nextSection == -1 then (s1, true)
    else StartSpec(s1, job.qq, job.belongingSchool, Some(job.nextSection), env, jitter)
  }

  /** The day's last reminder leaves the user without a job; any other
      re-arms, if at all, for exactly the recorded section. */
  lemma FireRearmsNextSection(s: Listener, job: Job, env: Env, jitter: int)
    ensures var r := FireSpec(s, job, env, jitter);
      job.nextSection == -1 ==> job.qq !in r.0.jobs && r.1
    ensures var r := FireSpec(s, job, env, jitter);
      job.qq in r.0.jobs ==> job.nextSection != -1 && r.0.jobs[job.qq].section == job.nextSection
  {
    if job.nextSection != -1 {
      StartArmsRequestedSection(Stop(s, job.qq), job.qq, job.belongingSchool, job.nextSection, env, jitter);
    }
  }

  /** The listener's tables, updated in place by the service's functions. */
  class ScheduleListener {
    var userNotificationJobs: map<int, Job>
    var userCourses: map<int, seq<SingleCourse>>
    var cachedSchoolTimetables: seq<PeriodSchoolTimetable>

    constructor ()
      ensures Snapshot() == Listener(map[], map[], [])
    {
      userNotificationJobs := map[];
      userCourses := map[];
      cachedSchoolTimetables := [];
    }

    function Snapshot(): Listener
      reads this
    {
      Listener(userNotificationJobs, userCourses, cachedSchoolTimetables)
    }

    method GetSchoolTimetable(schoolId: int, env: Env) returns (r: Option<seq<Period>>)
      modifies this
      ensures r == LookupSchedule(old(cachedSchoolTimetables), env.timetables, schoolId, env.term)
      ensures Snapshot() == old(Snapshot()).(cache := CacheAfter(old(cachedSchoolTimetables), env.timetables, schoolId, env.term))
    {
      var hits := CacheHits(cachedSchoolTimetables, schoolId, env.term);
      if |hits| == 1 {
        return Some(hits[0].scheduledTimetable);
      } else if |hits| > 1 {
        return None;
      }
      var row := FindTimetable(env.timetables, schoolId, env.term);
      if row.None? {
        return Some([]);
      }
      r := ParseSchedule(env.timetables[row.value].scheduledTimeList);
      if r.Some? {
        cachedSchoolTimetables := cachedSchoolTimetables + [PeriodSchoolTimetable(schoolId, env.term.semester, env.term.beginYear, r.value)];
      }
    }

    method RemoveSchoolTimetable(schoolId: int)
      modifies this
      ensures Snapshot() == old(Snapshot()).(cache := DropSchool(old(cachedSchoolTimetables), schoolId))
    {
      cachedSchoolTimetables := DropSchool(cachedSchoolTimetables, schoolId);
    }

    method GetUserTodayCourses(qq: int, belongingSchool: int, inputDayOfWeek: int, env: Env) returns (r: Option<seq<SingleCourse>>)
      modifies this
      ensures r == LookupCourses(old(userCourses), qq, belongingSchool, inputDayOfWeek, env)
      ensures Snapshot() == old(Snapshot()).(userCourses := CoursesAfter(old(userCourses), qq, belongingSchool, inputDayOfWeek, env))
    {
      if qq in userCourses {
        var current := InTermCourses(userCourses[qq], env.term);
        if |current| > 0 {
          return Some(current);
        }
        r := FetchToday(env, qq, belongingSchool, inputDayOfWeek);
      } else {
        r := FetchToday(env, qq, belongingSchool, inputDayOfWeek);
        if r.Some? {
          userCourses := userCourses[qq := r.value];
        }
      }
    }

    method RemoveUserTodayCourses(qq: int)
      modifies this
      ensures Snapshot() == old(Snapshot()).(userCourses := old(userCourses) - {qq})
    {
      if qq in userCourses {
        userCourses := userCourses - {qq};
      }
    }

    /** `ok` is false where the call throws. */
    method StartUserNotificationJob(qq: int, belongingSchool: int, whichSection: Option<int>, env: Env, jitter: int) returns (ok: bool)
      modifies this
      ensures (Snapshot(), ok) == StartSpec(old(Snapshot()), qq, belongingSchool, whichSection, env, jitter)
    {
      if qq in userNotificationJobs {
        return true;
      }
      var schoolTimetable := GetSchoolTimetable(belongingSchool, env);
      if schoolTimetable.None? {
        return false;
      }
      var todayCourses := GetUserTodayCourses(qq, belongingSchool, env.dayOfWeek, env);
      if todayCourses.None? {
        return false;
      }
      var plan := PlanJob(qq, belongingSchool, whichSection, schoolTimetable.value, todayCourses.value, TipOf(env, qq), env.now, env.second, jitter);
      if plan.job.Some? {
        userNotificationJobs := userNotificationJobs[qq := plan.job.value];
      }
      ok := !plan.fault;
    }

    method StopAndRemoveUserNotificationJob(qq: int)
      modifies this
      ensures Snapshot() == Stop(old(Snapshot()), qq)
    {
      if qq in userNotificationJobs {
        userNotificationJobs := userNotificationJobs - {qq};
      }
    }

    /** The body the hooks and the distribution run for each user. */
    method RestartUser(qq: int, school: int, env: Env, jitter: int) returns (ok: bool)
      modifies this
      ensures (Snapshot(), ok) == Restart(old(Snapshot()), qq, school, env, jitter)
    {
      StopAndRemoveUserNotificationJob(qq);
      RemoveUserTodayCourses(qq);
      ok := StartUserNotificationJob(qq, school, None, env, jitter);
    }

    /** The `forEach` over users: an exception ends it. */
    method RestartUsers(users: seq<User>, env: Env, jitters: seq<int>) returns (ok: bool)
      requires |jitters| == |users|
      modifies this
      ensures (Snapshot(), ok) == RestartAll(old(Snapshot()), users, env, jitters)
    {
      ok := true;
      for i := 0 to |users|
        invariant (Snapshot(), ok) == RestartAll(old(Snapshot()), users[..i], env, jitters[..i])
      {
        assert users[..i + 1][..i] == users[..i] && jitters[..i + 1][..i] == jitters[..i];
        if ok {
          ok := RestartUser(users[i].qq, users[i].schoolId, env, jitters[i]);
        }
      }
      assert users[..|users|] == users && jitters[..|jitters|] == jitters;
    }

    method OnChangeSchoolWeekPeriod(schoolId: int, env: Env, jitters: seq<int>) returns (ok: bool)
      requires |jitters| == |UsersOfSchool(env.users, schoolId)|
      modifies this
      ensures (Snapshot(), ok) == RestartAll(old(Snapshot()), UsersOfSchool(env.users, schoolId), env, jitters)
    {
      ok := RestartUsers(UsersOfSchool(env.users, schoolId), env, jitters);
    }

    method OnChangeSchoolTimetable(schoolId: int, env: Env, jitters: seq<int>) returns (ok: bool)
      requires |jitters| == |UsersOfSchool(env.users, schoolId)|
      modifies this
      ensures (Snapshot(), ok) == OnChangeTimetableSpec(old(Snapshot()), schoolId, env, jitters)
    {
      RemoveSchoolTimetable(schoolId);
      ok := RestartUsers(UsersOfSchool(env.users, schoolId), env, jitters);
    }

    method RestartUserNotification(qq: int, env: Env, jitter: int) returns (ok: bool)
      modifies this
      ensures (Snapshot(), ok) == RestartUserSpec(old(Snapshot()), qq, env, jitter)
    {
      var user := FindUser(env.users, qq);
      if user.None? {
        return true;
      }
      StopAndRemoveUserNotificationJob(user.value.qq);
      ok := StartUserNotificationJob(user.value.qq, user.value.schoolId, None, env, jitter);
    }

    /** The distribution job run daily at 00:00:30 and once at start-up. */
    method DistributionJob(env: Env, jitters: seq<int>) returns (ok: bool)
      requires |jitters| == |env.users|
      modifies this
      ensures (Snapshot(), ok) == RestartAll(old(Snapshot()), env.users, env, jitters)
    {
      ok := RestartUsers(env.users, env, jitters);
    }

    /** `UserNotificationJob.execute`, after the message is sent. */
    method Fire(job: Job, env: Env, jitter: int) returns (ok: bool)
      modifies this
      ensures (Snapshot(), ok) == FireSpec(old(Snapshot()), job, env, jitter)
    {
      StopAndRemoveUserNotificationJob(job.qq);
      ok := true;
      if job.nextSection != -1 {
        ok := StartUserNotificationJob(job.qq, job.belongingSchool, Some(job.nextSection), env, jitter);
      }
    }
  }
}
