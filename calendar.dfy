/** The newer `TimeProviderService`: the current semester, the year the
    current term began in, and each school's current teaching week inferred
    from its timetable row's anchor (a date and the week number of that date).
    Today's date is a parameter wherever the source reads the clock. */
module Calendar {
  import opened Wrappers
  import opened Dates
  import opened Store

  /** The `when` of `SemesterUpdater`: spring (2) from 15 February to the end
      of August, autumn (1) otherwise. */
  function Semester(today: Date): (s: int)
    ensures s == 1 || s == 2
  {
    if 3 <= today.month <= 8 then 2
    else if 9 <= today.month <= 12 then 1
    else if today.month == 1 then 1
    else if today.month == 2 then (if today.day < 15 then 1 else 2)
    else 1
  }

  /** Spring runs from 15 February to the end of August; every other day,
      and a month out of range, is autumn. */
  lemma SemesterSeasons(today: Date)
    ensures Semester(today) == 2 <==> (today.month == 2 && today.day >= 15) || 3 <= today.month <= 8
    ensures Semester(today) == 1 <==> !((today.month == 2 && today.day >= 15) || 3 <= today.month <= 8)
  {
  }

  /** `currentSemesterBeginYear` for a stored semester. */
  function SemesterBeginYear(semester: int, today: Date): (y: int)
    ensures y == today.year || y == today.year - 1
    ensures semester == 2 ==> y == today.year - 1
    ensures semester != 2 ==> (y == today.year <==> today.month >= 7)
  {
    if semester == 2 then today.year - 1
    else if today.month < 7 then today.year - 1
    else today.year
  }

  /** The academic year runs from September: with the semester up to date,
      the term's begin year is the year of the last September. */
  lemma BeginYearIsAcademicYear(today: Date)
    ensures SemesterBeginYear(Semester(today), today) == if today.month >= 9 then today.year else today.year - 1
  {
  }

  /** The spring term begins in the year before it is taught in. */
  lemma SpringBelongsToPreviousYear(today: Date)
    requires Semester(today) == 2
    ensures 2 <= today.month <= 8
    ensures SemesterBeginYear(2, today) == today.year - 1
  {
  }

  // ----- weeks -----

  /** The week offset for `dayAddedBasedWeek` = d, the anchor's weekday plus
      the days since the anchor: 0 up to 7, else the integer quotient d / 7
      (the `ceil` of the source is applied to a quotient that is already an
      integer). */
  function WeekOffset(d: int): (o: int)
    ensures o >= 0
    ensures d <= 7 ==> o == 0
    ensures d > 7 ==> o >= 1 && 7 * o <= d < 7 * o + 7
  {
    if d <= 7 then 0 else d / 7
  }

  /** `dayAddedBasedWeek` for a row on the day with epoch day `e`. */
  function AnchorSum(row: Timetable, e: int): int
  {
    DayOfWeek(EpochDay(row.timeStampWhenAdd)) + (e - EpochDay(row.timeStampWhenAdd))
  }

  /** The week number a row gives for the day with epoch day `e`. */
  function WeekOnDay(row: Timetable, e: int): int
  {
    row.weekPeriodWhenAdd + WeekOffset(AnchorSum(row, e))
  }

  function WeekAt(row: Timetable, today: Date): int
  {
    WeekOnDay(row, EpochDay(today))
  }

  /** On the anchor date the week is the anchor's week. */
  lemma WeekOnAnchorDate(row: Timetable)
    ensures WeekAt(row, row.timeStampWhenAdd) == row.weekPeriodWhenAdd
  {
  }

  /** With the anchor fixed the week never goes back as days pass. */
  lemma WeekMonotone(row: Timetable, e1: int, e2: int)
    requires e1 <= e2
    ensures WeekOnDay(row, e1) <= WeekOnDay(row, e2)
  {
    var d1, d2 := AnchorSum(row, e1), AnchorSum(row, e2);
    assert d1 <= d2;
    if d1 > 7 {
      var o1, o2 := WeekOffset(d1), WeekOffset(d2);
      assert 7 * o1 < 7 * o2 + 7;
    }
  }

  /** The sum tracks today's weekday: it is a multiple of 7 exactly on
      Sundays. */
  lemma AnchorSumWeekday(row: Timetable, e: int)
    ensures AnchorSum(row, e) % 7 == DayOfWeek(e) % 7
  {
    var a := EpochDay(row.timeStampWhenAdd);
    var da, dt := DayOfWeek(a), DayOfWeek(e);
    assert (da - 4 - a) % 7 == 0 && (dt - 4 - e) % 7 == 0;
    var s := da + (e - a);
    assert s - dt == (da - 4 - a) - (dt - 4 - e);
    assert (s - dt) % 7 == 0;
  }

  /** After the anchor's first week the number changes between Saturday and
      Sunday, not between Sunday and Monday: a Sunday already carries the
      number of the Monday that follows it. */
  lemma SundayCountsAsNextWeek(row: Timetable, e: int)
    requires DayOfWeek(e) == 7
    requires AnchorSum(row, e) > 7
    ensures WeekOnDay(row, e) == WeekOnDay(row, e + 1)
    ensures WeekOnDay(row, e - 1) == WeekOnDay(row, e) - 1
  {
    AnchorSumWeekday(row, e);
    var d := AnchorSum(row, e);
    assert d % 7 == 0;
    assert AnchorSum(row, e + 1) == d + 1 && AnchorSum(row, e - 1) == d - 1;
    var k := d / 7;
    assert d == 7 * k;
    assert (d + 1) / 7 == k;
    if d - 1 > 7 {
      assert (d - 1) / 7 == k - 1;
    } else {
      assert d == 14 || d == 7 || d == 8;
    }
  }

  /** The last row of a school in table order, the one whose write survives
      the updater's loop. */
  function LastOfSchool(rows: seq<Timetable>, schoolId: int): (r: Option<Timetable>)
    ensures r.None? <==> forall i :: 0 <= i < |rows| ==> rows[i].schoolId != schoolId
    ensures r.Some? ==> r.value in rows && r.value.schoolId == schoolId
  {
    if |rows| == 0 then None
    else if rows[|rows| - 1].schoolId == schoolId then Some(rows[|rows| - 1])
    else LastOfSchool(rows[..|rows| - 1], schoolId)
  }

  /** The week map after the updater's loop has visited `rows` in order:
      every school of the rows is (re)written with its last row's week, the
      other entries stay. */
  function RecomputeWeeks(weeks: map<int, int>, rows: seq<Timetable>, today: Date): (r: map<int, int>)
    ensures forall k :: k in r <==> k in weeks || LastOfSchool(rows, k).Some?
    ensures forall k :: k in r && LastOfSchool(rows, k).Some? ==> r[k] == WeekAt(LastOfSchool(rows, k).value, today)
    ensures forall k :: k in weeks && LastOfSchool(rows, k).None? ==> r[k] == weeks[k]
  {
    if |rows| == 0 then weeks
    else
      var row := rows[|rows| - 1];
      assert forall k :: k != row.schoolId ==> LastOfSchool(rows, k) == LastOfSchool(rows[..|rows| - 1], k);
      RecomputeWeeks(weeks, rows[..|rows| - 1], today)[row.schoolId := WeekAt(row, today)]
  }

  /** One more row visited: its school's entry is replaced. */
  lemma RecomputeStep(weeks: map<int, int>, rows: seq<Timetable>, row: Timetable, today: Date)
    ensures RecomputeWeeks(weeks, rows + [row], today) == RecomputeWeeks(weeks, rows, today)[row.schoolId := WeekAt(row, today)]
  {
    var rs := rows + [row];
    assert rs[..|rs| - 1] == rows && rs[|rs| - 1] == row;
  }

  /** One more row of the loop, by index. */
  lemma RecomputeStepAt(weeks: map<int, int>, rows: seq<Timetable>, i: int, today: Date)
    requires 0 <= i < |rows|
    ensures RecomputeWeeks(weeks, rows[..i + 1], today) == RecomputeWeeks(weeks, rows[..i], today)[rows[i].schoolId := WeekAt(rows[i], today)]
  {
    assert rows[..i + 1] == rows[..i] + [rows[i]];
    RecomputeStep(weeks, rows[..i], rows[i], today);
  }

  /** Removing a key before storing it changes nothing. */
  lemma RemoveThenSet(m: map<int, int>, k: int, v: int)
    ensures (if k in m then m - {k} else m)[k := v] == m[k := v]
  {
  }

  /** The rows of the current term, the `find` of the newer updater. */
  function TermRows(rows: seq<Timetable>, term: Term): (r: seq<Timetable>)
    ensures forall t :: t in r <==> t in rows && InTerm(t, term)
  {
    if |rows| == 0 then []
    else if InTerm(rows[0], term) then [rows[0]] + TermRows(rows[1..], term)
    else TermRows(rows[1..], term)
  }

  /** Only schools with a row of the current term are touched. */
  lemma RecomputeLeavesOtherSchools(weeks: map<int, int>, rows: seq<Timetable>, term: Term, today: Date, k: int)
    requires forall t :: t in rows && InTerm(t, term) ==> t.schoolId != k
    ensures var r := RecomputeWeeks(weeks, TermRows(rows, term), today);
      (k in r <==> k in weeks) && (k in weeks ==> r[k] == weeks[k])
  {
    var tr := TermRows(rows, term);
    assert forall i :: 0 <= i < |tr| ==> tr[i] in tr;
  }

  /** A school with a single current-term row gets that row's week. */
  lemma RecomputeSingleRow(weeks: map<int, int>, rows: seq<Timetable>, term: Term, today: Date, row: Timetable)
    requires row in rows && InTerm(row, term)
    requires forall t :: t in rows && InTerm(t, term) && t.schoolId == row.schoolId ==> t == row
    ensures var r := RecomputeWeeks(weeks, TermRows(rows, term), today);
      row.schoolId in r && r[row.schoolId] == WeekAt(row, today)
  {
    var tr := TermRows(rows, term);
    assert row in tr;
    var i :| 0 <= i < |tr| && tr[i] == row;
    assert LastOfSchool(tr, row.schoolId).Some?;
  }

  // ----- the service object -----

  class TimeProvider {
    /** 1 autumn, 2 spring; 0 until the first update. */
    var currentSemester: int
    /** School id to current teaching week. */
    var currentWeekPeriod: map<int, int>

    constructor ()
      ensures currentSemester == 0 && currentWeekPeriod == map[]
    {
      currentSemester := 0;
      currentWeekPeriod := map[];
    }

    function CurrentSemesterBeginYear(today: Date): int
      reads this
    {
      SemesterBeginYear(currentSemester, today)
    }

    function CurrentTerm(today: Date): Term
      reads this
    {
      Term(CurrentSemesterBeginYear(today), currentSemester)
    }

    method SemesterUpdater(today: Date)
      modifies this
      ensures currentSemester == Semester(today)
      ensures currentWeekPeriod == old(currentWeekPeriod)
    {
      currentSemester := Semester(today);
    }

    /** Recompute the week of every school with a current-term row, in
        table order; a later row of the same school overwrites an earlier
        one. */
    method SchoolWeekPeriodUpdater(rows: seq<Timetable>, today: Date)
      modifies this
      ensures currentSemester == old(currentSemester)
      ensures currentWeekPeriod == RecomputeWeeks(old(currentWeekPeriod), TermRows(rows, CurrentTerm(today)), today)
    {
      var timetables := TermRows(rows, CurrentTerm(today));
      for i := 0 to |timetables|
        invariant currentSemester == old(currentSemester)
        invariant currentWeekPeriod == RecomputeWeeks(old(currentWeekPeriod), timetables[..i], today)
      {
        var ttb := timetables[i];
        var addTime := ttb.timeStampWhenAdd;
        var dayAddedBasedWeek := DayOfWeek(EpochDay(addTime)) + (EpochDay(today) - EpochDay(addTime));
        var result := if dayAddedBasedWeek <= 7 then 0 else dayAddedBasedWeek / 7;
        assert ttb.weekPeriodWhenAdd + result == WeekAt(ttb, today);
        ghost var before := currentWeekPeriod;
        if ttb.schoolId in currentWeekPeriod {
          currentWeekPeriod := currentWeekPeriod - {ttb.schoolId};
        }
        ghost var removed := currentWeekPeriod;
        assert removed == (if ttb.schoolId in before then before - {ttb.schoolId} else before);
        currentWeekPeriod := currentWeekPeriod[ttb.schoolId := ttb.weekPeriodWhenAdd + result];
        assert currentWeekPeriod == removed[ttb.schoolId := WeekAt(ttb, today)];
        RemoveThenSet(before, ttb.schoolId, WeekAt(ttb, today));
        RecomputeStepAt(old(currentWeekPeriod), timetables, i, today);
      }
      assert timetables[..|timetables|] == timetables;
    }

    /** The same recomputation, run synchronously by the request handlers. */
    method ImmediateUpdateSchoolWeekPeriod(rows: seq<Timetable>, today: Date)
      modifies this
      ensures currentSemester == old(currentSemester)
      ensures currentWeekPeriod == RecomputeWeeks(old(currentWeekPeriod), TermRows(rows, CurrentTerm(today)), today)
    {
      SchoolWeekPeriodUpdater(rows, today);
    }
  }

  // ----- the semester timer -----

  /** Month and day as one number, for comparing dates within a year. */
  function MonthDay(d: Date): int
  {
    d.month * 100 + d.day
  }

  /** The days matched by the updater's cron "10 0 0 15 2,8 ? *":
      15 February and 15 August. */
  predicate SemesterCronDay(d: Date)
  {
    d.day == 15 && (d.month == 2 || d.month == 8)
  }

  /** The last such day on or before `d`. */
  function LastSemesterCronDay(d: Date): (r: Date)
    ensures SemesterCronDay(r)
  {
    if MonthDay(d) >= 815 then Date(d.year, 8, 15)
    else if MonthDay(d) >= 215 then Date(d.year, 2, 15)
    else Date(d.year - 1, 8, 15)
  }

  /** Both scheduled runs fall in spring, so the timer only ever writes 2. */
  lemma SemesterTimerWritesOnlySpring(d: Date)
    requires SemesterCronDay(d)
    ensures Semester(d) == 2
  {
  }

  /** On 1 September the semester turns to autumn, but the value the timer
      last wrote (on 15 August) is still spring. */
  lemma SemesterTimerMissesAutumn()
    ensures Semester(Date(2024, 9, 1)) == 1
    ensures Semester(LastSemesterCronDay(Date(2024, 9, 1))) == 2
  {
  }

  /** The days on which the rule actually changes its value: 15 February and
      1 September. */
  predicate CorrectedSemesterCronDay(d: Date)
  {
    (d.month == 2 && d.day == 15) || (d.month == 9 && d.day == 1)
  }

  function LastCorrectedSemesterCronDay(d: Date): (r: Date)
    ensures CorrectedSemesterCronDay(r)
    ensures r.year == d.year || r.year == d.year - 1
  {
    if MonthDay(d) >= 901 then Date(d.year, 9, 1)
    else if MonthDay(d) >= 215 then Date(d.year, 2, 15)
    else Date(d.year - 1, 9, 1)
  }

  /** With runs on the corrected days the stored semester, the value written
      at the last run, is always today's semester. */
  lemma CorrectedTimerKeepsSemester(d: Date)
    requires 1 <= d.month <= 12 && 1 <= d.day <= 31
    ensures Semester(LastCorrectedSemesterCronDay(d)) == Semester(d)
  {
  }

  /** The semester timer as scheduled: the update runs on the days of
      "10 0 0 15 2,8 ? *", and on each of them writes spring. */
  method SemesterTimer(tp: TimeProvider, today: Date)
    modifies tp
    ensures SemesterCronDay(today) ==> tp.currentSemester == Semester(today) == 2
    ensures !SemesterCronDay(today) ==> tp.currentSemester == old(tp.currentSemester)
    ensures tp.currentWeekPeriod == old(tp.currentWeekPeriod)
  {
    if SemesterCronDay(today) {
      SemesterTimerWritesOnlySpring(today);
      tp.SemesterUpdater(today);
    }
  }

  /** The corrected timer: the update runs on the days the rule changes. */
  method CorrectedSemesterTimer(tp: TimeProvider, today: Date)
    modifies tp
    ensures CorrectedSemesterCronDay(today) ==> tp.currentSemester == Semester(today)
    ensures !CorrectedSemesterCronDay(today) ==> tp.currentSemester == old(tp.currentSemester)
    ensures tp.currentWeekPeriod == old(tp.currentWeekPeriod)
  {
    if CorrectedSemesterCronDay(today) {
      tp.SemesterUpdater(today);
    }
  }
}
