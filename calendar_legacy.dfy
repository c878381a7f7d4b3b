/** The older `TimeProviderService`: the current calendar year is a field of
    its own, spring is March to July, and the week updater visits every
    timetable row whatever its term. The week arithmetic is the newer
    revision's, shared through `Calendar`. */
module CalendarLegacy {
  import opened Dates
  import opened Store
  import Calendar

  /** `if (monthValue in 3..7) 2 else 1`. */
  function LegacySemester(today: Date): (s: int)
    ensures s == 1 || s == 2
    ensures s == 2 <==> 3 <= today.month <= 7
  {
    if 3 <= today.month <= 7 then 2 else 1
  }

  /** `currentSemesterBeginYear`: the stored year, less one from January to
      August. */
  function LegacyBeginYear(currentYear: int, today: Date): (y: int)
    ensures 1 <= today.month <= 8 ==> y == currentYear - 1
    ensures !(1 <= today.month <= 8) ==> y == currentYear
  {
    if 1 <= today.month <= 8 then currentYear - 1 else currentYear
  }

  /** The two revisions disagree on the semester exactly from 15 February to
      the end of February and in August. */
  lemma SemesterRulesDiffer(today: Date)
    requires 1 <= today.month <= 12
    ensures Calendar.Semester(today) != LegacySemester(today) <==>
      (today.month == 2 && today.day >= 15) || today.month == 8
  {
  }

  /** With the year up to date both revisions start the academic year in
      September (in the older one only the month decides; in the newer one
      the up-to-date semester does). */
  lemma BeginYearsAgree(today: Date)
    requires 1 <= today.month <= 12
    ensures LegacyBeginYear(today.year, today) ==
      Calendar.SemesterBeginYear(Calendar.Semester(today), today)
  {
    Calendar.BeginYearIsAcademicYear(today);
  }

  class LegacyTimeProvider {
    var currentYear: int
    var currentSemester: int
    var currentWeekPeriod: map<int, int>

    constructor ()
      ensures currentYear == 0 && currentSemester == 0 && currentWeekPeriod == map[]
    {
      currentYear := 0;
      currentSemester := 0;
      currentWeekPeriod := map[];
    }

    function CurrentSemesterBeginYear(today: Date): int
      reads this
    {
      LegacyBeginYear(currentYear, today)
    }

    function CurrentTerm(today: Date): Term
      reads this
    {
      Term(CurrentSemesterBeginYear(today), currentSemester)
    }

    method YearUpdater(today: Date)
      modifies this
      ensures currentYear == today.year
      ensures currentSemester == old(currentSemester) && currentWeekPeriod == old(currentWeekPeriod)
    {
      currentYear := today.year;
    }

    method SemesterUpdater(today: Date)
      modifies this
      ensures currentSemester == LegacySemester(today)
      ensures currentYear == old(currentYear) && currentWeekPeriod == old(currentWeekPeriod)
    {
      currentSemester := LegacySemester(today);
    }

    /** Every row, of any term, rewrites its school's week; the last row of
        a school wins. */
    method SchoolWeekPeriodUpdater(rows: seq<Timetable>, today: Date)
      modifies this
      ensures currentYear == old(currentYear) && currentSemester == old(currentSemester)
      ensures currentWeekPeriod == Calendar.RecomputeWeeks(old(currentWeekPeriod), rows, today)
    {
      for i := 0 to |rows|
        invariant currentYear == old(currentYear) && currentSemester == old(currentSemester)
        invariant currentWeekPeriod == Calendar.RecomputeWeeks(old(currentWeekPeriod), rows[..i], today)
      {
        var ttb := rows[i];
        var addTime := ttb.timeStampWhenAdd;
        var dayAddedBasedWeek := DayOfWeek(EpochDay(addTime)) + (EpochDay(today) - EpochDay(addTime));
        var result := if dayAddedBasedWeek <= 7 then 0 else dayAddedBasedWeek / 7;
        assert ttb.weekPeriodWhenAdd + result == Calendar.WeekAt(ttb, today);
        ghost var before := currentWeekPeriod;
        if ttb.schoolId in currentWeekPeriod {
          currentWeekPeriod := currentWeekPeriod - {ttb.schoolId};
        }
        ghost var removed := currentWeekPeriod;
        assert removed == (if ttb.schoolId in before then before - {ttb.schoolId} else before);
        currentWeekPeriod := currentWeekPeriod[ttb.schoolId := ttb.weekPeriodWhenAdd + result];
        assert currentWeekPeriod == removed[ttb.schoolId := Calendar.WeekAt(ttb, today)];
        Calendar.RemoveThenSet(before, ttb.schoolId, Calendar.WeekAt(ttb, today));
        Calendar.RecomputeStepAt(old(currentWeekPeriod), rows, i, today);
      }
      assert rows[..|rows|] == rows;
    }

    method ImmediateUpdateSchoolWeekPeriod(rows: seq<Timetable>, today: Date)
      modifies this
      ensures currentYear == old(currentYear) && currentSemester == old(currentSemester)
      ensures currentWeekPeriod == Calendar.RecomputeWeeks(old(currentWeekPeriod), rows, today)
    {
      SchoolWeekPeriodUpdater(rows, today);
    }
  }

  /** A school whose rows all give the same week gets that week, whatever
      their terms: in particular a single row on its own anchor date gives the
      anchor week. */
  lemma SingleRowOnAnchorDate(weeks: map<int, int>, rows: seq<Timetable>, row: Timetable)
    requires row in rows
    requires forall t :: t in rows && t.schoolId == row.schoolId ==> t == row
    ensures var r := Calendar.RecomputeWeeks(weeks, rows, row.timeStampWhenAdd);
      row.schoolId in r && r[row.schoolId] == row.weekPeriodWhenAdd
  {
    var i :| 0 <= i < |rows| && rows[i] == row;
    assert Calendar.LastOfSchool(rows, row.schoolId).Some?;
    Calendar.WeekOnAnchorDate(row);
  }

  // ----- the semester timer -----

  /** The older rule also runs only on 15 February and 15 August, both
      outside March to July: the timer only ever writes autumn. */
  lemma LegacySemesterTimerWritesOnlyAutumn(d: Date)
    requires Calendar.SemesterCronDay(d)
    ensures LegacySemester(d) == 1
  {
  }

  /** On 1 March the older rule turns to spring, but the value the timer last
      wrote (on 15 February) is still autumn. */
  lemma LegacySemesterTimerMissesSpring()
    ensures LegacySemester(Date(2024, 3, 1)) == 2
    ensures LegacySemester(Calendar.LastSemesterCronDay(Date(2024, 3, 1))) == 1
  {
  }

  /** The days on which the older rule changes value: 1 March and 1 August. */
  predicate CorrectedLegacyCronDay(d: Date)
  {
    d.day == 1 && (d.month == 3 || d.month == 8)
  }

  function LastCorrectedLegacyCronDay(d: Date): (r: Date)
    ensures CorrectedLegacyCronDay(r)
  {
    if Calendar.MonthDay(d) >= 801 then Date(d.year, 8, 1)
    else if Calendar.MonthDay(d) >= 301 then Date(d.year, 3, 1)
    else Date(d.year - 1, 8, 1)
  }

  lemma CorrectedLegacyTimerKeepsSemester(d: Date)
    requires 1 <= d.month <= 12 && 1 <= d.day <= 31
    ensures LegacySemester(LastCorrectedLegacyCronDay(d)) == LegacySemester(d)
  {
  }

  /** The year timer's cron "10 0 0 1 1 ? *" runs on 1 January, the day the
      calendar year changes. */
  method YearTimer(tp: LegacyTimeProvider, today: Date)
    modifies tp
    ensures today.month == 1 && today.day == 1 ==> tp.currentYear == today.year
    ensures !(today.month == 1 && today.day == 1) ==> tp.currentYear == old(tp.currentYear)
    ensures tp.currentSemester == old(tp.currentSemester) && tp.currentWeekPeriod == old(tp.currentWeekPeriod)
  {
    if today.month == 1 && today.day == 1 {
      tp.YearUpdater(today);
    }
  }

  /** The older semester timer as scheduled: the update runs on the days of
      "10 0 0 15 2,8 ? *", and on each of them writes autumn. */
  method LegacySemesterTimer(tp: LegacyTimeProvider, today: Date)
    modifies tp
    ensures Calendar.SemesterCronDay(today) ==> tp.currentSemester == LegacySemester(today) == 1
    ensures !Calendar.SemesterCronDay(today) ==> tp.currentSemester == old(tp.currentSemester)
    ensures tp.currentYear == old(tp.currentYear) && tp.currentWeekPeriod == old(tp.currentWeekPeriod)
  {
    if Calendar.SemesterCronDay(today) {
      LegacySemesterTimerWritesOnlyAutumn(today);
      tp.SemesterUpdater(today);
    }
  }

  /** The corrected older timer: the update runs on the days the older rule
      changes. */
  method CorrectedLegacySemesterTimer(tp: LegacyTimeProvider, today: Date)
    modifies tp
    ensures CorrectedLegacyCronDay(today) ==> tp.currentSemester == LegacySemester(today)
    ensures !CorrectedLegacyCronDay(today) ==> tp.currentSemester == old(tp.currentSemester)
    ensures tp.currentYear == old(tp.currentYear) && tp.currentWeekPeriod == old(tp.currentWeekPeriod)
  {
    if CorrectedLegacyCronDay(today) {
      tp.SemesterUpdater(today);
    }
  }
}
