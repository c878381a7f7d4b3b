/** Which of a user's course rows make up a day: the newer `queryFromDatabase`
    of the course query, the older `getCourseFromDatabase` of the
    notification scheduler, the chat words for days, and the "H:MM" rendering
    of a time of day. */
module Courses {
  import opened Wrappers
  import opened Text
  import opened Store
  import opened Sorting
  import BellSchedule

  /** One course of a day, as the scheduler and the query keep it. */
  datatype SingleCourse = SingleCourse(
    startSection: int,
    endSection: int,
    courseName: string,
    teacherName: string,
    locale: string,
    semester: int,
    beginYear: int)

  function StartOf(c: SingleCourse): int { c.startSection }

  function SectionStartOf(c: Course): int { c.sectionStart }

  /** A course row seen as a course of the given term. */
  function ToSingle(c: Course, term: Term): SingleCourse
  {
    SingleCourse(c.sectionStart, c.sectionEnd, c.courseName, c.teacherName, c.locale, term.semester, term.beginYear)
  }

  /** `map { it.toInt() }`: `None` when any token is not a number. */
  function ParseAll(tokens: seq<string>): (r: Option<seq<int>>)
    ensures r.Some? <==> forall i :: 0 <= i < |tokens| ==> ParseInt(tokens[i]).Some?
    ensures r.Some? ==> |r.value| == |tokens|
    ensures r.Some? ==> forall i :: 0 <= i < |tokens| ==> ParseInt(tokens[i]) == Some(r.value[i])
  {
    if |tokens| == 0 then Some([])
    else match ParseInt(tokens[0])
      case None => None
      case Some(w) =>
        match ParseAll(tokens[1..])
        case None => None
        case Some(rest) => Some([w] + rest)
  }

  /** The teaching weeks of a row: its `weekPeriod` split on spaces. */
  function ParseWeeks(weekPeriod: string): Option<seq<int>>
  {
    ParseAll(Split(weekPeriod, ' '))
  }

  /** The rows of a term on a weekday, in table order (the SQL `select`). */
  function SelectDay(courses: seq<Course>, term: Term, weekday: int): (r: seq<Course>)
    ensures forall c :: c in r <==> c in courses && CourseInTerm(c, term) && c.whichDayOfWeek == weekday
  {
    if |courses| == 0 then []
    else if CourseInTerm(courses[0], term) && courses[0].whichDayOfWeek == weekday then
      [courses[0]] + SelectDay(courses[1..], term, weekday)
    else SelectDay(courses[1..], term, weekday)
  }

  // ----- the course query of the newer revision -----

  /** The weekday and week a day argument selects. */
  datatype DaySelector = DaySelector(weekday: int, nextWeek: int)

  /** A day above 7 means that weekday (mod 7) of the next week. */
  function QuerySelector(inputDayOfWeek: int): (d: DaySelector)
    ensures d.nextWeek == 0 || d.nextWeek == 1
  {
    if inputDayOfWeek > 7 then DaySelector(inputDayOfWeek % 7, 1) else DaySelector(inputDayOfWeek, 0)
  }

  /** The week the query looks for: the school's current week, or -1 when it
      has none, plus one for the next week (in 32-bit arithmetic). */
  function TargetWeek(weeks: map<int, int>, schoolId: int, nextWeek: int): int
  {
    Wrap32((if schoolId in weeks then weeks[schoolId] else -1) + nextWeek)
  }

  /** `filter { weeks.contains(target) }`, where every row's week list is
      parsed: `None` when any row's list does not parse. */
  function WeekFilter(rows: seq<Course>, target: int): (r: Option<seq<Course>>)
    ensures r.None? <==> exists i :: 0 <= i < |rows| && ParseWeeks(rows[i].weekPeriod).None?
    ensures r.Some? ==> forall c :: c in r.value <==> c in rows && target in ParseWeeks(c.weekPeriod).value
  {
    if |rows| == 0 then Some([])
    else match ParseWeeks(rows[0].weekPeriod)
      case None => None
      case Some(ws) =>
        match WeekFilter(rows[1..], target)
        case None =>
          var i :| 0 <= i < |rows[1..]| && ParseWeeks(rows[1..][i].weekPeriod).None?;
          assert ParseWeeks(rows[i + 1].weekPeriod).None?;
          None
        case Some(rest) =>
          assert forall c :: c in rows <==> c == rows[0] || c in rows[1..];
          Some((if target in ws then [rows[0]] else []) + rest)
  }

  function MapSingle(rows: seq<Course>, term: Term): (r: seq<SingleCourse>)
    ensures |r| == |rows|
    ensures forall i :: 0 <= i < |rows| ==> r[i] == ToSingle(rows[i], term)
  {
    if |rows| == 0 then [] else [ToSingle(rows[0], term)] + MapSingle(rows[1..], term)
  }

  /** `queryFromDatabase`: select the term's rows of the weekday, keep those
      whose week list holds the target week, sort by start section, and tag
      each with the current term. `None` where a week list makes `toInt`
      throw. */
  function QueryFromDatabase(courses: seq<Course>, term: Term, weeks: map<int, int>, schoolId: int, inputDayOfWeek: int): Option<seq<SingleCourse>>
  {
    match QueryRows(courses, term, weeks, schoolId, inputDayOfWeek)
    case None => None
    case Some(kept) => Some(MapSingle(SortBy(kept, SectionStartOf), term))
  }

  /** The rows a query keeps. */
  predicate QueryMatches(c: Course, term: Term, weeks: map<int, int>, schoolId: int, inputDayOfWeek: int)
  {
    var sel := QuerySelector(inputDayOfWeek);
    CourseInTerm(c, term) && c.whichDayOfWeek == sel.weekday &&
    ParseWeeks(c.weekPeriod).Some? && TargetWeek(weeks, schoolId, sel.nextWeek) in ParseWeeks(c.weekPeriod).value
  }

  lemma MapSingleSorted(rows: seq<Course>, term: Term)
    requires SortedBy(rows, SectionStartOf)
    ensures SortedBy(MapSingle(rows, term), StartOf)
  {
  }

  lemma MapSingleMembers(rows: seq<Course>, term: Term)
    ensures forall c :: c in rows ==> ToSingle(c, term) in MapSingle(rows, term)
    ensures forall sc :: sc in MapSingle(rows, term) ==> exists c :: c in rows && ToSingle(c, term) == sc
  {
    var r := MapSingle(rows, term);
    forall c | c in rows ensures ToSingle(c, term) in r {
      var i :| 0 <= i < |rows| && rows[i] == c;
      assert r[i] == ToSingle(c, term);
    }
    forall sc | sc in r ensures exists c :: c in rows && ToSingle(c, term) == sc {
      var i :| 0 <= i < |r| && r[i] == sc;
      assert rows[i] in rows;
    }
  }

  /** The rows the query keeps before sorting. */
  function QueryRows(courses: seq<Course>, term: Term, weeks: map<int, int>, schoolId: int, inputDayOfWeek: int): Option<seq<Course>>
  {
    var sel := QuerySelector(inputDayOfWeek);
    WeekFilter(SelectDay(courses, term, sel.weekday), TargetWeek(weeks, schoolId, sel.nextWeek))
  }

  /** The query throws exactly when a selected row's week list does not
      parse. */
  lemma QueryFails(courses: seq<Course>, term: Term, weeks: map<int, int>, schoolId: int, inputDayOfWeek: int)
    ensures var sel := QuerySelector(inputDayOfWeek);
      QueryFromDatabase(courses, term, weeks, schoolId, inputDayOfWeek).None? <==>
      exists c :: c in courses && CourseInTerm(c, term) && c.whichDayOfWeek == sel.weekday && ParseWeeks(c.weekPeriod).None?
  {
    var sel := QuerySelector(inputDayOfWeek);
    var selected := SelectDay(courses, term, sel.weekday);
    if QueryRows(courses, term, weeks, schoolId, inputDayOfWeek).None? {
      var i :| 0 <= i < |selected| && ParseWeeks(selected[i].weekPeriod).None?;
      assert selected[i] in selected;
    } else {
      forall c | c in selected ensures ParseWeeks(c.weekPeriod).Some? {
        var i :| 0 <= i < |selected| && selected[i] == c;
      }
    }
  }

  /** When the query answers, the courses are ordered by start section and
      carry the current term. */
  lemma QuerySortedInTerm(courses: seq<Course>, term: Term, weeks: map<int, int>, schoolId: int, inputDayOfWeek: int)
    ensures var r := QueryFromDatabase(courses, term, weeks, schoolId, inputDayOfWeek);
      r.Some? ==> SortedBy(r.value, StartOf)
    ensures var r := QueryFromDatabase(courses, term, weeks, schoolId, inputDayOfWeek);
      r.Some? ==> forall sc :: sc in r.value ==> sc.semester == term.semester && sc.beginYear == term.beginYear
  {
    var kept := QueryRows(courses, term, weeks, schoolId, inputDayOfWeek);
    if kept.Some? {
      SortByCorrect(kept.value, SectionStartOf);
      MapSingleSorted(SortBy(kept.value, SectionStartOf), term);
      MapSingleMembers(SortBy(kept.value, SectionStartOf), term);
    }
  }

  /** When the query answers, it holds a course for every row of the term
      and weekday whose week list holds the target week, and nothing else. */
  lemma QueryMembers(courses: seq<Course>, term: Term, weeks: map<int, int>, schoolId: int, inputDayOfWeek: int)
    ensures var r := QueryFromDatabase(courses, term, weeks, schoolId, inputDayOfWeek);
      r.Some? ==> forall c :: c in courses && QueryMatches(c, term, weeks, schoolId, inputDayOfWeek) ==> ToSingle(c, term) in r.value
    ensures var r := QueryFromDatabase(courses, term, weeks, schoolId, inputDayOfWeek);
      r.Some? ==> forall sc :: sc in r.value ==> exists c :: c in courses && QueryMatches(c, term, weeks, schoolId, inputDayOfWeek) && ToSingle(c, term) == sc
  {
    var kept := QueryRows(courses, term, weeks, schoolId, inputDayOfWeek);
    if kept.Some? {
      var sorted := SortBy(kept.value, SectionStartOf);
      SortByMembers(kept.value, SectionStartOf);
      MapSingleMembers(sorted, term);
      assert forall c :: c in sorted <==> c in courses && QueryMatches(c, term, weeks, schoolId, inputDayOfWeek);
    }
  }

  /** With no known week, and for the current week, the query looks for week
      -1, which no row lists in practice. */
  lemma QueryUnknownSchool(weeks: map<int, int>, schoolId: int, inputDayOfWeek: int)
    requires schoolId !in weeks && inputDayOfWeek <= 7
    ensures TargetWeek(weeks, schoolId, QuerySelector(inputDayOfWeek).nextWeek) == -1
  {
  }

  // ----- the today-courses fetch of the older scheduler -----

  /** The token loop over one row: a copy of the course for every token equal
      to the school's week plus `isNextWeek`. `None` where `toInt` throws or
      where `currentWeekPeriod[school]!!` finds no entry. */
  function TokenMatches(row: Course, tokens: seq<string>, weeks: map<int, int>, schoolId: int, isNextWeek: int, term: Term): (r: Option<seq<SingleCourse>>)
    ensures r.Some? ==> forall sc :: sc in r.value ==> sc == ToSingle(row, term)
    ensures r.Some? && schoolId in weeks && Some(Wrap32(weeks[schoolId] + isNextWeek)) in Seq2Set(tokens) ==> ToSingle(row, term) in r.value
  {
    if |tokens| == 0 then Some([])
    else match ParseInt(tokens[0])
      case None => None
      case Some(w) =>
        if schoolId !in weeks then None
        else match TokenMatches(row, tokens[1..], weeks, schoolId, isNextWeek, term)
          case None => None
          case Some(rest) =>
            assert Seq2Set(tokens) == {ParseInt(tokens[0])} + Seq2Set(tokens[1..]);
            Some((if w == Wrap32(weeks[schoolId] + isNextWeek) then [ToSingle(row, term)] else []) + rest)
  }

  /** A row's token loop throws exactly when the row has a token and either
      the school has no known week or some token is not a number. */
  lemma {:induction false} TokenMatchesFails(row: Course, tokens: seq<string>, weeks: map<int, int>, schoolId: int, isNextWeek: int, term: Term)
    ensures TokenMatches(row, tokens, weeks, schoolId, isNextWeek, term).None? <==>
      |tokens| > 0 && (schoolId !in weeks || exists i :: 0 <= i < |tokens| && ParseInt(tokens[i]).None?)
    decreases |tokens|
  {
    if |tokens| > 0 && ParseInt(tokens[0]).None? {
      assert 0 <= 0 < |tokens| && ParseInt(tokens[0]).None?;
    } else if |tokens| > 0 && schoolId in weeks {
      var tail := tokens[1..];
      TokenMatchesFails(row, tail, weeks, schoolId, isNextWeek, term);
      if exists i :: 0 <= i < |tokens| && ParseInt(tokens[i]).None? {
        var i :| 0 <= i < |tokens| && ParseInt(tokens[i]).None?;
        assert tail[i - 1] == tokens[i];
      }
      if exists i :: 0 <= i < |tail| && ParseInt(tail[i]).None? {
        var i :| 0 <= i < |tail| && ParseInt(tail[i]).None?;
        assert tokens[i + 1] == tail[i];
      }
    }
  }

  /** The parsed values of a token list (`None` for a token that does not
      parse). */
  function Seq2Set(tokens: seq<string>): (r: set<Option<int>>)
    ensures forall i :: 0 <= i < |tokens| ==> ParseInt(tokens[i]) in r
    ensures forall v :: v in r ==> exists i :: 0 <= i < |tokens| && ParseInt(tokens[i]) == v
  {
    if |tokens| == 0 then {} else {ParseInt(tokens[0])} + Seq2Set(tokens[1..])
  }

  /** The token loop over a row's own week list. */
  function RowMatches(row: Course, weeks: map<int, int>, schoolId: int, isNextWeek: int, term: Term): Option<seq<SingleCourse>>
  {
    TokenMatches(row, Split(row.weekPeriod, ' '), weeks, schoolId, isNextWeek, term)
  }

  /** The `forEach` over the selected rows. */
  function CollectMatches(rows: seq<Course>, weeks: map<int, int>, schoolId: int, isNextWeek: int, term: Term): (r: Option<seq<SingleCourse>>)
    ensures r.Some? ==> forall sc :: sc in r.value ==> exists i :: 0 <= i < |rows| && sc == ToSingle(rows[i], term)
  {
    if |rows| == 0 then Some([])
    else match RowMatches(rows[0], weeks, schoolId, isNextWeek, term)
      case None => None
      case Some(first) =>
        match CollectMatches(rows[1..], weeks, schoolId, isNextWeek, term)
        case None => None
        case Some(rest) =>
          CollectMatchesCons(rows, first, rest, term);
          Some(first + rest)
  }

  /** The loop over the rows throws exactly when some row's token loop
      throws. */
  lemma {:induction false} CollectMatchesFails(rows: seq<Course>, weeks: map<int, int>, schoolId: int, isNextWeek: int, term: Term)
    ensures CollectMatches(rows, weeks, schoolId, isNextWeek, term).None? <==>
      exists i :: 0 <= i < |rows| && RowMatches(rows[i], weeks, schoolId, isNextWeek, term).None?
    decreases |rows|
  {
    if |rows| > 0 && RowMatches(rows[0], weeks, schoolId, isNextWeek, term).None? {
      assert 0 <= 0 < |rows| && RowMatches(rows[0], weeks, schoolId, isNextWeek, term).None?;
    } else if |rows| > 0 {
      var tail := rows[1..];
      CollectMatchesFails(tail, weeks, schoolId, isNextWeek, term);
      if exists i :: 0 <= i < |rows| && RowMatches(rows[i], weeks, schoolId, isNextWeek, term).None? {
        var i :| 0 <= i < |rows| && RowMatches(rows[i], weeks, schoolId, isNextWeek, term).None?;
        assert tail[i - 1] == rows[i];
      }
      if exists i :: 0 <= i < |tail| && RowMatches(tail[i], weeks, schoolId, isNextWeek, term).None? {
        var i :| 0 <= i < |tail| && RowMatches(tail[i], weeks, schoolId, isNextWeek, term).None?;
        assert rows[i + 1] == tail[i];
      }
    }
  }

  lemma CollectMatchesCons(rows: seq<Course>, first: seq<SingleCourse>, rest: seq<SingleCourse>, term: Term)
    requires |rows| > 0
    requires forall sc :: sc in first ==> sc == ToSingle(rows[0], term)
    requires forall sc :: sc in rest ==> exists i :: 0 <= i < |rows[1..]| && sc == ToSingle(rows[1..][i], term)
    ensures forall sc :: sc in first + rest ==> exists i :: 0 <= i < |rows| && sc == ToSingle(rows[i], term)
  {
    forall sc | sc in first + rest
      ensures exists i :: 0 <= i < |rows| && sc == ToSingle(rows[i], term)
    {
      if sc in first {
        assert sc == ToSingle(rows[0], term);
      } else {
        var i :| 0 <= i < |rows[1..]| && sc == ToSingle(rows[1..][i], term);
        assert rows[1..][i] == rows[i + 1];
      }
    }
  }

  /** A row whose own token loop yields its course contributes it. */
  lemma {:induction false} CollectMatchesComplete(rows: seq<Course>, weeks: map<int, int>, schoolId: int, isNextWeek: int, term: Term, i: int)
    requires 0 <= i < |rows|
    requires var m := RowMatches(rows[i], weeks, schoolId, isNextWeek, term);
      m.Some? && ToSingle(rows[i], term) in m.value
    ensures var r := CollectMatches(rows, weeks, schoolId, isNextWeek, term);
      r.Some? ==> ToSingle(rows[i], term) in r.value
    decreases |rows|
  {
    var r := CollectMatches(rows, weeks, schoolId, isNextWeek, term);
    if r.Some? {
      var first := RowMatches(rows[0], weeks, schoolId, isNextWeek, term).value;
      var rest := CollectMatches(rows[1..], weeks, schoolId, isNextWeek, term).value;
      assert r.value == first + rest;
      var x := ToSingle(rows[i], term);
      if i == 0 {
        assert x in first;
      } else {
        assert rows[1..][i - 1] == rows[i];
        CollectMatchesComplete(rows[1..], weeks, schoolId, isNextWeek, term, i - 1);
        assert x in rest;
      }
      InConcat(x, first, rest);
    }
  }

  lemma InConcat<T>(x: T, a: seq<T>, b: seq<T>)
    requires x in a || x in b
    ensures x in a + b
  {
  }

  /** `getCourseFromDatabase`: a day above 7 means Monday of the next week;
      the matches are sorted by start section. */
  function LegacyTodayCourses(courses: seq<Course>, term: Term, weeks: map<int, int>, schoolId: int, inputDayOfWeek: int): Option<seq<SingleCourse>>
  {
    match LegacyMatches(courses, term, weeks, schoolId, LegacySelector(inputDayOfWeek))
    case None => None
    case Some(list) => Some(SortBy(list, StartOf))
  }

  /** The older fetch throws when the school has no known week and some row
      of the day is selected (`currentWeekPeriod[school]!!`). */
  lemma LegacyTodayCoursesUnknownSchool(courses: seq<Course>, term: Term, weeks: map<int, int>, schoolId: int, inputDayOfWeek: int, c: Course)
    requires schoolId !in weeks
    requires c in courses && CourseInTerm(c, term) && c.whichDayOfWeek == LegacySelector(inputDayOfWeek).weekday
    ensures LegacyTodayCourses(courses, term, weeks, schoolId, inputDayOfWeek).None?
  {
    var sel := LegacySelector(inputDayOfWeek);
    var isNextWeek := sel.nextWeek;
    var selected := SelectDay(courses, term, sel.weekday);
    var i :| 0 <= i < |selected| && selected[i] == c;
    TokenMatchesFails(c, Split(c.weekPeriod, ' '), weeks, schoolId, isNextWeek, term);
    CollectMatchesFails(selected, weeks, schoolId, isNextWeek, term);
  }

  /** The older fetch's matches before sorting. */
  function LegacyMatches(courses: seq<Course>, term: Term, weeks: map<int, int>, schoolId: int, sel: DaySelector): Option<seq<SingleCourse>>
  {
    CollectMatches(SelectDay(courses, term, sel.weekday), weeks, schoolId, sel.nextWeek, term)
  }

  /** The older fetch's day argument: above 7 means Monday of the next
      week. */
  function LegacySelector(inputDayOfWeek: int): (d: DaySelector)
    ensures d.nextWeek == 0 || d.nextWeek == 1
  {
    if inputDayOfWeek > 7 then DaySelector(1, 1) else DaySelector(inputDayOfWeek, 0)
  }

  /** What the older fetch answers when it does not throw: it is sorted by
      start section and holds only courses of rows of the term and the
      weekday. */
  lemma LegacyTodayCoursesSound(courses: seq<Course>, term: Term, weeks: map<int, int>, schoolId: int, inputDayOfWeek: int)
    ensures var r := LegacyTodayCourses(courses, term, weeks, schoolId, inputDayOfWeek);
      r.Some? ==> SortedBy(r.value, StartOf)
    ensures var r := LegacyTodayCourses(courses, term, weeks, schoolId, inputDayOfWeek);
      var weekday := LegacySelector(inputDayOfWeek).weekday;
      r.Some? ==> forall sc :: sc in r.value ==> exists c :: c in courses && CourseInTerm(c, term) && c.whichDayOfWeek == weekday && sc == ToSingle(c, term)
  {
    var weekday := LegacySelector(inputDayOfWeek).weekday;
    var selected := SelectDay(courses, term, weekday);
    var m := LegacyMatches(courses, term, weeks, schoolId, LegacySelector(inputDayOfWeek));
    if m.Some? {
      SortByCorrect(m.value, StartOf);
      SortByMembers(m.value, StartOf);
      forall sc | sc in m.value
        ensures exists c :: c in courses && CourseInTerm(c, term) && c.whichDayOfWeek == weekday && sc == ToSingle(c, term)
      {
        var i :| 0 <= i < |selected| && sc == ToSingle(selected[i], term);
        assert selected[i] in selected;
      }
    }
  }

  /** When the older fetch does not throw, every row of the term and the
      weekday that lists the target week is among its courses. */
  lemma LegacyTodayCoursesComplete(courses: seq<Course>, term: Term, weeks: map<int, int>, schoolId: int, inputDayOfWeek: int, c: Course)
    requires c in courses && CourseInTerm(c, term) && c.whichDayOfWeek == LegacySelector(inputDayOfWeek).weekday
    requires schoolId in weeks
    requires Some(Wrap32(weeks[schoolId] + LegacySelector(inputDayOfWeek).nextWeek)) in WeekList(c)
    ensures var r := LegacyTodayCourses(courses, term, weeks, schoolId, inputDayOfWeek);
      r.Some? ==> ToSingle(c, term) in r.value
  {
    SelectedRowMatches(courses, term, weeks, schoolId, LegacySelector(inputDayOfWeek), c);
    LegacySortKeeps(courses, term, weeks, schoolId, inputDayOfWeek, ToSingle(c, term));
  }

  /** Sorting the matches loses none of them. */
  lemma LegacySortKeeps(courses: seq<Course>, term: Term, weeks: map<int, int>, schoolId: int, inputDayOfWeek: int, sc: SingleCourse)
    requires var m := LegacyMatches(courses, term, weeks, schoolId, LegacySelector(inputDayOfWeek));
      m.Some? ==> sc in m.value
    ensures var r := LegacyTodayCourses(courses, term, weeks, schoolId, inputDayOfWeek);
      r.Some? ==> sc in r.value
  {
    var m := LegacyMatches(courses, term, weeks, schoolId, LegacySelector(inputDayOfWeek));
    if m.Some? {
      SortByMembers(m.value, StartOf);
    }
  }

  /** The parsed tokens of the row's space-separated week list. */
  function WeekList(c: Course): set<Option<int>>
  {
    Seq2Set(Split(c.weekPeriod, ' '))
  }

  /** A row whose week list holds the target week yields its course. */
  lemma RowMatchesHolds(c: Course, weeks: map<int, int>, schoolId: int, isNextWeek: int, term: Term)
    requires schoolId in weeks
    requires Some(Wrap32(weeks[schoolId] + isNextWeek)) in WeekList(c)
    ensures var own := RowMatches(c, weeks, schoolId, isNextWeek, term);
      own.Some? ==> ToSingle(c, term) in own.value
  {
    var tokens := Split(c.weekPeriod, ' ');
    var own := TokenMatches(c, tokens, weeks, schoolId, isNextWeek, term);
    assert RowMatches(c, weeks, schoolId, isNextWeek, term) == own;
  }

  /** A selected row whose week list holds the target week is among the
      matches of the token loops. */
  lemma SelectedRowMatches(courses: seq<Course>, term: Term, weeks: map<int, int>, schoolId: int, sel: DaySelector, c: Course)
    requires c in courses && CourseInTerm(c, term) && c.whichDayOfWeek == sel.weekday
    requires schoolId in weeks
    requires Some(Wrap32(weeks[schoolId] + sel.nextWeek)) in WeekList(c)
    ensures var m := LegacyMatches(courses, term, weeks, schoolId, sel);
      m.Some? ==> ToSingle(c, term) in m.value
  {
    var selected := SelectDay(courses, term, sel.weekday);
    assert c in selected;
    var i :| 0 <= i < |selected| && selected[i] == c;
    ListedRowMatches(selected, weeks, schoolId, sel.nextWeek, term, i, c);
  }

  /** The row-level form of the above: the row `c` at index `i` whose week
      list holds the target week. */
  lemma ListedRowMatches(rows: seq<Course>, weeks: map<int, int>, schoolId: int, isNextWeek: int, term: Term, i: int, c: Course)
    requires 0 <= i < |rows| && rows[i] == c && schoolId in weeks
    requires Some(Wrap32(weeks[schoolId] + isNextWeek)) in WeekList(c)
    ensures var m := CollectMatches(rows, weeks, schoolId, isNextWeek, term);
      m.Some? ==> ToSingle(c, term) in m.value
  {
    CollectMatchesFails(rows, weeks, schoolId, isNextWeek, term);
    RowMatchesHolds(c, weeks, schoolId, isNextWeek, term);
    if CollectMatches(rows, weeks, schoolId, isNextWeek, term).Some? {
      CollectMatchesComplete(rows, weeks, schoolId, isNextWeek, term, i);
    }
  }

  // ----- chat words for days -----

  /** The `when` over the matched words: 一..六 are Monday to Saturday, 天 and
      日 Sunday, 今 today and 明 today plus one; `None` for anything else (the
      source then only sends a usage message). */
  function DayFromWord(dayWord: string, relativeWord: string, todayDow: int): Option<int>
  {
    if dayWord == "一" then Some(1)
    else if dayWord == "二" then Some(2)
    else if dayWord == "三" then Some(3)
    else if dayWord == "四" then Some(4)
    else if dayWord == "五" then Some(5)
    else if dayWord == "六" then Some(6)
    else if dayWord == "天" then Some(7)
    else if dayWord == "日" then Some(7)
    else if relativeWord == "今" then Some(todayDow)
    else if relativeWord == "明" then Some(todayDow + 1)
    else None
  }

  /** Every recognised day is a weekday 1..7, or 8 for tomorrow on a Sunday;
      any other words are refused (no query runs). */
  lemma DayFromWordRange(dayWord: string, relativeWord: string, todayDow: int)
    requires 1 <= todayDow <= 7
    ensures DayFromWord(dayWord, relativeWord, todayDow).None? <==>
      dayWord !in {"一", "二", "三", "四", "五", "六", "天", "日"} && relativeWord != "今" && relativeWord != "明"
    ensures var r := DayFromWord(dayWord, relativeWord, todayDow);
      r.Some? ==> 1 <= r.value <= 8
    ensures var r := DayFromWord(dayWord, relativeWord, todayDow);
      r == Some(8) <==> (dayWord !in {"一", "二", "三", "四", "五", "六", "天", "日"} &&
        relativeWord == "明" && todayDow == 7)
  {
  }

  /** "Tomorrow" is the next calendar day: the next weekday of this week, or
      Monday of the next week when today is Sunday. */
  lemma TomorrowIsNextDay(todayDow: int)
    requires 1 <= todayDow <= 7
    ensures var d := DayFromWord("", "明", todayDow);
      d.Some? &&
      QuerySelector(d.value) == if todayDow < 7 then DaySelector(todayDow + 1, 0) else DaySelector(1, 1)
  {
  }

  // ----- rendering a time of day -----

  /** `"${(stamp - stamp % 60) / 60}$sep${min}"`, with Kotlin's truncating
      `%` and the minutes padded with '0' below 10. */
  function FormatStamp(stamp: int, sep: string): string
  {
    var minute := Rem60(stamp);
    IntToString((stamp - minute) / 60) + sep + (if minute < 10 then "0" + IntToString(minute) else IntToString(minute))
  }

  /** For a time of day the rendering is the hour, a colon and two minute
      digits. */
  lemma FormatStampShape(m: int)
    requires 0 <= m < 100000
    ensures FormatStamp(m, ":") == NatToString(m / 60) + ":" + Pad2(m % 60)
  {
    StampParts(m);
    MinuteText(m % 60);
  }

  lemma StampParts(m: int)
    requires 0 <= m
    ensures Rem60(m) == m % 60 && (m - Rem60(m)) / 60 == m / 60
  {
    assert m - m % 60 == (m / 60) * 60;
  }

  lemma MinuteText(minute: int)
    requires 0 <= minute < 60
    ensures (if minute < 10 then "0" + IntToString(minute) else IntToString(minute)) == Pad2(minute)
  {
  }

  lemma FormatStampPieces(m: int)
    requires 0 <= m < 100000
    ensures Split(FormatStamp(m, ":"), ':') == [NatToString(m / 60), Pad2(m % 60)]
  {
    FormatStampShape(m);
    var h, mm := NatToString(m / 60), Pad2(m % 60);
    assert ':' !in h by {
      assert forall i :: 0 <= i < |h| ==> IsDigit(h[i]);
    }
    assert ':' !in mm;
    assert h + ":" + mm == Join([h, mm], ':');
    SplitJoin([h, mm], ':');
  }

  /** For a time of day the bell-schedule parser reads the rendering back. */
  lemma FormatStampReadsBack(m: int)
    requires 0 <= m < 100000
    ensures BellSchedule.ParseStamp(FormatStamp(m, ":")) == Some(m)
  {
    FormatStampPieces(m);
    ParseNatToString(m / 60);
    ParsePad2(m % 60);
  }
}
