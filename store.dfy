/** The bot's persistent state, with SQL replaced by values: the `users`
    table, the `schooltimetables` table, one course table per user, and the
    per-user lead times of the plugin data. Rows keep their table order. */
module Store {
  import opened Wrappers
  import opened Dates

  /** A school term: the calendar year it begins in and 1 (autumn) or
      2 (spring). */
  datatype Term = Term(beginYear: int, semester: int)

  /** A row of `users`; `qq` is the chat account and the table's unique key. */
  datatype User = User(qq: int, studentId: int, name: string, schoolId: int, account: string, password: string)

  /** A row of `schooltimetables`: one school's bell schedule for one term,
      with the anchor (a date and the week number it belongs to) from which
      the current week is inferred. */
  datatype Timetable = Timetable(
    schoolId: int,
    schoolName: string,
    beginYear: int,
    semester: int,
    scheduledTimeList: string,
    timeStampWhenAdd: Date,
    weekPeriodWhenAdd: int)

  /** A row of a user's course table; `weekPeriod` is the space-separated list
      of teaching weeks. */
  datatype Course = Course(
    courseId: int,
    courseName: string,
    teacherName: string,
    locale: string,
    whichDayOfWeek: int,
    sectionStart: int,
    sectionEnd: int,
    weekPeriod: string,
    beginYear: int,
    semester: int)

  predicate InTerm(t: Timetable, term: Term)
  {
    t.beginYear == term.beginYear && t.semester == term.semester
  }

  predicate CourseInTerm(c: Course, term: Term)
  {
    c.beginYear == term.beginYear && c.semester == term.semester
  }

  /** `User.find { Users.qq eq qq }.firstOrNull()`. */
  function FindUser(users: seq<User>, qq: int): (r: Option<User>)
    ensures r.None? <==> forall i :: 0 <= i < |users| ==> users[i].qq != qq
    ensures r.Some? ==> r.value in users && r.value.qq == qq
  {
    if |users| == 0 then None
    else if users[0].qq == qq then Some(users[0])
    else FindUser(users[1..], qq)
  }

  /** `User.find { Users.schoolId eq schoolId }`, in table order. */
  function UsersOfSchool(users: seq<User>, schoolId: int): (r: seq<User>)
    ensures forall u :: u in r <==> u in users && u.schoolId == schoolId
    ensures |r| <= |users|
  {
    if |users| == 0 then []
    else if users[0].schoolId == schoolId then [users[0]] + UsersOfSchool(users[1..], schoolId)
    else UsersOfSchool(users[1..], schoolId)
  }

  /** The chat accounts of a list of users, in order. */
  function QQs(users: seq<User>): (r: seq<int>)
    ensures |r| == |users|
    ensures forall i :: 0 <= i < |users| ==> r[i] == users[i].qq
  {
    if |users| == 0 then [] else [users[0].qq] + QQs(users[1..])
  }

  /** Index of the first row of `schoolId` in `term`, the row a
      `find { ... }.first()` returns. */
  function FindTimetable(rows: seq<Timetable>, schoolId: int, term: Term): (r: Option<nat>)
    ensures r.None? <==> forall i :: 0 <= i < |rows| ==> !(rows[i].schoolId == schoolId && InTerm(rows[i], term))
    ensures r.Some? ==> r.value < |rows| && rows[r.value].schoolId == schoolId && InTerm(rows[r.value], term)
    ensures r.Some? ==> forall j :: 0 <= j < r.value ==> !(rows[j].schoolId == schoolId && InTerm(rows[j], term))
  {
    if |rows| == 0 then None
    else if rows[0].schoolId == schoolId && InTerm(rows[0], term) then Some(0)
    else match FindTimetable(rows[1..], schoolId, term)
      case None => None
      case Some(i) => Some(i + 1)
  }

  /** `deleteWhere { schoolId eq ... }` on the timetables. */
  function RemoveSchool(rows: seq<Timetable>, schoolId: int): (r: seq<Timetable>)
    ensures forall t :: t in r <==> t in rows && t.schoolId != schoolId
  {
    if |rows| == 0 then []
    else if rows[0].schoolId == schoolId then RemoveSchool(rows[1..], schoolId)
    else [rows[0]] + RemoveSchool(rows[1..], schoolId)
  }

  /** Deleting a user row. */
  function RemoveUser(users: seq<User>, qq: int): (r: seq<User>)
    ensures forall u :: u in r <==> u in users && u.qq != qq
  {
    if |users| == 0 then []
    else if users[0].qq == qq then RemoveUser(users[1..], qq)
    else [users[0]] + RemoveUser(users[1..], qq)
  }

  /** Deleting rows never adds one. */
  lemma {:induction false} RemoveUserShrinks(users: seq<User>, qq: int)
    ensures |RemoveUser(users, qq)| <= |users|
  {
    if |users| > 0 {
      RemoveUserShrinks(users[1..], qq);
    }
  }

  /** `deleteWhere { beginYear eq ... and semester eq ... }` on a course table. */
  function RemoveTermCourses(courses: seq<Course>, term: Term): (r: seq<Course>)
    ensures forall c :: c in r <==> c in courses && !CourseInTerm(c, term)
    ensures |r| <= |courses|
  {
    if |courses| == 0 then []
    else if CourseInTerm(courses[0], term) then RemoveTermCourses(courses[1..], term)
    else [courses[0]] + RemoveTermCourses(courses[1..], term)
  }

  /** The whole store. The handlers change it field by field. */
  class Database {
    var users: seq<User>
    var timetables: seq<Timetable>
    var courseTables: map<int, seq<Course>>

    constructor (users: seq<User>, timetables: seq<Timetable>, courseTables: map<int, seq<Course>>)
      ensures this.users == users && this.timetables == timetables && this.courseTables == courseTables
    {
      this.users := users;
      this.timetables := timetables;
      this.courseTables := courseTables;
    }
  }

  /** `PluginData`: the per-user notification lead time in minutes. */
  class PluginData {
    var advancedTipOffset: map<int, int>

    constructor (advancedTipOffset: map<int, int>)
      ensures this.advancedTipOffset == advancedTipOffset
    {
      this.advancedTipOffset := advancedTipOffset;
    }
  }
}
