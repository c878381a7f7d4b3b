# SuperCourseTimetableBot class reminders, modelled in Dafny

This project models the core of SuperCourseTimetableBot, a chat bot that sends students a reminder before each class. The model covers:

- **The reminder scheduler** of `ScheduleListenerService`. It keeps a job table (at most one job per user), a per-user cache of the day's courses and a per-school cache of bell schedules. It picks the section to remind about from the time of day, the bell schedule and the sorted courses. It records the section to re-arm for, and chooses between an immediate trigger and a timed one at (start − lead time) plus a random second. The tables are fields of the class `Scheduler.ScheduleListener`; each method is proved equal to a function on a `Listener` value (`StartSpec`, `Stop`, `Restart`, `RestartAll`, `FireSpec`, …), and the lemmas are stated about those functions.
- **The calendar** of both `TimeProviderService` revisions (`Calendar`, `CalendarLegacy`): the semester rule, the semester begin year, the week offset of a timetable row from its anchor (date, week), and the week updater loop, which rewrites the `currentWeekPeriod` map in place.
- **The bell-schedule string** "HH:MM-HH:MM|…" (`BellSchedule`): loading it into minute pairs, and writing it from the server's "HHMM" pairs (newer revision with a twelve-period default, older without), from a manual correction, or from the default.
- **Course queries** (`Courses`): the weekday/week filter, the sort by start section, the day words of the chat command, and the "H:MM" rendering; both the newer `queryFromDatabase` and the older fetch inside `getUserTodayCourses`. The stable `sortedBy` is `Sorting.SortBy`.
- **The request handlers** as transitions of a `World` value (users, timetable rows, course tables, week map, lead times, listener tables, request queue). This covers the newer per-request classes and the older all-in-one dispatcher (`Requests`, with `Revision` selecting where they differ). It also covers the imperative handlers that update a `Store.Database`, a time provider, a `Store.PluginData`, the listener and a `RequestQueue.Channel` in place (`Handlers`, `LegacyHandler`), each proved equal to its transition.
- **The hex encoders** `byteToStr` and the MD5 hex loop (`Hex`). Both `EncryptionUtils.kt` copies are the same code and share one model.

Kotlin exceptions (an index out of range, `toInt` on a non-number, `!!` on null, `first {}` with no match, `single()` on two entries) are modelled as a `None` result or a `false` flag. Each handler runs inside one database transaction (`Database.suspendQuery`), so an exception rolls back its database writes; the listener's tables live in memory and keep what was done before the throw. Of the modelled failures, only that of the newer course sync comes after database writes, and `Requests.InternalSyncSpec` restores its course tables. Kotlin `Int` arithmetic is modelled with `Text.Wrap32`, and Kotlin's truncating `%` with `Text.Rem60`. Times of day are minutes after midnight. Dates are `Dates.Date` values, and weekdays come from their epoch day.

## Model

| member | source | states |
|---|---|---|
| Text.Wrap32 | src/main/kotlin/stageguard/sctimetable/service/ScheduleListenerService.kt:71 | Kotlin `Int` arithmetic: the result lies in the 32-bit range, is congruent to the exact value modulo 2^32, and equals it when it is in range |
| Text.Rem60 | src/main/kotlin/stageguard/sctimetable/service/ScheduleListenerService.kt:201 | Kotlin's `% 60` truncates: for a non-negative number it is the ordinary remainder in 0..59, for a negative one it is in -59..0 and congruent modulo 60 |
| Text.Split | src/main/kotlin/stageguard/sctimetable/service/ScheduleListenerService.kt:69 | `split` with a one-character delimiter yields at least one piece, and no piece contains the delimiter |
| Text.SplitJoin | src/main/kotlin/stageguard/sctimetable/service/ScheduleListenerService.kt:69-72 | splitting a `joinToString` of pieces free of the delimiter gives the pieces back |
| Text.ParseInt | src/main/kotlin/stageguard/sctimetable/service/ScheduleListenerService.kt:71 | `toInt` reads only numbers in the `Int` range, and a string without '-' as a non-negative number |
| Text.ParseIntReadsNumerals | src/main/kotlin/stageguard/sctimetable/service/ScheduleListenerService.kt:71 | `toInt` reads a string exactly when it is an optional sign and at least one digit denoting a number in the `Int` range, and then reads that number |
| Text.ParseLeadingZero | src/main/kotlin/stageguard/sctimetable/service/ScheduleListenerService.kt:71 | a leading zero does not change what `toInt` reads ("007" is 7) |
| Text.ParsePlusSign | src/main/kotlin/stageguard/sctimetable/service/ScheduleListenerService.kt:71 | a leading '+' does not change what `toInt` reads |
| Text.ParseMinusSign | src/main/kotlin/stageguard/sctimetable/service/ScheduleListenerService.kt:71 | a leading '-' negates the number read, down to -2^31 |
| Text.NatToString | src/main/kotlin/me/stageguard/sctimetable/service/messageRoute/queryCourse.kt:78 | a number's decimal rendering is all digits, one digit exactly below 10 and two digits from 10 to 99 |
| Text.Pad2 | src/main/kotlin/me/stageguard/sctimetable/service/messageRoute/queryCourse.kt:78 | the zero-padded minute is exactly two digits |
| Text.ParseNatToString | src/main/kotlin/stageguard/sctimetable/service/ScheduleListenerService.kt:71 | `toInt` reads back what `toString` writes for every non-negative `Int` |
| Text.ParsePad2 | src/main/kotlin/stageguard/sctimetable/service/ScheduleListenerService.kt:71 | `toInt` reads a zero-padded two-digit number back as the number |
| Dates.DayOfWeek | src/main/kotlin/me/stageguard/sctimetable/service/TimeProviderService.kt:116 | `dayOfWeek.value` lies in 1..7 and is congruent to the epoch day plus 4 modulo 7 (day 0 was a Thursday) |
| Dates.NextDayOfWeek | src/main/kotlin/me/stageguard/sctimetable/service/TimeProviderService.kt:116 | the next day has the next weekday, Sunday wrapping to Monday |
| Hex.Unsigned | src/main/kotlin/stageguard/sctimetable/api/edu_system/super/EncryptionUtils.kt:39 | `b and 255` lies in 0..255 and is congruent to the signed byte modulo 256 |
| Hex.UpperCase | src/main/kotlin/stageguard/sctimetable/api/edu_system/super/EncryptionUtils.kt:46 | `toUpperCase` keeps the length and maps each character by itself |
| Hex.ChunkDigits | src/main/kotlin/stageguard/sctimetable/api/EncryptionUtils.kt:38-44 | what the source appends for a byte (`toHexString`, a '0' prefix when one character long, upper-cased) is exactly the byte's two upper-case hex digits |
| Hex.ByteToStr | src/main/kotlin/stageguard/sctimetable/api/edu_system/super/EncryptionUtils.kt:36-49 | the StringBuilder loop returns the encoding of the whole array |
| Hex.HexEncodeAt | src/main/kotlin/stageguard/sctimetable/api/EncryptionUtils.kt:35-48 | the encoding is twice as long as the input, and characters 2k and 2k+1 are the high and low hex digits of byte k |
| Hex.HexEncodeAlphabet | src/main/kotlin/stageguard/sctimetable/api/EncryptionUtils.kt:45 | only 0-9 and A-F occur in the output |
| Hex.HexEncodeAppend | src/main/kotlin/stageguard/sctimetable/api/EncryptionUtils.kt:37-46 | bytes are rendered in input order: the encoding of a concatenation is the concatenation of the encodings |
| Hex.HexEncodeSnoc | src/main/kotlin/stageguard/sctimetable/api/edu_system/super/EncryptionUtils.kt:38-47 | one more loop turn appends that byte's two digits |
| Hex.HexDecodePair | src/main/kotlin/stageguard/sctimetable/api/edu_system/super/EncryptionUtils.kt:39-46 | reading two more hex digits appends the byte they spell, the step of the inverse |
| Hex.HexRoundTrip | src/main/kotlin/stageguard/sctimetable/api/edu_system/super/EncryptionUtils.kt:36-49 | decoding the output gives back the bytes, so distinct byte arrays never share an encoding |
| Hex.Md5Hex | src/main/kotlin/stageguard/sctimetable/api/edu_system/super/EncryptionUtils.kt:58-66 | the index loop writes 32 characters with the high nibble of digest byte k at 2k and the low nibble at 2k+1, upper-cased, which is `byteToStr` of the digest |
| Hex.DigitPairsAreHexEncode | src/main/kotlin/stageguard/sctimetable/api/EncryptionUtils.kt:57-65 | any string holding each byte's two upper-case digits in turn is the encoding |
| Hex.Aes | src/main/kotlin/stageguard/sctimetable/api/EncryptionUtils.kt:30-33 | `aes` gives "" when the key is null or the cipher throws, and otherwise twice as many characters as cipher bytes |
| Hex.Encrypt | src/main/kotlin/stageguard/sctimetable/api/edu_system/super/EncryptionUtils.kt:18-23 | `encrypt` is null exactly when URL-encoding fails, and otherwise what `aes` returns |
| Sorting.InsertPos | src/main/kotlin/stageguard/sctimetable/service/ScheduleListenerService.kt:123 | the insertion point lies after every element with a key at most the new key and before the larger ones |
| Sorting.InsertBy | src/main/kotlin/stageguard/sctimetable/service/ScheduleListenerService.kt:123 | inserting adds exactly the one element |
| Sorting.InsertBySorted | src/main/kotlin/stageguard/sctimetable/service/ScheduleListenerService.kt:123 | inserting into a sorted sequence keeps it sorted |
| Sorting.InsertByWithKey | src/main/kotlin/stageguard/sctimetable/service/ScheduleListenerService.kt:123 | the inserted element goes after the elements of equal key |
| Sorting.SortBy | src/main/kotlin/me/stageguard/sctimetable/service/messageRoute/queryCourse.kt:33 | `sortedBy` returns a permutation of its input |
| Sorting.SortByCorrect | src/main/kotlin/me/stageguard/sctimetable/service/messageRoute/queryCourse.kt:33 | `sortedBy` orders by key and keeps the input order among equal keys (stable) |
| Sorting.SortByMembers | src/main/kotlin/stageguard/sctimetable/service/ScheduleListenerService.kt:123 | sorting neither adds nor drops an element |
| Sorting.SortBySortedIsIdentity | src/main/kotlin/stageguard/sctimetable/service/ScheduleListenerService.kt:123 | a sequence already in order is returned unchanged |
| Sorting.WithKeyAppend | src/main/kotlin/me/stageguard/sctimetable/service/messageRoute/queryCourse.kt:33 | the elements of one key in a concatenation are those of each part in turn |
| BellSchedule.ParseStamps | src/main/kotlin/stageguard/sctimetable/service/ScheduleListenerService.kt:70-71 | the pieces of a period load exactly when every piece parses, one minute value per piece, in order |
| BellSchedule.ParsePeriods | src/main/kotlin/stageguard/sctimetable/service/ScheduleListenerService.kt:69-73 | a schedule loads exactly when every "\|" segment parses, giving one pair per segment, in order |
| BellSchedule.EmptyScheduleFails | src/main/kotlin/stageguard/sctimetable/service/ScheduleListenerService.kt:69-72 | an empty stored string is one empty segment, which throws on load |
| BellSchedule.Clock | src/main/kotlin/me/stageguard/sctimetable/service/request/SyncSchoolTimetable.kt:97 | "HH:MM" is five characters with a colon in the middle |
| BellSchedule.Segments | src/main/kotlin/me/stageguard/sctimetable/service/request/SyncSchoolTimetable.kt:96-98 | one "HH:MM-HH:MM" segment per period, in order |
| BellSchedule.ClockPieces | src/main/kotlin/stageguard/sctimetable/service/ScheduleListenerService.kt:71 | a clock string splits on ':' into its two-digit hour and minute, and holds no '-' or '\|' |
| BellSchedule.ParseClock | src/main/kotlin/stageguard/sctimetable/service/ScheduleListenerService.kt:71 | a clock string loads back as the minutes it was written from |
| BellSchedule.ParseSegment | src/main/kotlin/stageguard/sctimetable/service/ScheduleListenerService.kt:70-72 | a segment loads back as its period and holds no '\|' |
| BellSchedule.ParseEncodeSchedule | src/main/kotlin/stageguard/sctimetable/service/ScheduleListenerService.kt:69-73 | loading a string written from a non-empty list of periods gives back exactly those periods |
| BellSchedule.KeptPeriods | src/main/kotlin/me/stageguard/sctimetable/service/request/SyncSchoolTimetable.kt:96 | the filter keeps exactly the periods with a non-empty `beginTimeStr` |
| BellSchedule.ServerSegments | src/main/kotlin/me/stageguard/sctimetable/service/request/SyncSchoolTimetable.kt:96-98 | the server's periods convert exactly when each one does, one segment each, in server order |
| BellSchedule.ScheduleFromServer | src/main/kotlin/me/stageguard/sctimetable/service/request/SyncSchoolTimetable.kt:95-102 | an empty server list gives the twelve-period default; otherwise the kept periods joined by "\|" |
| BellSchedule.LegacyScheduleFromServer | src/main/kotlin/stageguard/sctimetable/service/RequestHandlerService.kt:168-173 | the older revision has no default: an empty server list gives "" |
| BellSchedule.BlankServerPeriodsGiveEmpty | src/main/kotlin/me/stageguard/sctimetable/service/request/SyncSchoolTimetable.kt:95-98 | a non-empty server list whose `beginTimeStr` are all blank is stored as "", which does not load |
| BellSchedule.ServerClock | src/main/kotlin/me/stageguard/sctimetable/service/request/SyncSchoolTimetable.kt:97 | the server's "HHMM" is four characters |
| BellSchedule.ServerPeriodsOf | src/main/kotlin/me/stageguard/sctimetable/service/request/SyncSchoolTimetable.kt:97 | the server form of a list of periods, one "HHMM" pair each |
| BellSchedule.JoinServerPeriodsOf | src/main/kotlin/stageguard/sctimetable/service/RequestHandlerService.kt:171-173 | "HHMM" pairs from the server are stored as the canonical schedule string, in server order |
| BellSchedule.ServerSegmentOf | src/main/kotlin/me/stageguard/sctimetable/service/request/SyncSchoolTimetable.kt:97 | the `substring` conversion turns an "HHMM" pair into its canonical "HH:MM-HH:MM" |
| BellSchedule.ServerScheduleRoundTrip | src/main/kotlin/me/stageguard/sctimetable/service/request/SyncSchoolTimetable.kt:95-98 | what the server sends is what a later load of the stored schedule yields, in both revisions |
| BellSchedule.ManualSegments | src/main/kotlin/me/stageguard/sctimetable/service/request/SyncSchoolTimetable.kt:55 | a manual correction stores each pair as "first-second" |
| BellSchedule.ClockPairs | src/main/kotlin/me/stageguard/sctimetable/service/request/SyncSchoolTimetable.kt:55 | the "HH:MM" pairs a user enters for a list of periods |
| BellSchedule.ManualScheduleCanonical | src/main/kotlin/me/stageguard/sctimetable/service/request/SyncSchoolTimetable.kt:55 | a correction entered as "HH:MM" pairs is stored in the canonical form |
| BellSchedule.ManualScheduleRoundTrip | src/main/kotlin/me/stageguard/sctimetable/service/request/SyncSchoolTimetable.kt:55 | the next load of a manual correction yields the periods entered |
| BellSchedule.DefaultPeriods | src/main/kotlin/me/stageguard/sctimetable/service/request/SyncSchoolTimetable.kt:101 | the default has twelve periods, each starting before it ends within one day |
| BellSchedule.DefaultScheduleLoads | src/main/kotlin/me/stageguard/sctimetable/service/request/SyncSchoolTimetable.kt:101 | the default string loads as those twelve periods |
| Store.FindUser | src/main/kotlin/me/stageguard/sctimetable/service/request/DeleteCourse.kt:28 | the lookup finds nothing exactly when no user has the account, and otherwise a user with that account |
| Store.UsersOfSchool | src/main/kotlin/me/stageguard/sctimetable/service/request/DeleteCourse.kt:30 | the users of a school are exactly the table's users with that school |
| Store.QQs | src/main/kotlin/me/stageguard/sctimetable/service/request/InheritTimetableFromLastSemester.kt:43-49 | the accounts of a list of users, in order |
| Store.FindTimetable | src/main/kotlin/me/stageguard/sctimetable/service/request/SyncSchoolWeekPeriod.kt:23-29 | `first()` of a school's rows in a term: the first matching row, and none exactly when no row matches |
| Store.RemoveSchool | src/main/kotlin/me/stageguard/sctimetable/service/request/DeleteCourse.kt:31 | deleting a school's timetable rows keeps exactly the rows of other schools |
| Store.RemoveUser | src/main/kotlin/me/stageguard/sctimetable/service/request/DeleteCourse.kt:38 | deleting a user row keeps exactly the other accounts |
| Store.RemoveTermCourses | src/main/kotlin/me/stageguard/sctimetable/service/request/InternalSyncCourseRequestViaCookieData.kt:30 | deleting the current term's course rows keeps exactly the rows of other terms |
| Calendar.Semester | src/main/kotlin/me/stageguard/sctimetable/service/TimeProviderService.kt:91-103 | the semester is 1 or 2 |
| Calendar.SemesterSeasons | src/main/kotlin/me/stageguard/sctimetable/service/TimeProviderService.kt:91-103 | spring (2) runs from 15 February to the end of August, autumn (1) is every other day |
| Calendar.SemesterBeginYear | src/main/kotlin/me/stageguard/sctimetable/service/TimeProviderService.kt:49-56 | the begin year is last year in semester 2; in semester 1 it is this year exactly from July on |
| Calendar.BeginYearIsAcademicYear | src/main/kotlin/me/stageguard/sctimetable/service/TimeProviderService.kt:49-56 | with the semester up to date, the term began in the year of the last September |
| Calendar.SpringBelongsToPreviousYear | src/main/kotlin/me/stageguard/sctimetable/service/TimeProviderService.kt:50-51 | a spring term falls in February to August and began the year before |
| Calendar.WeekOffset | src/main/kotlin/me/stageguard/sctimetable/service/TimeProviderService.kt:117 | the offset is 0 up to 7 and otherwise the integer quotient d / 7: the `ceil` changes nothing |
| Calendar.WeekOnAnchorDate | src/main/kotlin/me/stageguard/sctimetable/service/TimeProviderService.kt:116-119 | on the anchor date a row's week is its anchor week |
| Calendar.WeekMonotone | src/main/kotlin/me/stageguard/sctimetable/service/TimeProviderService.kt:116-117 | with the anchor fixed the week never goes back as days pass |
| Calendar.AnchorSumWeekday | src/main/kotlin/me/stageguard/sctimetable/service/TimeProviderService.kt:116 | the anchor sum is a multiple of 7 exactly on Sundays |
| Calendar.SundayCountsAsNextWeek | src/main/kotlin/me/stageguard/sctimetable/service/TimeProviderService.kt:116-117 | after the first week a Sunday already carries the number of the Monday after it |
| Calendar.LastOfSchool | src/main/kotlin/me/stageguard/sctimetable/service/TimeProviderService.kt:114-119 | the school's last row in table order, none exactly when the school has no row |
| Calendar.RecomputeWeeks | src/main/kotlin/me/stageguard/sctimetable/service/TimeProviderService.kt:114-119 | after the loop the map holds the old keys plus the schools of the rows, each such school with its last row's week and every other entry unchanged |
| Calendar.RecomputeStep | src/main/kotlin/me/stageguard/sctimetable/service/TimeProviderService.kt:118-119 | each row visited replaces its school's entry with that row's week |
| Calendar.RemoveThenSet | src/main/kotlin/me/stageguard/sctimetable/service/TimeProviderService.kt:118-119 | removing the key before storing it makes no difference |
| Calendar.TermRows | src/main/kotlin/me/stageguard/sctimetable/service/TimeProviderService.kt:110-113 | the `find` keeps exactly the rows of the current term |
| Calendar.RecomputeLeavesOtherSchools | src/main/kotlin/me/stageguard/sctimetable/service/TimeProviderService.kt:110-114 | a school without a current-term row keeps its entry, or its absence |
| Calendar.RecomputeSingleRow | src/main/kotlin/me/stageguard/sctimetable/service/TimeProviderService.kt:114-119 | a school with a single current-term row gets that row's week |
| Calendar.TimeProvider.constructor | src/main/kotlin/me/stageguard/sctimetable/service/TimeProviderService.kt:41-45 | the service starts with semester 0 and an empty week map |
| Calendar.TimeProvider.SemesterUpdater | src/main/kotlin/me/stageguard/sctimetable/service/TimeProviderService.kt:88-106 | the stored semester becomes today's semester and the week map is untouched |
| Calendar.TimeProvider.SchoolWeekPeriodUpdater | src/main/kotlin/me/stageguard/sctimetable/service/TimeProviderService.kt:107-124 | the loop leaves the week map equal to the recomputation over the current term's rows, in table order |
| Calendar.TimeProvider.ImmediateUpdateSchoolWeekPeriod | src/main/kotlin/me/stageguard/sctimetable/service/TimeProviderService.kt:84-86 | the synchronous update performs the same recomputation |
| Calendar.LastSemesterCronDay | src/main/kotlin/me/stageguard/sctimetable/service/TimeProviderService.kt:62 | the last run of "10 0 0 15 2,8" on or before a day is a 15 February or a 15 August |
| Calendar.SemesterTimerWritesOnlySpring | src/main/kotlin/me/stageguard/sctimetable/service/TimeProviderService.kt:62 | both days of that cron fall in spring, so the timer only ever writes 2 |
| Calendar.SemesterTimerMissesAutumn | src/main/kotlin/me/stageguard/sctimetable/service/TimeProviderService.kt:62 | on 1 September the rule says autumn while the value last written says spring |
| Calendar.LastCorrectedSemesterCronDay | src/main/kotlin/me/stageguard/sctimetable/service/TimeProviderService.kt:62 | the last run on 15 February or 1 September on or before a day |
| Calendar.CorrectedTimerKeepsSemester | src/main/kotlin/me/stageguard/sctimetable/service/TimeProviderService.kt:62 | with runs on the days the semester changes, the stored semester is always today's |
| Calendar.SemesterTimer | src/main/kotlin/me/stageguard/sctimetable/service/TimeProviderService.kt:61-72 | on 15 February and 15 August, the days of "10 0 0 15 2,8", the timer writes the semester, which is then spring; on other days it leaves the service alone |
| Calendar.CorrectedSemesterTimer | src/main/kotlin/me/stageguard/sctimetable/service/TimeProviderService.kt:62 | the corrected timer of the finding at this line: on 15 February and 1 September it writes today's semester, and on other days nothing |
| CalendarLegacy.LegacySemester | src/main/kotlin/stageguard/sctimetable/service/TimeProviderService.kt:93 | the older rule: 2 exactly for months 3 to 7 |
| CalendarLegacy.LegacyBeginYear | src/main/kotlin/stageguard/sctimetable/service/TimeProviderService.kt:50-51 | the stored year less one from January to August, the stored year otherwise |
| CalendarLegacy.SemesterRulesDiffer | src/main/kotlin/stageguard/sctimetable/service/TimeProviderService.kt:93 | the two revisions disagree exactly from 15 February to the end of February and in August |
| CalendarLegacy.BeginYearsAgree | src/main/kotlin/stageguard/sctimetable/service/TimeProviderService.kt:50-51 | with the year up to date, both revisions start the academic year in September |
| CalendarLegacy.LegacyTimeProvider.constructor | src/main/kotlin/stageguard/sctimetable/service/TimeProviderService.kt:40-48 | the service starts with year 0, semester 0 and an empty week map |
| CalendarLegacy.LegacyTimeProvider.YearUpdater | src/main/kotlin/stageguard/sctimetable/service/TimeProviderService.kt:85-90 | the stored year becomes today's calendar year and nothing else changes |
| CalendarLegacy.LegacyTimeProvider.SemesterUpdater | src/main/kotlin/stageguard/sctimetable/service/TimeProviderService.kt:91-96 | the stored semester follows the older rule and nothing else changes |
| CalendarLegacy.LegacyTimeProvider.SchoolWeekPeriodUpdater | src/main/kotlin/stageguard/sctimetable/service/TimeProviderService.kt:97-111 | every row of any term rewrites its school's week, and the last row of a school wins |
| CalendarLegacy.LegacyTimeProvider.ImmediateUpdateSchoolWeekPeriod | src/main/kotlin/stageguard/sctimetable/service/TimeProviderService.kt:81-83 | the synchronous update performs the same recomputation |
| CalendarLegacy.SingleRowOnAnchorDate | src/main/kotlin/stageguard/sctimetable/service/TimeProviderService.kt:100-107 | on its anchor date a school's only row gives the anchor week, whatever its term |
| CalendarLegacy.LegacySemesterTimerWritesOnlyAutumn | src/main/kotlin/stageguard/sctimetable/service/TimeProviderService.kt:58 | both days of "10 0 0 15 2,8" lie outside March to July, so the older timer only ever writes 1 |
| CalendarLegacy.LegacySemesterTimerMissesSpring | src/main/kotlin/stageguard/sctimetable/service/TimeProviderService.kt:58 | on 1 March the older rule says spring while the value last written says autumn |
| CalendarLegacy.LastCorrectedLegacyCronDay | src/main/kotlin/stageguard/sctimetable/service/TimeProviderService.kt:58 | the last run on 1 March or 1 August on or before a day |
| CalendarLegacy.CorrectedLegacyTimerKeepsSemester | src/main/kotlin/stageguard/sctimetable/service/TimeProviderService.kt:58 | with runs on the days the older rule changes, the stored semester is always today's |
| CalendarLegacy.YearTimer | src/main/kotlin/stageguard/sctimetable/service/TimeProviderService.kt:57 | "10 0 0 1 1" rewrites the year on 1 January and on no other day |
| CalendarLegacy.LegacySemesterTimer | src/main/kotlin/stageguard/sctimetable/service/TimeProviderService.kt:58 | on 15 February and 15 August, the days of "10 0 0 15 2,8", the older timer writes the semester, which is then autumn; it changes nothing else |
| CalendarLegacy.CorrectedLegacySemesterTimer | src/main/kotlin/stageguard/sctimetable/service/TimeProviderService.kt:58 | the corrected older timer of the finding at this line: on 1 March and 1 August it writes today's semester, and nothing else |
| Courses.ParseAll | src/main/kotlin/me/stageguard/sctimetable/service/messageRoute/queryCourse.kt:31 | a week list parses exactly when every token is a number, one value per token |
| Courses.SelectDay | src/main/kotlin/me/stageguard/sctimetable/service/messageRoute/queryCourse.kt:26-29 | the `select` keeps exactly the rows of the current term on the chosen weekday |
| Courses.QuerySelector | src/main/kotlin/me/stageguard/sctimetable/service/messageRoute/queryCourse.kt:25-29 | a day above 7 selects that weekday mod 7 in the next week, otherwise the day itself in the current week |
| Courses.WeekFilter | src/main/kotlin/me/stageguard/sctimetable/service/messageRoute/queryCourse.kt:30-32 | the filter throws exactly when some row's week list does not parse, and otherwise keeps exactly the rows listing the target week |
| Courses.MapSingle | src/main/kotlin/me/stageguard/sctimetable/service/messageRoute/queryCourse.kt:34-42 | each kept row becomes one course, in order |
| Courses.MapSingleSorted | src/main/kotlin/me/stageguard/sctimetable/service/messageRoute/queryCourse.kt:33 | rows sorted by start section give courses sorted by start section |
| Courses.MapSingleMembers | src/main/kotlin/me/stageguard/sctimetable/service/messageRoute/queryCourse.kt:33-43 | the courses are exactly the images of the rows |
| Courses.QueryFails | src/main/kotlin/me/stageguard/sctimetable/service/messageRoute/queryCourse.kt:31 | the query throws exactly when a selected row's week list does not parse |
| Courses.QuerySortedInTerm | src/main/kotlin/me/stageguard/sctimetable/service/messageRoute/queryCourse.kt:33-43 | the answer is sorted by start section and every course carries the current semester and begin year |
| Courses.QueryMembers | src/main/kotlin/me/stageguard/sctimetable/service/messageRoute/queryCourse.kt:26-43 | the answer holds a course for every row of the term and weekday listing the target week, and nothing else |
| Courses.QueryUnknownSchool | src/main/kotlin/me/stageguard/sctimetable/service/messageRoute/queryCourse.kt:32 | a school with no known week uses week -1 for the current week |
| Courses.TokenMatches | src/main/kotlin/stageguard/sctimetable/service/ScheduleListenerService.kt:107-121 | one row's token loop adds only that row's course, and adds it when a token equals the school's week plus `isNextWeek` |
| Courses.TokenMatchesFails | src/main/kotlin/stageguard/sctimetable/service/ScheduleListenerService.kt:107-108 | a row's token loop throws exactly when the row has a token and either the school has no known week or some token is not a number |
| Courses.CollectMatches | src/main/kotlin/stageguard/sctimetable/service/ScheduleListenerService.kt:106-122 | the loop over rows yields only courses of the selected rows |
| Courses.CollectMatchesFails | src/main/kotlin/stageguard/sctimetable/service/ScheduleListenerService.kt:106-108 | the loop over rows throws exactly when some row's token loop throws |
| Courses.CollectMatchesComplete | src/main/kotlin/stageguard/sctimetable/service/ScheduleListenerService.kt:106-122 | every row that yields its course in its own loop contributes it to the whole |
| Courses.LegacySelector | src/main/kotlin/stageguard/sctimetable/service/ScheduleListenerService.kt:101-105 | the older fetch reads a day above 7 as Monday of the next week |
| Courses.LegacyTodayCoursesUnknownSchool | src/main/kotlin/stageguard/sctimetable/service/ScheduleListenerService.kt:108 | the older fetch throws when the school has no known week and a row of the day is selected |
| Courses.LegacyTodayCoursesSound | src/main/kotlin/stageguard/sctimetable/service/ScheduleListenerService.kt:98-123 | the older fetch's answer is sorted by start section and holds only courses of rows of the term and weekday |
| Courses.LegacyTodayCoursesComplete | src/main/kotlin/stageguard/sctimetable/service/ScheduleListenerService.kt:98-123 | every row of the term and weekday whose week list holds the target week is in the older fetch's answer |
| Courses.LegacySortKeeps | src/main/kotlin/stageguard/sctimetable/service/ScheduleListenerService.kt:123 | sorting the matches loses none of them |
| Courses.RowMatchesHolds | src/main/kotlin/stageguard/sctimetable/service/ScheduleListenerService.kt:107-120 | a row whose week list holds the target week yields its course |
| Courses.DayFromWordRange | src/main/kotlin/me/stageguard/sctimetable/service/messageRoute/queryCourse.kt:47-61 | a recognised day is 1..7, or 8 exactly for "明" on a Sunday, and any other words are refused |
| Courses.TomorrowIsNextDay | src/main/kotlin/me/stageguard/sctimetable/service/messageRoute/queryCourse.kt:57 | "明" selects the next weekday of this week, or Monday of the next week on a Sunday |
| Courses.FormatStampShape | src/main/kotlin/me/stageguard/sctimetable/service/messageRoute/queryCourse.kt:77-83 | a time of day renders as the hour, a colon and two minute digits |
| Courses.FormatStampReadsBack | src/main/kotlin/me/stageguard/sctimetable/service/messageRoute/queryCourse.kt:78 | the bell-schedule parser reads the rendering back as the same minute |
| Scheduler.TipOf | src/main/kotlin/stageguard/sctimetable/service/ScheduleListenerService.kt:157 | a user's lead time is their own entry, or 15 minutes without one |
| Scheduler.FirstNotStarted | src/main/kotlin/stageguard/sctimetable/service/ScheduleListenerService.kt:162 | `first { now <= start }`: the first course not yet started, after only courses already started; none when all have started |
| Scheduler.FirstWithSection | src/main/kotlin/stageguard/sctimetable/service/ScheduleListenerService.kt:167-170 | the first course starting at the section, none exactly when no course starts there |
| Scheduler.FirstAfter | src/main/kotlin/stageguard/sctimetable/service/ScheduleListenerService.kt:178-180 | for the corrected rule of the finding at these lines: the first course starting after a section, none exactly when none does |
| Scheduler.NextSection | src/main/kotlin/stageguard/sctimetable/service/ScheduleListenerService.kt:178-180 | the corrected rule of the finding at these lines: -1 exactly when no course starts later, and otherwise a later section |
| Scheduler.TriggerForSpec | src/main/kotlin/stageguard/sctimetable/service/ScheduleListenerService.kt:196-202 | the trigger is immediate exactly when start − lead is before now; otherwise it fires at that hour and minute of today, at the jitter second |
| Scheduler.PlanArmsExistingSection | src/main/kotlin/stageguard/sctimetable/service/ScheduleListenerService.kt:166-193 | a job is stored only for a section within the schedule at which a course starts, and announces the first such course with its start and end from the schedule |
| Scheduler.PlanRejectsSection | src/main/kotlin/stageguard/sctimetable/service/ScheduleListenerService.kt:166-169 | a section beyond the schedule, or with no course starting there, arms nothing and throws nothing |
| Scheduler.PlanKeepsRequestedSection | src/main/kotlin/stageguard/sctimetable/service/ScheduleListenerService.kt:159 | an explicit section, when armed, is the job's section |
| Scheduler.PlanDayOver | src/main/kotlin/stageguard/sctimetable/service/ScheduleListenerService.kt:161 | without an explicit section nothing is armed once the day's last course has started |
| Scheduler.PlanAutoTarget | src/main/kotlin/stageguard/sctimetable/service/ScheduleListenerService.kt:159-164 | without an explicit section the job is for the first course whose start is at or after now |
| Scheduler.PlanNextSection | src/main/kotlin/stageguard/sctimetable/service/ScheduleListenerService.kt:176-181 | the job records -1 when the announced course, the first at its section, is the last of the day's list, and otherwise the start section of the course right after it |
| Scheduler.NeverFiresSpec | src/main/kotlin/stageguard/sctimetable/service/ScheduleListenerService.kt:194-205 | a cron pinned to today has no fire time left exactly when its minute is the current one and its random second is already past |
| Scheduler.PlanFaultsOnPastCron | src/main/kotlin/stageguard/sctimetable/service/ScheduleListenerService.kt:170-205 | an armed job whose reminder minute is now and whose random second is past throws after the job is stored; a reminder later today does not throw |
| Scheduler.StartStoresThenFaults | src/main/kotlin/stageguard/sctimetable/service/ScheduleListenerService.kt:150-205 | in that case the arming reports a throw, and the stored job makes a second arming of the user do nothing |
| Scheduler.NextSectionAgrees | src/main/kotlin/stageguard/sctimetable/service/ScheduleListenerService.kt:178-180 | for a day sorted by start section with no two courses at one section, the recorded section equals the corrected rule's |
| Scheduler.RearmRepeatsAsWritten | src/main/kotlin/stageguard/sctimetable/service/ScheduleListenerService.kt:178-180 | with two courses at one section the source records that same section again |
| Scheduler.MaxSection | src/main/kotlin/stageguard/sctimetable/service/ScheduleListenerService.kt:161 | no course of the day starts after the largest start section |
| Scheduler.RearmProgresses | src/main/kotlin/stageguard/sctimetable/service/ScheduleListenerService.kt:178-180 | under the corrected rule of the finding at these lines each re-arm moves to a later section no later than the day's last, so a chain of re-arms ends |
| Scheduler.CacheHits | src/main/kotlin/stageguard/sctimetable/service/ScheduleListenerService.kt:59-61 | the cached schedules of a school for a term are exactly the cache entries with that key |
| Scheduler.DropSchool | src/main/kotlin/stageguard/sctimetable/service/ScheduleListenerService.kt:93 | `removeIf` keeps exactly the entries of other schools |
| Scheduler.LookupCoherent | src/main/kotlin/stageguard/sctimetable/service/ScheduleListenerService.kt:59-90 | with at most one cached entry agreeing with the database, the lookup answers what the database gives, and caching keeps every school coherent |
| Scheduler.MissingRowCachesNothing | src/main/kotlin/stageguard/sctimetable/service/ScheduleListenerService.kt:83-87 | a missing current-term row gives the empty schedule and caches nothing |
| Scheduler.DropSchoolCoherent | src/main/kotlin/stageguard/sctimetable/service/ScheduleListenerService.kt:92-95 | after dropping a school's entries the cache agrees with the database for it |
| Scheduler.InTermCourses | src/main/kotlin/stageguard/sctimetable/service/ScheduleListenerService.kt:127-129 | the cached courses kept are exactly those of the current term |
| Scheduler.StopRemovesOnlyUser | src/main/kotlin/stageguard/sctimetable/service/ScheduleListenerService.kt:214-221 | stopping removes exactly the user's job, does nothing without one, and a second stop changes nothing |
| Scheduler.StartTouchesOnlyUser | src/main/kotlin/stageguard/sctimetable/service/ScheduleListenerService.kt:150-212 | arming touches no other user's job or cached courses, and a user who has a job keeps it unchanged |
| Scheduler.CoursesAfterOnlyUser | src/main/kotlin/stageguard/sctimetable/service/ScheduleListenerService.kt:125-133 | filling one user's course cache leaves every other entry, and never changes an entry the user already has, even one without a course of the term |
| Scheduler.StartArmsRequestedSection | src/main/kotlin/stageguard/sctimetable/service/ScheduleListenerService.kt:159-172 | arming for an explicit section stores, if anything, a job for that section |
| Scheduler.StartFresh | src/main/kotlin/stageguard/sctimetable/service/ScheduleListenerService.kt:150-212 | a user without a job or cached courses is armed with exactly the job computed from the database |
| Scheduler.RestartFresh | src/main/kotlin/stageguard/sctimetable/service/ScheduleListenerService.kt:231-235 | stopping, dropping the cached courses and arming again gives the job computed from the database |
| Scheduler.RestartTouchesOnlyUser | src/main/kotlin/stageguard/sctimetable/service/ScheduleListenerService.kt:231-235 | a restart leaves other users' jobs and cached courses |
| Scheduler.RestartAllKeepsOthers | src/main/kotlin/stageguard/sctimetable/service/ScheduleListenerService.kt:231-235 | restarting a list of users leaves everyone else's jobs and cached courses |
| Scheduler.RestartAllCoherent | src/main/kotlin/stageguard/sctimetable/service/ScheduleListenerService.kt:245-255 | restarting users keeps every coherently cached school coherent |
| Scheduler.RestartAllFresh | src/main/kotlin/stageguard/sctimetable/service/ScheduleListenerService.kt:297-301 | when a restart of distinct users completes, each of them holds the job computed from the database |
| Scheduler.UsersOfSchoolDistinct | src/main/kotlin/stageguard/sctimetable/service/ScheduleListenerService.kt:248-249 | the users of one school are distinct accounts when the table's are |
| Scheduler.OnChangeTimetableRearms | src/main/kotlin/stageguard/sctimetable/service/ScheduleListenerService.kt:245-255 | after a timetable change every user of the school holds the job computed from the new schedule, unless a restart throws |
| Scheduler.OnChangeTimetableKeepsOthers | src/main/kotlin/stageguard/sctimetable/service/ScheduleListenerService.kt:245-255 | users of other schools keep their jobs |
| Scheduler.FireRearmsNextSection | src/main/kotlin/stageguard/sctimetable/service/ScheduleListenerService.kt:331-332 | the day's last reminder leaves no job; any other re-arms, if at all, for exactly the recorded section |
| Scheduler.ScheduleListener.constructor | src/main/kotlin/stageguard/sctimetable/service/ScheduleListenerService.kt:38-50 | the listener starts with empty tables |
| Scheduler.ScheduleListener.GetSchoolTimetable | src/main/kotlin/stageguard/sctimetable/service/ScheduleListenerService.kt:59-90 | the lookup answers from the cache or the database and appends what it read |
| Scheduler.ScheduleListener.RemoveSchoolTimetable | src/main/kotlin/stageguard/sctimetable/service/ScheduleListenerService.kt:92-95 | only the school's cache entries go |
| Scheduler.ScheduleListener.GetUserTodayCourses | src/main/kotlin/stageguard/sctimetable/service/ScheduleListenerService.kt:97-134 | the cached courses of the term when there are any, else a fresh fetch; the fetch becomes the entry of a user without one, and an existing entry stays as it is |
| Scheduler.ScheduleListener.RemoveUserTodayCourses | src/main/kotlin/stageguard/sctimetable/service/ScheduleListenerService.kt:136-141 | only the user's cached courses go |
| Scheduler.ScheduleListener.StartUserNotificationJob | src/main/kotlin/stageguard/sctimetable/service/ScheduleListenerService.kt:150-212 | the tables after arming are those of `StartSpec` |
| Scheduler.ScheduleListener.StopAndRemoveUserNotificationJob | src/main/kotlin/stageguard/sctimetable/service/ScheduleListenerService.kt:214-221 | only the user's job goes |
| Scheduler.ScheduleListener.RestartUser | src/main/kotlin/stageguard/sctimetable/service/ScheduleListenerService.kt:231-234 | stop, drop the cached courses and arm again |
| Scheduler.ScheduleListener.RestartUsers | src/main/kotlin/stageguard/sctimetable/service/ScheduleListenerService.kt:231-235 | the loop over users is `RestartAll`, ending at the first exception |
| Scheduler.ScheduleListener.OnChangeSchoolWeekPeriod | src/main/kotlin/stageguard/sctimetable/service/ScheduleListenerService.kt:228-237 | every user of the school is restarted |
| Scheduler.ScheduleListener.OnChangeSchoolTimetable | src/main/kotlin/stageguard/sctimetable/service/ScheduleListenerService.kt:245-255 | the school's cached schedule is dropped, then every user of the school is restarted |
| Scheduler.ScheduleListener.RestartUserNotification | src/main/kotlin/stageguard/sctimetable/service/ScheduleListenerService.kt:260-267 | a known user's job is stopped and armed again; an unknown account changes nothing |
| Scheduler.ScheduleListener.DistributionJob | src/main/kotlin/stageguard/sctimetable/service/ScheduleListenerService.kt:293-305 | every user is restarted |
| Scheduler.ScheduleListener.Fire | src/main/kotlin/stageguard/sctimetable/service/ScheduleListenerService.kt:307-336 | a fired job removes itself and re-arms for its recorded section unless it is -1 |
| RequestQueue.Channel.constructor | src/main/kotlin/stageguard/sctimetable/service/RequestHandlerService.kt:38 | the channel starts empty with the given capacity |
| RequestQueue.Channel.Send | src/main/kotlin/stageguard/sctimetable/service/RequestHandlerService.kt:321 | a sent request joins the end of the pending requests |
| RequestQueue.Channel.Receive | src/main/kotlin/stageguard/sctimetable/service/RequestHandlerService.kt:42 | the worker takes the oldest pending request, and the rest stay in order |
| RequestQueue.NewRequestChannel | src/main/kotlin/me/stageguard/sctimetable/service/RequestHandlerService.kt:24 | the worker's channel holds 100 requests in the older revision and 20 in the newer |
| Requests.SyncCourses | src/main/kotlin/me/stageguard/sctimetable/service/request/InheritTimetableFromLastSemester.kt:43-50 | one `SyncCourse` per account, in order |
| Requests.SyncWeekSpec | src/main/kotlin/me/stageguard/sctimetable/service/request/SyncSchoolWeekPeriod.kt:18-48 | a week change touches only the timetable rows, the week map and the jobs |
| Requests.SyncWeekMissing | src/main/kotlin/me/stageguard/sctimetable/service/request/SyncSchoolWeekPeriod.kt:40-46 | a missing user or a missing current-term row changes nothing |
| Requests.SyncWeekAnchors | src/main/kotlin/me/stageguard/sctimetable/service/request/SyncSchoolWeekPeriod.kt:29-32 | the school's first current-term row is re-anchored at today and the requested week, and no other row changes |
| Requests.SyncWeekTakesEffect | src/main/kotlin/me/stageguard/sctimetable/service/request/SyncSchoolWeekPeriod.kt:29-33 | right after the update the school's week is the requested one, since the offset on the anchor date is 0 |
| Requests.SyncWeekKeepsOtherSchools | src/main/kotlin/me/stageguard/sctimetable/service/request/SyncSchoolWeekPeriod.kt:33-34 | users of other schools keep their jobs |
| Requests.DeleteSpec | src/main/kotlin/me/stageguard/sctimetable/service/request/DeleteCourse.kt:25-42 | deleting an account leaves the request queue alone |
| Requests.DeleteMissing | src/main/kotlin/me/stageguard/sctimetable/service/request/DeleteCourse.kt:29 | a missing user changes nothing |
| Requests.DeleteForgetsUser | src/main/kotlin/me/stageguard/sctimetable/service/request/DeleteCourse.kt:35-38 | the account's row, lead time, job and course table are gone, and every other user remains |
| Requests.DeleteLastUserDropsSchool | src/main/kotlin/me/stageguard/sctimetable/service/request/DeleteCourse.kt:30-34 | the last user of a school takes its timetable rows, week entry and cached schedule along |
| Requests.DeleteSharedSchoolKeepsData | src/main/kotlin/me/stageguard/sctimetable/service/request/DeleteCourse.kt:30 | while others share the school its data is untouched |
| Requests.DeleteKeepsDistinct | src/main/kotlin/me/stageguard/sctimetable/service/request/DeleteCourse.kt:38 | deleting keeps accounts distinct |
| Requests.LessonRow | src/main/kotlin/me/stageguard/sctimetable/service/request/InternalSyncCourseRequestViaCookieData.kt:37-48 | each inserted row is tagged with the current term |
| Requests.LessonRows | src/main/kotlin/me/stageguard/sctimetable/service/request/InternalSyncCourseRequestViaCookieData.kt:37-48 | one row per fetched lesson, in order |
| Requests.InternalSyncSpec | src/main/kotlin/me/stageguard/sctimetable/service/request/InternalSyncCourseRequestViaCookieData.kt:26-75 | a course sync touches only the course tables and the listener; a failed restart rolls the course tables back |
| Requests.InternalSyncTables | src/main/kotlin/me/stageguard/sctimetable/service/request/InternalSyncCourseRequestViaCookieData.kt:26-75 | when the request completes, the user's table is its rows of other terms followed by the inserted rows; when it fails, the tables are as they were |
| Requests.InternalSyncReplacesTerm | src/main/kotlin/me/stageguard/sctimetable/service/request/InternalSyncCourseRequestViaCookieData.kt:30 | when the request completes, rows of other terms stay and every current-term row left is a fetched lesson; whatever the outcome, other users' tables are untouched |
| Requests.InternalSyncInsertsLessons | src/main/kotlin/me/stageguard/sctimetable/service/request/InternalSyncCourseRequestViaCookieData.kt:37-48 | when the request completes, every fetched lesson of a known user is in the table |
| Requests.InternalSyncRestartsOnlyAfterInsert | src/main/kotlin/me/stageguard/sctimetable/service/request/InternalSyncCourseRequestViaCookieData.kt:57-69 | a missing user, a failed fetch or an empty list leaves the listener as it was |
| Requests.InternalSyncRestarts | src/main/kotlin/me/stageguard/sctimetable/service/request/InternalSyncCourseRequestViaCookieData.kt:50 | after a non-empty insert the user's reminder is restarted on the new table; the request fails exactly when the restart does, and then the course tables are as before while the listener keeps the restart's changes |
| Requests.InternalSyncFaultRollsBack | src/main/kotlin/me/stageguard/sctimetable/service/request/InternalSyncCourseRequestViaCookieData.kt:26-75 | a failed course sync leaves the database as it was, and fails only in the newer revision after a non-empty fetch for a known user |
| Requests.PreviousTerm | src/main/kotlin/me/stageguard/sctimetable/service/request/InheritTimetableFromLastSemester.kt:21-22 | the previous term is autumn of the same year before spring, else spring of the year before |
| Requests.PreviousTermInvertsNext | src/main/kotlin/me/stageguard/sctimetable/service/request/InheritTimetableFromLastSemester.kt:21-22 | the previous term undoes the next one, both ways round |
| Requests.CalendarStepsToNextTerm | src/main/kotlin/me/stageguard/sctimetable/service/request/InheritTimetableFromLastSemester.kt:21-22 | the calendar's terms on 14 and 15 February are consecutive |
| Requests.InheritedRow | src/main/kotlin/me/stageguard/sctimetable/service/request/InheritTimetableFromLastSemester.kt:31-39 | the new row copies school and schedule, takes the current term, week 1 and today |
| Requests.InheritSpec | src/main/kotlin/me/stageguard/sctimetable/service/request/InheritTimetableFromLastSemester.kt:18-55 | inheriting touches only rows, weeks, jobs and the queue |
| Requests.InheritMissing | src/main/kotlin/me/stageguard/sctimetable/service/request/InheritTimetableFromLastSemester.kt:51-54 | a missing user or previous-term row changes nothing |
| Requests.InheritStartsAtWeekOne | src/main/kotlin/me/stageguard/sctimetable/service/request/InheritTimetableFromLastSemester.kt:37-41 | the weeks are recomputed after the insert and give the school week 1 |
| Requests.InheritCopiesSchedule | src/main/kotlin/me/stageguard/sctimetable/service/request/InheritTimetableFromLastSemester.kt:31-39 | the school now loads the previous term's schedule |
| Requests.TimetableHook | src/main/kotlin/stageguard/sctimetable/service/ScheduleListenerService.kt:245-255 | the timetable hook changes only the listener's in-memory tables, never the database or the queue |
| Requests.InheritEnqueues | src/main/kotlin/me/stageguard/sctimetable/service/request/InheritTimetableFromLastSemester.kt:43-50 | the newer revision asks every user of the school to sync courses; the older asks nobody |
| Requests.InheritSyncsRequester | src/main/kotlin/me/stageguard/sctimetable/service/request/InheritTimetableFromLastSemester.kt:43-50 | in the newer revision the requester is among the users asked to sync courses |
| Requests.FindServerTerm | src/main/kotlin/me/stageguard/sctimetable/service/request/SyncSchoolTimetable.kt:91-93 | `first {}` over the server's terms, none exactly when the current term is missing |
| Requests.SyncFromServerSpec | src/main/kotlin/me/stageguard/sctimetable/service/request/SyncSchoolTimetable.kt:87-127 | a server sync writes only timetable rows and weeks |
| Requests.WriteServerSchedule | src/main/kotlin/me/stageguard/sctimetable/service/request/SyncSchoolTimetable.kt:104-121 | the schedule goes into a new current-term row at week 1 dated today, or into the school's existing current-term row (the write throws without one), and the weeks are then recomputed; users, course tables, lead times, reminders and queue stay |
| Requests.ForcedSyncSpec | src/main/kotlin/me/stageguard/sctimetable/service/request/SyncSchoolTimetable.kt:46-70 | the forced branch leaves users, course tables and lead times alone |
| Requests.FirstSyncSpec | src/main/kotlin/me/stageguard/sctimetable/service/request/SyncSchoolTimetable.kt:71-76 | the first sync leaves users, course tables and lead times alone |
| Requests.SyncTimetableSpec | src/main/kotlin/me/stageguard/sctimetable/service/request/SyncSchoolTimetable.kt:37-85 | the handler leaves users, course tables and lead times alone |
| Requests.SyncMissingUser | src/main/kotlin/me/stageguard/sctimetable/service/request/SyncSchoolTimetable.kt:81-83 | a missing user changes nothing |
| Requests.SyncUnforcedKeepsExisting | src/main/kotlin/me/stageguard/sctimetable/service/request/SyncSchoolTimetable.kt:77-80 | without `forceUpdate` an existing current-term row is never overwritten |
| Requests.SyncFirstTimeCreates | src/main/kotlin/me/stageguard/sctimetable/service/request/SyncSchoolTimetable.kt:71-76 | the first sync appends a row at week 1 today with the server's schedule and asks for a week-1 sync |
| Requests.SyncEmptyServerTermDefault | src/main/kotlin/me/stageguard/sctimetable/service/request/SyncSchoolTimetable.kt:99-102 | the newer revision stores the default, which loads as twelve periods |
| Requests.SyncEmptyServerTermLegacy | src/main/kotlin/stageguard/sctimetable/service/RequestHandlerService.kt:168-173 | the older revision stores "", which does not load |
| Requests.CreatedRowSchedule | src/main/kotlin/me/stageguard/sctimetable/service/request/SyncSchoolTimetable.kt:104-113 | the created row holds the revision's schedule string |
| Requests.SyncServerTermMissing | src/main/kotlin/me/stageguard/sctimetable/service/request/SyncSchoolTimetable.kt:91-93 | a missing server term throws before anything is written |
| Requests.SyncManualCorrection | src/main/kotlin/me/stageguard/sctimetable/service/request/SyncSchoolTimetable.kt:55 | a correction is written on the current-term row and loads back as the periods entered |
| Requests.SyncManualWithoutRow | src/main/kotlin/me/stageguard/sctimetable/service/request/SyncSchoolTimetable.kt:55 | a correction without a current-term row throws and writes nothing |
| Requests.SyncForcedEnqueues | src/main/kotlin/me/stageguard/sctimetable/service/request/SyncSchoolTimetable.kt:60-69 | a forced sync asks every user of the school to sync courses exactly when the newer revision has `alsoSyncCourses` |
| Requests.LoginSpec | src/main/kotlin/stageguard/sctimetable/service/RequestHandlerService.kt:45-83 | a login touches only users, lead times and the queue |
| Requests.LoginRefusesKnownUser | src/main/kotlin/stageguard/sctimetable/service/RequestHandlerService.kt:47-48 | a second login of the same account is refused and changes nothing |
| Requests.LoginAddsUser | src/main/kotlin/stageguard/sctimetable/service/RequestHandlerService.kt:58-70 | a successful login adds the account with the default lead time and queues a course sync, then a timetable sync |
| Requests.SyncCourseSpec | src/main/kotlin/stageguard/sctimetable/service/RequestHandlerService.kt:84-104 | a course sync request queues at most one internal sync, for a known user after a successful login |
| Requests.ChangePasswordSpec | src/main/kotlin/stageguard/sctimetable/service/RequestHandlerService.kt:307-318 | a known account's first row takes the new password; an unknown one changes nothing; nothing but the user table changes |
| Requests.SetPasswordFirstRow | src/main/kotlin/stageguard/sctimetable/service/RequestHandlerService.kt:309-311 | only the first row holding the account changes, in place, and only its password |
| Handlers.EnqueueSyncCourses | src/main/kotlin/me/stageguard/sctimetable/service/request/InheritTimetableFromLastSemester.kt:43-50 | the loop sends one `SyncCourse` per account, in order, behind the pending requests |
| Handlers.InsertLessons | src/main/kotlin/me/stageguard/sctimetable/service/request/InternalSyncCourseRequestViaCookieData.kt:37-48 | the insert loop appends one row per lesson to the user's table |
| Handlers.RestartUser | src/main/kotlin/me/stageguard/sctimetable/service/request/InternalSyncCourseRequestViaCookieData.kt:50 | the reminder restart sees the tables as written and changes only the listener |
| Handlers.SyncFromServer | src/main/kotlin/me/stageguard/sctimetable/service/request/SyncSchoolTimetable.kt:87-127 | the server sync is `SyncFromServerSpec` |
| Handlers.StoreServerSchedule | src/main/kotlin/me/stageguard/sctimetable/service/request/SyncSchoolTimetable.kt:104-121 | the row write and the immediate week update are `WriteServerSchedule` |
| Handlers.TimetableChanged | src/main/kotlin/me/stageguard/sctimetable/service/request/SyncSchoolTimetable.kt:56-70 | the hook, then the course syncs of the school |
| Handlers.ForcedTimetableSync | src/main/kotlin/me/stageguard/sctimetable/service/request/SyncSchoolTimetable.kt:46-70 | the forced branch is `ForcedSyncSpec` |
| Handlers.FirstTimetableSync | src/main/kotlin/me/stageguard/sctimetable/service/request/SyncSchoolTimetable.kt:71-76 | the first sync is `FirstSyncSpec` |
| Handlers.SyncSchoolTimetableHandle | src/main/kotlin/me/stageguard/sctimetable/service/request/SyncSchoolTimetable.kt:37-85 | the handler is `SyncTimetableSpec` |
| Handlers.InheritHandle | src/main/kotlin/me/stageguard/sctimetable/service/request/InheritTimetableFromLastSemester.kt:18-55 | the handler is `InheritSpec` |
| Handlers.SyncSchoolWeekPeriodHandle | src/main/kotlin/me/stageguard/sctimetable/service/request/SyncSchoolWeekPeriod.kt:19-48 | the handler is `SyncWeekSpec` |
| Handlers.DeleteCourseHandle | src/main/kotlin/me/stageguard/sctimetable/service/request/DeleteCourse.kt:26-42 | the handler is `DeleteSpec` |
| Handlers.InternalSyncHandle | src/main/kotlin/me/stageguard/sctimetable/service/request/InternalSyncCourseRequestViaCookieData.kt:26-75 | the handler is `InternalSyncSpec`; when the restart fails it restores the course tables it saved on entry |
| LegacyHandler.HandleOnlyAppends | src/main/kotlin/stageguard/sctimetable/service/RequestHandlerService.kt:44-319 | no branch drops or reorders pending requests |
| LegacyHandler.StepIsFifo | src/main/kotlin/stageguard/sctimetable/service/RequestHandlerService.kt:42-44 | the worker handles the oldest request, and the requests still pending stay ahead of the ones it sends |
| LegacyHandler.HandleLogin | src/main/kotlin/stageguard/sctimetable/service/RequestHandlerService.kt:45-83 | the branch is `LoginSpec` |
| LegacyHandler.HandleSyncCourse | src/main/kotlin/stageguard/sctimetable/service/RequestHandlerService.kt:84-104 | the branch is `SyncCourseSpec` |
| LegacyHandler.HandleInternalSync | src/main/kotlin/stageguard/sctimetable/service/RequestHandlerService.kt:105-143 | the branch is the older `InternalSyncSpec`, which never fails |
| LegacyHandler.HandleDelete | src/main/kotlin/stageguard/sctimetable/service/RequestHandlerService.kt:144-160 | the branch is `DeleteSpec` |
| LegacyHandler.SyncFromServer | src/main/kotlin/stageguard/sctimetable/service/RequestHandlerService.kt:164-200 | the local sync is the older `SyncFromServerSpec` |
| LegacyHandler.StoreServerSchedule | src/main/kotlin/stageguard/sctimetable/service/RequestHandlerService.kt:174-191 | the older row write and week update are `WriteServerSchedule` |
| LegacyHandler.TimetableChanged | src/main/kotlin/stageguard/sctimetable/service/RequestHandlerService.kt:211 | the hook on the school |
| LegacyHandler.ForcedTimetableSync | src/main/kotlin/stageguard/sctimetable/service/RequestHandlerService.kt:207-223 | the forced branch is the older `ForcedSyncSpec` |
| LegacyHandler.FirstTimetableSync | src/main/kotlin/stageguard/sctimetable/service/RequestHandlerService.kt:224-229 | the first sync is the older `FirstSyncSpec` |
| LegacyHandler.HandleSyncTimetable | src/main/kotlin/stageguard/sctimetable/service/RequestHandlerService.kt:161-238 | the branch is the older `SyncTimetableSpec` |
| LegacyHandler.HandleInherit | src/main/kotlin/stageguard/sctimetable/service/RequestHandlerService.kt:239-276 | the branch is the older `InheritSpec` |
| LegacyHandler.HandleSyncWeek | src/main/kotlin/stageguard/sctimetable/service/RequestHandlerService.kt:277-306 | the branch is the older `SyncWeekSpec` |
| LegacyHandler.HandleChangePassword | src/main/kotlin/stageguard/sctimetable/service/RequestHandlerService.kt:307-318 | the branch is `ChangePasswordSpec` |
| LegacyHandler.Dispatch | src/main/kotlin/stageguard/sctimetable/service/RequestHandlerService.kt:44-319 | the `when` over the request kinds is `Handle` |
| LegacyHandler.HandleNext | src/main/kotlin/stageguard/sctimetable/service/RequestHandlerService.kt:42-44 | one turn of the worker is `Step` |
| LegacyHandler.StepAddsAtMostOneUser | src/main/kotlin/stageguard/sctimetable/service/RequestHandlerService.kt:44-319 | a turn adds at most one user: only a login adds one, and a deletion removes one |
| LegacyHandler.Serve | src/main/kotlin/stageguard/sctimetable/service/RequestHandlerService.kt:42 | the worker's loop over many turns is `Run`: it stops at the first branch that throws |
| LegacyHandler.RunStallsOnFault | src/main/kotlin/stageguard/sctimetable/service/RequestHandlerService.kt:42 | the worker takes the oldest requests in order, one per turn while it runs; once a branch throws, every request behind the failed one stays pending |
| LegacyHandler.RunStopsForGood | src/main/kotlin/stageguard/sctimetable/AbstractPluginManagedService.kt:20 | `main` is launched once, so after the worker stops, no later turn takes a request or changes anything |
| LegacyHandler.StallFirstTurn | src/main/kotlin/stageguard/sctimetable/service/RequestHandlerService.kt:216 | a manual correction by a user whose school has no current-term row throws at `first()` and changes nothing but the queue |
| LegacyHandler.WorkerStallsAsWritten | src/main/kotlin/stageguard/sctimetable/service/RequestHandlerService.kt:42 | after that correction the worker stops: the user's later deletion is never taken and the user stays |
| LegacyHandler.WorkerDropsAndGoesOn | src/main/kotlin/stageguard/sctimetable/service/RequestHandlerService.kt:42 | with the failed correction dropped, the deletion is taken in the next turn and the user is gone |
| LegacyHandler.RunDroppingServesAll | src/main/kotlin/stageguard/sctimetable/service/RequestHandlerService.kt:42 | a loop that drops a throwing request takes one of the original requests per turn, in channel order |
| LegacyHandler.RunDroppingAgrees | src/main/kotlin/stageguard/sctimetable/service/RequestHandlerService.kt:42 | while no branch throws, the loop that drops failures is the loop as written |

## Left out

- Chat messages, notices to other users of a school, log lines and the texts of the reminder and the query replies. They are output only. The "H:MM" rendering they use is modelled (`Courses.FormatStamp`).
- The network: login and course fetches are parameters (`LoginReply`, `Student`, lesson lists, cookies; `LegacyHandler.Replies`), with `None` for a failed call. The HTTP clients and JSON schemas are not part of this model.
- AES, MD5 and URL encoding are foreign calls. Their outputs are inputs to `Hex.Aes`, `Hex.Encrypt` and `Hex.Md5Hex`, and a stored password is an opaque string.
- Quartz, coroutines and the clock. Hooks launched as coroutines run to completion at once, and their exceptions do not reach the handler. Today's date, the minute of the day, the second of the minute and the random second of each arming are parameters. Quartz's refusal of a cron with no fire time left is the predicate `Scheduler.NeverFires`. Cron triggers are the `Trigger` datatype. The days the timers run on are the predicate `SemesterCronDay`; the corrected timers of the findings run on `CorrectedSemesterCronDay` and `CorrectedLegacyCronDay`.
- The database as a service: connection handling and the `null` a disconnected database returns. Transactions appear only as the rollback of a failed course sync.
- Requests.InternalSyncSpec: the rollback of a failed sync also removes a course table the request created. On a database whose schema changes commit at once, that empty table would stay.
- The ISO date strings stored in timetable rows: rows hold `Dates.Date` values, so `LocalDate.parse` cannot fail in the model.
- The newer revision's `ScheduleListenerService` is not part of this model. The newer handlers call the older listener's hooks.
- The newer `RequestHandlerService` is only its channel capacity and its loop, which takes the requests in channel order and, like the older loop, ends at the first exception (`LegacyHandler.Run`). The separate `Login.kt`, `SyncCourse.kt` and `ChangeUserPassword.kt` wrappers are covered by the older dispatcher's equivalent branches (`Requests.LoginSpec`, `Requests.SyncCourseSpec`, `Requests.ChangePasswordSpec`).
- Requests.SyncWeekTakesEffect: proved only when the re-anchored row is the school's only row that the updater visits. With several rows the last row in table order decides, and `Calendar.RecomputeWeeks` states that case.
- Requests.InheritCopiesSchedule: stated for a school without a current-term row. With one, the source appends a second row that `first()` never returns.
- Scheduler.RestartAllFresh: stated for distinct accounts on coherently cached schedules. A repeated account would be armed twice, and the second arming would find the first job in place.
- Sending a request: in both revisions `sendRequest` launches a coroutine that puts the request into the channel, so two requests sent one after the other may arrive in either order, and after requests sent later by other handlers. The model puts each request into the channel at once, in program order. Every member that states the queue after a handler (`RequestQueue.Channel.Send` and the `queue` of the `Requests` transitions) states this order. The members named on the next lines state an order between two or more sends.
- Requests.LoginAddsUser: states the course sync queued before the timetable sync. The source does not guarantee that order, and the outcome can depend on it: a course sync that runs first for a new school finds no week for the school when it restarts the reminder.
- Handlers.EnqueueSyncCourses: sends one course sync per account in the order of the accounts. The source's launched sends may arrive in any order.
- Requests.SyncForcedEnqueues: the course syncs for the school's users are queued in the order of the users. The source's launched sends may arrive in any order.
- Requests.InheritEnqueues: the course syncs for the school's users are queued in the order of the users. The source's launched sends may arrive in any order.
- LegacyHandler.Run: the date, the minute and the term are fixed for the whole run, so a run that crosses midnight or a change of term is not modelled.
- Text.ParseInt: reads only the ASCII digits '0' to '9'. Kotlin's `toInt` accepts any Unicode decimal digit ("８" reads as 8).

## Findings

| source | as written | input that shows it | evidently intended | confidence | as-written member | corrected member |
|---|---|---|---|---|---|---|
| src/main/kotlin/me/stageguard/sctimetable/service/TimeProviderService.kt:62 | the semester timer's cron "10 0 0 15 2,8 ? *" runs only on 15 February and 15 August, and the rule gives spring on both days | 1 September 2024: the rule gives autumn (1), but the value last written, on 15 August, is spring (2), and it stays so until the next restart | the stored semester follows the rule, with runs on 15 February and 1 September | not executed | Calendar.SemesterTimerMissesAutumn | Calendar.CorrectedTimerKeepsSemester |
| src/main/kotlin/stageguard/sctimetable/service/TimeProviderService.kt:58 | the older timer uses the same cron, and its rule (spring for months 3 to 7) gives autumn on both days | 1 March 2024: the rule gives spring (2), but the value last written, on 15 February, is autumn (1) | the stored semester follows the older rule, with runs on 1 March and 1 August | not executed | CalendarLegacy.LegacySemesterTimerMissesSpring | CalendarLegacy.CorrectedLegacyTimerKeepsSemester |
| src/main/kotlin/stageguard/sctimetable/service/ScheduleListenerService.kt:178-180 | the next section is the start section of the course right after the announced one | two courses at section 1, e.g. a course with two teachers: section 1 is recorded as the next section, re-arming picks the first course again, and the second course is never announced | the next section is the first section after the announced one, so re-arming always progresses | not executed | Scheduler.RearmRepeatsAsWritten | Scheduler.RearmProgresses |
| src/main/kotlin/stageguard/sctimetable/service/RequestHandlerService.kt:42 | the worker's loop catches no exception, and `start` launches `main` only once, so the first branch that throws ends the worker for good; the same holds for the newer loop | a manual correction of the bell schedule by a user whose school has no current-term row (`first()` at line 216 throws), then that user's deletion: the deletion is never taken, and once the channel's 100 places are full every sender waits forever | a request whose branch throws is dropped and the worker goes on with the next one | not executed | LegacyHandler.WorkerStallsAsWritten | LegacyHandler.RunDroppingServesAll |
