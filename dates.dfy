/** The slice of `java.time.LocalDate` the bot uses: the calendar fields, the
    epoch day and the ISO day of the week (Monday 1 ... Sunday 7). */
module Dates {
  datatype Date = Date(year: int, month: int, day: int)

  /** `LocalDate.toEpochDay()`: days since 1970-01-01 in the proleptic
      Gregorian calendar (the days-from-civil computation). */
  function EpochDay(d: Date): int
  {
    var y := if d.month <= 2 then d.year - 1 else d.year;
    var era := y / 400;
    var yoe := y - era * 400;
    var mp := if d.month > 2 then d.month - 3 else d.month + 9;
    var doy := (153 * mp + 2) / 5 + d.day - 1;
    var doe := yoe * 365 + yoe / 4 - yoe / 100 + doy;
    era * 146097 + doe - 719468
  }

  /** `dayOfWeek.value` of the date with the given epoch day; day 0 was a
      Thursday. */
  function DayOfWeek(epochDay: int): (dow: int)
    ensures 1 <= dow <= 7
    ensures (dow - 4 - epochDay) % 7 == 0
  {
    (epochDay + 3) % 7 + 1
  }

  /** Consecutive days have consecutive weekdays, Sunday wrapping to Monday. */
  lemma NextDayOfWeek(e: int)
    ensures DayOfWeek(e + 1) == if DayOfWeek(e) == 7 then 1 else DayOfWeek(e) + 1
  {
  }
}
