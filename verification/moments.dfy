/**
 The slice of moment.js the plugin uses, as uninterpreted functions over
 calendar days. A day is an integer count of days from a fixed origin; the
 time of day never matters to the plugin, so it is not represented.
 Properties of moment.js that a proof needs are stated as explicit
 hypotheses of that proof, never assumed globally.
 */
module Moments {
  import opened Options

  type Day = int

  datatype Moment = Moment(
    /** `moment(day).format(pattern)` */
    format: (Day, string) -> string,
    /** `moment(text, pattern, true)`: strict parse, None when invalid */
    parseStrict: (string, string) -> Option<Day>,
    /** `moment(text, pattern)`: lenient parse of a possibly undefined text */
    parseLenient: (Option<string>, string) -> Option<Day>,
    /** `moment(day).date()`: the day of the month, 1 to 31 */
    dayOfMonth: Day -> int,
    /** `moment(day).month()`: the month index, 0 to 11 */
    month: Day -> int,
    /** `moment(day).startOf("month")` */
    startOfMonth: Day -> Day,
    /** `moment(day).endOf("month")`, as the last day of that month */
    endOfMonth: Day -> Day,
    /** `moment(day).weekday()`: locale-aware day of the week, 0 to 6 */
    weekday: Day -> int,
    /** `moment(day).isoWeekday()`: 1 (Monday) to 7 (Sunday) */
    isoWeekday: Day -> int)

  /** The pattern the month separator heading is formatted with */
  const MonthYearPattern: string := "MMMM YYYY"
}
