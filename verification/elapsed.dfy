/** Relative time labels ("5m ago", "3h ago", "2d ago") computed from the
    millisecond difference between now and a past instant. */
module Elapsed {

  const MinuteMs: nat := 60000
  const HourMs: nat := 3600000
  const DayMs: nat := 86400000

  /** A relative label, or the instant's own calendar date (formatted by
      the locale). */
  datatype Label = MinutesAgo(minutes: int) | HoursAgo(hours: int) | DaysAgo(days: int) | OnDate(instant: int)

  /** `Math.floor(diff / unit)`: Dafny's division by a positive divisor
      already rounds toward minus infinity. */
  function Floor(diff: int, unit: nat): (q: int)
    requires unit > 0
    ensures q * unit <= diff < (q + 1) * unit
  {
    diff / unit
  }

  /** The three-way choice shared by both labels: minutes under an hour,
      hours under a day, days otherwise. */
  function Relative(diff: int): (l: Label)
    ensures l.MinutesAgo? <==> diff < HourMs
    ensures l.HoursAgo? <==> HourMs <= diff < DayMs
    ensures l.DaysAgo? <==> DayMs <= diff
    ensures l.MinutesAgo? ==> l.minutes * MinuteMs <= diff < (l.minutes + 1) * MinuteMs && l.minutes < 60
    ensures l.HoursAgo? ==> l.hours * HourMs <= diff < (l.hours + 1) * HourMs && 1 <= l.hours < 24
    ensures l.DaysAgo? ==> l.days * DayMs <= diff < (l.days + 1) * DayMs && 1 <= l.days
  {
    var minutes, hours, days := Floor(diff, MinuteMs), Floor(diff, HourMs), Floor(diff, DayMs);
    if minutes < 60 then MinutesAgo(minutes)
    else if hours < 24 then HoursAgo(hours)
    else DaysAgo(days)
  }
}
