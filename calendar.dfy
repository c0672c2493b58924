/** Calendar and clock primitives.

    A point in time is a whole number of minutes since midnight of
    1 January 1970 in local time; a calendar day is a day index counted from
    that date. Days have 1440 minutes (daylight-saving shifts are not modelled). */
module Calendar {

  const MinutesPerHour: int := 60
  const MinutesPerDay: int := 1440

  /** How many days ahead (today included) slots may be booked. */
  const BOOKING_WINDOW_DAYS: int := 21
  /** Granularity of slot start times, in minutes past the hour. */
  const TIME_SLOT_INTERVAL: int := 10
  /** Start hours from this one on are governed by the evening rule. */
  const EveningHour: int := 19

  /** The day a point in time falls on (floor division). */
  function DayOf(t: int): (d: int)
    ensures DayStart(d) <= t < DayStart(d) + MinutesPerDay
  {
    t / MinutesPerDay
  }

  /** Midnight at the start of day `d`. */
  function DayStart(d: int): int
  {
    d * MinutesPerDay
  }

  /** The last whole minute of day `d` (date-fns `endOfDay`, at minute precision). */
  function EndOfDay(d: int): (t: int)
    ensures DayOf(t) == d
    ensures DayOf(t + 1) == d + 1
  {
    DayOfWithin(DayStart(d) + MinutesPerDay, d + 1);
    DayStart(d) + MinutesPerDay - 1
  }

  /** date-fns `getHours`: the hour of the day, 0..23. */
  function HourOf(t: int): (h: int)
    ensures 0 <= h < 24
    ensures DayStart(DayOf(t)) + h * MinutesPerHour <= t < DayStart(DayOf(t)) + (h + 1) * MinutesPerHour
  {
    (t % MinutesPerDay) / MinutesPerHour
  }

  /** date-fns `getDay`: 0 = Sunday .. 6 = Saturday. Day 0 was a Thursday. */
  function Weekday(d: int): (w: int)
    ensures 0 <= w < 7
  {
    (d + 4) % 7
  }

  /** date-fns `set(day, {hours: hour, minutes: 0, ...})`; hours outside 0..23 roll
      over into the neighbouring days as `Date.setHours` does. */
  function AtHour(d: int, hour: int): (t: int)
    ensures 0 <= hour < 24 ==> DayOf(t) == d && HourOf(t) == hour && t % MinutesPerHour == 0
  {
    DayStart(d) + hour * MinutesPerHour
  }

  /** A time between midnight starting day `d` and the next midnight falls on day `d`. */
  lemma DayOfWithin(t: int, d: int)
    requires DayStart(d) <= t < DayStart(d) + MinutesPerDay
    ensures DayOf(t) == d
  {
    var e := DayOf(t);
    assert DayStart(e) <= t < DayStart(e) + MinutesPerDay;
    assert (e - d) * MinutesPerDay == DayStart(e) - DayStart(d);
  }
}
