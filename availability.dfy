/** The data the engine reads (plans, bookings, opening windows, per-date
    overrides, the weekly default schedule) and the resolver that turns them
    into one day's effective availability. */
module Availability {
  import opened Wrappers
  import opened Calendar

  /** An opening window `{start: "HH:MM", end: "HH:MM"}`, as minutes after midnight.
      "24:00" is 1440; "00:00" is 0. */
  datatype Window = Window(start: int, end: int)

  /** A day's availability: `{type: 'rest'}` or `{type: 'open', slots}`. */
  datatype DayAvailability = Rest | Open(slots: seq<Window>)

  /** One weekday's entry of the default schedule. */
  datatype DefaultDay = DefaultDay(isOpen: bool, slots: seq<Window>)

  /** Default schedule: weekday (0 = Sunday) to entry; a weekday may have none. */
  type Schedule = map<int, DefaultDay>

  /** Admin overrides, keyed by the calendar day they apply to. */
  type Overrides = map<int, DayAvailability>

  /** A service plan: session length and the rest buffer after it, in minutes. */
  datatype Plan = Plan(duration: int, restTime: int)

  /** A stored booking; `startTime` may be missing in malformed records. */
  datatype Booking = Booking(startTime: Option<int>, duration: int, restTime: int)

  /** The read-only data every decision is made against. */
  datatype Snapshot = Snapshot(bookings: seq<Booking>, overrides: Overrides, schedule: Option<Schedule>)

  /** "now" (whole minutes) and "today" (day index), passed in instead of read from the clock. */
  datatype Clock = Clock(now: int, today: int)

  /** The window used when neither an override nor a default entry applies: 09:00-22:00. */
  const FallbackWindow: Window := Window(9 * MinutesPerHour, 22 * MinutesPerHour)

  /** Total minutes a plan or booking occupies. */
  function Occupied(duration: int, restTime: int): int
  {
    duration + restTime
  }

  /** `getEffectiveAvailability`: the override for the date wins; else the weekday
      default decides rest or open with its windows; else 09:00-22:00. */
  function EffectiveAvailability(day: int, overrides: Overrides, schedule: Option<Schedule>): (r: DayAvailability)
    ensures day in overrides ==> r == overrides[day]
    ensures day !in overrides && schedule.Some? && Weekday(day) in schedule.value ==>
      (r.Rest? <==> !schedule.value[Weekday(day)].isOpen) &&
      (r.Open? ==> r.slots == schedule.value[Weekday(day)].slots)
    ensures day !in overrides && (schedule.None? || Weekday(day) !in schedule.value) ==>
      r == Open([FallbackWindow])
  {
    if day in overrides then overrides[day]
    else if schedule.Some? && Weekday(day) in schedule.value then
      var entry := schedule.value[Weekday(day)];
      if entry.isOpen then Open(entry.slots) else Rest
    else Open([FallbackWindow])
  }

  /** A day resolves to rest exactly when its override says rest, or when it has no
      override and its weekday's default entry is closed. */
  lemma RestIff(day: int, overrides: Overrides, schedule: Option<Schedule>)
    ensures EffectiveAvailability(day, overrides, schedule).Rest? <==>
      (day in overrides && overrides[day].Rest?) ||
      (day !in overrides && schedule.Some? && Weekday(day) in schedule.value && !schedule.value[Weekday(day)].isOpen)
  {
  }

  /** The windows of an open day come from exactly one source: the override,
      the weekday default, or the fallback. */
  lemma OpenWindowsSource(day: int, overrides: Overrides, schedule: Option<Schedule>)
    requires EffectiveAvailability(day, overrides, schedule).Open?
    ensures var ws := EffectiveAvailability(day, overrides, schedule).slots;
      (day in overrides && ws == overrides[day].slots) ||
      (day !in overrides && schedule.Some? && Weekday(day) in schedule.value && ws == schedule.value[Weekday(day)].slots) ||
      (day !in overrides && ws == [FallbackWindow])
  {
  }

  /** Two days of the same weekday without overrides resolve the same way. */
  lemma SameWeekdaySameDefault(d1: int, d2: int, overrides: Overrides, schedule: Option<Schedule>)
    requires d1 !in overrides && d2 !in overrides
    requires Weekday(d1) == Weekday(d2)
    ensures EffectiveAvailability(d1, overrides, schedule) == EffectiveAvailability(d2, overrides, schedule)
  {
  }
}
