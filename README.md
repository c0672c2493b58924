# Booking availability engine

A Dafny model of the availability and slot-generation engine of a
single-provider booking application. Given a snapshot (the stored bookings,
the administrator's per-date overrides, the weekly default schedule) and a
service plan (session length plus a rest buffer), the engine decides which
start times can be booked.

- `Availability.EffectiveAvailability` resolves a day to `Rest` or
  `Open(windows)`. An override for that date comes first. Otherwise the
  weekday's default entry decides. Otherwise the day is open 09:00-22:00.
- `Rules.HasBookingConflict` is the half-open overlap test. Each booking
  occupies `duration + restTime` minutes from its start.
- `Rules.CheckEveningRules` is the evening-load rule for start hours 19 and later.
- `SlotPredicate.IsSlotAvailable` runs the checks in the source's order:
  missing input, past, beyond the 21-day horizon, rest day, not inside one
  window, conflict with that day's bookings, evening rule.
- `SlotGenerator.GenerateAvailableTimeSlotsForHour` is the loop over the
  offsets 0, 10, …, 50 minutes past the hour. It is proved equal to the spec
  function `AvailableSlotsForHour`.
- `HourSummary.GetHourSummary` classifies a calendar cell as unavailable
  (expired / not yet open), rest, available with a count, or full.
- `Csv.ConvertBookingsToCsv` is the quoting and joining step of the CSV
  export. It is proved against a reader for the same format: reading the
  export gives back the header row and the rows.

Time is modelled as whole minutes since local midnight of 1 January 1970,
and a calendar day as a day index (`DayOf(t) = t / 1440`). A window
`"HH:MM"` becomes minutes after midnight. The clock is an explicit
`Clock(now, today)` parameter. `now` is in whole minutes: for whole-minute
slots, "slot is before the real instant" is the same test as "slot is before
that instant rounded up to the minute", so passing the rounded-up minute is
exact. The horizon `endOfDay(today + 20)` becomes the last minute of that
day, which decides `isAfter` exactly for whole-minute times. Overrides are
keyed by day index. The `yyyy-MM-dd` key the source uses is one-to-one with
local days, so the lookup is the same. `getDay` becomes `(day + 4) % 7`
(day 0 was a Thursday).

Beyond what each function states, the model proves these properties:
- Committing an accepted slot (the booking transaction re-checks the
  predicate, then stores a booking that copies the plan's duration and rest)
  keeps every day free of overlapping bookings:
  `Invariants.AcceptedBookingKeepsNoOverlap`.
- The same commit keeps the evening rule's invariant, under which a long
  evening session is alone in its evening: `Invariants.AcceptedBookingKeepsEveningLoad`.
- `HourSummary.MidnightEndWindowShowsFull` shows that the source reads a
  window ending at "00:00" in two different ways. The hour summary treats
  that end as hour 24. The slot predicate places it at the midnight that
  starts the day, so no slot fits in such a window. When every window of an
  open day ends at "00:00", a covered cell inside the booking window
  therefore shows "full" for any plan that takes time.

## Model

| member | source | states |
|---|---|---|
| `Calendar.DayOf` | src/utils.js:129-130 | the date key of a time is the day whose midnight-to-midnight span contains it |
| `Calendar.EndOfDay` | src/utils.js:114 | `endOfDay` at minute precision is the last minute of that same day: it lies on day d and the next minute lies on day d + 1 |
| `Calendar.HourOf` | src/utils.js:105-106 | `getHours` is in 0..23 and the time lies in that hour of its day |
| `Calendar.Weekday` | src/utils.js:84 | `getDay` is a weekday index in 0..6 |
| `Calendar.AtHour` | src/utils.js:151 | `set(day, {hours})` for an hour 0..23 is on that day, at that hour, on the hour |
| `Seqs.Any` | src/utils.js:96-101 | `some` is true iff some element satisfies the predicate |
| `Seqs.Filter` | src/utils.js:130 | `filter` returns no more elements than it is given, each of them satisfying the predicate, and every satisfying element appears in the result |
| `Seqs.FilterCounts` | src/utils.js:130 | `filter` keeps each satisfying element exactly as often as it occurs, and no other element |
| `Seqs.FilterConcat` | src/utils.js:130 | `filter` keeps order: filtering a concatenation concatenates the filtered parts in the same order |
| `Availability.EffectiveAvailability` | src/utils.js:78-93 | an existing override is returned unchanged; otherwise a weekday entry gives rest iff `isOpen` is false and its windows when open; otherwise 09:00-22:00 |
| `Availability.RestIff` | src/utils.js:78-93 | a day is rest iff its override is rest, or it has no override and its weekday entry is closed |
| `Availability.OpenWindowsSource` | src/utils.js:78-93 | an open day's windows are the override's, the weekday default's or the fallback's |
| `Availability.SameWeekdaySameDefault` | src/utils.js:83-92 | two days without override on the same weekday resolve identically |
| `Rules.HasBookingConflict` | src/utils.js:95-101 | true iff some booking with a start time has `start < bookingStart + duration + restTime` and `end > bookingStart` |
| `Rules.OverlapSymmetric` | src/utils.js:100 | the half-open overlap test is symmetric |
| `Rules.DisjointNeverConflicts` | src/utils.js:95-101 | a candidate disjoint from every booking's occupied interval has no conflict |
| `Rules.ConflictSymmetric` | src/utils.js:95-101 | checking booking A against B and B against A agree |
| `Rules.IsEvening` | src/utils.js:106 | a booking counts as evening iff it has a start time at or after 19:00 of its own day |
| `Rules.DayBookings` | src/utils.js:130 | the day's bookings are exactly the bookings with a start time on that date |
| `Rules.CheckEveningRules` | src/utils.js:104-110 | before 19:00 it passes; from 19:00 it passes iff every same-day evening booking and the candidate plan are shorter than 60 minutes (vacuous when the evening is empty) |
| `SlotPredicate.HorizonEnd` | src/utils.js:114 | a time is after the horizon iff its day is later than today + 20 |
| `SlotPredicate.InAdminHours` | src/utils.js:121-127 | true iff some window, placed on the slot's day, has `windowStart <= slot` and `slot + duration + restTime <= windowEnd` |
| `SlotPredicate.IsSlotAvailable` | src/utils.js:112-117 | false for a missing slot or plan, for a slot before now, for a slot after the end of day today + 20, and on a rest day, whatever the other inputs |
| `SlotPredicate.SlotAvailableIff` | src/utils.js:112-136 | accepted iff `SlotConditions` holds: not past, within the horizon, the day is open, one window holds the whole occupied interval, no same-day booking overlaps it, and the evening rule holds |
| `SlotPredicate.AcceptedMeetsConditions` | src/utils.js:112-136 | an accepted start time meets every one of those checks |
| `SlotPredicate.ConditionsAccepted` | src/utils.js:112-136 | a start time meeting every one of those checks is accepted |
| `SlotPredicate.AcceptedClashesWithNoBooking` | src/utils.js:129-131 | an accepted start time's occupied interval overlaps no booking that starts on its day (the filtered list is the whole day) |
| `SlotPredicate.AcceptedKeepsEveningRule` | src/utils.js:129-133 | at 19:00 or later, an accepted start time shares its day with no evening booking unless both it and that booking are under 60 minutes |
| `SlotPredicate.RefusedOutsideWindows` | src/utils.js:121-127 | a start time whose occupied interval no window of its open day holds is refused |
| `SlotPredicate.RefusedByBooking` | src/utils.js:129-131 | a start time whose occupied interval overlaps a booking of its day is refused |
| `Invariants.NewBooking` | src/App.js:183 | the stored booking starts at the slot, copies the plan's duration and rest time, and so occupies the plan's duration plus rest |
| `Invariants.AcceptedBookingKeepsNoOverlap` | src/App.js:175-187 | storing a booking for an accepted slot keeps all same-day bookings pairwise non-overlapping |
| `Invariants.AcceptedBookingKeepsEveningLoad` | src/utils.js:104-110 | storing a booking for an accepted slot keeps "two evening bookings of a day are both under 60 minutes" |
| `Invariants.LongEveningBookingBlocksEvening` | src/utils.js:108 | with a same-day evening booking of 60 minutes or more, every evening slot is refused |
| `Invariants.LongPlanNeedsEmptyEvening` | src/utils.js:107 | a plan of 60 minutes or more is refused an evening slot once the day has an evening booking |
| `Invariants.AcceptedSlotFitsWindow` | src/utils.js:113-127 | an accepted slot is in [now, end of today + 20], its occupied interval lies in one open window, and it ends by midnight when the windows end by 24:00 |
| `SlotGenerator.GridFilterShape` | src/utils.js:140-147 | after n offsets: at most n results, strictly increasing, on the 10-minute grid below hourStart + 10n, and a grid time is present iff it is accepted |
| `SlotGenerator.GridFilterSingle` | src/utils.js:140-147 | when exactly grid time j is accepted, the output is [hourStart + 10j] (or empty when j is past the offsets tried) |
| `SlotGenerator.GridFilterEmpty` | src/utils.js:140-147 | the offsets tried yield nothing iff none of their grid times is accepted |
| `SlotGenerator.HourSlotsShape` | src/utils.js:138-148 | for a present hour and plan: at most 6 strictly increasing times hourStart + 10i inside the hour, and hourStart + 10i is present iff `isSlotAvailable` accepts it |
| `SlotGenerator.GeneratedSlotsShape` | src/utils.js:138-148 | empty for a missing hour or plan; in every case at most 6 strictly increasing times |
| `SlotGenerator.GeneratedSlotsAccepted` | src/utils.js:143-144 | every generated time is accepted by the predicate |
| `SlotGenerator.EmptyIffNoneAccepted` | src/utils.js:138-148 | the hour yields nothing iff the predicate refuses all six grid times |
| `SlotGenerator.SingleAcceptedOffset` | src/utils.js:140-147 | when exactly one grid time is accepted, it is the whole output |
| `SlotGenerator.GenerateAvailableTimeSlotsForHour` | src/utils.js:138-148 | the loop's result equals the specification `AvailableSlotsForHour` (so it is deterministic for a snapshot) |
| `HourSummary.HourPart` | src/utils.js:159-160 | the hour read from an "HH:MM" bound is the h with h:00 <= bound < (h+1):00 |
| `HourSummary.EffectiveEndHour` | src/utils.js:159-161 | an end hour of 0 counts as 24; any other end hour is kept |
| `HourSummary.HourInWindows` | src/utils.js:158-163 | true iff some window has `startHour <= hour < effectiveEndHour` |
| `HourSummary.GetHourSummary` | src/utils.js:150-169 | unavailable iff before now or beyond the horizon (expired iff before now); rest iff otherwise the day is rest or no window covers the hour; available carries the generator's nonzero count; full means the generator gave nothing |
| `HourSummary.AvailableCountBounded` | src/utils.js:166-168 | an available cell shows 1..6 slots, within the horizon, on an open day, in a covering window |
| `HourSummary.RestDayGeneratesNothing` | src/utils.js:138-148 | no hour of a rest day yields a slot |
| `HourSummary.RestDayCells` | src/utils.js:150-164 | every cell of a rest day is unavailable or rest, and its generator output is empty |
| `HourSummary.MidnightEndWindowShowsFull` | src/utils.js:121-168 | when every window of an open day ends at "00:00", a covered in-horizon cell shows full |
| `HourSummary.MidnightEndGeneratesNothing` | src/utils.js:121-127 | when every window of an open day ends at "00:00", no hour of that day yields a slot for a plan that takes time |
| `Scenarios.HalfBodyAtTenIsFull` | src/utils.js:48-49 | with the sample override and 10:00 booking, hour 10 of 10 August yields nothing for the 60+15 plan, so the cell is full |
| `Scenarios.Trial30AtElevenTwentyAccepted` | src/utils.js:48-49 | on the sample data, 11:20 on 10 August accepts the 30+10 plan |
| `Scenarios.Trial30BeforeElevenTwentyRefused` | src/utils.js:48-49 | 11:00 and 11:10 collide with the sample 10:00 booking |
| `Scenarios.Trial30AfterElevenTwentyRefused` | src/utils.js:48-49 | from 11:30 on, 40 minutes no longer fit in a window of 10 August |
| `Scenarios.Trial30AtElevenOffset` | src/utils.js:48-49 | on the sample data, only 11:20 of hour 11 accepts the 30+10 plan |
| `Scenarios.Trial30AtElevenOffersOneSlot` | src/utils.js:48-49 | the generator yields exactly [11:20] for that hour |
| `Scenarios.Trial30AtElevenCell` | src/utils.js:48-49 | that cell shows one available slot |
| `Scenarios.SampleRestDays` | src/utils.js:46-49 | 9 August (override rest) and Sunday 17 August (default closed) show rest in every cell |
| `Csv.EscapeQuotes` | src/utils.js:252 | doubling quotes never shortens a field and leaves a quote-free field unchanged |
| `Csv.QuoteField` | src/utils.js:252 | a written field starts and ends with a double quote |
| `Csv.QuoteAll` | src/utils.js:252 | every field of a row is quoted, in order |
| `Csv.Join` | src/utils.js:252 | `join` of no parts is empty; otherwise the text is at least as long as the first part and begins with its first character |
| `Csv.EncodeRow` | src/utils.js:252 | a row is written as empty exactly when it has no fields, and otherwise opens with a double quote |
| `Csv.EncodeAll` | src/utils.js:252 | every row is encoded, in order |
| `Csv.EncodeRows` | src/utils.js:252 | no rows are written as empty; a text whose first row has fields opens with a double quote |
| `Csv.ConvertBookingsToCsv` | src/utils.js:235-253 | the export starts with U+FEFF, and reading it back gives the header row followed by the rows |
| `Csv.EscapedSplit` | src/utils.js:252 | the escaped text splits after its first character's escape |
| `Csv.ReadQuotedDoubled` | src/utils.js:252 | a doubled quote reads back as one quote |
| `Csv.ReadQuotedPlain` | src/utils.js:252 | any other character reads back as itself |
| `Csv.ReadQuotedRoundTrip` | src/utils.js:252 | reading an escaped field up to its closing quote gives the original text |
| `Csv.ReadFieldsFirst` | src/utils.js:252 | reading a quoted field followed by other text gives the field and that text |
| `Csv.EncodeRowCons` | src/utils.js:252 | a row of two or more fields is written as its first quoted field, a comma and the rest |
| `Csv.ReadLastField` | src/utils.js:252 | a quoted field before a newline or the end reads as a one-field row |
| `Csv.ReadNextField` | src/utils.js:252 | a quoted field before a comma reads as that field in front of the fields after the comma |
| `Csv.ReadFieldsRoundTrip` | src/utils.js:252 | a comma-joined row of quoted fields reads back as the row |
| `Csv.ReadRowRoundTrip` | src/utils.js:252 | any row, including one with no fields, reads back |
| `Csv.EncodeRowsCons` | src/utils.js:252 | several rows are written as the first row, a newline and the rest |
| `Csv.EncodeRowsSingle` | src/utils.js:252 | one row is written as that row alone |
| `Csv.ReadLastRow` | src/utils.js:252 | an encoded row alone reads back as one row |
| `Csv.ReadRowThenRows` | src/utils.js:252 | an encoded row, a newline and a text of rows read back as that row in front of those rows |
| `Csv.ReadSingleRow` | src/utils.js:252 | a one-row text reads back |
| `Csv.ReadConsRow` | src/utils.js:252 | a text of several rows reads back once the text after its first row does |
| `Csv.DecodeMarked` | src/utils.js:253 | a text of rows behind U+FEFF decodes to those rows |
| `Csv.ReadRowsRoundTrip` | src/utils.js:252 | newline-joined rows read back as the rows |

## Left out

- Firebase access (`createFirebaseUtils`, `getFirebaseConfig`), `downloadCSV` and `playClickSound`: network, DOM and audio side effects.
- The React application and hooks. The booking transaction is modelled only through what it does to the bookings: re-check the predicate, then append the booking (`Invariants.AcceptedBookingKeepsNoOverlap`). Firestore's atomicity and retry, and reschedule as delete plus create, are not modelled.
- date-fns and locale formatting: times are integer minutes in local time. Days are 1440 minutes, so daylight-saving transitions are not modelled. `formatDate` becomes the day index and `getDay` a weekday formula.
- Malformed data: windows are integers, not strings. An unparsable "HH:MM" (an invalid `Date`, against which every comparison is false) is not modelled. Booking and plan durations are integers; a missing `duration` or `restTime` (NaN arithmetic) is not modelled. Override `type` values other than `rest`/`open` are not modelled.
- Exceptions on malformed records: a booking whose `startTime` is a non-empty string that does not parse makes the day filter (src/utils.js:130) format an invalid date, which throws, so `isSlotAvailable` throws for every slot that reaches that step. An `open` override without `slots` throws at `.slots.some` (src/utils.js:121, src/utils.js:158). `Booking.startTime` is an `Option<int>` and `Open` always carries a window list, so neither exception can be expressed.
- `Csv.ConvertBookingsToCsv`: takes rows of already formatted field texts. The per-booking field derivation (date formatting, contact-type labels, status texts, the questionnaire summary and `String(field)` of non-string values) is not modelled.
- `HourSummary.GetHourSummary`: the status texts ("已過期", "未開放", "休息", "已額滿") are represented by the constructors `Expired`, `NotYetOpen`, `Rest` and `Full`.
- Constants and mock data are used only as the fixtures of `Scenarios`. `styles`, `CONTACT_TYPES` and `initialFormSystem`'s questionnaire are not modelled.
