/** The two booking rules the slot predicate applies against one day's bookings:
    the overlap test and the evening-load rule. */
module Rules {
  import opened Seqs
  import opened Calendar
  import opened Availability

  /** Half-open intervals [s1, e1) and [s2, e2) share a minute. */
  predicate Overlap(s1: int, e1: int, s2: int, e2: int)
  {
    s1 < e2 && e1 > s2
  }

  /** The end of the interval a booking occupies: its start plus duration and rest. */
  function BookingEnd(b: Booking): int
    requires b.startTime.Some?
  {
    b.startTime.value + Occupied(b.duration, b.restTime)
  }

  /** One booking blocks the candidate interval [start, end): it has a start time
      and its occupied interval overlaps the candidate. */
  predicate Blocks(b: Booking, start: int, end: int)
  {
    b.startTime.Some? && Overlap(start, end, b.startTime.value, BookingEnd(b))
  }

  /** `hasBookingConflict`. */
  predicate HasBookingConflict(start: int, end: int, dayBookings: seq<Booking>)
    ensures HasBookingConflict(start, end, dayBookings) <==>
      exists i :: 0 <= i < |dayBookings| && dayBookings[i].startTime.Some? &&
        start < BookingEnd(dayBookings[i]) && end > dayBookings[i].startTime.value
  {
    Any(dayBookings, (b: Booking) => Blocks(b, start, end))
  }

  /** The overlap test is symmetric. */
  lemma OverlapSymmetric(s1: int, e1: int, s2: int, e2: int)
    ensures Overlap(s1, e1, s2, e2) <==> Overlap(s2, e2, s1, e1)
  {
  }

  /** Disjoint intervals never conflict: a candidate that ends by the time every
      booking starts, or starts once it has ended, is never blocked. */
  lemma DisjointNeverConflicts(start: int, end: int, dayBookings: seq<Booking>)
    requires forall i :: 0 <= i < |dayBookings| && dayBookings[i].startTime.Some? ==>
      end <= dayBookings[i].startTime.value || BookingEnd(dayBookings[i]) <= start
    ensures !HasBookingConflict(start, end, dayBookings)
  {
  }

  /** Conflict between two bookings, each checked against the other, agrees. */
  lemma ConflictSymmetric(a: Booking, b: Booking)
    requires a.startTime.Some? && b.startTime.Some?
    ensures HasBookingConflict(a.startTime.value, BookingEnd(a), [b]) <==>
            HasBookingConflict(b.startTime.value, BookingEnd(b), [a])
  {
  }

  /** The booking has a start time and it falls on `day` (same `yyyy-MM-dd` key). */
  predicate OnDay(b: Booking, day: int)
  {
    b.startTime.Some? && DayOf(b.startTime.value) == day
  }

  /** The bookings whose start falls on `day` (the `dayBookings` filter of `isSlotAvailable`). */
  function DayBookings(bookings: seq<Booking>, day: int): (r: seq<Booking>)
    ensures forall i :: 0 <= i < |r| ==> r[i] in bookings && OnDay(r[i], day)
    ensures forall i :: 0 <= i < |bookings| && OnDay(bookings[i], day) ==> bookings[i] in r
  {
    Filter(bookings, (b: Booking) => OnDay(b, day))
  }

  /** A booking that starts at 19:00 or later of its day. */
  predicate IsEvening(b: Booking)
    ensures IsEvening(b) <==>
      b.startTime.Some? && b.startTime.value >= DayStart(DayOf(b.startTime.value)) + EveningHour * MinutesPerHour
  {
    b.startTime.Some? && HourOf(b.startTime.value) >= EveningHour
  }

  /** A session of an hour or more. */
  predicate IsLong(duration: int)
  {
    duration >= 60
  }

  /** `checkEveningRules`: a candidate starting before 19:00 always passes. From
      19:00 on, a long candidate is refused once the day has any evening booking,
      and any candidate is refused once the day has a long evening booking; so it
      passes exactly when the candidate and every evening booking are short, or
      the evening is still empty. */
  predicate CheckEveningRules(slotTime: int, plan: Plan, dayBookings: seq<Booking>)
    ensures CheckEveningRules(slotTime, plan, dayBookings) <==>
      (HourOf(slotTime) >= EveningHour ==>
        forall i :: 0 <= i < |dayBookings| && IsEvening(dayBookings[i]) ==>
          !IsLong(plan.duration) && !IsLong(dayBookings[i].duration))
  {
    if HourOf(slotTime) < EveningHour then true
    else
      var eveningBookings := Filter(dayBookings, IsEvening);
      if IsLong(plan.duration) && |eveningBookings| > 0 then
        assert eveningBookings[0] in dayBookings && IsEvening(eveningBookings[0]);
        false
      else if Any(eveningBookings, (b: Booking) => IsLong(b.duration)) then false
      else true
  }
}
