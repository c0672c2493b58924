/** `isSlotAvailable`: may this exact start time be booked for this plan? */
module SlotPredicate {
  import opened Wrappers
  import opened Seqs
  import opened Calendar
  import opened Availability
  import opened Rules

  /** The last minute that can still be booked: the end of day today + 20. */
  function HorizonEnd(clock: Clock): (t: int)
    ensures forall s :: s > t <==> DayOf(s) > clock.today + BOOKING_WINDOW_DAYS - 1
  {
    EndOfDay(clock.today + BOOKING_WINDOW_DAYS - 1)
  }

  /** Window `w`, placed on day `day`, holds the whole interval [start, end). */
  predicate WindowHolds(w: Window, day: int, start: int, end: int)
  {
    start >= DayStart(day) + w.start && end <= DayStart(day) + w.end
  }

  /** The `inAdminHours` test: some window of the day holds [start, end). */
  predicate InAdminHours(slots: seq<Window>, day: int, start: int, end: int)
    ensures InAdminHours(slots, day, start, end) <==>
      exists k :: 0 <= k < |slots| && DayStart(day) + slots[k].start <= start && end <= DayStart(day) + slots[k].end
  {
    Any(slots, (w: Window) => WindowHolds(w, day, start, end))
  }

  /** `isSlotAvailable`, checks in the source's order: missing input, past,
      beyond the horizon, rest day, outside every window, conflict, evening rule. */
  function IsSlotAvailable(slotTime: Option<int>, plan: Option<Plan>, snap: Snapshot, clock: Clock): (ok: bool)
    ensures slotTime.None? || plan.None? ==> !ok
    ensures slotTime.Some? && slotTime.value < clock.now ==> !ok
    ensures slotTime.Some? && DayOf(slotTime.value) > clock.today + BOOKING_WINDOW_DAYS - 1 ==> !ok
    ensures slotTime.Some? && EffectiveAvailability(DayOf(slotTime.value), snap.overrides, snap.schedule).Rest? ==> !ok
  {
    if slotTime.None? || plan.None? || slotTime.value < clock.now then false
    else if slotTime.value > HorizonEnd(clock) then false
    else
      var s, p := slotTime.value, plan.value;
      var dayAvailability := EffectiveAvailability(DayOf(s), snap.overrides, snap.schedule);
      if dayAvailability.Rest? then false
      else
        var totalEndTime := s + Occupied(p.duration, p.restTime);
        if !InAdminHours(dayAvailability.slots, DayOf(s), s, totalEndTime) then false
        else
          var dayBookings := DayBookings(snap.bookings, DayOf(s));
          if HasBookingConflict(s, totalEndTime, dayBookings) then false
          else CheckEveningRules(s, p, dayBookings)
  }

  /** The checks of `isSlotAvailable`, each stated on the whole snapshot rather
      than through the filtered day list. */
  predicate SlotConditions(s: int, p: Plan, snap: Snapshot, clock: Clock)
  {
    var day := DayOf(s);
    var avail := EffectiveAvailability(day, snap.overrides, snap.schedule);
    var end := s + Occupied(p.duration, p.restTime);
    && clock.now <= s
    && day <= clock.today + BOOKING_WINDOW_DAYS - 1
    && avail.Open?
    && (exists k :: 0 <= k < |avail.slots| && DayStart(day) + avail.slots[k].start <= s && end <= DayStart(day) + avail.slots[k].end)
    && (forall j :: 0 <= j < |snap.bookings| && OnDay(snap.bookings[j], day) ==>
          !Overlap(s, end, snap.bookings[j].startTime.value, BookingEnd(snap.bookings[j])))
    && (HourOf(s) >= EveningHour ==>
          forall j :: 0 <= j < |snap.bookings| && OnDay(snap.bookings[j], day) && IsEvening(snap.bookings[j]) ==>
            !IsLong(p.duration) && !IsLong(snap.bookings[j].duration))
  }

  /** An accepted start time overlaps no booking of its day. */
  lemma AcceptedClashesWithNoBooking(s: int, p: Plan, snap: Snapshot, clock: Clock)
    requires IsSlotAvailable(Some(s), Some(p), snap, clock)
    ensures forall j :: 0 <= j < |snap.bookings| && OnDay(snap.bookings[j], DayOf(s)) ==>
      !Overlap(s, s + Occupied(p.duration, p.restTime), snap.bookings[j].startTime.value, BookingEnd(snap.bookings[j]))
  {
    var dayBookings := DayBookings(snap.bookings, DayOf(s));
    forall j | 0 <= j < |snap.bookings| && OnDay(snap.bookings[j], DayOf(s))
      ensures !Overlap(s, s + Occupied(p.duration, p.restTime), snap.bookings[j].startTime.value, BookingEnd(snap.bookings[j]))
    {
      var i :| 0 <= i < |dayBookings| && dayBookings[i] == snap.bookings[j];
    }
  }

  /** An accepted evening start time shares its evening with no long booking, and
      is itself short when its evening has bookings. */
  lemma AcceptedKeepsEveningRule(s: int, p: Plan, snap: Snapshot, clock: Clock)
    requires IsSlotAvailable(Some(s), Some(p), snap, clock)
    ensures HourOf(s) >= EveningHour ==>
      forall j :: 0 <= j < |snap.bookings| && OnDay(snap.bookings[j], DayOf(s)) && IsEvening(snap.bookings[j]) ==>
        !IsLong(p.duration) && !IsLong(snap.bookings[j].duration)
  {
    var dayBookings := DayBookings(snap.bookings, DayOf(s));
    if HourOf(s) >= EveningHour {
      forall j | 0 <= j < |snap.bookings| && OnDay(snap.bookings[j], DayOf(s)) && IsEvening(snap.bookings[j])
        ensures !IsLong(p.duration) && !IsLong(snap.bookings[j].duration)
      {
        var i :| 0 <= i < |dayBookings| && dayBookings[i] == snap.bookings[j];
      }
    }
  }

  /** An accepted start time meets every check. */
  lemma AcceptedMeetsConditions(s: int, p: Plan, snap: Snapshot, clock: Clock)
    requires IsSlotAvailable(Some(s), Some(p), snap, clock)
    ensures SlotConditions(s, p, snap, clock)
  {
    AcceptedClashesWithNoBooking(s, p, snap, clock);
    AcceptedKeepsEveningRule(s, p, snap, clock);
  }

  /** A start time that meets every check is accepted. */
  lemma ConditionsAccepted(s: int, p: Plan, snap: Snapshot, clock: Clock)
    requires SlotConditions(s, p, snap, clock)
    ensures IsSlotAvailable(Some(s), Some(p), snap, clock)
  {
  }

  /** The predicate is exactly the conjunction of its checks. */
  lemma SlotAvailableIff(s: int, p: Plan, snap: Snapshot, clock: Clock)
    ensures IsSlotAvailable(Some(s), Some(p), snap, clock) <==> SlotConditions(s, p, snap, clock)
  {
    if IsSlotAvailable(Some(s), Some(p), snap, clock) {
      AcceptedMeetsConditions(s, p, snap, clock);
    } else if SlotConditions(s, p, snap, clock) {
      ConditionsAccepted(s, p, snap, clock);
    }
  }

  /** A start time whose occupied interval no window of its open day holds is refused. */
  lemma RefusedOutsideWindows(s: int, p: Plan, snap: Snapshot, clock: Clock)
    requires var day := DayOf(s);
      var avail := EffectiveAvailability(day, snap.overrides, snap.schedule);
      avail.Open? &&
      forall k :: 0 <= k < |avail.slots| ==> !WindowHolds(avail.slots[k], day, s, s + Occupied(p.duration, p.restTime))
    ensures !IsSlotAvailable(Some(s), Some(p), snap, clock)
  {
  }

  /** A start time whose occupied interval overlaps a booking of its day is refused. */
  lemma RefusedByBooking(s: int, p: Plan, snap: Snapshot, clock: Clock, j: int)
    requires 0 <= j < |snap.bookings| && OnDay(snap.bookings[j], DayOf(s))
    requires Overlap(s, s + Occupied(p.duration, p.restTime), snap.bookings[j].startTime.value, BookingEnd(snap.bookings[j]))
    ensures !IsSlotAvailable(Some(s), Some(p), snap, clock)
  {
    var dayBookings := DayBookings(snap.bookings, DayOf(s));
    assert snap.bookings[j] in dayBookings;
    var i :| 0 <= i < |dayBookings| && dayBookings[i] == snap.bookings[j];
    assert Blocks(dayBookings[i], s, s + Occupied(p.duration, p.restTime));
  }
}
