/** What the slot predicate guarantees about the bookings it admits: a new
    booking made through it never overlaps another booking of its day, keeps
    a long evening session alone in its evening, and lies inside one opening
    window. */
module Invariants {
  import opened Wrappers
  import opened Calendar
  import opened Availability
  import opened Rules
  import opened SlotPredicate

  /** The booking the submission flow stores for slot `s` and plan `p`
      (duration and rest are copied from the plan). */
  function NewBooking(s: int, p: Plan): (b: Booking)
    ensures b.startTime == Some(s) && BookingEnd(b) == s + Occupied(p.duration, p.restTime)
    ensures b.duration == p.duration && b.restTime == p.restTime
  {
    Booking(Some(s), p.duration, p.restTime)
  }

  /** No two bookings starting on the same day occupy a common minute. */
  ghost predicate NoSameDayOverlap(bs: seq<Booking>)
  {
    forall i, j ::
      (0 <= i < |bs| && 0 <= j < |bs| && i != j && bs[i].startTime.Some? && bs[j].startTime.Some? &&
       DayOf(bs[i].startTime.value) == DayOf(bs[j].startTime.value)) ==>
      !Overlap(bs[i].startTime.value, BookingEnd(bs[i]), bs[j].startTime.value, BookingEnd(bs[j]))
  }

  /** Two evening bookings of the same day are both shorter than an hour. */
  ghost predicate EveningLoadOk(bs: seq<Booking>)
  {
    forall i, j ::
      (0 <= i < |bs| && 0 <= j < |bs| && i != j && IsEvening(bs[i]) && IsEvening(bs[j]) &&
       DayOf(bs[i].startTime.value) == DayOf(bs[j].startTime.value)) ==>
      !IsLong(bs[i].duration) && !IsLong(bs[j].duration)
  }

  /** Booking an accepted slot keeps every day free of overlapping bookings. */
  lemma {:induction false} AcceptedBookingKeepsNoOverlap(s: int, p: Plan, snap: Snapshot, clock: Clock)
    requires NoSameDayOverlap(snap.bookings)
    requires IsSlotAvailable(Some(s), Some(p), snap, clock)
    ensures NoSameDayOverlap(snap.bookings + [NewBooking(s, p)])
  {
    SlotAvailableIff(s, p, snap, clock);
    var bs := snap.bookings + [NewBooking(s, p)];
    var n := |snap.bookings|;
    forall i, j | 0 <= i < |bs| && 0 <= j < |bs| && i != j && bs[i].startTime.Some? && bs[j].startTime.Some? &&
      DayOf(bs[i].startTime.value) == DayOf(bs[j].startTime.value)
      ensures !Overlap(bs[i].startTime.value, BookingEnd(bs[i]), bs[j].startTime.value, BookingEnd(bs[j]))
    {
      if i == n {
        assert OnDay(snap.bookings[j], DayOf(s));
      } else if j == n {
        assert OnDay(snap.bookings[i], DayOf(s));
      } else {
        assert bs[i] == snap.bookings[i] && bs[j] == snap.bookings[j];
      }
    }
  }

  /** Booking an accepted slot keeps the evening load rule's invariant: a long
      evening session has its evening to itself. */
  lemma {:induction false} AcceptedBookingKeepsEveningLoad(s: int, p: Plan, snap: Snapshot, clock: Clock)
    requires EveningLoadOk(snap.bookings)
    requires IsSlotAvailable(Some(s), Some(p), snap, clock)
    ensures EveningLoadOk(snap.bookings + [NewBooking(s, p)])
  {
    SlotAvailableIff(s, p, snap, clock);
    var bs := snap.bookings + [NewBooking(s, p)];
    var n := |snap.bookings|;
    forall i, j | 0 <= i < |bs| && 0 <= j < |bs| && i != j && IsEvening(bs[i]) && IsEvening(bs[j]) &&
      DayOf(bs[i].startTime.value) == DayOf(bs[j].startTime.value)
      ensures !IsLong(bs[i].duration) && !IsLong(bs[j].duration)
    {
      if i == n {
        assert OnDay(snap.bookings[j], DayOf(s));
      } else if j == n {
        assert OnDay(snap.bookings[i], DayOf(s));
      } else {
        assert bs[i] == snap.bookings[i] && bs[j] == snap.bookings[j];
      }
    }
  }

  /** A same-day evening booking of an hour or more refuses every further
      evening slot of that day, whatever the candidate plan. */
  lemma LongEveningBookingBlocksEvening(s: int, p: Plan, snap: Snapshot, clock: Clock, j: int)
    requires 0 <= j < |snap.bookings|
    requires OnDay(snap.bookings[j], DayOf(s)) && IsEvening(snap.bookings[j]) && IsLong(snap.bookings[j].duration)
    requires HourOf(s) >= EveningHour
    ensures !IsSlotAvailable(Some(s), Some(p), snap, clock)
  {
    SlotAvailableIff(s, p, snap, clock);
  }

  /** An evening slot for a plan of an hour or more is refused once the day has
      any evening booking. */
  lemma LongPlanNeedsEmptyEvening(s: int, p: Plan, snap: Snapshot, clock: Clock, j: int)
    requires 0 <= j < |snap.bookings|
    requires OnDay(snap.bookings[j], DayOf(s)) && IsEvening(snap.bookings[j])
    requires HourOf(s) >= EveningHour && IsLong(p.duration)
    ensures !IsSlotAvailable(Some(s), Some(p), snap, clock)
  {
    SlotAvailableIff(s, p, snap, clock);
  }

  /** An accepted slot lies in the booking window [now, end of today + 20] and
      its whole occupied interval lies inside one window of its day; when that
      day's windows end by 24:00, the booking does not run past midnight. */
  lemma AcceptedSlotFitsWindow(s: int, p: Plan, snap: Snapshot, clock: Clock)
    requires IsSlotAvailable(Some(s), Some(p), snap, clock)
    ensures clock.now <= s <= HorizonEnd(clock)
    ensures var avail := EffectiveAvailability(DayOf(s), snap.overrides, snap.schedule);
      avail.Open? &&
      exists k :: 0 <= k < |avail.slots| && WindowHolds(avail.slots[k], DayOf(s), s, s + Occupied(p.duration, p.restTime))
    ensures var avail := EffectiveAvailability(DayOf(s), snap.overrides, snap.schedule);
      avail.Open? && (forall k :: 0 <= k < |avail.slots| ==> avail.slots[k].end <= MinutesPerDay) ==>
      s + Occupied(p.duration, p.restTime) <= DayStart(DayOf(s) + 1)
  {
    SlotAvailableIff(s, p, snap, clock);
  }
}
