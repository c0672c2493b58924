/** `getHourSummary`: the status of one calendar cell (a day and an hour). */
module HourSummary {
  import opened Wrappers
  import Seqs
  import opened Calendar
  import opened Availability
  import opened SlotPredicate
  import opened SlotGenerator

  /** Why a cell is unavailable: "已過期" (expired) or "未開放" (not yet open). */
  datatype UnavailableReason = Expired | NotYetOpen

  /** The cell status; `Rest` carries "休息", `Full` carries "已額滿". */
  datatype Summary = Unavailable(reason: UnavailableReason) | Rest | Available(count: nat) | Full

  /** The plan assumed for the calendar overview before one is chosen. */
  const DefaultPlan: Plan := Plan(10, 5)

  /** The hour of an "HH:MM" window bound (`parseInt` of the part before ':'). */
  function HourPart(minutes: int): (h: int)
    ensures h * MinutesPerHour <= minutes < (h + 1) * MinutesPerHour
  {
    minutes / MinutesPerHour
  }

  /** A window's end hour, where "00:xx" counts as 24. */
  function EffectiveEndHour(w: Window): (h: int)
    ensures HourPart(w.end) == 0 ==> h == 24
    ensures HourPart(w.end) != 0 ==> h == HourPart(w.end)
  {
    var endHour := HourPart(w.end);
    if endHour == 0 then 24 else endHour
  }

  /** The `isHourInAdminSlots` test. */
  predicate HourInWindows(hour: int, slots: seq<Window>)
    ensures HourInWindows(hour, slots) <==>
      exists k :: 0 <= k < |slots| && HourPart(slots[k].start) <= hour < EffectiveEndHour(slots[k])
  {
    Seqs.Any(slots, (w: Window) => HourPart(w.start) <= hour < EffectiveEndHour(w))
  }

  /** `getHourSummary`. */
  function GetHourSummary(day: int, hour: int, plan: Option<Plan>, snap: Snapshot, clock: Clock): (r: Summary)
    ensures var start := AtHour(day, hour);
      r.Unavailable? <==> start < clock.now || DayOf(start) > clock.today + BOOKING_WINDOW_DAYS - 1
    ensures r.Unavailable? ==> (r.reason == Expired <==> AtHour(day, hour) < clock.now)
    ensures var avail := EffectiveAvailability(day, snap.overrides, snap.schedule);
      r.Rest? <==> !r.Unavailable? && (avail.Rest? || !HourInWindows(hour, avail.slots))
    ensures var slots := AvailableSlotsForHour(Some(AtHour(day, hour)), Some(plan.GetOr(DefaultPlan)), snap, clock);
      (r.Available? ==> r.count == |slots| > 0) && (r.Full? ==> slots == [])
  {
    var slotDateTimeStart := AtHour(day, hour);
    if slotDateTimeStart < clock.now || slotDateTimeStart > HorizonEnd(clock) then
      Unavailable(if slotDateTimeStart < clock.now then Expired else NotYetOpen)
    else
      var dayAvailability := EffectiveAvailability(day, snap.overrides, snap.schedule);
      if dayAvailability.Rest? then Summary.Rest
      else if !HourInWindows(hour, dayAvailability.slots) then Summary.Rest
      else
        var planToCheck := plan.GetOr(DefaultPlan);
        var availableSlots := AvailableSlotsForHour(Some(slotDateTimeStart), Some(planToCheck), snap, clock);
        if |availableSlots| > 0 then Available(|availableSlots|) else Full
  }

  /** An available cell shows between one and six free slots, and only for an
      hour in the booking window, on an open day, inside one of its windows. */
  lemma AvailableCountBounded(day: int, hour: int, plan: Option<Plan>, snap: Snapshot, clock: Clock)
    requires GetHourSummary(day, hour, plan, snap, clock).Available?
    ensures 1 <= GetHourSummary(day, hour, plan, snap, clock).count <= SlotsPerHour
    ensures clock.now <= AtHour(day, hour) <= HorizonEnd(clock)
    ensures var avail := EffectiveAvailability(day, snap.overrides, snap.schedule);
      avail.Open? && HourInWindows(hour, avail.slots)
  {
    GeneratedSlotsShape(Some(AtHour(day, hour)), Some(plan.GetOr(DefaultPlan)), snap, clock);
  }

  /** No start time on the grid of an hour of `day` is bookable when `day` is a rest day. */
  lemma RestDayGeneratesNothing(day: int, hour: int, plan: Option<Plan>, snap: Snapshot, clock: Clock)
    requires 0 <= hour < 24
    requires EffectiveAvailability(day, snap.overrides, snap.schedule).Rest?
    ensures AvailableSlotsForHour(Some(AtHour(day, hour)), plan, snap, clock) == []
  {
    var h := AtHour(day, hour);
    GeneratedSlotsShape(Some(h), plan, snap, clock);
    if plan.Some? {
      var p := plan.value;
      assert plan == Some(p);
      forall i | 0 <= i < SlotsPerHour
        ensures !IsSlotAvailable(Some(h + i * TIME_SLOT_INTERVAL), Some(p), snap, clock)
      {
        DayOfWithin(h + i * TIME_SLOT_INTERVAL, day);
      }
      EmptyIffNoneAccepted(h, p, snap, clock);
    }
  }

  /** On a rest day (by override or by the weekday default) every cell of the
      booking window shows rest, and the generator offers nothing. */
  lemma RestDayCells(day: int, hour: int, plan: Option<Plan>, snap: Snapshot, clock: Clock)
    requires 0 <= hour < 24
    requires EffectiveAvailability(day, snap.overrides, snap.schedule).Rest?
    ensures GetHourSummary(day, hour, plan, snap, clock).Unavailable? || GetHourSummary(day, hour, plan, snap, clock).Rest?
    ensures AvailableSlotsForHour(Some(AtHour(day, hour)), plan, snap, clock) == []
  {
    RestDayGeneratesNothing(day, hour, plan, snap, clock);
  }

  /** A window written to end at "00:00" is read two ways: the summary counts
      its hours as open (end hour 0 taken as 24), but the slot predicate places
      its end at midnight at the start of the day, so no slot fits. Such a cell,
      when no other window holds a slot, shows "full" rather than "rest" or
      "available". */
  lemma MidnightEndWindowShowsFull(day: int, hour: int, plan: Option<Plan>, snap: Snapshot, clock: Clock)
    requires 0 <= hour < 24
    requires var p := plan.GetOr(DefaultPlan); Occupied(p.duration, p.restTime) > 0
    requires clock.now <= AtHour(day, hour) && DayOf(AtHour(day, hour)) <= clock.today + BOOKING_WINDOW_DAYS - 1
    requires var avail := EffectiveAvailability(day, snap.overrides, snap.schedule);
      avail.Open? && HourInWindows(hour, avail.slots) &&
      forall k :: 0 <= k < |avail.slots| ==> avail.slots[k].end == 0
    ensures GetHourSummary(day, hour, plan, snap, clock) == Full
  {
    MidnightEndGeneratesNothing(day, hour, plan.GetOr(DefaultPlan), snap, clock);
  }

  /** When every window of an open day ends at midnight starting the day, no
      grid time of any hour of that day is bookable for a plan that takes time. */
  lemma MidnightEndGeneratesNothing(day: int, hour: int, p: Plan, snap: Snapshot, clock: Clock)
    requires 0 <= hour < 24
    requires Occupied(p.duration, p.restTime) > 0
    requires var avail := EffectiveAvailability(day, snap.overrides, snap.schedule);
      avail.Open? && forall k :: 0 <= k < |avail.slots| ==> avail.slots[k].end == 0
    ensures AvailableSlotsForHour(Some(AtHour(day, hour)), Some(p), snap, clock) == []
  {
    var h := AtHour(day, hour);
    forall i | 0 <= i < SlotsPerHour
      ensures !IsSlotAvailable(Some(h + i * TIME_SLOT_INTERVAL), Some(p), snap, clock)
    {
      DayOfWithin(h + i * TIME_SLOT_INTERVAL, day);
      RefusedOutsideWindows(h + i * TIME_SLOT_INTERVAL, p, snap, clock);
    }
    EmptyIffNoneAccepted(h, p, snap, clock);
  }
}
