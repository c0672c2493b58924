/** The sample data shipped with the application, and what the engine decides
    on it. Day 20310 is Sunday 10 August 2025. */
module Scenarios {
  import opened Wrappers
  import opened Calendar
  import opened Availability
  import opened SlotPredicate
  import opened SlotGenerator
  import opened HourSummary

  const Aug09: int := 20309
  const Aug10: int := 20310
  const Aug11: int := 20311
  const Aug17: int := 20317

  /** The weekly default: Monday to Saturday 09:00-19:00, Sunday closed. */
  const SampleSchedule: Schedule :=
    map[1 := DefaultDay(true, [Window(540, 1140)]), 2 := DefaultDay(true, [Window(540, 1140)]),
        3 := DefaultDay(true, [Window(540, 1140)]), 4 := DefaultDay(true, [Window(540, 1140)]),
        5 := DefaultDay(true, [Window(540, 1140)]), 6 := DefaultDay(true, [Window(540, 1140)]),
        0 := DefaultDay(false, [])]

  /** 9 August: rest; 10 August: 09:00-12:00 and 14:00-20:00; 11 August: 09:00-17:00. */
  const SampleOverrides: Overrides :=
    map[Aug09 := DayAvailability.Rest, Aug10 := Open([Window(540, 720), Window(840, 1200)]), Aug11 := Open([Window(540, 1020)])]

  /** One 60-minute session with a 15-minute rest at 10:00 on 10 August. */
  const SampleBookings: seq<Booking> := [Booking(Some(DayStart(Aug10) + 600), 60, 15)]

  const SampleSnapshot: Snapshot := Snapshot(SampleBookings, SampleOverrides, Some(SampleSchedule))

  /** The half-body plan (60 minutes, 15 rest) and the 30-minute trial (10 rest). */
  const HalfBody: Plan := Plan(60, 15)
  const Trial30: Plan := Plan(30, 10)

  /** Early on 9 August, with the whole horizon ahead. */
  const SampleClock: Clock := Clock(DayStart(Aug09), Aug09)

  /** Hour 10 of 10 August for the half-body plan: every start from 10:00 to
      10:50 collides with the 10:00 booking (which occupies 10:00-11:15), so the
      cell is full. */
  lemma HalfBodyAtTenIsFull()
    ensures AvailableSlotsForHour(Some(AtHour(Aug10, 10)), Some(HalfBody), SampleSnapshot, SampleClock) == []
    ensures GetHourSummary(Aug10, 10, Some(HalfBody), SampleSnapshot, SampleClock) == Full
  {
    var h := AtHour(Aug10, 10);
    forall i | 0 <= i < SlotsPerHour
      ensures !IsSlotAvailable(Some(h + i * TIME_SLOT_INTERVAL), Some(HalfBody), SampleSnapshot, SampleClock)
    {
      DayOfWithin(h + i * TIME_SLOT_INTERVAL, Aug10);
      RefusedByBooking(h + i * TIME_SLOT_INTERVAL, HalfBody, SampleSnapshot, SampleClock, 0);
    }
    EmptyIffNoneAccepted(h, HalfBody, SampleSnapshot, SampleClock);
  }

  /** 11:20 on 10 August fits the trial: 11:20-12:00 lies in the 09:00-12:00
      window and starts after the booking's 11:15 end. */
  lemma Trial30AtElevenTwentyAccepted()
    ensures IsSlotAvailable(Some(AtHour(Aug10, 11) + 20), Some(Trial30), SampleSnapshot, SampleClock)
  {
    var s := AtHour(Aug10, 11) + 20;
    DayOfWithin(s, Aug10);
    assert HourOf(s) == 11;
    var avail := EffectiveAvailability(Aug10, SampleOverrides, Some(SampleSchedule));
    assert avail == SampleOverrides[Aug10];
    assert DayStart(Aug10) + avail.slots[0].start <= s && s + 40 <= DayStart(Aug10) + avail.slots[0].end;
    ConditionsAccepted(s, Trial30, SampleSnapshot, SampleClock);
  }

  /** 11:00 and 11:10 on 10 August overlap the booking that occupies 10:00-11:15. */
  lemma Trial30BeforeElevenTwentyRefused(i: int)
    requires 0 <= i < 2
    ensures !IsSlotAvailable(Some(AtHour(Aug10, 11) + i * TIME_SLOT_INTERVAL), Some(Trial30), SampleSnapshot, SampleClock)
  {
    var s := AtHour(Aug10, 11) + i * TIME_SLOT_INTERVAL;
    DayOfWithin(s, Aug10);
    RefusedByBooking(s, Trial30, SampleSnapshot, SampleClock, 0);
  }

  /** From 11:30 on, 40 minutes no longer fit before 12:00, and 14:00-20:00 starts too late. */
  lemma Trial30AfterElevenTwentyRefused(i: int)
    requires 2 < i < SlotsPerHour
    ensures !IsSlotAvailable(Some(AtHour(Aug10, 11) + i * TIME_SLOT_INTERVAL), Some(Trial30), SampleSnapshot, SampleClock)
  {
    var s := AtHour(Aug10, 11) + i * TIME_SLOT_INTERVAL;
    DayOfWithin(s, Aug10);
    assert EffectiveAvailability(Aug10, SampleOverrides, Some(SampleSchedule)) == SampleOverrides[Aug10];
    RefusedOutsideWindows(s, Trial30, SampleSnapshot, SampleClock);
  }

  /** Which grid times of hour 11 on 10 August accept the 30-minute trial. */
  lemma Trial30AtElevenOffset(i: int)
    requires 0 <= i < SlotsPerHour
    ensures IsSlotAvailable(Some(AtHour(Aug10, 11) + i * TIME_SLOT_INTERVAL), Some(Trial30), SampleSnapshot, SampleClock)
      <==> i == 2
  {
    if i == 2 {
      Trial30AtElevenTwentyAccepted();
    } else if i < 2 {
      Trial30BeforeElevenTwentyRefused(i);
    } else {
      Trial30AfterElevenTwentyRefused(i);
    }
  }

  /** Hour 11 of 10 August for the 30-minute trial (40 minutes occupied): 11:00
      and 11:10 collide with the booking that occupies 10:00-11:15, 11:30 and
      later no longer fit before 12:00, so 11:20 is the one slot offered. */
  lemma Trial30AtElevenOffersOneSlot()
    ensures AvailableSlotsForHour(Some(AtHour(Aug10, 11)), Some(Trial30), SampleSnapshot, SampleClock) ==
      [AtHour(Aug10, 11) + 20]
  {
    forall i | 0 <= i < SlotsPerHour
      ensures IsSlotAvailable(Some(AtHour(Aug10, 11) + i * TIME_SLOT_INTERVAL), Some(Trial30), SampleSnapshot, SampleClock)
        <==> i == 2
    {
      Trial30AtElevenOffset(i);
    }
    SingleAcceptedOffset(AtHour(Aug10, 11), Trial30, SampleSnapshot, SampleClock, 2);
  }

  /** The calendar cell of hour 11 on 10 August shows one free slot for the trial. */
  lemma Trial30AtElevenCell()
    ensures GetHourSummary(Aug10, 11, Some(Trial30), SampleSnapshot, SampleClock) == Available(1)
  {
    Trial30AtElevenOffersOneSlot();
  }

  /** 9 August is a rest day by override and 17 August (a Sunday without
      override) by the weekly default: every cell of either shows rest. */
  lemma SampleRestDays(hour: int, plan: Option<Plan>)
    requires 0 <= hour < 24
    ensures GetHourSummary(Aug09, hour, plan, SampleSnapshot, SampleClock) == Summary.Rest
    ensures GetHourSummary(Aug17, hour, plan, SampleSnapshot, SampleClock) == Summary.Rest
  {
    assert Weekday(Aug17) == 0;
    RestDayCells(Aug09, hour, plan, SampleSnapshot, SampleClock);
    RestDayCells(Aug17, hour, plan, SampleSnapshot, SampleClock);
  }
}
