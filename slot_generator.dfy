/** `generateAvailableTimeSlotsForHour`: the bookable start times of one hour,
    tried at 0, 10, ..., 50 minutes past it. */
module SlotGenerator {
  import opened Wrappers
  import opened Calendar
  import opened Availability
  import opened SlotPredicate

  /** Offsets tried per hour: 60 / TIME_SLOT_INTERVAL. */
  const SlotsPerHour: int := MinutesPerHour / TIME_SLOT_INTERVAL

  /** The grid times hourStart + 10i, i < n, that `accept` admits, in order of i. */
  function GridFilter(hourStart: int, n: nat, accept: int -> bool): seq<int>
  {
    if n == 0 then []
    else
      var t := hourStart + (n - 1) * TIME_SLOT_INTERVAL;
      GridFilter(hourStart, n - 1, accept) + (if accept(t) then [t] else [])
  }

  /** The first `n` grid times yield at most `n` results, strictly increasing,
      each on the grid below hourStart + 10n, and a grid time is a result
      exactly when `accept` admits it. */
  lemma {:induction false} GridFilterShape(hourStart: int, n: nat, accept: int -> bool)
    ensures var r := GridFilter(hourStart, n, accept);
      && |r| <= n
      && (forall k :: 0 <= k < |r| ==>
            hourStart <= r[k] < hourStart + n * TIME_SLOT_INTERVAL && (r[k] - hourStart) % TIME_SLOT_INTERVAL == 0)
      && (forall j, k :: 0 <= j < k < |r| ==> r[j] < r[k])
      && (forall i :: 0 <= i < n ==> (hourStart + i * TIME_SLOT_INTERVAL in r <==> accept(hourStart + i * TIME_SLOT_INTERVAL)))
  {
    if n > 0 {
      GridFilterShape(hourStart, n - 1, accept);
      var prev := GridFilter(hourStart, n - 1, accept);
      var t := hourStart + (n - 1) * TIME_SLOT_INTERVAL;
      var r := GridFilter(hourStart, n, accept);
      assert r == prev + (if accept(t) then [t] else []);
      forall i | 0 <= i < n
        ensures hourStart + i * TIME_SLOT_INTERVAL in r <==> accept(hourStart + i * TIME_SLOT_INTERVAL)
      {
        if i < n - 1 {
          assert hourStart + i * TIME_SLOT_INTERVAL != t;
          assert hourStart + i * TIME_SLOT_INTERVAL in r <==> hourStart + i * TIME_SLOT_INTERVAL in prev;
        }
      }
    }
  }

  /** When `accept` admits exactly grid time `j`, it is the whole output. */
  lemma {:induction false} GridFilterSingle(hourStart: int, n: nat, accept: int -> bool, j: int)
    requires 0 <= j
    requires forall i :: 0 <= i < n ==> (accept(hourStart + i * TIME_SLOT_INTERVAL) <==> i == j)
    ensures GridFilter(hourStart, n, accept) == if j < n then [hourStart + j * TIME_SLOT_INTERVAL] else []
  {
    if n > 0 {
      GridFilterSingle(hourStart, n - 1, accept, j);
      assert accept(hourStart + (n - 1) * TIME_SLOT_INTERVAL) <==> n - 1 == j;
    }
  }

  /** The first `n` grid times yield nothing exactly when `accept` admits none of them. */
  lemma {:induction false} GridFilterEmpty(hourStart: int, n: nat, accept: int -> bool)
    ensures GridFilter(hourStart, n, accept) == [] <==>
      forall i :: 0 <= i < n ==> !accept(hourStart + i * TIME_SLOT_INTERVAL)
  {
    if n > 0 {
      GridFilterEmpty(hourStart, n - 1, accept);
    }
  }

  /** The slot predicate for a fixed plan and snapshot, as a test on start times. */
  function Accepts(plan: Plan, snap: Snapshot, clock: Clock): int -> bool
  {
    t => IsSlotAvailable(Some(t), Some(plan), snap, clock)
  }

  lemma AcceptsApply(plan: Plan, snap: Snapshot, clock: Clock, t: int)
    ensures Accepts(plan, snap, clock)(t) == IsSlotAvailable(Some(t), Some(plan), snap, clock)
  {
  }

  /** The shape of one hour's output, for a present hour and plan. */
  lemma HourSlotsShape(hourStart: int, plan: Plan, snap: Snapshot, clock: Clock)
    ensures var r := AvailableSlotsForHour(Some(hourStart), Some(plan), snap, clock);
      && |r| <= SlotsPerHour
      && (forall j, k :: 0 <= j < k < |r| ==> r[j] < r[k])
      && (forall k :: 0 <= k < |r| ==>
            hourStart <= r[k] < hourStart + MinutesPerHour && (r[k] - hourStart) % TIME_SLOT_INTERVAL == 0)
      && (forall i :: 0 <= i < SlotsPerHour ==>
            (hourStart + i * TIME_SLOT_INTERVAL in r <==>
             IsSlotAvailable(Some(hourStart + i * TIME_SLOT_INTERVAL), Some(plan), snap, clock)))
  {
    var accept := Accepts(plan, snap, clock);
    var r := AvailableSlotsForHour(Some(hourStart), Some(plan), snap, clock);
    assert r == GridFilter(hourStart, SlotsPerHour, accept);
    GridFilterShape(hourStart, SlotsPerHour, accept);
    forall i | 0 <= i < SlotsPerHour
      ensures hourStart + i * TIME_SLOT_INTERVAL in r <==>
        IsSlotAvailable(Some(hourStart + i * TIME_SLOT_INTERVAL), Some(plan), snap, clock)
    {
      AcceptsApply(plan, snap, clock, hourStart + i * TIME_SLOT_INTERVAL);
    }
  }

  /** What the generator returns: nothing for a missing hour or plan, otherwise the
      accepted grid times of the whole hour. */
  function AvailableSlotsForHour(hourStart: Option<int>, plan: Option<Plan>, snap: Snapshot, clock: Clock): seq<int>
  {
    if hourStart.None? || plan.None? then []
    else GridFilter(hourStart.value, SlotsPerHour, Accepts(plan.value, snap, clock))
  }

  /** The generator's output: empty for a missing hour or plan, and in every
      case at most six strictly increasing times (`HourSlotsShape` says which). */
  lemma GeneratedSlotsShape(hourStart: Option<int>, plan: Option<Plan>, snap: Snapshot, clock: Clock)
    ensures hourStart.None? || plan.None? ==> AvailableSlotsForHour(hourStart, plan, snap, clock) == []
    ensures var r := AvailableSlotsForHour(hourStart, plan, snap, clock);
      && |r| <= SlotsPerHour
      && (forall j, k :: 0 <= j < k < |r| ==> r[j] < r[k])
  {
    if hourStart.Some? && plan.Some? {
      HourSlotsShape(hourStart.value, plan.value, snap, clock);
    }
  }

  /** Every generated slot is accepted by the predicate, so its whole occupied
      interval lies in an open window of its day and clashes with no booking. */
  lemma GeneratedSlotsAccepted(hourStart: Option<int>, plan: Option<Plan>, snap: Snapshot, clock: Clock, k: int)
    requires 0 <= k < |AvailableSlotsForHour(hourStart, plan, snap, clock)|
    ensures IsSlotAvailable(Some(AvailableSlotsForHour(hourStart, plan, snap, clock)[k]), plan, snap, clock)
  {
    GeneratedSlotsShape(hourStart, plan, snap, clock);
    var h, p := hourStart.value, plan.value;
    assert hourStart == Some(h) && plan == Some(p);
    HourSlotsShape(h, p, snap, clock);
    var r := AvailableSlotsForHour(Some(h), Some(p), snap, clock);
    var i := (r[k] - h) / TIME_SLOT_INTERVAL;
    assert r[k] == h + i * TIME_SLOT_INTERVAL;
  }

  /** The hour yields nothing exactly when the predicate refuses all six grid times. */
  lemma EmptyIffNoneAccepted(hourStart: int, plan: Plan, snap: Snapshot, clock: Clock)
    ensures AvailableSlotsForHour(Some(hourStart), Some(plan), snap, clock) == [] <==>
      forall i :: 0 <= i < SlotsPerHour ==>
        !IsSlotAvailable(Some(hourStart + i * TIME_SLOT_INTERVAL), Some(plan), snap, clock)
  {
    GridFilterEmpty(hourStart, SlotsPerHour, Accepts(plan, snap, clock));
  }

  /** When the predicate accepts exactly one grid time of the hour, that time is
      the whole output. */
  lemma SingleAcceptedOffset(hourStart: int, plan: Plan, snap: Snapshot, clock: Clock, j: int)
    requires 0 <= j < SlotsPerHour
    requires forall i :: 0 <= i < SlotsPerHour ==>
      (IsSlotAvailable(Some(hourStart + i * TIME_SLOT_INTERVAL), Some(plan), snap, clock) <==> i == j)
    ensures AvailableSlotsForHour(Some(hourStart), Some(plan), snap, clock) == [hourStart + j * TIME_SLOT_INTERVAL]
  {
    GridFilterSingle(hourStart, SlotsPerHour, Accepts(plan, snap, clock), j);
  }

  /** `generateAvailableTimeSlotsForHour`: one pass over the six offsets, pushing
      each accepted start time. */
  method GenerateAvailableTimeSlotsForHour(hourStart: Option<int>, plan: Option<Plan>, snap: Snapshot, clock: Clock)
    returns (slotsInHour: seq<int>)
    ensures slotsInHour == AvailableSlotsForHour(hourStart, plan, snap, clock)
  {
    if hourStart.None? || plan.None? {
      return [];
    }
    var h, p := hourStart.value, plan.value;
    ghost var accept := Accepts(p, snap, clock);
    slotsInHour := [];
    for i := 0 to SlotsPerHour
      invariant slotsInHour == GridFilter(h, i, accept)
    {
      var slotStartTime := h + i * TIME_SLOT_INTERVAL;
      var ok := IsSlotAvailable(Some(slotStartTime), plan, snap, clock);
      assert ok == accept(slotStartTime) by {
        assert plan == Some(p);
        AcceptsApply(p, snap, clock, slotStartTime);
      }
      if ok {
        slotsInHour := slotsInHour + [slotStartTime];
      }
    }
  }
}
