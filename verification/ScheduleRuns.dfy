/** Whole runs of the time-based schedule: no activity is released before the margin is over, and a
    run that leaves the schedule unordered. */
module ScheduleRuns {
  import opened Bits
  import opened Messages
  import opened Parser
  import opened Schedule
  import opened Scheduling
  import TS = TimeStamps

  /** The steps that give an activity its release time, and the time they are made at. */
  predicate GivesTime(step: Step)
  {
    step.Insert? || step.Shift? || step.ShiftIds?
  }

  function MadeAt(step: Step): Ticks
    requires GivesTime(step)
  {
    step.now
  }

  lemma OneShiftedMembers(list: Activities, id: RequestId, seconds: int, now: Ticks)
    ensures forall a :: a in OneShifted(list, id, seconds, now) ==> a in list || a.releaseTime >= Limit(now)
  {
    hide FindId, TS.Shifted, Limit;
    var r := OneShifted(list, id, seconds, now);
    forall a | a in r
      ensures a in list || a.releaseTime >= Limit(now)
    {
      var i :| 0 <= i < |r| && r[i] == a;
      assert i == FindId(list, id) || a == list[i];
    }
  }

  lemma {:induction false} IdsShiftedMembers(list: Activities, d: seq<byte>, p: nat, n: nat, seconds: int, now: Ticks)
    ensures forall a :: a in IdsShifted(list, d, p, n, seconds, now) ==> a in list || a.releaseTime >= Limit(now)
    decreases n
  {
    hide OneShifted, ReadId, AfterId, Limit;
    if n > 0 {
      var one := OneShifted(list, ReadId(d, p), seconds, now);
      OneShiftedMembers(list, ReadId(d, p), seconds, now);
      IdsShiftedMembers(one, d, AfterId(d, p), n - 1, seconds, now);
    }
  }

  lemma OneDeletedMembers(list: Activities, id: RequestId)
    ensures forall a :: a in OneDeleted(list, id) ==> a in list
  {
    hide FindId;
  }

  lemma {:induction false} IdsDeletedMembers(list: Activities, d: seq<byte>, p: nat, n: nat)
    ensures forall a :: a in IdsDeleted(list, d, p, n) ==> a in list
    decreases n
  {
    hide OneDeleted, ReadId, AfterId;
    if n > 0 {
      OneDeletedMembers(list, ReadId(d, p));
      IdsDeletedMembers(OneDeleted(list, ReadId(d, p)), d, AfterId(d, p), n - 1);
    }
  }

  lemma SortedMembers(list: Activities)
    ensures forall a :: a in Sorted(list) <==> a in list
  {
    SortedCorrect(list);
    hide Sorted;
    forall a
      ensures a in Sorted(list) <==> a in list
    {
      assert a in multiset(Sorted(list)) <==> a in multiset(list);
    }
  }

  lemma InsertMembersTimed(list: Activities, d: seq<byte>, p: nat, now: Ticks, id: RequestId)
    ensures forall a :: a in Inserted(list, d, p, now, id) ==> a in list || a.releaseTime >= Limit(now)
  {
    var accepted := AcceptedOf(list, d, p, now, id);
    AcceptedBounds(d, After(d, p, 2), HalfAt(d, p), Room(list), now, id);
    SortedMembers(list + accepted);
    hide Sorted, Accepted, Limit;
  }

  lemma ShiftMembersTimed(list: Activities, seconds: int, now: Ticks)
    requires list != [] && Ordered(list) && EvenShift(list, Shift(seconds, now))
    ensures forall a :: a in ShiftAll(list, seconds, now) ==> a in list || a.releaseTime >= Limit(now)
  {
    if ShiftAccepted(list, seconds, now) {
      EvenShiftSafe(list, seconds, now);
      hide Limit, Wraps, Earliest, TS.Shifted;
    }
  }

  /** An activity that is new after a step has a release time at or after the limit of that step. */
  lemma StepTimes(list: Activities, step: Step)
    requires Ordered(list) && EvenShift(list, step)
    ensures forall a :: a in Next(list, step) && a !in list ==>
      GivesTime(step) && a.releaseTime >= Limit(MadeAt(step))
  {
    hide Inserted, ShiftAll, IdsShifted, IdsDeleted, Sorted, Limit, EvenShift, Ordered;
    match step
    case Insert(d, p, now, id) => InsertMembersTimed(list, d, p, now, id);
    case Release(now) =>
    case Shift(seconds, now) =>
      if list != [] {
        ShiftMembersTimed(list, seconds, now);
      }
    case ShiftIds(d, p, n, seconds, now) =>
      SortedMembers(IdsShifted(list, d, p, n, seconds, now));
      IdsShiftedMembers(list, d, p, n, seconds, now);
    case DeleteIds(d, p, n) => IdsDeletedMembers(list, d, p, n);
    case Reset =>
  }

  /** The activity has been in the schedule as it is since step `j`, an insertion or a shift that
      was made when its release time still was at or after the limit. */
  predicate PendingSince(steps: seq<Step>, a: Activity, j: nat)
  {
    && j < |steps| && GivesTime(steps[j]) && a.releaseTime >= Limit(MadeAt(steps[j]))
    && forall l :: j < l <= |steps| ==> a in AfterSteps(steps[..l]).list
  }

  lemma LastStep(steps: seq<Step>)
    requires steps != []
    ensures var n := |steps| - 1; AfterSteps(steps).list == Next(AfterSteps(steps[..n]).list, steps[n])
  {
    hide Next, Added, Removed;
  }

  lemma StillPending(steps: seq<Step>, a: Activity, j: nat)
    requires steps != [] && PendingSince(steps[..|steps| - 1], a, j) && a in AfterSteps(steps).list
    ensures PendingSince(steps, a, j)
  {
    hide Limit, AfterSteps;
    var n := |steps| - 1;
    forall l | j < l <= |steps|
      ensures a in AfterSteps(steps[..l]).list
    {
      if l <= n {
        assert steps[..n][..l] == steps[..l];
      } else {
        assert steps[..l] == steps;
      }
    }
  }

  lemma NewlyPending(steps: seq<Step>, a: Activity)
    requires steps != [] && a in AfterSteps(steps).list
    requires GivesTime(steps[|steps| - 1]) && a.releaseTime >= Limit(MadeAt(steps[|steps| - 1]))
    ensures PendingSince(steps, a, |steps| - 1)
  {
    hide Limit, AfterSteps;
    assert steps[..|steps|] == steps;
  }

  lemma {:induction false} GivenInTime(steps: seq<Step>, a: Activity) returns (j: nat)
    requires AllEven(steps) && steps != [] && a in AfterSteps(steps).list
    ensures PendingSince(steps, a, j)
    decreases |steps|
  {
    hide Limit, EvenShift, Next, Ordered, AfterSteps, PendingSince;
    var n := |steps| - 1;
    var init := steps[..n];
    EvenPrefix(steps, n);
    ReachableOrdered(init);
    LastStep(steps);
    EvenAt(steps, n);
    StepTimes(AfterSteps(init).list, steps[n]);
    if a in AfterSteps(init).list {
      NothingYet(init);
      j := GivenInTime(init, a);
      StillPending(steps, a, j);
    } else {
      NewlyPending(steps, a);
      j := n;
    }
  }

  lemma EvenAt(steps: seq<Step>, n: nat)
    requires AllEven(steps) && n < |steps|
    ensures EvenShift(AfterSteps(steps[..n]).list, steps[n])
  {
  }

  lemma NothingYet(steps: seq<Step>)
    ensures steps == [] ==> AfterSteps(steps).list == []
  {
  }

  /** Never early: whenever a call releases an activity, its release time has come, and the margin is
      over since the insertion or shift that gave it that time. */
  lemma NeverEarly(steps: seq<Step>, now: Ticks) returns (j: nat)
    requires AllEven(steps) && AfterSteps(steps).list != []
    requires Released(AfterSteps(steps).list, now) != AfterSteps(steps).list
    ensures var a := AfterSteps(steps).list[0];
      && Removed(AfterSteps(steps).list, Release(now)) == [a] && now >= a.releaseTime
      && PendingSince(steps, a, j) && now >= Limit(MadeAt(steps[j]))
      && (MadeAt(steps[j]) + 600 < TS.TICK_LIMIT ==> now >= MadeAt(steps[j]) + 600)
  {
    var a := AfterSteps(steps).list[0];
    NothingYet(steps);
    j := GivenInTime(steps, a);
    LimitExact(MadeAt(steps[j]));
    hide Limit;
  }

  lemma TwoSteps(s: Step, t: Step)
    ensures AfterSteps([s, t]).list == Next(Next([], s), t)
  {
    hide Next, AfterSteps;
    LastStep([s, t]);
    LastStep([s]);
    NothingYet([]);
    assert [s, t][..1] == [s] && [s][..0] == [];
  }

  /** Two activities that a shift by twenty seconds takes apart, as a detail report of them. */
  function FarApart(request: Packet, id: RequestId): Activities
  {
    [Activity(request, id, 1000), Activity(request, id, 0xFFFF_FF9C)]
  }

  lemma FarApartInserted(request: Packet, id: RequestId)
    requires IsSlot(request)
    ensures Inserted([], DetailBytes(FarApart(request, id), 2), 0, 0, id) == Replayed(FarApart(request, id), id)
  {
    LimitExact(0);
    hide IsSlot, Inserted, DetailBytes, Replayed, Limit;
    DetailReportReplays(FarApart(request, id), DetailBytes(FarApart(request, id), 2), 0, id);
  }

  /** One insertion and one shift reach a schedule that is out of order. */
  lemma UnorderedReached(request: Packet, id: RequestId) returns (steps: seq<Step>)
    requires IsSlot(request)
    ensures |steps| == 2 && !Ordered(AfterSteps(steps).list)
  {
    hide IsSlot, Inserted, DetailBytes, Limit, Ordered, ShiftAll, AfterSteps;
    var d := DetailBytes(FarApart(request, id), 2);
    steps := [Insert(d, 0, 0, id), Shift(20, 0)];
    TwoSteps(Insert(d, 0, 0, id), Shift(20, 0));
    FarApartInserted(request, id);
    UnevenShift(Replayed(FarApart(request, id), id));
  }
}
