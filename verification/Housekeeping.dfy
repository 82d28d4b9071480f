/** The periodic generation of housekeeping reports, section 6.3 of ECSS-E-ST-70-41C. */
module Housekeeping {
  import opened Bits
  import opened Division
  import TS = TimeStamps

  /** Whole seconds a 32-bit counter of tenths can hold. */
  type Seconds = x: int | 0 <= x <= TS.MAX_SECONDS

  datatype HousekeepingStructure = HousekeepingStructure(
    structureId: byte,
    collectionInterval: uint32,
    periodicGenerationActionStatus: bool,
    simplyCommutatedParameterIds: seq<uint16>)

  type Structures = map<byte, HousekeepingStructure>

  /** Structures are stored under their own id, with intervals the time stamp can represent. */
  predicate WellFormed(structures: Structures)
  {
    forall id :: id in structures ==>
      structures[id].structureId == id && structures[id].collectionInterval <= TS.MAX_SECONDS
  }

  predicate Enabled(structures: Structures, id: byte)
  {
    id in structures && structures[id].periodicGenerationActionStatus
  }

  /** How many collection times of an interval there are after time 0 and up to `t`. */
  function Periods(t: nat, interval: nat): nat
    requires interval > 0
  {
    t / interval
  }

  /** The test that decides whether a structure is reported by a call at `now` expected at `expected`. */
  predicate Due(interval: nat, now: Seconds, expected: nat)
  {
    interval == 0 || (now != 0 && (now % interval == 0 || expected % interval == 0))
  }

  /** Time from `now` to the next multiple of a non-zero interval; none for a zero interval. */
  function TimeToCollection(interval: nat, now: nat): nat
  {
    if interval == 0 then 0 else interval - now % interval
  }

  // ----- one call

  /** The ids below `n` that a call reports, in key order. */
  function Reported(structures: Structures, now: Seconds, expected: nat, n: nat): seq<byte>
    requires n <= 256
  {
    if n == 0 then []
    else
      var ids, id := Reported(structures, now, expected, n - 1), n - 1;
      if Enabled(structures, id) && Due(structures[id].collectionInterval, now, expected) then ids + [id] else ids
  }

  /** A call reports each structure that is enabled and due once, and no other. */
  lemma {:induction false} ReportedOnce(structures: Structures, now: Seconds, expected: nat, n: nat)
    requires n <= 256
    ensures var ids := Reported(structures, now, expected, n);
      && (forall id: byte :: id in ids <==>
            id < n && Enabled(structures, id) && Due(structures[id].collectionInterval, now, expected))
      && (forall i :: 0 <= i < |ids| ==> ids[i] < n)
      && (forall i, j :: 0 <= i < j < |ids| ==> ids[i] < ids[j])
  {
    if n > 0 {
      ReportedOnce(structures, now, expected, n - 1);
    }
  }

  function Min(a: nat, b: nat): nat
  {
    if a <= b then a else b
  }

  /** The delay a call returns, from the structures with ids below `n`. */
  function Delay(structures: Structures, now: nat, n: nat): (delay: nat)
    requires n <= 256
    ensures delay <= TS.MAX_SECONDS
  {
    if n == 0 then TS.MAX_SECONDS
    else
      var id, before := n - 1, Delay(structures, now, n - 1);
      if Enabled(structures, id) then Min(before, TimeToCollection(structures[id].collectionInterval, now))
      else before
  }

  lemma {:induction false} DelayLowest(structures: Structures, now: nat, n: nat)
    requires n <= 256
    ensures var delay := Delay(structures, now, n);
      && (forall id: byte :: id < n && Enabled(structures, id) ==>
            delay <= TimeToCollection(structures[id].collectionInterval, now))
      && (delay == TS.MAX_SECONDS || exists id: byte ::
            id < n && Enabled(structures, id) && delay == TimeToCollection(structures[id].collectionInterval, now))
  {
    if n > 0 {
      DelayLowest(structures, now, n - 1);
    }
  }

  function NextDelay(structures: Structures, now: nat): nat
  {
    Delay(structures, now, 256)
  }

  lemma ReportedNext(structures: Structures, now: Seconds, expected: nat, id: byte)
    ensures Reported(structures, now, expected, id + 1) == Reported(structures, now, expected, id) +
      if Enabled(structures, id) && Due(structures[id].collectionInterval, now, expected) then [id] else []
  {
  }

  lemma DelayNext(structures: Structures, now: nat, id: byte)
    ensures Delay(structures, now, id + 1) == if Enabled(structures, id) then
      Min(Delay(structures, now, id), TimeToCollection(structures[id].collectionInterval, now))
      else Delay(structures, now, id)
  {
  }

  /** Which structures a call reports, in terms of their fields: those with periodic generation switched on
      whose interval is zero, or divides the time of the call or the expected one, the time not being zero. */
  lemma ReportedExact(structures: Structures, now: Seconds, expected: nat, id: byte)
    ensures id in Reported(structures, now, expected, 256) <==>
      && id in structures && structures[id].periodicGenerationActionStatus
      && var i := structures[id].collectionInterval;
         i == 0 || (now > 0 && (now % i == 0 || expected % i == 0))
  {
    ReportedOnce(structures, now, expected, 256);
    hide Reported;
  }

  /** A structure with interval zero is reported by every call, and the delay is zero then. */
  lemma ZeroInterval(structures: Structures, id: byte, now: Seconds, expected: nat)
    requires Enabled(structures, id) && structures[id].collectionInterval == 0
    ensures id in Reported(structures, now, expected, 256) && NextDelay(structures, now) == 0
  {
    ReportedOnce(structures, now, expected, 256);
    DelayLowest(structures, now, 256);
  }

  /** Without an enabled structure nothing is reported, and the delay is all that a counter of tenths holds. */
  lemma NoneEnabled(structures: Structures, now: Seconds, expected: nat)
    requires forall id :: !Enabled(structures, id)
    ensures Reported(structures, now, expected, 256) == [] && NextDelay(structures, now) == 0xFFFF_FFFF / 10
  {
    NothingReported(structures, now, expected, 256);
    DelayLowest(structures, now, 256);
  }

  lemma {:induction false} NothingReported(structures: Structures, now: Seconds, expected: nat, n: nat)
    requires n <= 256 && forall id :: !Enabled(structures, id)
    ensures Reported(structures, now, expected, n) == []
  {
    if n > 0 {
      NothingReported(structures, now, expected, n - 1);
    }
  }

  predicate AllPositive(structures: Structures)
  {
    forall id :: Enabled(structures, id) ==> structures[id].collectionInterval > 0
  }

  /** `t` is a collection time of the structure. */
  predicate CollectsAt(structures: Structures, id: byte, t: nat)
  {
    Enabled(structures, id) && structures[id].collectionInterval > 0 && t % structures[id].collectionInterval == 0
  }

  lemma NoEarlierCollection(structures: Structures, now: nat, id: byte, t: nat)
    requires now < t < now + NextDelay(structures, now)
    ensures !CollectsAt(structures, id, t)
  {
    DelayLowest(structures, now, 256);
    if Enabled(structures, id) && structures[id].collectionInterval > 0 {
      SamePeriod(now, t - now, structures[id].collectionInterval);
    }
  }

  lemma DelayIsCollection(structures: Structures, now: nat) returns (id: byte)
    requires AllPositive(structures) && NextDelay(structures, now) < TS.MAX_SECONDS
    ensures CollectsAt(structures, id, now + NextDelay(structures, now)) && NextDelay(structures, now) > 0
  {
    DelayLowest(structures, now, 256);
    id :| && Enabled(structures, id)
          && NextDelay(structures, now) == TimeToCollection(structures[id].collectionInterval, now);
    NextPeriod(now, structures[id].collectionInterval);
  }

  /** The delay returned is the least positive distance to a collection time of any structure. */
  lemma DelayIsLeastDistance(structures: Structures, now: nat)
    requires AllPositive(structures)
    ensures var delay := NextDelay(structures, now);
      && delay > 0
      && (forall id, t :: now < t < now + delay ==> !CollectsAt(structures, id, t))
      && (delay < TS.MAX_SECONDS ==> exists id, t :: t == now + delay && CollectsAt(structures, id, t))
  {
    hide NextDelay, CollectsAt;
    forall id, t | now < t < now + NextDelay(structures, now)
      ensures !CollectsAt(structures, id, t)
    {
      NoEarlierCollection(structures, now, id, t);
    }
    if NextDelay(structures, now) < TS.MAX_SECONDS {
      var id := DelayIsCollection(structures, now);
    }
  }

  lemma PositiveDelay(structures: Structures, now: nat)
    requires AllPositive(structures)
    ensures NextDelay(structures, now) > 0
  {
    DelayIsLeastDistance(structures, now);
    hide NextDelay;
  }

  // ----- whole runs

  /** How often the calls after the first report `id`. */
  function Reports(structures: Structures, id: byte, times: seq<Seconds>): nat
    requires Enabled(structures, id)
  {
    if |times| <= 1 then 0
    else
      var n := |times| - 1;
      Reports(structures, id, times[..n]) +
        if id in Reported(structures, times[n], times[n - 1] + NextDelay(structures, times[n - 1]), 256) then 1 else 0
  }

  /** `t` is a multiple of the interval. */
  predicate Multiple(t: nat, interval: nat)
    requires interval > 0
  {
    t % interval == 0
  }

  /** A call expected at `expected` came no earlier and passed no multiple of the interval since,
      except that it may fall on one itself when none was expected. */
  predicate OnTime(interval: nat, expected: nat, now: nat)
    requires interval > 0
  {
    forall t :: expected < t <= now && Multiple(t, interval) ==> t == now && !Multiple(expected, interval)
  }

  /** The same, counted in multiples. */
  lemma OnTimeCounts(interval: nat, expected: nat, now: nat)
    requires interval > 0 && expected <= now
    ensures OnTime(interval, expected, now) <==>
      Periods(now, interval) - Periods(expected, interval) ==
        if Multiple(now, interval) && !Multiple(expected, interval) then 1 else 0
  {
    var i, p, q := interval, expected / interval, now / interval;
    DivMono(expected, now, i);
    if now - expected < i - expected % i {
      SamePeriod(expected, now - expected, i);
    }
    if p == q {
      forall t | expected < t <= now && Multiple(t, i)
        ensures false
      {
        DivMono(expected, t, i);
        DivMono(t, now, i);
      }
      assert Multiple(now, i) ==> now == expected;
    } else {
      NextPeriod(expected, i);
      var t := expected + (i - expected % i);
      assert Multiple(t, i) && t / i == p + 1;
      if q == p + 1 {
        forall u | expected < u <= now && Multiple(u, i)
          ensures u == t
        {
          SameMultiple(expected, u, now, i);
          SameMultiple(expected, t, now, i);
        }
        if Multiple(now, i) {
          assert now == t;
        }
      } else {
        assert t != now;
      }
    }
  }

  lemma SameMultiple(e: nat, u: nat, now: nat, i: nat)
    requires i > 0 && e < u <= now && Multiple(u, i) && now / i == e / i + 1
    ensures u == i * (e / i + 1)
  {
    DivMono(e, u, i);
    DivMono(u, now, i);
    assert u == i * (u / i) + u % i;
  }

  /** A call before the expected time reports nothing: neither it nor the expected time is a multiple. */
  predicate Quiet(interval: nat, expected: nat, now: nat)
    requires interval > 0
  {
    now == 0 || (!Multiple(now, interval) && !Multiple(expected, interval))
  }

  /** The call reports no multiple that was, or will be, reported by another call. */
  predicate NoExtra(interval: nat, expected: nat, now: nat)
    requires interval > 0
  {
    now >= expected || Quiet(interval, expected, now)
  }

  /** The call reports exactly what became due since the one before. */
  predicate Exact(interval: nat, expected: nat, now: nat)
    requires interval > 0
  {
    if now >= expected then OnTime(interval, expected, now) else Quiet(interval, expected, now)
  }

  /** Between two calls the expected time is the first that can be a collection time. */
  lemma ExpectedMultiple(structures: Structures, id: byte, before: nat)
    requires AllPositive(structures) && Enabled(structures, id)
    ensures var i, e := structures[id].collectionInterval, before + NextDelay(structures, before);
      Periods(e, i) - Periods(before, i) == if e % i == 0 then 1 else 0
  {
    var i, d := structures[id].collectionInterval, NextDelay(structures, before);
    PositiveDelay(structures, before);
    DelayLowest(structures, before, 256);
    if d < i - before % i {
      SamePeriod(before, d, i);
    } else {
      NextPeriod(before, i);
    }
  }

  /** One call, early or late: when it reports more than the multiples passed since the call before,
      and when exactly as many. */
  lemma StepReports(structures: Structures, id: byte, before: nat, now: Seconds)
    requires AllPositive(structures) && Enabled(structures, id) && before <= now
    ensures var i, e := structures[id].collectionInterval, before + NextDelay(structures, before);
      var reports, passed := if Due(i, now, e) then 1 else 0, Periods(now, i) - Periods(before, i);
      && (reports <= passed <==> NoExtra(i, e, now))
      && (reports == passed <==> Exact(i, e, now))
  {
    var i, d := structures[id].collectionInterval, NextDelay(structures, before);
    var e := before + d;
    PositiveDelay(structures, before);
    if now < e {
      DelayLowest(structures, before, 256);
      SamePeriod(before, now - before, i);
    } else {
      ExpectedMultiple(structures, id, before);
      DivMono(e, now, i);
      OnTimeCounts(i, e, now);
      hide NextDelay, OnTime;
      CountSteps(now / i, e / i, before / i, now % i, e % i, now == e);
    }
  }

  lemma CountSteps(n: int, e: int, b: int, nr: int, er: int, same: bool)
    requires n >= e && e - b == if er == 0 then 1 else 0
    requires n == e && nr == 0 ==> same
    requires same ==> n == e && nr == er
    ensures var reports := if nr == 0 || er == 0 then 1 else 0;
      && reports <= n - b
      && (reports == n - b <==> n - e == if nr == 0 && er != 0 then 1 else 0)
  {
  }

  predicate Forward(times: seq<Seconds>)
  {
    forall k :: 0 < k < |times| ==> times[k - 1] <= times[k]
  }

  /** When call `k` was expected. */
  function Expected(structures: Structures, times: seq<Seconds>, k: nat): nat
    requires 0 < k < |times|
  {
    times[k - 1] + NextDelay(structures, times[k - 1])
  }

  /** The reports from call `a` to call `b`, less the multiples between them. */
  function Surplus(structures: Structures, id: byte, times: seq<Seconds>, a: nat, b: nat): int
    requires Enabled(structures, id) && structures[id].collectionInterval > 0 && a <= b < |times|
  {
    var i := structures[id].collectionInterval;
    Reports(structures, id, times[a..b + 1]) - (Periods(times[b], i) - Periods(times[a], i))
  }

  lemma SurplusStep(structures: Structures, id: byte, times: seq<Seconds>, a: nat, b: nat)
    requires AllPositive(structures) && Enabled(structures, id) && a <= b < |times| && Forward(times)
    ensures a == b ==> Surplus(structures, id, times, a, b) == 0
    ensures a < b ==>
      var i, e := structures[id].collectionInterval, Expected(structures, times, b);
      var step := Surplus(structures, id, times, a, b) - Surplus(structures, id, times, a, b - 1);
      (step <= 0 <==> NoExtra(i, e, times[b])) && (step == 0 <==> Exact(i, e, times[b]))
  {
    ReportsStep(structures, id, times[a..b + 1]);
    if a < b {
      assert times[a..b + 1][..b - a] == times[a..b];
      StepReports(structures, id, times[b - 1], times[b]);
    }
    hide NextDelay, NoExtra, Exact, Due, Periods, Reports;
  }

  /** No stretch of the run has more reports than multiples. */
  predicate NeverDoubled(structures: Structures, id: byte, times: seq<Seconds>)
    requires Enabled(structures, id) && structures[id].collectionInterval > 0
  {
    forall a, b :: 0 <= a <= b < |times| ==> Surplus(structures, id, times, a, b) <= 0
  }

  /** Every stretch of the run has as many reports as multiples. */
  predicate NeverOff(structures: Structures, id: byte, times: seq<Seconds>)
    requires Enabled(structures, id) && structures[id].collectionInterval > 0
  {
    forall a, b :: 0 <= a <= b < |times| ==> Surplus(structures, id, times, a, b) == 0
  }

  /** The calls after `a` up to `b` report nothing extra, or exactly what they should. */
  predicate NoneExtra(structures: Structures, interval: nat, times: seq<Seconds>, a: nat, b: nat)
    requires interval > 0 && b < |times|
  {
    forall k :: a < k <= b ==> NoExtra(interval, Expected(structures, times, k), times[k])
  }

  predicate AllExact(structures: Structures, interval: nat, times: seq<Seconds>, a: nat, b: nat)
    requires interval > 0 && b < |times|
  {
    forall k :: a < k <= b ==> Exact(interval, Expected(structures, times, k), times[k])
  }

  lemma {:induction false} StretchBound(structures: Structures, id: byte, times: seq<Seconds>, a: nat, b: nat)
    requires AllPositive(structures) && Enabled(structures, id) && a <= b < |times| && Forward(times)
    ensures var i := structures[id].collectionInterval;
      && (NoneExtra(structures, i, times, a, b) ==> Surplus(structures, id, times, a, b) <= 0)
      && (AllExact(structures, i, times, a, b) ==> Surplus(structures, id, times, a, b) == 0)
    decreases b
  {
    hide Surplus, NoExtra, Exact, Expected, Forward;
    SurplusStep(structures, id, times, a, b);
    if a < b {
      StretchBound(structures, id, times, a, b - 1);
    }
  }

  /** Over any run forward in time: no stretch has a report too many if and only if every early call
      is a quiet one; and reports and multiples agree on every stretch if and only if every call is
      quiet when it is early and on time when it is not. */
  lemma RunReports(structures: Structures, id: byte, times: seq<Seconds>)
    requires AllPositive(structures) && Enabled(structures, id) && Forward(times)
    ensures var i := structures[id].collectionInterval;
      && (NeverDoubled(structures, id, times) <==>
            forall k :: 0 < k < |times| ==> NoExtra(i, Expected(structures, times, k), times[k]))
      && (NeverOff(structures, id, times) <==>
            forall k :: 0 < k < |times| ==> Exact(i, Expected(structures, times, k), times[k]))
  {
    hide Surplus, NoExtra, Exact, Expected;
    var i := structures[id].collectionInterval;
    forall a, b | 0 <= a <= b < |times|
      ensures NoneExtra(structures, i, times, a, b) ==> Surplus(structures, id, times, a, b) <= 0
      ensures AllExact(structures, i, times, a, b) ==> Surplus(structures, id, times, a, b) == 0
    {
      StretchBound(structures, id, times, a, b);
    }
    forall k | 0 < k < |times|
      ensures Surplus(structures, id, times, k - 1, k) <= 0 <==> NoExtra(i, Expected(structures, times, k), times[k])
      ensures Surplus(structures, id, times, k - 1, k) == 0 <==> Exact(i, Expected(structures, times, k), times[k])
    {
      SurplusStep(structures, id, times, k - 1, k - 1);
      SurplusStep(structures, id, times, k - 1, k);
    }
  }

  /** Calls made exactly when they are due report every multiple of every enabled interval once. */
  lemma PunctualRun(structures: Structures, id: byte, times: seq<Seconds>)
    requires AllPositive(structures) && Enabled(structures, id) && |times| > 0
    requires forall k :: 0 < k < |times| ==> times[k] == times[k - 1] + NextDelay(structures, times[k - 1])
    ensures var i := structures[id].collectionInterval;
      Reports(structures, id, times) == Periods(times[|times| - 1], i) - Periods(times[0], i)
  {
    RunReports(structures, id, times);
    assert Surplus(structures, id, times, 0, |times| - 1) == 0;
    assert times[0..|times|] == times;
  }

  /** Whenever a call comes early, after time 0, and a multiple was expected, that multiple is
      reported by the early call and again by the one at its time. */
  lemma EarlyCallDoubles(structures: Structures, id: byte, before: Seconds, early: Seconds, expected: Seconds)
    requires AllPositive(structures) && Enabled(structures, id)
    requires expected as int == before + NextDelay(structures, before) && before <= early < expected && early > 0
    requires Multiple(expected, structures[id].collectionInterval)
    ensures var i := structures[id].collectionInterval;
      Reports(structures, id, [before, early, expected]) == 2 && Periods(expected, i) - Periods(before, i) == 1
  {
    var times: seq<Seconds> := [before, early, expected];
    ExpectedMultiple(structures, id, before);
    hide Reported, NextDelay, Reports;
    assert times[..2] == [before, early] && times[..2][..1] == [before];
    ReportsStep(structures, id, times[..1]);
    ReportsStep(structures, id, times[..2]);
    ReportsStep(structures, id, times);
  }

  /** For one: an interval of 10, and calls at 5, 7 and 10. */
  lemma EarlyCallExample(structures: Structures)
    requires structures == map[1 := HousekeepingStructure(1, 10, true, [])]
    ensures Reports(structures, 1, [5, 7, 10]) == 2 && Periods(10, 10) - Periods(5, 10) == 1
  {
    DelayLowest(structures, 5, 256);
    assert Enabled(structures, 1);
    EarlyCallDoubles(structures, 1, 5, 7, 10);
  }

  lemma ReportsStep(structures: Structures, id: byte, times: seq<Seconds>)
    requires Enabled(structures, id) && |times| > 0
    ensures |times| == 1 ==> Reports(structures, id, times) == 0
    ensures var n := |times| - 1;
      n > 0 ==>
        var e := times[n - 1] + NextDelay(structures, times[n - 1]);
        Reports(structures, id, times) ==
          Reports(structures, id, times[..n]) + if Due(structures[id].collectionInterval, times[n], e) then 1 else 0
  {
    if |times| > 1 {
      var n := |times| - 1;
      ReportedOnce(structures, times[n], times[n - 1] + NextDelay(structures, times[n - 1]), 256);
    }
    hide Due, NextDelay;
  }

  // ----- the source's loop

  class HousekeepingService {
    var housekeepingStructures: Structures
    /** The ids of the structures reported so far. */
    var reported: seq<byte>

    ghost predicate Valid()
      reads this
    {
      WellFormed(housekeepingStructures)
    }

    /** `housekeepingParametersReport`: a report for an existing structure. */
    method HousekeepingParametersReport(structureId: byte)
      modifies this`reported
      ensures reported == old(reported) + if structureId in housekeepingStructures then [structureId] else []
    {
      if structureId !in housekeepingStructures {
        return;
      }
      reported := reported + [structureId];
    }

    /** One pass of the loop of `reportPendingStructures`. */
    method ReportIfDue(key: byte, currentTime: Seconds, previousTime: Seconds, expectedDelay: Seconds, next: Seconds)
      returns (nextCollection: Seconds)
      requires Valid() && key in housekeepingStructures
      modifies this`reported
      ensures var interval := housekeepingStructures[key].collectionInterval;
        var enabled := Enabled(housekeepingStructures, key);
        && reported == old(reported) +
             (if enabled && Due(interval, currentTime, previousTime as int + expectedDelay) then [key] else [])
        && nextCollection == if enabled then Min(next, TimeToCollection(interval, currentTime)) else next
    {
      nextCollection := next;
      var structure := housekeepingStructures[key];
      if !structure.periodicGenerationActionStatus {
        return;
      }
      if structure.collectionInterval == 0 {
        HousekeepingParametersReport(structure.structureId);
        nextCollection := 0;
        return;
      }
      if currentTime != 0 && (currentTime % structure.collectionInterval == 0 ||
           (previousTime as int + expectedDelay) % 0x1_0000_0000 % structure.collectionInterval == 0) {
        HousekeepingParametersReport(structure.structureId);
      }
      var structureTimeToCollection := structure.collectionInterval - currentTime % structure.collectionInterval;
      if nextCollection > structureTimeToCollection {
        nextCollection := structureTimeToCollection;
      }
    }

    /** `reportPendingStructures`: report what is due and return the time to the next collection. */
    method ReportPendingStructures(currentTime: Seconds, previousTime: Seconds, expectedDelay: Seconds)
      returns (nextCollection: Seconds)
      requires Valid()
      modifies this`reported
      ensures reported == old(reported) +
        Reported(housekeepingStructures, currentTime, previousTime as int + expectedDelay, 256)
      ensures nextCollection == NextDelay(housekeepingStructures, currentTime)
    {
      nextCollection := 0xFFFF_FFFF / 10;
      ghost var expected := previousTime as int + expectedDelay;
      for key := 0 to 256
        invariant reported == old(reported) + Reported(housekeepingStructures, currentTime, expected, key)
        invariant nextCollection == Delay(housekeepingStructures, currentTime, key)
      {
        ReportedNext(housekeepingStructures, currentTime, expected, key);
        DelayNext(housekeepingStructures, currentTime, key);
        if key in housekeepingStructures {
          nextCollection := ReportIfDue(key, currentTime, previousTime, expectedDelay, nextCollection);
        }
        hide Reported, Delay;
        assert reported == old(reported) + Reported(housekeepingStructures, currentTime, expected, key + 1);
        assert nextCollection == Delay(housekeepingStructures, currentTime, key + 1);
      }
    }
  }
}
