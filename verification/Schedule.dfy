/** The time-based schedule, section 6.11 of ECSS-E-ST-70-41C. */
module Schedule {
  import opened Bits
  import opened Errors
  import opened Messages
  import opened Parser
  import TS = TimeStamps

  const MAX_ACTIVITIES := 10
  const MARGIN_SECONDS := 60

  type Ticks = TS.Ticks

  datatype RequestId = RequestId(sourceID: uint16, applicationID: uint16, sequenceCount: uint16)

  datatype Activity = Activity(request: Packet, requestID: RequestId, releaseTime: Ticks)

  type Activities = seq<Activity>

  /** A request as `parseECSSTC` leaves it. */
  predicate IsSlot(request: Packet)
  {
    && request.packetType == TC && request.applicationId == DEFAULT_APPLICATION_ID
    && request.messageTypeCounter == 0 && request.packetSequenceCount == 0
    && |request.body| == TC_REQUEST_SIZE - TC_HEADER_SIZE
  }

  predicate Ordered(list: Activities)
  {
    forall i, j :: 0 <= i < j < |list| ==> list[i].releaseTime <= list[j].releaseTime
  }

  /** The earliest time a request may be accepted for: the margin after `now`, on the 32-bit counter. */
  function Limit(now: Ticks): Ticks
  {
    TS.Shifted(now, MARGIN_SECONDS)
  }

  /** The limit is the margin after `now`, except in the last minute of the counter, where it wraps. */
  lemma LimitExact(now: Ticks)
    ensures Limit(now) == (now + 600) % 0x1_0000_0000
    ensures Limit(now) == now + 600 <==> now + 600 < 0x1_0000_0000
  {
    TS.ShiftedIsSum(now, MARGIN_SECONDS);
  }

  // ----- sorting

  /** `x` placed after every activity that is not later. */
  function InsertByTime(list: Activities, x: Activity): Activities
  {
    if list == [] then [x]
    else
      var n := |list| - 1;
      if list[n].releaseTime <= x.releaseTime then list + [x] else InsertByTime(list[..n], x) + [list[n]]
  }

  /** The stable sort of `sortActivitiesReleaseTime`. */
  function Sorted(list: Activities): Activities
  {
    if list == [] then [] else InsertByTime(Sorted(list[..|list| - 1]), list[|list| - 1])
  }

  /** The activities of one release time, in list order. */
  function AtTime(list: Activities, t: Ticks): Activities
  {
    if list == [] then []
    else AtTime(list[..|list| - 1], t) + IfAtTime(list[|list| - 1], t)
  }

  lemma AtTimeAppend(list: Activities, x: Activity, t: Ticks)
    ensures AtTime(list + [x], t) == AtTime(list, t) + IfAtTime(x, t)
  {
    assert (list + [x])[..|list|] == list;
  }

  /** What `x` adds to the activities of time `t`. */
  function IfAtTime(x: Activity, t: Ticks): Activities
  {
    if x.releaseTime == t then [x] else []
  }

  lemma {:induction false} InsertAtTime(list: Activities, x: Activity, t: Ticks)
    requires Ordered(list)
    ensures AtTime(InsertByTime(list, x), t) == AtTime(list, t) + IfAtTime(x, t)
    decreases |list|
  {
    hide AtTime, IfAtTime;
    if list != [] && list[|list| - 1].releaseTime > x.releaseTime {
      var init, last := list[..|list| - 1], list[|list| - 1];
      InsertAtTime(init, x, t);
      SwapAtTime(init, InsertByTime(init, x), x, last, t);
      assert list == init + [last];
    } else {
      AtTimeAppend(list, x, t);
      assert InsertByTime(list, x) == list + [x];
    }
  }

  lemma SwapAtTime(init: Activities, inserted: Activities, x: Activity, last: Activity, t: Ticks)
    requires AtTime(inserted, t) == AtTime(init, t) + IfAtTime(x, t)
    requires x.releaseTime != last.releaseTime
    ensures AtTime(inserted + [last], t) == AtTime(init + [last], t) + IfAtTime(x, t)
  {
    AtTimeAppend(inserted, last, t);
    AtTimeAppend(init, last, t);
  }

  lemma {:induction false} InsertOrdered(list: Activities, x: Activity)
    requires Ordered(list)
    ensures Ordered(InsertByTime(list, x))
    decreases |list|
  {
    if list != [] {
      var init := list[..|list| - 1];
      InsertOrdered(init, x);
      InsertMembers(init, x);
      hide AtTime;
      forall a | a in InsertByTime(init, x)
        ensures a.releaseTime <= list[|list| - 1].releaseTime || list[|list| - 1].releaseTime <= x.releaseTime
      {
      }
    }
  }

  lemma {:induction false} InsertMembers(list: Activities, x: Activity)
    ensures |InsertByTime(list, x)| == |list| + 1
    ensures multiset(InsertByTime(list, x)) == multiset(list) + multiset{x}
    ensures forall a :: a in InsertByTime(list, x) <==> a in list || a == x
    decreases |list|
  {
    if list != [] {
      InsertMembers(list[..|list| - 1], x);
      assert list == list[..|list| - 1] + [list[|list| - 1]];
    }
  }

  /** Sorting orders the list, keeps its activities, and keeps the order within one release time. */
  lemma {:induction false} SortedCorrect(list: Activities)
    ensures Ordered(Sorted(list))
    ensures |Sorted(list)| == |list| && multiset(Sorted(list)) == multiset(list)
    ensures forall t :: AtTime(Sorted(list), t) == AtTime(list, t)
    decreases |list|
  {
    if list != [] {
      var init, x := list[..|list| - 1], list[|list| - 1];
      assert list == init + [x];
      SortedCorrect(init);
      InsertOrdered(Sorted(init), x);
      InsertMembers(Sorted(init), x);
      hide InsertByTime, Ordered, Sorted;
      forall t
        ensures AtTime(Sorted(list), t) == AtTime(list, t)
      {
        InsertAtTime(Sorted(init), x, t);
      }
    }
  }

  // ----- inserting

  function ReadId(d: seq<byte>, p: nat): RequestId
  {
    var q := After(d, p, 2);
    RequestId(HalfAt(d, p), HalfAt(d, q), HalfAt(d, After(d, q, 2)))
  }

  function AfterId(d: seq<byte>, p: nat): nat
  {
    After(d, After(d, After(d, p, 2), 2), 2)
  }

  /** The activities a request of `n` instructions at `p` adds when there is room for `room`. */
  function Accepted(d: seq<byte>, p: nat, n: nat, room: nat, now: Ticks, id: RequestId): Activities
    decreases n
  {
    if n == 0 then []
    else
      var t, q := WordAt(d, p), After(d, p, 4);
      if room == 0 || t < Limit(now) then Accepted(d, Skipped(q, TC_REQUEST_SIZE), n - 1, room, now, id)
      else
        [Activity(ParsedRequest(StringAt(d, q, TC_REQUEST_SIZE)), id, t)] +
        Accepted(d, AfterString(d, q, TC_REQUEST_SIZE), n - 1, room - 1, now, id)
  }

  /** The read position after the request. */
  function InsertEnd(d: seq<byte>, p: nat, n: nat, room: nat, now: Ticks): nat
    decreases n
  {
    if n == 0 then p
    else
      var t, q := WordAt(d, p), After(d, p, 4);
      if room == 0 || t < Limit(now) then InsertEnd(d, Skipped(q, TC_REQUEST_SIZE), n - 1, room, now)
      else InsertEnd(d, AfterString(d, q, TC_REQUEST_SIZE), n - 1, room - 1, now)
  }

  /** What the request's instructions report. */
  function InsertErrors(d: seq<byte>, p: nat, n: nat, room: nat, now: Ticks): seq<Error>
    decreases n
  {
    if n == 0 then []
    else
      var t, q := WordAt(d, p), After(d, p, 4);
      if room == 0 || t < Limit(now) then
        ReadErrors(d, p, 4) + [InstructionExecutionStartError] +
        InsertErrors(d, Skipped(q, TC_REQUEST_SIZE), n - 1, room, now)
      else
        ReadErrors(d, p, 4) + StringErrors(d, q, TC_REQUEST_SIZE) +
        InsertErrors(d, AfterString(d, q, TC_REQUEST_SIZE), n - 1, room - 1, now)
  }

  lemma RejectedNext(d: seq<byte>, p: nat, n: nat, room: nat, now: Ticks, id: RequestId)
    requires p + 68 <= |d| <= MAX_MESSAGE_SIZE && n > 0 && (room == 0 || WordAt(d, p) < Limit(now))
    ensures Accepted(d, p, n, room, now, id) == Accepted(d, p + 68, n - 1, room, now, id)
    ensures InsertErrors(d, p, n, room, now) ==
      [InstructionExecutionStartError] + InsertErrors(d, p + 68, n - 1, room, now)
  {
    hide WordAt, ParsedRequest, Limit;
  }

  lemma AcceptedNext(d: seq<byte>, p: nat, n: nat, room: nat, now: Ticks, id: RequestId)
    requires p + 68 <= |d| && n > 0 && room > 0 && WordAt(d, p) >= Limit(now)
    ensures Accepted(d, p, n, room, now, id) ==
      [Activity(ParsedRequest(StringAt(d, p + 4, TC_REQUEST_SIZE)), id, WordAt(d, p))] +
      Accepted(d, p + 68, n - 1, room - 1, now, id)
    ensures InsertErrors(d, p, n, room, now) == InsertErrors(d, p + 68, n - 1, room - 1, now)
  {
    hide WordAt, ParsedRequest, Limit;
  }

  lemma NothingLeft(d: seq<byte>, p: nat, room: nat, now: Ticks, id: RequestId)
    ensures Accepted(d, p, 0, room, now, id) == [] && InsertErrors(d, p, 0, room, now) == []
  {
  }

  /** One report for each of `n` rejected instructions. */
  function Rejections(n: nat): seq<Error>
  {
    seq(n, _ => InstructionExecutionStartError)
  }

  /** A request that fits reports exactly one error for each instruction it does not accept. */
  lemma {:induction false} InsertErrorsExact(d: seq<byte>, p: nat, n: nat, room: nat, now: Ticks, id: RequestId)
    requires p + 68 * n <= |d| <= MAX_MESSAGE_SIZE
    ensures var rejected := n - |Accepted(d, p, n, room, now, id)|;
      rejected >= 0 && InsertErrors(d, p, n, room, now) == Rejections(rejected)
    decreases n
  {
    hide ParsedRequest, StringAt, WordAt, Limit, Accepted, InsertErrors;
    if n == 0 {
      NothingLeft(d, p, room, now, id);
    } else if room == 0 || WordAt(d, p) < Limit(now) {
      RejectedNext(d, p, n, room, now, id);
      InsertErrorsExact(d, p + 68, n - 1, room, now, id);
    } else {
      AcceptedNext(d, p, n, room, now, id);
      InsertErrorsExact(d, p + 68, n - 1, room - 1, now, id);
    }
  }

  /** Framing: the read position after a request that fits depends on its count alone, never on
      which instructions were accepted. */
  lemma {:induction false} InsertFraming(d: seq<byte>, p: nat, n: nat, room: nat, now: Ticks)
    requires p + 68 * n <= |d| && |d| <= MAX_MESSAGE_SIZE
    ensures InsertEnd(d, p, n, room, now) == p + 68 * n
    decreases n
  {
    InsertEndNext(d, p, n, room, now);
    hide *;
    if n > 0 {
      InsertFraming(d, p + 68, n - 1, if room == 0 || WordAt(d, p) < Limit(now) then room else room - 1, now);
    }
  }

  lemma InsertEndNext(d: seq<byte>, p: nat, n: nat, room: nat, now: Ticks)
    requires p + 68 * n <= |d| <= MAX_MESSAGE_SIZE
    ensures n == 0 ==> InsertEnd(d, p, n, room, now) == p
    ensures n > 0 ==>
      var left := if room == 0 || WordAt(d, p) < Limit(now) then room else room - 1;
      InsertEnd(d, p, n, room, now) == InsertEnd(d, p + 68, n - 1, left, now)
  {
    hide WordAt, Limit;
  }

  lemma {:induction false} AcceptedBounds(d: seq<byte>, p: nat, n: nat, room: nat, now: Ticks, id: RequestId)
    ensures var a := Accepted(d, p, n, room, now, id);
      && |a| <= room && |a| <= n
      && (forall x :: x in a ==> x.releaseTime >= Limit(now) && x.requestID == id && IsSlot(x.request))
      && (now + 600 < TS.TICK_LIMIT ==> forall x :: x in a ==> x.releaseTime >= now + 600)
    decreases n
  {
    LimitExact(now);
    hide TS.Shifted, Limit, NumberAt;
    if n > 0 {
      var t, q := WordAt(d, p), After(d, p, 4);
      if room == 0 || t < Limit(now) {
        AcceptedBounds(d, Skipped(q, TC_REQUEST_SIZE), n - 1, room, now, id);
      } else {
        AcceptedBounds(d, AfterString(d, q, TC_REQUEST_SIZE), n - 1, room - 1, now, id);
      }
    }
  }

  function AcceptedOf(list: Activities, d: seq<byte>, p: nat, now: Ticks, id: RequestId): Activities
  {
    Accepted(d, After(d, p, 2), HalfAt(d, p), Room(list), now, id)
  }

  /** TC[11,4]: the schedule after inserting the activities of a request. */
  function Inserted(list: Activities, d: seq<byte>, p: nat, now: Ticks, id: RequestId): Activities
  {
    Sorted(list + AcceptedOf(list, d, p, now, id))
  }

  // ----- releasing

  /** One call of `executeScheduledActivity`. */
  function Released(list: Activities, now: Ticks): Activities
  {
    if list != [] && now >= list[0].releaseTime then list[1..] else list
  }

  /** The schedule after `calls` calls at the same time. */
  function ReleasedTimes(list: Activities, now: Ticks, calls: nat): Activities
  {
    if calls == 0 then list else Released(ReleasedTimes(list, now, calls - 1), now)
  }

  /** How many activities are due at `now`, counted from the front. */
  function DueCount(list: Activities, now: Ticks): (k: nat)
    ensures k <= |list|
  {
    if list == [] || list[0].releaseTime > now then 0 else 1 + DueCount(list[1..], now)
  }

  lemma {:induction false} DueSplit(list: Activities, now: Ticks)
    requires Ordered(list)
    ensures var k := DueCount(list, now);
      && (forall i :: 0 <= i < k ==> list[i].releaseTime <= now)
      && (forall i :: k <= i < |list| ==> list[i].releaseTime > now)
    decreases |list|
  {
    if list != [] && list[0].releaseTime <= now {
      var rest, k := list[1..], DueCount(list, now);
      DueSplit(rest, now);
      assert forall i :: 1 <= i < |list| ==> list[i] == rest[i - 1];
    }
  }

  /** Repeated calls at one time release exactly the activities due then, in release order, one a
      call, and nothing before its time. */
  lemma {:induction false} ReleaseExact(list: Activities, now: Ticks, calls: nat)
    requires Ordered(list)
    ensures var k := if calls <= DueCount(list, now) then calls else DueCount(list, now);
      ReleasedTimes(list, now, calls) == list[k..]
    decreases calls
  {
    DueSplit(list, now);
    if calls > 0 {
      ReleaseExact(list, now, calls - 1);
    }
  }

  // ----- shifting

  function ShiftedBy(a: Activity, seconds: int): Activity
  {
    a.(releaseTime := TS.Shifted(a.releaseTime, seconds))
  }

  function AllShifted(list: Activities, seconds: int): (r: Activities)
    ensures |r| == |list| && forall i :: 0 <= i < |list| ==> r[i] == ShiftedBy(list[i], seconds)
  {
    seq(|list|, i requires 0 <= i < |list| => ShiftedBy(list[i], seconds))
  }

  /** The release time `minmax_element` finds. */
  function Earliest(list: Activities): Ticks
    requires list != []
  {
    if |list| == 1 then list[0].releaseTime
    else
      var t := Earliest(list[1..]);
      if list[0].releaseTime <= t then list[0].releaseTime else t
  }

  lemma {:induction false} EarliestIsLeast(list: Activities) returns (a: Activity)
    requires list != []
    ensures a in list && a.releaseTime == Earliest(list)
    ensures forall x :: x in list ==> a.releaseTime <= x.releaseTime
  {
    a := list[0];
    if |list| > 1 {
      var rest := list[1..];
      var b := EarliestIsLeast(rest);
      assert forall x :: x in list ==> x == list[0] || x in rest;
      if b.releaseTime < a.releaseTime {
        a := b;
      }
    }
  }

  predicate ShiftAccepted(list: Activities, seconds: int, now: Ticks)
    requires list != []
  {
    TS.Shifted(Earliest(list), seconds) >= Limit(now)
  }

  /** TC[11,15]: shift everything, or nothing when the earliest activity would come too early. */
  function ShiftAll(list: Activities, seconds: int, now: Ticks): Activities
    requires list != []
  {
    if ShiftAccepted(list, seconds, now) then AllShifted(list, seconds) else list
  }

  /** No release time leaves the 32-bit counter. */
  predicate NoWrap(list: Activities, seconds: int)
  {
    forall a :: a in list ==> 0 <= a.releaseTime + 10 * seconds < TS.TICK_LIMIT
  }

  lemma ShiftNoWrap(t: Ticks, seconds: int)
    requires 0 <= t + 10 * seconds < TS.TICK_LIMIT
    ensures TS.Shifted(t, seconds) == t + 10 * seconds
  {
    TS.ShiftedIsSum(t, seconds);
  }

  /** Without wrap, checking the earliest activity is checking all of them; an accepted shift moves
      every activity by the offset, so that order and gaps stay; a rejected one moves nothing. */
  lemma ShiftAllSafe(list: Activities, seconds: int, now: Ticks)
    requires list != [] && NoWrap(list, seconds)
    ensures ShiftAccepted(list, seconds, now) <==>
      forall a :: a in list ==> a.releaseTime + 10 * seconds >= Limit(now)
    ensures var r := ShiftAll(list, seconds, now);
      && |r| == |list|
      && (ShiftAccepted(list, seconds, now) ==>
            forall i :: 0 <= i < |list| ==>
              r[i] == list[i].(releaseTime := list[i].releaseTime + 10 * seconds) && r[i].releaseTime >= Limit(now))
      && (ShiftAccepted(list, seconds, now) && now + 600 < TS.TICK_LIMIT ==>
            forall i :: 0 <= i < |list| ==> r[i].releaseTime >= now + 600)
      && (!ShiftAccepted(list, seconds, now) ==> r == list)
      && (Ordered(list) ==> Ordered(r))
  {
    LimitExact(now);
    hide TS.Shifted, Limit;
    forall a | a in list
      ensures TS.Shifted(a.releaseTime, seconds) == a.releaseTime + 10 * seconds
    {
      ShiftNoWrap(a.releaseTime, seconds);
    }
    var first := EarliestIsLeast(list);
    hide Earliest;
  }

  /** A shift and its opposite restore the schedule, even across a wrap of the counter. */
  lemma ShiftRestores(list: Activities, seconds: int)
    ensures AllShifted(AllShifted(list, seconds), -seconds) == list
  {
    forall i | 0 <= i < |list|
      ensures AllShifted(AllShifted(list, seconds), -seconds)[i] == list[i]
    {
      TS.ShiftBack(list[i].releaseTime, seconds);
    }
  }

  /** How often the counter wraps on the way from `t`. */
  function Wraps(t: Ticks, seconds: int): int
  {
    (t + 10 * seconds) / TS.TICK_LIMIT
  }

  lemma ShiftWraps(t: Ticks, seconds: int)
    ensures TS.Shifted(t, seconds) == t + 10 * seconds - TS.TICK_LIMIT * Wraps(t, seconds)
  {
    TS.ShiftedIsSum(t, seconds);
  }

  /** A shifted schedule is still ordered exactly when its first and last activity wrap alike. */
  lemma ShiftOrder(list: Activities, seconds: int)
    requires list != [] && Ordered(list)
    ensures var first, last := list[0].releaseTime, list[|list| - 1].releaseTime;
      Ordered(AllShifted(list, seconds)) <==> Wraps(first, seconds) == Wraps(last, seconds)
  {
    var n := |list| - 1;
    var first, last := list[0].releaseTime, list[n].releaseTime;
    var r := AllShifted(list, seconds);
    ShiftWraps(first, seconds);
    ShiftWraps(last, seconds);
    if Wraps(first, seconds) == Wraps(last, seconds) {
      forall i, j | 0 <= i < j < |list|
        ensures r[i].releaseTime <= r[j].releaseTime
      {
        WrapsBetween(first, list[i].releaseTime, last, seconds);
        WrapsBetween(first, list[j].releaseTime, last, seconds);
        ShiftWraps(list[i].releaseTime, seconds);
        ShiftWraps(list[j].releaseTime, seconds);
      }
    } else {
      assert n > 0 && r[n].releaseTime < r[0].releaseTime;
    }
  }

  lemma WrapsBetween(a: Ticks, b: Ticks, c: Ticks, seconds: int)
    requires a <= b <= c && Wraps(a, seconds) == Wraps(c, seconds)
    ensures Wraps(b, seconds) == Wraps(a, seconds)
  {
  }

  /** When the activities of an ordered schedule wrap alike, checking the earliest still checks all:
      after an accepted shift every stored time reaches the limit. */
  lemma EvenShiftSafe(list: Activities, seconds: int, now: Ticks)
    requires list != [] && Ordered(list)
    requires Wraps(list[0].releaseTime, seconds) == Wraps(list[|list| - 1].releaseTime, seconds)
    ensures ShiftAccepted(list, seconds, now) <==>
      forall i :: 0 <= i < |list| ==> AllShifted(list, seconds)[i].releaseTime >= Limit(now)
  {
    ShiftOrder(list, seconds);
    var first := EarliestIsLeast(list);
    hide Wraps, TS.Shifted, Earliest;
    assert list[0] in list;
    var k :| 0 <= k < |list| && list[k] == first;
    assert list[0].releaseTime == first.releaseTime;
    assert AllShifted(list, seconds)[0].releaseTime == TS.Shifted(Earliest(list), seconds);
  }

  /** The check is made on the wrapped time: a shift to before the epoch is accepted, however far it
      goes, exactly when the time it wraps to reaches the limit. */
  lemma ShiftBeforeEpoch(list: Activities, seconds: int, now: Ticks)
    requires list != [] && Earliest(list) + 10 * seconds < 0
    ensures ShiftAccepted(list, seconds, now) <==> (Earliest(list) + 10 * seconds) % TS.TICK_LIMIT >= Limit(now)
  {
    hide TS.Shifted, Earliest;
    TS.ShiftedIsSum(Earliest(list), seconds);
  }

  /** Two activities far apart, and a shift that takes only the later one across the end of the
      counter: it is accepted, leaves the schedule unordered, and one activity before the limit. */
  lemma UnevenShift(list: Activities)
    requires |list| == 2 && list[0].releaseTime == 1000 && list[1].releaseTime == 0xFFFF_FF9C
    ensures Ordered(list) && ShiftAccepted(list, 20, 0) && Limit(0) == 600
    ensures var r := ShiftAll(list, 20, 0); r[0].releaseTime == 1200 && r[1].releaseTime == 100 && !Ordered(r)
  {
    TS.ShiftedIsSum(1000, 20);
    TS.ShiftedIsSum(0xFFFF_FF9C, 20);
    LimitExact(0);
    var first := EarliestIsLeast(list);
    hide TS.Shifted, Limit, Earliest;
  }

  /** A shift by two hundred seconds to before the epoch that is accepted. */
  lemma EarlyShiftAccepted(list: Activities)
    requires |list| == 1 && list[0].releaseTime == 1000
    ensures ShiftAccepted(list, -200, 0) && ShiftAll(list, -200, 0)[0].releaseTime == 0xFFFF_FC18
  {
    TS.ShiftedIsSum(1000, -200);
    LimitExact(0);
    hide TS.Shifted, Limit;
  }

  // ----- single activities

  /** The first activity with the given request id, or the length of the list. */
  function FindId(list: Activities, id: RequestId): (i: nat)
    ensures i <= |list|
  {
    if list == [] || list[0].requestID == id then 0 else 1 + FindId(list[1..], id)
  }

  lemma {:induction false} FindIdFirst(list: Activities, id: RequestId)
    ensures var i := FindId(list, id);
      && (i < |list| ==> list[i].requestID == id)
      && forall j :: 0 <= j < i ==> list[j].requestID != id
    decreases |list|
  {
    if list != [] && list[0].requestID != id {
      FindIdFirst(list[1..], id);
      assert forall j :: 1 <= j < |list| ==> list[j] == list[1..][j - 1];
    }
  }

  function OneShifted(list: Activities, id: RequestId, seconds: int, now: Ticks): (r: Activities)
    ensures |r| == |list|
  {
    var i := FindId(list, id);
    if i < |list| && TS.Shifted(list[i].releaseTime, seconds) >= Limit(now) then
      list[i := ShiftedBy(list[i], seconds)]
    else list
  }

  /** The instructions of TC[11,7], before the final sort. */
  function IdsShifted(list: Activities, d: seq<byte>, p: nat, n: nat, seconds: int, now: Ticks): (r: Activities)
    ensures |r| == |list|
    decreases n
  {
    if n == 0 then list
    else IdsShifted(OneShifted(list, ReadId(d, p), seconds, now), d, AfterId(d, p), n - 1, seconds, now)
  }

  function OneDeleted(list: Activities, id: RequestId): (r: Activities)
    ensures |r| <= |list|
  {
    var i := FindId(list, id);
    if i < |list| then list[..i] + list[i + 1..] else list
  }

  /** The activity a deletion takes out. */
  function Found(list: Activities, id: RequestId): Activities
  {
    var i := FindId(list, id);
    if i < |list| then [list[i]] else []
  }

  /** TC[11,5]. */
  function IdsDeleted(list: Activities, d: seq<byte>, p: nat, n: nat): (r: Activities)
    ensures |r| <= |list|
    decreases n
  {
    if n == 0 then list else IdsDeleted(OneDeleted(list, ReadId(d, p)), d, AfterId(d, p), n - 1)
  }

  /** The reports of reading one request id. */
  function IdErrors(d: seq<byte>, p: nat): seq<Error>
  {
    var q := After(d, p, 2);
    ReadErrors(d, p, 2) + ReadErrors(d, q, 2) + ReadErrors(d, After(d, q, 2), 2)
  }

  /** What was reported after `n` shift instructions, `errors` before them. */
  function IdsShiftErrors(list: Activities, d: seq<byte>, p: nat, n: nat, seconds: int, now: Ticks,
                          errors: seq<Error>): seq<Error>
    decreases n
  {
    if n == 0 then errors
    else
      var id := ReadId(d, p);
      var i := FindId(list, id);
      var ok := i < |list| && TS.Shifted(list[i].releaseTime, seconds) >= Limit(now);
      IdsShiftErrors(OneShifted(list, id, seconds, now), d, AfterId(d, p), n - 1, seconds, now,
                     errors + IdErrors(d, p) + if ok then [] else [InstructionExecutionStartError])
  }

  function IdsDeleteErrors(list: Activities, d: seq<byte>, p: nat, n: nat, errors: seq<Error>): seq<Error>
    decreases n
  {
    if n == 0 then errors
    else
      IdsDeleteErrors(OneDeleted(list, ReadId(d, p)), d, AfterId(d, p), n - 1, errors + MatchReport(list, d, p))
  }

  /** What looking up one request id reports. */
  function MatchReport(list: Activities, d: seq<byte>, p: nat): seq<Error>
  {
    IdErrors(d, p) + if FindId(list, ReadId(d, p)) < |list| then [] else [InstructionExecutionStartError]
  }

  /** The read position after `n` request ids. */
  function AfterIds(d: seq<byte>, p: nat, n: nat): nat
    decreases n
  {
    if n == 0 then p else AfterIds(d, AfterId(d, p), n - 1)
  }

  /** The activities `n` request ids at `p` name, in request order, after those found before. */
  function Matched(list: Activities, d: seq<byte>, p: nat, n: nat, before: Activities): Activities
    decreases n
  {
    if n == 0 then before else Matched(list, d, AfterId(d, p), n - 1, before + Found(list, ReadId(d, p)))
  }

  function MatchErrors(list: Activities, d: seq<byte>, p: nat, n: nat, errors: seq<Error>): seq<Error>
    decreases n
  {
    if n == 0 then errors else MatchErrors(list, d, AfterId(d, p), n - 1, errors + MatchReport(list, d, p))
  }

  // ----- whole runs

  /** What identifies an activity for good: its request and its request id. */
  datatype Core = Core(request: Packet, requestID: RequestId)

  function Cores(list: Activities): multiset<Core>
  {
    if list == [] then multiset{}
    else Cores(list[..|list| - 1]) + multiset{Core(list[|list| - 1].request, list[|list| - 1].requestID)}
  }

  datatype Step =
    | Insert(d: seq<byte>, p: nat, now: Ticks, id: RequestId)
    | Release(now: Ticks)
    | Shift(seconds: int, now: Ticks)
    | ShiftIds(d: seq<byte>, p: nat, n: nat, seconds: int, now: Ticks)
    | DeleteIds(d: seq<byte>, p: nat, n: nat)
    | Reset

  /** The schedule and the tally of what came and went. */
  datatype Run = Run(list: Activities, accepted: multiset<Core>, gone: multiset<Core>)

  function Next(list: Activities, step: Step): Activities
  {
    match step
    case Insert(d, p, now, id) => Inserted(list, d, p, now, id)
    case Release(now) => Released(list, now)
    case Shift(seconds, now) => if list == [] then [] else ShiftAll(list, seconds, now)
    case ShiftIds(d, p, n, seconds, now) => Sorted(IdsShifted(list, d, p, n, seconds, now))
    case DeleteIds(d, p, n) => IdsDeleted(list, d, p, n)
    case Reset => []
  }

  /** The activities a step takes out: released, deleted or cleared. */
  function Removed(list: Activities, step: Step): Activities
  {
    match step
    case Release(now) => if list != [] && now >= list[0].releaseTime then [list[0]] else []
    case DeleteIds(d, p, n) => Deleted(list, d, p, n)
    case Reset => list
    case _ => []
  }

  function Deleted(list: Activities, d: seq<byte>, p: nat, n: nat): Activities
    decreases n
  {
    if n == 0 then []
    else
      Found(list, ReadId(d, p)) + Deleted(OneDeleted(list, ReadId(d, p)), d, AfterId(d, p), n - 1)
  }

  function Added(list: Activities, step: Step): Activities
  {
    match step
    case Insert(d, p, now, id) => AcceptedOf(list, d, p, now, id)
    case _ => []
  }

  /** The state after a sequence of steps from the empty schedule. */
  function AfterSteps(steps: seq<Step>): Run
  {
    if steps == [] then Run([], multiset{}, multiset{})
    else
      var r, step := AfterSteps(steps[..|steps| - 1]), steps[|steps| - 1];
      Run(Next(r.list, step), r.accepted + Cores(Added(r.list, step)), r.gone + Cores(Removed(r.list, step)))
  }

  lemma {:induction false} CoresAppend(a: Activities, b: Activities)
    ensures Cores(a + b) == Cores(a) + Cores(b)
    decreases |b|
  {
    if b == [] {
      assert a + b == a;
    } else {
      var init, x := b[..|b| - 1], b[|b| - 1];
      assert (a + b)[..|a + b| - 1] == a + init;
      CoresAppend(a, init);
    }
  }

  lemma {:induction false} CoresInsert(list: Activities, x: Activity)
    ensures Cores(InsertByTime(list, x)) == Cores(list) + multiset{Core(x.request, x.requestID)}
    decreases |list|
  {
    CoresAppend(list, [x]);
    assert Cores([x]) == multiset{Core(x.request, x.requestID)};
    if list != [] && list[|list| - 1].releaseTime > x.releaseTime {
      var init, last := list[..|list| - 1], list[|list| - 1];
      CoresInsert(init, x);
      CoresAppend(InsertByTime(init, x), [last]);
    }
  }

  lemma {:induction false} CoresSorted(list: Activities)
    ensures Cores(Sorted(list)) == Cores(list)
    decreases |list|
  {
    if list != [] {
      CoresSorted(list[..|list| - 1]);
      CoresInsert(Sorted(list[..|list| - 1]), list[|list| - 1]);
    }
  }

  lemma {:induction false} CoresSame(a: Activities, b: Activities)
    requires |a| == |b|
    requires forall i :: 0 <= i < |a| ==> a[i].request == b[i].request && a[i].requestID == b[i].requestID
    ensures Cores(a) == Cores(b)
    decreases |a|
  {
    if a != [] {
      CoresSame(a[..|a| - 1], b[..|b| - 1]);
    }
  }

  lemma {:induction false} CoresIdsShifted(list: Activities, d: seq<byte>, p: nat, n: nat, seconds: int, now: Ticks)
    ensures Cores(IdsShifted(list, d, p, n, seconds, now)) == Cores(list)
    decreases n
  {
    if n > 0 {
      var one := OneShifted(list, ReadId(d, p), seconds, now);
      CoresSame(one, list);
      CoresIdsShifted(one, d, AfterId(d, p), n - 1, seconds, now);
    }
  }

  lemma SplitCores(a: Activities, x: Activities, b: Activities)
    ensures Cores(a + (x + b)) == Cores(a + b) + Cores(x)
  {
    hide Cores;
    CoresAppend(x, b);
    CoresAppend(a, x + b);
    CoresAppend(a, b);
  }

  lemma OneDeletedCores(list: Activities, id: RequestId)
    ensures Cores(list) == Cores(OneDeleted(list, id)) + Cores(Found(list, id))
  {
    FindIdFirst(list, id);
    NoCores();
    hide Cores, FindId;
    var i := FindId(list, id);
    if i < |list| {
      assert list == list[..i] + ([list[i]] + list[i + 1..]);
      SplitCores(list[..i], [list[i]], list[i + 1..]);
    } 
  }

  lemma {:induction false} IdsDeletedCores(list: Activities, d: seq<byte>, p: nat, n: nat)
    ensures Cores(list) == Cores(IdsDeleted(list, d, p, n)) + Cores(Deleted(list, d, p, n))
    decreases n
  {
    NoCores();
    hide Cores, OneDeleted, Found, ReadId, AfterId;
    if n > 0 {
      var id := ReadId(d, p);
      OneDeletedCores(list, id);
      var one, found := OneDeleted(list, id), Found(list, id);
      IdsDeletedCores(one, d, AfterId(d, p), n - 1);
      CoresAppend(found, Deleted(one, d, AfterId(d, p), n - 1));
    }
  }

  lemma {:induction false} IdsDeletedOrdered(list: Activities, d: seq<byte>, p: nat, n: nat)
    requires Ordered(list)
    ensures Ordered(IdsDeleted(list, d, p, n)) && |IdsDeleted(list, d, p, n)| <= |list|
    decreases n
  {
    if n > 0 {
      FindIdFirst(list, ReadId(d, p));
      IdsDeletedOrdered(OneDeleted(list, ReadId(d, p)), d, AfterId(d, p), n - 1);
    }
  }

  lemma ReleaseConserves(list: Activities, now: Ticks)
    ensures Cores(Released(list, now)) + Cores(Removed(list, Release(now))) == Cores(list)
  {
    NoCores();
    hide Cores;
    if list != [] {
      assert list == [list[0]] + list[1..];
      CoresAppend([list[0]], list[1..]);
    }
  }

  lemma StepConserves(list: Activities, step: Step)
    ensures Cores(Next(list, step)) + Cores(Removed(list, step)) == Cores(list) + Cores(Added(list, step))
  {
    NoCores();
    hide Cores, Sorted, IdsShifted, IdsDeleted, Deleted, AcceptedOf, Released, ShiftAccepted;
    match step
    case Insert(d, p, now, id) =>
      CoresSorted(list + AcceptedOf(list, d, p, now, id));
      CoresAppend(list, AcceptedOf(list, d, p, now, id));
    case Release(now) =>
      ReleaseConserves(list, now);
    case Shift(seconds, now) =>
      CoresSame(AllShifted(list, seconds), list);
    case ShiftIds(d, p, n, seconds, now) =>
      CoresSorted(IdsShifted(list, d, p, n, seconds, now));
      CoresIdsShifted(list, d, p, n, seconds, now);
    case DeleteIds(d, p, n) =>
      IdsDeletedCores(list, d, p, n);
    case Reset =>
  }

  /** Conservation: every activity ever accepted is pending or was released, deleted or cleared,
      once; and there are never more than ten pending. */
  lemma {:induction false} Conservation(steps: seq<Step>)
    ensures var r := AfterSteps(steps);
      r.accepted == r.gone + Cores(r.list) && |r.list| <= 10
    decreases |steps|
  {
    hide Cores, Next, Removed, Added;
    if steps == [] {
      NoCores();
    } else {
      var init, step := steps[..|steps| - 1], steps[|steps| - 1];
      var r := AfterSteps(init);
      Conservation(init);
      StepConserves(r.list, step);
      StepLength(r.list, step);
      Balance(r.accepted, r.gone, Cores(r.list), Cores(Added(r.list, step)), Cores(Removed(r.list, step)),
              Cores(Next(r.list, step)));
    }
  }

  lemma NoCores()
    ensures Cores([]) == multiset{}
  {
  }

  lemma Balance(accepted: multiset<Core>, gone: multiset<Core>, pending: multiset<Core>,
                added: multiset<Core>, removed: multiset<Core>, next: multiset<Core>)
    requires accepted == gone + pending && next + removed == pending + added
    ensures accepted + added == (gone + removed) + next
  {
    assert accepted + added == gone + (pending + added);
  }

  lemma StepLength(list: Activities, step: Step)
    requires |list| <= MAX_ACTIVITIES
    ensures |Next(list, step)| <= MAX_ACTIVITIES
  {
    hide Sorted;
    if step.Insert? {
      AcceptedBounds(step.d, After(step.d, step.p, 2), HalfAt(step.d, step.p), MAX_ACTIVITIES - |list|, step.now,
                     step.id);
      SortedCorrect(list + AcceptedOf(list, step.d, step.p, step.now, step.id));
    } else if step.ShiftIds? {
      SortedCorrect(IdsShifted(list, step.d, step.p, step.n, step.seconds, step.now));
    }
  }

  /** An accepted shift of everything takes all activities across the same number of wraps. */
  predicate EvenShift(list: Activities, step: Step)
  {
    step.Shift? && list != [] && ShiftAccepted(list, step.seconds, step.now) ==>
      Wraps(list[0].releaseTime, step.seconds) == Wraps(list[|list| - 1].releaseTime, step.seconds)
  }

  /** A step keeps the schedule ordered exactly when it is not a shift that wraps part of it. */
  lemma StepOrdered(list: Activities, step: Step)
    requires Ordered(list)
    ensures Ordered(Next(list, step)) <==> EvenShift(list, step)
  {
    match step
    case Insert(d, p, now, id) =>
      SortedCorrect(list + AcceptedOf(list, d, p, now, id));
    case Shift(seconds, now) =>
      if list != [] {
        ShiftOrder(list, seconds);
      }
    case ShiftIds(d, p, n, seconds, now) =>
      SortedCorrect(IdsShifted(list, d, p, n, seconds, now));
    case DeleteIds(d, p, n) =>
      IdsDeletedOrdered(list, d, p, n);
    case Release(now) =>
    case Reset =>
  }

  predicate AllEven(steps: seq<Step>)
  {
    forall k :: 0 <= k < |steps| ==> EvenShift(AfterSteps(steps[..k]).list, steps[k])
  }

  /** In every reachable state the schedule is ordered, as long as no shift wraps part of it. */
  lemma {:induction false} ReachableOrdered(steps: seq<Step>)
    requires AllEven(steps)
    ensures Ordered(AfterSteps(steps).list)
    decreases |steps|
  {
    hide EvenShift, Next, Ordered, Added, Removed;
    if steps == [] {
      EmptyOrdered();
    } else {
      var n := |steps| - 1;
      var init := steps[..n];
      EvenPrefix(steps, n);
      ReachableOrdered(init);
      StepOrdered(AfterSteps(init).list, steps[n]);
    }
  }

  /** The schedule is ordered in every state of a run if and only if no shift wraps part of it. */
  lemma OrderedExactly(steps: seq<Step>)
    ensures (forall k :: 0 <= k <= |steps| ==> Ordered(AfterSteps(steps[..k]).list)) <==> AllEven(steps)
  {
    hide EvenShift, Next, Ordered, Added, Removed;
    if AllEven(steps) {
      forall k | 0 <= k <= |steps|
        ensures Ordered(AfterSteps(steps[..k]).list)
      {
        EvenPrefix(steps, k);
        ReachableOrdered(steps[..k]);
      }
    }
    if forall k :: 0 <= k <= |steps| ==> Ordered(AfterSteps(steps[..k]).list) {
      forall k | 0 <= k < |steps|
        ensures EvenShift(AfterSteps(steps[..k]).list, steps[k])
      {
        assert steps[..k + 1][..k] == steps[..k] && Ordered(AfterSteps(steps[..k + 1]).list);
        StepOrdered(AfterSteps(steps[..k]).list, steps[k]);
      }
    }
  }

  lemma EvenPrefix(steps: seq<Step>, n: nat)
    requires AllEven(steps) && n <= |steps|
    ensures AllEven(steps[..n])
  {
    hide EvenShift;
    forall k | 0 <= k < n
      ensures EvenShift(AfterSteps(steps[..n][..k]).list, steps[..n][k])
    {
      assert steps[..n][..k] == steps[..k];
    }
  }

  lemma EmptyOrdered()
    ensures Ordered([])
  {
  }

  // ----- what the service keeps

  function Room(list: Activities): nat
  {
    if |list| <= MAX_ACTIVITIES then MAX_ACTIVITIES - |list| else 0
  }

  predicate Slots(list: Activities)
  {
    forall a :: a in list ==> IsSlot(a.request)
  }
}
