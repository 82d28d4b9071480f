/** What the requests that name activities do to the schedule, in terms of the bytes of the request. */
module ScheduleEdits {
  import opened Bits
  import opened Errors
  import opened Messages
  import opened Schedule
  import TS = TimeStamps

  const ID_SIZE := 6

  /** The request id in six bytes: source, application and sequence count. */
  function IdBytes(d: seq<byte>, p: nat): RequestId
    requires p + 6 <= |d|
  {
    RequestId(0x100 * (d[p] as int) + d[p + 1], 0x100 * (d[p + 2] as int) + d[p + 3],
              0x100 * (d[p + 4] as int) + d[p + 5])
  }

  lemma ReadIdExact(d: seq<byte>, p: nat)
    requires p + 6 <= |d|
    ensures ReadId(d, p) == IdBytes(d, p) && AfterId(d, p) == p + 6 && IdErrors(d, p) == []
  {
    ReadsExactly(d, p);
    ReadsExactly(d, p + 2);
    ReadsExactly(d, p + 4);
    hide HalfAt;
  }

  /** The first activity with the id is number `i`. */
  predicate FirstWith(list: Activities, id: RequestId, i: nat)
  {
    i < |list| && list[i].requestID == id && forall j :: 0 <= j < i ==> list[j].requestID != id
  }

  predicate Absent(list: Activities, id: RequestId)
  {
    forall j :: 0 <= j < |list| ==> list[j].requestID != id
  }

  lemma FindsFirst(list: Activities, id: RequestId, i: nat)
    ensures FirstWith(list, id, i) ==> FindId(list, id) == i
    ensures Absent(list, id) ==> FindId(list, id) == |list|
    ensures FindId(list, id) < |list| ==> FirstWith(list, id, FindId(list, id))
    ensures FindId(list, id) == |list| ==> Absent(list, id)
  {
    FindIdFirst(list, id);
    hide FindId;
  }

  // ----- shifting by id

  /** A release time moved by so many seconds, on the 32-bit counter. */
  function NewTime(t: Ticks, seconds: int): Ticks
  {
    (t + 10 * seconds) % 0x1_0000_0000
  }

  /** One instruction of TC[11,7]: the first activity with the id gets the new time, when that reaches
      the limit; otherwise, or when there is none, nothing changes and one error is reported. */
  lemma ShiftOne(list: Activities, d: seq<byte>, p: nat, seconds: int, now: Ticks, errors: seq<Error>, i: nat)
    requires p + 6 <= |d|
    ensures FirstWith(list, IdBytes(d, p), i) ==>
      var t := NewTime(list[i].releaseTime, seconds);
      && IdsShifted(list, d, p, 1, seconds, now) ==
           (if t >= Limit(now) then list[i := list[i].(releaseTime := t)] else list)
      && IdsShiftErrors(list, d, p, 1, seconds, now, errors) ==
           errors + if t >= Limit(now) then [] else [InstructionExecutionStartError]
    ensures Absent(list, IdBytes(d, p)) ==>
      && IdsShifted(list, d, p, 1, seconds, now) == list
      && IdsShiftErrors(list, d, p, 1, seconds, now, errors) == errors + [InstructionExecutionStartError]
  {
    ReadIdExact(d, p);
    FindsFirst(list, IdBytes(d, p), i);
    if i < |list| {
      TS.ShiftedIsSum(list[i].releaseTime, seconds);
    }
    hide ReadId, AfterId, IdErrors, FindId, TS.Shifted, Limit;
    assert errors + [] == errors;
    assert IdsShifted(list, d, p, 1, seconds, now) == OneShifted(list, ReadId(d, p), seconds, now);
  }

  lemma {:induction false} ShiftLast(list: Activities, d: seq<byte>, p: nat, n: nat, seconds: int, now: Ticks,
                                     errors: seq<Error>)
    requires n > 0 && p + 6 * n <= |d|
    ensures var before := IdsShifted(list, d, p, n - 1, seconds, now);
      && IdsShifted(list, d, p, n, seconds, now) == IdsShifted(before, d, p + 6 * (n - 1), 1, seconds, now)
      && IdsShiftErrors(list, d, p, n, seconds, now, errors) ==
           IdsShiftErrors(before, d, p + 6 * (n - 1), 1, seconds, now,
                          IdsShiftErrors(list, d, p, n - 1, seconds, now, errors))
    decreases n
  {
    hide ReadId, AfterId, IdErrors, FindId, TS.Shifted, Limit, OneShifted;
    ReadIdExact(d, p);
    if n > 1 {
      var one := OneShifted(list, ReadId(d, p), seconds, now);
      var more := IdsShiftErrors(list, d, p, 1, seconds, now, errors);
      ShiftLast(one, d, p + 6, n - 1, seconds, now, more);
    }
  }

  /** One of the `n` ids at `p` selects activity `i`. */
  predicate Selected(list: Activities, d: seq<byte>, p: nat, n: nat, i: nat)
    requires p + 6 * n <= |d|
  {
    exists k :: 0 <= k < n && FirstWith(list, IdBytes(d, p + 6 * k), i)
  }

  predicate DistinctIds(d: seq<byte>, p: nat, n: nat)
    requires p + 6 * n <= |d|
  {
    forall j, k :: 0 <= j < k < n ==> IdBytes(d, p + 6 * j) != IdBytes(d, p + 6 * k)
  }

  /** What becomes of activity `i` under a request that names distinct ids. */
  function ShiftedActivity(list: Activities, d: seq<byte>, p: nat, n: nat, seconds: int, now: Ticks, i: nat): Activity
    requires p + 6 * n <= |d| && i < |list|
  {
    var t := NewTime(list[i].releaseTime, seconds);
    if Selected(list, d, p, n, i) && t >= Limit(now) then list[i].(releaseTime := t) else list[i]
  }

  /** `r` is `list` with the selected activities at their new times, where these reach the limit. */
  predicate ShiftedByIds(list: Activities, r: Activities, d: seq<byte>, p: nat, n: nat, seconds: int, now: Ticks)
    requires p + 6 * n <= |d|
  {
    |r| == |list| && forall i :: 0 <= i < |list| ==> r[i] == ShiftedActivity(list, d, p, n, seconds, now, i)
  }

  /** TC[11,7] with distinct ids: exactly the selected activities get their new times. */
  lemma {:induction false} ShiftMany(list: Activities, d: seq<byte>, p: nat, n: nat, seconds: int, now: Ticks)
    requires p + 6 * n <= |d| && DistinctIds(d, p, n)
    ensures ShiftedByIds(list, IdsShifted(list, d, p, n, seconds, now), d, p, n, seconds, now)
    decreases n
  {
    DistinctPrefix(d, p, n);
    hide *;
    if n == 0 {
      NothingShifted(list, d, p, seconds, now);
    } else {
      var before := IdsShifted(list, d, p, n - 1, seconds, now);
      ShiftMany(list, d, p, n - 1, seconds, now);
      ShiftLast(list, d, p, n, seconds, now, []);
      ShiftManyNext(list, before, d, p, n, seconds, now);
    }
  }

  lemma DistinctPrefix(d: seq<byte>, p: nat, n: nat)
    requires p + 6 * n <= |d| && DistinctIds(d, p, n)
    ensures n > 0 ==> DistinctIds(d, p, n - 1)
  {
    hide IdBytes;
  }

  lemma NothingShifted(list: Activities, d: seq<byte>, p: nat, seconds: int, now: Ticks)
    requires p <= |d|
    ensures IdsShifted(list, d, p, 0, seconds, now) == list
    ensures ShiftedByIds(list, list, d, p, 0, seconds, now)
  {
  }

  lemma ShiftManyNext(list: Activities, before: Activities, d: seq<byte>, p: nat, n: nat, seconds: int, now: Ticks)
    requires n > 0 && p + 6 * n <= |d| && DistinctIds(d, p, n)
    requires ShiftedByIds(list, before, d, p, n - 1, seconds, now)
    ensures ShiftedByIds(list, IdsShifted(before, d, p + 6 * (n - 1), 1, seconds, now), d, p, n, seconds, now)
  {
    var q := p + 6 * (n - 1);
    var id, r := IdBytes(d, q), IdsShifted(before, d, q, 1, seconds, now);
    var i := FindId(before, id);
    FindsFirst(before, id, i);
    ShiftOne(before, d, q, seconds, now, [], i);
    hide IdsShifted, IdBytes, Limit, NewTime, FindId, Selected;
    SameIds(list, before, id, i);
    forall j | 0 <= j < |list|
      ensures r[j] == ShiftedActivity(list, d, p, n, seconds, now, j)
    {
      SelectedLast(list, d, p, n, j);
    }
  }

  lemma SameIds(list: Activities, before: Activities, id: RequestId, i: nat)
    requires |list| == |before| && forall j :: 0 <= j < |list| ==> list[j].requestID == before[j].requestID
    ensures FirstWith(before, id, i) ==> forall j: nat :: FirstWith(list, id, j) <==> j == i
    ensures Absent(before, id) ==> forall j: nat :: !FirstWith(list, id, j)
  {
  }

  lemma SelectedLast(list: Activities, d: seq<byte>, p: nat, n: nat, i: nat)
    requires n > 0 && p + 6 * n <= |d| && DistinctIds(d, p, n)
    ensures Selected(list, d, p, n, i) <==>
      Selected(list, d, p, n - 1, i) || FirstWith(list, IdBytes(d, p + 6 * (n - 1)), i)
    ensures !(Selected(list, d, p, n - 1, i) && FirstWith(list, IdBytes(d, p + 6 * (n - 1)), i))
  {
    hide IdBytes;
  }

  /** `r` is `list` in order of release time; what is due at one time keeps its order. */
  predicate InTimeOrder(list: Activities, r: Activities)
  {
    Ordered(r) && multiset(r) == multiset(list) && forall t :: AtTime(r, t) == AtTime(list, t)
  }

  /** The whole request: the selected activities are shifted, and then all are put in order. */
  ghost predicate ShiftedInOrder(list: Activities, r: Activities, d: seq<byte>, p: nat, n: nat, seconds: int,
                                 now: Ticks)
    requires p + 6 * n <= |d|
  {
    exists shifted :: ShiftedByIds(list, shifted, d, p, n, seconds, now) && InTimeOrder(shifted, r)
  }

  lemma ShiftRequest(list: Activities, d: seq<byte>, p: nat, n: nat, seconds: int, now: Ticks)
    ensures p + 6 * n <= |d| && DistinctIds(d, p, n) ==>
      ShiftedInOrder(list, Sorted(IdsShifted(list, d, p, n, seconds, now)), d, p, n, seconds, now)
  {
    hide IdsShifted, ShiftedByIds, Sorted, Ordered, AtTime, DistinctIds;
    if p + 6 * n <= |d| && DistinctIds(d, p, n) {
      ShiftMany(list, d, p, n, seconds, now);
      SortedCorrect(IdsShifted(list, d, p, n, seconds, now));
    }
  }

  // ----- deleting by id

  /** One instruction of TC[11,5]: the first activity with the id goes; when there is none, one error is
      reported. */
  lemma DeleteOne(list: Activities, d: seq<byte>, p: nat, errors: seq<Error>, i: nat)
    requires p + 6 <= |d|
    ensures FirstWith(list, IdBytes(d, p), i) ==>
      && IdsDeleted(list, d, p, 1) == list[..i] + list[i + 1..] && Deleted(list, d, p, 1) == [list[i]]
      && IdsDeleteErrors(list, d, p, 1, errors) == errors
    ensures Absent(list, IdBytes(d, p)) ==>
      && IdsDeleted(list, d, p, 1) == list && Deleted(list, d, p, 1) == []
      && IdsDeleteErrors(list, d, p, 1, errors) == errors + [InstructionExecutionStartError]
  {
    ReadIdExact(d, p);
    FindsFirst(list, IdBytes(d, p), i);
    hide ReadId, AfterId, IdErrors, FindId;
    assert errors + [] == errors;
    assert IdsDeleted(list, d, p, 1) == OneDeleted(list, ReadId(d, p));
    assert Deleted(list, d, p, 1) == Found(list, ReadId(d, p)) + Deleted(OneDeleted(list, ReadId(d, p)), d, p + 6, 0);
  }

  /** A request of several instructions is one after the other, in the order of the request. */
  lemma {:induction false} DeleteLast(list: Activities, d: seq<byte>, p: nat, n: nat, errors: seq<Error>)
    requires n > 0 && p + 6 * n <= |d|
    ensures var before := IdsDeleted(list, d, p, n - 1);
      && IdsDeleted(list, d, p, n) == IdsDeleted(before, d, p + 6 * (n - 1), 1)
      && Deleted(list, d, p, n) == Deleted(list, d, p, n - 1) + Deleted(before, d, p + 6 * (n - 1), 1)
      && IdsDeleteErrors(list, d, p, n, errors) ==
           IdsDeleteErrors(before, d, p + 6 * (n - 1), 1, IdsDeleteErrors(list, d, p, n - 1, errors))
    decreases n
  {
    hide ReadId, AfterId, IdErrors, FindId, OneDeleted, Found;
    ReadIdExact(d, p);
    if n > 1 {
      var one := OneDeleted(list, ReadId(d, p));
      DeleteLast(one, d, p + 6, n - 1, errors + MatchReport(list, d, p));
      hide MatchReport;
      assert Deleted(list, d, p, n) == Found(list, ReadId(d, p)) + Deleted(one, d, p + 6, n - 1);
      assert Deleted(list, d, p, n - 1) == Found(list, ReadId(d, p)) + Deleted(one, d, p + 6, n - 2);
    } else {
      assert Deleted(list, d, p, 0) == [] && IdsDeleted(list, d, p, 0) == list;
    }
  }

  // ----- reports by id

  /** One id of a report request: its first match joins the list, or one error is reported. */
  lemma MatchOne(list: Activities, d: seq<byte>, p: nat, before: Activities, errors: seq<Error>, i: nat)
    requires p + 6 <= |d|
    ensures FirstWith(list, IdBytes(d, p), i) ==>
      Matched(list, d, p, 1, before) == before + [list[i]] && MatchErrors(list, d, p, 1, errors) == errors
    ensures Absent(list, IdBytes(d, p)) ==>
      && Matched(list, d, p, 1, before) == before
      && MatchErrors(list, d, p, 1, errors) == errors + [InstructionExecutionStartError]
    ensures AfterIds(d, p, 1) == p + 6
  {
    ReadIdExact(d, p);
    FindsFirst(list, IdBytes(d, p), i);
    hide ReadId, AfterId, IdErrors, FindId, IdBytes;
    assert before + [] == before && errors + [] == errors;
    assert Matched(list, d, p, 1, before) == before + Found(list, ReadId(d, p));
  }

  /** Several ids are looked up one after the other, in the order of the request. */
  lemma {:induction false} MatchLast(list: Activities, d: seq<byte>, p: nat, n: nat, before: Activities,
                                     errors: seq<Error>)
    requires n > 0 && p + 6 * n <= |d|
    ensures var q := p + 6 * (n - 1);
      && Matched(list, d, p, n, before) == Matched(list, d, q, 1, Matched(list, d, p, n - 1, before))
      && MatchErrors(list, d, p, n, errors) == MatchErrors(list, d, q, 1, MatchErrors(list, d, p, n - 1, errors))
    ensures Matched(list, d, p, 0, before) == before && MatchErrors(list, d, p, 0, errors) == errors
    ensures AfterIds(d, p, n) == p + 6 * n
    decreases n
  {
    hide *;
    var found, report := Found(list, ReadId(d, p)), MatchReport(list, d, p);
    NothingMatched(list, d, p, before, errors);
    MatchFirst(list, d, p, n, before, errors);
    if n > 1 {
      MatchLast(list, d, p + 6, n - 1, before + found, errors + report);
      MatchFirst(list, d, p, n - 1, before, errors);
    } else {
      NothingMatched(list, d, p + 6, before + found, errors + report);
      MatchFirst(list, d, p, 1, before, errors);
    }
  }

  lemma MatchFirst(list: Activities, d: seq<byte>, p: nat, n: nat, before: Activities, errors: seq<Error>)
    requires n > 0 && p + 6 <= |d|
    ensures var found, report := Found(list, ReadId(d, p)), MatchReport(list, d, p);
      && Matched(list, d, p, n, before) == Matched(list, d, p + 6, n - 1, before + found)
      && MatchErrors(list, d, p, n, errors) == MatchErrors(list, d, p + 6, n - 1, errors + report)
      && AfterIds(d, p, n) == AfterIds(d, p + 6, n - 1)
  {
    ReadIdExact(d, p);
    hide ReadId, AfterId, IdErrors, FindId, Found, MatchReport, IdBytes;
  }

  lemma NothingMatched(list: Activities, d: seq<byte>, p: nat, before: Activities, errors: seq<Error>)
    ensures Matched(list, d, p, 0, before) == before && MatchErrors(list, d, p, 0, errors) == errors
    ensures AfterIds(d, p, 0) == p
  {
  }
}
