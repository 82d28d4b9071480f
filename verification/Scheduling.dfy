/** The time-based scheduling service: the handlers that read requests and edit the schedule, and
    the reports about it. */
module Scheduling {
  import opened Bits
  import opened Errors
  import opened Messages
  import opened Parser
  import opened Schedule
  import opened ScheduleEdits
  import TS = TimeStamps

  class TimeBasedSchedulingService {
    var scheduledActivities: Activities
    var executionFunctionStatus: bool
    /** The requests handed over for execution so far. */
    var executed: seq<Packet>

    ghost predicate Valid()
      reads this
    {
      |scheduledActivities| <= MAX_ACTIVITIES && Slots(scheduledActivities)
    }

    constructor ()
      ensures Valid() && scheduledActivities == [] && executed == [] && !executionFunctionStatus
    {
      scheduledActivities, executed, executionFunctionStatus := [], [], false;
    }

    /** `executeScheduledActivity`: release the first activity when it is due, and say when the
        next one is. Only requests of this application are executed. */
    method ExecuteScheduledActivity(currentTime: Ticks) returns (next: Ticks)
      requires Valid()
      modifies this`scheduledActivities, this`executed
      ensures Valid() && scheduledActivities == Released(old(scheduledActivities), currentTime)
      ensures var list := old(scheduledActivities);
        executed == old(executed) +
          if list != [] && currentTime >= list[0].releaseTime && list[0].requestID.applicationID == 1
          then [list[0].request] else []
      ensures next == if scheduledActivities == [] then 0xFFFF_FFFF else scheduledActivities[0].releaseTime
    {
      if scheduledActivities != [] && currentTime >= scheduledActivities[0].releaseTime {
        if scheduledActivities[0].requestID.applicationID == DEFAULT_APPLICATION_ID {
          executed := executed + [scheduledActivities[0].request];
        }
        scheduledActivities := scheduledActivities[1..];
      }
      if scheduledActivities != [] {
        return scheduledActivities[0].releaseTime;
      }
      return 0xFFFF_FFFF;
    }

    /** `enableScheduleExecution`. */
    method EnableScheduleExecution(request: Message)
      modifies this`executionFunctionStatus, request`errors
      ensures executionFunctionStatus == (old(executionFunctionStatus) || request.IsTc(11, 1))
    {
      var ok := request.AssertTc(11, 1);
      if ok {
        executionFunctionStatus := true;
      }
    }

    /** `disableScheduleExecution`. */
    method DisableScheduleExecution(request: Message)
      modifies this`executionFunctionStatus, request`errors
      ensures executionFunctionStatus == (old(executionFunctionStatus) && !request.IsTc(11, 2))
    {
      var ok := request.AssertTc(11, 2);
      if ok {
        executionFunctionStatus := false;
      }
    }

    /** `resetSchedule`. */
    method ResetSchedule(request: Message)
      requires Valid()
      modifies this`executionFunctionStatus, this`scheduledActivities, request`errors
      ensures Valid()
      ensures scheduledActivities == if request.IsTc(11, 3) then [] else old(scheduledActivities)
      ensures executionFunctionStatus == (old(executionFunctionStatus) && !request.IsTc(11, 3))
    {
      var ok := request.AssertTc(11, 3);
      if ok {
        executionFunctionStatus := false;
        scheduledActivities := [];
      }
    }

    /** One instruction of TC[11,4]. */
    method InsertActivity(request: Message, currentTime: Ticks, ghost left: nat)
      requires Valid() && request.Valid() && left > 0
      modifies this`scheduledActivities, request`readPosition, request`errors
      ensures Valid()
      ensures InsertState(scheduledActivities, request.readPosition, request.errors, left - 1) ==
        NextInsert(request.data[..], currentTime, IdOf(request),
                   old(InsertState(scheduledActivities, request.readPosition, request.errors, left)))
    {
      var releaseTime := request.ReadWord();
      if |scheduledActivities| == MAX_ACTIVITIES || releaseTime < Limit(currentTime) {
        request.errors := request.errors + [InstructionExecutionStartError];
        request.SkipBytes(TC_REQUEST_SIZE);
      } else {
        var requestData := request.ReadFixedString(TC_REQUEST_SIZE);
        var received := ParseEcssTc(requestData);
        scheduledActivities := scheduledActivities + [Activity(PacketOf(received), IdOf(request), releaseTime)];
      }
    }

    /** `insertActivities`: the accepted activities join the list, which is sorted afterwards. */
    method InsertActivities(request: Message, currentTime: Ticks)
      requires Valid() && request.Valid()
      modifies this`scheduledActivities, request`readPosition, request`errors
      ensures Valid()
      ensures !request.IsTc(11, 4) ==>
        scheduledActivities == old(scheduledActivities) && request.errors == old(request.errors) + [OtherMessageType]
      ensures request.IsTc(11, 4) ==>
        var d, p, list := request.data[..], old(request.readPosition), old(scheduledActivities);
        var n, q := HalfAt(d, p), After(d, p, 2);
        && scheduledActivities == Inserted(list, d, p, currentTime,
             RequestId(request.sourceId, request.applicationId, request.packetSequenceCount))
        && request.readPosition == InsertEnd(d, q, n, Room(list), currentTime)
        && request.errors ==
             old(request.errors) + ReadErrors(d, p, 2) + InsertErrors(d, q, n, Room(list), currentTime)
    {
      var ok := request.AssertTc(11, 4);
      if !ok {
        return;
      }
      assert request.errors == old(request.errors);
      var n := request.ReadHalfword();
      hide Accepted, InsertEnd, InsertErrors, IsSlot;
      InsertAll(request, n, currentTime);
      SortedSlots(scheduledActivities);
      scheduledActivities := Sorted(scheduledActivities);
    }

    /** The loop of `insertActivities`. */
    method InsertAll(request: Message, n: uint16, currentTime: Ticks)
      requires Valid() && request.Valid()
      modifies this`scheduledActivities, request`readPosition, request`errors
      ensures Valid()
      ensures InsertState(scheduledActivities, request.readPosition, request.errors, 0) ==
        FinalInsert(request.data[..], currentTime, IdOf(request),
                    old(InsertState(scheduledActivities, request.readPosition, request.errors, n)))
    {
      hide FinalInsert, NextInsert, IsSlot;
      ghost var d, id := request.data[..], IdOf(request);
      for i := 0 to n
        invariant Valid() && request.Valid() && request.data[..] == d
        invariant FinalInsert(d, currentTime, id,
                              old(InsertState(scheduledActivities, request.readPosition, request.errors, n))) ==
          FinalInsert(d, currentTime, id,
                      InsertState(scheduledActivities, request.readPosition, request.errors, n - i))
      {
        ghost var before := InsertState(scheduledActivities, request.readPosition, request.errors, n - i);
        InsertActivity(request, currentTime, n - i);
        InsertStep(d, currentTime, id, before);
      }
      NothingToInsert(d, currentTime, id, InsertState(scheduledActivities, request.readPosition, request.errors, 0));
    }

    /** `timeShiftAllActivities`; the source reads the earliest activity, so there must be one. */
    method TimeShiftAllActivities(request: Message, currentTime: Ticks)
      requires Valid() && request.Valid() && scheduledActivities != []
      modifies this`scheduledActivities, request`readPosition, request`errors
      ensures Valid()
      ensures !request.IsTc(11, 15) ==> scheduledActivities == old(scheduledActivities)
      ensures request.IsTc(11, 15) ==>
        var d, p, list := request.data[..], old(request.readPosition), old(scheduledActivities);
        var q, offset := After(d, p, 4), SignedAt(d, p);
        && scheduledActivities == ShiftAll(list, offset, currentTime)
        && request.readPosition == After(d, q, 4)
        && request.errors == old(request.errors) + ReadErrors(d, p, 4) + ReadErrors(d, q, 4) +
             if ShiftAccepted(list, offset, currentTime) then [] else [SubServiceExecutionStartError]
    {
      var ok := request.AssertTc(11, 15);
      if !ok {
        return;
      }
      assert request.errors == old(request.errors);
      var earliest := Earliest(scheduledActivities);
      var relativeOffset := request.ReadSigned();
      hide TS.Shifted, Earliest;
      if TS.Shifted(earliest, relativeOffset) < Limit(currentTime) {
        request.errors := request.errors + [SubServiceExecutionStartError];
        return;
      }
      ShiftEach(relativeOffset);
    }

    /** The loop over all activities. */
    method ShiftEach(relativeOffset: int)
      modifies this`scheduledActivities
      ensures scheduledActivities == AllShifted(old(scheduledActivities), relativeOffset)
    {
      ghost var list := scheduledActivities;
      for i := 0 to |scheduledActivities|
        invariant |scheduledActivities| == |list|
        invariant forall k :: 0 <= k < i ==> scheduledActivities[k] == ShiftedBy(list[k], relativeOffset)
        invariant forall k :: i <= k < |list| ==> scheduledActivities[k] == list[k]
      {
        scheduledActivities := scheduledActivities[i := ShiftedBy(scheduledActivities[i], relativeOffset)];
      }
      assert scheduledActivities == AllShifted(list, relativeOffset);
    }

    /** The request id at the read cursor. */
    method ReadRequestId(request: Message) returns (id: RequestId)
      requires request.Valid()
      modifies request`readPosition, request`errors
      ensures var d, p := request.data[..], old(request.readPosition);
        && id == ReadId(d, p) && request.readPosition == AfterId(d, p)
        && request.errors == old(request.errors) + IdErrors(d, p)
    {
      var sourceID := request.ReadHalfword();
      var applicationID := request.ReadHalfword();
      var sequenceCount := request.ReadHalfword();
      id := RequestId(sourceID, applicationID, sequenceCount);
    }

    /** One instruction of TC[11,7]. */
    method TimeShiftActivity(request: Message, relativeOffset: int, currentTime: Ticks)
      requires Valid() && request.Valid()
      modifies this`scheduledActivities, request`readPosition, request`errors
      ensures Valid()
      ensures var d, p, list := request.data[..], old(request.readPosition), old(scheduledActivities);
        && scheduledActivities == IdsShifted(list, d, p, 1, relativeOffset, currentTime)
        && request.readPosition == AfterIds(d, p, 1)
        && request.errors == IdsShiftErrors(list, d, p, 1, relativeOffset, currentTime, old(request.errors))
    {
      hide AfterId, ReadId, TS.Shifted, FindId;
      var id := ReadRequestId(request);
      var found := FindId(scheduledActivities, id);
      if found < |scheduledActivities| {
        if TS.Shifted(scheduledActivities[found].releaseTime, relativeOffset) < Limit(currentTime) {
          request.errors := request.errors + [InstructionExecutionStartError];
        } else {
          scheduledActivities := scheduledActivities[found := ShiftedBy(scheduledActivities[found], relativeOffset)];
        }
      } else {
        request.errors := request.errors + [InstructionExecutionStartError];
      }
    }

    /** `timeShiftActivitiesByID`. */
    method TimeShiftActivitiesById(request: Message, currentTime: Ticks)
      requires Valid() && request.Valid()
      modifies this`scheduledActivities, request`readPosition, request`errors
      ensures Valid()
      ensures !request.IsTc(11, 7) ==> scheduledActivities == old(scheduledActivities)
      ensures request.IsTc(11, 7) ==>
        var d, p, list := request.data[..], old(request.readPosition), old(scheduledActivities);
        var q := After(d, After(d, p, 4), 4);
        var offset, n, r := SignedAt(d, p), HalfAt(d, q), After(d, q, 2);
        && scheduledActivities == Sorted(IdsShifted(list, d, r, n, offset, currentTime))
        && request.readPosition == AfterIds(d, r, n)
        && request.errors == IdsShiftErrors(list, d, r, n, offset, currentTime, old(request.errors) +
             ReadErrors(d, p, 4) + ReadErrors(d, After(d, p, 4), 4) + ReadErrors(d, q, 2))
        && (r + 6 * n <= |d| && DistinctIds(d, r, n) ==>
              ShiftedInOrder(list, scheduledActivities, d, r, n, offset, currentTime))
    {
      var ok := request.AssertTc(11, 7);
      if !ok {
        return;
      }
      assert request.errors == old(request.errors);
      hide IdsShifted, IdsShiftErrors, AfterIds, ShiftedInOrder, DistinctIds, Slots, Sorted;
      var offset := request.ReadSigned();
      var n := request.ReadHalfword();
      ShiftRequest(scheduledActivities, request.data[..], request.readPosition, n, offset, currentTime);
      ShiftNamed(request, n, offset, currentTime);
      SortedSlots(scheduledActivities);
      scheduledActivities := Sorted(scheduledActivities);
    }

    /** The loop over the ids. */
    method ShiftNamed(request: Message, n: uint16, offset: int, currentTime: Ticks)
      requires Valid() && request.Valid()
      modifies this`scheduledActivities, request`readPosition, request`errors
      ensures Valid()
      ensures var d, p, list := request.data[..], old(request.readPosition), old(scheduledActivities);
        && scheduledActivities == IdsShifted(list, d, p, n, offset, currentTime)
        && request.readPosition == AfterIds(d, p, n)
        && request.errors == IdsShiftErrors(list, d, p, n, offset, currentTime, old(request.errors))
    {
      ghost var d, list, p, errors := request.data[..], scheduledActivities, request.readPosition, request.errors;
      for i := 0 to n
        invariant Valid() && request.Valid() && request.data[..] == d
        invariant IdsShifted(list, d, p, n, offset, currentTime) ==
          IdsShifted(scheduledActivities, d, request.readPosition, n - i, offset, currentTime)
        invariant AfterIds(d, p, n) == AfterIds(d, request.readPosition, n - i)
        invariant IdsShiftErrors(list, d, p, n, offset, currentTime, errors) ==
          IdsShiftErrors(scheduledActivities, d, request.readPosition, n - i, offset, currentTime, request.errors)
      {
        hide OneShifted, AfterId, ReadId, IdErrors, TS.Shifted, FindId, Slots;
        TimeShiftActivity(request, offset, currentTime);
      }
    }

    /** One instruction of TC[11,5]. */
    method DeleteActivity(request: Message)
      requires Valid() && request.Valid()
      modifies this`scheduledActivities, request`readPosition, request`errors
      ensures Valid()
      ensures var d, p, list := request.data[..], old(request.readPosition), old(scheduledActivities);
        && scheduledActivities == IdsDeleted(list, d, p, 1)
        && request.readPosition == AfterIds(d, p, 1)
        && request.errors == IdsDeleteErrors(list, d, p, 1, old(request.errors))
    {
      hide AfterId, ReadId, FindId;
      var id := ReadRequestId(request);
      var found := FindId(scheduledActivities, id);
      if found < |scheduledActivities| {
        scheduledActivities := scheduledActivities[..found] + scheduledActivities[found + 1..];
      } else {
        request.errors := request.errors + [InstructionExecutionStartError];
      }
    }

    /** `deleteActivitiesByID`. */
    method DeleteActivitiesById(request: Message)
      requires Valid() && request.Valid()
      modifies this`scheduledActivities, request`readPosition, request`errors
      ensures Valid()
      ensures !request.IsTc(11, 5) ==> scheduledActivities == old(scheduledActivities)
      ensures request.IsTc(11, 5) ==>
        var d, p, list := request.data[..], old(request.readPosition), old(scheduledActivities);
        var n, r := HalfAt(d, p), After(d, p, 2);
        && scheduledActivities == IdsDeleted(list, d, r, n)
        && request.readPosition == AfterIds(d, r, n)
        && request.errors == IdsDeleteErrors(list, d, r, n, old(request.errors) + ReadErrors(d, p, 2))
    {
      var ok := request.AssertTc(11, 5);
      if !ok {
        return;
      }
      assert request.errors == old(request.errors);
      hide IdsDeleted, IdsDeleteErrors, AfterIds, Slots, NumberAt, ReadErrors;
      var n := request.ReadHalfword();
      DeleteNamed(request, n);
    }

    /** The loop over the ids. */
    method DeleteNamed(request: Message, n: uint16)
      requires Valid() && request.Valid()
      modifies this`scheduledActivities, request`readPosition, request`errors
      ensures Valid()
      ensures var d, p, list := request.data[..], old(request.readPosition), old(scheduledActivities);
        && scheduledActivities == IdsDeleted(list, d, p, n)
        && request.readPosition == AfterIds(d, p, n)
        && request.errors == IdsDeleteErrors(list, d, p, n, old(request.errors))
    {
      hide OneDeleted, AfterId, ReadId, IdErrors, MatchReport, FindId, Slots;
      ghost var d, list, p, errors := request.data[..], scheduledActivities, request.readPosition, request.errors;
      for i := 0 to n
        invariant Valid() && request.Valid() && request.data[..] == d
        invariant IdsDeleted(list, d, p, n) == IdsDeleted(scheduledActivities, d, request.readPosition, n - i)
        invariant AfterIds(d, p, n) == AfterIds(d, request.readPosition, n - i)
        invariant IdsDeleteErrors(list, d, p, n, errors) ==
          IdsDeleteErrors(scheduledActivities, d, request.readPosition, n - i, request.errors)
      {
        DeleteActivity(request);
      }
    }

    method MatchActivity(request: Message, before: Activities) returns (matched: Activities)
      requires Valid() && request.Valid()
      modifies request`readPosition, request`errors
      ensures var d, p := request.data[..], old(request.readPosition);
        && matched == before + Found(scheduledActivities, ReadId(d, p))
        && request.readPosition == AfterId(d, p)
        && request.errors == old(request.errors) + MatchReport(scheduledActivities, d, p)
    {
      hide AfterId, ReadId, FindId;
      var id := ReadRequestId(request);
      var found := FindId(scheduledActivities, id);
      if found < |scheduledActivities| {
        matched := before + [scheduledActivities[found]];
      } else {
        matched := before;
        request.errors := request.errors + [InstructionExecutionStartError];
      }
    }

    /** The search loop of the reports by id: the activities the request names. */
    method MatchActivities(request: Message) returns (matched: Activities)
      requires Valid() && request.Valid()
      modifies request`readPosition, request`errors
      ensures var d, p := request.data[..], old(request.readPosition);
        var n, r := HalfAt(d, p), After(d, p, 2);
        && matched == Matched(scheduledActivities, d, r, n, [])
        && request.readPosition == AfterIds(d, r, n)
        && request.errors == MatchErrors(scheduledActivities, d, r, n, old(request.errors) + ReadErrors(d, p, 2))
    {
      matched := [];
      var n := request.ReadHalfword();
      ghost var d, p, errors := request.data[..], request.readPosition, request.errors;
      for i := 0 to n
        invariant request.Valid() && request.data[..] == d
        invariant Matched(scheduledActivities, d, p, n, []) ==
          Matched(scheduledActivities, d, request.readPosition, n - i, matched)
        invariant AfterIds(d, p, n) == AfterIds(d, request.readPosition, n - i)
        invariant MatchErrors(scheduledActivities, d, p, n, errors) ==
          MatchErrors(scheduledActivities, d, request.readPosition, n - i, request.errors)
      {
        hide AfterId, ReadId, IdErrors, FindId, Found, MatchReport, Slots;
        matched := MatchActivity(request, matched);
      }
    }

    /** `timeBasedScheduleDetailReport`: TM[11,10] with release times and composed requests. */
    method DetailReport(list: Activities) returns (report: Message)
      requires |list| <= MAX_ACTIVITIES && Slots(list)
      ensures fresh(report) && fresh(report.data) && report.Valid() && report.currentBit == 0 && report.errors == []
      ensures PacketOf(report) == Report(10, DetailBytes(list, |list|))
      ensures report.packetType == TM && report.serviceType == 11 && report.messageType == 10
      ensures report.applicationId == 1 && report.data[..report.dataSize] == DetailBytes(list, |list|)
    {
      report := new Message(11, 10, TM, DEFAULT_APPLICATION_ID);
      report.AppendHalfword(|list|);
      for i := 0 to |list|
        invariant fresh(report) && fresh(report.data) && report.Valid() && report.currentBit == 0
        invariant report.errors == [] && report.dataSize == 2 + 68 * i
        invariant PacketOf(report) == Report(10, DetailBytes(list, i))
      {
        AppendDetail(report, list[i]);
        assert PacketOf(report).body == DetailBytes(list, i + 1);
      }
    }

    method AppendDetail(report: Message, a: Activity)
      requires report.Valid() && report.currentBit == 0 && report.dataSize + 68 <= MAX_MESSAGE_SIZE && IsSlot(a.request)
      modifies report`dataSize, report`errors, report.data
      ensures report.Valid() && report.errors == old(report.errors) && report.dataSize == old(report.dataSize) + 68
      ensures PacketOf(report).body == old(PacketOf(report).body) + DetailBlock(a)
    {
      hide BytesOf, ComposedEcss;
      SlotLength(a.request);
      report.AppendWord(a.releaseTime);
      report.AppendString(ComposedEcss(a.request, 0, 0));
    }

    /** `timeBasedScheduleSummaryReport`: TM[11,13] with release times and request ids. */
    method SummaryReport(list: Activities) returns (report: Message)
      requires |list| <= MAX_ACTIVITIES
      ensures fresh(report) && fresh(report.data) && report.Valid() && report.currentBit == 0 && report.errors == []
      ensures PacketOf(report) == Report(13, SummaryBytes(list, |list|))
      ensures report.packetType == TM && report.serviceType == 11 && report.messageType == 13
      ensures report.applicationId == 1 && report.data[..report.dataSize] == SummaryBytes(list, |list|)
    {
      report := new Message(11, 13, TM, DEFAULT_APPLICATION_ID);
      report.AppendHalfword(|list|);
      for i := 0 to |list|
        invariant fresh(report) && fresh(report.data) && report.Valid() && report.currentBit == 0
        invariant report.errors == [] && report.dataSize == 2 + 10 * i
        invariant PacketOf(report) == Report(13, SummaryBytes(list, i))
      {
        AppendSummary(report, list[i]);
        assert PacketOf(report).body == SummaryBytes(list, i + 1);
      }
    }

    method AppendSummary(report: Message, a: Activity)
      requires report.Valid() && report.currentBit == 0 && report.dataSize + 10 <= MAX_MESSAGE_SIZE
      modifies report`dataSize, report`errors, report.data
      ensures report.Valid() && report.errors == old(report.errors) && report.dataSize == old(report.dataSize) + 10
      ensures PacketOf(report).body == old(PacketOf(report).body) + SummaryBlock(a)
    {
      hide BytesOf;
      report.AppendWord(a.releaseTime);
      report.AppendHalfword(a.requestID.sourceID);
      report.AppendHalfword(a.requestID.applicationID);
      report.AppendHalfword(a.requestID.sequenceCount);
    }

    /** `detailReportAllActivities`. */
    method DetailReportAllActivities(request: Message) returns (reports: seq<Message>)
      requires Valid()
      modifies request`errors
      ensures |reports| == if request.IsTc(11, 16) then 1 else 0
      ensures var list := scheduledActivities;
        forall r :: r in reports ==> r.Valid() && PacketOf(r) == Report(10, DetailBytes(list, |list|))
    {
      reports := [];
      var ok := request.AssertTc(11, 16);
      if ok {
        var report := DetailReport(scheduledActivities);
        reports := [report];
      }
    }

    /** The matches of the reports by id, sorted. */
    method MatchAndSort(request: Message) returns (matched: Activities)
      requires Valid() && request.Valid()
      modifies request`readPosition, request`errors
      ensures matched == Reported(scheduledActivities, request.data[..], old(request.readPosition)) && Slots(matched)
      ensures MatchedIn(scheduledActivities, request.data[..], old(request.readPosition), request.readPosition,
                        old(request.errors), request.errors)
    {
      hide Matched, Sorted, Slots, MatchErrors, AfterIds, NumberAt, After, ReadErrors;
      ghost var d, p := request.data[..], request.readPosition;
      SortedMatches(scheduledActivities, d, After(d, p, 2), HalfAt(d, p));
      matched := MatchActivities(request);
      matched := Sorted(matched);
    }

    /** `detailReportActivitiesByID`; the local list holds ten activities. */
    method DetailReportActivitiesById(request: Message) returns (reports: seq<Message>)
      requires Valid() && request.Valid()
      requires |Reported(scheduledActivities, request.data[..], request.readPosition)| <= MAX_ACTIVITIES
      modifies request`readPosition, request`errors
      ensures |reports| == if request.IsTc(11, 9) then 1 else 0
      ensures var list := Reported(scheduledActivities, request.data[..], old(request.readPosition));
        forall r :: r in reports ==> r.Valid() && PacketOf(r) == Report(10, DetailBytes(list, |list|))
      ensures request.IsTc(11, 9) ==>
        MatchedIn(scheduledActivities, request.data[..], old(request.readPosition), request.readPosition,
                  old(request.errors), request.errors)
    {
      hide Matched, Sorted, Slots, MatchedIn, DetailBytes, Reported;
      reports := [];
      var ok := request.AssertTc(11, 9);
      if ok {
        assert request.errors == old(request.errors);
        var matched := MatchAndSort(request);
        var report := DetailReport(matched);
        reports := [report];
      }
    }

    /** `summaryReportActivitiesByID`; the local list holds ten activities. */
    method SummaryReportActivitiesById(request: Message) returns (reports: seq<Message>)
      requires Valid() && request.Valid()
      requires |Reported(scheduledActivities, request.data[..], request.readPosition)| <= MAX_ACTIVITIES
      modifies request`readPosition, request`errors
      ensures |reports| == if request.IsTc(11, 12) then 1 else 0
      ensures var list := Reported(scheduledActivities, request.data[..], old(request.readPosition));
        forall r :: r in reports ==> r.Valid() && PacketOf(r) == Report(13, SummaryBytes(list, |list|))
      ensures request.IsTc(11, 12) ==>
        MatchedIn(scheduledActivities, request.data[..], old(request.readPosition), request.readPosition,
                  old(request.errors), request.errors)
    {
      hide Matched, Sorted, Slots, MatchedIn, SummaryBytes, Reported;
      reports := [];
      var ok := request.AssertTc(11, 12);
      if ok {
        assert request.errors == old(request.errors);
        var matched := MatchAndSort(request);
        var report := SummaryReport(matched);
        reports := [report];
      }
    }
  }

  /** Where a request naming ids leaves the read position, and what it reports. */
  ghost predicate MatchedIn(list: Activities, d: seq<byte>, p: nat, p': nat, errors: seq<Error>, errors': seq<Error>)
  {
    var q, n := After(d, p, 2), HalfAt(d, p);
    p' == AfterIds(d, q, n) && errors' == MatchErrors(list, d, q, n, errors + ReadErrors(d, p, 2))
  }

  /** The list a report by id is about. */
  function Reported(list: Activities, d: seq<byte>, start: nat): Activities
  {
    Sorted(Matched(list, d, After(d, start, 2), HalfAt(d, start), []))
  }

  function Report(messageType: byte, body: seq<byte>): Packet
  {
    Packet(TM, 11, messageType, DEFAULT_APPLICATION_ID, 0, 0, 0, body)
  }

  /** What a detail report holds of an activity. */
  function DetailBlock(a: Activity): seq<byte>
  {
    BytesOf(a.releaseTime, 4) + ComposedEcss(a.request, 0, 0)
  }

  /** The report body up to activity `i`. */
  function DetailBytes(list: Activities, i: nat): seq<byte>
    requires i <= |list| <= MAX_ACTIVITIES
  {
    if i == 0 then BytesOf(|list|, 2) else DetailBytes(list, i - 1) + DetailBlock(list[i - 1])
  }

  function SummaryBlock(a: Activity): seq<byte>
  {
    BytesOf(a.releaseTime, 4) + BytesOf(a.requestID.sourceID, 2) +
    BytesOf(a.requestID.applicationID, 2) + BytesOf(a.requestID.sequenceCount, 2)
  }

  /** The report body up to activity `i`. */
  function SummaryBytes(list: Activities, i: nat): seq<byte>
    requires i <= |list| <= MAX_ACTIVITIES
  {
    if i == 0 then BytesOf(|list|, 2) else SummaryBytes(list, i - 1) + SummaryBlock(list[i - 1])
  }

  /** The summary report: a count, and ten bytes for each activity. */
  lemma {:induction false} SummaryLayout(list: Activities, n: nat, k: nat)
    requires k < n <= |list| <= 10
    ensures var r, a := SummaryBytes(list, n), list[k];
      && |r| == 2 + 10 * n && 0x100 * (r[0] as int) + r[1] == |list|
      && SummaryAt(r, 2 + 10 * k, a)
    decreases n
  {
    SummaryBlockLayout(list[n - 1]);
    TwoBytesBack(|list|);
    hide SummaryBlock, BytesOf, SummaryAt;
    var before, block := SummaryBytes(list, n - 1), SummaryBlock(list[n - 1]);
    SummaryBehind(before, block, list[n - 1]);
    if n > 1 {
      SummaryLayout(list, n - 1, if k == n - 1 then 0 else k);
      if k < n - 1 {
        SummaryStays(before, block, 2 + 10 * k, list[k]);
      }
    }
  }

  lemma SummaryBehind(before: seq<byte>, block: seq<byte>, a: Activity)
    requires SummaryAt(block, 0, a)
    ensures SummaryAt(before + block, |before|, a)
  {
  }

  lemma SummaryStays(before: seq<byte>, block: seq<byte>, p: nat, a: Activity)
    requires SummaryAt(before, p, a)
    ensures SummaryAt(before + block, p, a)
  {
  }

  /** Release time, source, application and sequence count, most significant bytes first. */
  predicate SummaryAt(r: seq<byte>, p: nat, a: Activity)
  {
    && p + 10 <= |r|
    && 0x100_0000 * (r[p] as int) + 0x1_0000 * (r[p + 1] as int) + 0x100 * (r[p + 2] as int) + r[p + 3]
       == a.releaseTime
    && 0x100 * (r[p + 4] as int) + r[p + 5] == a.requestID.sourceID
    && 0x100 * (r[p + 6] as int) + r[p + 7] == a.requestID.applicationID
    && 0x100 * (r[p + 8] as int) + r[p + 9] == a.requestID.sequenceCount
  }

  lemma SummaryBlockLayout(a: Activity)
    ensures |SummaryBlock(a)| == 10 && SummaryAt(SummaryBlock(a), 0, a)
  {
    FourBytesBack(a.releaseTime);
    TwoBytesBack(a.requestID.sourceID);
    TwoBytesBack(a.requestID.applicationID);
    TwoBytesBack(a.requestID.sequenceCount);
    hide BytesOf;
  }

  lemma SlotLength(request: Packet)
    requires IsSlot(request)
    ensures |ComposedEcss(request, 0, 0)| == TC_REQUEST_SIZE
  {
  }

  /** A point in the loop of `insertActivities`: the list, the read position, what was reported,
      and the instructions that are left. */
  datatype InsertState = InsertState(list: Activities, position: nat, errors: seq<Error>, left: nat)

  function FinalInsert(d: seq<byte>, now: Ticks, id: RequestId, s: InsertState): InsertState
  {
    InsertState(s.list + Accepted(d, s.position, s.left, Room(s.list), now, id),
                InsertEnd(d, s.position, s.left, Room(s.list), now),
                s.errors + InsertErrors(d, s.position, s.left, Room(s.list), now), 0)
  }

  function NextInsert(d: seq<byte>, now: Ticks, id: RequestId, s: InsertState): InsertState
    requires s.left > 0
  {
    FinalInsert(d, now, id, s.(left := 1)).(left := s.left - 1)
  }

  lemma InsertStep(d: seq<byte>, now: Ticks, id: RequestId, s: InsertState)
    requires s.left > 0
    ensures FinalInsert(d, now, id, NextInsert(d, now, id, s)) == FinalInsert(d, now, id, s)
  {
    hide ParsedRequest, StringAt, NumberAt, TS.Shifted, After, AfterString, ReadErrors, StringErrors, Skipped;
  }

  lemma NothingToInsert(d: seq<byte>, now: Ticks, id: RequestId, s: InsertState)
    requires s.left == 0
    ensures FinalInsert(d, now, id, s) == s
  {
  }

  lemma SortedSlots(list: Activities)
    ensures |Sorted(list)| == |list| && (Slots(list) ==> Slots(Sorted(list)))
  {
    SortedCorrect(list);
    hide Sorted;
    forall a | a in Sorted(list) && Slots(list)
      ensures IsSlot(a.request)
    {
      assert a in multiset(Sorted(list));
    }
  }

  function IdOf(request: Message): RequestId
    reads request
  {
    RequestId(request.sourceId, request.applicationId, request.packetSequenceCount)
  }

  function PacketOf(m: Message): Packet
    requires m.dataSize <= m.data.Length
    reads m, m.data
  {
    Packet(m.packetType, m.serviceType, m.messageType, m.applicationId, m.sourceId, m.messageTypeCounter,
           m.packetSequenceCount, m.data[..m.dataSize])
  }

  // ----- the detail report

  /** The list a detail report is made of, as a request to insert it would enter it. */
  function Replayed(list: Activities, id: RequestId): Activities
  {
    seq(|list|, i requires 0 <= i < |list| =>
      Activity(list[i].request.(sourceId := DEFAULT_APPLICATION_ID), id, list[i].releaseTime))
  }

  lemma {:induction false} DetailBlockAt(list: Activities, n: nat, k: nat)
    requires k < n <= |list| <= MAX_ACTIVITIES && Slots(list)
    ensures var r := DetailBytes(list, n);
      |r| == 2 + 68 * n && r[..2] == BytesOf(|list|, 2) && r[2 + 68 * k..70 + 68 * k] == DetailBlock(list[k])
  {
    hide ComposedEcss, BytesOf;
    SlotLength(list[n - 1].request);
    if n > 1 {
      DetailBlockAt(list, n - 1, if k == n - 1 then 0 else k);
    }
  }

  /** The report repeats each inserted 64-byte slot in schedule order, but for the bytes that
      composing rewrites: the version byte and the application id. */
  lemma DetailReemits(list: Activities, k: nat, slot: seq<byte>)
    requires k < |list| <= MAX_ACTIVITIES && Slots(list)
    requires |slot| == TC_REQUEST_SIZE && list[k].request == ParsedRequest(slot)
    ensures var r := DetailBytes(list, |list|);
      && |r| == 2 + 68 * |list|
      && r[6 + 68 * k..70 + 68 * k] == slot[0 := 0x20][3 := 0][4 := 1]
  {
    hide DetailBytes, DetailBlock, ComposedEcss, ParsedRequest, BytesOf, IsSlot;
    DetailBlockAt(list, |list|, k);
    SlotBlock(list[k], slot);
    SubSlice(DetailBytes(list, |list|), 2 + 68 * k, DetailBlock(list[k]), 4, 68);
  }

  lemma SlotBlock(a: Activity, slot: seq<byte>)
    requires IsSlot(a.request) && |slot| == TC_REQUEST_SIZE && a.request == ParsedRequest(slot)
    ensures |DetailBlock(a)| == 68 && DetailBlock(a)[4..68] == slot[0 := 0x20][3 := 0][4 := 1]
  {
    hide DetailBlock, ComposedEcss, ParsedRequest, BytesOf;
    DetailBlockParts(a);
    SamePadding(a.request);
    SlotReemitted(slot, 0);
  }

  lemma SubSlice(d: seq<byte>, p: nat, block: seq<byte>, i: nat, j: nat)
    requires p + |block| <= |d| && d[p..p + |block|] == block && i <= j <= |block|
    ensures d[p + i..p + j] == block[i..j]
  {
    forall k | 0 <= k < j - i
      ensures d[p + i..p + j][k] == block[i..j][k]
    {
      assert block[i + k] == d[p..p + |block|][i + k];
    }
  }

  lemma DetailBlockParts(a: Activity)
    requires IsSlot(a.request)
    ensures |DetailBlock(a)| == 68
    ensures DetailBlock(a)[0..4] == BytesOf(a.releaseTime, 4)
    ensures DetailBlock(a)[4..68] == ComposedEcss(a.request, TC_REQUEST_SIZE, 0)
  {
    SamePadding(a.request);
    SlotLength(a.request);
    hide ComposedEcss, BytesOf;
  }

  /** Reading one block of a detail report as an instruction to insert an activity. */
  lemma ReplayBlock(d: seq<byte>, p: nat, a: Activity)
    requires p + 68 <= |d| && IsSlot(a.request) && d[p..p + 68] == DetailBlock(a)
    ensures WordAt(d, p) == a.releaseTime
    ensures ParsedRequest(StringAt(d, p + 4, TC_REQUEST_SIZE)) == a.request.(sourceId := DEFAULT_APPLICATION_ID)
  {
    hide BytesOf, BigEndian, DetailBlock, ComposedEcss, ParsedRequest, SecondaryHeader, RightVersion;
    DetailBlockParts(a);
    SubSlice(d, p, DetailBlock(a), 0, 4);
    SubSlice(d, p, DetailBlock(a), 4, 68);
    FourRoundTrip(a.releaseTime);
    SlotRoundTrip(a.request);
  }

  /** A stored request survives composing and parsing but for its source id. */
  lemma SlotRoundTrip(request: Packet)
    requires IsSlot(request)
    ensures |ComposedEcss(request, TC_REQUEST_SIZE, 0)| == TC_REQUEST_SIZE
    ensures ParsedRequest(ComposedEcss(request, TC_REQUEST_SIZE, 0)) ==
      request.(sourceId := DEFAULT_APPLICATION_ID)
  {
    NestedRoundTrip(request, 0);
    hide ComposedEcss, ParsedRequest;
  }

  lemma SamePadding(request: Packet)
    requires IsSlot(request)
    ensures ComposedEcss(request, 0, 0) == ComposedEcss(request, TC_REQUEST_SIZE, 0)
  {
  }

  lemma {:induction false} ReplayFrom(list: Activities, d: seq<byte>, p: nat, room: nat, now: Ticks, id: RequestId)
    requires Slots(list) && |list| <= room && p + 68 * |list| <= |d|
    requires forall k :: 0 <= k < |list| ==> BlockAt(d, p, k) == DetailBlock(list[k])
    requires forall a :: a in list ==> a.releaseTime >= Limit(now)
    ensures Accepted(d, p, |list|, room, now, id) == Replayed(list, id)
    decreases |list|
  {
    hide Accepted, DetailBlock, ParsedRequest, WordAt, Limit, StringAt, IsSlot, Replayed, BlockAt;
    if list == [] {
      NothingReplayed(d, p, room, now, id);
    } else {
      var rest := list[1..];
      assert BlockAt(d, p, 0) == DetailBlock(list[0]);
      FirstBlock(d, p);
      ReplayBlock(d, p, list[0]);
      AcceptedNext(d, p, |list|, room, now, id);
      forall k | 0 <= k < |rest|
        ensures BlockAt(d, p + 68, k) == DetailBlock(rest[k])
      {
        NextBlock(d, p, k);
      }
      ReplayFrom(rest, d, p + 68, room - 1, now, id);
      ReplayedNext(list, id);
    }
  }

  lemma NothingReplayed(d: seq<byte>, p: nat, room: nat, now: Ticks, id: RequestId)
    ensures Accepted(d, p, 0, room, now, id) == Replayed([], id)
  {
  }

  lemma ReplayedNext(list: Activities, id: RequestId)
    requires list != []
    ensures Replayed(list, id) ==
      [Activity(list[0].request.(sourceId := DEFAULT_APPLICATION_ID), id, list[0].releaseTime)]
      + Replayed(list[1..], id)
  {
  }

  lemma FirstBlock(d: seq<byte>, p: nat)
    requires p + 68 <= |d|
    ensures BlockAt(d, p, 0) == d[p..p + 68]
  {
  }

  lemma NextBlock(d: seq<byte>, p: nat, k: nat)
    requires p + 68 * (k + 2) <= |d|
    ensures BlockAt(d, p + 68, k) == BlockAt(d, p, k + 1)
  {
  }

  /** The `k`th block of 68 bytes after `p`. */
  function BlockAt(d: seq<byte>, p: nat, k: nat): seq<byte>
    requires p + 68 * (k + 1) <= |d|
  {
    d[p + 68 * k..p + 68 * k + 68]
  }

  lemma {:induction false} SortedFixed(list: Activities)
    requires Ordered(list)
    ensures Sorted(list) == list
    decreases |list|
  {
    if list != [] {
      var n := |list| - 1;
      SortedFixed(list[..n]);
    }
  }

  /** A detail report is itself a well-formed insertion: entered into an empty schedule before any
      activity is due, it restores the same requests at the same times in the same order, except
      that each source id becomes the application id of this system. */
  lemma DetailReportReplays(list: Activities, d: seq<byte>, now: Ticks, id: RequestId)
    requires 0 < |list| <= 10 && Slots(list) && Ordered(list)
    requires DetailBytes(list, |list|) <= d
    requires forall a :: a in list ==> a.releaseTime >= Limit(now)
    ensures Inserted([], d, 0, now, id) == Replayed(list, id)
  {
    hide Accepted, DetailBytes, DetailBlock, BytesOf, BigEndian, Sorted, WordAt, Limit, IsSlot, TS.Shifted;
    var r := DetailBytes(list, |list|);
    DetailBlockAt(list, |list|, 0);
    SubSlice(d, 0, r, 0, 2);
    TwoRoundTrip(|list|);
    forall k | 0 <= k < |list|
      ensures BlockAt(d, 2, k) == DetailBlock(list[k])
    {
      DetailBlockAt(list, |list|, k);
      SubSlice(d, 0, r, 2 + 68 * k, 70 + 68 * k);
    }
    ReplayFrom(list, d, 2, MAX_ACTIVITIES, now, id);
    SortedFixed(Replayed(list, id));
    assert [] + Replayed(list, id) == Replayed(list, id);
  }

  /** Reports by id name only scheduled activities, so that they can be composed like the rest. */
  lemma {:induction false} MatchedInList(list: Activities, d: seq<byte>, p: nat, n: nat, before: Activities)
    requires forall a :: a in before ==> a in list
    ensures forall a :: a in Matched(list, d, p, n, before) ==> a in list
    decreases n
  {
    if n > 0 {
      hide FindId, ReadId, AfterId;
      MatchedInList(list, d, AfterId(d, p), n - 1, before + Found(list, ReadId(d, p)));
    }
  }

  /** A report by id is about the matches of its ids, in order of release time. */
  lemma ReportedInOrder(list: Activities, d: seq<byte>, start: nat)
    requires start + 2 <= |d|
    ensures InTimeOrder(Matched(list, d, start + 2, 0x100 * (d[start] as int) + d[start + 1], []),
                        Reported(list, d, start))
  {
    ReadsExactly(d, start);
    SortedCorrect(Matched(list, d, start + 2, HalfAt(d, start), []));
    hide Matched, Sorted, HalfAt, Ordered, AtTime;
  }

  lemma SortedMatches(list: Activities, d: seq<byte>, p: nat, n: nat)
    ensures var m := Matched(list, d, p, n, []);
      |Sorted(m)| == |m| && Ordered(Sorted(m)) && (Slots(list) ==> Slots(Sorted(m)))
  {
    MatchedInList(list, d, p, n, []);
    SortedCorrect(Matched(list, d, p, n, []));
    SortedSlots(Matched(list, d, p, n, []));
    hide Matched, Sorted, IsSlot;
  }
}
