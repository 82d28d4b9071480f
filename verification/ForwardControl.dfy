/** The real-time forwarding control service: the handlers of TC[14,1], TC[14,2] and TC[14,3]. */
module ForwardControl {
  import opened Bits
  import opened Errors
  import opened Messages
  import opened ForwardConfig
  import opened ForwardInvariant
  import opened ForwardReport
  import opened ForwardRuns

  class RealTimeForwardingControlService {
    const controlledApplications: seq<uint16>
    var definitions: Definitions

    constructor (controlledApplications: seq<uint16>)
      ensures this.controlledApplications == controlledApplications && definitions == map[]
    {
      this.controlledApplications, definitions := controlledApplications, map[];
    }

    /** The state of the loops over a request. */
    ghost function Now(request: Message): State
      reads this, request
    {
      State(definitions, request.readPosition, request.errors)
    }

    /** `addAllReportsOfService`. */
    method AddAllReportsOfService(applicationID: uint16, serviceType: byte)
      modifies this`definitions
      ensures definitions == AddAllOfService(old(definitions), applicationID, serviceType)
    {
      hide Known, KeyOf;
      ghost var before, k, all := definitions, KeyOf(applicationID, serviceType), Known(serviceType);
      for i := 0 to |Known(serviceType)|
        invariant i == 0 ==> definitions == before
        invariant i > 0 ==> definitions == before[k := ListOf(before, k) + all[..i]]
      {
        var key := KeyOf(applicationID, serviceType);
        definitions := definitions[key := ListOf(definitions, key) + [Known(serviceType)[i]]];
        assert ListOf(before, k) + all[..i] + [all[i]] == ListOf(before, k) + all[..i + 1];
        assert ListOf(before, k) + [] == ListOf(before, k);
      }
      assert all[..|all|] == all;
    }

    /** `addAllReportsOfApplication`. */
    method AddAllReportsOfApplication(applicationID: uint16)
      modifies this`definitions
      ensures definitions == AddAllOfServices(old(definitions), applicationID, SERVICES)
    {
      hide AddAllOfService;
      var services := SERVICES;
      for i := 0 to |services|
        invariant definitions == AddAllOfServices(old(definitions), applicationID, services[..i])
      {
        AddAllReportsOfService(applicationID, services[i]);
        assert services[..i + 1][..i] == services[..i];
      }
      assert services[..|services|] == services;
    }

    /** `countServicesOfApplication`. */
    method CountServicesOfApplication(applicationID: uint16) returns (serviceCounter: nat)
      ensures serviceCounter == |OfApp(definitions, applicationID)|
    {
      serviceCounter := 0;
      var left := definitions.Keys;
      while left != {}
        invariant left <= definitions.Keys
        invariant serviceCounter == |set k | k in definitions && k !in left && AppOf(k) == applicationID|
      {
        var k :| k in left;
        ghost var before := set k | k in definitions && k !in left && AppOf(k) == applicationID;
        left := left - {k};
        assert (set k | k in definitions && k !in left && AppOf(k) == applicationID) ==
            if AppOf(k) == applicationID then before + {k} else before;
        if AppOf(k) == applicationID {
          serviceCounter := serviceCounter + 1;
        }
      }
      assert (set k | k in definitions && k !in left && AppOf(k) == applicationID) == OfApp(definitions, applicationID);
    }

    /** The skip over the service blocks of a refused application. */
    method SkipBlocks(request: Message, numOfServices: nat)
      requires request.Valid()
      modifies request`readPosition, request`errors
      ensures Now(request) == SkipServices(request.data[..], old(Now(request)), numOfServices)
    {
      hide ByteAt;
      ghost var d, start := request.data[..], Now(request);
      for i := 0 to numOfServices
        invariant request.Valid() && request.data[..] == d
        invariant SkipServices(d, start, numOfServices) == SkipServices(d, Now(request), numOfServices - i)
      {
        ghost var s := Now(request);
        SkipBlock(request);
      }
    }

    method SkipBlock(request: Message)
      requires request.Valid()
      modifies request`readPosition, request`errors
      ensures var d, q := request.data[..], PastBytes(old(Now(request)), 1);
        Now(request) == PastBytes(PastNumber(d, q, 1), ByteAt(d, q.position))
    {
      request.SkipBytes(1);
      var numOfMessages := request.ReadByte();
      request.SkipBytes(numOfMessages);
    }

    /** `checkApplicationOfAppProcessConfig`. */
    method CheckApplication(request: Message, applicationID: uint16, numOfServices: byte) returns (ok: bool)
      requires request.Valid()
      modifies request`readPosition, request`errors
      ensures var d, s := request.data[..], old(Now(request));
        var full := |OfApp(definitions, applicationID)| >= MAX_SERVICE_TYPES;
        && ok == (applicationID in controlledApplications && !full)
        && Now(request) ==
             if ok then s
             else SkipServices(d, Report(s, if applicationID !in controlledApplications then NotControlledApplication
                                            else AllServiceTypesAlreadyAllowed), numOfServices)
    {
      ok := true;
      if applicationID !in controlledApplications {
        request.errors := request.errors + [NotControlledApplication];
        ok := false;
      } else {
        var count := CountServicesOfApplication(applicationID);
        if count >= MAX_SERVICE_TYPES {
          request.errors := request.errors + [AllServiceTypesAlreadyAllowed];
          ok := false;
        }
      }
      if !ok {
        SkipBlocks(request, numOfServices);
      }
    }

    /** One report type: `checkMessage` and the insertion. */
    method AddReportType(request: Message, applicationID: uint16, serviceType: byte)
      requires request.Valid()
      modifies this`definitions, request`readPosition, request`errors
      ensures Now(request) == AddReport(request.data[..], applicationID, serviceType, old(Now(request)))
    {
      hide Known, KeyOf;
      var messageType := request.ReadByte();
      var key := KeyOf(applicationID, serviceType);
      definitions := LookedUp(definitions, key);
      if |definitions[key]| >= |Known(serviceType)| {
        request.errors := request.errors + [MaxReportTypesReached];
      } else if messageType !in definitions[key] {
        definitions := definitions[key := definitions[key] + [messageType]];
      }
    }

    method AddReportTypes(request: Message, applicationID: uint16, serviceType: byte, numOfMessages: nat)
      requires request.Valid()
      modifies this`definitions, request`readPosition, request`errors
      ensures Now(request) == AddReports(request.data[..], applicationID, serviceType, old(Now(request)), numOfMessages)
    {
      hide AddReport;
      ghost var d, start := request.data[..], Now(request);
      for i := 0 to numOfMessages
        invariant request.Valid() && request.data[..] == d
        invariant AddReports(d, applicationID, serviceType, start, numOfMessages) ==
          AddReports(d, applicationID, serviceType, Now(request), numOfMessages - i)
      {
        AddReportType(request, applicationID, serviceType);
      }
    }

    /** One service block of TC[14,1]. */
    method AddServiceBlock(request: Message, applicationID: uint16)
      requires request.Valid()
      modifies this`definitions, request`readPosition, request`errors
      ensures Now(request) == AddService(request.data[..], applicationID, old(Now(request)))
    {
      hide Known, KeyOf, OfApp, AddReports, AddAllOfService;
      var serviceType := request.ReadByte();
      var numOfMessages := request.ReadByte();
      var count := CountServicesOfApplication(applicationID);
      if count >= MAX_SERVICE_TYPES {
        request.errors := request.errors + [MaxServiceTypesReached];
        request.SkipBytes(numOfMessages);
      } else if numOfMessages == 0 {
        AddAllReportsOfService(applicationID, serviceType);
      } else {
        AddReportTypes(request, applicationID, serviceType, numOfMessages);
      }
    }

    method AddServiceBlocks(request: Message, applicationID: uint16, numOfServices: nat)
      requires request.Valid()
      modifies this`definitions, request`readPosition, request`errors
      ensures Now(request) == AddServices(request.data[..], applicationID, old(Now(request)), numOfServices)
    {
      hide AddService;
      ghost var d, start := request.data[..], Now(request);
      for i := 0 to numOfServices
        invariant request.Valid() && request.data[..] == d
        invariant AddServices(d, applicationID, start, numOfServices) ==
          AddServices(d, applicationID, Now(request), numOfServices - i)
      {
        AddServiceBlock(request, applicationID);
      }
    }

    /** One application block of TC[14,1]. */
    method AddApplicationBlock(request: Message)
      requires request.Valid()
      modifies this`definitions, request`readPosition, request`errors
      ensures Now(request) == AddApp(request.data[..], controlledApplications, old(Now(request)))
    {
      hide OfApp, AddServices, AddAllOfServices, SkipServices;
      var applicationID := request.ReadHalfword();
      var numOfServices := request.ReadByte();
      var ok := CheckApplication(request, applicationID, numOfServices);
      if !ok {
        return;
      }
      if numOfServices == 0 {
        AddAllReportsOfApplication(applicationID);
        return;
      }
      AddServiceBlocks(request, applicationID, numOfServices);
    }

    /** `addReportTypesToAppProcessConfiguration`. */
    method AddReportTypesToAppProcessConfiguration(request: Message)
      requires request.Valid()
      modifies this`definitions, request`readPosition, request`errors
      ensures !request.IsTc(14, 1) ==> definitions == old(definitions)
      ensures request.IsTc(14, 1) ==>
        var d, s := request.data[..], old(Now(request));
        && Now(request) == AddApps(d, controlledApplications, PastNumber(d, s, 1), ByteAt(d, s.position))
        && definitions == AfterRequest(s.definitions, controlledApplications, Add(d, s.position, s.errors))
    {
      var ok := request.AssertTc(14, 1);
      if !ok {
        return;
      }
      assert request.errors == old(request.errors);
      var numOfApplications := request.ReadByte();
      ghost var d, start := request.data[..], Now(request);
      hide AddApp;
      for i := 0 to numOfApplications
        invariant request.Valid() && request.data[..] == d
        invariant AddApps(d, controlledApplications, start, numOfApplications) ==
          AddApps(d, controlledApplications, Now(request), numOfApplications - i)
      {
        AddApplicationBlock(request);
      }
    }

    /** `deleteApplicationProcess`: every entry of the application goes. */
    method DeleteApplicationProcess(applicationID: uint16)
      modifies this`definitions
      ensures definitions == old(definitions) - OfApp(old(definitions), applicationID)
    {
      ghost var gone: set<Key> := {};
      while exists k :: k in definitions && AppOf(k) == applicationID
        invariant gone <= OfApp(old(definitions), applicationID) && definitions == old(definitions) - gone
        decreases |definitions|
      {
        var k :| k in definitions && AppOf(k) == applicationID;
        definitions := definitions - {k};
        gone := gone + {k};
      }
      assert gone == OfApp(old(definitions), applicationID);
    }

    /** One report type of TC[14,2]: `isReportTypeInConfiguration` and `deleteReportRecursive`. */
    method DeleteReportType(request: Message, applicationID: uint16, serviceType: byte)
      requires request.Valid()
      modifies this`definitions, request`readPosition, request`errors
      ensures Now(request) == DeleteReport(request.data[..], applicationID, serviceType, old(Now(request)))
    {
      hide KeyOf, Erased;
      var messageType := request.ReadByte();
      if !ReportEnabled(definitions, applicationID, serviceType, messageType) {
        request.errors := request.errors + [NonExistentReportTypeDefinition];
        return;
      }
      var key := KeyOf(applicationID, serviceType);
      definitions := definitions[key := Erased(definitions[key], messageType)];
      if definitions[key] == [] {
        definitions := definitions - {key};
      }
    }

    method DeleteReportTypes(request: Message, applicationID: uint16, serviceType: byte, numOfMessages: nat)
      requires request.Valid()
      modifies this`definitions, request`readPosition, request`errors
      ensures Now(request) ==
        DeleteReports(request.data[..], applicationID, serviceType, old(Now(request)), numOfMessages)
    {
      hide DeleteReport;
      ghost var d, start := request.data[..], Now(request);
      for i := 0 to numOfMessages
        invariant request.Valid() && request.data[..] == d
        invariant DeleteReports(d, applicationID, serviceType, start, numOfMessages) ==
          DeleteReports(d, applicationID, serviceType, Now(request), numOfMessages - i)
      {
        DeleteReportType(request, applicationID, serviceType);
      }
    }

    /** One service block of TC[14,2]. */
    method DeleteServiceBlock(request: Message, applicationID: uint16)
      requires request.Valid()
      modifies this`definitions, request`readPosition, request`errors
      ensures Now(request) == DeleteService(request.data[..], applicationID, old(Now(request)))
    {
      hide KeyOf, DeleteReports, ServiceEnabled;
      var serviceType := request.ReadByte();
      var numOfMessages := request.ReadByte();
      if !ServiceEnabled(definitions, applicationID, serviceType) {
        request.errors := request.errors + [NonExistentServiceTypeDefinition];
        request.SkipBytes(numOfMessages);
      } else if numOfMessages == 0 {
        definitions := definitions - {KeyOf(applicationID, serviceType)};
      } else {
        DeleteReportTypes(request, applicationID, serviceType, numOfMessages);
      }
    }

    method DeleteServiceBlocks(request: Message, applicationID: uint16, numOfServices: nat)
      requires request.Valid()
      modifies this`definitions, request`readPosition, request`errors
      ensures Now(request) == DeleteServices(request.data[..], applicationID, old(Now(request)), numOfServices)
    {
      hide DeleteService;
      ghost var d, start := request.data[..], Now(request);
      for i := 0 to numOfServices
        invariant request.Valid() && request.data[..] == d
        invariant DeleteServices(d, applicationID, start, numOfServices) ==
          DeleteServices(d, applicationID, Now(request), numOfServices - i)
      {
        DeleteServiceBlock(request, applicationID);
      }
    }

    /** One application block of TC[14,2]. */
    method DeleteApplicationBlock(request: Message)
      requires request.Valid()
      modifies this`definitions, request`readPosition, request`errors
      ensures Now(request) == DeleteApp(request.data[..], old(Now(request)))
    {
      hide OfApp, DeleteServices, SkipServices, AppEnabled;
      var applicationID := request.ReadHalfword();
      var numOfServices := request.ReadByte();
      if !AppEnabled(definitions, applicationID) {
        request.errors := request.errors + [NonExistentApplicationProcess];
        SkipBlocks(request, numOfServices);
        return;
      }
      if numOfServices == 0 {
        DeleteApplicationProcess(applicationID);
        return;
      }
      DeleteServiceBlocks(request, applicationID, numOfServices);
    }

    /** `deleteReportTypesFromAppProcessConfiguration`. */
    method DeleteReportTypesFromAppProcessConfiguration(request: Message)
      requires request.Valid()
      modifies this`definitions, request`readPosition, request`errors
      ensures !request.IsTc(14, 2) ==> definitions == old(definitions)
      ensures request.IsTc(14, 2) ==>
        var d, s := request.data[..], old(Now(request));
        && Now(request) == (if ByteAt(d, s.position) == 0 then PastNumber(d, s, 1).(definitions := map[])
                            else DeleteApps(d, PastNumber(d, s, 1), ByteAt(d, s.position)))
        && definitions == AfterRequest(s.definitions, controlledApplications, Delete(d, s.position, s.errors))
    {
      var ok := request.AssertTc(14, 2);
      if !ok {
        return;
      }
      assert request.errors == old(request.errors);
      var numOfApplications := request.ReadByte();
      if numOfApplications == 0 {
        definitions := map[];
        return;
      }
      ghost var d, start := request.data[..], Now(request);
      hide DeleteApp;
      for i := 0 to numOfApplications
        invariant request.Valid() && request.data[..] == d
        invariant DeleteApps(d, start, numOfApplications) == DeleteApps(d, Now(request), numOfApplications - i)
      {
        DeleteApplicationBlock(request);
      }
    }

    /** The first pass of the report: the number of applications, and of services for each. */
    method CountGroups(keys: Keys) returns (numOfApplications: nat, numOfServicesPerApp: seq<nat>)
      requires Starts(keys, |keys|) <= MAX_APPLICATIONS
      requires |keys| > 0 ==> AppOf(keys[0]) != NO_APPLICATION
      ensures numOfApplications == Starts(keys, |keys|) && |numOfServicesPerApp| == MAX_APPLICATIONS
      ensures numOfServicesPerApp[..numOfApplications] == GroupCounts(keys, |keys|)
    {
      numOfApplications := 0;
      numOfServicesPerApp := [0, 0, 0, 0, 0];
      var previousAppID := NO_APPLICATION;
      for i := 0 to |keys|
        invariant numOfApplications == Starts(keys, i) && |numOfServicesPerApp| == MAX_APPLICATIONS
        invariant previousAppID == if i == 0 then NO_APPLICATION else AppOf(keys[i - 1])
        invariant numOfApplications <= MAX_APPLICATIONS
        invariant numOfServicesPerApp[..numOfApplications] == GroupCounts(keys, i)
        invariant forall g :: numOfApplications <= g < MAX_APPLICATIONS ==> numOfServicesPerApp[g] == 0
      {
        StartsMonotone(keys, i + 1, |keys|);
        hide AppOf;
        var applicationID := AppOf(keys[i]);
        if applicationID != previousAppID {
          previousAppID := applicationID;
          numOfApplications := numOfApplications + 1;
        }
        var g := numOfApplications - 1;
        numOfServicesPerApp := numOfServicesPerApp[g := numOfServicesPerApp[g] + 1];
      }
    }

    /** `appProcessConfigurationContentReport`: a report that fits one message decodes to the
        configuration; of a longer one, each byte past the end of the message is reported. */
    method AppProcessConfigurationContentReport() returns (report: Message)
      requires Reportable(definitions) && |AppsIn(definitions)| <= MAX_APPLICATIONS && StartsNumbered(definitions)
      ensures fresh(report) && report.packetType == TM && report.serviceType == 14 && report.messageType == 4
      ensures Wrote(report, ReportBytes(definitions))
      ensures var size := ReportSize(definitions);
        if size <= MAX_MESSAGE_SIZE then report.errors == [] && Decoded(report.data[..]) == definitions
        else report.errors == seq(size - MAX_MESSAGE_SIZE, _ => MessageTooLarge)
    {
      hide SortedKeys, ReportBytes, Decoded, Reportable, Starts, BytesOf, StartsNumbered, AppsIn, ReportSize;
      report := new Message(14, 4, TM, 1);
      ReportLength(definitions);
      WriteConfiguration(report);
      if ReportSize(definitions) <= MAX_MESSAGE_SIZE {
        WroteAll(report, ReportBytes(definitions));
        ReportRoundTrip(definitions, report.data[..]);
      } else {
        WrotePart(report, ReportBytes(definitions));
      }
    }

    method WriteConfiguration(report: Message)
      requires Wrote(report, []) && Reportable(definitions) && StartsNumbered(definitions)
      requires Starts(SortedKeys(definitions), |SortedKeys(definitions)|) <= MAX_APPLICATIONS
      modifies report`dataSize, report`errors, report.data
      ensures Wrote(report, ReportBytes(definitions))
    {
      hide SortedKeys, Body, Wrote, Reportable, Starts, StartsNumbered;
      SortedKeysFacts(definitions);
      var keys := SortedKeys(definitions);
      SizeOfMap(definitions);
      FirstIsNumbered(definitions);
      WriteGroups(report, keys);
    }

    /** Both passes over the keys. */
    method WriteGroups(report: Message, keys: Keys)
      requires Wrote(report, [])
      requires Reportable(definitions) && KeysOf(definitions, keys) && |keys| <= MAX_COMBINATIONS
      requires Starts(keys, |keys|) <= MAX_APPLICATIONS && (|keys| > 0 ==> AppOf(keys[0]) != NO_APPLICATION)
      modifies report`dataSize, report`errors, report.data
      ensures Wrote(report, Body(definitions, keys, |keys|))
    {
      hide AppOf, GroupCounts, Wrote, Definition, Header;
      var numOfApplications, numOfServicesPerApp := CountGroups(keys);
      AppendUint8(report, numOfApplications, []);
      assert [] + [numOfApplications as byte] == Body(definitions, keys, 0);
      SecondPass(report, keys, numOfServicesPerApp);
    }

    /** The second pass: the groups and their definitions. */
    method SecondPass(report: Message, keys: Keys, numOfServicesPerApp: seq<nat>)
      requires Reportable(definitions) && KeysOf(definitions, keys) && |keys| <= MAX_COMBINATIONS
      requires Wrote(report, Body(definitions, keys, 0)) && Starts(keys, |keys|) <= |numOfServicesPerApp|
      requires |keys| > 0 ==> AppOf(keys[0]) != NO_APPLICATION
      requires numOfServicesPerApp[..Starts(keys, |keys|)] == GroupCounts(keys, |keys|)
      modifies report`dataSize, report`errors, report.data
      ensures Wrote(report, Body(definitions, keys, |keys|))
    {
      NothingStarted(keys);
      hide Reportable, Starts, AppOf, Definition, Header, Wrote, Body, GroupCounts;
      var previousAppID := NO_APPLICATION;
      var appIdIndex := 0;
      for i := 0 to |keys|
        invariant previousAppID == if i == 0 then NO_APPLICATION else AppOf(keys[i - 1])
        invariant appIdIndex == Starts(keys, i)
        invariant Wrote(report, Body(definitions, keys, i))
      {
        previousAppID, appIdIndex := WriteGroup(report, keys, i, previousAppID, appIdIndex, numOfServicesPerApp);
      }
    }

    /** One step of the second pass: the header of a new group, and the definition. */
    method WriteGroup(report: Message, keys: Keys, i: nat, previousAppID: byte, appIdIndex: nat, counts: seq<nat>)
      returns (previousAppID': byte, appIdIndex': nat)
      requires Reportable(definitions) && KeysOf(definitions, keys) && i < |keys| <= MAX_COMBINATIONS
      requires Wrote(report, Body(definitions, keys, i)) && AppOf(keys[0]) != NO_APPLICATION
      requires previousAppID == if i == 0 then NO_APPLICATION else AppOf(keys[i - 1])
      requires appIdIndex == Starts(keys, i) && Starts(keys, |keys|) <= |counts|
      requires counts[..Starts(keys, |keys|)] == GroupCounts(keys, |keys|)
      modifies report`dataSize, report`errors, report.data
      ensures previousAppID' == AppOf(keys[i]) && appIdIndex' == Starts(keys, i + 1)
      ensures Wrote(report, Body(definitions, keys, i + 1))
    {
      hide Wrote, Reportable, Definition, GroupCounts, RunEnd, Starts;
      BodyNext(definitions, keys, i);
      StartsNext(keys, i);
      ghost var before := Body(definitions, keys, i);
      var applicationID := AppOf(keys[i]);
      previousAppID', appIdIndex' := applicationID, appIdIndex;
      if applicationID != previousAppID {
        StartsBelow(keys, i);
        WriteHeader(report, keys, i, counts[appIdIndex], before);
        appIdIndex' := appIdIndex + 1;
      }
      assert applicationID == previousAppID ==> before + Header(keys, i) == before;
      WriteDefinition(report, keys[i], before + Header(keys, i));
      assert before + Header(keys, i) + Definition(definitions, keys[i]) ==
        before + (Header(keys, i) + Definition(definitions, keys[i]));
    }

    method WriteHeader(report: Message, keys: Keys, i: nat, count: nat, ghost before: seq<byte>)
      requires Wrote(report, before) && i < |keys| && IsStart(keys, i)
      requires Starts(keys, i) < Starts(keys, |keys|) && count == GroupCounts(keys, |keys|)[Starts(keys, i)]
      modifies report`dataSize, report`errors, report.data
      ensures Wrote(report, before + Header(keys, i))
    {
      CountsAreRuns(keys, i, |keys|);
      hide Wrote, GroupCounts, RunEnd, Starts, AppOf;
      AppendUint8(report, AppOf(keys[i]), before);
      AppendUint8(report, count % 0x100, before + [AppOf(keys[i])]);
      assert before + Header(keys, i) == before + [AppOf(keys[i])] + [count % 0x100];
    }

    /** `appendUint8`. */
    method AppendUint8(report: Message, value: byte, ghost before: seq<byte>)
      requires Wrote(report, before)
      modifies report`dataSize, report`errors, report.data
      ensures Wrote(report, before + [value])
    {
      report.AppendByte(value);
    }

    method WriteDefinition(report: Message, k: Key, ghost before: seq<byte>)
      requires Wrote(report, before) && k in definitions
      modifies report`dataSize, report`errors, report.data
      ensures Wrote(report, before + Definition(definitions, k))
    {
      hide Wrote;
      var types := definitions[k];
      AppendUint8(report, ServiceOf(k), before);
      AppendUint8(report, |types| % 0x100, before + [ServiceOf(k)]);
      ghost var head: seq<byte> := [ServiceOf(k), |types| % 0x100];
      assert before + [ServiceOf(k)] + [|types| % 0x100] == before + head + types[..0];
      for i := 0 to |types|
        invariant Wrote(report, before + head + types[..i])
      {
        AppendUint8(report, types[i], before + head + types[..i]);
        assert before + head + types[..i] + [types[i]] == before + head + types[..i + 1];
      }
      assert before + head + types[..|types|] == before + (head + types);
    }
  }

  /** Appending the bytes of `all` to an empty message: those that fit are there, and each of the
      others was reported. */
  ghost predicate Wrote(report: Message, all: seq<byte>)
    reads report, report.data
  {
    && report.Valid() && report.currentBit == 0
    && report.data[..report.dataSize] == (if |all| <= MAX_MESSAGE_SIZE then all else all[..MAX_MESSAGE_SIZE])
    && report.errors == seq(if |all| <= MAX_MESSAGE_SIZE then 0 else |all| - MAX_MESSAGE_SIZE, _ => MessageTooLarge)
  }

  lemma NothingStarted(keys: Keys)
    ensures Starts(keys, 0) == 0
  {
  }

  lemma StartsNext(keys: Keys, i: nat)
    requires i < |keys|
    ensures Starts(keys, i + 1) == Starts(keys, i) + if IsStart(keys, i) then 1 else 0
  {
  }

  lemma StartsBelow(keys: Keys, i: nat)
    requires i < |keys| && IsStart(keys, i)
    ensures Starts(keys, i) < Starts(keys, |keys|)
    ensures |GroupCounts(keys, |keys|)| == Starts(keys, |keys|)
  {
    StartsNext(keys, i);
    StartsMonotone(keys, i + 1, |keys|);
  }

  lemma SizeOfMap(m: Definitions)
    requires Reportable(m)
    ensures |m| <= MAX_COMBINATIONS
  {
  }

  lemma WroteAll(report: Message, all: seq<byte>)
    requires Wrote(report, all) && |all| <= MAX_MESSAGE_SIZE
    ensures report.errors == [] && report.data.Length == MAX_MESSAGE_SIZE && all <= report.data[..]
  {
    assert report.data[..][..report.dataSize] == report.data[..report.dataSize];
  }

  lemma WrotePart(report: Message, all: seq<byte>)
    requires Wrote(report, all) && |all| > MAX_MESSAGE_SIZE
    ensures report.errors == seq(|all| - MAX_MESSAGE_SIZE, _ => MessageTooLarge)
  {
  }

  lemma {:induction false} StartsMonotone(keys: Keys, i: nat, j: nat)
    requires i <= j <= |keys|
    ensures Starts(keys, i) <= Starts(keys, j)
    decreases j
  {
    if i < j {
      StartsMonotone(keys, i, j - 1);
    }
  }
}
