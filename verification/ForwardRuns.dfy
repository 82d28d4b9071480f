/** The forwarding configuration over whole runs of add and delete requests. */
module ForwardRuns {
  import opened Bits
  import opened Errors
  import opened Messages
  import opened ForwardConfig
  import opened ForwardInvariant
  import opened ForwardReport

  /** A request as its handler finds it: its bytes, the read position, and what was reported before. */
  datatype Request =
    | Add(data: seq<byte>, position: nat, errors: seq<Error>)
    | Delete(data: seq<byte>, position: nat, errors: seq<Error>)

  type Requests = seq<Request>

  function Start(m: Definitions, r: Request): State
  {
    State(m, r.position, r.errors)
  }

  /** The number of application blocks a request announces. */
  function Blocks(r: Request): byte
  {
    ByteAt(r.data, r.position)
  }

  /** The configuration after one request. */
  function AfterRequest(m: Definitions, controlled: seq<uint16>, r: Request): Definitions
  {
    var s := PastNumber(r.data, Start(m, r), 1);
    if r.Add? then AddApps(r.data, controlled, s, Blocks(r)).definitions
    else if Blocks(r) == 0 then map[]
    else DeleteApps(r.data, s, Blocks(r)).definitions
  }

  /** The configuration after a run from the empty one. */
  function Reached(controlled: seq<uint16>, run: Requests): Definitions
  {
    if run == [] then map[]
    else AfterRequest(Reached(controlled, run[..|run| - 1]), controlled, run[|run| - 1])
  }

  // ----- only controlled applications

  lemma {:induction false} DeleteReportsKeys(d: seq<byte>, app: uint16, service: byte, s: State, n: nat)
    ensures DeleteReports(d, app, service, s, n).definitions.Keys <= s.definitions.Keys
    decreases n
  {
    hide ByteAt, KeyOf, Erased;
    if n > 0 {
      DeleteReportsKeys(d, app, service, DeleteReport(d, app, service, s), n - 1);
    }
  }

  lemma {:induction false} DeleteServicesKeys(d: seq<byte>, app: uint16, s: State, n: nat)
    ensures DeleteServices(d, app, s, n).definitions.Keys <= s.definitions.Keys
    decreases n
  {
    hide ByteAt, KeyOf, DeleteReports, ServiceEnabled;
    if n > 0 {
      var service, q := ByteAt(d, s.position), PastNumber(d, s, 1);
      DeleteReportsKeys(d, app, service, PastNumber(d, q, 1), ByteAt(d, q.position));
      DeleteServicesKeys(d, app, DeleteService(d, app, s), n - 1);
    }
  }

  /** Deleting brings in no entry. */
  lemma {:induction false} DeleteAppsKeys(d: seq<byte>, s: State, n: nat)
    ensures DeleteApps(d, s, n).definitions.Keys <= s.definitions.Keys
    decreases n
  {
    hide ByteAt, HalfAt, DeleteServices, SkipServices, AppEnabled, OfApp;
    if n > 0 {
      var app, q := HalfAt(d, s.position), PastNumber(d, s, 2);
      var m, r := ByteAt(d, q.position), PastNumber(d, q, 1);
      SkipKeeps(d, Report(r, NonExistentApplicationProcess), m);
      DeleteServicesKeys(d, app, r, m);
      DeleteAppsKeys(d, DeleteApp(d, s), n - 1);
    }
  }

  /** Whatever is requested, only controlled applications ever have entries. */
  lemma {:induction false} ReachedControlled(controlled: seq<uint16>, run: Requests)
    requires EightBit(controlled)
    ensures OnlyControlled(Reached(controlled, run), controlled)
    decreases |run|
  {
    hide AddApps, DeleteApps, ByteAt, AppOf;
    if run != [] {
      var r, m := run[|run| - 1], Reached(controlled, run[..|run| - 1]);
      ReachedControlled(controlled, run[..|run| - 1]);
      var s := PastNumber(r.data, Start(m, r), 1);
      AddAppsControlled(r.data, controlled, s, Blocks(r));
      DeleteAppsKeys(r.data, s, Blocks(r));
    }
  }

  // ----- the invariant

  /** An add request whose blocks end inside its data and name known services. */
  predicate Proper(r: Request)
  {
    r.Add? ==>
      && r.position + 1 <= |r.data| <= MAX_MESSAGE_SIZE
      && AppsEnd(r.data, r.position + 1, Blocks(r)) <= |r.data| && AppsKnown(r.data, r.position + 1, Blocks(r))
  }

  predicate AllProper(run: Requests)
  {
    forall i :: 0 <= i < |run| ==> Proper(run[i])
  }

  /** No block of an add request adds all report types of a service that has an entry by then. */
  predicate RequestNew(m: Definitions, controlled: seq<uint16>, r: Request)
  {
    r.Add? ==> AppsNew(r.data, controlled, m.Keys, r.position + 1, Blocks(r))
  }

  predicate AllNew(controlled: seq<uint16>, run: Requests)
  {
    forall k :: 0 <= k < |run| ==> RequestNew(Reached(controlled, run[..k]), controlled, run[k])
  }

  predicate ValidThroughout(controlled: seq<uint16>, run: Requests)
  {
    forall k :: 0 <= k <= |run| ==> ValidConfig(Reached(controlled, run[..k]))
  }

  lemma RequestValid(m: Definitions, controlled: seq<uint16>, r: Request)
    requires ValidConfig(m) && Proper(r)
    ensures ValidConfig(AfterRequest(m, controlled, r)) <==> RequestNew(m, controlled, r)
  {
    hide AddApps, DeleteApps, ByteAt, ValidList, AppsEnd, AppsKnown, AppsNew;
    var s := PastNumber(r.data, Start(m, r), 1);
    if r.Add? {
      AddAppsExactKeys(r.data, controlled, s, Blocks(r));
    } else {
      DeleteAppsValid(r.data, s, Blocks(r));
    }
  }

  lemma ReachedNext(controlled: seq<uint16>, run: Requests, k: nat)
    requires k < |run|
    ensures Reached(controlled, run[..k + 1]) == AfterRequest(Reached(controlled, run[..k]), controlled, run[k])
  {
    hide AfterRequest;
    assert run[..k + 1][..k] == run[..k];
  }

  /** Every configuration of a run is valid if and only if each of its add requests is new where it
      arrives; deletions never matter. */
  lemma ReachedValid(controlled: seq<uint16>, run: Requests)
    requires AllProper(run)
    ensures ValidThroughout(controlled, run) <==> AllNew(controlled, run)
  {
    if ValidThroughout(controlled, run) {
      hide Reached, ValidConfig, RequestNew, Proper;
      forall k | 0 <= k < |run|
        ensures RequestNew(Reached(controlled, run[..k]), controlled, run[k])
      {
        ReachedNext(controlled, run, k);
        RequestValid(Reached(controlled, run[..k]), controlled, run[k]);
      }
    }
    if AllNew(controlled, run) {
      NewIsValid(controlled, run, |run|);
    }
  }

  lemma {:induction false} NewIsValid(controlled: seq<uint16>, run: Requests, n: nat)
    requires AllProper(run) && AllNew(controlled, run) && n <= |run|
    ensures forall k :: 0 <= k <= n ==> ValidConfig(Reached(controlled, run[..k]))
    decreases n
  {
    hide AfterRequest, RequestNew, Proper, ValidList;
    if n > 0 {
      NewIsValid(controlled, run, n - 1);
      ReachedNext(controlled, run, n - 1);
      RequestValid(Reached(controlled, run[..n - 1]), controlled, run[n - 1]);
    }
  }

  /** With at most five controlled applications the configuration after such a run is valid, fits its
      map, and its report fits one message, from which the configuration can be read back. */
  lemma ReachedReport(controlled: seq<uint16>, run: Requests, b: seq<byte>)
    requires EightBit(controlled) && |controlled| <= MAX_APPLICATIONS
    requires AllProper(run) && AllNew(controlled, run)
    ensures var m := Reached(controlled, run);
      && ValidConfig(m) && Reportable(m) && |AppsIn(m)| <= MAX_APPLICATIONS
      && |ReportBytes(m)| == ReportSize(m) <= MAX_MESSAGE_SIZE
      && (NO_APPLICATION !in controlled ==> StartsNumbered(m))
      && (ReportBytes(m) <= b ==> Decoded(b) == m)
  {
    hide Reached, ReportBytes, ReportSize, AppsIn, ValidConfig, Decoded, SortedKeys, Starts, AllNew, AllProper, AppOf;
    var m := Reached(controlled, run);
    NewIsValid(controlled, run, |run|);
    assert run[..|run|] == run;
    ReachedControlled(controlled, run);
    ControlledSize(m, controlled);
    GroupsAreControlled(m, controlled);
    ValidIsReportable(m);
    if ReportBytes(m) <= b {
      ReportRoundTrip(m, b);
    }
  }

  // ----- a run to a configuration that is too long for its report

  function From(m: Definitions, controlled: seq<uint16>, run: Requests): Definitions
  {
    if run == [] then m
    else AfterRequest(From(m, controlled, run[..|run| - 1]), controlled, run[|run| - 1])
  }

  lemma {:induction false} FromAppend(m: Definitions, controlled: seq<uint16>, a: Requests, b: Requests)
    ensures From(m, controlled, a + b) == From(From(m, controlled, a), controlled, b)
    decreases |b|
  {
    hide AfterRequest;
    if b == [] {
      assert a + b == a;
    } else {
      FromAppend(m, controlled, a, b[..|b| - 1]);
      assert (a + b)[..|a + b| - 1] == a + b[..|b| - 1];
    }
  }

  lemma {:induction false} FromEmpty(controlled: seq<uint16>, run: Requests)
    ensures From(map[], controlled, run) == Reached(controlled, run)
    decreases |run|
  {
    hide AfterRequest;
    if run != [] {
      FromEmpty(controlled, run[..|run| - 1]);
    }
  }

  /** A request of one block: all report types of one service of one application. */
  function AddAll(app: uint16, service: byte): Request
  {
    var block: seq<byte> := [1, app / 0x100, app % 0x100, 1, service, 0];
    Add(block + seq(MAX_MESSAGE_SIZE - 6, _ => 0), 0, [])
  }

  lemma AddAllData(app: uint16, service: byte)
    ensures AddAll(app, service).Add? && AddAll(app, service).position == 0 && AddAll(app, service).errors == []
    ensures var d := AddAll(app, service).data;
      && |d| == MAX_MESSAGE_SIZE && ByteAt(d, 0) == 1 && HalfAt(d, 1) == app
      && ByteAt(d, 3) == 1 && ByteAt(d, 4) == service && ByteAt(d, 5) == 0
  {
    var d := AddAll(app, service).data;
    BigEndianOne(d, 0);
    BigEndianTwo(d, 1);
    BigEndianOne(d, 3);
    BigEndianOne(d, 4);
    BigEndianOne(d, 5);
    hide BigEndian;
  }

  lemma AddAllEffect(m: Definitions, controlled: seq<uint16>, app: uint16, service: byte)
    requires app in controlled && |OfApp(m, app)| < MAX_SERVICE_TYPES
    ensures AfterRequest(m, controlled, AddAll(app, service)) == AddAllOfService(m, app, service)
  {
    AddAllData(app, service);
    hide AddAll, ByteAt, HalfAt, OfApp, AddAllOfService, SkipServices, AddReports;
    var r := AddAll(app, service);
    var d, s := r.data, PastNumber(r.data, State(m, 0, []), 1);
    OneBlock(d, controlled, s, app, service);
  }

  lemma OneBlock(d: seq<byte>, controlled: seq<uint16>, s: State, app: uint16, service: byte)
    requires app in controlled && |OfApp(s.definitions, app)| < MAX_SERVICE_TYPES
    requires s.position == 1 && |d| == MAX_MESSAGE_SIZE && HalfAt(d, 1) == app
    requires ByteAt(d, 3) == 1 && ByteAt(d, 4) == service && ByteAt(d, 5) == 0
    ensures AddApps(d, controlled, s, 1).definitions == AddAllOfService(s.definitions, app, service)
  {
    hide ByteAt, HalfAt, OfApp, AddAllOfService, SkipServices, AddReports;
    var s' := AddApp(d, controlled, s);
    var r := PastNumber(d, PastNumber(d, s, 2), 1);
    assert s' == AddServices(d, app, r, 1) == AddServices(d, app, AddService(d, app, r), 0);
    assert AddApps(d, controlled, s, 1) == AddApps(d, controlled, s', 0) == s';
  }

  lemma AddAllProper(app: uint16, service: byte)
    requires Known(service) != []
    ensures Proper(AddAll(app, service))
  {
    AddAllData(app, service);
    hide AddAll, ByteAt, HalfAt, Known;
    var d := AddAll(app, service).data;
    assert ServicesEnd(d, 4, 1) == ServicesEnd(d, 6, 0) == 6;
    assert AppsEnd(d, 1, 1) == AppsEnd(d, 6, 0) == 6;
    assert ServicesKnown(d, 6, 0) && ServicesKnown(d, 4, 1);
    assert AppsKnown(d, 6, 0) && AppsKnown(d, 1, 1);
  }

  function Repeated(r: Request, n: nat): Requests
  {
    if n == 0 then [] else Repeated(r, n - 1) + [r]
  }

  function Copies(list: seq<byte>, n: nat): (all: seq<byte>)
    ensures |all| == n * |list|
  {
    if n == 0 then [] else Copies(list, n - 1) + list
  }

  lemma {:induction false} RepeatedProper(r: Request, n: nat)
    requires Proper(r)
    ensures AllProper(Repeated(r, n))
  {
    hide Proper;
    if n > 0 {
      RepeatedProper(r, n - 1);
    }
  }

  /** Adding all report types of a service again and again appends them each time. */
  lemma {:induction false} RepeatedEffect(m: Definitions, controlled: seq<uint16>, app: uint16, service: byte, n: nat)
    requires app in controlled && Known(service) != [] && KeyOf(app, service) !in m
    requires |OfApp(m, app)| + (if n > 1 then 1 else 0) < MAX_SERVICE_TYPES
    ensures From(m, controlled, Repeated(AddAll(app, service), n)) ==
      if n == 0 then m else m[KeyOf(app, service) := Copies(Known(service), n)]
  {
    hide AfterRequest, Known, KeyOf, OfApp, AddAll;
    if n > 0 {
      var r, k, all := AddAll(app, service), KeyOf(app, service), Known(service);
      var before := From(m, controlled, Repeated(r, n - 1));
      RepeatedEffect(m, controlled, app, service, n - 1);
      assert Repeated(r, n)[..|Repeated(r, n)| - 1] == Repeated(r, n - 1);
      OneKeyMore(m, app, k, Copies(all, n - 1));
      AddAllEffect(before, controlled, app, service);
      assert ListOf(before, k) == Copies(all, n - 1);
    }
  }

  lemma OneKeyMore(m: Definitions, app: uint16, k: Key, list: seq<byte>)
    ensures |OfApp(m[k := list], app)| <= |OfApp(m, app)| + 1
    ensures AppOf(k) == app && k !in m ==> |OfApp(m[k := list], app)| == |OfApp(m, app)| + 1
    ensures AppOf(k) as uint16 != app ==> OfApp(m[k := list], app) == OfApp(m, app)
  {
    OfAppNext(m, app, k, list);
    hide AppOf, OfApp;
    OneMember(OfApp(m, app), k);
  }

  lemma OfAppNext(m: Definitions, app: uint16, k: Key, list: seq<byte>)
    ensures OfApp(m[k := list], app) == if AppOf(k) == app then OfApp(m, app) + {k} else OfApp(m, app)
    ensures k in OfApp(m, app) ==> k in m
  {
    hide AppOf;
    var m' := m[k := list];
    forall j
      ensures j in OfApp(m', app) <==> j in OfApp(m, app) || (j == k && AppOf(k) == app)
    {
      assert j != k ==> (j in m' <==> j in m);
    }
  }

  lemma OneMember(keys: set<Key>, k: Key)
    ensures |keys + {k}| == |keys| + if k in keys then 0 else 1
  {
    if k in keys {
      assert keys + {k} == keys;
    }
  }

  // ----- filling an application

  const ORDER: seq<byte> := [3, 4, 5, 6, 11, 13, 17, 19, 20, 1]

  /** How often the report types of a service are added: as often as a list of twenty has room, and
      those of the last service once, for then the application has all services. */
  const TIMES: seq<nat> := [3, 10, 4, 10, 20, 6, 10, 20, 20, 1]

  function ListAt(i: nat): seq<byte>
    requires i < 10
  {
    Copies(Known(ORDER[i]), TIMES[i])
  }

  /** The length of the lists of the first `i` services. */
  function Total(i: nat): nat
    requires i <= 10
  {
    if i == 0 then 0 else Total(i - 1) + |ListAt(i - 1)|
  }

  lemma ListSizes(i: nat)
    requires i < 10
    ensures |ListAt(i)| == [18, 20, 20, 20, 20, 18, 20, 20, 20, 9][i] && Known(ORDER[i]) != []
    ensures TIMES[i] > 0 && (TIMES[i] > 1 <==> i < 9)
  {
    hide Copies;
  }

  lemma TotalSize()
    ensures Total(10) == 185
  {
    hide ListAt;
    ListSizes(0); ListSizes(1); ListSizes(2); ListSizes(3); ListSizes(4);
    ListSizes(5); ListSizes(6); ListSizes(7); ListSizes(8); ListSizes(9);
    assert Total(4) == 78;
    assert Total(8) == 156;
  }

  function FillRun(app: uint16, i: nat): Requests
    requires i <= 10
  {
    if i == 0 then [] else FillRun(app, i - 1) + Repeated(AddAll(app, ORDER[i - 1]), TIMES[i - 1])
  }

  function Filled(m: Definitions, app: uint16, i: nat): Definitions
    requires i <= 10
  {
    if i == 0 then m else Filled(m, app, i - 1)[KeyOf(app, ORDER[i - 1]) := ListAt(i - 1)]
  }

  predicate ListsFit(m: Definitions)
  {
    forall k :: k in m ==> |m[k]| <= 20
  }

  lemma {:induction false} TypesChange(m: Definitions, k: Key, list: seq<byte>, n: nat)
    requires n <= 0x1_0000 && k !in m
    ensures TypesBelow(m[k := list], n) == TypesBelow(m, n) + if k < n then |list| else 0
    decreases n
  {
    if n > 0 {
      TypesChange(m, k, list, n - 1);
    }
  }

  /** What one more entry of a new key changes. */
  lemma NewEntry(m: Definitions, k: Key, list: seq<byte>, n: nat)
    requires n == 0x1_0000 && k !in m
    ensures Types(m[k := list]) == Types(m) + |list| && |m[k := list]| == |m| + 1
    ensures AppsIn(m[k := list]) == AppsIn(m) + {AppOf(k) as uint16}
  {
    TypesChange(m, k, list, n);
    hide TypesBelow, AppOf;
    var m' := m[k := list];
    assert m'.Keys == m.Keys + {k};
    NewApplication(m, k, list);
  }

  lemma NewApplication(m: Definitions, k: Key, list: seq<byte>)
    ensures AppsIn(m[k := list]) == AppsIn(m) + {AppOf(k) as uint16}
  {
    hide AppOf;
    var m' := m[k := list];
    forall app
      ensures app in AppsIn(m') <==> app in AppsIn(m) + {AppOf(k) as uint16}
    {
      if app in AppsIn(m) {
        var j :| j in m && AppOf(j) as uint16 == app;
        assert j in m';
      }
      if app == AppOf(k) as uint16 {
        assert k in m';
      }
    }
  }

  /** The services filled so far have their lists, the others have no entry. */
  lemma {:induction false} FilledKeys(m: Definitions, app: uint16, i: nat)
    requires i <= 10 && app < 0x100 && OfApp(m, app) == {}
    ensures |OfApp(Filled(m, app, i), app)| == i
    ensures forall j :: i <= j < 10 ==> KeyOf(app, ORDER[j]) !in Filled(m, app, i)
  {
    if i == 0 {
      NoKeys(m, app);
    } else {
      FilledKeys(m, app, i - 1);
      hide KeyOf, OfApp, AppOf, ListAt;
      var k := KeyOf(app, ORDER[i - 1]);
      KeyParts(app, ORDER[i - 1]);
      OneKeyMore(Filled(m, app, i - 1), app, k, ListAt(i - 1));
      OtherKeys(app, i);
    }
  }

  /** Other applications keep their entries. */
  lemma {:induction false} FilledOthers(m: Definitions, app: uint16, i: nat, other: uint16)
    requires i <= 10 && app < 0x100 && other != app
    ensures OfApp(Filled(m, app, i), other) == OfApp(m, other)
  {
    hide KeyOf, OfApp, AppOf, ListAt;
    if i > 0 {
      FilledOthers(m, app, i - 1, other);
      KeyParts(app, ORDER[i - 1]);
      OneKeyMore(Filled(m, app, i - 1), other, KeyOf(app, ORDER[i - 1]), ListAt(i - 1));
    }
  }

  lemma OtherKeys(app: uint16, i: nat)
    requires 0 < i <= 10
    ensures forall j :: i <= j < 10 ==> KeyOf(app, ORDER[j]) != KeyOf(app, ORDER[i - 1])
  {
    hide KeyOf, AppOf;
    KeyParts(app, ORDER[i - 1]);
    forall j | i <= j < 10
      ensures KeyOf(app, ORDER[j]) != KeyOf(app, ORDER[i - 1])
    {
      OrderDistinct(i - 1, j);
      KeyParts(app, ORDER[j]);
    }
  }

  lemma OrderDistinct(i: nat, j: nat)
    requires i < j < 10
    ensures ORDER[i] != ORDER[j]
  {
  }

  lemma NoKeys(m: Definitions, app: uint16)
    requires app < 0x100 && OfApp(m, app) == {}
    ensures forall j :: 0 <= j < 10 ==> KeyOf(app, ORDER[j]) !in m
  {
    forall j | 0 <= j < 10
      ensures KeyOf(app, ORDER[j]) !in m
    {
      KeyParts(app, ORDER[j]);
      hide KeyOf, AppOf;
      assert KeyOf(app, ORDER[j]) !in OfApp(m, app);
    }
  }

  lemma {:induction false} FilledSize(m: Definitions, app: uint16, i: nat)
    requires i <= 10 && app < 0x100 && OfApp(m, app) == {}
    ensures |Filled(m, app, i)| == |m| + i && Types(Filled(m, app, i)) == Types(m) + Total(i)
    ensures AppsIn(Filled(m, app, i)) == if i == 0 then AppsIn(m) else AppsIn(m) + {app}
    ensures ListsFit(m) ==> ListsFit(Filled(m, app, i))
  {
    hide KeyOf, OfApp, AppOf, ListAt, AppsIn, Types, ListsFit;
    if i > 0 {
      FilledSize(m, app, i - 1);
      NextService(m, app, i - 1);
      NewList(Filled(m, app, i - 1), KeyOf(app, ORDER[i - 1]), i - 1);
    }
  }

  /** The next service has no entry yet. */
  lemma NextService(m: Definitions, app: uint16, i: nat)
    requires i < 10 && app < 0x100 && OfApp(m, app) == {}
    ensures var k := KeyOf(app, ORDER[i]); AppOf(k) == app && k !in Filled(m, app, i)
    ensures |OfApp(Filled(m, app, i), app)| == i
  {
    hide KeyOf, OfApp, AppOf, Filled;
    FilledKeys(m, app, i);
    KeyParts(app, ORDER[i]);
  }

  lemma NewList(m: Definitions, k: Key, i: nat)
    requires k !in m && i < 10
    ensures var m' := m[k := ListAt(i)];
      && Types(m') == Types(m) + |ListAt(i)| && |m'| == |m| + 1 && AppsIn(m') == AppsIn(m) + {AppOf(k) as uint16}
      && (ListsFit(m) ==> ListsFit(m'))
  {
    hide ListAt, AppsIn, Types, AppOf;
    ListSizes(i);
    NewEntry(m, k, ListAt(i), 0x1_0000);
  }

  lemma {:induction false} FillReached(m: Definitions, controlled: seq<uint16>, app: uint16, i: nat)
    requires i <= 10 && app in controlled && app < 0x100 && OfApp(m, app) == {}
    ensures From(m, controlled, FillRun(app, i)) == Filled(m, app, i)
    ensures AllProper(FillRun(app, i))
  {
    hide KeyOf, OfApp, AddAll, Repeated, Proper, Copies, Known;
    if i > 0 {
      var service, times := ORDER[i - 1], TIMES[i - 1];
      FillReached(m, controlled, app, i - 1);
      NextService(m, app, i - 1);
      ListSizes(i - 1);
      FromAppend(m, controlled, FillRun(app, i - 1), Repeated(AddAll(app, service), times));
      RepeatedEffect(Filled(m, app, i - 1), controlled, app, service, times);
      AddAllProper(app, service);
      RepeatedProper(AddAll(app, service), times);
    }
  }

  /** The run that fills each of the applications. */
  function LongRun(apps: seq<uint16>): Requests
  {
    if apps == [] then [] else LongRun(apps[..|apps| - 1]) + FillRun(apps[|apps| - 1], 10)
  }

  predicate Distinct(apps: seq<uint16>)
  {
    forall i, j :: 0 <= i < j < |apps| ==> apps[i] != apps[j]
  }

  /** All ten lists of each of the applications, and nothing else. */
  predicate Full(m: Definitions, apps: seq<uint16>)
  {
    && |m| == 10 * |apps| && Types(m) == 185 * |apps| && |AppsIn(m)| == |apps| && ListsFit(m)
    && forall a: uint16 :: a !in apps ==> OfApp(m, a) == {}
  }

  lemma FullNext(m: Definitions, apps: seq<uint16>, app: uint16)
    requires Full(m, apps) && app !in apps && app < 0x100
    ensures OfApp(m, app) == {} && Full(Filled(m, app, 10), apps + [app])
  {
    hide OfApp, Filled, AppsIn, Types, Total, ListsFit;
    FilledSize(m, app, 10);
    TotalSize();
    NotIn(m, app);
    forall a: uint16 | a !in apps + [app]
      ensures OfApp(Filled(m, app, 10), a) == {}
    {
      FilledOthers(m, app, 10, a);
    }
  }

  lemma {:induction false} LongRunReached(controlled: seq<uint16>, apps: seq<uint16>)
    requires EightBit(apps) && Distinct(apps) && forall i :: 0 <= i < |apps| ==> apps[i] in controlled
    ensures AllProper(LongRun(apps)) && Full(From(map[], controlled, LongRun(apps)), apps)
    decreases |apps|
  {
    hide Full, Filled, FillRun, Proper;
    if apps == [] {
      NothingYet(0x1_0000);
    } else {
      var n := |apps| - 1;
      LongRunReached(controlled, apps[..n]);
      assert apps == apps[..n] + [apps[n]];
      LongRunNext(controlled, apps[..n], apps[n]);
    }
  }

  lemma LongRunNext(controlled: seq<uint16>, init: seq<uint16>, app: uint16)
    requires app in controlled && app !in init && app < 0x100
    requires AllProper(LongRun(init)) && Full(From(map[], controlled, LongRun(init)), init)
    ensures var run := LongRun(init) + FillRun(app, 10);
      AllProper(run) && Full(From(map[], controlled, run), init + [app])
  {
    hide Full, Filled, FillRun, Proper, From, LongRun;
    var m := From(map[], controlled, LongRun(init));
    FromAppend(map[], controlled, LongRun(init), FillRun(app, 10));
    FullNext(m, init, app);
    FillReached(m, controlled, app, 10);
  }

  lemma NotIn(m: Definitions, app: uint16)
    requires OfApp(m, app) == {}
    ensures |AppsIn(m) + {app}| == |AppsIn(m)| + 1
  {
    hide AppOf;
    forall k | k in m
      ensures AppOf(k) as uint16 != app
    {
      assert k !in OfApp(m, app);
    }
  }

  lemma NothingYet(n: nat)
    requires n == 0x1_0000
    ensures Full(map[], [])
  {
    NoTypes(n);
    assert AppsIn(map[]) == {};
  }

  lemma {:induction false} NoTypes(n: nat)
    requires n <= 0x1_0000
    ensures TypesBelow(map[], n) == 0
  {
    if n > 0 {
      NoTypes(n - 1);
    }
  }

  /** Well-formed requests reach, for any five controlled applications, a configuration within every
      capacity whose report is 1036 bytes long: twelve more than a message has. */
  lemma LongReport(controlled: seq<uint16>)
    requires EightBit(controlled) && Distinct(controlled) && |controlled| == MAX_APPLICATIONS
    ensures AllProper(LongRun(controlled))
    ensures var m := Reached(controlled, LongRun(controlled));
      && Reportable(m) && |AppsIn(m)| == MAX_APPLICATIONS && |m| == MAX_COMBINATIONS && ListsFit(m)
      && ReportSize(m) == 1036 == MAX_MESSAGE_SIZE + 12
  {
    hide LongRun, From, Reached, AppsIn, Types, AllProper;
    LongRunReached(controlled, controlled);
    FromEmpty(controlled, LongRun(controlled));
  }
}
