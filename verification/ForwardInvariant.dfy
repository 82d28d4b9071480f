/** What requests keep of the forwarding configuration, and exactly when adding breaks it. */
module ForwardInvariant {
  import opened Bits
  import opened Errors
  import opened Messages
  import opened Sets
  import opened ForwardConfig

  lemma KeyParts(app: uint16, service: byte)
    ensures ServiceOf(KeyOf(app, service)) == service && AppOf(KeyOf(app, service)) == app % 0x100
  {
  }

  lemma KnownDistinct(service: byte)
    ensures NoDuplicates(Known(service))
  {
  }

  // ----- growth

  lemma GrowsTrans(a: Definitions, b: Definitions, c: Definitions)
    requires Grows(a, b) && Grows(b, c)
    ensures Grows(a, c)
  {
    forall k | k in a
      ensures k in c && a[k] <= c[k]
    {
      assert k in b;
    }
  }

  lemma GrowsOverfull(a: Definitions, b: Definitions)
    requires Grows(a, b) && Overfull(a)
    ensures Overfull(b) && !ValidConfig(b)
  {
    hide Known, NoDuplicates;
    var k :| k in a && |a[k]| > |Known(ServiceOf(k))|;
    assert k in b && a[k] <= b[k];
  }

  lemma {:induction false} AddReportsGrow(d: seq<byte>, app: uint16, service: byte, s: State, n: nat)
    ensures Grows(s.definitions, AddReports(d, app, service, s, n).definitions)
    decreases n
  {
    hide ByteAt, Known, KeyOf;
    if n > 0 {
      var s' := AddReport(d, app, service, s);
      AddReportsGrow(d, app, service, s', n - 1);
      GrowsTrans(s.definitions, s'.definitions, AddReports(d, app, service, s, n).definitions);
    }
  }

  lemma AddServiceGrows(d: seq<byte>, app: uint16, s: State)
    ensures Grows(s.definitions, AddService(d, app, s).definitions)
  {
    hide ByteAt, Known, KeyOf, AddReports;
    var service, q := ByteAt(d, s.position), PastNumber(d, s, 1);
    AddReportsGrow(d, app, service, PastNumber(d, q, 1), ByteAt(d, q.position));
  }

  lemma {:induction false} AddServicesGrow(d: seq<byte>, app: uint16, s: State, n: nat)
    ensures Grows(s.definitions, AddServices(d, app, s, n).definitions)
    decreases n
  {
    hide AddService;
    if n > 0 {
      var s' := AddService(d, app, s);
      AddServiceGrows(d, app, s);
      AddServicesGrow(d, app, s', n - 1);
      GrowsTrans(s.definitions, s'.definitions, AddServices(d, app, s, n).definitions);
    }
  }

  lemma {:induction false} AddAllGrows(m: Definitions, app: uint16, services: seq<byte>)
    ensures Grows(m, AddAllOfServices(m, app, services))
    decreases |services|
  {
    hide Known, KeyOf;
    if services != [] {
      var n := |services| - 1;
      AddAllGrows(m, app, services[..n]);
      GrowsTrans(m, AddAllOfServices(m, app, services[..n]), AddAllOfServices(m, app, services));
    }
  }

  lemma {:induction false} SkipKeeps(d: seq<byte>, s: State, n: nat)
    ensures SkipServices(d, s, n).definitions == s.definitions
    decreases n
  {
    hide ByteAt;
    if n > 0 {
      var q := PastBytes(s, 1);
      SkipKeeps(d, PastBytes(PastNumber(d, q, 1), ByteAt(d, q.position)), n - 1);
    }
  }

  lemma AddAppGrows(d: seq<byte>, controlled: seq<uint16>, s: State)
    ensures Grows(s.definitions, AddApp(d, controlled, s).definitions)
  {
    hide ByteAt, HalfAt, AddServices, AddAllOfServices, OfApp, SkipServices;
    var app, q := HalfAt(d, s.position), PastNumber(d, s, 2);
    var n, r := ByteAt(d, q.position), PastNumber(d, q, 1);
    SkipKeeps(d, Report(r, NotControlledApplication), n);
    SkipKeeps(d, Report(r, AllServiceTypesAlreadyAllowed), n);
    AddServicesGrow(d, app, r, n);
    AddAllGrows(s.definitions, app, SERVICES);
  }

  lemma {:induction false} AddAppsGrow(d: seq<byte>, controlled: seq<uint16>, s: State, n: nat)
    ensures Grows(s.definitions, AddApps(d, controlled, s, n).definitions)
    decreases n
  {
    hide AddApp;
    if n > 0 {
      var s' := AddApp(d, controlled, s);
      AddAppGrows(d, controlled, s);
      AddAppsGrow(d, controlled, s', n - 1);
      GrowsTrans(s.definitions, s'.definitions, AddApps(d, controlled, s, n).definitions);
    }
  }

  // ----- adding single report types

  lemma {:induction false} AddReportsValid(d: seq<byte>, app: uint16, service: byte, s: State, n: nat)
    requires ValidConfig(s.definitions) && Known(service) != []
    ensures ValidConfig(AddReports(d, app, service, s, n).definitions)
    decreases n
  {
    hide ByteAt, Known, KeyOf, AddReport, ValidConfig;
    if n > 0 {
      AddReportValid(d, app, service, s);
      AddReportsValid(d, app, service, AddReport(d, app, service, s), n - 1);
    }
  }

  lemma AddReportValid(d: seq<byte>, app: uint16, service: byte, s: State)
    requires ValidConfig(s.definitions) && Known(service) != []
    ensures ValidConfig(AddReport(d, app, service, s).definitions)
  {
    KeyParts(app, service);
    hide ByteAt, Known, KeyOf, ServiceOf;
    var k, t := KeyOf(app, service), ByteAt(d, s.position);
    var m, m' := s.definitions, AddReport(d, app, service, s).definitions;
    if k !in m {
      var empty: seq<byte> := [];
      var looked: Definitions := m[k := empty];
      assert LookedUp(m, k) == looked && m' == looked[k := empty + [t]];
      assert empty + [t] == [t];
    }
  }

  // ----- adding all report types of a service

  /** Adding all report types of a service keeps the invariant exactly when the service has no
      entry yet: the source does not look for duplicates here. */
  lemma AddAllExact(m: Definitions, app: uint16, service: byte)
    requires ValidConfig(m) && Known(service) != []
    ensures ValidConfig(AddAllOfService(m, app, service)) <==> KeyOf(app, service) !in m
    ensures KeyOf(app, service) in m ==> Overfull(AddAllOfService(m, app, service))
  {
    KeyParts(app, service);
    KnownDistinct(service);
    hide Known, KeyOf, ServiceOf, NoDuplicates;
    var k, m' := KeyOf(app, service), AddAllOfService(m, app, service);
    if k in m {
      assert |m'[k]| > |Known(ServiceOf(k))|;
    } else {
      assert [] + Known(service) == Known(service);
    }
  }

  /** The services of a list have no entries yet. */
  predicate NoEntries(m: Definitions, app: uint16, services: seq<byte>)
  {
    forall i :: 0 <= i < |services| ==> KeyOf(app, services[i]) !in m
  }

  predicate AllKnown(services: seq<byte>)
  {
    forall i :: 0 <= i < |services| ==> Known(services[i]) != []
  }

  lemma {:induction false} AddAllOfServicesExact(m: Definitions, app: uint16, services: seq<byte>)
    requires ValidConfig(m) && AllKnown(services) && NoDuplicates(services)
    ensures ValidConfig(AddAllOfServices(m, app, services)) <==> NoEntries(m, app, services)
    ensures forall k :: k in AddAllOfServices(m, app, services) <==>
      k in m || exists i :: 0 <= i < |services| && k == KeyOf(app, services[i])
    decreases |services|
  {
    hide Known, KeyOf, ValidConfig;
    if services != [] {
      var n := |services| - 1;
      var init, last, m' := services[..n], services[n], AddAllOfServices(m, app, services[..n]);
      AddAllOfServicesExact(m, app, init);
      forall i | 0 <= i < n
        ensures KeyOf(app, init[i]) != KeyOf(app, last)
      {
        KeyParts(app, init[i]);
        KeyParts(app, last);
      }
      if NoEntries(m, app, init) {
        AddAllExact(m', app, last);
      } else {
        BrokenStays(m, app, init, last);
      }
    }
  }

  lemma {:induction false} BrokenStays(m: Definitions, app: uint16, services: seq<byte>, last: byte)
    requires ValidConfig(m) && AllKnown(services) && NoDuplicates(services) && !NoEntries(m, app, services)
    ensures Overfull(AddAllOfServices(m, app, services))
    ensures !ValidConfig(AddAllOfService(AddAllOfServices(m, app, services), app, last))
    decreases |services|
  {
    hide Known, KeyOf, ValidConfig, Overfull;
    var n := |services| - 1;
    var init, m' := services[..n], AddAllOfServices(m, app, services[..n]);
    var all := AddAllOfServices(m, app, services);
    if NoEntries(m, app, init) {
      AddAllOfServicesExact(m, app, init);
      AddAllExact(m', app, services[n]);
    } else {
      BrokenStays(m, app, init, last);
      AddAllGrows(m', app, [services[n]]);
      assert [services[n]][..0] == [];
      assert all == AddAllOfServices(m', app, [services[n]]);
      GrowsOverfull(m', all);
    }
    AddAllGrows(all, app, [last]);
    assert [last][..0] == [];
    assert AddAllOfService(all, app, last) == AddAllOfServices(all, app, [last]);
    GrowsOverfull(all, AddAllOfService(all, app, last));
  }

  // ----- whole add requests

  /** An executed instruction to add all report types of a service finds no entry for it. */
  predicate ServiceFresh(d: seq<byte>, app: uint16, s: State)
  {
    |OfApp(s.definitions, app)| < MAX_SERVICE_TYPES && ByteAt(d, After(d, s.position, 1)) == 0 ==>
      KeyOf(app, ByteAt(d, s.position)) !in s.definitions
  }

  predicate ServicesFresh(d: seq<byte>, app: uint16, s: State, n: nat)
    decreases n
  {
    n == 0 || (ServiceFresh(d, app, s) && ServicesFresh(d, app, AddService(d, app, s), n - 1))
  }

  predicate AppFresh(d: seq<byte>, controlled: seq<uint16>, s: State)
  {
    var app, q := HalfAt(d, s.position), PastNumber(d, s, 2);
    var n, r := ByteAt(d, q.position), PastNumber(d, q, 1);
    app in controlled && |OfApp(s.definitions, app)| < MAX_SERVICE_TYPES ==>
      if n == 0 then NoEntries(s.definitions, app, SERVICES) else ServicesFresh(d, app, r, n)
  }

  /** Every add-all of the request that is executed finds no entry for what it adds. */
  predicate AppsFresh(d: seq<byte>, controlled: seq<uint16>, s: State, n: nat)
    decreases n
  {
    n == 0 || (AppFresh(d, controlled, s) && AppsFresh(d, controlled, AddApp(d, controlled, s), n - 1))
  }

  /** The services named in `n` service blocks at `p` have report types. */
  predicate ServicesKnown(d: seq<byte>, p: nat, n: nat)
    decreases n
  {
    n == 0 || (Known(ByteAt(d, p)) != [] && ServicesKnown(d, ServicesEnd(d, p, 1), n - 1))
  }

  predicate AppsKnown(d: seq<byte>, p: nat, n: nat)
    decreases n
  {
    n == 0 || (ServicesKnown(d, p + 3, ByteAt(d, p + 2)) && AppsKnown(d, AppsEnd(d, p, 1), n - 1))
  }

  lemma AddServiceExact(d: seq<byte>, app: uint16, s: State)
    requires ValidConfig(s.definitions) && Known(ByteAt(d, s.position)) != []
    ensures ValidConfig(AddService(d, app, s).definitions) <==> ServiceFresh(d, app, s)
    ensures !ServiceFresh(d, app, s) ==> Overfull(AddService(d, app, s).definitions)
  {
    hide ByteAt, Known, KeyOf, AddReports, ValidConfig, OfApp, Overfull, AddAllOfService;
    var service, q := ByteAt(d, s.position), PastNumber(d, s, 1);
    AddReportsValid(d, app, service, PastNumber(d, q, 1), ByteAt(d, q.position));
    AddAllExact(s.definitions, app, service);
  }

  lemma {:induction false} AddServicesExact(d: seq<byte>, app: uint16, s: State, n: nat)
    requires ValidConfig(s.definitions)
    requires ServicesEnd(d, s.position, n) <= |d| <= MAX_MESSAGE_SIZE && ServicesKnown(d, s.position, n)
    ensures ValidConfig(AddServices(d, app, s, n).definitions) <==> ServicesFresh(d, app, s, n)
    ensures !ServicesFresh(d, app, s, n) ==> Overfull(AddServices(d, app, s, n).definitions)
    decreases n
  {
    hide ByteAt, Known, AddService, ValidConfig, Overfull, ServiceFresh, Grows;
    if n > 0 {
      ServicesEndStep(d, s.position, n);
      ServicePosition(d, app, s);
      AddServiceExact(d, app, s);
      var s' := AddService(d, app, s);
      if ServiceFresh(d, app, s) {
        AddServicesExact(d, app, s', n - 1);
      } else {
        AddServicesGrow(d, app, s', n - 1);
        GrowsOverfull(s'.definitions, AddServices(d, app, s, n).definitions);
      }
    }
  }

  lemma ServicesEndStep(d: seq<byte>, p: nat, n: nat)
    requires n > 0
    ensures ServicesEnd(d, p, n) == ServicesEnd(d, ServicesEnd(d, p, 1), n - 1) >= ServicesEnd(d, p, 1)
  {
    hide ByteAt;
  }

  lemma ServicesTable()
    ensures AllKnown(SERVICES) && NoDuplicates(SERVICES)
  {
  }

  /** A refused application block leaves the configuration alone. */
  lemma AddAppRefused(d: seq<byte>, controlled: seq<uint16>, s: State)
    requires HalfAt(d, s.position) !in controlled || |OfApp(s.definitions, HalfAt(d, s.position))| >= MAX_SERVICE_TYPES
    ensures AddApp(d, controlled, s).definitions == s.definitions
  {
    hide ByteAt, HalfAt, SkipServices, OfApp;
    var q := PastNumber(d, s, 2);
    var n, r := ByteAt(d, q.position), PastNumber(d, q, 1);
    SkipKeeps(d, Report(r, NotControlledApplication), n);
    SkipKeeps(d, Report(r, AllServiceTypesAlreadyAllowed), n);
  }

  lemma AddAppAccepted(d: seq<byte>, controlled: seq<uint16>, s: State)
    requires HalfAt(d, s.position) in controlled && |OfApp(s.definitions, HalfAt(d, s.position))| < MAX_SERVICE_TYPES
    ensures var app, q := HalfAt(d, s.position), PastNumber(d, s, 2);
      var n, r := ByteAt(d, q.position), PastNumber(d, q, 1);
      && (n == 0 ==> AddApp(d, controlled, s).definitions == AddAllOfServices(s.definitions, app, SERVICES))
      && (n != 0 ==> AddApp(d, controlled, s) == AddServices(d, app, r, n) && r.definitions == s.definitions)
  {
    hide ByteAt, HalfAt, AddServices, AddAllOfServices, OfApp;
  }

  lemma AddAppExact(d: seq<byte>, controlled: seq<uint16>, s: State)
    requires ValidConfig(s.definitions)
    requires AppsEnd(d, s.position, 1) <= |d| <= MAX_MESSAGE_SIZE && AppsKnown(d, s.position, 1)
    ensures ValidConfig(AddApp(d, controlled, s).definitions) <==> AppFresh(d, controlled, s)
    ensures !AppFresh(d, controlled, s) ==> Overfull(AddApp(d, controlled, s).definitions)
  {
    hide ByteAt, HalfAt, AddApp, AddServices, AddAllOfServices, ValidConfig, Overfull, OfApp;
    hide ServicesFresh, NoEntries, ServicesKnown, ServicesEnd, AppsEnd, AppsKnown;
    AppBlock(d, s);
    var app, q := HalfAt(d, s.position), PastNumber(d, s, 2);
    var n, r := ByteAt(d, q.position), PastNumber(d, q, 1);
    if app !in controlled || |OfApp(s.definitions, app)| >= MAX_SERVICE_TYPES {
      AddAppRefused(d, controlled, s);
    } else {
      AddAppAccepted(d, controlled, s);
      AddServicesExact(d, app, r, n);
      AddEverythingExact(s.definitions, app);
    }
  }

  /** Adding all report types of all services keeps the invariant exactly when the application has
      no entry yet. */
  lemma AddEverythingExact(m: Definitions, app: uint16)
    requires ValidConfig(m)
    ensures ValidConfig(AddAllOfServices(m, app, SERVICES)) <==> NoEntries(m, app, SERVICES)
    ensures !NoEntries(m, app, SERVICES) ==> Overfull(AddAllOfServices(m, app, SERVICES))
  {
    ServicesTable();
    Everything(m, app, SERVICES);
  }

  lemma Everything(m: Definitions, app: uint16, services: seq<byte>)
    requires ValidConfig(m) && AllKnown(services) && NoDuplicates(services)
    ensures ValidConfig(AddAllOfServices(m, app, services)) <==> NoEntries(m, app, services)
    ensures !NoEntries(m, app, services) ==> Overfull(AddAllOfServices(m, app, services))
  {
    hide ValidConfig, Overfull, NoEntries, AddAllOfServices, AllKnown, NoDuplicates;
    AddAllOfServicesExact(m, app, services);
    if !NoEntries(m, app, services) {
      BrokenStays(m, app, services, 1);
    }
  }

  /** The application block at the read position fits and names known services. */
  lemma AppBlock(d: seq<byte>, s: State)
    requires AppsEnd(d, s.position, 1) <= |d| && AppsKnown(d, s.position, 1)
    ensures var q := PastNumber(d, s, 2);
      var n, r := ByteAt(d, q.position), PastNumber(d, q, 1);
      && q.position == s.position + 2 && r.position == s.position + 3
      && ServicesEnd(d, r.position, n) <= |d| && ServicesKnown(d, r.position, n)
  {
    hide ByteAt, ServicesEnd, ServicesKnown;
    var n := ByteAt(d, s.position + 2);
    assert AppsEnd(d, s.position, 1) == ServicesEnd(d, s.position + 3, n) >= s.position + 3;
  }

  /** An add request over known services that fits keeps the configuration's invariant if and only
      if each add-all it executes finds no entry for what it adds. */
  lemma {:induction false} AddAppsExact(d: seq<byte>, controlled: seq<uint16>, s: State, n: nat)
    requires ValidConfig(s.definitions)
    requires AppsEnd(d, s.position, n) <= |d| <= MAX_MESSAGE_SIZE && AppsKnown(d, s.position, n)
    ensures ValidConfig(AddApps(d, controlled, s, n).definitions) <==> AppsFresh(d, controlled, s, n)
    decreases n
  {
    hide ByteAt, AddApp, ValidConfig, Overfull, AppFresh, Grows, ServicesKnown, ServicesEnd;
    if n > 0 {
      AppsEndStep(d, s.position, n);
      AppsKnownStep(d, s.position, n);
      AddAppPosition(d, controlled, s);
      AddAppExact(d, controlled, s);
      var s' := AddApp(d, controlled, s);
      if AppFresh(d, controlled, s) {
        AddAppsExact(d, controlled, s', n - 1);
      } else {
        AddAppsGrow(d, controlled, s', n - 1);
        GrowsOverfull(s'.definitions, AddApps(d, controlled, s, n).definitions);
      }
    }
  }

  lemma AppsKnownStep(d: seq<byte>, p: nat, n: nat)
    requires n > 0 && AppsKnown(d, p, n)
    ensures AppsKnown(d, p, 1) && AppsKnown(d, AppsEnd(d, p, 1), n - 1)
  {
    hide ServicesKnown, AppsEnd, ByteAt;
    assert AppsKnown(d, AppsEnd(d, p, 1), 0);
  }

  // ----- the same condition over the initial keys and the request

  function KeysOfApp(keys: set<Key>, app: uint16): set<Key>
  {
    set k | k in keys && AppOf(k) == app
  }

  /** The keys after a service block at `p`: a service named by it has an entry, unless the
      application was full. */
  function KeysAfterService(d: seq<byte>, app: uint16, keys: set<Key>, p: nat): set<Key>
  {
    if |KeysOfApp(keys, app)| >= MAX_SERVICE_TYPES then keys else keys + {KeyOf(app, ByteAt(d, p))}
  }

  function KeysAfterServices(d: seq<byte>, app: uint16, keys: set<Key>, p: nat, n: nat): set<Key>
    decreases n
  {
    if n == 0 then keys
    else KeysAfterServices(d, app, KeysAfterService(d, app, keys, p), ServicesEnd(d, p, 1), n - 1)
  }

  function KeysAfterApp(d: seq<byte>, controlled: seq<uint16>, keys: set<Key>, p: nat): set<Key>
  {
    var app, n := HalfAt(d, p), ByteAt(d, p + 2);
    if app !in controlled || |KeysOfApp(keys, app)| >= MAX_SERVICE_TYPES then keys
    else if n == 0 then keys + KeysFor(app)
    else KeysAfterServices(d, app, keys, p + 3, n)
  }

  /** A block that adds all report types of a service names one without a key. */
  predicate ServiceNew(d: seq<byte>, app: uint16, keys: set<Key>, p: nat)
  {
    |KeysOfApp(keys, app)| < MAX_SERVICE_TYPES && ByteAt(d, p + 1) == 0 ==> KeyOf(app, ByteAt(d, p)) !in keys
  }

  predicate ServicesNew(d: seq<byte>, app: uint16, keys: set<Key>, p: nat, n: nat)
    decreases n
  {
    n == 0 || (ServiceNew(d, app, keys, p) &&
               ServicesNew(d, app, KeysAfterService(d, app, keys, p), ServicesEnd(d, p, 1), n - 1))
  }

  predicate AppNew(d: seq<byte>, controlled: seq<uint16>, keys: set<Key>, p: nat)
  {
    var app, n := HalfAt(d, p), ByteAt(d, p + 2);
    app in controlled && |KeysOfApp(keys, app)| < MAX_SERVICE_TYPES ==>
      if n == 0 then KeysFor(app) !! keys else ServicesNew(d, app, keys, p + 3, n)
  }

  /** No block adds all report types of a service that has a key, from before the request or from an
      earlier block of it. */
  predicate AppsNew(d: seq<byte>, controlled: seq<uint16>, keys: set<Key>, p: nat, n: nat)
    decreases n
  {
    n == 0 || (AppNew(d, controlled, keys, p) &&
               AppsNew(d, controlled, KeysAfterApp(d, controlled, keys, p), AppsEnd(d, p, 1), n - 1))
  }

  lemma {:induction false} AddReportsKeys(d: seq<byte>, app: uint16, service: byte, s: State, n: nat)
    ensures AddReports(d, app, service, s, n).definitions.Keys ==
      s.definitions.Keys + if n > 0 then {KeyOf(app, service)} else {}
    decreases n
  {
    hide ByteAt, Known, KeyOf;
    if n > 0 {
      AddReportsKeys(d, app, service, AddReport(d, app, service, s), n - 1);
    }
  }

  lemma SameKeysOfApp(m: Definitions, app: uint16)
    ensures OfApp(m, app) == KeysOfApp(m.Keys, app)
  {
  }

  lemma AddServiceKeys(d: seq<byte>, app: uint16, s: State)
    requires ServicesEnd(d, s.position, 1) <= |d| && Known(ByteAt(d, s.position)) != []
    ensures AddService(d, app, s).definitions.Keys == KeysAfterService(d, app, s.definitions.Keys, s.position)
    ensures ServiceFresh(d, app, s) <==> ServiceNew(d, app, s.definitions.Keys, s.position)
  {
    hide ByteAt, Known, KeyOf, AddReports, AppOf, OfApp, KeysOfApp;
    var service, q := ByteAt(d, s.position), PastNumber(d, s, 1);
    var r := PastNumber(d, q, 1);
    assert ServicesEnd(d, s.position, 1) == s.position + 2 + ByteAt(d, s.position + 1);
    assert q.position == s.position + 1;
    SameKeysOfApp(s.definitions, app);
    AddReportsKeys(d, app, service, r, ByteAt(d, q.position));
  }

  lemma {:induction false} AddServicesKeys(d: seq<byte>, app: uint16, s: State, n: nat)
    requires ServicesEnd(d, s.position, n) <= |d| <= MAX_MESSAGE_SIZE && ServicesKnown(d, s.position, n)
    ensures AddServices(d, app, s, n).definitions.Keys == KeysAfterServices(d, app, s.definitions.Keys, s.position, n)
    ensures ServicesFresh(d, app, s, n) <==> ServicesNew(d, app, s.definitions.Keys, s.position, n)
    decreases n
  {
    hide ByteAt, Known, AddService, ServiceFresh, ServiceNew, KeysAfterService;
    if n > 0 {
      ServicesEndStep(d, s.position, n);
      ServicePosition(d, app, s);
      AddServiceKeys(d, app, s);
      AddServicesKeys(d, app, AddService(d, app, s), n - 1);
    }
  }

  /** The keys of an application for a list of services. */
  function KeysIn(app: uint16, services: seq<byte>): set<Key>
  {
    set i | 0 <= i < |services| :: KeyOf(app, services[i])
  }

  lemma {:induction false} AddAllKeys(m: Definitions, app: uint16, services: seq<byte>)
    requires AllKnown(services)
    ensures AddAllOfServices(m, app, services).Keys == m.Keys + KeysIn(app, services)
    decreases |services|
  {
    hide KeyOf, Known;
    if services != [] {
      var n := |services| - 1;
      AddAllKeys(m, app, services[..n]);
      KeysInNext(app, services);
    }
  }

  lemma KeysInNext(app: uint16, services: seq<byte>)
    requires services != []
    ensures var n := |services| - 1; KeysIn(app, services) == KeysIn(app, services[..n]) + {KeyOf(app, services[n])}
  {
    hide KeyOf;
    var n := |services| - 1;
    forall k
      ensures k in KeysIn(app, services) <==> k in KeysIn(app, services[..n]) + {KeyOf(app, services[n])}
    {
      if k in KeysIn(app, services[..n]) {
        var i :| 0 <= i < n && k == KeyOf(app, services[..n][i]);
        assert k == KeyOf(app, services[i]);
      }
      if k in KeysIn(app, services) {
        var i :| 0 <= i <= n && k == KeyOf(app, services[i]);
        assert i < n ==> services[..n][i] == services[i];
      }
    }
  }

  lemma NoEntriesDisjoint(m: Definitions, app: uint16, services: seq<byte>)
    ensures NoEntries(m, app, services) <==> KeysIn(app, services) !! m.Keys
  {
    hide KeyOf;
    if !NoEntries(m, app, services) {
      var i :| 0 <= i < |services| && KeyOf(app, services[i]) in m;
      assert KeyOf(app, services[i]) in KeysIn(app, services);
    }
  }

  lemma AddEverythingKeys(m: Definitions, app: uint16)
    ensures AddAllOfServices(m, app, SERVICES).Keys == m.Keys + KeysFor(app)
    ensures NoEntries(m, app, SERVICES) <==> KeysFor(app) !! m.Keys
  {
    ServicesTable();
    assert KeysFor(app) == KeysIn(app, SERVICES);
    hide *;
    AddAllKeys(m, app, SERVICES);
    NoEntriesDisjoint(m, app, SERVICES);
  }

  lemma AddAppKeys(d: seq<byte>, controlled: seq<uint16>, s: State)
    requires AppsEnd(d, s.position, 1) <= |d| <= MAX_MESSAGE_SIZE && AppsKnown(d, s.position, 1)
    ensures AddApp(d, controlled, s).definitions.Keys == KeysAfterApp(d, controlled, s.definitions.Keys, s.position)
    ensures AppFresh(d, controlled, s) <==> AppNew(d, controlled, s.definitions.Keys, s.position)
  {
    hide ByteAt, HalfAt, AddApp, AddServices, AddAllOfServices, ServicesFresh, ServicesNew, NoEntries, ServicesKnown;
    hide ServicesEnd, AppsEnd, AppsKnown, KeysAfterServices, KeysFor, AppOf, OfApp, KeysOfApp;
    AppBlock(d, s);
    var app, q := HalfAt(d, s.position), PastNumber(d, s, 2);
    var n, r := ByteAt(d, q.position), PastNumber(d, q, 1);
    SameKeysOfApp(s.definitions, app);
    if app !in controlled || |OfApp(s.definitions, app)| >= MAX_SERVICE_TYPES {
      AddAppRefused(d, controlled, s);
    } else {
      AddAppAccepted(d, controlled, s);
      AddServicesKeys(d, app, r, n);
      AddEverythingKeys(s.definitions, app);
    }
  }

  lemma {:induction false} FreshIsNew(d: seq<byte>, controlled: seq<uint16>, s: State, n: nat)
    requires AppsEnd(d, s.position, n) <= |d| <= MAX_MESSAGE_SIZE && AppsKnown(d, s.position, n)
    ensures AppsFresh(d, controlled, s, n) <==> AppsNew(d, controlled, s.definitions.Keys, s.position, n)
    decreases n
  {
    hide ByteAt, AddApp, AppFresh, AppNew, KeysAfterApp, ServicesKnown, ServicesEnd;
    if n > 0 {
      AppsEndStep(d, s.position, n);
      AppsKnownStep(d, s.position, n);
      AddAppPosition(d, controlled, s);
      AddAppKeys(d, controlled, s);
      FreshIsNew(d, controlled, AddApp(d, controlled, s), n - 1);
    }
  }

  /** Over the arguments alone: an add request over known services that fits keeps the invariant if
      and only if no block adds all report types of a service that has a key by then. */
  lemma AddAppsExactKeys(d: seq<byte>, controlled: seq<uint16>, s: State, n: nat)
    requires ValidConfig(s.definitions)
    requires AppsEnd(d, s.position, n) <= |d| <= MAX_MESSAGE_SIZE && AppsKnown(d, s.position, n)
    ensures ValidConfig(AddApps(d, controlled, s, n).definitions) <==>
      AppsNew(d, controlled, s.definitions.Keys, s.position, n)
  {
    hide *;
    AddAppsExact(d, controlled, s, n);
    FreshIsNew(d, controlled, s, n);
  }

  /** Requests that list every report type they add keep the invariant. */
  lemma {:induction false} NoAddAllIsFresh(d: seq<byte>, app: uint16, s: State, n: nat)
    requires ServicesEnd(d, s.position, n) <= |d| <= MAX_MESSAGE_SIZE && NoAddAll(d, s.position, n)
    ensures ServicesFresh(d, app, s, n)
    decreases n
  {
    hide ByteAt, AddService, OfApp, KeyOf;
    if n > 0 {
      ServicesEndStep(d, s.position, n);
      ServicePosition(d, app, s);
      assert After(d, s.position, 1) == s.position + 1;
      NoAddAllIsFresh(d, app, AddService(d, app, s), n - 1);
    }
  }

  predicate NoAddAll(d: seq<byte>, p: nat, n: nat)
    decreases n
  {
    n == 0 || (ByteAt(d, p + 1) != 0 && NoAddAll(d, ServicesEnd(d, p, 1), n - 1))
  }

  // ----- whole delete requests

  lemma {:induction false} WithoutMembers(list: seq<byte>, t: byte)
    requires NoDuplicates(list)
    ensures NoDuplicates(Without(list, t))
    ensures forall x :: x in Without(list, t) <==> x in list && x != t
    ensures |Without(list, t)| == |list| - if t in list then 1 else 0
    decreases |list|
  {
    if list != [] {
      var n := |list| - 1;
      WithoutMembers(list[..n], t);
      assert list == list[..n] + [list[n]];
      assert list[n] !in list[..n];
    }
  }

  /** Deleting a report type takes out exactly that type. */
  lemma ErasedExact(list: seq<byte>, t: byte)
    requires NoDuplicates(list)
    ensures Erased(list, t) == Without(list, t)
  {
    WithoutMembers(list, t);
    hide Without;
  }

  lemma DeleteReportValid(d: seq<byte>, app: uint16, service: byte, s: State)
    requires ValidConfig(s.definitions)
    ensures ValidConfig(DeleteReport(d, app, service, s).definitions)
  {
    var t, k := ByteAt(d, s.position), KeyOf(app, service);
    if k in s.definitions {
      WithoutMembers(s.definitions[k], t);
      ErasedExact(s.definitions[k], t);
    }
    hide ByteAt, Known, KeyOf, Without, Erased;
  }

  lemma {:induction false} DeleteReportsValid(d: seq<byte>, app: uint16, service: byte, s: State, n: nat)
    requires ValidConfig(s.definitions)
    ensures ValidConfig(DeleteReports(d, app, service, s, n).definitions)
    decreases n
  {
    hide DeleteReport, ValidConfig;
    if n > 0 {
      DeleteReportValid(d, app, service, s);
      DeleteReportsValid(d, app, service, DeleteReport(d, app, service, s), n - 1);
    }
  }

  lemma ErasedKeysValid(m: Definitions, keys: set<Key>)
    requires ValidConfig(m)
    ensures ValidConfig(m - keys)
  {
    hide ValidList;
  }

  lemma {:induction false} DeleteServicesValid(d: seq<byte>, app: uint16, s: State, n: nat)
    requires ValidConfig(s.definitions)
    ensures ValidConfig(DeleteServices(d, app, s, n).definitions)
    decreases n
  {
    hide ByteAt, KeyOf, DeleteReports, ServiceEnabled, ValidConfig;
    if n > 0 {
      var service, q := ByteAt(d, s.position), PastNumber(d, s, 1);
      DeleteReportsValid(d, app, service, PastNumber(d, q, 1), ByteAt(d, q.position));
      ErasedKeysValid(s.definitions, {KeyOf(app, service)});
      DeleteServicesValid(d, app, DeleteService(d, app, s), n - 1);
    }
  }

  /** Deleting always keeps the configuration's invariant. */
  lemma {:induction false} DeleteAppsValid(d: seq<byte>, s: State, n: nat)
    requires ValidConfig(s.definitions)
    ensures ValidConfig(DeleteApps(d, s, n).definitions)
    decreases n
  {
    hide ByteAt, HalfAt, DeleteServices, SkipServices, AppEnabled, OfApp, ValidConfig;
    if n > 0 {
      var app, q := HalfAt(d, s.position), PastNumber(d, s, 2);
      var m, r := ByteAt(d, q.position), PastNumber(d, q, 1);
      SkipKeeps(d, Report(r, NonExistentApplicationProcess), m);
      DeleteServicesValid(d, app, r, m);
      ErasedKeysValid(s.definitions, OfApp(s.definitions, app));
      DeleteAppsValid(d, DeleteApp(d, s), n - 1);
    }
  }

  // ----- how large the configuration can get

  /** Every entry belongs to a controlled application. */
  predicate OnlyControlled(m: Definitions, controlled: seq<uint16>)
  {
    forall k :: k in m ==> AppOf(k) as uint16 in controlled
  }

  predicate EightBit(controlled: seq<uint16>)
  {
    forall i :: 0 <= i < |controlled| ==> controlled[i] < 0x100
  }

  /** The keys of one application. */
  function KeysFor(app: uint16): set<Key>
  {
    set i | 0 <= i < |SERVICES| :: KeyOf(app, SERVICES[i])
  }

  lemma KnownIsListed(service: byte)
    requires Known(service) != []
    ensures service in SERVICES
  {
  }

  lemma {:induction false} FewKeys(app: uint16, n: nat)
    requires n <= |SERVICES|
    ensures |set i | 0 <= i < n :: KeyOf(app, SERVICES[i])| <= n
  {
    hide KeyOf;
    if n > 0 {
      FewKeys(app, n - 1);
      var before := set i | 0 <= i < n - 1 :: KeyOf(app, SERVICES[i]);
      assert (set i | 0 <= i < n :: KeyOf(app, SERVICES[i])) == before + {KeyOf(app, SERVICES[n - 1])};
    }
  }

  /** A valid configuration of `n` controlled applications has at most ten entries for each. */
  lemma {:induction false} ConfigSize(keys: set<Key>, controlled: seq<uint16>)
    requires EightBit(controlled)
    requires forall k :: k in keys ==> AppOf(k) as uint16 in controlled && Known(ServiceOf(k)) != []
    ensures |keys| <= 10 * |controlled|
    decreases |controlled|
  {
    hide Known;
    if controlled == [] {
      assert keys == {};
    } else {
      var n := |controlled| - 1;
      var app := controlled[n];
      var mine := set k | k in keys && AppOf(k) as uint16 == app;
      assert controlled == controlled[..n] + [app];
      ConfigSize(keys - mine, controlled[..n]);
      OneApplication(mine, app);
      assert keys == (keys - mine) + mine;
    }
  }

  lemma OneApplication(keys: set<Key>, app: uint16)
    requires forall k :: k in keys ==> AppOf(k) as uint16 == app && Known(ServiceOf(k)) != []
    ensures |keys| <= 10
  {
    forall k | k in keys
      ensures k in KeysFor(app)
    {
      KnownIsListed(ServiceOf(k));
      hide Known;
      var i :| 0 <= i < |SERVICES| && SERVICES[i] == ServiceOf(k);
      assert k == KeyOf(app, SERVICES[i]);
    }
    FewKeys(app, |SERVICES|);
    SubsetSize(keys, KeysFor(app));
  }

  /** With at most five controlled applications a valid configuration always fits its map. */
  lemma ControlledSize(m: Definitions, controlled: seq<uint16>)
    requires ValidConfig(m) && OnlyControlled(m, controlled) && EightBit(controlled) && |controlled| <= 5
    ensures |m| <= 50
  {
    hide Known;
    ConfigSize(m.Keys, controlled);
  }

  /** New entries belong to `app`. */
  predicate OnlyNew(m: Definitions, m': Definitions, app: uint16)
  {
    forall k :: k in m' ==> k in m || AppOf(k) as int == app % 0x100
  }

  lemma {:induction false} AddReportsNew(d: seq<byte>, app: uint16, service: byte, s: State, n: nat)
    ensures OnlyNew(s.definitions, AddReports(d, app, service, s, n).definitions, app)
    decreases n
  {
    KeyParts(app, service);
    hide ByteAt, Known, KeyOf, AppOf;
    if n > 0 {
      AddReportsNew(d, app, service, AddReport(d, app, service, s), n - 1);
    }
  }

  lemma {:induction false} AddServicesNew(d: seq<byte>, app: uint16, s: State, n: nat)
    ensures OnlyNew(s.definitions, AddServices(d, app, s, n).definitions, app)
    decreases n
  {
    hide ByteAt, Known, KeyOf, AppOf, AddReports, OfApp;
    if n > 0 {
      var service, q := ByteAt(d, s.position), PastNumber(d, s, 1);
      KeyParts(app, service);
      AddReportsNew(d, app, service, PastNumber(d, q, 1), ByteAt(d, q.position));
      AddServicesNew(d, app, AddService(d, app, s), n - 1);
    }
  }

  lemma {:induction false} AddAllNew(m: Definitions, app: uint16, services: seq<byte>)
    ensures OnlyNew(m, AddAllOfServices(m, app, services), app)
    decreases |services|
  {
    hide Known, KeyOf, AppOf;
    if services != [] {
      var n := |services| - 1;
      KeyParts(app, services[n]);
      AddAllNew(m, app, services[..n]);
    }
  }

  lemma AddAppControlled(d: seq<byte>, controlled: seq<uint16>, s: State)
    requires OnlyControlled(s.definitions, controlled) && EightBit(controlled)
    ensures OnlyControlled(AddApp(d, controlled, s).definitions, controlled)
  {
    hide ByteAt, HalfAt, AddServices, AddAllOfServices, SkipServices, OfApp, AppOf;
    var app, q := HalfAt(d, s.position), PastNumber(d, s, 2);
    var n, r := ByteAt(d, q.position), PastNumber(d, q, 1);
    SkipKeeps(d, Report(r, NotControlledApplication), n);
    SkipKeeps(d, Report(r, AllServiceTypesAlreadyAllowed), n);
    AddServicesNew(d, app, r, n);
    AddAllNew(s.definitions, app, SERVICES);
    assert app in controlled ==> app % 0x100 == app;
  }

  /** Adding never brings in an application that is not controlled. */
  lemma {:induction false} AddAppsControlled(d: seq<byte>, controlled: seq<uint16>, s: State, n: nat)
    requires OnlyControlled(s.definitions, controlled) && EightBit(controlled)
    ensures OnlyControlled(AddApps(d, controlled, s, n).definitions, controlled)
    decreases n
  {
    hide AddApp, AppOf;
    if n > 0 {
      AddAppControlled(d, controlled, s);
      AddAppsControlled(d, controlled, AddApp(d, controlled, s), n - 1);
    }
  }
}
