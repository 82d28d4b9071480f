/** The application process configuration of real-time forwarding, section 6.14 of ECSS-E-ST-70-41C,
    and the nested requests that edit it. */
module ForwardConfig {
  import opened Bits
  import opened Errors
  import opened Messages

  const MAX_SERVICE_TYPES := 10
  const SERVICES: seq<byte> := [1, 3, 4, 5, 6, 11, 13, 17, 19, 20]

  /** An application id of eight bits and a service type. */
  type Key = uint16

  type Definitions = map<Key, seq<byte>>

  /** The report types of each service that has any. */
  function Known(service: byte): seq<byte>
  {
    match service
    case 1 => [2, 8, 6, 10, 4, 1, 7, 5, 3]
    case 3 => [6, 5, 27, 25, 35, 10]
    case 4 => [9, 2]
    case 5 => [4, 8, 1, 2, 3]
    case 6 => [10, 6]
    case 11 => [13]
    case 13 => [1, 2, 3]
    case 17 => [2, 4]
    case 19 => [7]
    case 20 => [2]
    case _ => []
  }

  /** The key of an application and a service; the key keeps eight bits of the application id. */
  function KeyOf(app: uint16, service: byte): Key
  {
    0x100 * (app % 0x100) + service
  }

  function ServiceOf(k: Key): byte
  {
    k % 0x100
  }

  function AppOf(k: Key): byte
  {
    k / 0x100
  }

  function OfApp(m: Definitions, app: uint16): set<Key>
  {
    set k | k in m && AppOf(k) == app
  }

  function ListOf(m: Definitions, k: Key): seq<byte>
  {
    if k in m then m[k] else []
  }

  // ----- the configuration's invariant

  predicate NoDuplicates(list: seq<byte>)
  {
    forall i, j :: 0 <= i < j < |list| ==> list[i] != list[j]
  }

  predicate ValidList(k: Key, list: seq<byte>)
  {
    list != [] && NoDuplicates(list) && |list| <= |Known(ServiceOf(k))|
  }

  /** Every stored list is non-empty, free of duplicates and no longer than its service's own list;
      so every stored service is a known one. */
  predicate ValidConfig(m: Definitions)
  {
    forall k :: k in m ==> ValidList(k, m[k])
  }

  /** Some list is longer than its service's own list. */
  predicate Overfull(m: Definitions)
  {
    exists k :: k in m && |m[k]| > |Known(ServiceOf(k))|
  }

  /** Entries stay and lists only grow at the end. */
  predicate Grows(m: Definitions, m': Definitions)
  {
    forall k :: k in m ==> k in m' && m[k] <= m'[k]
  }

  // ----- reading

  /** The configuration, the read position and what was reported, in the middle of a request. */
  datatype State = State(definitions: Definitions, position: nat, errors: seq<Error>)

  /** The state after reading `n` bytes as a number. */
  function PastNumber(d: seq<byte>, s: State, n: nat): State
  {
    State(s.definitions, After(d, s.position, n), s.errors + ReadErrors(d, s.position, n))
  }

  function PastBytes(s: State, n: nat): State
  {
    s.(position := Skipped(s.position, n))
  }

  function Report(s: State, e: Error): State
  {
    s.(errors := s.errors + [e])
  }

  /** The skip over `n` service blocks of a refused application. */
  function SkipServices(d: seq<byte>, s: State, n: nat): State
    decreases n
  {
    if n == 0 then s
    else
      var q := PastBytes(s, 1);
      SkipServices(d, PastBytes(PastNumber(d, q, 1), ByteAt(d, q.position)), n - 1)
  }

  // ----- adding, TC[14,1]

  function AddAllOfService(m: Definitions, app: uint16, service: byte): Definitions
  {
    if Known(service) == [] then m
    else m[KeyOf(app, service) := ListOf(m, KeyOf(app, service)) + Known(service)]
  }

  function AddAllOfServices(m: Definitions, app: uint16, services: seq<byte>): Definitions
    decreases |services|
  {
    if services == [] then m
    else
      var n := |services| - 1;
      AddAllOfService(AddAllOfServices(m, app, services[..n]), app, services[n])
  }

  /** Looking up the list of an absent key leaves an empty one behind. */
  function LookedUp(m: Definitions, k: Key): Definitions
  {
    if k in m then m else m[k := []]
  }

  /** One report type. */
  function AddReport(d: seq<byte>, app: uint16, service: byte, s: State): State
  {
    var t, k, q := ByteAt(d, s.position), KeyOf(app, service), PastNumber(d, s, 1);
    var m := LookedUp(s.definitions, k);
    if |m[k]| >= |Known(service)| then Report(q.(definitions := m), MaxReportTypesReached)
    else q.(definitions := if t in m[k] then m else m[k := m[k] + [t]])
  }

  function AddReports(d: seq<byte>, app: uint16, service: byte, s: State, n: nat): State
    decreases n
  {
    if n == 0 then s else AddReports(d, app, service, AddReport(d, app, service, s), n - 1)
  }

  /** One service block. */
  function AddService(d: seq<byte>, app: uint16, s: State): State
  {
    var service, q := ByteAt(d, s.position), PastNumber(d, s, 1);
    var n, r := ByteAt(d, q.position), PastNumber(d, q, 1);
    if |OfApp(s.definitions, app)| >= MAX_SERVICE_TYPES then PastBytes(Report(r, MaxServiceTypesReached), n)
    else if n == 0 then r.(definitions := AddAllOfService(s.definitions, app, service))
    else AddReports(d, app, service, r, n)
  }

  function AddServices(d: seq<byte>, app: uint16, s: State, n: nat): State
    decreases n
  {
    if n == 0 then s else AddServices(d, app, AddService(d, app, s), n - 1)
  }

  /** One application block. */
  function AddApp(d: seq<byte>, controlled: seq<uint16>, s: State): State
  {
    var app, q := HalfAt(d, s.position), PastNumber(d, s, 2);
    var n, r := ByteAt(d, q.position), PastNumber(d, q, 1);
    if app !in controlled then SkipServices(d, Report(r, NotControlledApplication), n)
    else if |OfApp(s.definitions, app)| >= MAX_SERVICE_TYPES then
      SkipServices(d, Report(r, AllServiceTypesAlreadyAllowed), n)
    else if n == 0 then r.(definitions := AddAllOfServices(s.definitions, app, SERVICES))
    else AddServices(d, app, r, n)
  }

  function AddApps(d: seq<byte>, controlled: seq<uint16>, s: State, n: nat): State
    decreases n
  {
    if n == 0 then s else AddApps(d, controlled, AddApp(d, controlled, s), n - 1)
  }

  // ----- deleting, TC[14,2]

  function Without(list: seq<byte>, t: byte): seq<byte>
  {
    if list == [] then []
    else Without(list[..|list| - 1], t) + if list[|list| - 1] == t then [] else [list[|list| - 1]]
  }

  /** `remove` moves the other elements to the front and leaves the tail as it was; `erase` then
      takes away the one element behind them. */
  function Erased(list: seq<byte>, t: byte): seq<byte>
  {
    var kept := Without(list, t);
    if |kept| < |list| then kept + list[|kept| + 1..] else kept
  }

  predicate AppEnabled(m: Definitions, app: uint16)
  {
    exists k :: k in m && AppOf(k) == app
  }

  predicate ServiceEnabled(m: Definitions, app: uint16, service: byte)
  {
    exists k :: k in m && AppOf(k) == app && ServiceOf(k) == service
  }

  predicate ReportEnabled(m: Definitions, app: uint16, service: byte, t: byte)
  {
    KeyOf(app, service) in m && t in m[KeyOf(app, service)]
  }

  function DeleteReport(d: seq<byte>, app: uint16, service: byte, s: State): State
  {
    var t, k, q := ByteAt(d, s.position), KeyOf(app, service), PastNumber(d, s, 1);
    if !ReportEnabled(s.definitions, app, service, t) then Report(q, NonExistentReportTypeDefinition)
    else
      var rest := Erased(s.definitions[k], t);
      q.(definitions := if rest == [] then s.definitions - {k} else s.definitions[k := rest])
  }

  function DeleteReports(d: seq<byte>, app: uint16, service: byte, s: State, n: nat): State
    decreases n
  {
    if n == 0 then s else DeleteReports(d, app, service, DeleteReport(d, app, service, s), n - 1)
  }

  function DeleteService(d: seq<byte>, app: uint16, s: State): State
  {
    var service, q := ByteAt(d, s.position), PastNumber(d, s, 1);
    var n, r := ByteAt(d, q.position), PastNumber(d, q, 1);
    if !ServiceEnabled(s.definitions, app, service) then PastBytes(Report(r, NonExistentServiceTypeDefinition), n)
    else if n == 0 then r.(definitions := s.definitions - {KeyOf(app, service)})
    else DeleteReports(d, app, service, r, n)
  }

  function DeleteServices(d: seq<byte>, app: uint16, s: State, n: nat): State
    decreases n
  {
    if n == 0 then s else DeleteServices(d, app, DeleteService(d, app, s), n - 1)
  }

  function DeleteApp(d: seq<byte>, s: State): State
  {
    var app, q := HalfAt(d, s.position), PastNumber(d, s, 2);
    var n, r := ByteAt(d, q.position), PastNumber(d, q, 1);
    if !AppEnabled(s.definitions, app) then SkipServices(d, Report(r, NonExistentApplicationProcess), n)
    else if n == 0 then r.(definitions := s.definitions - OfApp(s.definitions, app))
    else DeleteServices(d, app, r, n)
  }

  function DeleteApps(d: seq<byte>, s: State, n: nat): State
    decreases n
  {
    if n == 0 then s else DeleteApps(d, DeleteApp(d, s), n - 1)
  }

  // ----- framing

  /** Where `n` service blocks at `p` end, by their counts alone. */
  function ServicesEnd(d: seq<byte>, p: nat, n: nat): (e: nat)
    ensures e >= p
    decreases n
  {
    if n == 0 then p else ServicesEnd(d, p + 2 + ByteAt(d, p + 1), n - 1)
  }

  /** Where `n` application blocks at `p` end. */
  function AppsEnd(d: seq<byte>, p: nat, n: nat): (e: nat)
    ensures e >= p
    decreases n
  {
    if n == 0 then p else AppsEnd(d, ServicesEnd(d, p + 3, ByteAt(d, p + 2)), n - 1)
  }

  lemma {:induction false} AddReportsPosition(d: seq<byte>, app: uint16, service: byte, s: State, n: nat)
    requires s.position + n <= |d|
    ensures AddReports(d, app, service, s, n).position == s.position + n
    decreases n
  {
    hide NumberAt, Known;
    if n > 0 {
      AddReportsPosition(d, app, service, AddReport(d, app, service, s), n - 1);
    }
  }

  lemma {:induction false} DeleteReportsPosition(d: seq<byte>, app: uint16, service: byte, s: State, n: nat)
    requires s.position + n <= |d|
    ensures DeleteReports(d, app, service, s, n).position == s.position + n
    decreases n
  {
    hide NumberAt, Erased;
    if n > 0 {
      DeleteReportsPosition(d, app, service, DeleteReport(d, app, service, s), n - 1);
    }
  }

  lemma ServicePosition(d: seq<byte>, app: uint16, s: State)
    requires ServicesEnd(d, s.position, 1) <= |d| <= MAX_MESSAGE_SIZE
    ensures AddService(d, app, s).position == ServicesEnd(d, s.position, 1)
    ensures DeleteService(d, app, s).position == ServicesEnd(d, s.position, 1)
    ensures SkipServices(d, s, 1).position == ServicesEnd(d, s.position, 1)
  {
    hide NumberAt, AddReports, DeleteReports, Known;
    var p := s.position;
    var service, n := ByteAt(d, p), ByteAt(d, p + 1);
    assert ServicesEnd(d, p, 1) == p + 2 + n;
    var r := PastNumber(d, PastNumber(d, s, 1), 1);
    assert r.position == p + 2;
    AddReportsPosition(d, app, service, r, n);
    DeleteReportsPosition(d, app, service, r, n);
  }

  lemma {:induction false} ServicesPosition(d: seq<byte>, app: uint16, s: State, n: nat)
    requires ServicesEnd(d, s.position, n) <= |d| <= MAX_MESSAGE_SIZE
    ensures AddServices(d, app, s, n).position == ServicesEnd(d, s.position, n)
    ensures DeleteServices(d, app, s, n).position == ServicesEnd(d, s.position, n)
    ensures SkipServices(d, s, n).position == ServicesEnd(d, s.position, n)
    decreases n
  {
    hide AddService, DeleteService, ByteAt;
    if n > 0 {
      var q := s.position + 2 + ByteAt(d, s.position + 1);
      assert ServicesEnd(d, s.position, n) == ServicesEnd(d, q, n - 1);
      assert ServicesEnd(d, s.position, 1) == q;
      ServicePosition(d, app, s);
      ServicesPosition(d, app, AddService(d, app, s), n - 1);
      ServicesPosition(d, app, DeleteService(d, app, s), n - 1);
      ServicesPosition(d, app, SkipServices(d, s, 1), n - 1);
    }
  }

  /** The header of an application block: two bytes of id and one of count. */
  lemma AppHeader(d: seq<byte>, s: State)
    requires AppsEnd(d, s.position, 1) <= |d|
    ensures var q := PastNumber(d, s, 2);
      var r := PastNumber(d, q, 1);
      && q.position == s.position + 2 && r.position == s.position + 3
      && AppsEnd(d, s.position, 1) == ServicesEnd(d, s.position + 3, ByteAt(d, s.position + 2))
  {
    hide ByteAt, ServicesEnd;
    var n := ByteAt(d, s.position + 2);
    assert AppsEnd(d, s.position, 1) == ServicesEnd(d, s.position + 3, n) >= s.position + 3;
  }

  lemma AddAppPosition(d: seq<byte>, controlled: seq<uint16>, s: State)
    requires AppsEnd(d, s.position, 1) <= |d| <= MAX_MESSAGE_SIZE
    ensures AddApp(d, controlled, s).position == AppsEnd(d, s.position, 1)
  {
    AppHeader(d, s);
    NoServices(d, s.position + 3);
    hide ByteAt, HalfAt, AppsEnd, ServicesEnd, AddServices, SkipServices, AddAllOfServices, OfApp;
    var app, q := HalfAt(d, s.position), PastNumber(d, s, 2);
    var n, r := ByteAt(d, q.position), PastNumber(d, q, 1);
    ServicesPosition(d, app, r, n);
    ServicesPosition(d, app, Report(r, NotControlledApplication), n);
    ServicesPosition(d, app, Report(r, AllServiceTypesAlreadyAllowed), n);
  }

  lemma DeleteAppPosition(d: seq<byte>, s: State)
    requires AppsEnd(d, s.position, 1) <= |d| <= MAX_MESSAGE_SIZE
    ensures DeleteApp(d, s).position == AppsEnd(d, s.position, 1)
  {
    AppHeader(d, s);
    NoServices(d, s.position + 3);
    hide ByteAt, HalfAt, AppsEnd, ServicesEnd, DeleteServices, SkipServices, AppEnabled, OfApp;
    var app, q := HalfAt(d, s.position), PastNumber(d, s, 2);
    var n, r := ByteAt(d, q.position), PastNumber(d, q, 1);
    ServicesPosition(d, app, r, n);
    ServicesPosition(d, app, Report(r, NonExistentApplicationProcess), n);
  }

  lemma NoServices(d: seq<byte>, p: nat)
    ensures ServicesEnd(d, p, 0) == p
  {
  }

  /** Framing: for a request that fits, the read position after each block follows from the counts
      in the request alone, whatever is accepted or refused on the way. */
  lemma {:induction false} AppsPosition(d: seq<byte>, controlled: seq<uint16>, s: State, n: nat)
    requires AppsEnd(d, s.position, n) <= |d| <= MAX_MESSAGE_SIZE
    ensures AddApps(d, controlled, s, n).position == AppsEnd(d, s.position, n)
    ensures DeleteApps(d, s, n).position == AppsEnd(d, s.position, n)
    decreases n
  {
    hide AddApp, DeleteApp, ByteAt, ServicesEnd;
    if n > 0 {
      AppsEndStep(d, s.position, n);
      AddAppPosition(d, controlled, s);
      DeleteAppPosition(d, s);
      AppsPosition(d, controlled, AddApp(d, controlled, s), n - 1);
      AppsPosition(d, controlled, DeleteApp(d, s), n - 1);
    }
  }

  lemma AppsEndStep(d: seq<byte>, p: nat, n: nat)
    requires n > 0
    ensures AppsEnd(d, p, n) == AppsEnd(d, AppsEnd(d, p, 1), n - 1) >= AppsEnd(d, p, 1)
  {
    hide ServicesEnd;
  }
}
