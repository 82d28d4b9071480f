/** What the nested requests make of the forwarding configuration, in terms of the bytes of the request. */
module ForwardEffects {
  import opened Bits
  import opened Errors
  import opened Messages
  import opened ForwardConfig
  import opened ForwardInvariant

  /** The key of an application and a service. */
  function EntryKey(app: uint16, service: byte): Key
  {
    256 * (app % 256) + service
  }

  // ----- adding listed report types

  /** `list`, and behind it the types it does not have, in order of first occurrence. */
  function Merged(list: seq<byte>, types: seq<byte>): seq<byte>
  {
    if types == [] then list
    else
      var n := |types| - 1;
      var m := Merged(list, types[..n]);
      if types[n] in m then m else m + [types[n]]
  }

  lemma {:induction false} MergedMembers(list: seq<byte>, types: seq<byte>)
    ensures list <= Merged(list, types) && |Merged(list, types)| <= |list| + |types|
    ensures forall t :: t in Merged(list, types) <==> t in list || t in types
    ensures NoDuplicates(list) ==> NoDuplicates(Merged(list, types))
    decreases |types|
  {
    if types != [] {
      var n := |types| - 1;
      MergedMembers(list, types[..n]);
      assert types == types[..n] + [types[n]];
    }
  }

  /** No more than `cap` types, unless there were more before. */
  function Capped(list: seq<byte>, types: seq<byte>, cap: nat): seq<byte>
  {
    var m, most := Merged(list, types), if |list| <= cap then cap else |list|;
    if |m| <= most then m else m[..most]
  }

  /** How many of the types find the list full. */
  function Overflow(list: seq<byte>, types: seq<byte>, cap: nat): nat
  {
    if types == [] then 0
    else
      var n := |types| - 1;
      Overflow(list, types[..n], cap) + if |Merged(list, types[..n])| >= cap then 1 else 0
  }

  function Reports(n: nat, e: Error): seq<Error>
  {
    seq(n, _ => e)
  }

  lemma CappedNext(start: seq<byte>, types: seq<byte>, t: byte, cap: nat)
    ensures var list, all := Capped(start, types, cap), types + [t];
      && Capped(start, all, cap) == (if |list| >= cap || t in list then list else list + [t])
      && Overflow(start, all, cap) == Overflow(start, types, cap) + if |list| >= cap then 1 else 0
  {
    var list, m, all := Capped(start, types, cap), Merged(start, types), types + [t];
    assert all[..|types|] == types && all[|types|] == t;
    MergedMembers(start, types);
    var most := if |start| <= cap then cap else |start|;
    var m' := Merged(start, all);
    assert m' == if t in m then m else m + [t];
    hide Merged, Overflow;
    if |m| < cap {
      assert list == m;
    } else if |m| >= most {
      assert list == m[..most] && m'[..most] == m[..most];
    }
  }

  lemma AddOne(d: seq<byte>, app: uint16, service: byte, s: State)
    requires s.position < |d|
    ensures var k, t := EntryKey(app, service), d[s.position];
      var list := ListOf(s.definitions, k);
      var full := |list| >= |Known(service)|;
      AddReport(d, app, service, s) ==
        State(s.definitions[k := if full || t in list then list else list + [t]], s.position + 1,
              s.errors + if full then [MaxReportTypesReached] else [])
  {
    BigEndianOne(d, s.position);
    hide Known, BigEndian;
    assert KeyOf(app, service) == EntryKey(app, service);
  }

  lemma {:induction false} AddReportsFrom(d: seq<byte>, app: uint16, service: byte, s: State, n: nat,
                                          start: seq<byte>, types: seq<byte>, errors: seq<Error>)
    requires var k, cap := EntryKey(app, service), |Known(service)|;
      && s.position + n <= |d| && ListOf(s.definitions, k) == Capped(start, types, cap)
      && s.errors == errors + Reports(Overflow(start, types, cap), MaxReportTypesReached)
    ensures var p, k, cap := s.position, EntryKey(app, service), |Known(service)|;
      var all := types + d[p..p + n];
      AddReports(d, app, service, s, n) ==
        State(if n == 0 then s.definitions else s.definitions[k := Capped(start, all, cap)], p + n,
              errors + Reports(Overflow(start, all, cap), MaxReportTypesReached))
    decreases n
  {
    hide Known, Capped, Overflow, AddReport, EntryKey, ListOf;
    var p := s.position;
    if n == 0 {
      assert types + d[p..p] == types;
    } else {
      var cap, k, one, next := |Known(service)|, EntryKey(app, service), types + [d[p]], AddReport(d, app, service, s);
      OneMore(d, app, service, s, start, types, errors);
      AddReportsFrom(d, app, service, next, n - 1, start, one, errors);
      hide AddReports;
      var all, rest := types + d[p..p + n], d[p + 1..p + 1 + (n - 1)];
      assert one + rest == all;
      if n == 1 {
        assert all == one;
      }
      assert next.definitions[k := Capped(start, all, cap)] == s.definitions[k := Capped(start, all, cap)];
    }
  }

  lemma OneMore(d: seq<byte>, app: uint16, service: byte, s: State, start: seq<byte>, types: seq<byte>,
                errors: seq<Error>)
    requires var k, cap := EntryKey(app, service), |Known(service)|;
      && s.position < |d| && ListOf(s.definitions, k) == Capped(start, types, cap)
      && s.errors == errors + Reports(Overflow(start, types, cap), MaxReportTypesReached)
    ensures var k, cap, one := EntryKey(app, service), |Known(service)|, types + [d[s.position]];
      && AddReport(d, app, service, s) ==
           State(s.definitions[k := Capped(start, one, cap)], s.position + 1,
                 errors + Reports(Overflow(start, one, cap), MaxReportTypesReached))
      && ListOf(AddReport(d, app, service, s).definitions, k) == Capped(start, one, cap)
  {
    hide Known, Capped, Overflow, AddReport, EntryKey;
    AddOne(d, app, service, s);
    CappedNext(start, types, d[s.position], |Known(service)|);
  }

  /** `n` listed report types of a service: the entry holds its types and the new ones, in order of
      first occurrence, as long as they are no more than the service has; each type that finds the list
      full is reported. Other entries do not change. */
  lemma AddReportsExact(d: seq<byte>, app: uint16, service: byte, s: State, n: nat)
    requires s.position + n <= |d|
    ensures var k, types, cap := EntryKey(app, service), d[s.position..s.position + n], |Known(service)|;
      var list := ListOf(s.definitions, k);
      AddReports(d, app, service, s, n) ==
        State(if n == 0 then s.definitions else s.definitions[k := Capped(list, types, cap)], s.position + n,
              s.errors + Reports(Overflow(list, types, cap), MaxReportTypesReached))
  {
    hide Known, AddReports;
    var list := ListOf(s.definitions, EntryKey(app, service));
    assert Capped(list, [], |Known(service)|) == list;
    assert s.errors + Reports(0, MaxReportTypesReached) == s.errors;
    hide Capped;
    AddReportsFrom(d, app, service, s, n, list, [], s.errors);
    assert [] + d[s.position..s.position + n] == d[s.position..s.position + n];
  }

  /** When all the types have room, exactly the types there before and the listed ones are in the entry. */
  lemma ListedTypes(d: seq<byte>, app: uint16, service: byte, s: State, n: nat, t: byte)
    requires n > 0 && s.position + n <= |d|
    requires |Merged(ListOf(s.definitions, EntryKey(app, service)), d[s.position..s.position + n])| <= |Known(service)|
    ensures var k, m := EntryKey(app, service), AddReports(d, app, service, s, n).definitions;
      k in m && (t in m[k] <==> t in ListOf(s.definitions, k) || t in d[s.position..s.position + n])
  {
    hide Known, AddReports, EntryKey;
    AddReportsExact(d, app, service, s, n);
    MergedMembers(ListOf(s.definitions, EntryKey(app, service)), d[s.position..s.position + n]);
  }

  // ----- adding all report types

  /** The report types of all services, as entries of an application. */
  function AllEntries(app: uint16): Definitions
  {
    var base := 256 * (app % 256);
    map[base + 1 := [2, 8, 6, 10, 4, 1, 7, 5, 3], base + 3 := [6, 5, 27, 25, 35, 10], base + 4 := [9, 2],
        base + 5 := [4, 8, 1, 2, 3], base + 6 := [10, 6], base + 11 := [13], base + 13 := [1, 2, 3],
        base + 17 := [2, 4], base + 19 := [7], base + 20 := [2]]
  }

  /** `m` with the report types of the entries in `more` behind its own. */
  predicate Extended(m: Definitions, m': Definitions, more: Definitions)
  {
    && m'.Keys == m.Keys + more.Keys
    && forall k :: k in m' ==> m'[k] == ListOf(m, k) + ListOf(more, k)
  }

  /** All report types of a service, or of a service that has none. */
  lemma AddAllOfOne(m: Definitions, app: uint16, service: byte)
    ensures Extended(m, AddAllOfService(m, app, service), EntryOf(app, service))
  {
    var k := EntryKey(app, service);
    KnownEntry(app, service);
    hide Known, AllEntries;
    assert KeyOf(app, service) == k;
  }

  lemma KnownEntry(app: uint16, service: byte)
    ensures var k := EntryKey(app, service);
      && (k in AllEntries(app) <==> Known(service) != [])
      && (k in AllEntries(app) ==> AllEntries(app)[k] == Known(service))
  {
  }

  /** The entries of the first `n` services. */
  function EntriesOf(app: uint16, services: seq<byte>): Definitions
  {
    map k | k in AllEntries(app) && k % 256 in services :: AllEntries(app)[k]
  }

  lemma {:induction false} AddAllOfSome(m: Definitions, app: uint16, services: seq<byte>)
    requires NoDuplicates(services)
    ensures Extended(m, AddAllOfServices(m, app, services), EntriesOf(app, services))
    decreases |services|
  {
    hide AllEntries, Known, Extended, EntriesOf, EntryOf;
    if services == [] {
      NothingAdded(m, app);
    } else {
      var n := |services| - 1;
      AddAllOfSome(m, app, services[..n]);
      AddAllOfOne(AddAllOfServices(m, app, services[..n]), app, services[n]);
      OneService(m, AddAllOfServices(m, app, services[..n]), AddAllOfServices(m, app, services), app, services);
    }
  }

  lemma NothingAdded(m: Definitions, app: uint16)
    ensures Extended(m, m, EntriesOf(app, []))
  {
    hide AllEntries;
    assert EntriesOf(app, []) == map[];
    forall k | k in m
      ensures m[k] == ListOf(m, k) + ListOf(map[], k)
    {
    }
  }

  lemma OneService(a: Definitions, b: Definitions, c: Definitions, app: uint16, services: seq<byte>)
    requires services != [] && NoDuplicates(services)
    requires Extended(a, b, EntriesOf(app, services[..|services| - 1]))
    requires Extended(b, c, EntryOf(app, services[|services| - 1]))
    ensures Extended(a, c, EntriesOf(app, services))
  {
    var n := |services| - 1;
    EntriesNext(app, services);
    hide Extended, EntriesOf, EntryOf;
    ExtendedTwice(a, b, c, EntriesOf(app, services[..n]), EntryOf(app, services[n]));
  }

  /** The entry of one service, if it has report types. */
  function EntryOf(app: uint16, service: byte): Definitions
  {
    var k := EntryKey(app, service);
    if k in AllEntries(app) then map[k := AllEntries(app)[k]] else map[]
  }

  lemma EntriesNext(app: uint16, services: seq<byte>)
    requires services != [] && NoDuplicates(services)
    ensures var n := |services| - 1;
      var before, last := EntriesOf(app, services[..n]), EntryOf(app, services[n]);
      EntriesOf(app, services) == before + last && before.Keys !! last.Keys
  {
    KeysHere(app);
    hide AllEntries;
    var n := |services| - 1;
    assert services == services[..n] + [services[n]];
    assert EntryKey(app, services[n]) % 256 == services[n];
  }

  lemma ExtendedTwice(a: Definitions, b: Definitions, c: Definitions, x: Definitions, y: Definitions)
    requires Extended(a, b, x) && Extended(b, c, y) && x.Keys !! y.Keys
    ensures Extended(a, c, x + y)
  {
    forall j | j in c
      ensures c[j] == ListOf(a, j) + ListOf(x + y, j)
    {
      if j in y {
        assert j !in x && ListOf(a, j) + [] == ListOf(a, j) && ListOf(b, j) == ListOf(a, j);
      } else {
        assert ListOf(b, j) + [] == ListOf(b, j);
      }
    }
  }

  lemma KeysHere(app: uint16)
    ensures forall k :: k in AllEntries(app) ==> k == EntryKey(app, k % 256)
  {
    var a := app % 256;
    assert forall k :: k in AllEntries(app) ==> 256 * a <= k < 256 * a + 256;
    hide AllEntries;
    forall k | k in AllEntries(app)
      ensures k == EntryKey(app, k % 256)
    {
      KeyWithin(a, k);
    }
  }

  lemma KeyWithin(a: nat, k: nat)
    requires 256 * a <= k < 256 * a + 256
    ensures k == 256 * a + k % 256
  {
  }

  /** All report types of all services: every entry of the application gets its service's types. */
  lemma AddAllExactly(m: Definitions, app: uint16)
    ensures Extended(m, AddAllOfServices(m, app, SERVICES), AllEntries(app))
  {
    AddAllOfSome(m, app, SERVICES);
    EveryEntry(app);
    hide AllEntries, AddAllOfServices;
  }

  lemma EveryEntry(app: uint16)
    ensures NoDuplicates(SERVICES) && EntriesOf(app, SERVICES) == AllEntries(app)
  {
    KeysHere(app);
    ServicesTable();
  }

  // ----- the blocks of an add request

  /** The entries of an application; ids above eight bits have none. */
  function EntriesFor(m: Definitions, app: uint16): set<Key>
  {
    set k | k in m && k / 256 == app
  }

  /** A service block: its service, its count, and so many report types. */
  lemma AddServiceBlock(d: seq<byte>, app: uint16, s: State)
    requires s.position + 2 <= |d| <= MAX_MESSAGE_SIZE && s.position + 2 + d[s.position + 1] as int <= |d|
    ensures var p, m := s.position, s.definitions;
      var service, n := d[p], d[p + 1];
      var types, k := d[p + 2..p + 2 + n], EntryKey(app, service);
      var list, cap := ListOf(m, k), |Known(service)|;
      var at := p + 2 + n as nat;
      AddService(d, app, s) ==
        if |EntriesFor(m, app)| >= 10 then State(m, at, s.errors + [MaxServiceTypesReached])
        else if n == 0 then State(AddAllOfService(m, app, service), at, s.errors)
        else State(m[k := Capped(list, types, cap)], at,
                   s.errors + Reports(Overflow(list, types, cap), MaxReportTypesReached))
  {
    hide *;
    var p, m := s.position, s.definitions;
    AddServiceParts(d, app, s);
    AddReportsExact(d, app, d[p], State(m, p + 2, s.errors), d[p + 1]);
  }

  lemma AddServiceParts(d: seq<byte>, app: uint16, s: State)
    requires s.position + 2 <= |d| <= MAX_MESSAGE_SIZE && s.position + 2 + d[s.position + 1] as int <= |d|
    ensures var p, m := s.position, s.definitions;
      var n, r := d[p + 1], State(m, p + 2, s.errors);
      AddService(d, app, s) ==
        if |EntriesFor(m, app)| >= 10 then State(m, p + 2 + n as nat, s.errors + [MaxServiceTypesReached])
        else if n == 0 then State(AddAllOfService(m, app, d[p]), p + 2, s.errors)
        else AddReports(d, app, d[p], r, n)
  {
    ServiceHeader(d, s);
    SameEntries(s.definitions, app);
    hide ByteAt, PastNumber, AddAllOfService, AddReports, OfApp, EntriesFor;
  }

  /** The two bytes before the report types. */
  lemma ServiceHeader(d: seq<byte>, s: State)
    requires s.position + 2 <= |d|
    ensures var q := PastNumber(d, s, 1);
      && ByteAt(d, s.position) == d[s.position] && ByteAt(d, q.position) == d[s.position + 1]
      && PastNumber(d, q, 1) == State(s.definitions, s.position + 2, s.errors)
  {
    BigEndianOne(d, s.position);
    BigEndianOne(d, s.position + 1);
    hide BigEndian;
    assert s.errors + [] == s.errors;
  }

  function TwoBytes(d: seq<byte>, p: nat): uint16
    requires p + 2 <= |d|
  {
    256 * (d[p] as int) + d[p + 1]
  }

  /** The three bytes before the service blocks. */
  lemma AppHeaderBytes(d: seq<byte>, s: State)
    requires s.position + 3 <= |d|
    ensures var p, q := s.position, PastNumber(d, s, 2);
      && HalfAt(d, p) == TwoBytes(d, p) && ByteAt(d, q.position) == d[p + 2]
      && PastNumber(d, q, 1) == State(s.definitions, p + 3, s.errors)
  {
    BigEndianTwo(d, s.position);
    BigEndianOne(d, s.position + 2);
    hide BigEndian;
    assert s.errors + [] == s.errors;
  }

  lemma SameEntries(m: Definitions, app: uint16)
    ensures OfApp(m, app) == EntriesFor(m, app)
  {
  }

  /** Blocks are worked off one after the other, in the order of the request. */
  lemma {:induction false} LastServiceAdded(d: seq<byte>, app: uint16, s: State, n: nat)
    requires n > 0
    ensures AddServices(d, app, s, n) == AddService(d, app, AddServices(d, app, s, n - 1))
    ensures AddServices(d, app, s, 0) == s
    decreases n
  {
    hide AddService;
    if n > 1 {
      LastServiceAdded(d, app, AddService(d, app, s), n - 1);
    } else {
      assert AddServices(d, app, AddService(d, app, s), 0) == AddService(d, app, s);
    }
  }

  /** An application block: its id, its count, and so many service blocks. */
  lemma AddAppBlock(d: seq<byte>, controlled: seq<uint16>, s: State)
    requires s.position + 3 <= |d|
    ensures var p, m := s.position, s.definitions;
      var app, n := TwoBytes(d, p), d[p + 2];
      var r := State(m, p + 3, s.errors);
      AddApp(d, controlled, s) ==
        if app !in controlled then SkipServices(d, Report(r, NotControlledApplication), n)
        else if |EntriesFor(m, app)| >= 10 then SkipServices(d, Report(r, AllServiceTypesAlreadyAllowed), n)
        else if n == 0 then r.(definitions := AddAllOfServices(m, app, SERVICES))
        else AddServices(d, app, r, n)
  {
    AppHeaderBytes(d, s);
    SameEntries(s.definitions, HalfAt(d, s.position));
    hide HalfAt, ByteAt, PastNumber, AddAllOfServices, AddServices, SkipServices, OfApp, EntriesFor, TwoBytes;
  }

  lemma {:induction false} LastAppAdded(d: seq<byte>, controlled: seq<uint16>, s: State, n: nat)
    requires n > 0
    ensures AddApps(d, controlled, s, n) == AddApp(d, controlled, AddApps(d, controlled, s, n - 1))
    ensures AddApps(d, controlled, s, 0) == s
    decreases n
  {
    hide AddApp;
    if n > 1 {
      LastAppAdded(d, controlled, AddApp(d, controlled, s), n - 1);
    } else {
      assert AddApps(d, controlled, AddApp(d, controlled, s), 0) == AddApp(d, controlled, s);
    }
  }

  // ----- deleting listed report types

  /** The types of `list` that are not among `types`, in order. */
  function Rest(list: seq<byte>, types: seq<byte>): seq<byte>
  {
    if list == [] then []
    else
      var n := |list| - 1;
      Rest(list[..n], types) + if list[n] in types then [] else [list[n]]
  }

  /** How many of the types are not in the list when their turn comes. */
  function Missing(list: seq<byte>, types: seq<byte>): nat
  {
    if types == [] then 0
    else
      var n := |types| - 1;
      Missing(list, types[..n]) + if types[n] in list && types[n] !in types[..n] then 0 else 1
  }

  lemma {:induction false} RestMembers(list: seq<byte>, types: seq<byte>)
    ensures forall t :: t in Rest(list, types) <==> t in list && t !in types
    ensures NoDuplicates(list) ==> NoDuplicates(Rest(list, types))
    decreases |list|
  {
    if list != [] {
      var n := |list| - 1;
      RestMembers(list[..n], types);
      assert list == list[..n] + [list[n]];
    }
  }

  lemma {:induction false} RestNext(list: seq<byte>, types: seq<byte>, t: byte)
    ensures Without(Rest(list, types), t) == Rest(list, types + [t])
    decreases |list|
  {
    if list != [] {
      var n := |list| - 1;
      RestNext(list[..n], types, t);
      var before := Rest(list[..n], types);
      assert (before + [list[n]])[..|before|] == before && before + [] == before;
      assert Without(before, t) + [] == Without(before, t);
    }
  }

  lemma {:induction false} NothingLeftOut(list: seq<byte>)
    ensures Rest(list, []) == list
    decreases |list|
  {
    if list != [] {
      NothingLeftOut(list[..|list| - 1]);
    }
  }

  /** The entry with what is left of a list: none when nothing is left. */
  function LeftOf(m: Definitions, k: Key, list: seq<byte>): Definitions
  {
    if list == [] then m - {k} else m[k := list]
  }

  lemma {:induction false} WithoutShorter(list: seq<byte>, t: byte)
    ensures |Without(list, t)| < |list| <==> t in list
    ensures |Without(list, t)| <= |list|
    ensures t !in Without(list, t)
    decreases |list|
  {
    if list != [] {
      var n := |list| - 1;
      WithoutShorter(list[..n], t);
      assert list == list[..n] + [list[n]];
    }
  }

  /** Whatever duplicates there are, deleting a type makes a list one shorter: behind the other types the
      end of the list stays as it was. */
  lemma ErasedLength(list: seq<byte>, t: byte)
    requires t in list
    ensures |Erased(list, t)| == |list| - 1
    ensures forall i :: |Without(list, t)| <= i < |list| - 1 ==> Erased(list, t)[i] == list[i + 1]
    ensures forall i :: 0 <= i < |Without(list, t)| ==> Erased(list, t)[i] == Without(list, t)[i] != t
  {
    WithoutShorter(list, t);
    hide Without;
  }

  /** So of a doubled list one copy of the type can stay behind. */
  lemma DuplicateStays()
    ensures Erased([1, 2, 1], 1) == [2, 1]
  {
    var list: seq<byte> := [1, 2, 1];
    assert list[..2] == [1, 2] && list[..2][..1] == [1] && list[..2][..1][..0] == [];
    assert Without(list[..2][..1], 1) == [];
    assert Without(list[..2], 1) == [2];
    assert Without(list, 1) == [2];
  }

  lemma DeleteOne(d: seq<byte>, app: uint16, service: byte, s: State)
    requires s.position < |d| && NoDuplicates(ListOf(s.definitions, EntryKey(app, service)))
    ensures var k, t := EntryKey(app, service), d[s.position];
      var list := ListOf(s.definitions, k);
      DeleteReport(d, app, service, s) ==
        if t in list then State(LeftOf(s.definitions, k, Without(list, t)), s.position + 1, s.errors)
        else State(s.definitions, s.position + 1, s.errors + [NonExistentReportTypeDefinition])
  {
    BigEndianOne(d, s.position);
    ErasedExact(ListOf(s.definitions, EntryKey(app, service)), d[s.position]);
    hide Known, BigEndian, Erased, Without;
    assert KeyOf(app, service) == EntryKey(app, service) && s.errors + [] == s.errors;
  }

  lemma RestStep(list: seq<byte>, types: seq<byte>, t: byte)
    requires NoDuplicates(list)
    ensures var left, all := Rest(list, types), types + [t];
      && Rest(list, all) == (if t in left then Without(left, t) else left)
      && Missing(list, all) == Missing(list, types) + (if t in left then 0 else 1)
      && NoDuplicates(left)
  {
    RestNext(list, types, t);
    RestMembers(list, types);
    WithoutMembers(Rest(list, types), t);
    assert (types + [t])[..|types|] == types;
    if t !in Rest(list, types) {
      NothingTaken(Rest(list, types), t);
    }
    hide Rest, Without;
  }

  lemma {:induction false} NothingTaken(list: seq<byte>, t: byte)
    requires t !in list
    ensures Without(list, t) == list
    decreases |list|
  {
    if list != [] {
      NothingTaken(list[..|list| - 1], t);
    }
  }

  /** The state after some of the types of a request were deleted from `list`. */
  predicate Deleting(m: Definitions, s: State, k: Key, list: seq<byte>, types: seq<byte>, errors: seq<Error>)
  {
    && s.definitions == LeftOf(m, k, Rest(list, types))
    && s.errors == errors + Reports(Missing(list, types), NonExistentReportTypeDefinition)
  }

  lemma DeleteMore(d: seq<byte>, app: uint16, service: byte, m: Definitions, s: State, list: seq<byte>,
                   types: seq<byte>, errors: seq<Error>)
    requires s.position < |d| && NoDuplicates(list)
    requires Deleting(m, s, EntryKey(app, service), list, types, errors)
    ensures var s', k := DeleteReport(d, app, service, s), EntryKey(app, service);
      Deleting(m, s', k, list, types + [d[s.position]], errors) && s'.position == s.position + 1
  {
    var k, t := EntryKey(app, service), d[s.position];
    var left := Rest(list, types);
    RestStep(list, types, t);
    LeftTwice(m, k, left, Without(left, t));
    hide Rest, Missing, Without, DeleteReport, EntryKey, LeftOf, ListOf, NoDuplicates;
    DeleteOne(d, app, service, s);
  }

  lemma LeftTwice(m: Definitions, k: Key, a: seq<byte>, b: seq<byte>)
    ensures ListOf(LeftOf(m, k, a), k) == a
    ensures LeftOf(LeftOf(m, k, a), k, b) == LeftOf(m, k, b)
  {
  }

  lemma {:induction false} DeleteReportsFrom(d: seq<byte>, app: uint16, service: byte, m: Definitions, s: State, n: nat,
                                             list: seq<byte>, types: seq<byte>, errors: seq<Error>)
    requires s.position + n <= |d| && NoDuplicates(list)
    requires Deleting(m, s, EntryKey(app, service), list, types, errors)
    ensures var s', k, all := DeleteReports(d, app, service, s, n), EntryKey(app, service),
                              types + d[s.position..s.position + n];
      Deleting(m, s', k, list, all, errors) && s'.position == s.position + n
    decreases n
  {
    hide Deleting, DeleteReport, EntryKey, NoDuplicates;
    var p := s.position;
    if n == 0 {
      assert types + d[p..p] == types;
    } else {
      DeleteMore(d, app, service, m, s, list, types, errors);
      DeleteReportsFrom(d, app, service, m, DeleteReport(d, app, service, s), n - 1, list, types + [d[p]], errors);
      assert types + [d[p]] + d[p + 1..p + 1 + (n - 1)] == types + d[p..p + n];
    }
  }

  /** `n` listed report types of a service: of the entry's list the others are left, in order, and no
      entry when there are none; each type that is not there when its turn comes is reported. */
  lemma DeleteReportsExact(d: seq<byte>, app: uint16, service: byte, s: State, n: nat)
    requires s.position + n <= |d|
    requires var list := ListOf(s.definitions, EntryKey(app, service));
      NoDuplicates(list) && (EntryKey(app, service) in s.definitions ==> list != [])
    ensures var k, types := EntryKey(app, service), d[s.position..s.position + n];
      var list := ListOf(s.definitions, k);
      DeleteReports(d, app, service, s, n) ==
        State(LeftOf(s.definitions, k, Rest(list, types)), s.position + n,
              s.errors + Reports(Missing(list, types), NonExistentReportTypeDefinition))
  {
    hide DeleteReports, EntryKey;
    var k, m := EntryKey(app, service), s.definitions;
    var list := ListOf(m, k);
    NothingLeftOut(list);
    assert Missing(list, []) == 0 && s.errors + Reports(0, NonExistentReportTypeDefinition) == s.errors;
    assert LeftOf(m, k, list) == m;
    hide Rest, Missing;
    DeleteReportsFrom(d, app, service, m, s, n, list, [], s.errors);
    assert [] + d[s.position..s.position + n] == d[s.position..s.position + n];
  }

  // ----- the blocks of a delete request

  /** A service block: without listed types the entry goes. */
  lemma DeleteServiceBlock(d: seq<byte>, app: uint16, s: State)
    requires s.position + 2 <= |d| <= MAX_MESSAGE_SIZE && s.position + 2 + d[s.position + 1] as int <= |d|
    requires app < 0x100 && ValidConfig(s.definitions)
    ensures var p, m := s.position, s.definitions;
      var n, k := d[p + 1], EntryKey(app, d[p]);
      var types, at := d[p + 2..p + 2 + n], p + 2 + n as nat;
      DeleteService(d, app, s) ==
        if k !in m then State(m, at, s.errors + [NonExistentServiceTypeDefinition])
        else if n == 0 then State(m - {k}, at, s.errors)
        else State(LeftOf(m, k, Rest(m[k], types)), at,
                   s.errors + Reports(Missing(m[k], types), NonExistentReportTypeDefinition))
  {
    hide *;
    var p, m := s.position, s.definitions;
    var n, k, r := d[p + 1], EntryKey(app, d[p]), State(m, p + 2, s.errors);
    DeleteServiceParts(d, app, s);
    EnabledHasEntry(m, app, d[p]);
    ValidEntry(m, k);
    if k in m {
      DeleteReportsExact(d, app, d[p], r, n);
    }
  }

  lemma DeleteServiceParts(d: seq<byte>, app: uint16, s: State)
    requires s.position + 2 <= |d| <= MAX_MESSAGE_SIZE && s.position + 2 + d[s.position + 1] as int <= |d|
    ensures var p, m := s.position, s.definitions;
      var n, r := d[p + 1], State(m, p + 2, s.errors);
      DeleteService(d, app, s) ==
        if !ServiceEnabled(m, app, d[p]) then State(m, p + 2 + n as nat, s.errors + [NonExistentServiceTypeDefinition])
        else if n == 0 then State(m - {EntryKey(app, d[p])}, p + 2, s.errors)
        else DeleteReports(d, app, d[p], r, n)
  {
    ServiceHeader(d, s);
    SameKey(app, d[s.position]);
    hide ByteAt, PastNumber, DeleteReports, EntryKey, KeyOf, ServiceEnabled;
  }

  lemma SameKey(app: uint16, service: byte)
    ensures KeyOf(app, service) == EntryKey(app, service)
  {
  }

  lemma ValidEntry(m: Definitions, k: Key)
    requires ValidConfig(m)
    ensures NoDuplicates(ListOf(m, k)) && (k in m ==> ListOf(m, k) == m[k] != [])
  {
    hide Known;
  }

  lemma EnabledHasEntry(m: Definitions, app: uint16, service: byte)
    requires app < 0x100
    ensures ServiceEnabled(m, app, service) <==> EntryKey(app, service) in m
  {
    var k := EntryKey(app, service);
    KeyParts(app, service);
    SameKey(app, service);
    SmallApp(app);
    hide AppOf, ServiceOf, KeyOf, EntryKey;
    if ServiceEnabled(m, app, service) {
      var j :| j in m && AppOf(j) == app && ServiceOf(j) == service;
      KeyOfParts(j, app, service);
    }
  }

  lemma SmallApp(app: uint16)
    ensures app < 0x100 ==> app % 0x100 == app
  {
  }

  lemma KeyOfParts(k: Key, app: uint16, service: byte)
    requires AppOf(k) as uint16 == app && ServiceOf(k) == service
    ensures k == EntryKey(app, service)
  {
  }

  lemma {:induction false} LastServiceDeleted(d: seq<byte>, app: uint16, s: State, n: nat)
    requires n > 0
    ensures DeleteServices(d, app, s, n) == DeleteService(d, app, DeleteServices(d, app, s, n - 1))
    ensures DeleteServices(d, app, s, 0) == s
    decreases n
  {
    hide DeleteService;
    if n > 1 {
      LastServiceDeleted(d, app, DeleteService(d, app, s), n - 1);
    } else {
      assert DeleteServices(d, app, DeleteService(d, app, s), 0) == DeleteService(d, app, s);
    }
  }

  /** An application block: without service blocks all its entries go. */
  lemma DeleteAppBlock(d: seq<byte>, s: State)
    requires s.position + 3 <= |d|
    ensures var p, m := s.position, s.definitions;
      var app, n := TwoBytes(d, p), d[p + 2];
      var r := State(m, p + 3, s.errors);
      DeleteApp(d, s) ==
        if EntriesFor(m, app) == {} then SkipServices(d, Report(r, NonExistentApplicationProcess), n)
        else if n == 0 then r.(definitions := m - EntriesFor(m, app))
        else DeleteServices(d, app, r, n)
  {
    AppHeaderBytes(d, s);
    SameEntries(s.definitions, HalfAt(d, s.position));
    SomeEntry(s.definitions, HalfAt(d, s.position));
    hide HalfAt, ByteAt, PastNumber, DeleteServices, SkipServices, OfApp, EntriesFor, TwoBytes, AppEnabled;
  }

  lemma SomeEntry(m: Definitions, app: uint16)
    ensures AppEnabled(m, app) <==> EntriesFor(m, app) != {}
  {
    if AppEnabled(m, app) {
      var k :| k in m && AppOf(k) == app;
      assert k in EntriesFor(m, app);
    }
    if k :| k in EntriesFor(m, app) {
      assert AppOf(k) == app;
    }
  }

  lemma {:induction false} LastAppDeleted(d: seq<byte>, s: State, n: nat)
    requires n > 0
    ensures DeleteApps(d, s, n) == DeleteApp(d, DeleteApps(d, s, n - 1))
    ensures DeleteApps(d, s, 0) == s
    decreases n
  {
    hide DeleteApp;
    if n > 1 {
      LastAppDeleted(d, DeleteApp(d, s), n - 1);
    } else {
      assert DeleteApps(d, DeleteApp(d, s), 0) == DeleteApp(d, s);
    }
  }
}
