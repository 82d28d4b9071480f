/** What each request of the storage and retrieval service makes true of the packet stores, in terms of the
    bytes of the request. */
module StoreEffects {
  import opened Bits
  import opened Errors
  import opened Messages
  import opened Windows
  import opened PacketStores

  /** The id in fifteen bytes. */
  function IdBytes(d: seq<byte>, p: nat): Id
    requires p + 15 <= |d|
  {
    d[p..p + 15]
  }

  lemma IdExact(d: seq<byte>, p: nat)
    requires p + 15 <= |d|
    ensures IdAt(d, p) == IdBytes(d, p) && AfterId(d, p) == p + 15 && IdErrors(d, p) == []
  {
  }

  // ----- requests that act on all stores or on listed ones

  predicate Acts(r: Request)
  {
    r.EnableStorage? || r.DisableStorage? || r.DeleteContent? || r.ChangeStartTag? || r.Resume? || r.Suspend? ||
    r.Abort?
  }

  /** What the request makes of a store it acts on; `time` is the time read from it, where it has one. */
  predicate Done(r: Request, time: Ticks, s: PacketStore, s': PacketStore)
  {
    match r
    case EnableStorage => s' == s.(storageStatus := true)
    case DisableStorage => s' == s.(storageStatus := false)
    case Resume => s' == if s.byTimeRangeRetrieval then s else s.(openRetrievalInProgress := true)
    case Suspend => s' == s.(openRetrievalInProgress := false)
    case Abort => s' == s.(byTimeRangeRetrieval := false)
    case ChangeStartTag => s' == if s.openRetrievalInProgress then s else s.(openRetrievalStartTimeTag := time)
    case DeleteContent => OnlyPackets(s, s') && LaterLeft(time, s, s')
    case _ => true
  }

  predicate OnlyPackets(s: PacketStore, s': PacketStore)
  {
    s' == s.(packets := s'.packets)
  }

  /** A retrieved store keeps its packets; of another one, in time order, the later packets are left. */
  predicate LaterLeft(time: Ticks, s: PacketStore, s': PacketStore)
  {
    && (Retrieving(s) ==> s'.packets == s.packets)
    && (!Retrieving(s) && TimeOrdered(s.packets) ==> s'.packets == LaterOnly(s.packets, time))
  }

  lemma {:induction false} LaterAgain(packets: Packets, time: Ticks)
    ensures LaterOnly(LaterOnly(packets, time), time) == LaterOnly(packets, time)
    ensures forall x :: x in LaterOnly(packets, time) ==> x in packets
    decreases |packets|
  {
    if packets != [] {
      LaterAgain(packets[1..], time);
      if Later(time, packets[0]) {
        assert LaterOnly(packets, time)[1..] == LaterOnly(packets[1..], time);
      } else {
        assert [] + LaterOnly(packets[1..], time) == LaterOnly(packets[1..], time);
      }
    }
  }

  lemma {:induction false} LaterOrdered(packets: Packets, time: Ticks)
    requires TimeOrdered(packets)
    ensures TimeOrdered(LaterOnly(packets, time))
    decreases |packets|
  {
    DeleteKeepsLater(packets, time);
    var k := KeptIsSuffix(packets, time);
  }

  /** Doing it twice is doing it once. */
  lemma DoneAgain(r: Request, time: Ticks, a: PacketStore, b: PacketStore, c: PacketStore)
    requires Done(r, time, a, b) && Done(r, time, b, c)
    ensures Done(r, time, a, c)
  {
    if r.DeleteContent? && !Retrieving(a) && TimeOrdered(a.packets) {
      LaterOrdered(a.packets, time);
      LaterAgain(a.packets, time);
      hide TimeOrdered, LaterOnly;
    }
  }

  /** One store, acted on. */
  lemma ActedDone(r: Request, d: seq<byte>, p: nat, s: PacketStore)
    requires Acts(r)
    ensures Done(r, WordAt(d, p), s, Acted(ActionOf(r, d, p).0, s))
  {
    hide WordAt;
    if r.DeleteContent? && TimeOrdered(s.packets) {
      DeleteKeepsLater(s.packets, WordAt(d, p));
    }
    hide TimeOrdered, KeptAfter, LaterOnly;
  }

  /** One of the `n` ids at `p` is `id`. */
  predicate Listed(d: seq<byte>, p: nat, n: nat, id: Id)
    requires p + 15 * n <= |d|
  {
    exists k :: 0 <= k < n && IdBytes(d, p + 15 * k) == id
  }

  /** The listed stores are acted on, the others are as before. */
  predicate DoneToListed(r: Request, time: Ticks, stores: Stores, stores': Stores, d: seq<byte>, p: nat, n: nat)
    requires p + 15 * n <= |d|
  {
    && stores'.Keys == stores.Keys
    && forall id :: id in stores ==>
         if Listed(d, p, n, id) then Done(r, time, stores[id], stores'[id]) else stores'[id] == stores[id]
  }

  lemma ListedFirst(d: seq<byte>, p: nat, n: nat, id: Id)
    requires n > 0 && p + 15 * n <= |d|
    ensures Listed(d, p, n, id) <==> IdBytes(d, p) == id || Listed(d, p + 15, n - 1, id)
  {
    hide IdBytes;
    if Listed(d, p, n, id) {
      var k :| 0 <= k < n && IdBytes(d, p + 15 * k) == id;
      assert k > 0 ==> p + 15 * k == (p + 15) + 15 * (k - 1);
    }
    if Listed(d, p + 15, n - 1, id) {
      var k :| 0 <= k < n - 1 && IdBytes(d, (p + 15) + 15 * k) == id;
      assert (p + 15) + 15 * k == p + 15 * (k + 1);
    }
    if IdBytes(d, p) == id {
      assert IdBytes(d, p + 15 * 0) == id;
    }
  }

  lemma {:induction false} ListedDone(r: Request, d: seq<byte>, w: nat, s: State, n: nat)
    requires Acts(r) && s.position + 15 * n <= |d|
    ensures var a := ActionOf(r, d, w).0;
      DoneToListed(r, WordAt(d, w), s.stores, Instructions(Act(a), d, s, n).stores, d, s.position, n)
    decreases n
  {
    hide IdBytes, Done, WordAt, Acted, Refusal, ActionOf, IdAt, IdErrors, AfterId, Listed;
    if n == 0 {
      NoneListed(d, s.position);
    } else {
      var a, id := ActionOf(r, d, w).0, IdBytes(d, s.position);
      IdExact(d, s.position);
      var next := Acting(a, d, s);
      ListedDone(r, d, w, next, n - 1);
      if id in s.stores {
        ActedDone(r, d, w, s.stores[id]);
      }
      var last := Instructions(Act(a), d, next, n - 1);
      FirstThenRest(r, WordAt(d, w), s.stores, next.stores, last.stores, d, s.position, n);
    }
  }

  lemma NoneListed(d: seq<byte>, p: nat)
    requires p <= |d|
    ensures forall id :: !Listed(d, p, 0, id)
  {
  }

  lemma FirstThenRest(r: Request, time: Ticks, a: Stores, b: Stores, c: Stores, d: seq<byte>, p: nat, n: nat)
    requires n > 0 && p + 15 * n <= |d| && b.Keys == a.Keys
    requires forall id :: id in a ==>
      if id == IdBytes(d, p) then Done(r, time, a[id], b[id]) else b[id] == a[id]
    requires DoneToListed(r, time, b, c, d, p + 15, n - 1)
    ensures DoneToListed(r, time, a, c, d, p, n)
  {
    hide IdBytes, Done, Listed;
    forall id | id in a
      ensures if Listed(d, p, n, id) then Done(r, time, a[id], c[id]) else c[id] == a[id]
    {
      ListedFirst(d, p, n, id);
      if id == IdBytes(d, p) && Listed(d, p + 15, n - 1, id) {
        DoneAgain(r, time, a[id], b[id], c[id]);
      }
    }
  }

  /** Where the count of the request is: behind its time, where it has one. */
  function CountAt(r: Request, p: nat): nat
  {
    if r.DeleteContent? || r.ChangeStartTag? then p + 4 else p
  }

  /** The request acts on the store: on every one for a count of zero, on the listed ones otherwise. */
  predicate ActsOn(d: seq<byte>, q: nat, id: Id)
  {
    var n := HalfAt(d, q);
    n == 0 || (q + 2 + 15 * n as nat <= |d| && Listed(d, q + 2, n, id))
  }

  /** The requests TC[15,1], [15,2], [15,11], [15,14], [15,15], [15,16] and [15,17]: each store acted on
      is as the request says, and nothing else changes. */
  lemma RequestDone(r: Request, stores: Stores, d: seq<byte>, p: nat)
    requires Acts(r) && CountAt(r, p) + 2 <= |d|
    requires CountAt(r, p) + 2 + 15 * HalfAt(d, CountAt(r, p)) as nat <= |d|
    ensures var stores' := Handled(r, stores, d, p);
      && stores'.Keys == stores.Keys
      && forall id :: id in stores ==>
           if ActsOn(d, CountAt(r, p), id) then Done(r, WordAt(d, p), stores[id], stores'[id])
           else stores'[id] == stores[id]
  {
    var q := CountAt(r, p);
    var n, a := HalfAt(d, q), ActionOf(r, d, p).0;
    assert ActionOf(r, d, p).1 == q;
    hide ActionOf, IdBytes, Done, WordAt, HalfAt, Listed, Acted;
    if n == 0 {
      forall id | id in stores
        ensures Done(r, WordAt(d, p), stores[id], ActedAll(a, stores)[id])
      {
        ActedDone(r, d, p, stores[id]);
      }
    } else {
      ListedDone(r, d, p, State(stores, q + 2, []), n);
    }
  }

  // ----- what is reported

  /** Why the request refuses to act on the store. */
  function Complaint(r: Request, s: PacketStore): seq<Error>
  {
    if r.DeleteContent? && s.byTimeRangeRetrieval then [SetPacketStoreWithByTimeRangeRetrieval]
    else if (r.DeleteContent? || r.ChangeStartTag?) && s.openRetrievalInProgress then
      [SetPacketStoreWithOpenRetrievalInProgress]
    else if r.Resume? && s.byTimeRangeRetrieval then [SetPacketStoreWithByTimeRangeRetrieval]
    else []
  }

  /** One listed id: the position moves past it, and a missing store or a refusal is reported. */
  lemma ListedReport(r: Request, d: seq<byte>, w: nat, s: State)
    requires Acts(r) && s.position + 15 <= |d|
    ensures var id, next := IdBytes(d, s.position), Instructions(Act(ActionOf(r, d, w).0), d, s, 1);
      && next.position == s.position + 15
      && next.errors == s.errors + if id in s.stores then Complaint(r, s.stores[id]) else [NonExistingPacketStore]
  {
    hide IdBytes, WordAt, IdAt, IdErrors, AfterId, Acted;
    IdExact(d, s.position);
    assert s.errors + [] == s.errors;
    OneInstruction(Act(ActionOf(r, d, w).0), d, s);
    hide Instructions;
  }

  lemma AllReport(r: Request, d: seq<byte>, w: nat, s: PacketStore)
    requires Acts(r)
    ensures Refusal(ActionOf(r, d, w).0, s) == Complaint(r, s)
  {
    hide WordAt;
  }

  lemma OneInstruction(i: Instruction, d: seq<byte>, s: State)
    ensures Instructions(i, d, s, 1) == Instructed(i, d, s) && Instructions(i, d, s, 0) == s
  {
    hide Instructed;
  }

  /** Several instructions are one after the other, in the order of the request. */
  lemma {:induction false} LastInstruction(i: Instruction, d: seq<byte>, s: State, n: nat)
    requires n > 0
    ensures Instructions(i, d, s, n) == Instructions(i, d, Instructions(i, d, s, n - 1), 1)
    decreases n
  {
    hide Instructed;
    if n > 1 {
      LastInstruction(i, d, Instructed(i, d, s), n - 1);
    }
  }

  // ----- the other instructions

  /** An instruction of TC[15,9]: id, start and end. */
  lemma StartOne(d: seq<byte>, s: State)
    requires s.position + 23 <= |d| <= MAX_MESSAGE_SIZE
    ensures var id, start, end := IdBytes(d, s.position), WordAt(d, s.position + 15), WordAt(d, s.position + 19);
      var at := s.position + 23;
      Instructions(StartRange, d, s, 1) ==
        if id !in s.stores then State(s.stores, at, s.errors + [NonExistingPacketStore])
        else if s.stores[id].openRetrievalInProgress then
          State(s.stores, at, s.errors + [GetPacketStoreWithOpenRetrievalInProgress])
        else if s.stores[id].byTimeRangeRetrieval then
          State(s.stores, at, s.errors + [ByTimeRangeRetrievalAlreadyEnabled])
        else if start >= end then State(s.stores, at, s.errors + [InvalidTimeWindow])
        else
          State(s.stores[id := s.stores[id].(byTimeRangeRetrieval := true, retrievalStartTime := start,
                                             retrievalEndTime := end)], at, s.errors)
  {
    IdExact(d, s.position);
    OneInstruction(StartRange, d, s);
    TwoTimes(d, s);
    hide IdBytes, WordAt, IdAt, IdErrors, AfterId, Instructions, After, ReadErrors, Skipped;
    assert s.errors + [] == s.errors;
  }

  /** The two times behind an id that was read. */
  lemma TwoTimes(d: seq<byte>, s: State)
    requires s.position + 23 <= |d| <= MAX_MESSAGE_SIZE
    ensures var p := s.position + 15;
      && After(d, p, 4) == p + 4 && After(d, p + 4, 4) == p + 8 && Skipped(p, 8) == p + 8
      && ReadErrors(d, p, 4) == [] && ReadErrors(d, p + 4, 4) == []
  {
  }

  /** An instruction of TC[15,21]. */
  lemma DeleteOne(d: seq<byte>, s: State)
    requires s.position + 15 <= |d|
    ensures var id, at := IdBytes(d, s.position), s.position + 15;
      Instructions(DeleteStore, d, s, 1) ==
        if id !in s.stores then State(s.stores, at, s.errors + [NonExistingPacketStore])
        else if s.stores[id].storageStatus then
          State(s.stores, at, s.errors + [DeletionOfPacketStoreWithStorageStatusEnabled])
        else if s.stores[id].byTimeRangeRetrieval then
          State(s.stores, at, s.errors + [DeletionOfPacketWithByTimeRangeRetrieval])
        else if s.stores[id].openRetrievalInProgress then
          State(s.stores, at, s.errors + [DeletionOfPacketWithOpenRetrievalInProgress])
        else State(s.stores - {id}, at, s.errors)
  {
    hide IdBytes, IdAt, IdErrors, AfterId;
    IdExact(d, s.position);
    assert s.errors + [] == s.errors;
    OneInstruction(DeleteStore, d, s);
    hide Instructions;
  }

  /** An instruction of TC[15,25]: id and size in bytes. */
  lemma ResizeOne(d: seq<byte>, s: State)
    requires s.position + 17 <= |d|
    ensures var id, size, at := IdBytes(d, s.position), HalfAt(d, s.position + 15), s.position + 17;
      Instructions(Resize, d, s, 1) ==
        if id !in s.stores then State(s.stores, at, s.errors + [NonExistingPacketStore])
        else if size >= 1000 then State(s.stores, at, s.errors + [UnableToHandlePacketStoreSize])
        else if s.stores[id].storageStatus then
          State(s.stores, at, s.errors + [GetPacketStoreWithStorageStatusEnabled])
        else if s.stores[id].openRetrievalInProgress then
          State(s.stores, at, s.errors + [GetPacketStoreWithOpenRetrievalInProgress])
        else if s.stores[id].byTimeRangeRetrieval then
          State(s.stores, at, s.errors + [GetPacketStoreWithByTimeRangeRetrieval])
        else State(s.stores[id := s.stores[id].(sizeInBytes := size)], at, s.errors)
  {
    hide IdBytes, HalfAt, IdAt, IdErrors, AfterId;
    IdExact(d, s.position);
    assert s.errors + [] == s.errors;
    OneInstruction(Resize, d, s);
    hide Instructions;
  }

  /** An instruction of TC[15,20]: id, size, type and virtual channel. */
  lemma CreateOne(d: seq<byte>, s: State)
    requires s.position + 19 <= |d| <= MAX_MESSAGE_SIZE
    ensures var id, at := IdBytes(d, s.position), s.position + 19;
      var size, kind, channel := HalfAt(d, at - 4), ByteAt(d, at - 2), ByteAt(d, at - 1);
      Creations(d, s, 1) ==
        if |s.stores| >= 4 then s.(errors := s.errors + [MaxNumberOfPacketStoresReached])
        else if id in s.stores then State(s.stores, at, s.errors + [AlreadyExistingPacketStore])
        else if channel == 0 || channel > 10 then State(s.stores, at, s.errors + [InvalidVirtualChannel])
        else
          State(s.stores[id := PacketStore(channel, 0, 0, 0, size, false, false,
                                           if kind == 0 then Circular else Bounded, false, [])], at, s.errors)
  {
    hide IdBytes, HalfAt, ByteAt, IdAt, IdErrors, AfterId;
    IdExact(d, s.position);
    assert s.errors + [] == s.errors;
  }

  /** A request creates one store after the other; the first instruction that finds four stores ends it. */
  lemma CreateFirst(d: seq<byte>, s: State, n: nat)
    requires n > 0
    ensures Creations(d, s, n) ==
      if |s.stores| >= 4 then s.(errors := s.errors + [MaxNumberOfPacketStoresReached])
      else Creations(d, Creations(d, s, 1), n - 1)
    ensures Creations(d, s, 0) == s
  {
    hide Creating;
  }

  /** The requests with a list of these instructions. */
  lemma ListRequests(stores: Stores, d: seq<byte>, p: nat)
    requires p + 2 <= |d|
    ensures var start, n := State(stores, p + 2, []), HalfAt(d, p);
      && Handled(StartByTimeRange, stores, d, p) == Instructions(StartRange, d, start, n).stores
      && Handled(ResizeStores, stores, d, p) == Instructions(Resize, d, start, n).stores
      && Handled(Create, stores, d, p) == Creations(d, start, n).stores
      && (n > 0 ==> Handled(Delete, stores, d, p) == Instructions(DeleteStore, d, start, n).stores)
  {
    hide Instructions, Creations, HalfAt;
  }

  /** TC[15,21] without a list: exactly the stores that are neither storing nor retrieved go. */
  lemma DeleteEvery(stores: Stores, d: seq<byte>, p: nat, id: Id)
    requires p + 2 <= |d| && HalfAt(d, p) == 0
    ensures var stores' := Handled(Delete, stores, d, p);
      && (id in stores' <==> id in stores && (stores[id].storageStatus || stores[id].byTimeRangeRetrieval ||
                                              stores[id].openRetrievalInProgress))
      && (id in stores' ==> stores'[id] == stores[id])
  {
    hide HalfAt;
  }

  /** Telemetry goes to the end of its store's packets as long as there are fewer than ten. */
  lemma RecordOne(stores: Stores, id: Id, item: Stored)
    ensures Recorded(stores, id, item) ==
      if id in stores && |stores[id].packets| < 10 then
        stores[id := stores[id].(packets := stores[id].packets + [item])]
      else stores
  {
  }

  // ----- requests on a single store

  predicate Retypable(stores: Stores, id: Id)
  {
    id in stores && !Busy(stores[id])
  }

  predicate Rechannelable(stores: Stores, id: Id, channel: byte)
  {
    id in stores && 1 <= channel <= 10 && !stores[id].byTimeRangeRetrieval && !stores[id].openRetrievalInProgress
  }

  /** TC[15,26], [15,27] and [15,28]. */
  lemma SingleRequests(stores: Stores, d: seq<byte>, p: nat)
    requires p + 16 <= |d|
    ensures var id, channel := IdBytes(d, p), ByteAt(d, p + 15);
      && Handled(ToCircular, stores, d, p) ==
           (if Retypable(stores, id) then stores[id := stores[id].(storeType := Circular)] else stores)
      && Handled(ToBounded, stores, d, p) ==
           (if Retypable(stores, id) then stores[id := stores[id].(storeType := Bounded)] else stores)
      && Handled(ChangeChannel, stores, d, p) ==
           (if Rechannelable(stores, id, channel) then stores[id := stores[id].(virtualChannel := channel)]
            else stores)
  {
    hide IdBytes, ByteAt, IdAt, AfterId;
    IdExact(d, p);
  }

  /** What those requests report besides unreadable bytes. */
  lemma SingleReports(stores: Stores, id: Id, channel: byte)
    ensures RetypeRefusal(stores, id) ==
      if id !in stores then [NonExistingPacketStore]
      else if stores[id].storageStatus then [GetPacketStoreWithStorageStatusEnabled]
      else if stores[id].byTimeRangeRetrieval then [GetPacketStoreWithByTimeRangeRetrieval]
      else if stores[id].openRetrievalInProgress then [GetPacketStoreWithOpenRetrievalInProgress]
      else []
    ensures ChannelRefusal(stores, id, channel) ==
      if id !in stores then [NonExistingPacketStore]
      else if channel == 0 || channel > 10 then [InvalidVirtualChannel]
      else if stores[id].byTimeRangeRetrieval then [GetPacketStoreWithByTimeRangeRetrieval]
      else if stores[id].openRetrievalInProgress then [GetPacketStoreWithOpenRetrievalInProgress]
      else []
  {
  }

  // ----- copying

  predicate InWindow(kind: byte, d: seq<byte>, p: nat, t: Ticks)
  {
    match kind
    case 0 => WordAt(d, p) <= t <= WordAt(d, p + 4)
    case 1 => WordAt(d, p) <= t
    case _ => t <= WordAt(d, p)
  }

  /** Behind the times of a copy request the two ids begin. */
  function IdsAt(kind: byte, p: nat): nat
  {
    if kind == 0 then p + 9 else p + 5
  }

  predicate Contains(packets: Packets, kind: byte, d: seq<byte>, p: nat)
  {
    exists k :: 0 <= k < |packets| && InWindow(kind, d, p, packets[k].time)
  }

  /** The packets with times in the window. */
  function WindowOf(packets: Packets, kind: byte, d: seq<byte>, p: nat): Packets
  {
    if packets == [] then []
    else (if InWindow(kind, d, p, packets[0].time) then [packets[0]] else []) + WindowOf(packets[1..], kind, d, p)
  }

  lemma WindowRead(d: seq<byte>, p: nat, kind: byte, t: Ticks)
    requires kind < 3 && p + 8 <= |d|
    ensures Inside(WindowAt(d, p, kind).0, t) <==> InWindow(kind, d, p, t)
    ensures WindowAt(d, p, kind).1 == p + if kind == 0 then 8 else 4
  {
    hide WordAt;
  }

  lemma {:induction false} FilteredIsWindow(packets: Packets, d: seq<byte>, p: nat, kind: byte)
    requires kind < 3 && p + 8 <= |d|
    ensures Filtered(packets, WindowAt(d, p, kind).0) == WindowOf(packets, kind, d, p)
    decreases |packets|
  {
    hide InWindow, WindowAt, Inside;
    if packets != [] {
      WindowRead(d, p, kind, packets[0].time);
      FilteredIsWindow(packets[1..], d, p, kind);
    }
  }

  /** The copy of this kind may be made, as far as the stores and the window tell. */
  predicate Copyable(stores: Stores, source: Id, target: Id, kind: byte, d: seq<byte>, p: nat)
  {
    && source in stores && target in stores && stores[target].packets == []
    && (kind == 0 ==> WordAt(d, p) < WordAt(d, p + 4))
  }

  /** TC[15,24]: the empty target holds exactly the packets of the source whose times are in the window,
      in order; nothing else changes. */
  lemma CopyRequest(stores: Stores, d: seq<byte>, p: nat)
    requires p + 39 <= |d|
    ensures ByteAt(d, p) >= 3 ==> Handled(CopyWindow, stores, d, p) == stores
    ensures ByteAt(d, p) < 3 ==>
      var kind, q := ByteAt(d, p), IdsAt(ByteAt(d, p), p);
      var source, target := IdBytes(d, q), IdBytes(d, q + 15);
      source in stores && TimeOrdered(stores[source].packets) ==>
        Handled(CopyWindow, stores, d, p) ==
          if Copyable(stores, source, target, kind, d, p + 1) then
            stores[target := stores[target].(packets := WindowOf(stores[source].packets, kind, d, p + 1))]
          else stores
  {
    hide IdBytes, WordAt, ByteAt, IdAt, AfterId, Copied, WindowOf, TimeOrdered, NoTimestamp, WindowAt;
    var kind := ByteAt(d, p);
    if kind < 3 {
      var q := IdsAt(kind, p);
      var source, target := IdBytes(d, q), IdBytes(d, q + 15);
      IdExact(d, q);
      IdExact(d, q + 15);
      WindowRead(d, p + 1, kind, 0);
      WindowEnds(d, p + 1, kind);
      if source in stores && TimeOrdered(stores[source].packets) {
        CopyMade(stores, source, target, kind, d, p + 1);
      }
    }
  }

  lemma WindowEnds(d: seq<byte>, p: nat, kind: byte)
    requires kind < 3 && p + 8 <= |d|
    ensures var w := WindowAt(d, p, kind).0;
      (w.FromTo? <==> kind == 0) && (w.FromTo? ==> w.start == WordAt(d, p) && w.end == WordAt(d, p + 4))
  {
    hide WordAt;
  }

  lemma CopyMade(stores: Stores, source: Id, target: Id, kind: byte, d: seq<byte>, p: nat)
    requires kind < 3 && p + 8 <= |d| && source in stores && TimeOrdered(stores[source].packets)
    ensures CopiedInto(stores, source, target, WindowAt(d, p, kind).0) ==
      if Copyable(stores, source, target, kind, d, p) then
        stores[target := stores[target].(packets := WindowOf(stores[source].packets, kind, d, p))]
      else stores
  {
    var packets, w := stores[source].packets, WindowAt(d, p, kind).0;
    WindowEnds(d, p, kind);
    FilteredIsWindow(packets, d, p, kind);
    CopyIsFilter(packets, w);
    if packets != [] && NoTimestamp(packets, w) {
      RefusedCopyIsEmpty(packets, w);
    }
    hide WordAt, Copied, TimeOrdered, NoTimestamp, WindowAt, Filtered;
    if Copyable(stores, source, target, kind, d, p) {
      var s := stores[target];
      assert packets == [] ==> WindowOf(packets, kind, d, p) == [];
      assert s.packets == [] ==> s.(packets := []) == s && stores[target := s] == stores;
    }
  }

  /** What a copy request reports about its stores and its window. */
  lemma CopyReports(stores: Stores, source: Id, target: Id, w: Window)
    ensures CopyRefusal(stores, source, target, w) ==
      if source !in stores || target !in stores then [NonExistingPacketStore]
      else if w.FromTo? && w.start >= w.end then [InvalidTimeWindow]
      else if stores[target].packets != [] then [DestinationPacketStoreNotEmpty]
      else if stores[source].packets == [] || NoTimestamp(stores[source].packets, w) then [CopyOfPacketsFailed]
      else []
  {
    hide NoTimestamp;
  }
}
