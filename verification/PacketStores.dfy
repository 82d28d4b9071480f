/** The packet stores and the requests that change them, section 6.15 of ECSS-E-ST-70-41C. */
module PacketStores {
  import opened Bits
  import opened Errors
  import opened Messages
  import opened Sets
  import opened Windows

  const MAX_STORES := 4
  const MAX_STORED_PACKETS := 10
  const ID_SIZE := 15
  const MAX_SIZE_IN_BYTES := 1000
  const MIN_CHANNEL := 1
  const MAX_CHANNEL := 10

  type Id = seq<byte>

  datatype StoreType = Circular | Bounded

  datatype PacketStore = PacketStore(
    virtualChannel: byte,
    openRetrievalStartTimeTag: Ticks,
    retrievalStartTime: Ticks,
    retrievalEndTime: Ticks,
    sizeInBytes: nat,
    storageStatus: bool,
    byTimeRangeRetrieval: bool,
    storeType: StoreType,
    openRetrievalInProgress: bool,
    packets: Packets)

  type Stores = map<Id, PacketStore>

  predicate Retrieving(s: PacketStore)
  {
    s.byTimeRangeRetrieval || s.openRetrievalInProgress
  }

  predicate Busy(s: PacketStore)
  {
    s.storageStatus || Retrieving(s)
  }

  predicate ValidStore(s: PacketStore)
  {
    && !(s.byTimeRangeRetrieval && s.openRetrievalInProgress)
    && (s.byTimeRangeRetrieval ==> s.retrievalStartTime < s.retrievalEndTime)
    && MIN_CHANNEL <= s.virtualChannel as int <= MAX_CHANNEL
    && |s.packets| <= MAX_STORED_PACKETS
  }

  predicate ValidStores(stores: Stores)
  {
    |stores| <= MAX_STORES && forall id :: id in stores ==> ValidStore(stores[id])
  }

  /** What every request leaves alone: a store that is storing or being retrieved stays, with its
      size and type; one that is being retrieved keeps its channel and loses no packet. */
  predicate Protected(s: PacketStore, s': PacketStore)
  {
    && (Busy(s) ==> s'.sizeInBytes == s.sizeInBytes && s'.storeType == s.storeType)
    && (Retrieving(s) ==> s'.virtualChannel == s.virtualChannel && s.packets <= s'.packets)
    && (s.openRetrievalInProgress ==> s'.openRetrievalStartTimeTag == s.openRetrievalStartTimeTag)
    && (s.byTimeRangeRetrieval ==>
          s'.retrievalStartTime == s.retrievalStartTime && s'.retrievalEndTime == s.retrievalEndTime)
  }

  predicate AllProtected(stores: Stores, stores': Stores)
  {
    forall id :: id in stores && Busy(stores[id]) ==> id in stores' && Protected(stores[id], stores'[id])
  }

  // ----- reading ids

  /** An id is always fifteen bytes long, zeros included. */
  function IdAt(d: seq<byte>, p: nat): Id
  {
    StringAt(d, p, ID_SIZE)
  }

  function AfterId(d: seq<byte>, p: nat): nat
  {
    AfterString(d, p, ID_SIZE)
  }

  function IdErrors(d: seq<byte>, p: nat): seq<Error>
  {
    StringErrors(d, p, ID_SIZE)
  }

  // ----- requests that act on all stores or on listed ones

  datatype Action =
    | SetStorage(on: bool)
    | DeleteUntil(limit: Ticks)
    | SetStartTag(tag: Ticks)
    | ResumeOpen
    | SuspendOpen
    | AbortRange

  function Refusal(a: Action, s: PacketStore): seq<Error>
  {
    match a
    case DeleteUntil(_) =>
      if s.byTimeRangeRetrieval then [SetPacketStoreWithByTimeRangeRetrieval]
      else if s.openRetrievalInProgress then [SetPacketStoreWithOpenRetrievalInProgress]
      else []
    case SetStartTag(_) => if s.openRetrievalInProgress then [SetPacketStoreWithOpenRetrievalInProgress] else []
    case ResumeOpen => if s.byTimeRangeRetrieval then [SetPacketStoreWithByTimeRangeRetrieval] else []
    case _ => []
  }

  function Acted(a: Action, s: PacketStore): PacketStore
  {
    if Refusal(a, s) != [] then s
    else
      match a
      case SetStorage(on) => s.(storageStatus := on)
      case DeleteUntil(limit) => s.(packets := KeptAfter(s.packets, limit))
      case SetStartTag(tag) => s.(openRetrievalStartTimeTag := tag)
      case ResumeOpen => s.(openRetrievalInProgress := true)
      case SuspendOpen => s.(openRetrievalInProgress := false)
      case AbortRange => s.(byTimeRangeRetrieval := false)
  }

  function ActedAll(a: Action, stores: Stores): Stores
  {
    map id | id in stores :: Acted(a, stores[id])
  }

  // ----- the instructions of the other requests

  datatype Instruction = Act(action: Action) | StartRange | DeleteStore | Resize

  /** The stores, the read position and what was reported, in the middle of a request. */
  datatype State = State(stores: Stores, position: nat, errors: seq<Error>)

  function StartRefusal(stores: Stores, id: Id): seq<Error>
  {
    if id !in stores then [NonExistingPacketStore]
    else if stores[id].openRetrievalInProgress then [GetPacketStoreWithOpenRetrievalInProgress]
    else if stores[id].byTimeRangeRetrieval then [ByTimeRangeRetrievalAlreadyEnabled]
    else []
  }

  function DeleteRefusal(s: PacketStore): seq<Error>
  {
    if s.storageStatus then [DeletionOfPacketStoreWithStorageStatusEnabled]
    else if s.byTimeRangeRetrieval then [DeletionOfPacketWithByTimeRangeRetrieval]
    else if s.openRetrievalInProgress then [DeletionOfPacketWithOpenRetrievalInProgress]
    else []
  }

  function ResizeRefusal(stores: Stores, id: Id, size: nat): seq<Error>
  {
    if id !in stores then [NonExistingPacketStore]
    else if size >= MAX_SIZE_IN_BYTES then [UnableToHandlePacketStoreSize]
    else if stores[id].storageStatus then [GetPacketStoreWithStorageStatusEnabled]
    else if stores[id].openRetrievalInProgress then [GetPacketStoreWithOpenRetrievalInProgress]
    else if stores[id].byTimeRangeRetrieval then [GetPacketStoreWithByTimeRangeRetrieval]
    else []
  }

  function Acting(a: Action, d: seq<byte>, s: State): State
  {
    var id, errors := IdAt(d, s.position), s.errors + IdErrors(d, s.position);
    if id !in s.stores then State(s.stores, AfterId(d, s.position), errors + [NonExistingPacketStore])
    else
      State(s.stores[id := Acted(a, s.stores[id])], AfterId(d, s.position), errors + Refusal(a, s.stores[id]))
  }

  function Starting(d: seq<byte>, s: State): State
  {
    var id, p, errors := IdAt(d, s.position), AfterId(d, s.position), s.errors + IdErrors(d, s.position);
    if StartRefusal(s.stores, id) != [] then State(s.stores, Skipped(p, 8), errors + StartRefusal(s.stores, id))
    else
      var q := After(d, p, 4);
      var start, end, more := WordAt(d, p), WordAt(d, q), ReadErrors(d, p, 4) + ReadErrors(d, q, 4);
      if start >= end then State(s.stores, After(d, q, 4), errors + more + [InvalidTimeWindow])
      else
        State(s.stores[id := s.stores[id].(byTimeRangeRetrieval := true, retrievalStartTime := start,
                                           retrievalEndTime := end)],
              After(d, q, 4), errors + more)
  }

  function Deleting(d: seq<byte>, s: State): State
  {
    var id, errors := IdAt(d, s.position), s.errors + IdErrors(d, s.position);
    if id !in s.stores then State(s.stores, AfterId(d, s.position), errors + [NonExistingPacketStore])
    else
      State(if DeleteRefusal(s.stores[id]) == [] then s.stores - {id} else s.stores,
            AfterId(d, s.position), errors + DeleteRefusal(s.stores[id]))
  }

  function Resizing(d: seq<byte>, s: State): State
  {
    var id, p := IdAt(d, s.position), AfterId(d, s.position);
    var size, errors := HalfAt(d, p), s.errors + IdErrors(d, s.position) + ReadErrors(d, p, 2);
    var refusal := ResizeRefusal(s.stores, id, size);
    State(if refusal == [] then s.stores[id := s.stores[id].(sizeInBytes := size)] else s.stores,
          After(d, p, 2), errors + refusal)
  }

  function Instructed(i: Instruction, d: seq<byte>, s: State): State
  {
    match i
    case Act(a) => Acting(a, d, s)
    case StartRange => Starting(d, s)
    case DeleteStore => Deleting(d, s)
    case Resize => Resizing(d, s)
  }

  /** The state after `n` instructions of one kind. */
  function Instructions(i: Instruction, d: seq<byte>, s: State, n: nat): State
    decreases n
  {
    if n == 0 then s else Instructions(i, d, Instructed(i, d, s), n - 1)
  }

  /** The bytes one instruction takes up. */
  function Width(i: Instruction): nat
  {
    match i
    case StartRange => ID_SIZE + 8
    case Resize => ID_SIZE + 2
    case _ => ID_SIZE
  }

  function Widths(i: Instruction, n: nat): nat
  {
    if n == 0 then 0 else Width(i) + Widths(i, n - 1)
  }

  /** Framing: where the instructions of a request that fits end depends on their number alone,
      never on which of them were refused. */
  lemma {:induction false} InstructionsFraming(i: Instruction, d: seq<byte>, s: State, n: nat)
    requires s.position + Widths(i, n) <= |d| <= MAX_MESSAGE_SIZE
    ensures Instructions(i, d, s, n).position == s.position + Widths(i, n)
    decreases n
  {
    hide StartRefusal, ResizeRefusal, DeleteRefusal, Refusal, NumberAt, StringAt, ReadErrors, StringErrors;
    if n > 0 {
      InstructionsFraming(i, d, Instructed(i, d, s), n - 1);
    }
  }

  // ----- creating

  function NewStore(size: uint16, typeCode: byte, channel: byte): PacketStore
  {
    PacketStore(channel, 0, 0, 0, size, false, false, if typeCode == 0 then Circular else Bounded, false, [])
  }

  /** One instruction of TC[15,20] when there is room for a store. */
  function Creating(d: seq<byte>, s: State): State
  {
    var id, p, errors := IdAt(d, s.position), AfterId(d, s.position), s.errors + IdErrors(d, s.position);
    if id in s.stores then State(s.stores, Skipped(p, 4), errors + [AlreadyExistingPacketStore])
    else
      var q := After(d, p, 2);
      var r := After(d, q, 1);
      var channel := ByteAt(d, r);
      var more := ReadErrors(d, p, 2) + ReadErrors(d, q, 1) + ReadErrors(d, r, 1);
      if channel < MIN_CHANNEL || channel > MAX_CHANNEL then
        State(s.stores, After(d, r, 1), errors + more + [InvalidVirtualChannel])
      else
        State(s.stores[id := NewStore(HalfAt(d, p), ByteAt(d, q), channel)], After(d, r, 1), errors + more)
  }

  /** TC[15,20]: the first instruction that finds all stores in use ends the request. */
  function Creations(d: seq<byte>, s: State, n: nat): State
    decreases n
  {
    if n == 0 then s
    else if |s.stores| >= MAX_STORES then s.(errors := s.errors + [MaxNumberOfPacketStoresReached])
    else Creations(d, Creating(d, s), n - 1)
  }

  // ----- requests on a single store

  function RetypeRefusal(stores: Stores, id: Id): seq<Error>
  {
    if id !in stores then [NonExistingPacketStore]
    else if stores[id].storageStatus then [GetPacketStoreWithStorageStatusEnabled]
    else if stores[id].byTimeRangeRetrieval then [GetPacketStoreWithByTimeRangeRetrieval]
    else if stores[id].openRetrievalInProgress then [GetPacketStoreWithOpenRetrievalInProgress]
    else []
  }

  function Retyped(stores: Stores, id: Id, storeType: StoreType): Stores
  {
    if RetypeRefusal(stores, id) == [] then stores[id := stores[id].(storeType := storeType)] else stores
  }

  function ChannelRefusal(stores: Stores, id: Id, channel: byte): seq<Error>
  {
    if id !in stores then [NonExistingPacketStore]
    else if channel < MIN_CHANNEL || channel > MAX_CHANNEL then [InvalidVirtualChannel]
    else if stores[id].byTimeRangeRetrieval then [GetPacketStoreWithByTimeRangeRetrieval]
    else if stores[id].openRetrievalInProgress then [GetPacketStoreWithOpenRetrievalInProgress]
    else []
  }

  function Rechanneled(stores: Stores, id: Id, channel: byte): Stores
  {
    if ChannelRefusal(stores, id, channel) == [] then stores[id := stores[id].(virtualChannel := channel)] else stores
  }

  // ----- copying

  /** The checks before the source is looked at. */
  function EarlyCopyRefusal(stores: Stores, source: Id, target: Id, w: Window): seq<Error>
  {
    if source !in stores || target !in stores then [NonExistingPacketStore]
    else if w.FromTo? && w.start >= w.end then [InvalidTimeWindow]
    else if stores[target].packets != [] then [DestinationPacketStoreNotEmpty]
    else []
  }

  /** The source looks at its first and last packet without asking whether there is one. */
  predicate CopyDefined(stores: Stores, source: Id, target: Id, w: Window)
  {
    EarlyCopyRefusal(stores, source, target, w) == [] ==> stores[source].packets != []
  }

  function CopyRefusal(stores: Stores, source: Id, target: Id, w: Window): seq<Error>
  {
    if EarlyCopyRefusal(stores, source, target, w) != [] then EarlyCopyRefusal(stores, source, target, w)
    else if stores[source].packets == [] || NoTimestamp(stores[source].packets, w) then [CopyOfPacketsFailed]
    else []
  }

  function CopiedInto(stores: Stores, source: Id, target: Id, w: Window): Stores
  {
    if CopyRefusal(stores, source, target, w) != [] then stores
    else stores[target := stores[target].(packets := Copied(stores[source].packets, w))]
  }

  /** The window a copy request asks for, and where its two ids begin. */
  function WindowAt(d: seq<byte>, p: nat, kind: byte): (Window, nat)
    requires kind < 3
  {
    var q := After(d, p, 4);
    match kind
    case 0 => (FromTo(WordAt(d, p), WordAt(d, q)), After(d, q, 4))
    case 1 => (From(WordAt(d, p)), q)
    case _ => (Until(WordAt(d, p)), q)
  }

  /** TC[15,24]. */
  function Windowed(stores: Stores, d: seq<byte>, p: nat): Stores
  {
    var kind, q := ByteAt(d, p), After(d, p, 1);
    if kind >= 3 then stores else CopyRequested(stores, d, q, kind)
  }

  function CopyRequested(stores: Stores, d: seq<byte>, p: nat, kind: byte): Stores
    requires kind < 3
  {
    var (w, r) := WindowAt(d, p, kind);
    CopiedInto(stores, IdAt(d, r), IdAt(d, AfterId(d, r)), w)
  }

  // ----- whole requests

  datatype Request =
    | EnableStorage | DisableStorage | StartByTimeRange | DeleteContent | ChangeStartTag | Resume | Suspend | Abort
    | Create | Delete | CopyWindow | ResizeStores | ToCircular | ToBounded | ChangeChannel

  function ActionOf(r: Request, d: seq<byte>, p: nat): (Action, nat)
    requires r.EnableStorage? || r.DisableStorage? || r.DeleteContent? || r.ChangeStartTag? || r.Resume? ||
             r.Suspend? || r.Abort?
  {
    match r
    case EnableStorage => (SetStorage(true), p)
    case DisableStorage => (SetStorage(false), p)
    case DeleteContent => (DeleteUntil(WordAt(d, p)), After(d, p, 4))
    case ChangeStartTag => (SetStartTag(WordAt(d, p)), After(d, p, 4))
    case Resume => (ResumeOpen, p)
    case Suspend => (SuspendOpen, p)
    case _ => (AbortRange, p)
  }

  /** The stores after acting on all of them, when the request lists none, or on the listed ones. */
  function ActedOn(a: Action, stores: Stores, d: seq<byte>, p: nat): Stores
  {
    if HalfAt(d, p) == 0 then ActedAll(a, stores)
    else Instructions(Act(a), d, State(stores, After(d, p, 2), []), HalfAt(d, p)).stores
  }

  function Deletable(stores: Stores): set<Id>
  {
    set id | id in stores && DeleteRefusal(stores[id]) == []
  }

  /** The stores after a request read at `p`. */
  function Handled(r: Request, stores: Stores, d: seq<byte>, p: nat): Stores
  {
    var start, n := State(stores, After(d, p, 2), []), HalfAt(d, p);
    match r
    case StartByTimeRange => Instructions(StartRange, d, start, n).stores
    case Create => Creations(d, start, n).stores
    case Delete => if n == 0 then stores - Deletable(stores) else Instructions(DeleteStore, d, start, n).stores
    case CopyWindow => Windowed(stores, d, p)
    case ResizeStores => Instructions(Resize, d, start, n).stores
    case ToCircular => Retyped(stores, IdAt(d, p), Circular)
    case ToBounded => Retyped(stores, IdAt(d, p), Bounded)
    case ChangeChannel => Rechanneled(stores, IdAt(d, p), ByteAt(d, AfterId(d, p)))
    case _ => var (a, q) := ActionOf(r, d, p); ActedOn(a, stores, d, q)
  }

  // ----- every request keeps the invariant and respects retrieval

  predicate AllOrdered(stores: Stores)
  {
    forall id :: id in stores ==> TimeOrdered(stores[id].packets)
  }

  /** Validity and time order carry over. */
  predicate Inherited(stores: Stores, stores': Stores)
  {
    (ValidStores(stores) ==> ValidStores(stores')) && (AllOrdered(stores) ==> AllOrdered(stores'))
  }

  predicate InheritedStore(s: PacketStore, s': PacketStore)
  {
    (ValidStore(s) ==> ValidStore(s')) && (TimeOrdered(s.packets) ==> TimeOrdered(s'.packets))
  }

  /** Nothing but the three status flags differs. */
  predicate OnlyFlags(s: PacketStore, s': PacketStore)
  {
    s'.(storageStatus := s.storageStatus, byTimeRangeRetrieval := s.byTimeRangeRetrieval,
        openRetrievalInProgress := s.openRetrievalInProgress) == s
  }

  /** Protected, and every status that was on still is. */
  predicate Guarded(s: PacketStore, s': PacketStore)
  {
    && Protected(s, s')
    && (s.storageStatus ==> s'.storageStatus)
    && (s.byTimeRangeRetrieval ==> s'.byTimeRangeRetrieval)
    && (s.openRetrievalInProgress ==> s'.openRetrievalInProgress)
  }

  predicate AllOnlyFlags(stores: Stores, stores': Stores)
  {
    forall id :: id in stores ==> id in stores' && OnlyFlags(stores[id], stores'[id])
  }

  predicate AllGuarded(stores: Stores, stores': Stores)
  {
    forall id :: id in stores && Busy(stores[id]) ==> id in stores' && Guarded(stores[id], stores'[id])
  }

  /** The actions that may switch a status off. */
  predicate SwitchesOff(a: Action)
  {
    a.SetStorage? || a.SuspendOpen? || a.AbortRange?
  }

  /** What a request of one kind does, over any number of instructions. */
  predicate Effect(flagsOnly: bool, stores: Stores, stores': Stores)
  {
    Inherited(stores, stores') && if flagsOnly then AllOnlyFlags(stores, stores') else AllGuarded(stores, stores')
  }

  lemma EffectNone(flagsOnly: bool, stores: Stores)
    ensures Effect(flagsOnly, stores, stores)
  {
  }

  lemma EffectTrans(flagsOnly: bool, a: Stores, b: Stores, c: Stores)
    requires Effect(flagsOnly, a, b) && Effect(flagsOnly, b, c)
    ensures Effect(flagsOnly, a, c)
  {
    hide ValidStores, TimeOrdered, AllOrdered;
    if flagsOnly {
      forall id | id in a
        ensures id in c && OnlyFlags(a[id], c[id])
      {
        assert id in b && OnlyFlags(a[id], b[id]);
      }
    } else {
      forall id | id in a && Busy(a[id])
        ensures id in c && Guarded(a[id], c[id])
      {
        assert id in b && Guarded(a[id], b[id]);
      }
    }
  }

  lemma EffectProtects(flagsOnly: bool, stores: Stores, stores': Stores)
    requires Effect(flagsOnly, stores, stores')
    ensures AllProtected(stores, stores')
  {
    hide ValidStores, TimeOrdered, AllOrdered;
  }

  lemma EffectOne(flagsOnly: bool, stores: Stores, id: Id, s: PacketStore)
    requires id in stores && InheritedStore(stores[id], s)
    requires if flagsOnly then OnlyFlags(stores[id], s) else Guarded(stores[id], s)
    ensures Effect(flagsOnly, stores, stores[id := s])
  {
    hide ValidStore, TimeOrdered;
    if !flagsOnly {
      forall k | k in stores && Busy(stores[k])
        ensures Guarded(stores[k], stores[id := s][k])
      {
      }
    }
  }

  lemma EffectNew(stores: Stores, id: Id, s: PacketStore)
    requires id !in stores && |stores| < MAX_STORES && ValidStore(s) && s.packets == []
    ensures Effect(false, stores, stores[id := s])
  {
    hide ValidStore;
  }

  lemma EffectErase(stores: Stores, ids: set<Id>)
    requires forall id :: id in ids && id in stores ==> !Busy(stores[id])
    ensures Effect(false, stores, stores - ids)
  {
    EraseInherits(stores, ids);
    EraseGuards(stores, ids);
    hide Inherited, AllGuarded, Busy;
  }

  lemma EraseInherits(stores: Stores, ids: set<Id>)
    ensures Inherited(stores, stores - ids)
  {
    hide ValidStore, TimeOrdered;
    var rest := stores - ids;
    SubsetSize(rest.Keys, stores.Keys);
    assert |rest| == |rest.Keys| && |stores| == |stores.Keys|;
  }

  lemma EraseGuards(stores: Stores, ids: set<Id>)
    requires forall id :: id in ids && id in stores ==> !Busy(stores[id])
    ensures AllGuarded(stores, stores - ids)
  {
    hide Busy;
    forall id | id in stores && Busy(stores[id])
      ensures id in stores - ids && Guarded(stores[id], (stores - ids)[id])
    {
      SameIsGuarded(stores[id]);
    }
  }

  lemma SameIsGuarded(s: PacketStore)
    ensures Guarded(s, s)
  {
  }

  /** An action never breaks mutual exclusion, and refuses to touch what a retrieval needs. */
  lemma ActedEffect(a: Action, s: PacketStore)
    ensures InheritedStore(s, Acted(a, s))
    ensures if SwitchesOff(a) then OnlyFlags(s, Acted(a, s)) else Guarded(s, Acted(a, s))
  {
    if a.DeleteUntil? {
      var k := KeptIsSuffix(s.packets, a.limit);
      hide KeptAfter;
    }
  }

  lemma ActedAllEffect(a: Action, stores: Stores)
    ensures Effect(SwitchesOff(a), stores, ActedAll(a, stores))
  {
    var r := ActedAll(a, stores);
    assert r.Keys == stores.Keys;
    forall id | id in stores
      ensures InheritedStore(stores[id], r[id])
      ensures if SwitchesOff(a) then OnlyFlags(stores[id], r[id]) else Guarded(stores[id], r[id])
    {
      ActedEffect(a, stores[id]);
    }
    hide ValidStore, TimeOrdered, ActedAll, Acted, Protected;
    assert |r| == |r.Keys| && |stores| == |stores.Keys|;
  }

  lemma InstructedEffect(i: Instruction, d: seq<byte>, s: State)
    ensures Effect(i.Act? && SwitchesOff(i.action), s.stores, Instructed(i, d, s).stores)
  {
    hide WordAt, HalfAt, IdAt, AfterId, After, ReadErrors, Skipped, IdErrors, Acted, Effect;
    var id, stores := IdAt(d, s.position), s.stores;
    EffectNone(false, stores);
    EffectNone(true, stores);
    match i
    case Act(a) =>
      if id in stores {
        ActedEffect(a, stores[id]);
        EffectOne(SwitchesOff(a), stores, id, Acted(a, stores[id]));
      }
    case DeleteStore =>
      if id in stores && DeleteRefusal(stores[id]) == [] {
        EffectErase(stores, {id});
      }
    case StartRange =>
      var p := AfterId(d, s.position);
      var start, end := WordAt(d, p), WordAt(d, After(d, p, 4));
      if StartRefusal(stores, id) == [] && start < end {
        EffectOne(false, stores, id, stores[id].(byTimeRangeRetrieval := true, retrievalStartTime := start,
                                                 retrievalEndTime := end));
      }
    case Resize =>
      var size := HalfAt(d, AfterId(d, s.position));
      if ResizeRefusal(stores, id, size) == [] {
        EffectOne(false, stores, id, stores[id].(sizeInBytes := size));
      }
  }

  lemma {:induction false} InstructionsEffect(i: Instruction, d: seq<byte>, s: State, n: nat)
    ensures Effect(i.Act? && SwitchesOff(i.action), s.stores, Instructions(i, d, s, n).stores)
    decreases n
  {
    hide Instructed, Effect;
    var off := i.Act? && SwitchesOff(i.action);
    EffectNone(off, s.stores);
    if n > 0 {
      var s' := Instructed(i, d, s);
      InstructedEffect(i, d, s);
      InstructionsEffect(i, d, s', n - 1);
      EffectTrans(off, s.stores, s'.stores, Instructions(i, d, s', n - 1).stores);
    }
  }

  lemma CreatingEffect(d: seq<byte>, s: State)
    requires |s.stores| < MAX_STORES
    ensures Effect(false, s.stores, Creating(d, s).stores)
  {
    hide HalfAt, ByteAt, IdAt, AfterId, After, ReadErrors, Skipped, IdErrors, Effect;
    EffectNone(false, s.stores);
    var id, p := IdAt(d, s.position), AfterId(d, s.position);
    var q := After(d, p, 2);
    var channel := ByteAt(d, After(d, q, 1));
    if id !in s.stores && MIN_CHANNEL <= channel as int <= MAX_CHANNEL {
      EffectNew(s.stores, id, NewStore(HalfAt(d, p), ByteAt(d, q), channel));
    }
  }

  lemma {:induction false} CreationsEffect(d: seq<byte>, s: State, n: nat)
    ensures Effect(false, s.stores, Creations(d, s, n).stores)
    decreases n
  {
    hide Creating, Effect;
    EffectNone(false, s.stores);
    if n > 0 && |s.stores| < MAX_STORES {
      var s' := Creating(d, s);
      CreatingEffect(d, s);
      CreationsEffect(d, s', n - 1);
      EffectTrans(false, s.stores, s'.stores, Creations(d, s', n - 1).stores);
    }
  }

  lemma CopiedEffect(stores: Stores, source: Id, target: Id, w: Window)
    ensures Inherited(stores, CopiedInto(stores, source, target, w))
    ensures AllProtected(stores, CopiedInto(stores, source, target, w))
  {
    if CopyRefusal(stores, source, target, w) == [] {
      var s, copied := stores[target], Copied(stores[source].packets, w);
      CopiedLength(stores[source].packets, w);
      if TimeOrdered(stores[source].packets) {
        CopiedOrdered(stores[source].packets, w);
      }
      hide Copied, TimeOrdered;
      var r := CopiedInto(stores, source, target, w);
      assert r == stores[target := s.(packets := copied)];
      assert Protected(s, r[target]);
    }
  }

  /** Every request keeps every store valid and every store's packets in time order, and leaves
      alone what a storing or retrieved store needs. */
  lemma HandledSafe(r: Request, stores: Stores, d: seq<byte>, p: nat)
    ensures Inherited(stores, Handled(r, stores, d, p))
    ensures AllProtected(stores, Handled(r, stores, d, p))
  {
    hide HalfAt, WordAt, ByteAt, IdAt, AfterId, After, ValidStores, AllOrdered, AllProtected, Effect;
    hide Instructions, Creations, ActedAll, CopiedInto, Deletable, WindowAt, Retyped, Rechanneled;
    var start, n := State(stores, After(d, p, 2), []), HalfAt(d, p);
    match r
    case StartByTimeRange =>
      InstructionsEffect(StartRange, d, start, n);
      Result(false, stores, Handled(r, stores, d, p));
    case Create => CreationsEffect(d, start, n); Result(false, stores, Handled(r, stores, d, p));
    case Delete =>
      InstructionsEffect(DeleteStore, d, start, n);
      DeletableEffect(stores);
      Result(false, stores, Handled(r, stores, d, p));
    case CopyWindow =>
      var kind, q := ByteAt(d, p), After(d, p, 1);
      EffectNone(true, stores);
      Result(true, stores, stores);
      if kind < 3 {
        var (w, r) := WindowAt(d, q, kind);
        CopiedEffect(stores, IdAt(d, r), IdAt(d, AfterId(d, r)), w);
      }
    case ResizeStores => InstructionsEffect(Resize, d, start, n); Result(false, stores, Handled(r, stores, d, p));
    case ToCircular => RetypedEffect(stores, IdAt(d, p), Circular); Result(false, stores, Handled(r, stores, d, p));
    case ToBounded => RetypedEffect(stores, IdAt(d, p), Bounded); Result(false, stores, Handled(r, stores, d, p));
    case ChangeChannel =>
      RechanneledEffect(stores, IdAt(d, p), ByteAt(d, AfterId(d, p)));
      Result(false, stores, Handled(r, stores, d, p));
    case _ =>
      var (a, q) := ActionOf(r, d, p);
      ActedAllEffect(a, stores);
      InstructionsEffect(Act(a), d, State(stores, After(d, q, 2), []), HalfAt(d, q));
      Result(SwitchesOff(a), stores, Handled(r, stores, d, p));
  }

  lemma Result(flagsOnly: bool, stores: Stores, stores': Stores)
    requires Effect(flagsOnly, stores, stores')
    ensures Inherited(stores, stores') && AllProtected(stores, stores')
  {
    EffectProtects(flagsOnly, stores, stores');
  }

  lemma DeletableEffect(stores: Stores)
    ensures Effect(false, stores, stores - Deletable(stores))
  {
    EffectErase(stores, Deletable(stores));
  }

  lemma RetypedEffect(stores: Stores, id: Id, storeType: StoreType)
    ensures Effect(false, stores, Retyped(stores, id, storeType))
  {
    EffectNone(false, stores);
    if RetypeRefusal(stores, id) == [] {
      EffectOne(false, stores, id, stores[id].(storeType := storeType));
    }
    hide Effect;
  }

  lemma RechanneledEffect(stores: Stores, id: Id, channel: byte)
    ensures Effect(false, stores, Rechanneled(stores, id, channel))
  {
    EffectNone(false, stores);
    if ChannelRefusal(stores, id, channel) == [] {
      EffectOne(false, stores, id, stores[id].(virtualChannel := channel));
    }
    hide Effect;
  }

  // ----- whole runs

  /** A request, or telemetry that is stored. */
  datatype Step = Handle(request: Request, d: seq<byte>, position: nat) | Record(id: Id, item: Stored)

  /** Storing a packet, when the store exists and its queue has room. */
  function Recorded(stores: Stores, id: Id, item: Stored): Stores
  {
    if id in stores && |stores[id].packets| < MAX_STORED_PACKETS then
      stores[id := stores[id].(packets := stores[id].packets + [item])]
    else stores
  }

  function Next(stores: Stores, step: Step): Stores
  {
    match step
    case Handle(r, d, p) => Handled(r, stores, d, p)
    case Record(id, item) => Recorded(stores, id, item)
  }

  function Reached(steps: seq<Step>): Stores
  {
    if steps == [] then map[] else Next(Reached(steps[..|steps| - 1]), steps[|steps| - 1])
  }

  /** In every reachable state there are at most four stores, no store is under both kinds of
      retrieval, every enabled range is a proper interval, and every channel is legal. */
  lemma {:induction false} ReachableValid(steps: seq<Step>)
    ensures ValidStores(Reached(steps))
    ensures |Reached(steps)| <= 4
    ensures forall id :: id in Reached(steps) ==>
      1 <= Reached(steps)[id].virtualChannel <= 10 && |Reached(steps)[id].packets| <= 10
    decreases |steps|
  {
    hide Handled;
    if steps != [] {
      var before, step := Reached(steps[..|steps| - 1]), steps[|steps| - 1];
      ReachableValid(steps[..|steps| - 1]);
      if step.Handle? {
        HandledSafe(step.request, before, step.d, step.position);
      }
    }
  }

  /** A step never deletes, resizes or retypes a store that is storing or being retrieved, and
      never takes packets, channel or range from one that is being retrieved. */
  lemma StepProtects(stores: Stores, step: Step)
    ensures AllProtected(stores, Next(stores, step))
  {
    hide Handled;
    if step.Handle? {
      HandledSafe(step.request, stores, step.d, step.position);
    }
  }

  /** Telemetry is stored in time order. */
  predicate InOrder(stores: Stores, step: Step)
  {
    step.Record? && step.id in stores && stores[step.id].packets != [] ==>
      var packets := stores[step.id].packets; packets[|packets| - 1].time <= step.item.time
  }

  predicate AllInOrder(steps: seq<Step>)
  {
    forall k :: 0 <= k < |steps| ==> InOrder(Reached(steps[..k]), steps[k])
  }

  /** When telemetry is stored in time order, every store is in time order in every reachable state,
      whatever is copied and deleted in between. */
  lemma {:induction false} ReachableOrdered(steps: seq<Step>)
    requires AllInOrder(steps)
    ensures AllOrdered(Reached(steps))
    decreases |steps|
  {
    hide Handled, Inherited, ValidStores, AllProtected;
    if steps != [] {
      var n := |steps| - 1;
      var before, step := Reached(steps[..n]), steps[n];
      forall k | 0 <= k < n
        ensures InOrder(Reached(steps[..n][..k]), steps[..n][k])
      {
        assert steps[..n][..k] == steps[..k];
      }
      ReachableOrdered(steps[..n]);
      StepOrdered(before, step);
    }
  }

  lemma StepOrdered(stores: Stores, step: Step)
    requires AllOrdered(stores) && InOrder(stores, step)
    ensures AllOrdered(Next(stores, step))
  {
    hide Handled, ValidStores, AllProtected;
    match step
    case Handle(r, d, p) => HandledSafe(r, stores, d, p);
    case Record(id, item) =>
  }
}
