/** The storage and retrieval service: the handlers that read requests and edit the packet stores. */
module StorageAndRetrieval {
  import opened Bits
  import opened Errors
  import opened Messages
  import opened Parser
  import opened Windows
  import opened PacketStores

  class StorageAndRetrievalService {
    var packetStores: Stores

    ghost predicate Valid()
      reads this
    {
      ValidStores(packetStores)
    }

    constructor ()
      ensures Valid() && packetStores == map[]
    {
      packetStores := map[];
    }

    /** The state of the loop over the instructions of a request. */
    ghost function Now(request: Message): State
      reads this, request
    {
      State(packetStores, request.readPosition, request.errors)
    }

    /** `readPacketStoreId`. */
    method ReadPacketStoreId(request: Message) returns (id: Id)
      requires request.Valid()
      modifies request`readPosition, request`errors
      ensures id == IdAt(request.data[..], old(request.readPosition))
      ensures request.readPosition == AfterId(request.data[..], old(request.readPosition))
      ensures request.errors == old(request.errors) + IdErrors(request.data[..], old(request.readPosition))
    {
      id := request.ReadFixedString(ID_SIZE);
    }

    /** `deleteContentUntil`. */
    method DeleteContentUntil(id: Id, timeLimit: Ticks)
      requires id in packetStores
      modifies this`packetStores
      ensures packetStores == old(packetStores)[id := old(packetStores)[id].(
                packets := KeptAfter(old(packetStores)[id].packets, timeLimit))]
    {
      ghost var store := packetStores[id];
      while packetStores[id].packets != [] && packetStores[id].packets[0].time <= timeLimit
        invariant id in packetStores
        invariant packetStores == old(packetStores)[id := store.(packets := packetStores[id].packets)]
        invariant KeptAfter(packetStores[id].packets, timeLimit) == KeptAfter(store.packets, timeLimit)
        decreases |packetStores[id].packets|
      {
        packetStores := packetStores[id := packetStores[id].(packets := packetStores[id].packets[1..])];
      }
    }

    /** The body the handlers share: act on one store, or report why not. */
    method ActOn(action: Action, id: Id) returns (refusal: seq<Error>)
      requires id in packetStores
      modifies this`packetStores
      ensures refusal == Refusal(action, old(packetStores)[id])
      ensures packetStores == old(packetStores)[id := Acted(action, old(packetStores)[id])]
    {
      refusal := [];
      var store := packetStores[id];
      match action
      case SetStorage(on) =>
        packetStores := packetStores[id := store.(storageStatus := on)];
      case DeleteUntil(limit) =>
        if store.byTimeRangeRetrieval {
          refusal := [SetPacketStoreWithByTimeRangeRetrieval];
        } else if store.openRetrievalInProgress {
          refusal := [SetPacketStoreWithOpenRetrievalInProgress];
        } else {
          DeleteContentUntil(id, limit);
        }
      case SetStartTag(tag) =>
        if store.openRetrievalInProgress {
          refusal := [SetPacketStoreWithOpenRetrievalInProgress];
        } else {
          packetStores := packetStores[id := store.(openRetrievalStartTimeTag := tag)];
        }
      case ResumeOpen =>
        if store.byTimeRangeRetrieval {
          refusal := [SetPacketStoreWithByTimeRangeRetrieval];
        } else {
          packetStores := packetStores[id := store.(openRetrievalInProgress := true)];
        }
      case SuspendOpen =>
        packetStores := packetStores[id := store.(openRetrievalInProgress := false)];
      case AbortRange =>
        packetStores := packetStores[id := store.(byTimeRangeRetrieval := false)];
    }

    /** The loop over all stores, in the order of their ids. */
    method ActOnAll(action: Action, request: Message) returns (ghost order: seq<Id>)
      modifies this`packetStores, request`errors
      ensures packetStores == ActedAll(action, old(packetStores))
      ensures IsOrder(order, old(packetStores).Keys)
      ensures request.errors == old(request.errors) + Refusals(Act(action), old(packetStores), order)
    {
      hide Acted, Refusals, RefusalOf, IsOrder, PartlyActed, ActedAll, AllPrecede;
      ghost var before := packetStores;
      var left := packetStores.Keys;
      order := [];
      NothingActed(action, before);
      while left != {}
        invariant left <= before.Keys
        invariant IsOrder(order, before.Keys - left) && AllPrecede(before.Keys - left, left)
        invariant PartlyActed(action, before, left, packetStores)
        invariant request.errors == old(request.errors) + Refusals(Act(action), before, order)
      {
        ghost var least := LeastId(left);
        var id :| id in left && forall other :: other in left && other != id ==> Precedes(id, other);
        ghost var done := before.Keys - left;
        OneActed(action, before, left, packetStores, id);
        OrderNext(order, done, left, id);
        RefusalsNext(Act(action), before, order, id);
        ActOnOne(action, id, request);
        order := order + [id];
        left := left - {id};
        assert before.Keys - left == done + {id};
      }
      AllActed(action, before, packetStores);
      assert before.Keys - left == before.Keys;
    }

    method ActOnOne(action: Action, id: Id, request: Message)
      requires id in packetStores
      modifies this`packetStores, request`errors
      ensures packetStores == old(packetStores)[id := Acted(action, old(packetStores)[id])]
      ensures request.errors == old(request.errors) + RefusalOf(Act(action), old(packetStores)[id])
    {
      hide Acted, Refusal;
      var refusal := ActOn(action, id);
      request.errors := request.errors + refusal;
    }

    /** One listed store. */
    method ActOnListed(action: Action, request: Message)
      requires request.Valid()
      modifies this`packetStores, request`readPosition, request`errors
      ensures Now(request) == Instructed(Act(action), request.data[..], old(Now(request)))
    {
      hide IdAt, AfterId, IdErrors, Acted, Refusal;
      var id := ReadPacketStoreId(request);
      if id !in packetStores {
        request.errors := request.errors + [NonExistingPacketStore];
      } else {
        var refusal := ActOn(action, id);
        request.errors := request.errors + refusal;
      }
    }

    /** `executeOnPacketStores`, and the handlers that repeat its loop: with a count of zero act on
        every store, otherwise on each listed one. */
    method ExecuteOnPacketStores(action: Action, request: Message)
      requires Valid() && request.Valid()
      modifies this`packetStores, request`readPosition, request`errors
      ensures Valid() && AllProtected(old(packetStores), packetStores)
      ensures packetStores == ActedOn(action, old(packetStores), request.data[..], old(request.readPosition))
      ensures Executed(action, request.data[..], old(Now(request)), Now(request))
    {
      ghost var d, before := request.data[..], Now(request);
      ActedOnSafe(action, d, before);
      hide ReadErrors, ActedAll, AfterId, ValidStores, AllOrdered, AllProtected;
      hide Instructions, ActedOn, Refusals, IsOrder;
      var n := request.ReadHalfword();
      if n == 0 {
        ghost var order := ActOnAll(action, request);
        assert Reported(Act(action), d, before, Now(request), order);
      } else {
        Perform(Act(action), n, request);
      }
    }

    /** TC[15,1] and TC[15,2]. */
    method SetStorageFunction(request: Message, on: bool)
      requires Valid() && request.Valid()
      modifies this`packetStores, request`readPosition, request`errors
      ensures Valid() && AllProtected(old(packetStores), packetStores)
      ensures !request.IsTc(15, if on then 1 else 2) ==> packetStores == old(packetStores)
      ensures request.IsTc(15, if on then 1 else 2) ==>
        var kind := if on then EnableStorage else DisableStorage;
        && packetStores == Handled(kind, old(packetStores), request.data[..], old(request.readPosition))
        && Executed(SetStorage(on), request.data[..], old(Now(request)), Now(request))
    {
      NothingChanged(packetStores);
      ActionHandled(if on then EnableStorage else DisableStorage, packetStores, request.data[..], request.readPosition);
      hide Executed, ValidStores, AllProtected, Handled, ActedOn;
      var ok := request.AssertTc(15, if on then 1 else 2);
      if ok {
        assert request.errors == old(request.errors);
        ExecuteOnPacketStores(SetStorage(on), request);
      }
    }

    /** TC[15,15], TC[15,16] and TC[15,17]. */
    method ControlRetrieval(request: Message, kind: Request)
      requires Valid() && request.Valid() && (kind.Resume? || kind.Suspend? || kind.Abort?)
      modifies this`packetStores, request`readPosition, request`errors
      ensures Valid() && AllProtected(old(packetStores), packetStores)
      ensures var messageType := if kind.Resume? then 15 else if kind.Suspend? then 16 else 17;
        !request.IsTc(15, messageType) ==> packetStores == old(packetStores)
      ensures request.IsTc(15, if kind.Resume? then 15 else if kind.Suspend? then 16 else 17) ==>
        && packetStores == Handled(kind, old(packetStores), request.data[..], old(request.readPosition))
        && Executed(if kind.Resume? then ResumeOpen else if kind.Suspend? then SuspendOpen else AbortRange,
                    request.data[..], old(Now(request)), Now(request))
    {
      NothingChanged(packetStores);
      ActionHandled(kind, packetStores, request.data[..], request.readPosition);
      hide Executed, ValidStores, AllProtected, Handled, ActedOn;
      var ok := request.AssertTc(15, if kind.Resume? then 15 else if kind.Suspend? then 16 else 17);
      if ok {
        assert request.errors == old(request.errors);
        ExecuteOnPacketStores(if kind.Resume? then ResumeOpen else if kind.Suspend? then SuspendOpen else AbortRange,
                              request);
      }
    }

    /** TC[15,11]. */
    method DeletePacketStoreContent(request: Message)
      requires Valid() && request.Valid()
      modifies this`packetStores, request`readPosition, request`errors
      ensures Valid() && AllProtected(old(packetStores), packetStores)
      ensures !request.IsTc(15, 11) ==> packetStores == old(packetStores)
      ensures request.IsTc(15, 11) ==>
        var d, p := request.data[..], old(request.readPosition);
        && packetStores == Handled(DeleteContent, old(packetStores), d, p)
        && Executed(DeleteUntil(WordAt(d, p)), d, PastTime(d, old(Now(request))), Now(request))
    {
      NothingChanged(packetStores);
      ActionHandled(DeleteContent, packetStores, request.data[..], request.readPosition);
      hide Executed, ValidStores, AllProtected, Handled, ActedOn;
      var ok := request.AssertTc(15, 11);
      if ok {
        assert request.errors == old(request.errors);
        var timeLimit := request.ReadWord();
        ExecuteOnPacketStores(DeleteUntil(timeLimit), request);
      }
    }

    /** TC[15,14]. */
    method ChangeOpenRetrievalStartTimeTag(request: Message)
      requires Valid() && request.Valid()
      modifies this`packetStores, request`readPosition, request`errors
      ensures Valid() && AllProtected(old(packetStores), packetStores)
      ensures !request.IsTc(15, 14) ==> packetStores == old(packetStores)
      ensures request.IsTc(15, 14) ==>
        var d, p := request.data[..], old(request.readPosition);
        && packetStores == Handled(ChangeStartTag, old(packetStores), d, p)
        && Executed(SetStartTag(WordAt(d, p)), d, PastTime(d, old(Now(request))), Now(request))
    {
      NothingChanged(packetStores);
      ActionHandled(ChangeStartTag, packetStores, request.data[..], request.readPosition);
      hide Executed, ValidStores, AllProtected, Handled, ActedOn;
      var ok := request.AssertTc(15, 14);
      if ok {
        assert request.errors == old(request.errors);
        var newStartTimeTag := request.ReadWord();
        ExecuteOnPacketStores(SetStartTag(newStartTimeTag), request);
      }
    }

    /** `failedStartOfByTimeRangeRetrieval`. */
    method FailedStartOfByTimeRangeRetrieval(id: Id, request: Message) returns (failed: bool)
      modifies request`readPosition, request`errors
      ensures failed == (StartRefusal(packetStores, id) != [])
      ensures request.errors == old(request.errors) + StartRefusal(packetStores, id)
      ensures request.readPosition ==
        if failed then Skipped(old(request.readPosition), 8) else old(request.readPosition)
    {
      failed := false;
      if id !in packetStores {
        request.errors := request.errors + [NonExistingPacketStore];
        failed := true;
      } else if packetStores[id].openRetrievalInProgress {
        request.errors := request.errors + [GetPacketStoreWithOpenRetrievalInProgress];
        failed := true;
      } else if packetStores[id].byTimeRangeRetrieval {
        request.errors := request.errors + [ByTimeRangeRetrievalAlreadyEnabled];
        failed := true;
      }
      if failed {
        request.SkipBytes(8);
      }
    }

    /** One instruction of TC[15,9]. */
    method StartOne(request: Message)
      requires request.Valid()
      modifies this`packetStores, request`readPosition, request`errors
      ensures Now(request) == Instructed(StartRange, request.data[..], old(Now(request)))
    {
      hide IdAt, AfterId, IdErrors, ReadErrors, After, NumberAt, Skipped;
      var id := ReadPacketStoreId(request);
      var failed := FailedStartOfByTimeRangeRetrieval(id, request);
      if failed {
        return;
      }
      var retrievalStartTime := request.ReadWord();
      var retrievalEndTime := request.ReadWord();
      if retrievalStartTime >= retrievalEndTime {
        request.errors := request.errors + [InvalidTimeWindow];
        return;
      }
      packetStores := packetStores[id := packetStores[id].(byTimeRangeRetrieval := true,
                                                           retrievalStartTime := retrievalStartTime,
                                                           retrievalEndTime := retrievalEndTime)];
    }

    /** One instruction of TC[15,21]. */
    method DeleteOne(request: Message)
      requires request.Valid()
      modifies this`packetStores, request`readPosition, request`errors
      ensures Now(request) == Instructed(DeleteStore, request.data[..], old(Now(request)))
    {
      hide IdAt, AfterId, IdErrors;
      var id := ReadPacketStoreId(request);
      if id !in packetStores {
        request.errors := request.errors + [NonExistingPacketStore];
        return;
      }
      var refusal := CheckDeletion(id);
      request.errors := request.errors + refusal;
      if refusal != [] {
        return;
      }
      packetStores := packetStores - {id};
    }

    /** One instruction of TC[15,25]. */
    method ResizeOne(request: Message)
      requires request.Valid()
      modifies this`packetStores, request`readPosition, request`errors
      ensures Now(request) == Instructed(Resize, request.data[..], old(Now(request)))
    {
      hide IdAt, AfterId, IdErrors, ReadErrors, After, NumberAt;
      var id := ReadPacketStoreId(request);
      var packetStoreSize := request.ReadHalfword();
      if id !in packetStores {
        request.errors := request.errors + [NonExistingPacketStore];
        return;
      }
      var store := packetStores[id];
      if packetStoreSize >= MAX_SIZE_IN_BYTES {
        request.errors := request.errors + [UnableToHandlePacketStoreSize];
        return;
      }
      if store.storageStatus {
        request.errors := request.errors + [GetPacketStoreWithStorageStatusEnabled];
        return;
      }
      if store.openRetrievalInProgress {
        request.errors := request.errors + [GetPacketStoreWithOpenRetrievalInProgress];
        return;
      }
      if store.byTimeRangeRetrieval {
        request.errors := request.errors + [GetPacketStoreWithByTimeRangeRetrieval];
        return;
      }
      packetStores := packetStores[id := store.(sizeInBytes := packetStoreSize)];
    }

    /** One listed instruction. */
    method PerformOne(i: Instruction, request: Message)
      requires request.Valid()
      modifies this`packetStores, request`readPosition, request`errors
      ensures Now(request) == Instructed(i, request.data[..], old(Now(request)))
    {
      hide Instructed;
      match i
      case Act(action) => ActOnListed(action, request);
      case StartRange => StartOne(request);
      case DeleteStore => DeleteOne(request);
      case Resize => ResizeOne(request);
    }

    /** The loop over listed instructions, which every handler with a list has. */
    method Perform(i: Instruction, n: uint16, request: Message)
      requires request.Valid()
      modifies this`packetStores, request`readPosition, request`errors
      ensures Now(request) == Instructions(i, request.data[..], old(Now(request)), n)
    {
      hide Instructed;
      ghost var d, start := request.data[..], Now(request);
      for k := 0 to n
        invariant request.Valid() && request.data[..] == d
        invariant Instructions(i, d, start, n) == Instructions(i, d, Now(request), n - k)
      {
        PerformOne(i, request);
      }
    }

    /** TC[15,9]. */
    method StartByTimeRangeRetrieval(request: Message)
      requires Valid() && request.Valid()
      modifies this`packetStores, request`readPosition, request`errors
      ensures Valid() && AllProtected(old(packetStores), packetStores)
      ensures !request.IsTc(15, 9) ==> packetStores == old(packetStores)
      ensures request.IsTc(15, 9) ==>
        && packetStores == Handled(StartByTimeRange, old(packetStores), request.data[..], old(request.readPosition))
        && Read(StartRange, request.data[..], old(Now(request)), Now(request))
    {
      NothingChanged(packetStores);
      ListHandled(StartByTimeRange, StartRange, packetStores, request.data[..], request.readPosition);
      hide Handled, ReadErrors, Instructions, ValidStores, AllOrdered, AllProtected, NumberAt, Messages.After;
      var ok := request.AssertTc(15, 9);
      if !ok {
        return;
      }
      assert request.errors == old(request.errors);
      var n := request.ReadHalfword();
      Perform(StartRange, n, request);
      ReadSafe(StartRange, request.data[..], old(Now(request)), Now(request));
    }

    /** TC[15,25]. */
    method ResizePacketStores(request: Message)
      requires Valid() && request.Valid()
      modifies this`packetStores, request`readPosition, request`errors
      ensures Valid() && AllProtected(old(packetStores), packetStores)
      ensures !request.IsTc(15, 25) ==> packetStores == old(packetStores)
      ensures request.IsTc(15, 25) ==>
        && packetStores == Handled(ResizeStores, old(packetStores), request.data[..], old(request.readPosition))
        && Read(Resize, request.data[..], old(Now(request)), Now(request))
    {
      NothingChanged(packetStores);
      ListHandled(ResizeStores, Resize, packetStores, request.data[..], request.readPosition);
      hide Handled, ReadErrors, Instructions, ValidStores, AllOrdered, AllProtected, NumberAt, Messages.After;
      var ok := request.AssertTc(15, 25);
      if !ok {
        return;
      }
      assert request.errors == old(request.errors);
      var n := request.ReadHalfword();
      Perform(Resize, n, request);
      ReadSafe(Resize, request.data[..], old(Now(request)), Now(request));
    }

    /** TC[15,21] without a list: the ids to delete are collected first, and erased afterwards. */
    method DeleteAll(request: Message) returns (ghost order: seq<Id>)
      modifies this`packetStores, request`errors
      ensures packetStores == old(packetStores) - Deletable(old(packetStores))
      ensures IsOrder(order, old(packetStores).Keys)
      ensures request.errors == old(request.errors) + Refusals(DeleteStore, old(packetStores), order)
    {
      hide Deletable, Refusals, IsOrder;
      var packetStoresToDelete: seq<Id>;
      packetStoresToDelete, order := CollectDeletable(request);
      Erase(packetStoresToDelete);
    }

    /** The first loop of `deletePacketStores`. */
    method CollectDeletable(request: Message) returns (packetStoresToDelete: seq<Id>, ghost order: seq<Id>)
      modifies request`errors
      ensures (set id | id in packetStoresToDelete) == Deletable(packetStores)
      ensures IsOrder(order, packetStores.Keys)
      ensures request.errors == old(request.errors) + Refusals(DeleteStore, packetStores, order)
    {
      hide DeleteRefusal, Refusals, IsOrder, AllPrecede, Collected, Deletable;
      packetStoresToDelete := [];
      var left := packetStores.Keys;
      order := [];
      NothingCollected(packetStores);
      while left != {}
        invariant left <= packetStores.Keys && Collected(packetStores, left, packetStoresToDelete)
        invariant IsOrder(order, packetStores.Keys - left) && AllPrecede(packetStores.Keys - left, left)
        invariant request.errors == old(request.errors) + Refusals(DeleteStore, packetStores, order)
      {
        ghost var least := LeastId(left);
        var id :| id in left && forall other :: other in left && other != id ==> Precedes(id, other);
        ghost var done := packetStores.Keys - left;
        OrderNext(order, done, left, id);
        RefusalsNext(DeleteStore, packetStores, order, id);
        OneCollected(packetStores, left, packetStoresToDelete, id);
        var refusal := CheckDeletion(id);
        request.errors := request.errors + refusal;
        order := order + [id];
        left := left - {id};
        assert packetStores.Keys - left == done + {id};
        if refusal == [] {
          packetStoresToDelete := packetStoresToDelete + [id];
        }
      }
      assert packetStores.Keys - left == packetStores.Keys;
      AllCollected(packetStores, packetStoresToDelete);
    }

    /** The second loop of `deletePacketStores`. */
    method Erase(packetStoresToDelete: seq<Id>)
      modifies this`packetStores
      ensures packetStores == old(packetStores) - set id | id in packetStoresToDelete
    {
      for l := 0 to |packetStoresToDelete|
        invariant packetStores == old(packetStores) - set id | id in packetStoresToDelete[..l]
      {
        packetStores := packetStores - {packetStoresToDelete[l]};
      }
      assert packetStoresToDelete[..|packetStoresToDelete|] == packetStoresToDelete;
    }

    /** The checks before a store is deleted. */
    method CheckDeletion(id: Id) returns (refusal: seq<Error>)
      requires id in packetStores
      ensures refusal == DeleteRefusal(packetStores[id])
    {
      var store := packetStores[id];
      if store.storageStatus {
        return [DeletionOfPacketStoreWithStorageStatusEnabled];
      }
      if store.byTimeRangeRetrieval {
        return [DeletionOfPacketWithByTimeRangeRetrieval];
      }
      if store.openRetrievalInProgress {
        return [DeletionOfPacketWithOpenRetrievalInProgress];
      }
      refusal := [];
    }

    /** TC[15,21]. */
    method DeletePacketStores(request: Message)
      requires Valid() && request.Valid()
      modifies this`packetStores, request`readPosition, request`errors
      ensures Valid() && AllProtected(old(packetStores), packetStores)
      ensures !request.IsTc(15, 21) ==> packetStores == old(packetStores)
      ensures request.IsTc(15, 21) ==>
        var d, p := request.data[..], old(request.readPosition);
        && packetStores == Handled(Delete, old(packetStores), d, p)
        && Deleted(d, old(Now(request)), Now(request))
    {
      NothingChanged(packetStores);
      HandledSafe(Delete, packetStores, request.data[..], request.readPosition);
      hide Handled, Deleted, ValidStores, AllOrdered, AllProtected;
      var ok := request.AssertTc(15, 21);
      if ok {
        assert request.errors == old(request.errors);
        DeleteRequested(request);
        DeleteHandled(request.data[..], old(Now(request)), Now(request));
      }
    }

    method DeleteRequested(request: Message)
      requires request.Valid()
      modifies this`packetStores, request`readPosition, request`errors
      ensures Deleted(request.data[..], old(Now(request)), Now(request))
    {
      hide ReadErrors, Instructions, Deletable, Refusals, IsOrder;
      var n := request.ReadHalfword();
      if n == 0 {
        ghost var order := DeleteAll(request);
        assert Reported(DeleteStore, request.data[..], old(Now(request)), Now(request), order);
      } else {
        Perform(DeleteStore, n, request);
      }
    }

    /** One instruction of TC[15,20] when there is room. */
    method CreateOne(request: Message)
      requires request.Valid()
      modifies this`packetStores, request`readPosition, request`errors
      ensures Now(request) == Creating(request.data[..], old(Now(request)))
    {
      hide IdAt, AfterId, IdErrors, ReadErrors, After, NumberAt, Skipped;
      var idToCreate := ReadPacketStoreId(request);
      if idToCreate in packetStores {
        request.SkipBytes(4);
        request.errors := request.errors + [AlreadyExistingPacketStore];
        return;
      }
      var packetStoreSize := request.ReadHalfword();
      var typeCode := request.ReadByte();
      var virtualChannel := request.ReadByte();
      if virtualChannel < MIN_CHANNEL || virtualChannel > MAX_CHANNEL {
        request.errors := request.errors + [InvalidVirtualChannel];
        return;
      }
      var newPacketStore := PacketStore(virtualChannel, 0, 0, 0, packetStoreSize, false, false,
                                        if typeCode == 0 then Circular else Bounded, false, []);
      packetStores := packetStores[idToCreate := newPacketStore];
    }

    /** The loop of TC[15,20]. */
    method CreateListed(n: uint16, request: Message)
      requires request.Valid()
      modifies this`packetStores, request`readPosition, request`errors
      ensures Now(request) == Creations(request.data[..], old(Now(request)), n)
    {
      hide Creating;
      ghost var d, start := request.data[..], Now(request);
      for i := 0 to n
        invariant request.Valid() && request.data[..] == d
        invariant Creations(d, start, n) == Creations(d, Now(request), n - i)
      {
        if |packetStores| >= MAX_STORES {
          request.errors := request.errors + [MaxNumberOfPacketStoresReached];
          return;
        }
        CreateOne(request);
      }
    }

    /** TC[15,20]. */
    method CreatePacketStores(request: Message)
      requires Valid() && request.Valid()
      modifies this`packetStores, request`readPosition, request`errors
      ensures Valid() && AllProtected(old(packetStores), packetStores)
      ensures !request.IsTc(15, 20) ==> packetStores == old(packetStores)
      ensures request.IsTc(15, 20) ==>
        var d, p := request.data[..], old(request.readPosition);
        var start := State(old(packetStores), After(d, p, 2), old(request.errors) + ReadErrors(d, p, 2));
        && packetStores == Handled(Create, old(packetStores), d, p)
        && Now(request) == Creations(d, start, HalfAt(d, p))
    {
      NothingChanged(packetStores);
      CreateHandled(packetStores, request.data[..], request.readPosition, request.errors);
      hide Handled, Creations, ReadErrors, ValidStores, AllOrdered, AllProtected, NumberAt, Messages.After;
      var ok := request.AssertTc(15, 20);
      if !ok {
        return;
      }
      assert request.errors == old(request.errors);
      var n := request.ReadHalfword();
      CreateListed(n, request);
    }

    /** TC[15,26] and TC[15,27]. */
    method ChangeType(request: Message, storeType: StoreType)
      requires Valid() && request.Valid()
      modifies this`packetStores, request`readPosition, request`errors
      ensures Valid() && AllProtected(old(packetStores), packetStores)
      ensures var d, p := request.data[..], old(request.readPosition);
        var circular := storeType.Circular?;
        if !request.IsTc(15, if circular then 26 else 27) then packetStores == old(packetStores)
        else
          && packetStores == Handled(if circular then ToCircular else ToBounded, old(packetStores), d, p)
          && request.errors ==
               old(request.errors) + IdErrors(d, p) + RetypeRefusal(old(packetStores), IdAt(d, p))
    {
      NothingChanged(packetStores);
      hide IdAt, AfterId, IdErrors, ReadErrors, AllOrdered, ValidStores, AllProtected, Handled, NumberAt;
      hide Retyped, RetypeRefusal;
      var ok := request.AssertTc(15, if storeType.Circular? then 26 else 27);
      if !ok {
        return;
      }
      RetypedSafe(packetStores, request.data[..], request.readPosition, storeType);
      var idToChange := ReadPacketStoreId(request);
      Retype(idToChange, storeType, request);
    }

    method Retype(idToChange: Id, storeType: StoreType, request: Message)
      modifies this`packetStores, request`errors
      ensures packetStores == Retyped(old(packetStores), idToChange, storeType)
      ensures request.errors == old(request.errors) + RetypeRefusal(old(packetStores), idToChange)
    {
      if idToChange !in packetStores {
        request.errors := request.errors + [NonExistingPacketStore];
        return;
      }
      var store := packetStores[idToChange];
      if store.storageStatus {
        request.errors := request.errors + [GetPacketStoreWithStorageStatusEnabled];
        return;
      }
      if store.byTimeRangeRetrieval {
        request.errors := request.errors + [GetPacketStoreWithByTimeRangeRetrieval];
        return;
      }
      if store.openRetrievalInProgress {
        request.errors := request.errors + [GetPacketStoreWithOpenRetrievalInProgress];
        return;
      }
      packetStores := packetStores[idToChange := store.(storeType := storeType)];
    }

    /** TC[15,28]. */
    method ChangeVirtualChannel(request: Message)
      requires Valid() && request.Valid()
      modifies this`packetStores, request`readPosition, request`errors
      ensures Valid() && AllProtected(old(packetStores), packetStores)
      ensures var d, p := request.data[..], old(request.readPosition);
        var q := AfterId(d, p);
        if !request.IsTc(15, 28) then packetStores == old(packetStores)
        else
          && packetStores == Handled(ChangeChannel, old(packetStores), d, p)
          && request.errors == old(request.errors) + IdErrors(d, p) + ReadErrors(d, q, 1) +
               ChannelRefusal(old(packetStores), IdAt(d, p), ByteAt(d, q))
    {
      NothingChanged(packetStores);
      hide IdAt, AfterId, IdErrors, ReadErrors, AllOrdered, ValidStores, AllProtected, Handled, NumberAt;
      hide Rechanneled, ChannelRefusal;
      var ok := request.AssertTc(15, 28);
      if !ok {
        return;
      }
      RechanneledSafe(packetStores, request.data[..], request.readPosition);
      var idToChange := ReadPacketStoreId(request);
      var virtualChannel := request.ReadByte();
      Rechannel(idToChange, virtualChannel, request);
    }

    method Rechannel(idToChange: Id, virtualChannel: byte, request: Message)
      modifies this`packetStores, request`errors
      ensures packetStores == Rechanneled(old(packetStores), idToChange, virtualChannel)
      ensures request.errors == old(request.errors) + ChannelRefusal(old(packetStores), idToChange, virtualChannel)
    {
      if idToChange !in packetStores {
        request.errors := request.errors + [NonExistingPacketStore];
        return;
      }
      var store := packetStores[idToChange];
      if virtualChannel < MIN_CHANNEL || virtualChannel > MAX_CHANNEL {
        request.errors := request.errors + [InvalidVirtualChannel];
        return;
      }
      if store.byTimeRangeRetrieval {
        request.errors := request.errors + [GetPacketStoreWithByTimeRangeRetrieval];
        return;
      }
      if store.openRetrievalInProgress {
        request.errors := request.errors + [GetPacketStoreWithOpenRetrievalInProgress];
        return;
      }
      packetStores := packetStores[idToChange := store.(virtualChannel := virtualChannel)];
    }

    /** `failedFromTagToTag`, `failedAfterTimeTag` and `failedBeforeTimeTag`. */
    method FailedCopy(source: Id, target: Id, w: Window, request: Message) returns (failed: bool)
      requires CopyDefined(packetStores, source, target, w)
      modifies request`errors
      ensures failed == (CopyRefusal(packetStores, source, target, w) != [])
      ensures request.errors == old(request.errors) + CopyRefusal(packetStores, source, target, w)
    {
      failed := true;
      if source !in packetStores || target !in packetStores {
        request.errors := request.errors + [NonExistingPacketStore];
        return;
      }
      if w.FromTo? && w.start >= w.end {
        request.errors := request.errors + [InvalidTimeWindow];
        return;
      }
      if packetStores[target].packets != [] {
        request.errors := request.errors + [DestinationPacketStoreNotEmpty];
        return;
      }
      if NoTimestamp(packetStores[source].packets, w) {
        request.errors := request.errors + [CopyOfPacketsFailed];
        return;
      }
      failed := false;
    }

    /** `copyFromTagToTag`. */
    method CopyFromTagToTag(source: Id, target: Id, startTime: Ticks, endTime: Ticks, request: Message)
      requires CopyDefined(packetStores, source, target, FromTo(startTime, endTime))
      modifies this`packetStores, request`errors
      ensures packetStores == CopiedInto(old(packetStores), source, target, FromTo(startTime, endTime))
      ensures request.errors ==
        old(request.errors) + CopyRefusal(old(packetStores), source, target, FromTo(startTime, endTime))
    {
      ghost var w, before := FromTo(startTime, endTime), packetStores;
      var failed := FailedCopy(source, target, FromTo(startTime, endTime), request);
      if failed {
        return;
      }
      ghost var reported := request.errors;
      hide CopyRefusal, Copied, Copying, CopiedInto;
      var packets, i := packetStores[source].packets, 0;
      CopyStarts(packetStores, source, target, w);
      while i < |packets|
        invariant i <= |packets| && request.errors == reported
        invariant Copying(before, target, packets, w, i, packetStores)
      {
        ghost var last := packetStores;
        CopyNext(before, target, packets, w, i, last);
        if packets[i].time < startTime {
          i := i + 1;
          continue;
        }
        if packets[i].time > endTime {
          break;
        }
        packetStores := Pushed(packetStores, target, packets[i]);
        i := i + 1;
      }
      CopyEnds(before, source, target, w, i, packetStores);
    }

    /** `copyAfterTimeTag`. */
    method CopyAfterTimeTag(source: Id, target: Id, startTime: Ticks, request: Message)
      requires CopyDefined(packetStores, source, target, From(startTime))
      modifies this`packetStores, request`errors
      ensures packetStores == CopiedInto(old(packetStores), source, target, From(startTime))
      ensures request.errors == old(request.errors) + CopyRefusal(old(packetStores), source, target, From(startTime))
    {
      ghost var w, before := From(startTime), packetStores;
      var failed := FailedCopy(source, target, From(startTime), request);
      if failed {
        return;
      }
      ghost var reported := request.errors;
      hide CopyRefusal, Copied, Copying, CopiedInto;
      var packets, i := packetStores[source].packets, 0;
      CopyStarts(packetStores, source, target, w);
      while i < |packets|
        invariant i <= |packets| && request.errors == reported
        invariant Copying(before, target, packets, w, i, packetStores)
      {
        ghost var last := packetStores;
        CopyNext(before, target, packets, w, i, last);
        if packets[i].time < startTime {
          i := i + 1;
          continue;
        }
        packetStores := Pushed(packetStores, target, packets[i]);
        i := i + 1;
      }
      CopyEnds(before, source, target, w, i, packetStores);
    }

    /** `copyBeforeTimeTag`. */
    method CopyBeforeTimeTag(source: Id, target: Id, endTime: Ticks, request: Message)
      requires CopyDefined(packetStores, source, target, Until(endTime))
      modifies this`packetStores, request`errors
      ensures packetStores == CopiedInto(old(packetStores), source, target, Until(endTime))
      ensures request.errors == old(request.errors) + CopyRefusal(old(packetStores), source, target, Until(endTime))
    {
      ghost var w, before := Until(endTime), packetStores;
      var failed := FailedCopy(source, target, Until(endTime), request);
      if failed {
        return;
      }
      ghost var reported := request.errors;
      hide CopyRefusal, Copied, Copying, CopiedInto;
      var packets, i := packetStores[source].packets, 0;
      CopyStarts(packetStores, source, target, w);
      while i < |packets|
        invariant i <= |packets| && request.errors == reported
        invariant Copying(before, target, packets, w, i, packetStores)
      {
        ghost var last := packetStores;
        CopyNext(before, target, packets, w, i, last);
        if packets[i].time > endTime {
          break;
        }
        packetStores := Pushed(packetStores, target, packets[i]);
        i := i + 1;
      }
      CopyEnds(before, source, target, w, i, packetStores);
    }

    /** TC[15,24]. */
    method CopyPacketsInTimeWindow(request: Message)
      requires Valid() && request.Valid()
      requires WindowDefined(packetStores, request.data[..], request.readPosition)
      modifies this`packetStores, request`readPosition, request`errors
      ensures Valid() && AllProtected(old(packetStores), packetStores)
      ensures !request.IsTc(15, 24) ==> packetStores == old(packetStores)
      ensures request.IsTc(15, 24) ==>
        && packetStores == Handled(CopyWindow, old(packetStores), request.data[..], old(request.readPosition))
        && Now(request) == CopyWhole(request.data[..], old(Now(request)))
    {
      NothingChanged(packetStores);
      CopyHandled(request.data[..], Now(request));
      hide Handled, AllOrdered, ValidStores, AllProtected, CopyWhole, WindowDefined;
      var ok := request.AssertTc(15, 24);
      if ok {
        assert request.errors == old(request.errors);
        CopyRequest(request);
      }
    }

    /** The switch over the types of window. */
    method CopyRequest(request: Message)
      requires request.Valid() && WindowDefined(packetStores, request.data[..], request.readPosition)
      modifies this`packetStores, request`readPosition, request`errors
      ensures Now(request) == CopyWhole(request.data[..], old(Now(request)))
    {
      hide CopyRun, CopyRequestDefined;
      var typeOfTimeWindow := request.ReadByte();
      if typeOfTimeWindow < 3 {
        CopyOfType(request, typeOfTimeWindow);
      } else {
        request.errors := request.errors + [InvalidTimeWindow];
      }
    }

    method CopyOfType(request: Message, typeOfTimeWindow: byte)
      requires request.Valid() && typeOfTimeWindow < 3
      requires CopyRequestDefined(packetStores, request.data[..], request.readPosition, typeOfTimeWindow)
      modifies this`packetStores, request`readPosition, request`errors
      ensures Now(request) == CopyRun(request.data[..], old(Now(request)), typeOfTimeWindow)
    {
      hide CopyRun, CopyRequestDefined;
      match typeOfTimeWindow
      case 0 => ReadAndCopyFromTagToTag(request);
      case 1 => ReadAndCopyAfterTimeTag(request);
      case 2 => ReadAndCopyBeforeTimeTag(request);
    }

    /** The arguments of `copyFromTagToTag`. */
    method ReadAndCopyFromTagToTag(request: Message)
      requires request.Valid() && CopyRequestDefined(packetStores, request.data[..], request.readPosition, 0)
      modifies this`packetStores, request`readPosition, request`errors
      ensures Now(request) == CopyRun(request.data[..], old(Now(request)), 0)
    {
      hide IdAt, AfterId, IdErrors, ReadErrors, NumberAt, After, CopiedInto, CopyDefined;
      var startTime := request.ReadWord();
      var endTime := request.ReadWord();
      var source := ReadPacketStoreId(request);
      var target := ReadPacketStoreId(request);
      CopyFromTagToTag(source, target, startTime, endTime, request);
    }

    /** The arguments of `copyAfterTimeTag`. */
    method ReadAndCopyAfterTimeTag(request: Message)
      requires request.Valid() && CopyRequestDefined(packetStores, request.data[..], request.readPosition, 1)
      modifies this`packetStores, request`readPosition, request`errors
      ensures Now(request) == CopyRun(request.data[..], old(Now(request)), 1)
    {
      hide IdAt, AfterId, IdErrors, ReadErrors, NumberAt, After, CopiedInto, CopyDefined;
      var startTime := request.ReadWord();
      var source := ReadPacketStoreId(request);
      var target := ReadPacketStoreId(request);
      CopyAfterTimeTag(source, target, startTime, request);
    }

    /** The arguments of `copyBeforeTimeTag`. */
    method ReadAndCopyBeforeTimeTag(request: Message)
      requires request.Valid() && CopyRequestDefined(packetStores, request.data[..], request.readPosition, 2)
      modifies this`packetStores, request`readPosition, request`errors
      ensures Now(request) == CopyRun(request.data[..], old(Now(request)), 2)
    {
      hide IdAt, AfterId, IdErrors, ReadErrors, NumberAt, After, CopiedInto, CopyDefined;
      var endTime := request.ReadWord();
      var source := ReadPacketStoreId(request);
      var target := ReadPacketStoreId(request);
      CopyBeforeTimeTag(source, target, endTime, request);
    }
  }

  /** The source looks at the first and last packet of the store it copies from, so that store must
      not be empty when a copy request gets as far as that. */
  predicate WindowDefined(stores: Stores, d: seq<byte>, p: nat)
  {
    ByteAt(d, p) < 3 ==> CopyRequestDefined(stores, d, After(d, p, 1), ByteAt(d, p))
  }

  /** The state after the type of the window was read. */
  ghost function PastByte(d: seq<byte>, s: State): State
  {
    State(s.stores, After(d, s.position, 1), s.errors + ReadErrors(d, s.position, 1))
  }

  /** The state after a copy request. */
  ghost function CopyWhole(d: seq<byte>, s: State): State
  {
    var kind, q := ByteAt(d, s.position), PastByte(d, s);
    if kind < 3 then CopyRun(d, q, kind) else q.(errors := q.errors + [InvalidTimeWindow])
  }

  /** The state after a copy request whose arguments begin at the read position. */
  ghost function CopyRun(d: seq<byte>, s: State, kind: byte): State
    requires kind < 3
  {
    State(CopyRequested(s.stores, d, s.position, kind), CopyRequestEnd(d, s.position, kind),
          s.errors + CopyRequestErrors(s.stores, d, s.position, kind))
  }

  /** Where a copy request ends. */
  function CopyRequestEnd(d: seq<byte>, p: nat, kind: byte): nat
    requires kind < 3
  {
    AfterId(d, AfterId(d, WindowAt(d, p, kind).1))
  }

  /** What a copy request reports: on reading its times and ids, and on checking them. */
  function CopyRequestErrors(stores: Stores, d: seq<byte>, p: nat, kind: byte): seq<Error>
    requires kind < 3
  {
    var (w, r) := WindowAt(d, p, kind);
    var t := AfterId(d, r);
    ReadErrors(d, p, 4) + (if kind == 0 then ReadErrors(d, After(d, p, 4), 4) else []) +
    IdErrors(d, r) + IdErrors(d, t) + CopyRefusal(stores, IdAt(d, r), IdAt(d, t), w)
  }

  predicate CopyRequestDefined(stores: Stores, d: seq<byte>, p: nat, kind: byte)
    requires kind < 3
  {
    var (w, r) := WindowAt(d, p, kind);
    CopyDefined(stores, IdAt(d, r), IdAt(d, AfterId(d, r)), w)
  }

  /** In the middle of a copy loop: what the target has and what is still to come make up the copy. */
  ghost predicate Copying(before: Stores, target: Id, packets: Packets, w: Window, i: nat, now: Stores)
    requires i <= |packets|
  {
    && target in before && target in now
    && now == before[target := before[target].(packets := now[target].packets)]
    && now[target].packets + Copied(packets[i..], w) == Copied(packets, w)
  }

  /** A packet pushed to the back of a store. */
  function Pushed(stores: Stores, id: Id, item: Stored): Stores
    requires id in stores
  {
    stores[id := stores[id].(packets := stores[id].packets + [item])]
  }

  lemma CopyStarts(stores: Stores, source: Id, target: Id, w: Window)
    requires CopyRefusal(stores, source, target, w) == []
    ensures source in stores && Copying(stores, target, stores[source].packets, w, 0, stores)
  {
    hide Copied;
    assert stores[source].packets[0..] == stores[source].packets;
    assert stores == stores[target := stores[target].(packets := stores[target].packets)];
  }

  /** One packet of a copy loop: passed over, pushed, or the end. */
  lemma CopyNext(before: Stores, target: Id, packets: Packets, w: Window, i: nat, now: Stores)
    requires i < |packets| && Copying(before, target, packets, w, i, now)
    ensures target in now
    ensures TooEarly(w, packets[i].time) ==> Copying(before, target, packets, w, i + 1, now)
    ensures Inside(w, packets[i].time) ==>
      Copying(before, target, packets, w, i + 1, Pushed(now, target, packets[i]))
  {
    assert packets[i..][1..] == packets[i + 1..] && packets[i..][0] == packets[i];
  }

  lemma CopyEnds(before: Stores, source: Id, target: Id, w: Window, i: nat, now: Stores)
    requires CopyRefusal(before, source, target, w) == [] && i <= |before[source].packets|
    requires Copying(before, target, before[source].packets, w, i, now)
    requires i < |before[source].packets| ==>
      !TooEarly(w, before[source].packets[i].time) && TooLate(w, before[source].packets[i].time)
    ensures now == CopiedInto(before, source, target, w)
  {
    var tail := before[source].packets[i..];
    assert tail != [] ==> tail[0] == before[source].packets[i];
    assert Copied(tail, w) == [];
    hide Copied;
    assert now[target].packets + [] == now[target].packets;
  }

  /** In the collecting loop: the deletable stores that are not `left`. */
  ghost predicate Collected(stores: Stores, left: set<Id>, ids: seq<Id>)
  {
    forall id :: id in ids <==> id in stores && id !in left && DeleteRefusal(stores[id]) == []
  }

  lemma NothingCollected(stores: Stores)
    ensures Collected(stores, stores.Keys, []) && StartOfOrder(stores.Keys) && Refusals(DeleteStore, stores, []) == []
  {
    hide DeleteRefusal;
  }

  lemma OneCollected(stores: Stores, left: set<Id>, ids: seq<Id>, id: Id)
    requires Collected(stores, left, ids) && id in left && id in stores
    ensures Collected(stores, left - {id}, if DeleteRefusal(stores[id]) == [] then ids + [id] else ids)
  {
    hide DeleteRefusal;
  }

  lemma AllCollected(stores: Stores, ids: seq<Id>)
    requires Collected(stores, {}, ids)
    ensures (set id | id in ids) == Deletable(stores)
  {
    hide DeleteRefusal;
  }

  // ----- the order of the map

  function SignedByte(b: byte): int
  {
    if b < 0x80 then b else b - 0x100
  }

  /** The order of the ids in the map: lexicographic, by characters, which are signed. */
  predicate Precedes(a: Id, b: Id)
  {
    if b == [] then false
    else if a == [] then true
    else if a[0] != b[0] then SignedByte(a[0]) < SignedByte(b[0])
    else Precedes(a[1..], b[1..])
  }

  lemma {:induction false} PrecedesOneWay(a: Id, b: Id)
    ensures a != b <==> (Precedes(a, b) || Precedes(b, a))
    ensures !(Precedes(a, b) && Precedes(b, a))
    decreases |a|
  {
    if a != [] && b != [] && a[0] == b[0] {
      PrecedesOneWay(a[1..], b[1..]);
      assert a == [a[0]] + a[1..] && b == [b[0]] + b[1..];
    }
  }

  lemma {:induction false} PrecedesTrans(a: Id, b: Id, c: Id)
    requires Precedes(a, b) && Precedes(b, c)
    ensures Precedes(a, c)
    decreases |a|
  {
    if a != [] && a[0] == b[0] == c[0] {
      PrecedesTrans(a[1..], b[1..], c[1..]);
    }
  }

  lemma {:induction false} LeastId(ids: set<Id>) returns (least: Id)
    requires ids != {}
    ensures least in ids && forall other :: other in ids && other != least ==> Precedes(least, other)
  {
    hide Precedes;
    var id :| id in ids;
    least := id;
    var rest := ids - {id};
    assert ids == rest + {id};
    if rest != {} {
      var m := LeastId(rest);
      PrecedesOneWay(id, m);
      if Precedes(m, id) {
        least := m;
      } else {
        forall other | other in rest
          ensures Precedes(id, other)
        {
          if other != m {
            PrecedesTrans(id, m, other);
          }
        }
      }
    }
  }

  /** The state after a time was read. */
  ghost function PastTime(d: seq<byte>, s: State): State
  {
    State(s.stores, After(d, s.position, 4), s.errors + ReadErrors(d, s.position, 4))
  }

  /** In the loop over all stores: those `left` are as they were, the others acted on. */
  predicate PartlyActed(action: Action, before: Stores, left: set<Id>, now: Stores)
  {
    && now.Keys == before.Keys
    && forall id :: id in before ==> now[id] == if id in left then before[id] else Acted(action, before[id])
  }

  lemma NothingActed(action: Action, stores: Stores)
    ensures PartlyActed(action, stores, stores.Keys, stores)
    ensures StartOfOrder(stores.Keys) && Refusals(Act(action), stores, []) == []
  {
  }

  lemma OneActed(action: Action, before: Stores, left: set<Id>, now: Stores, id: Id)
    requires PartlyActed(action, before, left, now) && id in left && left <= before.Keys
    ensures id in now && now[id] == before[id]
    ensures PartlyActed(action, before, left - {id}, now[id := Acted(action, now[id])])
  {
    hide Acted;
  }

  lemma AllActed(action: Action, before: Stores, now: Stores)
    requires PartlyActed(action, before, {}, now)
    ensures now == ActedAll(action, before)
  {
    hide Acted;
  }

  /** Every key once, in increasing order. */
  ghost predicate IsOrder(order: seq<Id>, keys: set<Id>)
  {
    && (forall id :: id in order <==> id in keys)
    && forall i, j :: 0 <= i < j < |order| ==> Precedes(order[i], order[j])
  }

  ghost predicate AllPrecede(keys: set<Id>, others: set<Id>)
  {
    forall a, b :: a in keys && b in others ==> Precedes(a, b)
  }

  ghost predicate StartOfOrder(keys: set<Id>)
  {
    IsOrder([], keys - keys) && AllPrecede(keys - keys, keys)
  }

  lemma OrderNext(order: seq<Id>, keys: set<Id>, left: set<Id>, id: Id)
    requires IsOrder(order, keys) && AllPrecede(keys, left)
    requires id in left && forall other :: other in left && other != id ==> Precedes(id, other)
    ensures IsOrder(order + [id], keys + {id}) && AllPrecede(keys + {id}, left - {id})
  {
    forall i, j | 0 <= i < j < |order + [id]|
      ensures Precedes((order + [id])[i], (order + [id])[j])
    {
      assert order[i] in keys;
    }
  }

  /** There is only one such order. */
  lemma {:induction false} OrderUnique(a: seq<Id>, b: seq<Id>, keys: set<Id>)
    requires IsOrder(a, keys) && IsOrder(b, keys)
    ensures a == b
    decreases |a|
  {
    hide Precedes;
    EmptyOrder(a, keys);
    EmptyOrder(b, keys);
    if a != [] {
      assert a[0] in a;
      var i :| 0 <= i < |b| && b[i] == a[0];
      assert b[0] in b;
      var j :| 0 <= j < |a| && a[j] == b[0];
      if a[0] != b[0] {
        PrecedesOneWay(a[0], b[0]);
      }
      RestIsOrder(a, keys);
      RestIsOrder(b, keys);
      OrderUnique(a[1..], b[1..], keys - {a[0]});
    }
  }

  lemma EmptyOrder(order: seq<Id>, keys: set<Id>)
    requires IsOrder(order, keys)
    ensures order == [] <==> keys == {}
  {
    if order == [] {
      assert forall id :: id in keys ==> id in order;
    } else {
      assert order[0] in order;
    }
  }

  lemma RestIsOrder(order: seq<Id>, keys: set<Id>)
    requires IsOrder(order, keys) && order != []
    ensures IsOrder(order[1..], keys - {order[0]})
  {
    forall id
      ensures id in order[1..] <==> id in keys - {order[0]}
    {
      if id in order[1..] {
        var i :| 0 <= i < |order[1..]| && order[1..][i] == id;
        assert order[i + 1] == id && id in order;
        PrecedesOneWay(order[0], id);
      } else if id in order {
        assert order == [order[0]] + order[1..];
      }
    }
  }

  /** What an instruction on an existing store reports. */
  function RefusalOf(i: Instruction, s: PacketStore): seq<Error>
  {
    match i
    case Act(action) => Refusal(action, s)
    case DeleteStore => DeleteRefusal(s)
    case _ => []
  }

  /** What the instruction reports about the stores, in the given order. */
  function Refusals(i: Instruction, stores: Stores, order: seq<Id>): seq<Error>
  {
    if order == [] then []
    else
      var id := order[|order| - 1];
      Refusals(i, stores, order[..|order| - 1]) + if id in stores then RefusalOf(i, stores[id]) else []
  }

  lemma RefusalsNext(i: Instruction, stores: Stores, order: seq<Id>, id: Id)
    requires id in stores
    ensures Refusals(i, stores, order + [id]) == Refusals(i, stores, order) + RefusalOf(i, stores[id])
  {
    assert (order + [id])[..|order|] == order;
    hide RefusalOf;
  }

  /** What a request that acts on all stores, or on listed ones, does: the stores, the read
      position and the reports, those about all stores in the order of their ids. */
  ghost predicate Executed(action: Action, d: seq<byte>, s: State, s': State)
  {
    var p, n := s.position, HalfAt(d, s.position);
    && s'.stores == ActedOn(action, s.stores, d, p)
    && (n == 0 ==> s'.position == After(d, p, 2) && exists order :: Reported(Act(action), d, s, s', order))
    && (n != 0 ==> Read(Act(action), d, s, s'))
  }

  /** What a request to delete stores does, all of them or listed ones. */
  ghost predicate Deleted(d: seq<byte>, s: State, s': State)
  {
    if HalfAt(d, s.position) != 0 then Read(DeleteStore, d, s, s')
    else
      && s'.stores == s.stores - Deletable(s.stores) && s'.position == After(d, s.position, 2)
      && exists order :: Reported(DeleteStore, d, s, s', order)
  }

  ghost predicate Reported(i: Instruction, d: seq<byte>, s: State, s': State, order: seq<Id>)
  {
    && IsOrder(order, s.stores.Keys)
    && s'.errors == s.errors + ReadErrors(d, s.position, 2) + Refusals(i, s.stores, order)
  }

  /** `s'` follows `s` by reading a count and that many instructions. */
  ghost predicate Read(i: Instruction, d: seq<byte>, s: State, s': State)
  {
    s' == Instructions(i, d, State(s.stores, After(d, s.position, 2), s.errors + ReadErrors(d, s.position, 2)),
                       HalfAt(d, s.position))
  }

  /** Reading and following instructions is safe, whatever was reported before. */
  lemma ReadSafe(i: Instruction, d: seq<byte>, s: State, s': State)
    requires Read(i, d, s, s')
    ensures Inherited(s.stores, s'.stores) && AllProtected(s.stores, s'.stores)
    ensures s'.stores == Instructions(i, d, State(s.stores, After(d, s.position, 2), []), HalfAt(d, s.position)).stores
  {
    hide ReadErrors, ValidStores, AllProtected, Effect, Instructed, After, HalfAt;
    var start := State(s.stores, After(d, s.position, 2), s.errors + ReadErrors(d, s.position, 2));
    var off := i.Act? && SwitchesOff(i.action);
    InstructionsEffect(i, d, start, HalfAt(d, s.position));
    Result(off, s.stores, s'.stores);
    StatesAgree(i, d, start, State(s.stores, After(d, s.position, 2), []), HalfAt(d, s.position));
  }

  lemma RetypedSafe(stores: Stores, d: seq<byte>, p: nat, storeType: StoreType)
    ensures var stores' := Retyped(stores, IdAt(d, p), storeType);
      && Inherited(stores, stores') && AllProtected(stores, stores')
      && Handled(if storeType.Circular? then ToCircular else ToBounded, stores, d, p) == stores'
  {
    hide Effect;
    RetypedEffect(stores, IdAt(d, p), storeType);
    Result(false, stores, Retyped(stores, IdAt(d, p), storeType));
  }

  lemma RechanneledSafe(stores: Stores, d: seq<byte>, p: nat)
    ensures var stores' := Rechanneled(stores, IdAt(d, p), ByteAt(d, AfterId(d, p)));
      && Inherited(stores, stores') && AllProtected(stores, stores')
      && Handled(ChangeChannel, stores, d, p) == stores'
  {
    hide Effect;
    RechanneledEffect(stores, IdAt(d, p), ByteAt(d, AfterId(d, p)));
    Result(false, stores, Rechanneled(stores, IdAt(d, p), ByteAt(d, AfterId(d, p))));
  }

  /** A copy request is safe, and is what the request's step in a run does. */
  lemma CopyHandled(d: seq<byte>, s: State)
    ensures var stores' := Handled(CopyWindow, s.stores, d, s.position);
      CopyWhole(d, s).stores == stores' && Inherited(s.stores, stores') && AllProtected(s.stores, stores')
  {
    HandledSafe(CopyWindow, s.stores, d, s.position);
    hide Inherited, AllProtected, CopyRequested, CopyRequestEnd, CopyRequestErrors;
  }

  /** Acting on all or on listed stores is what the request's step in a run does. */
  lemma ActionHandled(r: Request, stores: Stores, d: seq<byte>, p: nat)
    requires r.EnableStorage? || r.DisableStorage? || r.DeleteContent? || r.ChangeStartTag? || r.Resume? ||
             r.Suspend? || r.Abort?
    ensures var (a, q) := ActionOf(r, d, p); Handled(r, stores, d, p) == ActedOn(a, stores, d, q)
  {
    hide ActedOn, ActionOf;
  }

  /** Following listed instructions is what the request's step in a run does. */
  lemma ListHandled(r: Request, i: Instruction, stores: Stores, d: seq<byte>, p: nat)
    requires
      (r, i) == (StartByTimeRange, StartRange) || (r, i) == (ResizeStores, Resize) || (r, i) == (Delete, DeleteStore)
    ensures r == Delete && HalfAt(d, p) == 0 ==> Handled(r, stores, d, p) == stores - Deletable(stores)
    ensures !(r == Delete && HalfAt(d, p) == 0) ==>
      Handled(r, stores, d, p) == Instructions(i, d, State(stores, After(d, p, 2), []), HalfAt(d, p)).stores
  {
    hide Instructions, Deletable;
  }

  /** Creating is safe, and is what the request's step in a run does, whatever was reported before. */
  lemma CreateHandled(stores: Stores, d: seq<byte>, p: nat, errors: seq<Error>)
    ensures var s := Creations(d, State(stores, After(d, p, 2), errors + ReadErrors(d, p, 2)), HalfAt(d, p));
      s.stores == Handled(Create, stores, d, p) && Inherited(stores, s.stores) && AllProtected(stores, s.stores)
  {
    hide Creations, Effect, ReadErrors, After, NumberAt;
    var q, n := After(d, p, 2), HalfAt(d, p);
    var start := State(stores, q, errors + ReadErrors(d, p, 2));
    CreationsEffect(d, start, n);
    Result(false, stores, Creations(d, start, n).stores);
    CreationsAgree(d, start, State(stores, q, []), n);
  }

  lemma {:induction false} CreationsAgree(d: seq<byte>, s: State, t: State, n: nat)
    requires s.stores == t.stores && s.position == t.position
    ensures Creations(d, s, n).stores == Creations(d, t, n).stores
    decreases n
  {
    hide IdAt, AfterId, IdErrors, ReadErrors, After, NumberAt, Skipped;
    if n > 0 && |s.stores| < MAX_STORES {
      CreationsAgree(d, Creating(d, s), Creating(d, t), n - 1);
    }
  }

  lemma NothingChanged(stores: Stores)
    ensures AllProtected(stores, stores)
  {
  }

  lemma DeleteHandled(d: seq<byte>, s: State, s': State)
    requires Deleted(d, s, s')
    ensures s'.stores == Handled(Delete, s.stores, d, s.position)
  {
    hide Handled, Deletable, Instructions, HalfAt, ReadErrors, Reported;
    ListHandled(Delete, DeleteStore, s.stores, d, s.position);
    if HalfAt(d, s.position) != 0 {
      ReadSafe(DeleteStore, d, s, s');
    }
  }

  /** Acting on all stores or on listed ones is safe. */
  lemma ActedOnSafe(a: Action, d: seq<byte>, s: State)
    ensures var stores' := ActedOn(a, s.stores, d, s.position);
      Inherited(s.stores, stores') && AllProtected(s.stores, stores')
    ensures var stores' := ActedOn(a, s.stores, d, s.position);
      && (HalfAt(d, s.position) == 0 ==> stores' == ActedAll(a, s.stores))
      && forall s' :: HalfAt(d, s.position) != 0 && Read(Act(a), d, s, s') ==> s'.stores == stores'
  {
    hide ReadErrors, ValidStores, AllProtected, Effect, Instructed, After, HalfAt, ActedAll;
    var start := State(s.stores, After(d, s.position, 2), s.errors + ReadErrors(d, s.position, 2));
    ActedAllEffect(a, s.stores);
    Result(SwitchesOff(a), s.stores, ActedAll(a, s.stores));
    ReadSafe(Act(a), d, s, Instructions(Act(a), d, start, HalfAt(d, s.position)));
  }

  /** What was reported before does not matter to the stores. */
  lemma {:induction false} StatesAgree(i: Instruction, d: seq<byte>, s: State, t: State, n: nat)
    requires s.stores == t.stores && s.position == t.position
    ensures Instructions(i, d, s, n).stores == Instructions(i, d, t, n).stores
    decreases n
  {
    hide IdAt, AfterId, IdErrors, ReadErrors, After, NumberAt, Skipped, Acted, Refusal;
    if n > 0 {
      StatesAgree(i, d, Instructed(i, d, s), Instructed(i, d, t), n - 1);
    }
  }
}
