/** What the storage and retrieval service reports, and in which order. */
module StoreReports {
  import opened Bits
  import opened Errors
  import opened Messages
  import opened Windows
  import opened PacketStores
  import opened StoreEffects
  import opened StorageAndRetrieval

  /** The character a byte stands for: they are signed. */
  function Character(b: byte): int
  {
    (b as int + 0x80) % 0x100 - 0x80
  }

  lemma SignedCharacter(b: byte)
    ensures SignedByte(b) == Character(b)
  {
  }

  /** Two ids of one length are ordered by the first character in which they differ. */
  lemma {:induction false} FirstDifference(a: Id, b: Id, k: nat)
    requires k < |a| == |b| && a[..k] == b[..k] && a[k] != b[k]
    ensures Precedes(a, b) <==> Character(a[k]) < Character(b[k])
    decreases k
  {
    SignedCharacter(a[k]);
    SignedCharacter(b[k]);
    hide SignedByte, Character;
    if k > 0 {
      assert a[0] == a[..k][0] == b[0];
      assert a[1..][..k - 1] == a[..k][1..] && b[1..][..k - 1] == b[..k][1..];
      FirstDifference(a[1..], b[1..], k - 1);
    }
  }

  /** What a request about all stores reports for one of them; the reports come in the order of the ids. */
  lemma ReportsOfAll(r: Request, d: seq<byte>, w: nat, stores: Stores, order: seq<Id>, id: Id)
    requires Acts(r) && id in stores
    ensures var i := Act(ActionOf(r, d, w).0);
      && Refusals(i, stores, []) == []
      && Refusals(i, stores, order + [id]) == Refusals(i, stores, order) + Complaint(r, stores[id])
    ensures Refusals(DeleteStore, stores, []) == []
    ensures Refusals(DeleteStore, stores, order + [id]) == Refusals(DeleteStore, stores, order) +
      if stores[id].storageStatus then [DeletionOfPacketStoreWithStorageStatusEnabled]
      else if stores[id].byTimeRangeRetrieval then [DeletionOfPacketWithByTimeRangeRetrieval]
      else if stores[id].openRetrievalInProgress then [DeletionOfPacketWithOpenRetrievalInProgress]
      else []
  {
    AllReport(r, d, w, stores[id]);
    RefusalsNext(Act(ActionOf(r, d, w).0), stores, order, id);
    RefusalsNext(DeleteStore, stores, order, id);
    hide ActionOf, Refusal, Complaint;
  }

  /** Where a copy request ends, and what it reports: the type of the window, its times, and two ids. */
  lemma CopyRequestRead(d: seq<byte>, s: State)
    requires s.position + 39 <= |d|
    ensures var p, kind := s.position, ByteAt(d, s.position);
      var next, q := CopyWhole(d, s), IdsAt(kind, p);
      if kind >= 3 then next == State(s.stores, p + 1, s.errors + [InvalidTimeWindow])
      else
        && next.position == q + 30
        && next.errors == s.errors +
             CopyRefusal(s.stores, IdBytes(d, q), IdBytes(d, q + 15), WindowAt(d, p + 1, kind).0)
  {
    hide ByteAt, WordAt, IdBytes, IdAt, AfterId, IdErrors, CopyRefusal, CopyRequested;
    var p, kind := s.position, ByteAt(d, s.position);
    assert s.errors + [] == s.errors;
    if kind < 3 {
      var q := IdsAt(kind, p);
      WindowRead(d, p + 1, kind, 0);
      IdExact(d, q);
      IdExact(d, q + 15);
      hide WindowAt;
      assert CopyRequestEnd(d, p + 1, kind) == q + 30;
    }
  }

  /** A request about all stores ends behind its count, and the reports about the stores come in the order
      of their ids; a request with a list is its instructions, one after the other. */
  lemma RequestReports(r: Request, d: seq<byte>, w: nat, s: State, s': State)
    requires Acts(r) && s.position + 2 <= |d| && Executed(ActionOf(r, d, w).0, d, s, s')
    ensures var n, i := HalfAt(d, s.position), Act(ActionOf(r, d, w).0);
      if n == 0 then
        && s'.position == s.position + 2
        && exists order :: IsOrder(order, s.stores.Keys) && s'.errors == s.errors + Refusals(i, s.stores, order)
      else s' == Instructions(i, d, State(s.stores, s.position + 2, s.errors), n)
  {
    ReportsBehind(Act(ActionOf(r, d, w).0), d, s, s');
    hide ActedOn, ActionOf, HalfAt, IsOrder, Refusals, Instructions;
    assert s.errors + [] == s.errors;
  }

  lemma ReportsBehind(i: Instruction, d: seq<byte>, s: State, s': State)
    requires s.position + 2 <= |d|
    ensures forall order :: Reported(i, d, s, s', order) ==>
      IsOrder(order, s.stores.Keys) && s'.errors == s.errors + Refusals(i, s.stores, order)
  {
    hide IsOrder, Refusals;
    assert s.errors + [] == s.errors;
  }

  /** Likewise a request to delete stores. */
  lemma DeletionReports(d: seq<byte>, s: State, s': State)
    requires s.position + 2 <= |d| && Deleted(d, s, s')
    ensures var n := HalfAt(d, s.position);
      if n == 0 then
        && s'.position == s.position + 2
        && exists order ::
             IsOrder(order, s.stores.Keys) && s'.errors == s.errors + Refusals(DeleteStore, s.stores, order)
      else s' == Instructions(DeleteStore, d, State(s.stores, s.position + 2, s.errors), n)
  {
    ReportsBehind(DeleteStore, d, s, s');
    hide HalfAt, IsOrder, Refusals, Instructions, Deletable;
    assert s.errors + [] == s.errors;
  }

  /** A request that starts retrievals or resizes stores is its instructions. */
  lemma ListReports(i: Instruction, d: seq<byte>, s: State, s': State)
    requires s.position + 2 <= |d| && Read(i, d, s, s')
    ensures s' == Instructions(i, d, State(s.stores, s.position + 2, s.errors), HalfAt(d, s.position))
  {
    hide HalfAt, Instructions;
    assert s.errors + [] == s.errors;
  }

  /** Every store is in the order once, and of two ids with a common beginning the one with the smaller
      character behind it comes first. */
  lemma InIdOrder(order: seq<Id>, keys: set<Id>, i: nat, j: nat, k: nat)
    requires IsOrder(order, keys) && i < |order| && j < |order|
    requires k < |order[i]| == |order[j]| && order[i][..k] == order[j][..k]
    requires Character(order[i][k]) < Character(order[j][k])
    ensures i < j
    ensures forall id :: id in order <==> id in keys
  {
    FirstDifference(order[i], order[j], k);
    PrecedesOneWay(order[i], order[j]);
    hide Precedes, Character;
  }
}
