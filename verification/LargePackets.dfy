/** Splitting a large message into downlink parts, section 6.13 of ECSS-E-ST-70-41C. */
module LargePackets {
  import opened Bits
  import opened Messages
  import opened Parser

  const PART_SIZE := 256

  /** What a part report carries: transaction, part number, length and bytes. */
  function PartReport(messageType: byte, transaction: uint16, part: uint16, string': seq<byte>): Packet
  {
    Packet(TM, 13, messageType, DEFAULT_APPLICATION_ID, 0, 0, 0,
           BytesOf(transaction, 2) + BytesOf(part, 2) + BytesOf(|string'|, 2) + string')
  }

  /** The `k`th slice of a buffer. */
  function Part(d: seq<byte>, k: nat): (s: seq<byte>)
    requires PART_SIZE * (k + 1) <= |d|
    ensures |s| == PART_SIZE
  {
    d[PART_SIZE * k..PART_SIZE * (k + 1)]
  }

  /** The intermediate reports with numbers from 1 to `n - 1`. */
  function Intermediate(d: seq<byte>, transaction: uint16, n: uint16): seq<Packet>
    requires PART_SIZE * n <= |d|
  {
    if n <= 1 then []
    else Intermediate(d, transaction, n - 1) + [PartReport(2, transaction, n - 1, Part(d, n - 1))]
  }

  /** The number of parts the source computes. */
  function Parts(size: nat): nat
  {
    size / PART_SIZE + 1
  }

  /** The number of the slice in the last report: always at least 1. */
  function LastSlice(size: nat): nat
  {
    if Parts(size) == 1 then 1 else Parts(size) - 1
  }

  /** The parts cover the message; the last read ends inside the buffer exactly when the message is
      not a full one. */
  lemma PartsInBuffer(size: nat)
    requires size <= MAX_MESSAGE_SIZE
    ensures size < PART_SIZE * (LastSlice(size) + 1)
    ensures PART_SIZE * (LastSlice(size) + 1) <= MAX_MESSAGE_SIZE <==> size < MAX_MESSAGE_SIZE
    ensures 1 <= LastSlice(size) <= 4 && 1 <= Parts(size) <= 5
  {
  }

  /** All reports of a split, in the order they are sent. */
  function SplitReports(d: seq<byte>, size: nat, transaction: uint16): seq<Packet>
    requires |d| == MAX_MESSAGE_SIZE && size < MAX_MESSAGE_SIZE
  {
    PartsInBuffer(size);
    [PartReport(1, transaction, 0, Part(d, 0))] + Intermediate(d, transaction, Parts(size) - 1) +
    [PartReport(3, transaction, Parts(size) - 1, Part(d, LastSlice(size)))]
  }

  // ----- reassembling

  /** The bytes a part report carries. */
  function Carried(report: Packet): seq<byte>
  {
    if |report.body| >= 6 then report.body[6..] else []
  }

  function PartNumber(report: Packet): nat
  {
    NumberAt(report.body, 2, 2)
  }

  /** The carried bytes, in order of arrival. */
  function Joined(reports: seq<Packet>): seq<byte>
  {
    if reports == [] then [] else Joined(reports[..|reports| - 1]) + Carried(reports[|reports| - 1])
  }

  /** A part report reads back as what it was made of. */
  lemma PartReadsBack(messageType: byte, transaction: uint16, part: uint16, string': seq<byte>)
    requires |string'| < 0x1_0000
    ensures var r := PartReport(messageType, transaction, part, string');
      && NumberAt(r.body, 0, 2) == transaction && PartNumber(r) == part
      && NumberAt(r.body, 4, 2) == |string'| && Carried(r) == string'
  {
    TwoRoundTrip(transaction);
    TwoRoundTrip(part);
    TwoRoundTrip(|string'|);
    hide BigEndian, BytesOf;
    var a, b, c := BytesOf(transaction, 2), BytesOf(part, 2), BytesOf(|string'|, 2);
    var body := a + b + c + string';
    assert body[0..2] == a && body[2..4] == b && body[4..6] == c && body[6..] == string';
  }

  lemma JoinedAppend(reports: seq<Packet>, r: Packet)
    ensures Joined(reports + [r]) == Joined(reports) + Carried(r)
  {
    assert (reports + [r])[..|reports|] == reports;
  }

  lemma NextSlice(d: seq<byte>, k: nat)
    requires PART_SIZE * (k + 1) <= |d|
    ensures d[..PART_SIZE * k] + Part(d, k) == d[..PART_SIZE * (k + 1)]
  {
  }

  function First(d: seq<byte>, transaction: uint16): seq<Packet>
    requires PART_SIZE <= |d|
  {
    [PartReport(1, transaction, 0, Part(d, 0))]
  }

  lemma JoinedFirst(d: seq<byte>, transaction: uint16)
    requires PART_SIZE <= |d|
    ensures Joined(First(d, transaction)) == d[..PART_SIZE]
  {
    var r := First(d, transaction)[0];
    PartReadsBack(1, transaction, 0, Part(d, 0));
    hide PartReport, Carried, Part;
    assert [] + First(d, transaction) == First(d, transaction);
    NoneJoined();
    hide Joined;
    JoinedAppend([], r);
    NextSlice(d, 0);
  }

  lemma NoneJoined()
    ensures Joined([]) == []
  {
  }

  lemma {:induction false} JoinedIntermediate(d: seq<byte>, transaction: uint16, n: uint16)
    requires 1 <= n && PART_SIZE * n <= |d|
    ensures Joined(First(d, transaction) + Intermediate(d, transaction, n)) == d[..PART_SIZE * n]
  {
    hide PartReport, Carried, Joined, First, Part;
    if n == 1 {
      JoinedFirst(d, transaction);
      assert First(d, transaction) + [] == First(d, transaction);
    } else {
      var before, last := Intermediate(d, transaction, n - 1), PartReport(2, transaction, n - 1, Part(d, n - 1));
      JoinedIntermediate(d, transaction, n - 1);
      assert First(d, transaction) + (before + [last]) == (First(d, transaction) + before) + [last];
      JoinedAppend(First(d, transaction) + before, last);
      PartReadsBack(2, transaction, n - 1, Part(d, n - 1));
      NextSlice(d, n - 1);
    }
  }

  lemma {:induction false} IntermediateNumbers(d: seq<byte>, transaction: uint16, n: uint16)
    requires 1 <= n && PART_SIZE * n <= |d|
    ensures |Intermediate(d, transaction, n)| == n - 1
    ensures forall i :: 0 <= i < n - 1 ==> PartNumber(Intermediate(d, transaction, n)[i]) == i + 1
  {
    hide PartReport, PartNumber, Part, Carried;
    if n > 1 {
      IntermediateNumbers(d, transaction, n - 1);
      PartReadsBack(2, transaction, n - 1, Part(d, n - 1));
    }
  }

  /** Reassembly: the parts joined in order of sending begin with the message. */
  lemma Reassembly(d: seq<byte>, size: nat, transaction: uint16)
    requires |d| == MAX_MESSAGE_SIZE && size < MAX_MESSAGE_SIZE
    ensures d[..size] <= Joined(SplitReports(d, size, transaction))
  {
    PartsInBuffer(size);
    SplitParts(d, size, transaction);
    hide PartReport, Joined, Intermediate, Part, First, LastSlice, Parts, SplitReports;
    JoinedLast(d, transaction, LastSlice(size), Parts(size) - 1);
    var whole := d[..PART_SIZE * (LastSlice(size) + 1)];
    assert whole[..size] == d[..size];
  }

  lemma JoinedLast(d: seq<byte>, transaction: uint16, slice: uint16, n: uint16)
    requires 1 <= slice && PART_SIZE * (slice + 1) <= |d|
    ensures Joined((First(d, transaction) + Intermediate(d, transaction, slice)) +
                   [PartReport(3, transaction, n, Part(d, slice))]) == d[..PART_SIZE * (slice + 1)]
  {
    hide PartReport, Carried, Joined, Intermediate, Part, First;
    JoinedIntermediate(d, transaction, slice);
    JoinedAppend(First(d, transaction) + Intermediate(d, transaction, slice),
                 PartReport(3, transaction, n, Part(d, slice)));
    PartReadsBack(3, transaction, n, Part(d, slice));
    NextSlice(d, slice);
  }

  lemma SplitParts(d: seq<byte>, size: nat, transaction: uint16)
    requires |d| == MAX_MESSAGE_SIZE && size < MAX_MESSAGE_SIZE
    requires PART_SIZE * (LastSlice(size) + 1) <= MAX_MESSAGE_SIZE
    ensures SplitReports(d, size, transaction) ==
      (First(d, transaction) + Intermediate(d, transaction, LastSlice(size))) +
      [PartReport(3, transaction, Parts(size) - 1, Part(d, LastSlice(size)))]
  {
    assert Intermediate(d, transaction, LastSlice(size)) == Intermediate(d, transaction, Parts(size) - 1);
    hide Part, PartReport, Intermediate;
  }

  /** From 256 bytes on the parts are numbered 0, 1, 2, … without gaps, in order of sending. */
  lemma PartNumbers(d: seq<byte>, size: nat, transaction: uint16)
    requires |d| == MAX_MESSAGE_SIZE && PART_SIZE <= size < MAX_MESSAGE_SIZE
    ensures var reports := SplitReports(d, size, transaction);
      |reports| == size / PART_SIZE + 1 && forall i :: 0 <= i < |reports| ==> PartNumber(reports[i]) == i
  {
    PartsInBuffer(size);
    var n := Parts(size) - 1;
    IntermediateNumbers(d, transaction, n);
    PartReadsBack(1, transaction, 0, Part(d, 0));
    PartReadsBack(3, transaction, n, Part(d, n));
    hide PartReport, PartNumber, Part, Carried, Intermediate;
  }

  /** A message of less than 256 bytes is sent as two parts that are both numbered 0, the second
      carrying nothing of the message. */
  lemma SmallMessage(d: seq<byte>, size: nat, transaction: uint16)
    requires |d| == MAX_MESSAGE_SIZE && size < PART_SIZE
    ensures var reports := SplitReports(d, size, transaction);
      && |reports| == 2 && PartNumber(reports[0]) == 0 && PartNumber(reports[1]) == 0
      && Carried(reports[1]) == d[PART_SIZE..2 * PART_SIZE]
  {
    PartReadsBack(1, transaction, 0, Part(d, 0));
    PartReadsBack(3, transaction, 0, Part(d, 1));
    hide PartReport, Carried, PartNumber;
  }

  /** A part report of the transaction, TM[13,`messageType`] of this application, with 256 bytes. */
  predicate IsPart(r: Packet, messageType: byte, transaction: uint16)
  {
    && r.packetType == TM && r.serviceType == 13 && r.messageType == messageType && r.applicationId == 1
    && NumberAt(r.body, 0, 2) == transaction && NumberAt(r.body, 4, 2) == 256 && |Carried(r)| == 256
  }

  lemma MadePart(messageType: byte, transaction: uint16, part: uint16, string': seq<byte>)
    requires |string'| == 256
    ensures IsPart(PartReport(messageType, transaction, part, string'), messageType, transaction)
  {
    PartReadsBack(messageType, transaction, part, string');
    hide NumberAt, Carried, BytesOf;
  }

  lemma {:induction false} IntermediateTypes(d: seq<byte>, transaction: uint16, n: uint16)
    requires 1 <= n && PART_SIZE * n <= |d|
    ensures forall r :: r in Intermediate(d, transaction, n) ==> IsPart(r, 2, transaction)
  {
    hide PartReport, Part, IsPart;
    if n > 1 {
      IntermediateTypes(d, transaction, n - 1);
      MadePart(2, transaction, n - 1, Part(d, n - 1));
    }
  }

  /** The first report is TM[13,1], the last TM[13,3], and all between them are TM[13,2]. */
  lemma PartTypes(d: seq<byte>, size: nat, transaction: uint16, i: nat)
    requires |d| == MAX_MESSAGE_SIZE && size < MAX_MESSAGE_SIZE && i < |SplitReports(d, size, transaction)|
    ensures var reports := SplitReports(d, size, transaction);
      IsPart(reports[i], if i == 0 then 1 else if i == |reports| - 1 then 3 else 2, transaction)
  {
    PartsInBuffer(size);
    SplitParts(d, size, transaction);
    var first, mid := First(d, transaction), Intermediate(d, transaction, LastSlice(size));
    var last := PartReport(3, transaction, Parts(size) - 1, Part(d, LastSlice(size)));
    MadePart(1, transaction, 0, Part(d, 0));
    MadePart(3, transaction, Parts(size) - 1, Part(d, LastSlice(size)));
    IntermediateTypes(d, transaction, LastSlice(size));
    assert |first| == 1 && IsPart(first[0], 1, transaction);
    hide First, Intermediate, PartReport, Part, IsPart, SplitReports, LastSlice, Parts;
    var reports := (first + mid) + [last];
    if 0 < i < |reports| - 1 {
      assert reports[i] == mid[i - 1];
    }
  }

  class LargePacketTransferService {
    /** The reports stored for sending. */
    var stored: seq<Packet>

    constructor ()
      ensures stored == []
    {
      stored := [];
    }

    /** The first, an intermediate or the last downlink part report. */
    method DownlinkPartReport(messageType: byte, transaction: uint16, part: uint16, string': seq<byte>)
      requires |string'| <= PART_SIZE
      modifies this`stored
      ensures stored == old(stored) + [PartReport(messageType, transaction, part, string')]
    {
      var report := new Message(13, messageType, TM, DEFAULT_APPLICATION_ID);
      hide BytesOf;
      report.AppendHalfword(transaction);
      assert report.data[..report.dataSize] == BytesOf(transaction, 2);
      report.AppendHalfword(part);
      assert report.data[..report.dataSize] == BytesOf(transaction, 2) + BytesOf(part, 2);
      report.AppendOctetString(string');
      assert report.data[..report.dataSize] ==
        BytesOf(transaction, 2) + BytesOf(part, 2) + (BytesOf(|string'|, 2) + string');
      assert report.data[..report.dataSize] ==
        BytesOf(transaction, 2) + BytesOf(part, 2) + BytesOf(|string'|, 2) + string';
      stored := stored + [Packet(TM, 13, messageType, DEFAULT_APPLICATION_ID, 0, 0, 0, report.data[..report.dataSize])];
    }

    /** The next 256 bytes of the message, at the position counter. */
    method NextPart(message: Message, position: nat, dataPart: array<byte>) returns (position': nat)
      requires message.Valid() && dataPart.Length == PART_SIZE && dataPart != message.data
      requires position + PART_SIZE <= MAX_MESSAGE_SIZE
      modifies dataPart
      ensures position' == position + PART_SIZE
      ensures dataPart[..] == message.data[position..position']
    {
      position' := position;
      for i := 0 to PART_SIZE
        invariant position' == position + i
        invariant dataPart[..i] == message.data[position..position']
      {
        dataPart[i] := message.data[position'];
        position' := position' + 1;
      }
    }

    /** `split`. */
    method Split(message: Message, transaction: uint16)
      requires message.Valid() && message.dataSize < MAX_MESSAGE_SIZE
      modifies this`stored
      ensures stored == old(stored) + SplitReports(message.data[..], message.dataSize, transaction)
    {
      var size := message.dataSize;
      var parts := size / PART_SIZE + 1;
      var dataPart := new byte[PART_SIZE](_ => 0);
      ghost var d := message.data[..];
      PartsInBuffer(size);
      hide PartReport;
      var positionCounter := NextPart(message, 0, dataPart);
      DownlinkPartReport(1, transaction, 0, dataPart[..]);
      ghost var first := [PartReport(1, transaction, 0, Part(d, 0))];
      assert stored == old(stored) + first + Intermediate(d, transaction, 1);
      var part := 1;
      while part < parts - 1
        invariant 1 <= part && (part == 1 || part <= parts - 1)
        invariant positionCounter == PART_SIZE * part && message.data[..] == d
        invariant stored == old(stored) + first + Intermediate(d, transaction, part)
      {
        positionCounter := NextPart(message, positionCounter, dataPart);
        assert dataPart[..] == Part(d, part);
        DownlinkPartReport(2, transaction, part, dataPart[..]);
        part := part + 1;
      }
      assert part == LastSlice(size);
      positionCounter := NextPart(message, positionCounter, dataPart);
      assert dataPart[..] == Part(d, part);
      DownlinkPartReport(3, transaction, parts - 1, dataPart[..]);
      assert Intermediate(d, transaction, part) == Intermediate(d, transaction, parts - 1);
    }
  }
}
