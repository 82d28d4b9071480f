/** Composing and parsing packets: the primary header of CCSDS 133.0-B-1 (section 4.1.2) and the
    secondary headers of ECSS-E-ST-70-41C (sections 7.4.3.1 and 7.4.4.1). */
module Parser {
  import opened Bits
  import opened Crc
  import opened Errors
  import opened Messages

  const PRIMARY_HEADER_SIZE := 6
  const TM_HEADER_SIZE := 11
  const TC_HEADER_SIZE := 5
  const CCSDS_MAX_MESSAGE_SIZE := 1043
  const TC_REQUEST_SIZE := 64
  const PUS_VERSION := 2
  const DEFAULT_APPLICATION_ID: uint16 := 1

  /** What composing and parsing use of a message. */
  datatype Packet = Packet(
    packetType: PacketType,
    serviceType: byte,
    messageType: byte,
    applicationId: uint16,
    sourceId: uint16,
    messageTypeCounter: uint16,
    packetSequenceCount: uint16,
    body: seq<byte>)

  ghost function Contents(m: Message): Packet
    requires m.Valid()
    reads m, m.data
  {
    Packet(m.packetType, m.serviceType, m.messageType, m.applicationId, m.sourceId, m.messageTypeCounter,
           m.packetSequenceCount, m.data[..m.dataSize])
  }

  function Hi(x: uint16): byte
  {
    x / 0x100
  }

  function Lo(x: uint16): byte
  {
    x % 0x100
  }

  // ----- the ECSS part

  /** The secondary header; `ticks` is the time stamp a telemetry packet carries. */
  function SecondaryHeader(p: Packet, ticks: uint32): (h: seq<byte>)
    ensures |h| == if p.packetType == TC then TC_HEADER_SIZE else TM_HEADER_SIZE
  {
    if p.packetType == TC then
      [0x20, p.serviceType, p.messageType, Hi(p.applicationId), Lo(p.applicationId)]
    else
      [0x20, p.serviceType, p.messageType, Hi(p.messageTypeCounter), Lo(p.messageTypeCounter),
       Hi(p.applicationId), Lo(p.applicationId)] + BytesOf(ticks, 4)
  }

  function PadTo(s: seq<byte>, size: nat): seq<byte>
  {
    if |s| < size then s + Zeros(size - |s|) else s
  }

  /** Header and body, padded with zeros to `size` bytes when the string can hold that many. */
  function ComposedEcss(p: Packet, size: nat, ticks: uint32): seq<byte>
  {
    PadTo(SecondaryHeader(p, ticks) + p.body, if size <= CCSDS_MAX_MESSAGE_SIZE then size else CCSDS_MAX_MESSAGE_SIZE)
  }

  /** The secondary header part of `composeECSS`. */
  method ComposeSecondaryHeader(m: Message, ticks: uint32) returns (h: seq<byte>)
    requires m.Valid()
    ensures h == SecondaryHeader(Contents(m), ticks)
  {
    assert Shl(PUS_VERSION, 4) == 0x20;
    BytesOfFour(ticks);
    hide Shl, BytesOf;
    var header := new byte[TM_HEADER_SIZE](_ => 0);
    header[0] := Shl(PUS_VERSION, 4);
    header[1] := m.serviceType;
    header[2] := m.messageType;
    if m.packetType == TC {
      header[3], header[4] := Hi(m.applicationId), Lo(m.applicationId);
      return header[..TC_HEADER_SIZE];
    }
    header[3], header[4] := Hi(m.messageTypeCounter), Lo(m.messageTypeCounter);
    header[5], header[6] := Hi(m.applicationId), Lo(m.applicationId);
    header[7], header[8] := ticks / 0x100_0000 % 0x100, ticks / 0x1_0000 % 0x100;
    header[9], header[10] := ticks / 0x100 % 0x100, ticks % 0x100;
    h := header[..TM_HEADER_SIZE];
  }

  /** `composeECSS`; `overflow` is the report of a nested message that is too large. */
  method ComposeEcss(m: Message, size: uint16, ticks: uint32) returns (s: seq<byte>, overflow: bool)
    requires m.Valid()
    ensures s == ComposedEcss(Contents(m), size, ticks)
    ensures overflow <==> 0 < size < |SecondaryHeader(Contents(m), ticks) + Contents(m).body|
  {
    s := ComposeSecondaryHeader(m, ticks);
    hide SecondaryHeader;
    s := s + m.data[..m.dataSize];
    overflow := false;
    if size != 0 {
      if |s| > size {
        overflow := true;
      } else if |s| < size {
        var room := CCSDS_MAX_MESSAGE_SIZE - |s|;
        s := s + Zeros(if size - |s| <= room then size - |s| else room);
      }
    }
  }

  /** The fields a telecommand header gives, with the body after it. */
  function ParsedTc(d: seq<byte>, applicationId: uint16, sequenceCount: uint16): Packet
    requires |d| >= TC_HEADER_SIZE
  {
    Packet(TC, d[1], d[2], applicationId, Word(d[3], d[4]), 0, sequenceCount, d[TC_HEADER_SIZE..])
  }

  function ParsedTm(d: seq<byte>, applicationId: uint16, sequenceCount: uint16): Packet
    requires |d| >= TM_HEADER_SIZE
  {
    Packet(TM, d[1], d[2], applicationId, 0, 0, sequenceCount, d[TM_HEADER_SIZE..])
  }

  /** The header's version check only reports; the fields are taken all the same. */
  predicate RightVersion(d: seq<byte>)
    requires |d| >= 1
  {
    Shr(d[0], 4) == PUS_VERSION
  }

  /** `parseECSSTC`: a stored telecommand of fixed size. */
  function ParsedRequest(d: seq<byte>): Packet
    requires |d| == TC_REQUEST_SIZE
  {
    ParsedTc(d, DEFAULT_APPLICATION_ID, 0)
  }

  /** Nested telecommands: composing to the fixed size and parsing keeps type and zero-padded body;
      the source id read back is the application id written. */
  lemma NestedRoundTrip(p: Packet, ticks: uint32)
    requires p.packetType == TC && |p.body| <= TC_REQUEST_SIZE - TC_HEADER_SIZE
    ensures |ComposedEcss(p, TC_REQUEST_SIZE, ticks)| == TC_REQUEST_SIZE
    ensures RightVersion(ComposedEcss(p, TC_REQUEST_SIZE, ticks))
    ensures ParsedRequest(ComposedEcss(p, TC_REQUEST_SIZE, ticks)) ==
      Packet(TC, p.serviceType, p.messageType, DEFAULT_APPLICATION_ID, p.applicationId, 0, 0,
             PadTo(p.body, TC_REQUEST_SIZE - TC_HEADER_SIZE))
  {
    var s := ComposedEcss(p, TC_REQUEST_SIZE, ticks);
    assert s[TC_HEADER_SIZE..] == PadTo(p.body, TC_REQUEST_SIZE - TC_HEADER_SIZE);
    assert Shr(0x20, 4) == 2;
  }

  /** Parsing a stored slot and composing it again returns every byte but the three that
      `composeECSS` rewrites: the version byte and the application id. */
  lemma SlotReemitted(slot: seq<byte>, ticks: uint32)
    requires |slot| == TC_REQUEST_SIZE
    ensures ComposedEcss(ParsedRequest(slot), 0, ticks) == slot[0 := 0x20][3 := 0][4 := 1]
  {
    assert slot == slot[..TC_HEADER_SIZE] + slot[TC_HEADER_SIZE..];
  }

  /** The bytes of a composed telecommand: version, type, application id, body. */
  lemma TcLayout(p: Packet, ticks: uint32)
    requires p.packetType == TC
    ensures var s := ComposedEcss(p, 0, ticks);
      && |s| == 5 + |p.body| && s[0] == 0x20 && s[1] == p.serviceType && s[2] == p.messageType
      && 0x100 * (s[3] as int) + s[4] == p.applicationId && s[5..] == p.body
  {
  }

  /** The bytes of composed telemetry: version, type, type counter, application id, time, body. */
  lemma TmLayout(p: Packet, ticks: uint32)
    requires p.packetType == TM
    ensures var s := ComposedEcss(p, 0, ticks);
      && |s| == 11 + |p.body| && s[0] == 0x20 && s[1] == p.serviceType && s[2] == p.messageType
      && 0x100 * (s[3] as int) + s[4] == p.messageTypeCounter && 0x100 * (s[5] as int) + s[6] == p.applicationId
      && 0x100_0000 * (s[7] as int) + 0x1_0000 * (s[8] as int) + 0x100 * (s[9] as int) + s[10] == ticks
      && s[11..] == p.body
  {
    FourBytesBack(ticks);
    hide BytesOf;
    var h := SecondaryHeader(p, ticks);
    assert ComposedEcss(p, 0, ticks) == h + p.body && h[7..] == BytesOf(ticks, 4);
  }

  /** The version nibble the parser asks for. */
  lemma RightVersionExact(d: seq<byte>)
    requires |d| >= 1
    ensures RightVersion(d) <==> d[0] / 0x10 == 2
  {
    ShlValues(d[0] / 0x10);
    Pow2Values();
    SplitAt(d[0] / 0x10, d[0] % 0x10, 4);
    hide Shr, Shl, Low;
  }

  // ----- the CCSDS part

  function PacketId(p: Packet): uint16
  {
    IdBound(p); Or(Or(p.applicationId, 0x800), if p.packetType == TC then 0x1000 else 0)
  }

  lemma IdBound(p: Packet)
    ensures Or(p.applicationId, 0x800) < 0x1_0000
    ensures Or(Or(p.applicationId, 0x800), if p.packetType == TC then 0x1000 else 0) < 0x1_0000
  {
    Pow2Values();
    hide Or;
    OrBound(p.applicationId, 0x800, 16);
    OrBound(Or(p.applicationId, 0x800), if p.packetType == TC then 0x1000 else 0, 16);
  }

  function SequenceControl(p: Packet): uint16
  {
    ControlBound(p); Or(p.packetSequenceCount, 0xC000)
  }

  lemma ControlBound(p: Packet)
    ensures Or(p.packetSequenceCount, 0xC000) < 0x1_0000
  {
    Pow2Values();
    hide Or;
    OrBound(p.packetSequenceCount, 0xC000, 16);
  }

  function PrimaryHeader(p: Packet, dataLength: uint16): (h: seq<byte>)
    ensures |h| == PRIMARY_HEADER_SIZE
  {
    [Hi(PacketId(p)), Lo(PacketId(p)), Hi(SequenceControl(p)), Lo(SequenceControl(p)), Hi(dataLength), Lo(dataLength)]
  }

  predicate Fits(p: Packet)
  {
    |p.body| <= MAX_MESSAGE_SIZE
  }

  /** The frame `compose` builds, before its CRC. */
  function Frame(p: Packet, ticks: uint32): seq<byte>
    requires Fits(p)
  {
    var ecss := ComposedEcss(p, 0, ticks);
    PrimaryHeader(p, |ecss| - 1) + ecss
  }

  function Composed(p: Packet, ticks: uint32): seq<byte>
    requires Fits(p)
  {
    var crc := Crc16(Frame(p, ticks));
    Frame(p, ticks) + [Hi(crc), Lo(crc)]
  }

  /** The primary header part of `compose`. */
  method ComposePrimaryHeader(m: Message, packetDataLength: uint16) returns (h: seq<byte>)
    requires m.Valid()
    ensures h == PrimaryHeader(Contents(m), packetDataLength)
  {
    ghost var p := Contents(m);
    IdBound(p);
    ControlBound(p);
    ShlOne(11);
    ShlOne(12);
    Pow2Values();
    assert Shl(3, 14) == 0xC000;
    hide Or, Shl, Pow2;
    var packetId: uint16 := m.applicationId;
    packetId := Or(packetId, Shl(1, 11));
    packetId := Or(packetId, if m.packetType == TC then Shl(1, 12) else 0);
    var packetSequenceControl: uint16 := Or(m.packetSequenceCount, Shl(3, 14));
    assert packetId == PacketId(p) && packetSequenceControl == SequenceControl(p);
    hide PacketId, SequenceControl;
    var header := new byte[PRIMARY_HEADER_SIZE](_ => 0);
    header[0] := packetId / 0x100;
    header[1] := packetId % 0x100;
    header[2] := packetSequenceControl / 0x100;
    header[3] := packetSequenceControl % 0x100;
    header[4] := packetDataLength / 0x100;
    header[5] := packetDataLength % 0x100;
    h := header[..];
  }

  /** `compose`: the frame with its CRC, never longer than the packet string. */
  method Compose(m: Message, ticks: uint32) returns (s: seq<byte>)
    requires m.Valid()
    ensures s == Composed(Contents(m), ticks)
    ensures |s| <= CCSDS_MAX_MESSAGE_SIZE && Crc16(s) == 0
  {
    ghost var p := Contents(m);
    var ecss, overflow := ComposeEcss(m, 0, ticks);
    if |ecss| + PRIMARY_HEADER_SIZE > CCSDS_MAX_MESSAGE_SIZE {
      assert false;
      return [];
    }
    ComposedValid(p, ticks);
    ComposedLength(p, ticks);
    var header := ComposePrimaryHeader(m, |ecss| - 1);
    var frame := header + ecss;
    assert frame == Frame(p, ticks);
    hide ComposedEcss, PrimaryHeader, Crc16, Frame;
    var buffer := new byte[|frame|](i requires 0 <= i < |frame| => frame[i]);
    assert buffer[..|frame|] == frame;
    var crcField := CalculateCrc(buffer, |frame|);
    s := frame + [crcField / 0x100, crcField % 0x100];
  }

  lemma ComposedLength(p: Packet, ticks: uint32)
    requires Fits(p)
    ensures |Composed(p, ticks)| == |p.body| + PRIMARY_HEADER_SIZE + 2 +
      if p.packetType == TC then TC_HEADER_SIZE else TM_HEADER_SIZE
    ensures |Composed(p, ticks)| <= CCSDS_MAX_MESSAGE_SIZE
  {
  }

  /** Every composed packet checks to zero. */
  lemma ComposedValid(p: Packet, ticks: uint32)
    requires Fits(p)
    ensures Crc16(Composed(p, ticks)) == 0
  {
    hide Crc16, Frame;
    var f := Frame(p, ticks);
    ValidFrame(f, Hi(Crc16(f)), Lo(Crc16(f)));
  }

  // ----- parsing the primary header

  /** The fields of a primary header, as `parse` extracts them. */
  datatype Primary = Primary(version: nat, packetType: PacketType, secondary: bool, applicationId: nat,
                             flags: nat, count: nat, length: nat)

  function PrimaryFields(d: seq<byte>): Primary
    requires |d| >= PRIMARY_HEADER_SIZE
  {
    Primary(Shr(d[0], 5), if And(d[0], 0x10) == 0 then TM else TC, And(d[0], 0x08) != 0,
            And(Word(d[0], d[1]), 0x7FF), Shr(Word(d[2], d[3]), 14), And(Word(d[2], d[3]), 0x3FFF),
            Word(d[4], d[5]))
  }

  predicate Acceptable(d: seq<byte>)
    requires |d| >= PRIMARY_HEADER_SIZE
  {
    var f := PrimaryFields(d);
    f.version == 0 && f.secondary && f.flags == 3 && f.length == |d| - PRIMARY_HEADER_SIZE
  }

  /** Exactly which primary headers are accepted: version 0, a secondary header, an unsegmented packet, and
      the number of the bytes behind the header as length. */
  lemma AcceptableExact(d: seq<byte>)
    requires |d| >= 6
    ensures Acceptable(d) <==>
      && d[0] / 0x20 == 0 && d[0] / 8 % 2 == 1 && d[2] / 0x40 == 3
      && 0x100 * (d[4] as int) + d[5] == |d| - 6
  {
    TopByteFields(d[0]);
    LowMasks(Word(d[2], d[3]));
    assert Word(d[2], d[3]) / 0x4000 == d[2] / 0x40;
    hide Shr, And;
  }

  /** A default-constructed message. */
  const EMPTY_PACKET := Packet(TM, 0, 0, DEFAULT_APPLICATION_ID, 0, 0, 0, [])

  /** What `parse` makes of `d`; the body of an accepted packet must hold its secondary header. */
  function Parsed(d: seq<byte>): Packet
    requires BodyFits(d)
  {
    if |d| < PRIMARY_HEADER_SIZE || !Acceptable(d) then EMPTY_PACKET
    else
      var f := PrimaryFields(d);
      FieldBounds(d);
      if f.packetType == TC then ParsedTc(d[PRIMARY_HEADER_SIZE..], f.applicationId, f.count)
      else ParsedTm(d[PRIMARY_HEADER_SIZE..], f.applicationId, f.count)
  }

  function HeaderSize(packetType: PacketType): nat
  {
    if packetType == TC then TC_HEADER_SIZE else TM_HEADER_SIZE
  }

  /** The source copies the body unchecked: an accepted packet must hold its secondary header and
      no more than a message can. */
  predicate BodyFits(d: seq<byte>)
  {
    |d| >= PRIMARY_HEADER_SIZE && Acceptable(d) ==>
      HeaderSize(PrimaryFields(d).packetType) <= |d| - PRIMARY_HEADER_SIZE <=
        HeaderSize(PrimaryFields(d).packetType) + MAX_MESSAGE_SIZE
  }

  lemma FieldBounds(d: seq<byte>)
    requires |d| >= PRIMARY_HEADER_SIZE
    ensures PrimaryFields(d).applicationId < 0x800 && PrimaryFields(d).count < 0x4000
  {
    hide And, Shr, Low, Word;
    LowMasks(Word(d[0], d[1]));
    LowMasks(Word(d[2], d[3]));
  }

  lemma LowMasks(w: nat)
    ensures And(w, 0x7FF) == w % 0x800 && And(w, 0x3FFF) == w % 0x4000
    ensures Shr(w, 14) == w / 0x4000
  {
    hide *;
    Pow2Values();
    AndMask(w, 11);
    AndMask(w, 14);
    ShlValues(w / 0x800);
    ShlValues(w / 0x4000);
    SplitAt(w / 0x800, w % 0x800, 11);
    SplitAt(w / 0x4000, w % 0x4000, 14);
  }

  /** Splitting a word at bit `n` into quotient and remainder. */
  lemma SplitAt(hi: nat, lo: nat, n: nat)
    requires lo < Pow2(n)
    ensures Shr(Shl(hi, n) + lo, n) == hi && Low(Shl(hi, n) + lo, n) == lo
    decreases n
  {
    if n > 0 {
      SplitAt(hi, lo / 2, n - 1);
      assert Shl(hi, n) == 2 * Shl(hi, n - 1);
    }
  }

  lemma ShlValues(x: nat)
    ensures Shl(x, 3) == 8 * x && Shl(x, 4) == 0x10 * x && Shl(x, 5) == 0x20 * x
    ensures Shl(x, 11) == 0x800 * x && Shl(x, 12) == 0x1000 * x && Shl(x, 14) == 0x4000 * x
  {
    assert Shl(x, 4) == 0x10 * x;
    assert Shl(x, 8) == 0x10 * Shl(x, 4);
    assert Shl(x, 11) == 8 * Shl(x, 8);
  }

  /** The packet id of a legal application id is a sum of disjoint fields. */
  lemma PacketIdIsSum(p: Packet)
    requires p.applicationId < 0x800
    ensures PacketId(p) == p.applicationId + 0x800 + if p.packetType == TC then 0x1000 else 0
  {
    Pow2Values();
    var a := p.applicationId;
    OrComm(a, 0x800);
    ShlValues(1);
    LowOfShl(1, 11);
    OrIsSum(0x800, a, 11);
    OrComm(0x800 + a, 0x1000);
    LowOfShl(1, 12);
    OrIsSum(0x1000, 0x800 + a, 12);
    OrZero(0x800 + a);
  }

  lemma OrComm(x: nat, y: nat)
    ensures Or(x, y) == Or(y, x)
    decreases x + y
  {
    if x != 0 || y != 0 {
      OrComm(x / 2, y / 2);
    }
  }

  lemma SequenceControlIsSum(p: Packet)
    requires p.packetSequenceCount < 0x4000
    ensures SequenceControl(p) == 0xC000 + p.packetSequenceCount
  {
    Pow2Values();
    OrComm(p.packetSequenceCount, 0xC000);
    ShlValues(3);
    LowOfShl(3, 14);
    OrIsSum(0xC000, p.packetSequenceCount, 14);
  }

  lemma TopByteFields(hi: byte)
    ensures Shr(hi, 5) == hi / 0x20
    ensures And(hi, 0x10) == 0 <==> hi / 0x10 % 2 == 0
    ensures And(hi, 0x08) == 0 <==> hi / 0x08 % 2 == 0
  {
    hide *;
    Pow2Values();
    ShlValues(hi / 0x20);
    ShlValues(hi / 0x10);
    ShlValues(hi / 0x08);
    SplitAt(hi / 0x20, hi % 0x20, 5);
    SplitAt(hi / 0x10, hi % 0x10, 4);
    SplitAt(hi / 0x08, hi % 0x08, 3);
    AndPow2(hi, 4);
    AndPow2(hi, 3);
    BitIsOdd(hi, 4);
    BitIsOdd(hi, 3);
  }

  lemma IdFields(a: nat, t: nat)
    requires a < 0x800 && t < 2
    ensures var id := a + 0x800 + 0x1000 * t;
      && id < 0x2000 && id % 0x800 == a
      && id / 0x100 < 0x20 && id / 0x100 / 0x10 % 2 == t && id / 0x100 / 0x08 % 2 == 1
  {
    var id, h := a + 0x800 + 0x1000 * t, a / 0x100;
    assert h < 8 && id / 0x100 == h + 8 + 0x10 * t;
  }

  lemma IdRoundTrip(p: Packet)
    requires p.applicationId < 0x800
    ensures var id := PacketId(p);
      && Shr(Hi(id), 5) == 0 && And(id, 0x7FF) == p.applicationId
      && (And(Hi(id), 0x10) == 0 <==> p.packetType == TM) && And(Hi(id), 0x08) != 0
  {
    hide Or, And, Shr, PacketId;
    PacketIdIsSum(p);
    IdFields(p.applicationId, if p.packetType == TC then 1 else 0);
    TopByteFields(Hi(PacketId(p)));
    LowMasks(PacketId(p));
  }

  lemma ControlRoundTrip(p: Packet)
    requires p.packetSequenceCount < 0x4000
    ensures Shr(SequenceControl(p), 14) == 3 && And(SequenceControl(p), 0x3FFF) == p.packetSequenceCount
  {
    hide Or, And, Shr, SequenceControl;
    SequenceControlIsSum(p);
    LowMasks(SequenceControl(p));
  }

  /** Extraction inverts the header writing for legal application ids and counts. */
  lemma HeaderRoundTrip(p: Packet, dataLength: uint16)
    requires p.applicationId < 0x800 && p.packetSequenceCount < 0x4000
    ensures PrimaryFields(PrimaryHeader(p, dataLength)) ==
      Primary(0, p.packetType, true, p.applicationId, 3, p.packetSequenceCount, dataLength)
  {
    IdRoundTrip(p);
    ControlRoundTrip(p);
    WordOfBytes(PacketId(p));
    WordOfBytes(SequenceControl(p));
    WordOfBytes(dataLength);
    hide Or, And, Shr, PacketId, SequenceControl, Word, Hi, Lo;
  }

  /** The bytes of a primary header with a legal application id and count. */
  lemma PrimaryLayout(p: Packet, dataLength: uint16)
    requires p.applicationId < 0x800 && p.packetSequenceCount < 0x4000
    ensures var h := PrimaryHeader(p, dataLength);
      && h[0] == (if p.packetType == TC then 0x18 else 0x08) + p.applicationId / 0x100
      && h[1] == p.applicationId % 0x100
      && h[2] == 0xC0 + p.packetSequenceCount / 0x100 && h[3] == p.packetSequenceCount % 0x100
      && 0x100 * (h[4] as int) + h[5] == dataLength
  {
    PacketIdIsSum(p);
    SequenceControlIsSum(p);
    hide PacketId, SequenceControl;
  }

  lemma WordOfBytes(x: uint16)
    ensures Word(Hi(x), Lo(x)) == x && Hi(x) == x / 0x100
  {
  }

  /** `parse` rejects every packet `compose` builds: the length field is three short of its wish. */
  lemma ComposedRejected(p: Packet, ticks: uint32)
    requires Fits(p)
    ensures BodyFits(Composed(p, ticks)) && Parsed(Composed(p, ticks)) == Packet(TM, 0, 0, 1, 0, 0, 0, [])
  {
    hide Crc16, PacketId, SequenceControl, And, Shr;
    var d := Composed(p, ticks);
    assert PrimaryFields(d).length == |ComposedEcss(p, 0, ticks)| - 1;
  }

  /** With the length field `parse` expects and no CRC, header and body survive the round trip. */
  lemma FrameRoundTrip(p: Packet, ticks: uint32)
    requires Fits(p) && p.applicationId < 0x800 && p.packetSequenceCount < 0x4000
    ensures var ecss := ComposedEcss(p, 0, ticks);
      var d := PrimaryHeader(p, |ecss|) + ecss;
      && BodyFits(d)
      && Parsed(d) == if p.packetType == TC then p.(sourceId := p.applicationId, messageTypeCounter := 0)
                      else p.(sourceId := 0, messageTypeCounter := 0)
  {
    var ecss := ComposedEcss(p, 0, ticks);
    var h := PrimaryHeader(p, |ecss|);
    var d := h + ecss;
    HeaderRoundTrip(p, |ecss|);
    assert PrimaryFields(d) == PrimaryFields(h);
    assert d[PRIMARY_HEADER_SIZE..] == ecss;
    hide PrimaryFields;
    if p.packetType == TC {
      assert ecss[TC_HEADER_SIZE..] == p.body;
    } else {
      assert ecss[TM_HEADER_SIZE..] == p.body;
    }
  }

  // ----- the source's parsing

  /** `parseECSSTCHeader`: fields and body into the message; a wrong version is only reported. */
  method ParseEcssTcHeader(d: seq<byte>, length: nat, message: Message)
    requires TC_HEADER_SIZE <= length <= |d| && length <= TC_HEADER_SIZE + MAX_MESSAGE_SIZE
    requires message.Valid() && message.packetType == TC && message.messageTypeCounter == 0
    modifies message, message.data
    ensures message.Valid()
    ensures Contents(message) == ParsedTc(d[..length], old(message.applicationId), old(message.packetSequenceCount))
    ensures message.errors == old(message.errors) + if RightVersion(d) then [] else [UnacceptableMessage]
  {
    var serviceType, messageType, sourceId := d[1], d[2], Word(d[3], d[4]);
    if Shr(d[0], 4) != PUS_VERSION {
      message.errors := message.errors + [UnacceptableMessage];
    }
    message.serviceType := serviceType;
    message.messageType := messageType;
    message.sourceId := sourceId;
    CopyBody(d[..length], TC_HEADER_SIZE, message);
  }

  /** `parseECSSTMHeader`. */
  method ParseEcssTmHeader(d: seq<byte>, length: nat, message: Message)
    requires TM_HEADER_SIZE <= length <= |d| && length <= TM_HEADER_SIZE + MAX_MESSAGE_SIZE
    requires message.Valid() && message.packetType == TM
    requires message.messageTypeCounter == 0 && message.sourceId == 0
    modifies message, message.data
    ensures message.Valid()
    ensures Contents(message) == ParsedTm(d[..length], old(message.applicationId), old(message.packetSequenceCount))
    ensures message.errors == old(message.errors) + if RightVersion(d) then [] else [UnacceptableMessage]
  {
    if Shr(d[0], 4) != PUS_VERSION {
      message.errors := message.errors + [UnacceptableMessage];
    }
    message.serviceType := d[1];
    message.messageType := d[2];
    CopyBody(d[..length], TM_HEADER_SIZE, message);
  }

  /** The copy of what follows the header into the message. */
  method CopyBody(d: seq<byte>, header: nat, message: Message)
    requires header <= |d| <= header + MAX_MESSAGE_SIZE && message.Valid()
    modifies message`dataSize, message.data
    ensures message.dataSize == |d| - header && message.data[..message.dataSize] == d[header..]
  {
    forall i | header <= i < |d| {
      message.data[i - header] := d[i];
    }
    message.dataSize := |d| - header;
  }

  /** `parse`: the message of an acceptable packet, a default one otherwise. */
  method Parse(d: seq<byte>) returns (message: Message, rejected: bool)
    requires BodyFits(d)
    ensures fresh(message) && message.Valid() && Contents(message) == Parsed(d)
    ensures rejected <==> |d| < PRIMARY_HEADER_SIZE || !Acceptable(d)
  {
    message := new Message(0, 0, TM, DEFAULT_APPLICATION_ID);
    rejected := true;
    if |d| < PRIMARY_HEADER_SIZE {
      return;
    }
    var packetHeaderIdentification := Word(d[0], d[1]);
    var packetSequenceControl := Word(d[2], d[3]);
    var packetDataLength := Word(d[4], d[5]);
    var versionNumber := Shr(d[0], 5);
    var packetType := if And(d[0], 0x10) == 0 then TM else TC;
    var secondaryHeaderFlag := And(d[0], 0x08) != 0;
    var applicationId := And(packetHeaderIdentification, 0x7FF);
    var sequenceFlags := Shr(packetSequenceControl, 14);
    var packetSequenceCount := And(packetSequenceControl, 0x3FFF);
    assert PrimaryFields(d) == Primary(versionNumber, packetType, secondaryHeaderFlag, applicationId, sequenceFlags,
                                       packetSequenceCount, packetDataLength);
    FieldBounds(d);
    hide And, Shr, Word;
    if versionNumber != 0 || !secondaryHeaderFlag || sequenceFlags != 3 ||
       packetDataLength != |d| - PRIMARY_HEADER_SIZE {
      return;
    }
    rejected := false;
    message := new Message(0, 0, packetType, applicationId);
    message.packetSequenceCount := packetSequenceCount;
    var rest := d[PRIMARY_HEADER_SIZE..];
    assert rest[..packetDataLength] == rest;
    if packetType == TC {
      ParseEcssTcHeader(rest, packetDataLength, message);
    } else {
      ParseEcssTmHeader(rest, packetDataLength, message);
    }
  }

  /** `parseECSSTC`: a stored slot becomes a telecommand message. */
  method ParseEcssTc(slot: seq<byte>) returns (message: Message)
    requires |slot| == TC_REQUEST_SIZE
    ensures fresh(message) && message.Valid() && Contents(message) == ParsedRequest(slot)
  {
    message := new Message(0, 0, TM, DEFAULT_APPLICATION_ID);
    message.packetType := TC;
    assert slot[..TC_REQUEST_SIZE] == slot;
    ParseEcssTcHeader(slot, TC_REQUEST_SIZE, message);
  }
}
