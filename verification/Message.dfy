/** The telemetry or telecommand message: a fixed buffer with a write and a read cursor. */
module Messages {
  import opened Bits
  import opened BitStream
  import opened Errors
  import Pool = ServicePools

  const MAX_MESSAGE_SIZE := 1024
  const MAX_STRING_SIZE := 256

  datatype PacketType = TM | TC

  /** The number in `n` bytes at `p`, or zero when they run past the end of the buffer. */
  function NumberAt(d: seq<byte>, p: nat, n: nat): (v: nat)
  {
    if p + n <= |d| then BigEndian(d[p..p + n]) else 0
  }

  function ByteAt(d: seq<byte>, p: nat): byte
  {
    NumberBound(d, p, 1); NumberAt(d, p, 1)
  }

  function HalfAt(d: seq<byte>, p: nat): uint16
  {
    NumberBound(d, p, 2); NumberAt(d, p, 2)
  }

  function WordAt(d: seq<byte>, p: nat): uint32
  {
    NumberBound(d, p, 4); NumberAt(d, p, 4)
  }

  lemma NumberBound(d: seq<byte>, p: nat, n: nat)
    requires n == 1 || n == 2 || n == 4
    ensures NumberAt(d, p, n) < if n == 1 then 0x100 else if n == 2 then 0x1_0000 else 0x1_0000_0000
  {
    if p + n <= |d| {
      if n == 1 { BigEndianOne(d, p); } else if n == 2 { BigEndianTwo(d, p); } else { BigEndianFour(d, p); }
    }
  }

  /** The read position after an attempt to read `n` bytes at `p`. */
  function After(d: seq<byte>, p: nat, n: nat): nat
  {
    if p + n <= |d| then p + n else p
  }

  function ReadErrors(d: seq<byte>, p: nat, n: nat): seq<Error>
  {
    if p + n <= |d| then [] else [MessageTooShort]
  }

  function Zeros(n: nat): (z: seq<byte>)
    ensures |z| == n && forall i :: 0 <= i < n ==> z[i] == 0
  {
    seq(n, _ => 0)
  }

  /** What reading a string of `size` bytes at `p` leaves in a zeroed buffer. */
  function StringAt(d: seq<byte>, p: nat, size: nat): (s: seq<byte>)
    ensures |s| == size
  {
    if p + size <= |d| && size < MAX_STRING_SIZE then d[p..p + size] else Zeros(size)
  }

  function AfterString(d: seq<byte>, p: nat, size: nat): nat
  {
    if size < MAX_STRING_SIZE then After(d, p, size) else p
  }

  function StringErrors(d: seq<byte>, p: nat, size: nat): seq<Error>
  {
    if p + size > |d| then [MessageTooShort] else if size >= MAX_STRING_SIZE then [StringTooShort] else []
  }

  /** The 64-bit two's complement number in two words at `p`. */
  function SignedAt(d: seq<byte>, p: nat): int
  {
    var v := 0x1_0000_0000 * NumberAt(d, p, 4) + NumberAt(d, After(d, p, 4), 4);
    if v < 0x8000_0000_0000_0000 then v else v - 0x1_0000_0000_0000_0000
  }

  /** The read position after skipping `n` bytes. */
  function Skipped(p: nat, n: nat): nat
  {
    (p + n) % 0x1_0000
  }

  /** The big-endian bytes of `v`. */
  function BytesOf(v: nat, n: nat): (r: seq<byte>)
    ensures |r| == n
  {
    if n == 0 then [] else BytesOf(v / 0x100, n - 1) + [v % 0x100]
  }

  lemma {:induction false} BigEndianBytesOf(v: nat, n: nat)
    requires v < Pow2(8 * n)
    ensures BigEndian(BytesOf(v, n)) == v
  {
    if n > 0 {
      Pow2Byte(8 * (n - 1));
      BigEndianBytesOf(v / 0x100, n - 1);
      assert BytesOf(v, n)[..n - 1] == BytesOf(v / 0x100, n - 1);
    }
  }

  class Message {
    var packetType: PacketType
    var serviceType: byte
    var messageType: byte
    var applicationId: uint16
    var sourceId: uint16
    var messageTypeCounter: uint16
    var packetSequenceCount: uint16
    var dataSize: nat
    const data: array<byte>
    var currentBit: nat
    var readPosition: uint16
    var errors: seq<Error>

    ghost predicate Valid()
      reads this
    {
      data.Length == MAX_MESSAGE_SIZE && dataSize <= MAX_MESSAGE_SIZE && currentBit < 8
    }

    /** The bits before the write cursor. */
    ghost function Written(): seq<bool>
      requires Valid() && 8 * dataSize + currentBit <= 8 * MAX_MESSAGE_SIZE
      reads this, data
    {
      BitsOf(data[..])[..8 * dataSize + currentBit]
    }

    /** Ready for appending: everything past the write cursor is zero, as the OR-ing writes need. */
    ghost predicate Writable()
      reads this, data
    {
      && Valid()
      && 8 * dataSize + currentBit <= 8 * MAX_MESSAGE_SIZE
      && Clear(data[..], 8 * dataSize + currentBit)
    }

    constructor (serviceType: byte, messageType: byte, packetType: PacketType, applicationId: uint16)
      ensures Writable() && Written() == [] && fresh(data)
      ensures dataSize == 0 && currentBit == 0 && readPosition == 0 && errors == []
      ensures this.serviceType == serviceType && this.messageType == messageType
      ensures this.packetType == packetType && this.applicationId == applicationId && sourceId == 0
      ensures messageTypeCounter == 0 && packetSequenceCount == 0
      ensures forall i :: 0 <= i < MAX_MESSAGE_SIZE ==> data[i] == 0
    {
      this.serviceType, this.messageType := serviceType, messageType;
      this.packetType, this.applicationId := packetType, applicationId;
      sourceId, messageTypeCounter, packetSequenceCount := 0, 0, 0;
      dataSize, currentBit, readPosition, errors := 0, 0, 0, [];
      data := new byte[MAX_MESSAGE_SIZE](_ => 0);
      new;
      forall i: nat | i < 8 * MAX_MESSAGE_SIZE
        ensures !StreamBit(data[..], i)
      {
        ZeroBit(7 - i % 8);
      }
    }

    /** One pass of the loop of `appendBits`: fill the byte at the cursor, or use up the bits. Digits
        above the width end up in the bits of the byte before the cursor. */
    method AppendPass(n: nat, d: nat, ghost goal: seq<bool>) returns (n': nat, d': nat)
      requires Valid() && dataSize < MAX_MESSAGE_SIZE && n > 0
      requires Appending(data[..], dataSize, currentBit, d, n, goal)
      modifies this`dataSize, this`currentBit, data
      ensures Valid() && n' < n
      ensures Appending(data[..], dataSize, currentBit, d', n', goal)
    {
      hide Bit, Shl, Shr, Low, And, Or, Pow2, Mask, Pending, Put, Smear, Excess;
      ghost var before, pos, cur := data[..], dataSize, currentBit;
      ghost var smeared := Smear(before, pos, cur, d, n);
      if currentBit + n >= 8 {
        var rest := n - (8 - currentBit);
        FillByte(smeared, pos, cur, Low(d, n), n, goal);
        SmearFill(before, pos, cur, d, n);
        MaskIsLow(d, rest);
        data[dataSize] := Or(data[dataSize], Low(Shr(d, rest), 8));
        n', d' := rest, And(d, Mask(rest));
        currentBit := 0;
        dataSize := dataSize + 1;
        assert data[..] == Put(smeared, pos, Shr(Low(d, n), rest));
      } else {
        PartByte(smeared, pos, cur, Low(d, n), n, goal);
        SmearPart(before, pos, cur, d, n);
        data[dataSize] := Or(data[dataSize], Low(Shl(d, 8 - currentBit - n), 8));
        currentBit := currentBit + n;
        n', d' := 0, 0;
        Pow2Values();
        assert data[..] == Put(smeared, pos, Shl(Low(d, n), 8 - cur - n));
      }
      SmearNone(data[..], dataSize, currentBit, d', n');
    }

    /** `appendBits`: the value's bits extend the stream, up to the end of the buffer. A value that
        does not fit its width also changes bits written before, in the started byte. */
    method AppendBits(numBits: byte, value: uint16)
      requires Writable()
      modifies this`dataSize, this`currentBit, this`errors, data
      ensures Writable()
      ensures numBits > 16 ==> Written() == old(Written()) && errors == old(errors) + [TooManyBitsAppend]
      ensures numBits <= 16 ==>
        var before := Smeared(old(Written()), old(currentBit), value, numBits);
        && Written() == Clip(before + ToBits(value, numBits), 8 * MAX_MESSAGE_SIZE)
        && (value < Pow2(numBits) ==> before == old(Written()))
        && errors == old(errors) + if |old(Written())| + numBits <= 8 * MAX_MESSAGE_SIZE then [] else [MessageTooLarge]
    {
      if numBits > 16 {
        errors := errors + [TooManyBitsAppend];
        return;
      }
      hide Bit, Clear, BitsOf, ToBits, Appending, Pow2, Smeared;
      var n: nat, d: nat := numBits, value;
      ghost var before := Smeared(Written(), currentBit, value, numBits);
      ghost var goal := before + ToBits(value, numBits);
      AppendStarts(data[..], dataSize, currentBit, d, n);
      if value < Pow2(numBits) {
        NothingSmeared(Written(), currentBit, value, numBits);
      }
      while n > 0
        invariant Valid() && errors == old(errors) && Appending(data[..], dataSize, currentBit, d, n, goal)
      {
        if dataSize >= MAX_MESSAGE_SIZE {
          AppendStops(data[..], dataSize, currentBit, d, n, goal);
          errors := errors + [MessageTooLarge];
          return;
        }
        n, d := AppendPass(n, d, goal);
      }
      AppendStops(data[..], dataSize, currentBit, d, n, goal);
    }

    /** The read cursor, in bits. */
    ghost function ReadCursor(): nat
      reads this
    {
      8 * readPosition + currentBit
    }

    /** One pass of the loop of `readBits`: the rest of the byte at the cursor, or the remaining bits. */
    method ReadPass(n: nat, value: uint16, ghost start: nat, ghost end: nat) returns (n': nat, value': uint16)
      requires Valid() && readPosition < MAX_MESSAGE_SIZE && n > 0 && end - start <= 16
      requires Reading(data[..], readPosition, currentBit, n, value, start, end)
      modifies this`readPosition, this`currentBit
      ensures Valid() && n' < n
      ensures Reading(data[..], readPosition, currentBit, n', value', start, end)
    {
      hide Bit, Shl, Shr, Low, And, Or, Pow2, Mask, Reading;
      ghost var bytes := data[..];
      ReadWidth(bytes, readPosition, currentBit, n, value, start, end);
      WidthBound(end - start);
      var b := data[readPosition];
      if currentBit + n >= 8 {
        var take := 8 - currentBit;
        ReadChunk(bytes, readPosition, currentBit, n, value, start, end, take);
        MaskIsLow(b, take);
        ShrNone(b);
        n', value' := n - take, Or(value, Shl(And(b, Mask(take)), n - take));
        currentBit := 0;
        readPosition := readPosition + 1;
      } else {
        var right := 8 - currentBit - n;
        ReadChunk(bytes, readPosition, currentBit, n, value, start, end, n);
        MaskIsLow(Shr(b, right), n);
        ShlNone(And(Shr(b, right), Mask(n)));
        n', value' := 0, Or(value, And(Shr(b, right), Mask(n)));
        currentBit := currentBit + n;
      }
      assert data[..] == bytes;
    }

    /** `readBits`: the next bits of the stream as a number; zero when the buffer ends before them. */
    method ReadBits(numBits: byte) returns (value: uint16)
      requires Valid()
      modifies this`readPosition, this`currentBit, this`errors
      ensures Valid()
      ensures numBits > 16 ==>
        && value == 0 && errors == old(errors) + [TooManyBitsRead]
        && readPosition == old(readPosition) && currentBit == old(currentBit)
      ensures numBits <= 16 ==>
        var c, limit := old(ReadCursor()), 8 * MAX_MESSAGE_SIZE;
        && value == BitsAt(data[..], c, numBits)
        && if numBits == 0 || c + numBits <= limit then
             ReadCursor() == c + numBits && errors == old(errors)
           else
             ReadCursor() == (if c <= limit then limit else c) && errors == old(errors) + [MessageTooShort]
    {
      value := 0;
      if numBits > 16 {
        errors := errors + [TooManyBitsRead];
        return;
      }
      var n: nat := numBits;
      ghost var start, end := ReadCursor(), ReadCursor() + numBits;
      ReadStarts(data[..], readPosition, currentBit, n);
      hide BitsOf, FromBits, Reading, Shl;
      while n > 0
        invariant Valid() && errors == old(errors)
        invariant Reading(data[..], readPosition, currentBit, n, value, start, end)
      {
        if readPosition >= MAX_MESSAGE_SIZE {
          ReadStops(data[..], readPosition, currentBit, n, value, start, end);
          errors := errors + [MessageTooShort];
          value := 0;
          return;
        }
        n, value := ReadPass(n, value, start, end);
      }
      ReadStops(data[..], readPosition, currentBit, n, value, start, end);
    }

    /** `resetRead`: reading starts again at the first bit. */
    method ResetRead()
      requires Valid()
      modifies this`readPosition, this`currentBit
      ensures Valid() && ReadCursor() == 0
    {
      readPosition := 0;
      currentBit := 0;
    }

    /** `finalize`: pad to a byte boundary with zero bits and, for telemetry, take the counters. */
    method Finalize(pool: Pool.ServicePool)
      requires Writable() && pool.Valid()
      modifies this, pool
      ensures Writable() && currentBit == 0 && pool.Valid()
      ensures data[..] == old(data[..]) && |Written()| < |old(Written())| + 8
      ensures old(Written()) <= Written() && forall i :: |old(Written())| <= i < |Written()| ==> !Written()[i]
      ensures readPosition == old(readPosition) && errors == old(errors)
      ensures packetType == old(packetType) && serviceType == old(serviceType) && messageType == old(messageType)
      ensures applicationId == old(applicationId) && sourceId == old(sourceId)
      ensures packetType == TM ==>
        && packetSequenceCount == old(pool.packetSequenceCounter) && packetSequenceCount < 0x4000
        && pool.packetSequenceCounter == Pool.NextCount(packetSequenceCount)
        && messageTypeCounter == Pool.CounterOf(old(pool.messageTypeCounter), Pool.TypeKey(serviceType, messageType))
        && pool.messageTypeCounter == old(pool.messageTypeCounter)[
             Pool.TypeKey(serviceType, messageType) := (messageTypeCounter as int + 1) % 0x1_0000]
      ensures packetType == TC ==>
        && packetSequenceCount == old(packetSequenceCount) && messageTypeCounter == old(messageTypeCounter)
        && pool.packetSequenceCounter == old(pool.packetSequenceCounter)
        && pool.messageTypeCounter == old(pool.messageTypeCounter)
    {
      hide StreamBit, Bit;
      if currentBit != 0 {
        currentBit := 0;
        dataSize := dataSize + 1;
      }
      if packetType == TM {
        messageTypeCounter := pool.GetAndUpdateMessageTypeCounter(serviceType, messageType);
        packetSequenceCount := pool.GetAndUpdatePacketSequenceCounter();
      }
    }

    /** `bytes` were written at the end of the message. */
    twostate predicate Appended(bytes: seq<byte>)
      reads this, data
    {
      && old(Valid()) && Valid() && old(dataSize) + |bytes| <= MAX_MESSAGE_SIZE
      && dataSize == old(dataSize) + |bytes|
      && data[..] == Overwrite(old(data[..]), old(dataSize), bytes)
      && currentBit == old(currentBit) && errors == old(errors)
    }

    /** Nothing was written, and `e` was reported. */
    twostate predicate Rejected(e: Error)
      reads this, data
    {
      && dataSize == old(dataSize) && data[..] == old(data[..])
      && currentBit == old(currentBit) && errors == old(errors) + [e]
    }

    /** A refused write leaves the message as it was, but for the report. */
    twostate lemma RejectedKeeps(e: Error)
      requires old(Writable()) && packetType == old(packetType) && Rejected(e)
      ensures Writable() && Written() == old(Written()) && errors == old(errors) + [e]
    {
    }

    /** In the middle of a byte the length was refused, and the string written all the same. */
    twostate predicate AppendedMidByte(string': seq<byte>)
      reads this, data
    {
      && old(Valid()) && Valid() && old(dataSize) + |string'| <= MAX_MESSAGE_SIZE
      && dataSize == old(dataSize) + |string'|
      && data[..] == Overwrite(old(data[..]), old(dataSize), string')
      && currentBit == old(currentBit) && errors == old(errors) + [ByteBetweenBits]
    }

    /** Bytes appended at a byte boundary extend the bit stream. */
    twostate lemma AppendedIsWritten(bytes: seq<byte>)
      requires old(Writable()) && old(currentBit) == 0 && Appended(bytes)
      ensures Writable() && Written() == old(Written()) + BitsOf(bytes)
    {
      OverwriteStream(old(data[..]), old(dataSize), bytes);
    }

    /** `appendByte`. */
    method AppendByte(value: byte)
      requires Valid()
      modifies this`dataSize, this`errors, data
      ensures Valid()
      ensures if old(dataSize) >= MAX_MESSAGE_SIZE then Rejected(MessageTooLarge)
              else if old(currentBit) != 0 then Rejected(ByteBetweenBits)
              else Appended([value])
    {
      if dataSize >= MAX_MESSAGE_SIZE {
        errors := errors + [MessageTooLarge];
        return;
      }
      if currentBit != 0 {
        errors := errors + [ByteBetweenBits];
        return;
      }
      data[dataSize] := value;
      dataSize := dataSize + 1;
    }

    /** `appendHalfword`: two bytes, most significant first. */
    method AppendHalfword(value: uint16)
      requires Valid()
      modifies this`dataSize, this`errors, data
      ensures Valid()
      ensures if old(dataSize) + 2 > MAX_MESSAGE_SIZE then Rejected(MessageTooLarge)
              else if old(currentBit) != 0 then Rejected(ByteBetweenBits)
              else Appended(BytesOf(value, 2))
    {
      if dataSize + 2 > MAX_MESSAGE_SIZE {
        errors := errors + [MessageTooLarge];
        return;
      }
      if currentBit != 0 {
        errors := errors + [ByteBetweenBits];
        return;
      }
      data[dataSize] := value / 0x100 % 0x100;
      data[dataSize + 1] := value % 0x100;
      BytesOfTwo(value);
      dataSize := dataSize + 2;
    }

    /** `appendWord`: four bytes, most significant first. */
    method AppendWord(value: uint32)
      requires Valid()
      modifies this`dataSize, this`errors, data
      ensures Valid()
      ensures if old(dataSize) + 4 > MAX_MESSAGE_SIZE then Rejected(MessageTooLarge)
              else if old(currentBit) != 0 then Rejected(ByteBetweenBits)
              else Appended(BytesOf(value, 4))
    {
      if dataSize + 4 > MAX_MESSAGE_SIZE {
        errors := errors + [MessageTooLarge];
        return;
      }
      if currentBit != 0 {
        errors := errors + [ByteBetweenBits];
        return;
      }
      data[dataSize] := value / 0x100_0000 % 0x100;
      data[dataSize + 1] := value / 0x1_0000 % 0x100;
      data[dataSize + 2] := value / 0x100 % 0x100;
      data[dataSize + 3] := value % 0x100;
      BytesOfFour(value);
      dataSize := dataSize + 4;
    }

    /** `appendString`: the bytes go where the byte cursor is, whatever the bit cursor says. */
    method AppendString(string': seq<byte>)
      requires Valid()
      modifies this`dataSize, this`errors, data
      ensures Valid()
      ensures if old(dataSize) + |string'| > MAX_MESSAGE_SIZE then Rejected(MessageTooLarge)
              else Appended(string')
    {
      if dataSize + |string'| > MAX_MESSAGE_SIZE {
        errors := errors + [MessageTooLarge];
        return;
      }
      forall i | 0 <= i < |string'| {
        data[dataSize + i] := string'[i];
      }
      dataSize := dataSize + |string'|;
    }

    /** `appendOctetString`: a 16-bit length and the bytes, or nothing. */
    method AppendOctetString(string': seq<byte>)
      requires Valid()
      modifies this`dataSize, this`errors, data
      ensures Valid()
      ensures if |string'| >= 0x1_0000 then Rejected(StringTooLarge)
              else if old(dataSize) + 2 + |string'| >= MAX_MESSAGE_SIZE then Rejected(MessageTooLarge)
              else if old(currentBit) == 0 then Appended(BytesOf(|string'|, 2) + string')
              else AppendedMidByte(string')
    {
      if |string'| >= 0x1_0000 {
        errors := errors + [StringTooLarge];
        return;
      }
      if dataSize + 2 + |string'| >= MAX_MESSAGE_SIZE {
        errors := errors + [MessageTooLarge];
        return;
      }
      AppendHalfword(|string'|);
      AppendString(string');
    }

    /** `readByte`. */
    method ReadByte() returns (value: byte)
      requires Valid()
      modifies this`readPosition, this`errors
      ensures value == NumberAt(data[..], old(readPosition), 1)
      ensures readPosition == After(data[..], old(readPosition), 1)
      ensures errors == old(errors) + ReadErrors(data[..], old(readPosition), 1)
    {
      if readPosition >= MAX_MESSAGE_SIZE {
        errors := errors + [MessageTooShort];
        return 0;
      }
      value := data[readPosition];
      BigEndianOne(data[..], readPosition);
      readPosition := readPosition + 1;
    }

    /** `readHalfword`. */
    method ReadHalfword() returns (value: uint16)
      requires Valid()
      modifies this`readPosition, this`errors
      ensures value == NumberAt(data[..], old(readPosition), 2)
      ensures readPosition == After(data[..], old(readPosition), 2)
      ensures errors == old(errors) + ReadErrors(data[..], old(readPosition), 2)
    {
      if readPosition as int + 2 > MAX_MESSAGE_SIZE {
        errors := errors + [MessageTooShort];
        return 0;
      }
      value := 0x100 * (data[readPosition] as int) + data[readPosition + 1];
      BigEndianTwo(data[..], readPosition);
      readPosition := readPosition + 2;
    }

    /** `readWord`. */
    method ReadWord() returns (value: uint32)
      requires Valid()
      modifies this`readPosition, this`errors
      ensures value == NumberAt(data[..], old(readPosition), 4)
      ensures readPosition == After(data[..], old(readPosition), 4)
      ensures errors == old(errors) + ReadErrors(data[..], old(readPosition), 4)
    {
      if readPosition as int + 4 > MAX_MESSAGE_SIZE {
        errors := errors + [MessageTooShort];
        return 0;
      }
      value := 0x100_0000 * (data[readPosition] as int) + 0x1_0000 * (data[readPosition + 1] as int)
        + 0x100 * (data[readPosition + 2] as int) + data[readPosition + 3];
      BigEndianFour(data[..], readPosition);
      readPosition := readPosition + 4;
    }

    /** `readString`: fills `string'` with the next `size` bytes, or leaves it and the cursor alone. */
    method ReadString(string': array<byte>, size: uint16)
      requires Valid() && size <= string'.Length && string' != data
      modifies this`readPosition, this`errors, string'
      ensures if old(readPosition) as int + size > MAX_MESSAGE_SIZE then
                string'[..] == old(string'[..]) && readPosition == old(readPosition) &&
                errors == old(errors) + [MessageTooShort]
              else if size >= MAX_STRING_SIZE then
                string'[..] == old(string'[..]) && readPosition == old(readPosition) &&
                errors == old(errors) + [StringTooShort]
              else
                string'[..] == data[old(readPosition)..old(readPosition) + size] + old(string'[size..]) &&
                readPosition == old(readPosition) + size && errors == old(errors)
      ensures data[..] == old(data[..])
      ensures readPosition == AfterString(data[..], old(readPosition), size)
    {
      if readPosition as int + size > MAX_MESSAGE_SIZE {
        errors := errors + [MessageTooShort];
        return;
      }
      if size >= MAX_STRING_SIZE {
        errors := errors + [StringTooShort];
        return;
      }
      forall i | 0 <= i < size {
        string'[i] := data[readPosition + i];
      }
      readPosition := readPosition + size;
    }

    /** `readString` into a zeroed buffer of `size` bytes, as the services do. */
    method ReadFixedString(size: uint16) returns (string': seq<byte>)
      requires Valid()
      modifies this`readPosition, this`errors
      ensures string' == StringAt(data[..], old(readPosition), size)
      ensures readPosition == AfterString(data[..], old(readPosition), size)
      ensures errors == old(errors) + StringErrors(data[..], old(readPosition), size)
    {
      var buffer := new byte[size](_ => 0);
      assert buffer[..] == Zeros(size);
      ghost var bytes := data[..];
      ReadString(buffer, size);
      string' := buffer[..];
    }

    /** `readOctetString<MAX_SIZE>`: the string, or an empty one when its length does not fit. */
    method ReadOctetString(maxSize: nat) returns (string': seq<byte>)
      requires Valid()
      modifies this`readPosition, this`errors
      ensures var p, d := old(readPosition), data[..];
        var length, body := NumberAt(d, p, 2), After(d, p, 2);
        if length > maxSize then
          string' == [] && readPosition == body && errors == old(errors) + ReadErrors(d, p, 2) + [StringTooShort]
        else if body + length > MAX_MESSAGE_SIZE then
          string' == [] && readPosition == body && errors == old(errors) + ReadErrors(d, p, 2) + [MessageTooShort]
        else
          string' == d[body..body + length] && readPosition == body + length &&
          errors == old(errors) + ReadErrors(d, p, 2)
    {
      string' := [];
      var length := ReadHalfword();
      if length > maxSize {
        errors := errors + [StringTooShort];
        return;
      }
      if readPosition as int + length > MAX_MESSAGE_SIZE {
        errors := errors + [MessageTooShort];
        return;
      }
      string' := data[readPosition..readPosition + length];
      readPosition := readPosition + length;
    }

    /** `readSint64`, the more significant word first. */
    method ReadSigned() returns (value: int)
      requires Valid()
      modifies this`readPosition, this`errors
      ensures var d, p := data[..], old(readPosition);
        && value == SignedAt(d, p)
        && readPosition == After(d, After(d, p, 4), 4)
        && errors == old(errors) + ReadErrors(d, p, 4) + ReadErrors(d, After(d, p, 4), 4)
    {
      var high := ReadWord();
      var low := ReadWord();
      value := 0x1_0000_0000 * (high as int) + low;
      if value >= 0x8000_0000_0000_0000 {
        value := value - 0x1_0000_0000_0000_0000;
      }
    }

    predicate IsTc(serviceType: byte, messageType: byte)
      reads this
    {
      packetType == TC && this.serviceType == serviceType && this.messageType == messageType
    }

    /** `assertTC`. */
    method AssertTc(serviceType: byte, messageType: byte) returns (ok: bool)
      modifies this`errors
      ensures ok == IsTc(serviceType, messageType)
      ensures errors == old(errors) + if ok then [] else [OtherMessageType]
    {
      ok := IsTc(serviceType, messageType);
      if !ok {
        errors := errors + [OtherMessageType];
      }
    }

    /** `skipBytes`: the 16-bit read position moves on, unchecked. */
    method SkipBytes(numberOfBytes: uint16)
      modifies this`readPosition
      ensures readPosition == Skipped(old(readPosition), numberOfBytes)
      ensures readPosition == (old(readPosition) as int + numberOfBytes) % 0x1_0000
    {
      readPosition := (readPosition as int + numberOfBytes) % 0x1_0000;
    }
  }

  lemma BytesOfTwo(value: uint16)
    ensures BytesOf(value, 2) == [value / 0x100 % 0x100, value % 0x100]
  {
    assert BytesOf(value / 0x100, 1) == [value / 0x100 % 0x100];
  }

  lemma BytesOfFour(value: uint32)
    ensures BytesOf(value, 4) ==
      [value / 0x100_0000 % 0x100, value / 0x1_0000 % 0x100, value / 0x100 % 0x100, value % 0x100]
  {
    var h := value / 0x1_0000;
    assert value / 0x100 / 0x100 == h && h / 0x100 == value / 0x100_0000;
    assert BytesOf(h, 2) == [h / 0x100 % 0x100, h % 0x100] by { BytesOfTwo(h); }
    assert BytesOf(value / 0x100, 3) == BytesOf(h, 2) + [value / 0x100 % 0x100];
  }

  lemma TwoBytesBack(v: uint16)
    ensures 0x100 * (BytesOf(v, 2)[0] as int) + BytesOf(v, 2)[1] == v
  {
    BytesOfTwo(v);
    hide BytesOf;
  }

  lemma FourBytesBack(v: uint32)
    ensures var b := BytesOf(v, 4);
      0x100_0000 * (b[0] as int) + 0x1_0000 * (b[1] as int) + 0x100 * (b[2] as int) + b[3] == v
  {
    BytesOfFour(v);
    hide BytesOf;
    assert v / 0x1_0000 == 0x100 * (v / 0x100_0000) + v / 0x1_0000 % 0x100;
    assert v / 0x100 == 0x100 * (v / 0x1_0000) + v / 0x100 % 0x100;
  }

  lemma TwoRoundTrip(value: uint16)
    ensures BigEndian(BytesOf(value, 2)) == value
  {
    Pow2Values();
    BigEndianBytesOf(value, 2);
  }

  lemma FourRoundTrip(value: uint32)
    ensures BigEndian(BytesOf(value, 4)) == value
  {
    Pow2Values();
    Pow2Byte(16);
    Pow2Byte(24);
    hide BigEndian, BytesOf;
    BigEndianBytesOf(value, 4);
  }

  lemma BigEndianOne(d: seq<byte>, p: nat)
    requires p + 1 <= |d|
    ensures BigEndian(d[p..p + 1]) == d[p]
  {
    assert d[p..p + 1][..0] == [];
  }

  lemma BigEndianTwo(d: seq<byte>, p: nat)
    requires p + 2 <= |d|
    ensures BigEndian(d[p..p + 2]) == 0x100 * (d[p] as int) + d[p + 1]
  {
    assert d[p..p + 2][..1] == d[p..p + 1];
    BigEndianOne(d, p);
  }

  lemma BigEndianFour(d: seq<byte>, p: nat)
    requires p + 4 <= |d|
    ensures BigEndian(d[p..p + 4]) == 0x100_0000 * (d[p] as int) + 0x1_0000 * (d[p + 1] as int)
      + 0x100 * (d[p + 2] as int) + d[p + 3]
  {
    assert d[p..p + 4][..3] == d[p..p + 3] && d[p..p + 3][..2] == d[p..p + 2];
    BigEndianTwo(d, p);
  }

  /** What reading a number at `p` yields: the bytes, most significant first, or zero, an unmoved position
      and a report. */
  lemma ReadsExactly(d: seq<byte>, p: nat)
    ensures ByteAt(d, p) == if p + 1 <= |d| then d[p] else 0
    ensures HalfAt(d, p) as int == if p + 2 <= |d| then 0x100 * (d[p] as int) + d[p + 1] else 0
    ensures WordAt(d, p) as int == if p + 4 <= |d| then 0x100_0000 * (d[p] as int) + 0x1_0000 * (d[p + 1] as int)
      + 0x100 * (d[p + 2] as int) + d[p + 3] else 0
    ensures forall n {:trigger After(d, p, n)} :: After(d, p, n) == if p + n <= |d| then p + n else p
    ensures forall n {:trigger ReadErrors(d, p, n)} :: ReadErrors(d, p, n) == [] <==> p + n <= |d|
  {
    if p + 1 <= |d| { BigEndianOne(d, p); }
    if p + 2 <= |d| { BigEndianTwo(d, p); }
    if p + 4 <= |d| { BigEndianFour(d, p); }
    hide BigEndian;
  }

  /** What reading a string yields: its bytes, or zeros and the position and the report of a refusal. */
  lemma ReadsString(d: seq<byte>, p: nat, size: nat)
    ensures p + size <= |d| && size < 256 ==>
      && StringAt(d, p, size) == d[p..p + size] && AfterString(d, p, size) == p + size
      && StringErrors(d, p, size) == []
    ensures p + size > |d| ==>
      && (forall i :: 0 <= i < size ==> StringAt(d, p, size)[i] == 0) && AfterString(d, p, size) == p
      && StringErrors(d, p, size) == [MessageTooShort]
    ensures p + size <= |d| && size >= 256 ==>
      && (forall i :: 0 <= i < size ==> StringAt(d, p, size)[i] == 0) && AfterString(d, p, size) == p
      && StringErrors(d, p, size) == [StringTooShort]
  {
  }

  /** A 64-bit number reads back from the two's complement words it is written as. */
  lemma SignedRoundTrip(d: seq<byte>, p: nat, v: int)
    requires p + 8 <= |d| && -0x8000_0000_0000_0000 <= v < 0x8000_0000_0000_0000
    requires var w := v % 0x1_0000_0000_0000_0000;
      WordAt(d, p) == w / 0x1_0000_0000 && WordAt(d, p + 4) == w % 0x1_0000_0000
    ensures SignedAt(d, p) == v
  {
    assert NumberAt(d, p, 4) == WordAt(d, p) && NumberAt(d, p + 4, 4) == WordAt(d, p + 4);
    hide WordAt, NumberAt;
  }

  /** Appending a list of bit fields to an empty message. */
  method WriteFields(m: Message, fields: seq<Field>)
    requires m.Writable() && m.Written() == [] && m.errors == []
    requires WellFormed(fields) && |AllBits(fields)| <= 8 * MAX_MESSAGE_SIZE
    modifies m, m.data
    ensures m.Writable() && m.Written() == AllBits(fields) && m.errors == []
  {
    assert fields[..0] == [];
    for i := 0 to |fields|
      invariant m.Writable() && m.Written() == AllBits(fields[..i]) && m.errors == []
    {
      var f := fields[i];
      assert f in fields;
      assert fields[..i + 1] == fields[..i] + [f];
      hide ToBits, Pow2;
      WidthBound(f.width);
      AllBitsPrefix(fields, i + 1);
      AllBitsAppend(fields[..i], f);
      m.AppendBits(f.width, f.value);
      assert m.Written() == AllBits(fields[..i + 1]);
    }
    assert fields[..|fields|] == fields;
  }

  /** Reading consecutive slices of a message from its first bit. */
  method ReadSlices(m: Message, all: seq<bool>, widths: seq<nat>) returns (values: seq<nat>)
    requires m.Valid() && m.errors == [] && all <= BitsOf(m.data[..])
    requires Total(widths) <= |all| && forall w :: w in widths ==> w <= 16
    modifies m`readPosition, m`currentBit, m`errors
    ensures values == Slices(all, widths) && m.errors == []
  {
    m.ResetRead();
    values := [];
    ghost var d := m.data[..];
    assert widths[..0] == [];
    for i := 0 to |widths|
      invariant m.Valid() && m.errors == [] && m.data[..] == d
      invariant m.ReadCursor() == Total(widths[..i]) <= |all|
      invariant values == Slices(all, widths[..i])
    {
      var w := widths[i];
      assert w in widths;
      assert widths[..i + 1] == widths[..i] + [w];
      hide BitsOf, Slice;
      TotalPrefix(widths, i + 1);
      SlicesAppend(all, widths[..i], w);
      SliceOfPrefix(all, BitsOf(d), Total(widths[..i]), w);
      var v := m.ReadBits(w);
      values := values + [v];
      assert values == Slices(all, widths[..i + 1]);
    }
    assert widths[..|widths|] == widths;
  }

  /** Writing bit fields and reading the stream back under any partition into widths. */
  method BitStreamRoundTrip(fields: seq<Field>, widths: seq<nat>) returns (values: seq<nat>)
    requires WellFormed(fields) && |AllBits(fields)| <= 8 * MAX_MESSAGE_SIZE
    requires Total(widths) <= |AllBits(fields)| && forall w :: w in widths ==> w <= 16
    ensures values == Slices(AllBits(fields), widths)
    ensures widths == Widths(fields) ==> values == Values(fields)
  {
    var m := new Message(0, 0, TC, 1);
    WriteFields(m, fields);
    values := ReadSlices(m, AllBits(fields), widths);
    if widths == Widths(fields) {
      SameWidthsSameValues(fields);
    }
  }
}
