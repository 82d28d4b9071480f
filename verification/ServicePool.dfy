/** The counters every outgoing telemetry packet takes its numbers from. */
module ServicePools {
  import opened Bits

  const MAX_PACKET_SEQUENCE_COUNTER_BIT := 14
  const SEQUENCE_COUNT_LIMIT := 0x4000

  /** The packet sequence count after `c`. */
  function NextCount(c: nat): nat
  {
    if c + 1 >= SEQUENCE_COUNT_LIMIT then 0 else c + 1
  }

  function CountAfter(c: nat, packets: nat): nat
  {
    if packets == 0 then c else NextCount(CountAfter(c, packets - 1))
  }

  /** The sequence count never leaves 14 bits, and is the packet number modulo 2^14. */
  lemma {:induction false} CountIsModular(c: nat, packets: nat)
    requires c < SEQUENCE_COUNT_LIMIT
    ensures CountAfter(c, packets) == (c + packets) % 0x4000
  {
    if packets > 0 {
      CountIsModular(c, packets - 1);
      NextModular(c + packets - 1);
    }
  }

  lemma NextModular(x: nat)
    ensures NextCount(x % SEQUENCE_COUNT_LIMIT) == (x + 1) % SEQUENCE_COUNT_LIMIT
  {
    var q, r := x / SEQUENCE_COUNT_LIMIT, x % SEQUENCE_COUNT_LIMIT;
    assert x == 0x4000 * q + r;
  }

  /** Two packets of one run carry the same count only if 2^14 or a multiple lies between them. */
  lemma CountsDistinct(c: nat, m: nat, n: nat)
    requires c < SEQUENCE_COUNT_LIMIT && m < n
    ensures CountAfter(c, m) == CountAfter(c, n) <==> (n - m) % SEQUENCE_COUNT_LIMIT == 0
  {
    CountIsModular(c, m);
    CountIsModular(c, n);
    hide CountAfter;
    SameRemainder(c + m, c + n);
  }

  lemma SameRemainder(x: nat, y: nat)
    requires x <= y
    ensures x % 0x4000 == y % 0x4000 <==> (y - x) % 0x4000 == 0
  {
    var p, q, r, s := x / 0x4000, y / 0x4000, x % 0x4000, y % 0x4000;
    assert y - x == 0x4000 * (q - p) + (s - r);
    if s >= r {
      Remainder(q - p, s - r);
    } else {
      Remainder(q - p - 1, s - r + 0x4000);
    }
  }

  lemma Remainder(q: int, r: int)
    requires 0 <= r < 0x4000
    ensures (0x4000 * q + r) % 0x4000 == r
  {
  }

  function CounterOf(counters: map<uint16, uint16>, key: uint16): uint16
  {
    if key in counters then counters[key] else 0
  }

  function TypeKey(serviceType: byte, messageType: byte): uint16
  {
    0x100 * (serviceType as int) + messageType
  }

  /** Different types have different keys, so that each has its own counter. */
  lemma TypeKeyInjective(s: byte, m: byte, s': byte, m': byte)
    ensures TypeKey(s, m) == TypeKey(s', m') <==> s == s' && m == m'
    ensures TypeKey(s, m) / 0x100 == s && TypeKey(s, m) % 0x100 == m
  {
  }

  // ----- whole runs of telemetry

  /** A service type and a message type. */
  type MessageKind = (byte, byte)

  /** The counters after messages of these kinds. */
  function CountersAfter(kinds: seq<MessageKind>): map<uint16, uint16>
  {
    if kinds == [] then map[]
    else
      var n := |kinds| - 1;
      var counters, key := CountersAfter(kinds[..n]), TypeKey(kinds[n].0, kinds[n].1);
      counters[key := (CounterOf(counters, key) as int + 1) % 0x1_0000]
  }

  /** How many of the messages are of the kind. */
  function Occurrences(kinds: seq<MessageKind>, kind: MessageKind): nat
  {
    if kinds == [] then 0
    else Occurrences(kinds[..|kinds| - 1], kind) + if kinds[|kinds| - 1] == kind then 1 else 0
  }

  /** The counter of a kind is the number of its messages so far, modulo 2^16, whatever else is sent. */
  lemma {:induction false} CounterIsOccurrences(kinds: seq<MessageKind>, kind: MessageKind)
    ensures CounterOf(CountersAfter(kinds), TypeKey(kind.0, kind.1)) == Occurrences(kinds, kind) % 0x1_0000
    decreases |kinds|
  {
    if kinds != [] {
      var n := |kinds| - 1;
      CounterIsOccurrences(kinds[..n], kind);
      TypeKeyInjective(kinds[n].0, kinds[n].1, kind.0, kind.1);
      hide TypeKey;
      WrapNext(Occurrences(kinds[..n], kind));
    }
  }

  lemma WrapNext(x: nat)
    ensures (x % 0x1_0000 + 1) % 0x1_0000 == (x + 1) % 0x1_0000
  {
    var q, r := x / 0x1_0000, x % 0x1_0000;
    assert x == 0x1_0000 * q + r;
  }

  class ServicePool {
    /** One counter per (service type, message type) pair, absent ones being zero. */
    var messageTypeCounter: map<uint16, uint16>
    var packetSequenceCounter: uint16

    ghost predicate Valid()
      reads this
    {
      packetSequenceCounter < SEQUENCE_COUNT_LIMIT
    }

    constructor ()
      ensures Valid() && packetSequenceCounter == 0 && messageTypeCounter == map[]
    {
      messageTypeCounter, packetSequenceCounter := map[], 0;
    }

    /** `getAndUpdateMessageTypeCounter`: the pair's own counter, 16 bits wide. */
    method GetAndUpdateMessageTypeCounter(serviceType: byte, messageType: byte) returns (count: uint16)
      modifies this`messageTypeCounter
      ensures count == CounterOf(old(messageTypeCounter), TypeKey(serviceType, messageType))
      ensures messageTypeCounter ==
        old(messageTypeCounter)[TypeKey(serviceType, messageType) := (count as int + 1) % 0x1_0000]
    {
      var key := TypeKey(serviceType, messageType);
      count := CounterOf(messageTypeCounter, key);
      messageTypeCounter := messageTypeCounter[key := (count as int + 1) % 0x1_0000];
    }

    /** `getAndUpdatePacketSequenceCounter`: the current count; the next one wraps after 2^14 - 1. */
    method GetAndUpdatePacketSequenceCounter() returns (count: uint16)
      requires Valid()
      modifies this`packetSequenceCounter
      ensures Valid() && count == old(packetSequenceCounter) && count < SEQUENCE_COUNT_LIMIT
      ensures packetSequenceCounter == NextCount(count)
    {
      count := packetSequenceCounter;
      packetSequenceCounter := packetSequenceCounter + 1;
      if packetSequenceCounter >= Shl(1, MAX_PACKET_SEQUENCE_COUNTER_BIT) {
        packetSequenceCounter := 0;
      }
      ShlOne(14);
      Pow2Values();
    }
  }
}
