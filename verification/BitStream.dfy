/** Byte buffers seen as bit streams: what one step of the bit loops of `Message` does. */
module BitStream {
  import opened Bits

  /** No bit at or after `from` is set. */
  predicate Clear(bytes: seq<byte>, from: nat)
  {
    forall i: nat :: from <= i < 8 * |bytes| ==> !StreamBit(bytes, i)
  }

  /** OR-ing `v` into the clear low bits of byte `pos`, `room` bits further down. */
  function Put(bytes: seq<byte>, pos: nat, v: nat): (r: seq<byte>)
    requires pos < |bytes| && v < 256
    ensures |r| == |bytes|
  {
    ByteOr(bytes[pos], v);
    bytes[pos := Or(bytes[pos], v)]
  }

  lemma PutBit(bytes: seq<byte>, pos: nat, v: nat, i: nat)
    requires pos < |bytes| && v < 256 && i < 8 * |bytes|
    ensures StreamBit(Put(bytes, pos, v), i) <==> StreamBit(bytes, i) || (i / 8 == pos && Bit(v, 7 - i % 8))
  {
    hide Or, Bit;
    OrBit(bytes[pos], v, 7 - i % 8);
  }

  /** The last `take` bits of an `n`-bit value, after the first `n - take` were appended. */
  lemma ToBitsSplit(d: nat, n: nat, take: nat)
    requires take <= n
    ensures ToBits(d, n) == ToBits(Shr(d, n - take), take) + ToBits(Low(d, n - take), n - take)
  {
    hide Bit, Shr, Low;
    forall i | 0 <= i < n
      ensures ToBits(d, n)[i] == (ToBits(Shr(d, n - take), take) + ToBits(Low(d, n - take), n - take))[i]
    {
      if i < take {
        ShrBit(d, n - take, take - 1 - i);
      } else {
        LowBit(d, n - take, n - 1 - i);
      }
    }
  }

  /** Appending `take` bits that fit in the byte at the cursor. */
  lemma AppendInByte(bytes: seq<byte>, pos: nat, cur: nat, d: nat, take: nat)
    requires pos < |bytes| && cur + take <= 8 && cur < 8
    requires Clear(bytes, 8 * pos + cur) && d < Pow2(take)
    ensures var v := Shl(d, 8 - cur - take);
      && v < 256
      && BitsOf(Put(bytes, pos, v))[..8 * pos + cur + take] == BitsOf(bytes)[..8 * pos + cur] + ToBits(d, take)
      && Clear(Put(bytes, pos, v), 8 * pos + cur + take)
  {
    var s := 8 - cur - take;
    var v := Shl(d, s);
    assert v < 256 by {
      ShlBound(d, take, s);
      Pow2Mono(take + s, 8);
      Pow2Values();
    }
    hide Bit, Shl, Put, Pow2;
    var r := Put(bytes, pos, v);
    forall i: nat | i < 8 * |bytes|
      ensures StreamBit(r, i) <==>
        (StreamBit(bytes, i) ||
         (8 * pos + cur <= i < 8 * pos + cur + take && Bit(d, take - 1 - (i - 8 * pos - cur))))
    {
      PutBit(bytes, pos, v, i);
      if i / 8 == pos {
        var k := 7 - i % 8;
        assert i == 8 * pos + 7 - k;
        ShlBit(d, s, k);
        if k >= s + take {
          HighBit(d, take, k - s);
        }
      }
    }
    var extended := BitsOf(bytes)[..8 * pos + cur] + ToBits(d, take);
    forall i | 0 <= i < 8 * pos + cur + take
      ensures BitsOf(r)[i] == extended[i]
    {
      if i >= 8 * pos + cur {
        assert !StreamBit(bytes, i);
      }
    }
  }

  /** `n` bits of `d` are still to be appended at the cursor, and then the stream is `goal`. */
  predicate Pending(bytes: seq<byte>, pos: nat, cur: nat, d: nat, n: nat, goal: seq<bool>)
  {
    && 8 * pos + cur <= 8 * |bytes| && cur < 8
    && Clear(bytes, 8 * pos + cur)
    && d < Pow2(n)
    && BitsOf(bytes)[..8 * pos + cur] + ToBits(d, n) == goal
  }

  /** One pass of the append loop that fills the byte at the cursor. */
  lemma FillByte(bytes: seq<byte>, pos: nat, cur: nat, d: nat, n: nat, goal: seq<bool>)
    requires Pending(bytes, pos, cur, d, n, goal) && pos < |bytes| && cur < 8 <= cur + n
    ensures var rest := n - (8 - cur);
      && Shr(d, rest) < 256
      && Pending(Put(bytes, pos, Shr(d, rest)), pos + 1, 0, Low(d, rest), rest, goal)
  {
    var take, rest := 8 - cur, n - (8 - cur);
    var v := Shr(d, rest);
    hide Bit, Shl, Shr, Low, And, Pow2, Put, Clear;
    ShrBound(d, take, rest);
    AppendInByte(bytes, pos, cur, v, take);
    ShlNone(v);
    ToBitsSplit(d, n, take);
    var before, filled := BitsOf(bytes)[..8 * pos + cur], BitsOf(Put(bytes, pos, v))[..8 * (pos + 1)];
    assert filled == before + ToBits(v, take);
    assert (before + ToBits(v, take)) + ToBits(Low(d, rest), rest) ==
      before + (ToBits(v, take) + ToBits(Low(d, rest), rest));
  }

  /** The last pass, when the remaining bits fit in the byte at the cursor. */
  lemma PartByte(bytes: seq<byte>, pos: nat, cur: nat, d: nat, n: nat, goal: seq<bool>)
    requires Pending(bytes, pos, cur, d, n, goal) && pos < |bytes| && cur + n < 8
    ensures Shl(d, 8 - cur - n) < 256
    ensures Pending(Put(bytes, pos, Shl(d, 8 - cur - n)), pos, cur + n, 0, 0, goal)
  {
    hide Bit, Shl, Put, Clear, Pow2;
    AppendInByte(bytes, pos, cur, d, n);
    Pow2Values();
    var filled := BitsOf(Put(bytes, pos, Shl(d, 8 - cur - n)))[..8 * pos + cur + n];
    assert filled + ToBits(0, 0) == filled;
  }

  // ----- digits above the width

  /** The digits of `d` above its width `n`, where the OR of the first pass puts them: into the bits
      of the byte before the cursor. */
  function Excess(cur: nat, d: nat, n: nat): nat
    requires cur < 8
  {
    Low(Shl(Shr(d, n), 8 - cur), 8)
  }

  lemma ExcessBit(cur: nat, d: nat, n: nat, k: nat)
    requires cur < 8
    ensures Bit(Excess(cur, d, n), k) <==> 8 - cur <= k < 8 && Bit(d, n + k - (8 - cur))
  {
    hide Bit, Shl, Shr, Low;
    LowBit(Shl(Shr(d, n), 8 - cur), 8, k);
    ShlBit(Shr(d, n), 8 - cur, k);
    if k >= 8 - cur {
      ShrBit(d, n, k - (8 - cur));
    }
  }

  lemma ExcessBound(cur: nat, d: nat, n: nat)
    requires cur < 8
    ensures Excess(cur, d, n) < 256
  {
    Pow2Values();
    hide Low, Shl, Shr, Pow2;
  }

  /** The buffer with those digits in place, before the bits themselves are appended. */
  function Smear(bytes: seq<byte>, pos: nat, cur: nat, d: nat, n: nat): (r: seq<byte>)
    requires cur < 8
    ensures |r| == |bytes|
  {
    ExcessBound(cur, d, n);
    if n == 0 || pos >= |bytes| then bytes else Put(bytes, pos, Excess(cur, d, n))
  }

  /** What that makes of the bits written so far: the digit `j` above the width is ORed into the bit
      `j + 1` places before the cursor, as far back as the started byte goes. */
  function Smeared(written: seq<bool>, started: nat, d: nat, n: nat): seq<bool>
  {
    seq(|written|, i requires 0 <= i < |written| =>
      written[i] || (n > 0 && i + started >= |written| && Bit(d, n + |written| - 1 - i)))
  }

  /** Values that fit their width leave the written bits alone. */
  lemma NothingSmeared(written: seq<bool>, started: nat, d: nat, n: nat)
    requires d < Pow2(n)
    ensures Smeared(written, started, d, n) == written
  {
    hide Bit, Pow2;
    forall i | 0 <= i < |written|
      ensures Smeared(written, started, d, n)[i] == written[i]
    {
      HighBit(d, n, n + |written| - 1 - i);
    }
  }

  /** The digit `j` above the width of `d` stands over a zero, `j + 1` places before the cursor. */
  predicate Clashes(written: seq<bool>, d: nat, n: nat, j: nat)
  {
    j < |written| && !written[|written| - 1 - j] && Bit(d, n + j)
  }

  /** Written bits change exactly when a digit above the width stands over a zero of the started byte. */
  lemma SmearedExactly(written: seq<bool>, started: nat, d: nat, n: nat)
    requires n > 0
    ensures Smeared(written, started, d, n) != written <==> exists j: nat :: j < started && Clashes(written, d, n, j)
  {
    hide Bit;
    var last, smeared := |written| - 1, Smeared(written, started, d, n);
    if smeared != written {
      var i :| 0 <= i <= last && smeared[i] != written[i];
      assert Clashes(written, d, n, last - i);
    }
    if j: nat :| j < started && Clashes(written, d, n, j) {
      assert smeared[last - j] != written[last - j];
    }
  }

  /** After one zero bit, the value 2 announced as one bit wide turns that bit into a one. */
  lemma OverwideValue()
    ensures Smeared([false], 1, 2, 1) == [true]
  {
    assert Bit(1, 0);
    assert Bit(2, 1);
  }

  lemma SmearBit(bytes: seq<byte>, pos: nat, cur: nat, d: nat, n: nat, i: nat)
    requires cur < 8 && 8 * pos + cur <= 8 * |bytes| && i < 8 * |bytes|
    ensures StreamBit(Smear(bytes, pos, cur, d, n), i) <==>
      StreamBit(bytes, i) || (n > 0 && 8 * pos <= i < 8 * pos + cur && Bit(d, n + (8 * pos + cur - 1 - i)))
  {
    hide Bit, Excess, Put, StreamBit;
    if n > 0 && pos < |bytes| {
      ExcessBound(cur, d, n);
      PutBit(bytes, pos, Excess(cur, d, n), i);
      ExcessBit(cur, d, n, 7 - i % 8);
      if i / 8 == pos {
        assert i == 8 * pos + i % 8;
      }
    }
  }

  /** The same as `Pending`, for a value that need not fit its width. */
  predicate Appending(bytes: seq<byte>, pos: nat, cur: nat, d: nat, n: nat, goal: seq<bool>)
  {
    cur < 8 && Pending(Smear(bytes, pos, cur, d, n), pos, cur, Low(d, n), n, goal)
  }

  lemma AppendStarts(bytes: seq<byte>, pos: nat, cur: nat, d: nat, n: nat)
    requires 8 * pos + cur <= 8 * |bytes| && cur < 8 && Clear(bytes, 8 * pos + cur)
    ensures var w := BitsOf(bytes)[..8 * pos + cur];
      Appending(bytes, pos, cur, d, n, Smeared(w, cur, d, n) + ToBits(d, n))
  {
    hide Bit, Smear, Low, StreamBit, Pow2;
    var r, w := Smear(bytes, pos, cur, d, n), BitsOf(bytes)[..8 * pos + cur];
    forall i: nat | i < 8 * |bytes|
      ensures StreamBit(r, i) <==>
        StreamBit(bytes, i) || (n > 0 && 8 * pos <= i < 8 * pos + cur && Bit(d, n + (8 * pos + cur - 1 - i)))
    {
      SmearBit(bytes, pos, cur, d, n, i);
    }
    forall i | 0 <= i < 8 * pos + cur
      ensures BitsOf(r)[i] == Smeared(w, cur, d, n)[i]
    {
      assert n + |w| - 1 - i == n + (8 * pos + cur - 1 - i);
    }
    assert BitsOf(r)[..8 * pos + cur] == Smeared(w, cur, d, n);
    ToBitsLow(d, n);
  }

  lemma ToBitsLow(d: nat, n: nat)
    ensures ToBits(Low(d, n), n) == ToBits(d, n)
  {
    hide Bit, Low;
    forall i | 0 <= i < n
      ensures ToBits(Low(d, n), n)[i] == ToBits(d, n)[i]
    {
      LowBit(d, n, n - 1 - i);
    }
  }

  lemma NowhereSmeared(bytes: seq<byte>, pos: nat, cur: nat, d: nat, n: nat)
    requires cur < 8 && (n == 0 || pos >= |bytes|)
    ensures Smear(bytes, pos, cur, d, n) == bytes
  {
  }

  /** Once the value fits its width nothing is smeared any more. */
  lemma SmearNone(bytes: seq<byte>, pos: nat, cur: nat, d: nat, n: nat)
    requires cur < 8 && d < Pow2(n)
    ensures Smear(bytes, pos, cur, d, n) == bytes && Low(d, n) == d
  {
    LowOfSmall(d, n);
    if n > 0 && pos < |bytes| {
      forall k: nat
        ensures Bit(Or(bytes[pos], Excess(cur, d, n)), k) <==> Bit(bytes[pos], k)
      {
        hide Bit, Or, Excess, Pow2;
        OrBit(bytes[pos], Excess(cur, d, n), k);
        ExcessBit(cur, d, n, k);
        if 8 - cur <= k < 8 {
          HighBit(d, n, n + k - (8 - cur));
        }
      }
      hide Bit, Or, Excess, Pow2;
      SameBits(Or(bytes[pos], Excess(cur, d, n)), bytes[pos]);
    }
  }

  lemma LowByteBound(x: nat)
    ensures Low(x, 8) < 256
  {
    Pow2Values();
  }

  lemma FillBit(cur: nat, d: nat, n: nat, rest: nat, k: nat)
    requires cur < 8 && rest == n - (8 - cur)
    ensures Bit(Low(Shr(d, rest), 8), k) <==> Bit(Excess(cur, d, n), k) || Bit(Shr(Low(d, n), rest), k)
  {
    hide Bit, Low, Shr, Excess, Pow2;
    LowBit(Shr(d, rest), 8, k);
    ShrBit(d, rest, k);
    ExcessBit(cur, d, n, k);
    ShrBit(Low(d, n), rest, k);
    LowBit(d, n, rest + k);
    assert k >= 8 - cur ==> n + k - (8 - cur) == rest + k;
  }

  lemma PartBit(cur: nat, d: nat, n: nat, s: nat, k: nat)
    requires cur < 8 && n > 0 && s == 8 - cur - n
    ensures Bit(Low(Shl(d, s), 8), k) <==> Bit(Excess(cur, d, n), k) || Bit(Shl(Low(d, n), s), k)
  {
    hide Bit, Low, Shl, Excess, Pow2;
    LowBit(Shl(d, s), 8, k);
    ShlBit(d, s, k);
    ExcessBit(cur, d, n, k);
    ShlBit(Low(d, n), s, k);
    if k >= s {
      LowBit(d, n, k - s);
      assert n + k - (8 - cur) == k - s;
    }
  }

  /** The OR that fills the byte at the cursor, on any value. */
  lemma SmearFill(bytes: seq<byte>, pos: nat, cur: nat, d: nat, n: nat)
    requires pos < |bytes| && cur < 8 <= cur + n && Shr(Low(d, n), n - (8 - cur)) < 256
    ensures var rest := n - (8 - cur);
      && Or(bytes[pos], Low(Shr(d, rest), 8)) < 256
      && bytes[pos := Or(bytes[pos], Low(Shr(d, rest), 8))] ==
           Put(Smear(bytes, pos, cur, d, n), pos, Shr(Low(d, n), rest))
      && Low(Low(d, n), rest) == Low(d, rest)
  {
    hide Bit, Low, Shr, Excess, Pow2, Or, Put;
    var rest := n - (8 - cur);
    forall k: nat
      ensures Bit(Low(Shr(d, rest), 8), k) <==> Bit(Excess(cur, d, n), k) || Bit(Shr(Low(d, n), rest), k)
    {
      FillBit(cur, d, n, rest, k);
    }
    ExcessBound(cur, d, n);
    LowByteBound(Shr(d, rest));
    OrBoth(bytes, pos, Low(Shr(d, rest), 8), Excess(cur, d, n), Shr(Low(d, n), rest));
    LowOfLow(d, n, rest);
  }

  lemma LowOfLow(d: nat, n: nat, m: nat)
    requires m <= n
    ensures Low(Low(d, n), m) == Low(d, m)
  {
    hide Low, Bit;
    forall k: nat
      ensures Bit(Low(Low(d, n), m), k) <==> Bit(Low(d, m), k)
    {
      LowBit(Low(d, n), m, k);
      LowBit(d, n, k);
      LowBit(d, m, k);
    }
    SameBits(Low(Low(d, n), m), Low(d, m));
  }

  /** The OR that uses up the bits, on any value. */
  lemma SmearPart(bytes: seq<byte>, pos: nat, cur: nat, d: nat, n: nat)
    requires pos < |bytes| && n > 0 && cur + n < 8 && Shl(Low(d, n), 8 - cur - n) < 256
    ensures var s := 8 - cur - n;
      && Or(bytes[pos], Low(Shl(d, s), 8)) < 256
      && bytes[pos := Or(bytes[pos], Low(Shl(d, s), 8))] == Put(Smear(bytes, pos, cur, d, n), pos, Shl(Low(d, n), s))
  {
    hide Bit, Low, Shl, Excess, Pow2, Or, Put;
    var s := 8 - cur - n;
    forall k: nat
      ensures Bit(Low(Shl(d, s), 8), k) <==> Bit(Excess(cur, d, n), k) || Bit(Shl(Low(d, n), s), k)
    {
      PartBit(cur, d, n, s, k);
    }
    ExcessBound(cur, d, n);
    LowByteBound(Shl(d, s));
    OrBoth(bytes, pos, Low(Shl(d, s), 8), Excess(cur, d, n), Shl(Low(d, n), s));
  }

  /** OR-ing in a value is OR-ing in its two parts. */
  lemma OrBoth(bytes: seq<byte>, pos: nat, v: nat, x: nat, y: nat)
    requires pos < |bytes| && v < 256 && x < 256 && y < 256
    requires forall k: nat :: Bit(v, k) <==> Bit(x, k) || Bit(y, k)
    ensures Or(bytes[pos], v) < 256
    ensures bytes[pos := Or(bytes[pos], v)] == Put(Put(bytes, pos, x), pos, y)
  {
    var b := bytes[pos];
    ByteOr(b, v);
    ByteOr(b, x);
    forall k: nat
      ensures Bit(Or(b, v), k) <==> Bit(Or(Or(b, x), y), k)
    {
      hide Bit, Or;
      OrBit(b, v, k);
      OrBit(b, x, k);
      OrBit(Or(b, x), y, k);
    }
    hide Bit, Or;
    SameBits(Or(b, v), Or(Or(b, x), y));
  }

  /** As much of `s` as `limit` bits can hold. */
  function Clip(s: seq<bool>, limit: nat): seq<bool>
  {
    if |s| <= limit then s else s[..limit]
  }

  /** What the append loop leaves, whether it ran out of bits or out of buffer. */
  lemma AppendStops(bytes: seq<byte>, pos: nat, cur: nat, d: nat, n: nat, goal: seq<bool>)
    requires Appending(bytes, pos, cur, d, n, goal) && (n == 0 || pos >= |bytes|)
    ensures 8 * pos + cur <= 8 * |bytes| && Clear(bytes, 8 * pos + cur)
    ensures BitsOf(bytes)[..8 * pos + cur] == Clip(goal, 8 * |bytes|)
    ensures |goal| > 8 * |bytes| <==> n > 0
  {
    NowhereSmeared(bytes, pos, cur, d, n);
    hide Bit, Clear, Pow2, Smear, Low;
    var s := BitsOf(bytes)[..8 * pos + cur];
    assert goal == s + ToBits(Low(d, n), n);
    assert s == goal[..|s|];
  }

  /** The bits of one byte between two positions, as the mask and shift of `readBits` give them. */
  lemma SliceOfByte(bytes: seq<byte>, pos: nat, cur: nat, take: nat)
    requires pos < |bytes| && cur + take <= 8
    ensures FromBits(BitsOf(bytes)[8 * pos + cur..8 * pos + cur + take]) ==
      Low(Shr(bytes[pos], 8 - cur - take), take)
  {
    hide Bit, Shr, Low, FromBits;
    var s := 8 - cur - take;
    var v := Shr(bytes[pos], s);
    var slice := BitsOf(bytes)[8 * pos + cur..8 * pos + cur + take];
    forall i | 0 <= i < take
      ensures slice[i] == ToBits(v, take)[i]
    {
      var j := 8 * pos + cur + i;
      assert j / 8 == pos && j % 8 == cur + i;
      ShrBit(bytes[pos], s, take - 1 - i);
    }
    assert slice == ToBits(v, take);
    FromToBits(v, take);
  }

  /** The number in the `n` bits of `s` at bit `c`, or zero when they run past the end. */
  function Slice(s: seq<bool>, c: nat, n: nat): nat
  {
    if c + n <= |s| then FromBits(s[c..c + n]) else 0
  }

  function BitsAt(bytes: seq<byte>, c: nat, n: nat): nat
  {
    Slice(BitsOf(bytes), c, n)
  }

  /** `n` bits remain to be read at the cursor; `value` holds the ones read since bit `start`, in place. */
  predicate Reading(bytes: seq<byte>, pos: nat, cur: nat, n: nat, value: nat, start: nat, end: nat)
  {
    && start <= 8 * pos + cur && cur < 8
    && 8 * pos + cur + n == end
    && value == Shl(BitsAt(bytes, start, 8 * pos + cur - start), n)
    && (8 * pos + cur > 8 * |bytes| ==> start == 8 * pos + cur)
  }

  lemma ReadingBound(bytes: seq<byte>, pos: nat, cur: nat, n: nat, value: nat, start: nat, end: nat)
    requires Reading(bytes, pos, cur, n, value, start, end) && 8 * pos + cur <= 8 * |bytes|
    ensures Low(value, n) == 0 && value < Pow2(end - start)
  {
    hide Bit, Shl, FromBits, Low, Pow2;
    var x := FromBits(BitsOf(bytes)[start..8 * pos + cur]);
    LowOfShl(x, n);
    ShlBound(x, 8 * pos + cur - start, n);
  }

  /** OR-ing the next `take` bits, in place, into the value read so far. */
  lemma ReadChunk(bytes: seq<byte>, pos: nat, cur: nat, n: nat, value: nat, start: nat, end: nat, take: nat)
    requires Reading(bytes, pos, cur, n, value, start, end) && pos < |bytes|
    requires take <= n && cur + take <= 8
    ensures var value' := Or(value, Shl(Low(Shr(bytes[pos], 8 - cur - take), take), n - take));
      && value' < Pow2(end - start)
      && if cur + take < 8 then Reading(bytes, pos, cur + take, n - take, value', start, end)
         else Reading(bytes, pos + 1, 0, n - take, value', start, end)
  {
    hide Shl, Shr, Low, FromBits, Or, Pow2, BitsOf;
    var chunk, rest, to := Low(Shr(bytes[pos], 8 - cur - take), take), n - take, 8 * pos + cur + take;
    ChunkValue(bytes, pos, cur, n, value, start, end, take);
    if cur + take < 8 {
      MakeReading(bytes, pos, cur + take, rest, Or(value, Shl(chunk, rest)), start, end, to);
    } else {
      MakeReading(bytes, pos + 1, 0, rest, Or(value, Shl(chunk, rest)), start, end, to);
    }
  }

  lemma MakeReading(bytes: seq<byte>, pos: nat, cur: nat, n: nat, value: nat, start: nat, end: nat, to: nat)
    requires start <= to == 8 * pos + cur <= 8 * |bytes| && cur < 8 && to + n == end
    requires value == Shl(FromBits(BitsOf(bytes)[start..to]), n)
    ensures Reading(bytes, pos, cur, n, value, start, end) && value < Pow2(end - start)
  {
    hide Shl, FromBits, Pow2, BitsOf;
    assert start + (to - start) == to;
    ReadingBound(bytes, pos, cur, n, value, start, end);
  }

  lemma ChunkValue(bytes: seq<byte>, pos: nat, cur: nat, n: nat, value: nat, start: nat, end: nat, take: nat)
    requires Reading(bytes, pos, cur, n, value, start, end) && pos < |bytes|
    requires take <= n && cur + take <= 8
    ensures Shl(FromBits(BitsOf(bytes)[start..8 * pos + cur + take]), n - take) ==
      Or(value, Shl(Low(Shr(bytes[pos], 8 - cur - take), take), n - take))
  {
    hide Shl, Shr, Low, FromBits, Or, Pow2, BitsOf;
    var rest, from, to := n - take, 8 * pos + cur, 8 * pos + cur + take;
    var s, t := BitsOf(bytes)[start..from], BitsOf(bytes)[from..to];
    var chunk := Low(Shr(bytes[pos], 8 - cur - take), take);
    SliceOfByte(bytes, pos, cur, take);
    assert BitsOf(bytes)[start..to] == s + t;
    ChunkSum(s, t, n, rest);
    assert value == Shl(FromBits(s), n);
    assert FromBits(t) == chunk;
  }

  lemma ChunkSum(s: seq<bool>, t: seq<bool>, n: nat, rest: nat)
    requires n == |t| + rest
    ensures Shl(FromBits(s + t), rest) == Or(Shl(FromBits(s), n), Shl(FromBits(t), rest))
  {
    hide *;
    FromBitsConcat(s, t);
    ShlSum(Shl(FromBits(s), |t|), FromBits(t), rest);
    ShlShl(FromBits(s), |t|, rest);
    LowOfShl(FromBits(s), n);
    ShlBound(FromBits(t), |t|, rest);
    OrIsSum(Shl(FromBits(s), n), Shl(FromBits(t), rest), n);
  }

  lemma ReadStarts(bytes: seq<byte>, pos: nat, cur: nat, n: nat)
    requires cur < 8
    ensures Reading(bytes, pos, cur, n, 0, 8 * pos + cur, 8 * pos + cur + n)
  {
    ShlZero(n);
  }

  lemma ReadWidth(bytes: seq<byte>, pos: nat, cur: nat, n: nat, value: nat, start: nat, end: nat)
    requires Reading(bytes, pos, cur, n, value, start, end)
    ensures start <= end
  {
  }

  lemma ReadStops(bytes: seq<byte>, pos: nat, cur: nat, n: nat, value: nat, start: nat, end: nat)
    requires Reading(bytes, pos, cur, n, value, start, end) && (n == 0 || pos >= |bytes|)
    ensures n == 0 ==> end == 8 * pos + cur && value == BitsAt(bytes, start, end - start)
    ensures n == 0 ==> start == end || end <= 8 * |bytes|
    ensures n > 0 ==> end > 8 * |bytes| && 8 * pos + cur == if start <= 8 * |bytes| then 8 * |bytes| else start
  {
    ShlNone(BitsAt(bytes, start, end - start));
  }

  /** Replacing the bytes from `pos` on. */
  function Overwrite(bytes: seq<byte>, pos: nat, source: seq<byte>): (r: seq<byte>)
    requires pos + |source| <= |bytes|
    ensures |r| == |bytes|
  {
    bytes[..pos] + source + bytes[pos + |source|..]
  }

  /** Whole bytes written at a byte boundary extend the bit stream. */
  lemma OverwriteStream(bytes: seq<byte>, pos: nat, source: seq<byte>)
    requires pos + |source| <= |bytes| && Clear(bytes, 8 * pos)
    ensures Clear(Overwrite(bytes, pos, source), 8 * (pos + |source|))
    ensures BitsOf(Overwrite(bytes, pos, source))[..8 * (pos + |source|)] == BitsOf(bytes)[..8 * pos] + BitsOf(source)
  {
    var r := Overwrite(bytes, pos, source);
    forall i: nat | i < 8 * |bytes|
      ensures i < 8 * pos ==> (StreamBit(r, i) <==> StreamBit(bytes, i))
      ensures 8 * pos <= i < 8 * (pos + |source|) ==> (StreamBit(r, i) <==> StreamBit(source, i - 8 * pos))
      ensures i >= 8 * (pos + |source|) ==> (StreamBit(r, i) <==> StreamBit(bytes, i))
    {
      assert 8 * pos <= i ==> (i - 8 * pos) / 8 == i / 8 - pos && (i - 8 * pos) % 8 == i % 8;
    }
  }

  /** A bit field: an unsigned value of at most 16 bits and its width. */
  datatype Field = Field(width: nat, value: nat)

  predicate WellFormed(fields: seq<Field>)
  {
    forall f :: f in fields ==> f.width <= 16 && f.value < Pow2(f.width)
  }

  /** The bit string a list of fields denotes. */
  function AllBits(fields: seq<Field>): seq<bool>
  {
    if fields == [] then []
    else AllBits(fields[..|fields| - 1]) + ToBits(fields[|fields| - 1].value, fields[|fields| - 1].width)
  }

  function Widths(fields: seq<Field>): seq<nat>
  {
    seq(|fields|, i requires 0 <= i < |fields| => fields[i].width)
  }

  function Values(fields: seq<Field>): seq<nat>
  {
    seq(|fields|, i requires 0 <= i < |fields| => fields[i].value)
  }

  function Total(widths: seq<nat>): nat
  {
    if widths == [] then 0 else Total(widths[..|widths| - 1]) + widths[|widths| - 1]
  }

  /** The numbers read from consecutive slices of a bit string. */
  function Slices(s: seq<bool>, widths: seq<nat>): seq<nat>
  {
    if widths == [] then []
    else Slices(s, widths[..|widths| - 1]) + [Slice(s, Total(widths[..|widths| - 1]), widths[|widths| - 1])]
  }

  lemma {:induction false} TotalPrefix(widths: seq<nat>, i: nat)
    requires i <= |widths|
    ensures Total(widths[..i]) <= Total(widths)
    decreases |widths|
  {
    if i < |widths| {
      assert widths[..|widths| - 1][..i] == widths[..i];
      TotalPrefix(widths[..|widths| - 1], i);
    } else {
      assert widths[..i] == widths;
    }
  }

  lemma AllBitsPrefix(fields: seq<Field>, i: nat)
    requires i <= |fields|
    ensures |AllBits(fields[..i])| <= |AllBits(fields)|
  {
    AllBitsLength(fields);
    AllBitsLength(fields[..i]);
    assert Widths(fields)[..i] == Widths(fields[..i]);
    TotalPrefix(Widths(fields), i);
  }

  lemma {:induction false} AllBitsLength(fields: seq<Field>)
    ensures |AllBits(fields)| == Total(Widths(fields))
  {
    if fields != [] {
      AllBitsLength(fields[..|fields| - 1]);
      assert Widths(fields)[..|fields| - 1] == Widths(fields[..|fields| - 1]);
    }
  }

  lemma AllBitsAppend(fields: seq<Field>, f: Field)
    ensures AllBits(fields + [f]) == AllBits(fields) + ToBits(f.value, f.width)
  {
    assert (fields + [f])[..|fields|] == fields;
  }

  lemma SlicesAppend(s: seq<bool>, widths: seq<nat>, w: nat)
    ensures Total(widths + [w]) == Total(widths) + w
    ensures Slices(s, widths + [w]) == Slices(s, widths) + [Slice(s, Total(widths), w)]
  {
    hide Slice;
    assert (widths + [w])[..|widths|] == widths;
  }

  lemma SliceOfPrefix(s: seq<bool>, t: seq<bool>, c: nat, n: nat)
    requires s <= t && c + n <= |s|
    ensures Slice(s, c, n) == Slice(t, c, n)
  {
    assert s[c..c + n] == t[c..c + n];
  }

  lemma {:induction false} SlicesPrefix(s: seq<bool>, t: seq<bool>, widths: seq<nat>)
    requires s <= t && Total(widths) <= |s|
    ensures Slices(s, widths) == Slices(t, widths)
    decreases |widths|
  {
    if widths != [] {
      hide Slice;
      var init, w := widths[..|widths| - 1], widths[|widths| - 1];
      SlicesPrefix(s, t, init);
      SliceOfPrefix(s, t, Total(init), w);
    }
  }

  /** Reading with the widths that were written returns the values that were written. */
  lemma {:induction false} SameWidthsSameValues(fields: seq<Field>)
    requires WellFormed(fields)
    ensures |AllBits(fields)| == Total(Widths(fields))
    ensures Slices(AllBits(fields), Widths(fields)) == Values(fields)
    decreases |fields|
  {
    hide Bit, FromBits, ToBits, Low, Slice, Slices, Total, Pow2;
    AllBitsLength(fields);
    if fields == [] {
      NoFields(fields);
    } else {
      var init, f := fields[..|fields| - 1], fields[|fields| - 1];
      assert f in fields && forall g :: g in init ==> g in fields;
      SameWidthsSameValues(init);
      var s := AllBits(init);
      LastField(s, f);
      assert Widths(fields) == Widths(init) + [f.width];
      assert Values(fields) == Values(init) + [f.value];
      SlicesAppend(AllBits(fields), Widths(init), f.width);
      SlicesPrefix(s, AllBits(fields), Widths(init));
    }
  }

  lemma NoFields(fields: seq<Field>)
    requires fields == []
    ensures Slices(AllBits(fields), Widths(fields)) == Values(fields)
  {
  }

  /** The bits appended last read back as their value. */
  lemma LastField(s: seq<bool>, f: Field)
    requires f.value < Pow2(f.width)
    ensures Slice(s + ToBits(f.value, f.width), |s|, f.width) == f.value
  {
    hide Bit, FromBits, Low, Pow2;
    var t := ToBits(f.value, f.width);
    assert (s + t)[|s|..|s| + f.width] == t;
    FromToBits(f.value, f.width);
    LowOfSmall(f.value, f.width);
  }
}
