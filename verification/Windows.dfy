/** The time windows of packet stores: copying a window out of a store and deleting up to a time. */
module Windows {
  import opened Parser
  import TS = TimeStamps

  type Ticks = TS.Ticks

  /** A telemetry packet with the time it was stored. */
  datatype Stored = Stored(time: Ticks, packet: Packet)

  type Packets = seq<Stored>

  datatype Window = FromTo(start: Ticks, end: Ticks) | From(start: Ticks) | Until(end: Ticks)

  predicate TimeOrdered(packets: Packets)
  {
    forall i, j :: 0 <= i < j < |packets| ==> packets[i].time <= packets[j].time
  }

  predicate TooEarly(w: Window, t: Ticks)
  {
    !w.Until? && t < w.start
  }

  predicate TooLate(w: Window, t: Ticks)
  {
    !w.From? && t > w.end
  }

  predicate Inside(w: Window, t: Ticks)
  {
    !TooEarly(w, t) && !TooLate(w, t)
  }

  /** The packets inside the window. */
  function Filtered(packets: Packets, w: Window): Packets
  {
    if packets == [] then []
    else (if Inside(w, packets[0].time) then [packets[0]] else []) + Filtered(packets[1..], w)
  }

  /** What a copy loop takes: it passes over packets before the window and ends at the first one
      after it. */
  function Copied(packets: Packets, w: Window): Packets
  {
    if packets == [] then []
    else if TooEarly(w, packets[0].time) then Copied(packets[1..], w)
    else if TooLate(w, packets[0].time) then []
    else [packets[0]] + Copied(packets[1..], w)
  }

  /** A packet inside the window stands behind one that ends the loop. */
  predicate LosesPacket(packets: Packets, w: Window, i: nat, j: nat)
  {
    i < j < |packets| && !TooEarly(w, packets[i].time) && TooLate(w, packets[i].time) && Inside(w, packets[j].time)
  }

  lemma {:induction false} FilteredEmpty(packets: Packets, w: Window)
    ensures Filtered(packets, w) == [] <==> forall k :: 0 <= k < |packets| ==> !Inside(w, packets[k].time)
    decreases |packets|
  {
    if packets != [] {
      FilteredEmpty(packets[1..], w);
      assert forall k :: 0 < k < |packets| ==> packets[k] == packets[1..][k - 1];
    }
  }

  lemma {:induction false} CopiedLength(packets: Packets, w: Window)
    ensures |Copied(packets, w)| <= |packets|
    decreases |packets|
  {
    if packets != [] {
      CopiedLength(packets[1..], w);
    }
  }

  lemma {:induction false} CopiedInside(packets: Packets, w: Window)
    ensures forall x :: x in Copied(packets, w) ==> x in packets && Inside(w, x.time)
    decreases |packets|
  {
    if packets != [] {
      CopiedInside(packets[1..], w);
      assert forall x :: x in packets[1..] ==> x in packets;
    }
  }

  /** A copy of a store in time order is in time order. */
  lemma {:induction false} CopiedOrdered(packets: Packets, w: Window)
    requires TimeOrdered(packets)
    ensures TimeOrdered(Copied(packets, w))
    decreases |packets|
  {
    if packets != [] {
      var rest := packets[1..];
      CopiedOrdered(rest, w);
      CopiedInside(rest, w);
      hide Inside;
      assert forall x :: x in rest ==> packets[0].time <= x.time;
    }
  }

  /** Leaving the loop early loses nothing exactly when no packet of the window stands behind one
      that ends it. */
  lemma {:induction false} CopyExact(packets: Packets, w: Window)
    ensures Copied(packets, w) == Filtered(packets, w) <==> !exists i, j :: LosesPacket(packets, w, i, j)
    decreases |packets|
  {
    if packets != [] {
      var rest := packets[1..];
      CopyExact(rest, w);
      forall i: nat, j: nat
        ensures LosesPacket(rest, w, i, j) <==> LosesPacket(packets, w, i + 1, j + 1)
      {
      }
      if TooEarly(w, packets[0].time) {
        LosesLater(packets, w);
      } else if TooLate(w, packets[0].time) {
        FilteredEmpty(rest, w);
        if j: nat :| j < |rest| && Inside(w, rest[j].time) {
          assert LosesPacket(packets, w, 0, j + 1);
        } else {
          forall i: nat, j: nat
            ensures !LosesPacket(packets, w, i, j)
          {
            assert 0 < j < |packets| ==> packets[j] == rest[j - 1];
          }
        }
      } else {
        LosesLater(packets, w);
        assert Copied(packets, w)[1..] == Copied(rest, w) && Filtered(packets, w)[1..] == Filtered(rest, w);
      }
    }
  }

  lemma LosesLater(packets: Packets, w: Window)
    requires packets != [] && !(!TooEarly(w, packets[0].time) && TooLate(w, packets[0].time))
    ensures (exists i, j :: LosesPacket(packets, w, i, j)) <==> exists i, j :: LosesPacket(packets[1..], w, i, j)
  {
    var rest := packets[1..];
    if i: nat, j: nat :| LosesPacket(packets, w, i, j) {
      assert LosesPacket(rest, w, i - 1, j - 1);
    }
    if i: nat, j: nat :| LosesPacket(rest, w, i, j) {
      assert LosesPacket(packets, w, i + 1, j + 1);
    }
  }

  /** On a store in time order the copy loop takes exactly the packets of the window, in order. */
  lemma CopyIsFilter(packets: Packets, w: Window)
    requires TimeOrdered(packets)
    ensures Copied(packets, w) == Filtered(packets, w)
  {
    CopyExact(packets, w);
  }

  /** The check made before copying: the window lies wholly before or behind the packets. */
  predicate NoTimestamp(packets: Packets, w: Window)
    requires packets != []
  {
    match w
    case FromTo(start, end) => end < packets[0].time || start > packets[|packets| - 1].time
    case From(start) => start > packets[|packets| - 1].time
    case Until(end) => end < packets[0].time
  }

  /** A refused copy would have copied nothing. */
  lemma RefusedCopyIsEmpty(packets: Packets, w: Window)
    requires packets != [] && TimeOrdered(packets) && NoTimestamp(packets, w)
    ensures Filtered(packets, w) == []
  {
    FilteredEmpty(packets, w);
    hide Filtered;
    forall k | 0 <= k < |packets|
      ensures packets[0].time <= packets[k].time <= packets[|packets| - 1].time
    {
    }
  }

  /** An accepted copy copies something, unless a window with two ends falls into a gap between two
      neighbouring packets. */
  lemma AcceptedCopyIsEmpty(packets: Packets, w: Window)
    requires packets != [] && TimeOrdered(packets) && !NoTimestamp(packets, w)
    ensures Filtered(packets, w) == [] <==> w.FromTo? && exists i :: InGap(packets, w, i)
  {
    FilteredEmpty(packets, w);
    hide Filtered;
    if w.FromTo? {
      if i: nat :| InGap(packets, w, i) {
        forall k | 0 <= k < |packets|
          ensures !Inside(w, packets[k].time)
        {
          assert k <= i ==> packets[k].time <= packets[i].time;
          assert k > i ==> packets[i + 1].time <= packets[k].time;
        }
      } else if packets[0].time < w.start {
        var i := GapBefore(packets, w.start);
        assert !InGap(packets, w, i);
        assert Inside(w, packets[i + 1].time);
      } else {
        assert Inside(w, packets[0].time);
      }
    } else {
      assert Inside(w, packets[if w.From? then |packets| - 1 else 0].time);
    }
  }

  predicate InGap(packets: Packets, w: Window, i: nat)
    requires w.FromTo?
  {
    i + 1 < |packets| && packets[i].time < w.start && w.end < packets[i + 1].time
  }

  /** The last packet before `start`. */
  lemma {:induction false} GapBefore(packets: Packets, start: Ticks) returns (i: nat)
    requires packets != [] && packets[0].time < start
    ensures i < |packets| && packets[i].time < start
    ensures i + 1 < |packets| ==> packets[i + 1].time >= start
    decreases |packets|
  {
    i := 0;
    if |packets| > 1 && packets[1].time < start {
      i := GapBefore(packets[1..], start);
      i := i + 1;
    }
  }

  /** Copying up to `t` and from the tick after it partitions a store. */
  lemma {:induction false} CopiesPartition(packets: Packets, t: Ticks, after: Ticks)
    requires TimeOrdered(packets) && after == t + 1
    ensures Copied(packets, Until(t)) + Copied(packets, From(after)) == packets
    decreases |packets|
  {
    if packets != [] && packets[0].time <= t {
      CopiesPartition(packets[1..], t, after);
    } else {
      AllFrom(packets, after);
    }
  }

  lemma {:induction false} AllFrom(packets: Packets, start: Ticks)
    requires forall x :: x in packets ==> x.time >= start
    ensures Copied(packets, From(start)) == packets
    decreases |packets|
  {
    if packets != [] {
      AllFrom(packets[1..], start);
    }
  }

  // ----- deleting

  /** What `deleteContentUntil` leaves: it takes packets from the front while they are not later. */
  function KeptAfter(packets: Packets, limit: Ticks): Packets
  {
    if packets == [] || packets[0].time > limit then packets else KeptAfter(packets[1..], limit)
  }

  predicate Later(limit: Ticks, x: Stored)
  {
    x.time > limit
  }

  /** The packets later than the limit. */
  function LaterOnly(packets: Packets, limit: Ticks): Packets
  {
    if packets == [] then []
    else (if Later(limit, packets[0]) then [packets[0]] else []) + LaterOnly(packets[1..], limit)
  }

  /** A later packet that shields one that should go. */
  predicate Shields(packets: Packets, limit: Ticks, i: nat, j: nat)
  {
    i < j < |packets| && Later(limit, packets[i]) && !Later(limit, packets[j])
  }

  /** Deleting keeps exactly the later packets when, and only when, none of them shields an
      earlier one behind it. */
  lemma {:induction false} DeleteExact(packets: Packets, limit: Ticks)
    ensures KeptAfter(packets, limit) == LaterOnly(packets, limit) <==> !exists i, j :: Shields(packets, limit, i, j)
    decreases |packets|
  {
    if packets != [] {
      var rest := packets[1..];
      DeleteExact(rest, limit);
      if Later(limit, packets[0]) {
        LaterLength(rest, limit);
        if j :| 0 <= j < |rest| && !Later(limit, rest[j]) {
          assert Shields(packets, limit, 0, j + 1);
        } else {
          assert KeptAfter(packets, limit) == packets;
        }
      } else {
        LaterLength(rest, limit);
        if i: nat, j: nat :| Shields(rest, limit, i, j) {
          assert Shields(packets, limit, i + 1, j + 1);
        }
        if i: nat, j: nat :| Shields(packets, limit, i, j) {
          assert Shields(rest, limit, i - 1, j - 1);
        }
      }
    }
  }

  lemma {:induction false} LaterLength(packets: Packets, limit: Ticks)
    ensures |LaterOnly(packets, limit)| <= |packets|
    ensures LaterOnly(packets, limit) == packets <==> forall i :: 0 <= i < |packets| ==> Later(limit, packets[i])
    ensures |LaterOnly(packets, limit)| == |packets| ==> LaterOnly(packets, limit) == packets
    decreases |packets|
  {
    if packets != [] {
      var rest := packets[1..];
      LaterLength(rest, limit);
      assert forall i :: 0 < i < |packets| ==> packets[i] == rest[i - 1];
      if Later(limit, packets[0]) {
        assert LaterOnly(packets, limit)[1..] == LaterOnly(rest, limit);
        assert packets == [packets[0]] + rest;
      }
    }
  }

  /** On a store in time order, deleting until a time keeps exactly the later packets. */
  lemma DeleteKeepsLater(packets: Packets, limit: Ticks)
    requires TimeOrdered(packets)
    ensures KeptAfter(packets, limit) == LaterOnly(packets, limit)
  {
    DeleteExact(packets, limit);
  }

  lemma {:induction false} KeptIsSuffix(packets: Packets, limit: Ticks) returns (k: nat)
    ensures k <= |packets| && KeptAfter(packets, limit) == packets[k..]
    ensures k < |packets| ==> packets[k].time > limit
    ensures forall i :: 0 <= i < k ==> packets[i].time <= limit
    decreases |packets|
  {
    k := 0;
    if packets != [] && packets[0].time <= limit {
      k := KeptIsSuffix(packets[1..], limit);
      assert forall i :: 1 <= i < |packets| ==> packets[i] == packets[1..][i - 1];
      k := k + 1;
    }
  }
}
