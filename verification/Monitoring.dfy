/** Parameter monitoring definitions and their repetition counting, section 6.12 of
    ECSS-E-ST-70-41C. */
module Monitoring {
  import opened Bits
  import opened Errors
  import opened Messages
  import TS = TimeStamps

  type Ticks = TS.Ticks

  datatype Status =
    | Unchecked | Invalid | ExpectedValue | UnexpectedValue | WithinLimits | BelowLowLimit | AboveHighLimit
    | WithinThreshold | BelowLowThreshold | AboveHighThreshold

  /** The kind of check with its parameters. */
  datatype Check =
    | Expected(mask: nat, value: nat)
    | Limit(low: real, high: real)
    | Delta(low: real, high: real)

  /** What a check sees of its parameter, and when. */
  datatype Sample = Sample(bits: nat, value: real, time: Ticks)

  datatype Previous = None | Some(value: real, time: Ticks)

  /** A monitoring definition. */
  datatype Definition = Definition(
    parameterId: uint16,
    check: Check,
    enabled: bool,
    status: Status,
    repetitionNumber: uint16,
    repetitionCounter: uint16,
    previous: Previous)

  function Signed(t: Ticks): int
  {
    if t < 0x8000_0000 then t else t - 0x1_0000_0000
  }

  /** The change per second since the previous sample; none when no time has passed. */
  function DeltaPerSecond(s: Sample, previous: Previous): real
    requires previous.Some?
  {
    var ticks := Signed(s.time) - Signed(previous.time);
    if ticks == 0 then 0.0 else (s.value - previous.value) / (ticks as real / 10.0)
  }

  /** The status a check results in. */
  function Outcome(c: Check, s: Sample, previous: Previous): Status
  {
    match c
    case Expected(mask, value) => if And(s.bits, mask) == value then ExpectedValue else UnexpectedValue
    case Limit(low, high) =>
      if s.value < low then BelowLowLimit else if s.value > high then AboveHighLimit else WithinLimits
    case Delta(low, high) =>
      if previous.None? then Invalid
      else if DeltaPerSecond(s, previous) < low then BelowLowThreshold
      else if DeltaPerSecond(s, previous) > high then AboveHighThreshold
      else WithinThreshold
  }

  /** The bits under the mask are those of the value, which has no others. */
  ghost predicate MaskedBits(bits: nat, mask: nat, value: nat)
  {
    forall k: nat :: Bit(value, k) <==> Bit(bits, k) && Bit(mask, k)
  }

  /** An expected-value check compares the bits under the mask, one by one. */
  lemma ExpectedOutcome(mask: nat, value: nat, s: Sample, previous: Previous)
    ensures Outcome(Expected(mask, value), s, previous) ==
      if MaskedBits(s.bits, mask, value) then ExpectedValue else UnexpectedValue
  {
    hide And, Bit;
    var masked := And(s.bits, mask);
    forall k: nat
      ensures Bit(masked, k) <==> Bit(s.bits, k) && Bit(mask, k)
    {
      AndBit(s.bits, mask, k);
    }
    if MaskedBits(s.bits, mask, value) {
      SameBits(value, masked);
    }
  }

  /** A limit check: which side of the limits the value is on. */
  lemma LimitOutcome(low: real, high: real, s: Sample, previous: Previous)
    ensures var status := Outcome(Limit(low, high), s, previous);
      && (status == BelowLowLimit <==> s.value < low)
      && (status == AboveHighLimit <==> low <= s.value && high < s.value)
      && (status == WithinLimits <==> low <= s.value <= high)
  {
  }

  /** The ticks since the previous sample, the counter taken as a signed number. */
  lemma SignedTicks(t: Ticks)
    ensures -0x8000_0000 <= Signed(t) < 0x8000_0000
    ensures Signed(t) == t || Signed(t) == t - 0x1_0000_0000
  {
  }

  /** A delta check compares the change with what the thresholds allow in the time passed; without time
      passed the change counts as none, and without a previous sample the check is invalid. */
  lemma DeltaOutcome(low: real, high: real, s: Sample, previous: Previous)
    requires previous.Some?
    ensures var status := Outcome(Delta(low, high), s, previous);
      var ticks, change := (Signed(s.time) - Signed(previous.time)) as real, 10.0 * (s.value - previous.value);
      && (ticks > 0.0 ==>
            && (status == BelowLowThreshold <==> change < low * ticks)
            && (status == AboveHighThreshold <==> low * ticks <= change && high * ticks < change)
            && (status == WithinThreshold <==> low * ticks <= change <= high * ticks))
      && (ticks < 0.0 ==>
            && (status == BelowLowThreshold <==> change > low * ticks)
            && (status == AboveHighThreshold <==> change <= low * ticks && change < high * ticks)
            && (status == WithinThreshold <==> high * ticks <= change <= low * ticks))
      && (ticks == 0.0 ==>
            && (status == BelowLowThreshold <==> 0.0 < low)
            && (status == AboveHighThreshold <==> low <= 0.0 && high < 0.0)
            && (status == WithinThreshold <==> low <= 0.0 <= high))
  {
    var n := Signed(s.time) - Signed(previous.time);
    hide Signed;
    if n != 0 {
      var q := DeltaPerSecond(s, previous);
      Quotient(s.value - previous.value, n as real, q);
      hide DeltaPerSecond;
      Compare(q, low, n as real);
      Compare(q, high, n as real);
    }
  }

  lemma Quotient(x: real, ticks: real, q: real)
    requires ticks != 0.0 && q == x / (ticks / 10.0)
    ensures q * ticks == 10.0 * x
  {
    var t := ticks / 10.0;
    assert q * t == x && ticks == 10.0 * t;
    assert q * (10.0 * t) == 10.0 * (q * t);
  }

  lemma Compare(a: real, b: real, t: real)
    ensures t > 0.0 ==> (a < b <==> a * t < b * t)
    ensures t < 0.0 ==> (a < b <==> a * t > b * t)
  {
    assert (b - a) * t == b * t - a * t;
    if t > 0.0 {
      assert a < b ==> (b - a) * t > 0.0;
      assert a > b ==> (a - b) * t > 0.0;
    }
    if t < 0.0 {
      assert a < b ==> (b - a) * -t > 0.0;
      assert a > b ==> (a - b) * -t > 0.0;
    }
  }

  /** A delta check without a previous sample. */
  lemma FirstDelta(low: real, high: real, s: Sample)
    ensures Outcome(Delta(low, high), s, None) == Invalid
  {
  }

  function Checked(d: Definition, s: Sample): Definition
  {
    var status := Outcome(d.check, s, d.previous);
    d.(status := status,
       repetitionCounter := if status == d.status then (d.repetitionCounter as int + 1) % 0x1_0000 else 1,
       previous := if d.check.Delta? then Some(s.value, s.time) else d.previous)
  }

  function Enabled(d: Definition): Definition
  {
    d.(repetitionNumber := 0, enabled := true)
  }

  function Disabled(d: Definition): Definition
  {
    d.(enabled := false, status := Unchecked)
  }

  predicate SameKind(c: Check, c': Check)
  {
    c.Expected? == c'.Expected? && c.Limit? == c'.Limit?
  }

  /** A modification resets the history first, and takes the new bounds only if they are in order. */
  function Modified(d: Definition, repetitionNumber: uint16, check: Check): Definition
  {
    var reset := d.(repetitionCounter := 0, repetitionNumber := repetitionNumber, status := Unchecked);
    if !check.Expected? && check.high <= check.low then reset else reset.(check := check)
  }

  // ----- whole histories

  datatype Event =
    | Check(sample: Sample)
    | Enable
    | Disable
    | Modify(repetitionNumber: uint16, check: Check)

  function Next(d: Definition, e: Event): Definition
  {
    match e
    case Check(s) => Checked(d, s)
    case Enable => Enabled(d)
    case Disable => Disabled(d)
    case Modify(n, c) => Modified(d, n, c)
  }

  function After(d: Definition, events: seq<Event>): Definition
  {
    if events == [] then d else Next(After(d, events[..|events| - 1]), events[|events| - 1])
  }

  /** The outcomes of the checks since the last disable or modify, oldest first. */
  function Outcomes(d: Definition, events: seq<Event>): seq<Status>
  {
    if events == [] then []
    else
      var init, last := events[..|events| - 1], events[|events| - 1];
      match last
      case Check(s) => Outcomes(d, init) + [Outcome(After(d, init).check, s, After(d, init).previous)]
      case Enable => Outcomes(d, init)
      case Disable => []
      case Modify(_, _) => []
  }

  /** How many outcomes at the end equal the last one. */
  function LastRun(outcomes: seq<Status>): (n: nat)
    ensures n <= |outcomes|
  {
    var n := |outcomes|;
    if n == 0 then 0
    else if n > 1 && outcomes[n - 2] == outcomes[n - 1] then LastRun(outcomes[..n - 1]) + 1
    else 1
  }

  /** `LastRun` is the length of the longest suffix of equal outcomes. */
  lemma {:induction false} LastRunIsLongest(outcomes: seq<Status>)
    requires outcomes != []
    ensures var n, k := |outcomes|, LastRun(outcomes);
      && k > 0 && (forall i :: n - k <= i < n ==> outcomes[i] == outcomes[n - 1])
      && (k < n ==> outcomes[n - k - 1] != outcomes[n - 1])
    decreases |outcomes|
  {
    var n := |outcomes|;
    if n > 1 && outcomes[n - 2] == outcomes[n - 1] {
      LastRunIsLongest(outcomes[..n - 1]);
    }
  }

  lemma NeverUnchecked(c: Check, s: Sample, previous: Previous)
    ensures Outcome(c, s, previous) != Unchecked
  {
  }

  predicate Fresh(d: Definition)
  {
    d.status == Unchecked && d.previous == None
  }

  /** After any history the status is the outcome of the last check since the last disable or
      modify, Unchecked if there was none; and the repetition counter is the number of consecutive
      checks with that outcome, on sixteen bits. */
  lemma {:induction false} CounterIsRun(d: Definition, events: seq<Event>)
    requires Fresh(d)
    ensures Agrees(After(d, events), Outcomes(d, events))
    decreases |events|
  {
    hide LastRun, Outcome;
    if events != [] {
      var init, last := events[..|events| - 1], events[|events| - 1];
      CounterIsRun(d, init);
      if last.Check? {
        CheckContinues(After(d, init), Outcomes(d, init), last.sample);
      }
    }
  }

  /** The status and the counter agree with a list of outcomes. */
  predicate Agrees(now: Definition, outcomes: seq<Status>)
  {
    && (now.status == Unchecked <==> outcomes == [])
    && (outcomes != [] ==>
          && now.status == outcomes[|outcomes| - 1]
          && now.repetitionCounter == LastRun(outcomes) % 0x1_0000)
  }

  lemma CheckContinues(now: Definition, outcomes: seq<Status>, s: Sample)
    requires Agrees(now, outcomes)
    ensures Agrees(Checked(now, s), outcomes + [Outcome(now.check, s, now.previous)])
  {
    var outcome := Outcome(now.check, s, now.previous);
    NeverUnchecked(now.check, s, now.previous);
    RunStep(outcomes, outcome);
    hide Outcome, LastRun;
    if outcomes != [] {
      NextCounter(LastRun(outcomes));
    }
  }

  lemma NextCounter(n: nat)
    ensures (n % 0x1_0000 + 1) % 0x1_0000 == (n + 1) % 0x1_0000
  {
    var q, r := n / 0x1_0000, n % 0x1_0000;
    assert n == 0x1_0000 * q + r;
  }

  lemma RunStep(outcomes: seq<Status>, next: Status)
    ensures LastRun(outcomes + [next]) ==
      if outcomes != [] && outcomes[|outcomes| - 1] == next then LastRun(outcomes) + 1 else 1
  {
    assert (outcomes + [next])[..|outcomes|] == outcomes;
  }

  /** Whether the last enable or disable of the history was an enable, if there was one. */
  predicate LastEnabled(events: seq<Event>, before: bool)
  {
    if events == [] then before
    else
      var last := events[|events| - 1];
      if last.Enable? then true else if last.Disable? then false else LastEnabled(events[..|events| - 1], before)
  }

  /** The repetition number the last enable or modify of the history set; an enable sets it to zero. */
  function LastRepetition(events: seq<Event>, before: uint16): uint16
  {
    if events == [] then before
    else
      var last := events[|events| - 1];
      if last.Enable? then 0 else if last.Modify? then last.repetitionNumber
      else LastRepetition(events[..|events| - 1], before)
  }

  /** A modification whose bounds, if it has any, are in order. */
  predicate InOrder(c: Check)
  {
    match c
    case Expected(_, _) => true
    case Limit(low, high) => low < high
    case Delta(low, high) => low < high
  }

  /** The check the last modification with bounds in order set. */
  function LastCheck(events: seq<Event>, before: Check): Check
  {
    if events == [] then before
    else
      var last := events[|events| - 1];
      if last.Modify? && InOrder(last.check) then last.check else LastCheck(events[..|events| - 1], before)
  }

  /** The sample of the last check of the history, if there was one. */
  function LastSample(events: seq<Event>, before: Previous): Previous
  {
    if events == [] then before
    else
      var last := events[|events| - 1];
      if last.Check? then Some(last.sample.value, last.sample.time) else LastSample(events[..|events| - 1], before)
  }

  /** After any history each field is what the last event that concerns it made it. */
  lemma {:induction false} FieldsAreLast(d: Definition, events: seq<Event>)
    ensures var r := After(d, events);
      && r.enabled == LastEnabled(events, d.enabled)
      && r.repetitionNumber == LastRepetition(events, d.repetitionNumber)
      && r.check == LastCheck(events, d.check)
      && r.parameterId == d.parameterId
      && (d.check.Delta? && KeepsKind(d, events) ==> r.previous == LastSample(events, d.previous))
    decreases |events|
  {
    hide Outcome;
    if events != [] {
      var n := |events| - 1;
      FieldsAreLast(d, events[..n]);
      if d.check.Delta? && KeepsKind(d, events) {
        CheckKind(d, events);
      }
    }
  }

  lemma {:induction false} CheckKind(d: Definition, events: seq<Event>)
    requires d.check.Delta? && KeepsKind(d, events)
    ensures KeepsKind(d, events[..|events|]) && After(d, events).check.Delta?
    ensures events != [] ==>
      KeepsKind(d, events[..|events| - 1]) && After(d, events[..|events| - 1]).check.Delta?
    decreases |events|
  {
    hide Outcome;
    assert events[..|events|] == events;
    if events != [] {
      var n := |events| - 1;
      assert KeepsKind(d, events[..n]);
      CheckKind(d, events[..n]);
      if events[n].Modify? {
        assert SameKind(d.check, events[n].check);
      }
    }
  }

  predicate Checks(events: seq<Event>)
  {
    exists i :: 0 <= i < |events| && events[i].Check?
  }

  predicate KeepsKind(d: Definition, events: seq<Event>)
  {
    forall i :: 0 <= i < |events| && events[i].Modify? ==> SameKind(d.check, events[i].check)
  }

  /** A delta check is invalid the first time only: disabling and modifying forget the status but
      not the previous sample. */
  lemma {:induction false} InvalidOnlyOnce(d: Definition, events: seq<Event>, s: Sample)
    requires Fresh(d) && d.check.Delta? && KeepsKind(d, events)
    ensures After(d, events).check.Delta?
    ensures After(d, events).previous.None? <==> !Checks(events)
    ensures Checked(After(d, events), s).status == Invalid <==> !Checks(events)
    decreases |events|
  {
    if events != [] {
      var n := |events| - 1;
      InvalidOnlyOnce(d, events[..n], s);
      if Checks(events[..n]) {
        var i :| 0 <= i < n && events[..n][i].Check?;
        assert events[i].Check?;
      }
      if events[n].Modify? {
        assert SameKind(d.check, events[n].check);
      }
      hide DeltaPerSecond;
    }
  }

  // ----- the definitions and the service

  class Pmon {
    const monitoredParameterId: uint16
    var check: Check
    var monitoringEnabled: bool
    var checkingStatus: Status
    var repetitionNumber: uint16
    var repetitionCounter: uint16
    var previous: Previous

    /** The definition's value. */
    ghost function Value(): Definition
      reads this
    {
      Definition(monitoredParameterId, check, monitoringEnabled, checkingStatus, repetitionNumber,
                 repetitionCounter, previous)
    }

    constructor (monitoredParameterId: uint16, repetitionNumber: uint16, check: Check)
      ensures Value() == Definition(monitoredParameterId, check, false, Unchecked, repetitionNumber, 0, None)
      ensures Fresh(Value())
    {
      this.monitoredParameterId, this.repetitionNumber, this.check := monitoredParameterId, repetitionNumber, check;
      monitoringEnabled, checkingStatus, repetitionCounter, previous := false, Unchecked, 0, None;
    }

    /** `getDeltaPerSecond`. */
    function GetDeltaPerSecond(currentValue: real, now: Ticks): real
      reads this
    {
      if previous.Some? then
        var deltaSeconds := (Signed(now) - Signed(previous.time)) as real / 10.0;
        if deltaSeconds == 0.0 then 0.0 else (currentValue - previous.value) / deltaSeconds
      else 0.0
    }

    /** The three implementations of `performCheck`, which end alike. */
    method PerformCheck(sample: Sample)
      modifies this
      ensures Value() == Checked(old(Value()), sample)
    {
      var previousStatus := checkingStatus;
      match check {
        case Expected(mask, expectedValue) =>
          var maskedValue := And(sample.bits, mask);
          checkingStatus := if maskedValue == expectedValue then ExpectedValue else UnexpectedValue;
        case Limit(lowLimit, highLimit) =>
          if sample.value < lowLimit {
            checkingStatus := BelowLowLimit;
          } else if sample.value > highLimit {
            checkingStatus := AboveHighLimit;
          } else {
            checkingStatus := WithinLimits;
          }
        case Delta(lowDeltaThreshold, highDeltaThreshold) =>
          if previous.Some? {
            var deltaPerSecond := GetDeltaPerSecond(sample.value, sample.time);
            if deltaPerSecond < lowDeltaThreshold {
              checkingStatus := BelowLowThreshold;
            } else if deltaPerSecond > highDeltaThreshold {
              checkingStatus := AboveHighThreshold;
            } else {
              checkingStatus := WithinThreshold;
            }
          } else {
            checkingStatus := Invalid;
          }
          previous := Some(sample.value, sample.time);
      }
      if checkingStatus == previousStatus {
        repetitionCounter := (repetitionCounter as int + 1) % 0x1_0000;
      } else {
        repetitionCounter := 1;
      }
    }

    /** The part of a modification that concerns the definition. */
    method Modify(repetitionNumber: uint16, newCheck: Check)
      requires SameKind(check, newCheck)
      modifies this
      ensures Value() == Modified(old(Value()), repetitionNumber, newCheck)
    {
      repetitionCounter := 0;
      this.repetitionNumber := repetitionNumber;
      checkingStatus := Unchecked;
      if !newCheck.Expected? && newCheck.high <= newCheck.low {
        return;
      }
      check := newCheck;
    }
  }

  /** The ids of a request's instructions. */
  function IdsAt(d: seq<byte>, p: nat, n: nat): (ids: seq<uint16>)
    ensures |ids| == n
    decreases n
  {
    if n == 0 then [] else [HalfAt(d, p)] + IdsAt(d, Messages.After(d, p, 2), n - 1)
  }

  /** What reading one id and looking it up reports. */
  function IdErrors(known: set<uint16>, d: seq<byte>, p: nat): seq<Error>
  {
    ReadErrors(d, p, 2) + if HalfAt(d, p) in known then [] else [GetNonExistingParameterMonitoringDefinition]
  }

  /** What was reported after `n` ids. */
  function IdsErrors(known: set<uint16>, d: seq<byte>, p: nat, n: nat, errors: seq<Error>): seq<Error>
    decreases n
  {
    if n == 0 then errors
    else IdsErrors(known, d, Messages.After(d, p, 2), n - 1, errors + IdErrors(known, d, p))
  }

  /** The ids are the two-byte numbers of the request, one after the other. */
  lemma {:induction false} IdsExact(d: seq<byte>, p: nat, n: nat, k: nat)
    requires p + 2 * n <= |d| && k < n
    ensures IdsAt(d, p, n)[k] as int == 0x100 * (d[p + 2 * k] as int) + d[p + 2 * k + 1]
    decreases n
  {
    ReadsExactly(d, p);
    hide HalfAt;
    if k > 0 {
      IdsExact(d, p + 2, n - 1, k - 1);
    }
  }

  /** How many of the ids are not among the known ones. */
  function Unknown(known: set<uint16>, ids: seq<uint16>): nat
  {
    if ids == [] then 0 else Unknown(known, ids[1..]) + if ids[0] in known then 0 else 1
  }

  /** A request that fits reports one error for each id without a definition. */
  lemma {:induction false} IdsErrorsExact(known: set<uint16>, d: seq<byte>, p: nat, n: nat, errors: seq<Error>)
    requires p + 2 * n <= |d|
    ensures IdsErrors(known, d, p, n, errors) ==
      errors + seq(Unknown(known, IdsAt(d, p, n)), _ => GetNonExistingParameterMonitoringDefinition)
    decreases n
  {
    hide HalfAt;
    if n > 0 {
      IdsErrorsExact(known, d, p + 2, n - 1, errors + IdErrors(known, d, p));
      assert IdsAt(d, p, n)[1..] == IdsAt(d, p + 2, n - 1);
    }
  }

  lemma IdsNext(known: set<uint16>, d: seq<byte>, p: nat, n: nat, errors: seq<Error>, done: seq<uint16>)
    requires n > 0
    ensures done + IdsAt(d, p, n) == (done + [HalfAt(d, p)]) + IdsAt(d, Messages.After(d, p, 2), n - 1)
    ensures IdsErrors(known, d, p, n, errors) ==
      IdsErrors(known, d, Messages.After(d, p, 2), n - 1, errors + IdErrors(known, d, p))
  {
    hide HalfAt, IdErrors;
  }

  lemma NoIds(known: set<uint16>, d: seq<byte>, p: nat, errors: seq<Error>)
    ensures IdsAt(d, p, 0) == [] && IdsErrors(known, d, p, 0, errors) == errors
  {
  }

  class OnBoardMonitoringService {
    var parameterMonitoringList: map<uint16, Pmon>
    var parameterMonitoringFunctionStatus: bool

    /** Every definition has one id. */
    ghost predicate Valid()
      reads this
    {
      forall a, b :: a in parameterMonitoringList && b in parameterMonitoringList && a != b ==>
        parameterMonitoringList[a] != parameterMonitoringList[b]
    }

    /** `enabled` tells which definitions are enabled. */
    ghost predicate AreEnabled(enabled: set<uint16>)
      reads this, parameterMonitoringList.Values
    {
      forall id :: id in parameterMonitoringList ==> (id in enabled <==> parameterMonitoringList[id].monitoringEnabled)
    }

    constructor ()
      ensures Valid() && parameterMonitoringList == map[] && !parameterMonitoringFunctionStatus
    {
      parameterMonitoringList, parameterMonitoringFunctionStatus := map[], false;
    }

    /** `checkAll`: exactly the enabled definitions are checked, each once. */
    method CheckAll(samples: map<uint16, Sample>)
      requires Valid()
      requires forall id :: id in parameterMonitoringList ==>
        parameterMonitoringList[id].monitoredParameterId in samples
      modifies parameterMonitoringList.Values
      ensures forall id :: id in parameterMonitoringList ==>
        var p := parameterMonitoringList[id];
        p.Value() == if old(p.monitoringEnabled) then Checked(old(p.Value()), samples[p.monitoredParameterId])
                     else old(p.Value())
    {
      hide Checked;
      var left := parameterMonitoringList.Keys;
      while left != {}
        invariant left <= parameterMonitoringList.Keys
        invariant forall id :: id in parameterMonitoringList ==>
          var p := parameterMonitoringList[id];
          p.Value() == if id !in left && old(p.monitoringEnabled) then
                         Checked(old(p.Value()), samples[p.monitoredParameterId])
                       else old(p.Value())
      {
        var id :| id in left;
        var pmon := parameterMonitoringList[id];
        left := left - {id};
        assert pmon.Value() == old(pmon.Value());
        if pmon.monitoringEnabled {
          pmon.PerformCheck(samples[pmon.monitoredParameterId]);
        }
      }
    }

    /** One instruction of TC[12,1]. */
    method EnableOne(message: Message) returns (ghost currentId: uint16)
      requires Valid() && message.Valid()
      modifies message`readPosition, message`errors, parameterMonitoringList.Values
      ensures message.errors ==
        old(message.errors) + IdErrors(parameterMonitoringList.Keys, message.data[..], old(message.readPosition))
      ensures currentId == HalfAt(message.data[..], old(message.readPosition))
      ensures message.readPosition == Messages.After(message.data[..], old(message.readPosition), 2)
      ensures forall id :: id in parameterMonitoringList ==>
        var m := parameterMonitoringList[id];
        m.Value() == if id == currentId then Enabled(old(m.Value())) else old(m.Value())
    {
      var readId := message.ReadHalfword();
      currentId := readId;
      if readId !in parameterMonitoringList {
        message.errors := message.errors + [GetNonExistingParameterMonitoringDefinition];
        return;
      }
      parameterMonitoringList[readId].repetitionNumber := 0;
      parameterMonitoringList[readId].monitoringEnabled := true;
    }

    /** `enableParameterMonitoringDefinitions`. */
    method EnableDefinitions(message: Message)
      requires Valid() && message.Valid()
      modifies message`readPosition, message`errors, parameterMonitoringList.Values
      ensures var d, p := message.data[..], old(message.readPosition);
        var ids := if message.IsTc(12, 1) then IdsAt(d, Messages.After(d, p, 2), HalfAt(d, p)) else [];
        forall id :: id in parameterMonitoringList ==>
          var m := parameterMonitoringList[id];
          m.Value() == if id in ids then Enabled(old(m.Value())) else old(m.Value())
      ensures message.IsTc(12, 1) ==>
        var d, p := message.data[..], old(message.readPosition);
        message.errors == IdsErrors(parameterMonitoringList.Keys, d, Messages.After(d, p, 2), HalfAt(d, p),
                                    old(message.errors) + ReadErrors(d, p, 2))
    {
      var ok := message.AssertTc(12, 1);
      if !ok {
        return;
      }
      assert message.errors == old(message.errors);
      var n := message.ReadHalfword();
      EnableListed(message, n);
    }

    method EnableListed(message: Message, n: nat)
      requires Valid() && message.Valid()
      modifies message`readPosition, message`errors, parameterMonitoringList.Values
      ensures var ids := IdsAt(message.data[..], old(message.readPosition), n);
        forall id :: id in parameterMonitoringList ==>
          var m := parameterMonitoringList[id];
          m.Value() == if id in ids then Enabled(old(m.Value())) else old(m.Value())
      ensures message.errors == IdsErrors(parameterMonitoringList.Keys, message.data[..], old(message.readPosition), n,
                                          old(message.errors))
    {
      hide IdsAt, IdsErrors, IdErrors, HalfAt, Messages.After;
      ghost var d, start, errors := message.data[..], message.readPosition, message.errors;
      ghost var known := parameterMonitoringList.Keys;
      ghost var done: seq<uint16> := [];
      for i := 0 to n
        invariant message.Valid() && message.data[..] == d
        invariant done + IdsAt(d, message.readPosition, n - i) == IdsAt(d, start, n)
        invariant IdsErrors(known, d, start, n, errors) ==
          IdsErrors(known, d, message.readPosition, n - i, message.errors)
        invariant forall id :: id in parameterMonitoringList ==>
          var m := parameterMonitoringList[id];
          m.Value() == if id in done then Enabled(old(m.Value())) else old(m.Value())
      {
        IdsNext(known, d, message.readPosition, n - i, message.errors, done);
        ghost var currentId := EnableOne(message);
        done := done + [currentId];
      }
      NoIds(known, d, message.readPosition, message.errors);
    }

    /** One instruction of TC[12,2]. */
    method DisableOne(message: Message) returns (ghost currentId: uint16)
      requires Valid() && message.Valid()
      modifies message`readPosition, message`errors, parameterMonitoringList.Values
      ensures message.errors ==
        old(message.errors) + IdErrors(parameterMonitoringList.Keys, message.data[..], old(message.readPosition))
      ensures currentId == HalfAt(message.data[..], old(message.readPosition))
      ensures message.readPosition == Messages.After(message.data[..], old(message.readPosition), 2)
      ensures forall id :: id in parameterMonitoringList ==>
        var m := parameterMonitoringList[id];
        m.Value() == if id == currentId then Disabled(old(m.Value())) else old(m.Value())
    {
      var readId := message.ReadHalfword();
      currentId := readId;
      if readId !in parameterMonitoringList {
        message.errors := message.errors + [GetNonExistingParameterMonitoringDefinition];
        return;
      }
      parameterMonitoringList[readId].monitoringEnabled := false;
      parameterMonitoringList[readId].checkingStatus := Unchecked;
    }

    /** `disableParameterMonitoringDefinitions`. */
    method DisableDefinitions(message: Message)
      requires Valid() && message.Valid()
      modifies message`readPosition, message`errors, parameterMonitoringList.Values
      ensures var d, p := message.data[..], old(message.readPosition);
        var ids := if message.IsTc(12, 2) then IdsAt(d, Messages.After(d, p, 2), HalfAt(d, p)) else [];
        forall id :: id in parameterMonitoringList ==>
          var m := parameterMonitoringList[id];
          m.Value() == if id in ids then Disabled(old(m.Value())) else old(m.Value())
      ensures message.IsTc(12, 2) ==>
        var d, p := message.data[..], old(message.readPosition);
        message.errors == IdsErrors(parameterMonitoringList.Keys, d, Messages.After(d, p, 2), HalfAt(d, p),
                                    old(message.errors) + ReadErrors(d, p, 2))
    {
      var ok := message.AssertTc(12, 2);
      if !ok {
        return;
      }
      assert message.errors == old(message.errors);
      var n := message.ReadHalfword();
      DisableListed(message, n);
    }

    method DisableListed(message: Message, n: nat)
      requires Valid() && message.Valid()
      modifies message`readPosition, message`errors, parameterMonitoringList.Values
      ensures var ids := IdsAt(message.data[..], old(message.readPosition), n);
        forall id :: id in parameterMonitoringList ==>
          var m := parameterMonitoringList[id];
          m.Value() == if id in ids then Disabled(old(m.Value())) else old(m.Value())
      ensures message.errors == IdsErrors(parameterMonitoringList.Keys, message.data[..], old(message.readPosition), n,
                                          old(message.errors))
    {
      hide IdsAt, IdsErrors, IdErrors, HalfAt, Messages.After;
      ghost var d, start, errors := message.data[..], message.readPosition, message.errors;
      ghost var known := parameterMonitoringList.Keys;
      ghost var done: seq<uint16> := [];
      for i := 0 to n
        invariant message.Valid() && message.data[..] == d
        invariant done + IdsAt(d, message.readPosition, n - i) == IdsAt(d, start, n)
        invariant IdsErrors(known, d, start, n, errors) ==
          IdsErrors(known, d, message.readPosition, n - i, message.errors)
        invariant forall id :: id in parameterMonitoringList ==>
          var m := parameterMonitoringList[id];
          m.Value() == if id in done then Disabled(old(m.Value())) else old(m.Value())
      {
        IdsNext(known, d, message.readPosition, n - i, message.errors, done);
        ghost var currentId := DisableOne(message);
        done := done + [currentId];
      }
      NoIds(known, d, message.readPosition, message.errors);
    }

    /** `deleteAllParameterMonitoringDefinitions`: refused while the function is enabled. */
    method DeleteAllDefinitions(message: Message)
      requires Valid()
      modifies this`parameterMonitoringList, message`errors
      ensures Valid()
      ensures parameterMonitoringList ==
        if message.IsTc(12, 4) && !parameterMonitoringFunctionStatus then map[] else old(parameterMonitoringList)
      ensures message.errors == old(message.errors) +
        if !message.IsTc(12, 4) then [OtherMessageType]
        else if parameterMonitoringFunctionStatus then [InvalidRequestToDeleteAllParameterMonitoringDefinitions]
        else []
    {
      var ok := message.AssertTc(12, 4);
      if !ok {
        return;
      }
      if parameterMonitoringFunctionStatus {
        message.errors := message.errors + [InvalidRequestToDeleteAllParameterMonitoringDefinitions];
        return;
      }
      parameterMonitoringList := map[];
    }

    /** One instruction of TC[12,6]. */
    method DeleteOne(message: Message, ghost enabled: set<uint16>)
      requires Valid() && message.Valid() && AreEnabled(enabled)
      modifies this`parameterMonitoringList, message`readPosition, message`errors
      ensures Valid() && AreEnabled(enabled)
      ensures message.readPosition == Messages.After(message.data[..], old(message.readPosition), 2)
      ensures parameterMonitoringList ==
        Remaining(old(parameterMonitoringList), enabled, [HalfAt(message.data[..], old(message.readPosition))])
      ensures Open(parameterMonitoringList, enabled) ==
        Open(old(parameterMonitoringList), enabled) - {HalfAt(message.data[..], old(message.readPosition))}
      ensures message.errors == old(message.errors) +
        DeletionError(Open(old(parameterMonitoringList), enabled), message.data[..], old(message.readPosition))
    {
      var currentId := message.ReadHalfword();
      if currentId !in parameterMonitoringList || parameterMonitoringList[currentId].monitoringEnabled {
        message.errors := message.errors + [InvalidRequestToDeleteParameterMonitoringDefinition];
        return;
      }
      parameterMonitoringList := parameterMonitoringList - {currentId};
    }

    /** `deleteParameterMonitoringDefinitions`: exactly the listed definitions that are not enabled go. */
    method DeleteDefinitions(message: Message, ghost enabled: set<uint16>)
      requires Valid() && message.Valid() && AreEnabled(enabled)
      modifies this`parameterMonitoringList, message`readPosition, message`errors
      ensures Valid()
      ensures var d, p := message.data[..], old(message.readPosition);
        var ids := IdsAt(d, Messages.After(d, p, 2), HalfAt(d, p));
        && parameterMonitoringList == Remaining(old(parameterMonitoringList), enabled, ids)
        && message.errors ==
             DeletionErrors(Open(old(parameterMonitoringList), enabled), d, Messages.After(d, p, 2), HalfAt(d, p),
                            old(message.errors) + (if message.IsTc(12, 6) then [] else [OtherMessageType]) +
                            ReadErrors(d, p, 2))
    {
      hide Remaining, Open, IdsAt, NumberAt;
      var ok := message.AssertTc(12, 6);
      var n := message.ReadHalfword();
      DeleteListed(message, n, enabled);
    }

    method DeleteListed(message: Message, n: nat, ghost enabled: set<uint16>)
      requires Valid() && message.Valid() && AreEnabled(enabled)
      modifies this`parameterMonitoringList, message`readPosition, message`errors
      ensures Valid()
      ensures parameterMonitoringList ==
        Remaining(old(parameterMonitoringList), enabled, IdsAt(message.data[..], old(message.readPosition), n))
      ensures message.errors ==
        DeletionErrors(Open(old(parameterMonitoringList), enabled), message.data[..], old(message.readPosition), n,
                       old(message.errors))
    {
      hide Remaining, HalfAt, Valid, AreEnabled, Open, DeletionError;
      ghost var d, start := message.data[..], message.readPosition;
      ghost var list, errors := parameterMonitoringList, message.errors;
      for i := 0 to n
        invariant message.Valid() && message.data[..] == d && Valid() && AreEnabled(enabled)
        invariant Remaining(list, enabled, IdsAt(d, start, n)) ==
          Remaining(parameterMonitoringList, enabled, IdsAt(d, message.readPosition, n - i))
        invariant DeletionErrors(Open(list, enabled), d, start, n, errors) ==
          DeletionErrors(Open(parameterMonitoringList, enabled), d, message.readPosition, n - i, message.errors)
      {
        RemainingFirst(parameterMonitoringList, enabled, IdsAt(d, message.readPosition, n - i));
        DeleteOne(message, enabled);
      }
      NoneListed(parameterMonitoringList, enabled);
    }
  }

  /** The definitions that may be deleted. */
  function Open(list: map<uint16, Pmon>, enabled: set<uint16>): set<uint16>
  {
    set id | id in list && id !in enabled
  }

  /** What reading one id and trying to delete its definition reports. */
  function DeletionError(open: set<uint16>, d: seq<byte>, p: nat): seq<Error>
  {
    ReadErrors(d, p, 2) + if HalfAt(d, p) in open then [] else [InvalidRequestToDeleteParameterMonitoringDefinition]
  }

  function DeletionErrors(open: set<uint16>, d: seq<byte>, p: nat, n: nat, errors: seq<Error>): seq<Error>
    decreases n
  {
    if n == 0 then errors
    else
      DeletionErrors(open - {HalfAt(d, p)}, d, Messages.After(d, p, 2), n - 1, errors + DeletionError(open, d, p))
  }

  /** The definitions that are enabled or not listed. */
  function Remaining(list: map<uint16, Pmon>, enabled: set<uint16>, ids: seq<uint16>): map<uint16, Pmon>
  {
    map id | id in list && (id in ids ==> id in enabled) :: list[id]
  }

  /** Exactly the definitions that are listed and not enabled are gone. */
  lemma RemainingExact(list: map<uint16, Pmon>, enabled: set<uint16>, ids: seq<uint16>, id: uint16)
    ensures var rest := Remaining(list, enabled, ids);
      && (id in rest <==> id in list && (id in enabled || id !in ids))
      && (id in rest ==> rest[id] == list[id])
  {
  }

  /** How many of the ids cannot be deleted when their turn comes. */
  function Undeletable(open: set<uint16>, ids: seq<uint16>): nat
  {
    if ids == [] then 0
    else
      var n := |ids| - 1;
      Undeletable(open, ids[..n]) + if ids[n] in open && ids[n] !in ids[..n] then 0 else 1
  }

  lemma {:induction false} UndeletableFirst(open: set<uint16>, ids: seq<uint16>)
    requires ids != []
    ensures Undeletable(open, ids) == Undeletable(open - {ids[0]}, ids[1..]) + if ids[0] in open then 0 else 1
    decreases |ids|
  {
    var n := |ids| - 1;
    if n > 0 {
      UndeletableFirst(open, ids[..n]);
      assert ids[..n][1..] == ids[1..][..n - 1];
      assert ids[..n] == [ids[0]] + ids[1..n];
    }
  }

  /** A request that fits reports one error for each id without a definition to delete: unknown, enabled,
      or deleted before. */
  lemma {:induction false} DeletionErrorsExact(open: set<uint16>, d: seq<byte>, p: nat, n: nat, errors: seq<Error>)
    requires p + 2 * n <= |d|
    ensures DeletionErrors(open, d, p, n, errors) ==
      errors + seq(Undeletable(open, IdsAt(d, p, n)), _ => InvalidRequestToDeleteParameterMonitoringDefinition)
    decreases n
  {
    hide HalfAt;
    if n > 0 {
      hide Undeletable;
      DeletionErrorsExact(open - {HalfAt(d, p)}, d, p + 2, n - 1, errors + DeletionError(open, d, p));
      assert IdsAt(d, p, n)[1..] == IdsAt(d, p + 2, n - 1);
      UndeletableFirst(open, IdsAt(d, p, n));
    }
  }

  lemma RemainingFirst(list: map<uint16, Pmon>, enabled: set<uint16>, ids: seq<uint16>)
    requires ids != []
    ensures Remaining(Remaining(list, enabled, [ids[0]]), enabled, ids[1..]) == Remaining(list, enabled, ids)
  {
    assert ids == [ids[0]] + ids[1..];
  }

  lemma NoneListed(list: map<uint16, Pmon>, enabled: set<uint16>)
    ensures Remaining(list, enabled, []) == list
  {
  }
}
