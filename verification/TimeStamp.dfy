/** The on-board time stamp: a 32-bit count of tenths of a second since 1 January 2020. */
module TimeStamps {
  import opened Bits
  import opened Calendar

  const TICKS_PER_SECOND := 10
  const TICK_LIMIT := 0x1_0000_0000
  const MAX_SECONDS := 429496729
  const EPOCH := Date(2020, 1, 1, 0, 0, 0)
  const EPOCH_SECONDS_FROM_UNIX := 1577836800

  type Ticks = uint32

  /** `operator+=` of a signed number of seconds, on the wrapping counter. */
  function Shifted(t: Ticks, seconds: int): Ticks
  {
    if seconds < 0 then (t - TICKS_PER_SECOND * -seconds % TICK_LIMIT) % TICK_LIMIT
    else (t + TICKS_PER_SECOND * seconds % TICK_LIMIT) % TICK_LIMIT
  }

  /** Both branches shift the counter by ten ticks a second, modulo 2^32. */
  lemma ShiftedIsSum(t: Ticks, seconds: int)
    ensures Shifted(t, seconds) == (t + 10 * seconds) % TICK_LIMIT
  {
    var n := if seconds < 0 then -seconds else seconds;
    var q, r := 10 * n / 0x1_0000_0000, 10 * n % 0x1_0000_0000;
    assert 10 * n == 0x1_0000_0000 * q + r;
    if seconds < 0 {
      ModShift(t - r, -q);
    } else {
      ModShift(t + r, q);
    }
  }

  lemma ModShift(x: int, q: int)
    ensures (x + 0x1_0000_0000 * q) % 0x1_0000_0000 == x % 0x1_0000_0000
  {
  }

  /** Shifting back undoes a shift, even across a wrap of the counter. */
  lemma ShiftBack(t: Ticks, seconds: int)
    ensures Shifted(Shifted(t, seconds), -seconds) == t
  {
    var s := Shifted(t, seconds);
    ShiftedIsSum(t, seconds);
    ShiftedIsSum(s, -seconds);
    var x := t + 10 * seconds;
    var q := x / 0x1_0000_0000;
    assert x == 0x1_0000_0000 * q + s;
    ModShift(t, -q);
  }

  // ----- conversion from and to UTC

  /** The seconds the conversion from UTC counts. */
  function Elapsed(d: Date): nat
    requires HasMonth(d) && d.day >= 1
  {
    SECONDS_PER_DAY * (YearsElapsed(d.year) + DaysBeforeMonth(d.year, d.month) + d.day - 1)
      + SECONDS_PER_HOUR * d.hour + SECONDS_PER_MINUTE * d.minute + d.second
  }

  /** Days from the epoch to 1 January of `year`; none when the epoch is later. */
  function YearsElapsed(year: nat): nat
  {
    if year <= EPOCH.year then 0 else YearsElapsed(year - 1) + DaysInYear(year - 1)
  }

  lemma {:induction false} YearsElapsedExact(year: nat)
    requires year >= EPOCH.year
    ensures YearsElapsed(year) == DaysBeforeYear(year) - DaysBeforeYear(EPOCH.year)
    ensures YearsElapsed(year) >= 365 * (year - EPOCH.year)
    decreases year
  {
    if year > EPOCH.year {
      YearsElapsedExact(year - 1);
    }
  }

  /** The conversion counts the true distance to the epoch exactly for dates from its year on. */
  lemma ElapsedExact(d: Date)
    requires ValidDate(d)
    ensures Elapsed(d) == Seconds(d) - Seconds(EPOCH) <==> d.year >= EPOCH.year
  {
    if d.year >= EPOCH.year {
      YearsElapsedExact(d.year);
    } else {
      EarlierIsFewerSeconds(d, EPOCH);
    }
  }

  lemma NewYearSeconds(year: nat)
    ensures Seconds(Date(year, 1, 1, 0, 0, 0)) ==
      SECONDS_PER_DAY * (365 * year + (year + 3) / 4 - (year + 99) / 100 + (year + 399) / 400 + 1)
  {
    DaysBeforeYearClosed(year);
  }

  /** The constant distance between the Unix epoch and the system epoch is right. */
  lemma UnixDistance()
    ensures Seconds(EPOCH) - Seconds(Date(1970, 1, 1, 0, 0, 0)) == EPOCH_SECONDS_FROM_UNIX
  {
    hide Seconds;
    NewYearSeconds(2020);
    NewYearSeconds(1970);
  }

  /** Thirteen years after the epoch the counter is exhausted. */
  lemma CounterYears(d: Date)
    requires ValidDate(d) && Seconds(d) <= Seconds(EPOCH) + MAX_SECONDS
    ensures d.year < 2034
  {
    if d.year >= 2034 {
      YearsElapsedExact(d.year);
    }
  }

  class TimeStamp {
    var taiCounter: Ticks
    var errors: seq<TimeError>

    /** `secondsAdd`: a 32-bit sum that reports its overflow. */
    method SecondsAdd(seconds: uint32, value: uint32, ghost total: nat) returns (sum: uint32)
      requires Sums(seconds, total)
      modifies this`errors
      ensures sum == (seconds as int + value) % 0x1_0000_0000
      ensures errors == old(errors) + if seconds as int + value >= 0x1_0000_0000 then [TimeStampOutOfBounds] else []
      ensures Sums(sum, total + value)
    {
      sum := (seconds as int + value) % 0x1_0000_0000;
      if sum < value {
        errors := errors + [TimeStampOutOfBounds];
      }
    }

    /** The year loop of the conversion from UTC. */
    method CountYears(last: uint16) returns (seconds: uint32)
      requires errors == []
      modifies this`errors
      ensures Sums(seconds, SECONDS_PER_DAY * YearsElapsed(last))
    {
      seconds := 0;
      var year: nat := EPOCH.year;
      while year < last
        invariant year == EPOCH.year || year <= last
        invariant Sums(seconds, SECONDS_PER_DAY * YearsElapsed(year))
      {
        seconds := SecondsAdd(seconds, DaysInYear(year) * SECONDS_PER_DAY, SECONDS_PER_DAY * YearsElapsed(year));
        year := year + 1;
      }
      assert YearsElapsed(year) == YearsElapsed(last);
    }

    /** The month loop of the conversion from UTC. */
    method CountMonths(start: uint32, year: uint16, last: byte, ghost years: nat) returns (seconds: uint32)
      requires 1 <= last <= 12 && Sums(start, SECONDS_PER_DAY * years)
      modifies this`errors
      ensures Sums(seconds, SECONDS_PER_DAY * (years + DaysBeforeMonth(year, last)))
    {
      seconds := start;
      var month: nat := EPOCH.month;
      while month < last
        invariant 1 <= month <= last
        invariant Sums(seconds, SECONDS_PER_DAY * (years + DaysBeforeMonth(year, month)))
      {
        ghost var total := SECONDS_PER_DAY * (years + DaysBeforeMonth(year, month));
        var length := DAYS_OF_MONTH[month - 1] * SECONDS_PER_DAY;
        assert DaysBeforeMonth(year, month + 1) == DaysBeforeMonth(year, month) + DaysInMonth(year, month);
        hide DaysBeforeMonth, Sums;
        seconds := SecondsAdd(seconds, length, total);
        if month == 2 && IsLeapYear(year) {
          seconds := SecondsAdd(seconds, SECONDS_PER_DAY, total + length);
        }
        month := month + 1;
        assert Sums(seconds, SECONDS_PER_DAY * (years + DaysBeforeMonth(year, month)));
      }
    }

    /** Conversion from UTC: the elapsed seconds, or an error when they do not fit the counter. */
    constructor FromUtc(timestamp: UTCTimestamp)
      requires 1 <= timestamp.month <= 12 && timestamp.day >= 1
      ensures errors == [] <==> Elapsed(timestamp.Value()) <= MAX_SECONDS
      ensures errors == [] ==> taiCounter == TICKS_PER_SECOND * Elapsed(timestamp.Value())
    {
      taiCounter, errors := 0, [];
      new;
      ghost var d := timestamp.Value();
      ghost var days := YearsElapsed(d.year) + DaysBeforeMonth(d.year, d.month);
      assert Elapsed(d) == SECONDS_PER_DAY * days + SECONDS_PER_DAY * (d.day - 1) + SECONDS_PER_HOUR * d.hour
        + SECONDS_PER_MINUTE * d.minute + d.second;
      hide DaysBeforeMonth, YearsElapsed, Elapsed;
      var seconds := CountYears(timestamp.year);
      seconds := CountMonths(seconds, timestamp.year, timestamp.month, YearsElapsed(timestamp.year));
      ghost var total := SECONDS_PER_DAY * days;
      assert Sums(seconds, total);
      var daySeconds := (timestamp.day - EPOCH.day) * SECONDS_PER_DAY;
      var hourSeconds := timestamp.hour as int * SECONDS_PER_HOUR;
      var minuteSeconds := timestamp.minute as int * SECONDS_PER_MINUTE;
      seconds := SecondsAdd(seconds, daySeconds, total);
      seconds := SecondsAdd(seconds, hourSeconds, total + daySeconds);
      seconds := SecondsAdd(seconds, minuteSeconds, total + daySeconds + hourSeconds);
      seconds := SecondsAdd(seconds, timestamp.second, total + daySeconds + hourSeconds + minuteSeconds);
      assert Sums(seconds, Elapsed(d));
      if seconds > MAX_SECONDS {
        errors := errors + [TimeStampOutOfBounds];
        return;
      }
      taiCounter := TICKS_PER_SECOND * seconds as int;
    }

    /** No error so far exactly when the true sum fits 32 bits, and then it is the sum held. */
    ghost predicate Sums(seconds: uint32, total: nat)
      reads this
    {
      (errors == [] <==> total < 0x1_0000_0000) && (errors == [] ==> seconds == total)
    }

    /** `toUTCtimestamp`: the valid date that many whole seconds after the epoch. */
    method ToUtc() returns (timestamp: UTCTimestamp)
      ensures fresh(timestamp) && ValidDate(timestamp.Value()) && timestamp.year >= EPOCH.year
      ensures Seconds(timestamp.Value()) == Seconds(EPOCH) + taiCounter / TICKS_PER_SECOND
    {
      timestamp := new UTCTimestamp(EPOCH.year, EPOCH.month, EPOCH.day, 0, 0, 0);
      var seconds := taiCounter / TICKS_PER_SECOND;
      PlusFromNewYear(EPOCH.year, seconds);
      CounterYears(Plus(EPOCH, seconds));
      PlusYear(EPOCH, seconds);
      timestamp.Add(seconds);
    }
  }

  /** Every valid date the counter can hold survives the trip to the counter and back. */
  method UtcRoundTrip(timestamp: UTCTimestamp) returns (back: UTCTimestamp)
    requires ValidDate(timestamp.Value())
    requires timestamp.year >= EPOCH.year && Seconds(timestamp.Value()) <= Seconds(EPOCH) + MAX_SECONDS
    ensures back.Value() == timestamp.Value()
  {
    ElapsedExact(timestamp.Value());
    var stamp := new TimeStamp.FromUtc(timestamp);
    back := stamp.ToUtc();
    SecondsDetermine(back.Value(), timestamp.Value());
  }

  /** A counter value survives the trip to UTC and back but for its fraction of a second. */
  method TicksRoundTrip(stamp: TimeStamp) returns (back: TimeStamp)
    ensures back.errors == [] && back.taiCounter == stamp.taiCounter - stamp.taiCounter % TICKS_PER_SECOND
  {
    var timestamp := stamp.ToUtc();
    ElapsedExact(timestamp.Value());
    back := new TimeStamp.FromUtc(timestamp);
  }
}
