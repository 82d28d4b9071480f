/** The Gregorian calendar and the UTC timestamp that counts in it. */
module Calendar {
  import opened Bits

  const SECONDS_PER_MINUTE := 60
  const SECONDS_PER_HOUR := 3600
  const SECONDS_PER_DAY := 86400
  const MONTHS_PER_YEAR := 12
  const DAYS_OF_MONTH: seq<nat> := [31, 28, 31, 30, 31, 30, 31, 31, 30, 31, 30, 31]

  predicate IsLeapYear(year: nat)
  {
    if year % 4 != 0 then false
    else if year % 100 != 0 then true
    else year % 400 == 0
  }

  function DaysInYear(year: nat): nat
  {
    if IsLeapYear(year) then 366 else 365
  }

  function DaysInMonth(year: nat, month: nat): (d: nat)
    requires 1 <= month <= 12
    ensures 28 <= d <= 31
  {
    DAYS_OF_MONTH[month - 1] + if month == 2 && IsLeapYear(year) then 1 else 0
  }

  /** Days from 1 January of year 0 to 1 January of `year`. */
  function DaysBeforeYear(year: nat): nat
  {
    if year == 0 then 0 else DaysBeforeYear(year - 1) + DaysInYear(year - 1)
  }

  /** Days from 1 January to the first of `month`, month 13 being the end of the year. */
  function DaysBeforeMonth(year: nat, month: nat): nat
    requires 1 <= month <= 13
  {
    if month == 1 then 0 else DaysBeforeMonth(year, month - 1) + DaysInMonth(year, month - 1)
  }

  datatype Date = Date(year: nat, month: nat, day: nat, hour: nat, minute: nat, second: nat)

  predicate HasMonth(d: Date)
  {
    1 <= d.month <= 12
  }

  predicate ValidDate(d: Date)
  {
    && HasMonth(d)
    && 1 <= d.day <= DaysInMonth(d.year, d.month)
    && d.hour < 24 && d.minute < 60 && d.second < 60
  }

  function Days(d: Date): nat
    requires HasMonth(d)
  {
    DaysBeforeYear(d.year) + DaysBeforeMonth(d.year, d.month) + d.day
  }

  /** Seconds since the last day before year 0; linear in day, hour, minute and second. */
  function Seconds(d: Date): nat
    requires HasMonth(d)
  {
    SECONDS_PER_DAY * Days(d) + SECONDS_PER_HOUR * d.hour + SECONDS_PER_MINUTE * d.minute + d.second
  }

  // ----- the calendar

  lemma YearLength(year: nat)
    ensures DaysBeforeMonth(year, 13) == DaysInYear(year)
  {
    assert DaysBeforeMonth(year, 2) == 31;
    assert DaysBeforeMonth(year, 4) == DaysBeforeMonth(year, 2) + DaysInMonth(year, 2) + 31;
    assert DaysBeforeMonth(year, 6) == DaysBeforeMonth(year, 4) + 61;
    assert DaysBeforeMonth(year, 8) == DaysBeforeMonth(year, 6) + 61;
    assert DaysBeforeMonth(year, 10) == DaysBeforeMonth(year, 8) + 61;
    assert DaysBeforeMonth(year, 12) == DaysBeforeMonth(year, 10) + 61;
  }

  /** Month lengths in closed form: from March on they repeat every five months, which are 153 days. */
  lemma {:induction false} DaysBeforeMonthClosed(year: nat, month: nat)
    requires 1 <= month <= 13
    ensures DaysBeforeMonth(year, month) == if month <= 2 then 31 * (month - 1)
      else 59 + (if IsLeapYear(year) then 1 else 0) + (153 * (month - 3) + 2) / 5
    decreases month
  {
    hide IsLeapYear;
    if month > 1 {
      DaysBeforeMonthClosed(year, month - 1);
    }
  }

  /** The Gregorian rule in closed form. */
  lemma {:induction false} DaysBeforeYearClosed(year: nat)
    ensures DaysBeforeYear(year) == 365 * year + (year + 3) / 4 - (year + 99) / 100 + (year + 399) / 400
  {
    if year > 0 {
      var y := year - 1;
      DaysBeforeYearClosed(y);
      CeilStep(y, 4);
      CeilStep(y, 100);
      CeilStep(y, 400);
      LeapCount(y);
    }
  }

  /** The second count in closed form, from the fields alone. */
  lemma SecondsClosed(d: Date)
    requires HasMonth(d)
    ensures var y, m := d.year, d.month;
      var leap := if y % 4 == 0 && (y % 100 != 0 || y % 400 == 0) then 1 else 0;
      var years := 365 * y + (y + 3) / 4 - (y + 99) / 100 + (y + 399) / 400;
      var months := if m <= 2 then 31 * (m - 1) else 59 + leap + (153 * (m - 3) + 2) / 5;
      Seconds(d) == 86400 * (years + months + d.day) + 3600 * d.hour + 60 * d.minute + d.second
  {
    DaysBeforeYearClosed(d.year);
    DaysBeforeMonthClosed(d.year, d.month);
    hide DaysBeforeYear, DaysBeforeMonth;
  }

  lemma LeapCount(y: nat)
    ensures DaysInYear(y) == 365 + (if y % 4 == 0 then 1 else 0) - (if y % 100 == 0 then 1 else 0)
      + if y % 400 == 0 then 1 else 0
  {
    CenturyIsMultiple(y);
    EraIsCentury(y);
  }

  lemma CenturyIsMultiple(y: nat)
    ensures y % 100 == 0 ==> y % 4 == 0
  {
    if y % 100 == 0 {
      var c := y / 100;
      assert y == 100 * c == 4 * (25 * c);
      FourTimes(25 * c);
    }
  }

  lemma EraIsCentury(y: nat)
    ensures y % 400 == 0 ==> y % 100 == 0
  {
    if y % 400 == 0 {
      var c := y / 400;
      assert y == 400 * c == 100 * (4 * c);
      HundredTimes(4 * c);
    }
  }

  lemma FourTimes(k: nat)
    ensures 4 * k % 4 == 0
  {
  }

  lemma HundredTimes(k: nat)
    ensures 100 * k % 100 == 0
  {
  }

  lemma CeilStep(y: nat, n: nat)
    requires n == 4 || n == 100 || n == 400
    ensures (y + n) / n == (y + n - 1) / n + if y % n == 0 then 1 else 0
  {
  }

  lemma {:induction false} MonthMonotone(year: nat, m: nat, n: nat)
    requires 1 <= m < n <= 13
    ensures DaysBeforeMonth(year, m) + DaysInMonth(year, m) <= DaysBeforeMonth(year, n)
    decreases n
  {
    if m < n - 1 {
      MonthMonotone(year, m, n - 1);
    }
  }

  lemma {:induction false} YearMonotone(y: nat, z: nat)
    requires y < z
    ensures DaysBeforeYear(y) + DaysInYear(y) <= DaysBeforeYear(z)
    decreases z
  {
    if y < z - 1 {
      YearMonotone(y, z - 1);
    }
  }

  /** The source's field-by-field `operator<`. */
  predicate Earlier(a: Date, b: Date)
  {
    if a.year < b.year then true else if a.year > b.year then false
    else if a.month < b.month then true else if a.month > b.month then false
    else if a.day < b.day then true else if a.day > b.day then false
    else if a.hour < b.hour then true else if a.hour > b.hour then false
    else if a.minute < b.minute then true else if a.minute > b.minute then false
    else a.second < b.second
  }

  lemma EarlierDays(a: Date, b: Date)
    requires ValidDate(a) && ValidDate(b)
    requires a.year < b.year || (a.year == b.year && (a.month < b.month || (a.month == b.month && a.day < b.day)))
    ensures Days(a) < Days(b)
  {
    YearLength(a.year);
    MonthMonotone(a.year, a.month, 13);
    if a.year < b.year {
      YearMonotone(a.year, b.year);
    } else if a.month < b.month {
      MonthMonotone(a.year, a.month, b.month);
    }
  }

  /** Chronological order: the field comparison of valid dates is the order of their second counts. */
  lemma EarlierIsFewerSeconds(a: Date, b: Date)
    requires ValidDate(a) && ValidDate(b)
    ensures Earlier(a, b) <==> Seconds(a) < Seconds(b)
  {
    if a.year == b.year && a.month == b.month && a.day == b.day {
    } else if Earlier(a, b) {
      EarlierDays(a, b);
    } else {
      EarlierDays(b, a);
    }
  }

  /** A valid date is determined by its second count. */
  lemma SecondsDetermine(a: Date, b: Date)
    requires ValidDate(a) && ValidDate(b) && Seconds(a) == Seconds(b)
    ensures a == b
  {
    EarlierIsFewerSeconds(a, b);
    EarlierIsFewerSeconds(b, a);
  }

  // ----- adding a duration

  /** Where the year loop stops: the year reached and the seconds still to add. */
  function YearLoop(year: nat, seconds: nat): (r: (nat, nat))
    ensures r.1 < SECONDS_PER_DAY * DaysInYear(r.0) && r.0 >= year
    decreases seconds
  {
    if seconds < SECONDS_PER_DAY * DaysInYear(year) then (year, seconds)
    else YearLoop(year + 1, seconds - SECONDS_PER_DAY * DaysInYear(year))
  }

  /** Where the month loop stops: the year and month reached and the seconds still to add. */
  function MonthLoop(year: nat, month: nat, seconds: nat): (r: (nat, nat, nat))
    requires 1 <= month <= 12
    ensures 1 <= r.1 <= 12 && r.2 < SECONDS_PER_DAY * DaysInMonth(r.0, r.1) && r.0 >= year
    decreases seconds
  {
    if seconds < SECONDS_PER_DAY * DaysInMonth(year, month) then (year, month, seconds)
    else if month == 12 then MonthLoop(year + 1, 1, seconds - SECONDS_PER_DAY * DaysInMonth(year, month))
    else MonthLoop(year, month + 1, seconds - SECONDS_PER_DAY * DaysInMonth(year, month))
  }

  lemma MonthLoopStep(year: nat, month: nat, seconds: nat)
    requires 1 <= month <= 12 && seconds >= SECONDS_PER_DAY * DaysInMonth(year, month)
    ensures MonthLoop(year, month, seconds) ==
      MonthLoop(if month == 12 then year + 1 else year, if month == 12 then 1 else month + 1,
                seconds - SECONDS_PER_DAY * DaysInMonth(year, month))
    ensures MonthLoop(year, month, seconds).0 >= if month == 12 then year + 1 else year
  {
  }

  lemma {:induction false} YearLoopExact(year: nat, seconds: nat)
    ensures var r := YearLoop(year, seconds);
      SECONDS_PER_DAY * DaysBeforeYear(r.0) + r.1 == SECONDS_PER_DAY * DaysBeforeYear(year) + seconds
    decreases seconds
  {
    if seconds >= SECONDS_PER_DAY * DaysInYear(year) {
      YearLoopExact(year + 1, seconds - SECONDS_PER_DAY * DaysInYear(year));
    }
  }

  function MonthStart(year: nat, month: nat): nat
    requires 1 <= month <= 12
  {
    DaysBeforeYear(year) + DaysBeforeMonth(year, month)
  }

  lemma NextMonthStart(year: nat, month: nat)
    requires 1 <= month <= 12
    ensures (if month == 12 then MonthStart(year + 1, 1) else MonthStart(year, month + 1)) ==
      MonthStart(year, month) + DaysInMonth(year, month)
  {
    if month == 12 {
      YearLength(year);
    }
  }

  lemma {:induction false} MonthLoopExact(year: nat, month: nat, seconds: nat)
    requires 1 <= month <= 12
    ensures var r := MonthLoop(year, month, seconds);
      SECONDS_PER_DAY * MonthStart(r.0, r.1) + r.2 == SECONDS_PER_DAY * MonthStart(year, month) + seconds
    decreases seconds
  {
    if seconds >= SECONDS_PER_DAY * DaysInMonth(year, month) {
      NextMonthStart(year, month);
      MonthLoopStep(year, month, seconds);
      hide MonthStart, DaysInMonth, MonthLoop;
      var start, days := MonthStart(year, month), DaysInMonth(year, month);
      var rest := seconds - SECONDS_PER_DAY * days;
      assert SECONDS_PER_DAY * (start + days) + rest == SECONDS_PER_DAY * start + seconds;
      var y, m := if month == 12 then year + 1 else year, if month == 12 then 1 else month + 1;
      assert MonthStart(y, m) == start + days && MonthLoop(year, month, seconds) == MonthLoop(y, m, rest);
      MonthLoopExact(y, m, rest);
    }
  }

  /** The carries of `operator+=` once less than a month is left. */
  function Carried(d: Date, s: nat): Date
  {
    Date(d.year, d.month, d.day + s / SECONDS_PER_DAY, d.hour + s % SECONDS_PER_DAY / SECONDS_PER_HOUR,
         d.minute + s % SECONDS_PER_HOUR / SECONDS_PER_MINUTE, d.second + s % SECONDS_PER_MINUTE)
  }

  /** The fields after the two loops and the carries of `operator+=`, before `repair`. */
  function Unrepaired(d: Date, seconds: nat): (r: Date)
    requires HasMonth(d)
    ensures HasMonth(r)
  {
    var y := YearLoop(d.year, seconds);
    var m := MonthLoop(y.0, d.month, y.1);
    Carried(d.(year := m.0, month := m.1), m.2)
  }

  /** `repair`, one carry per field; note that 60 seconds are not carried. */
  function RepairSecond(d: Date): Date
  {
    if d.second > 60 then d.(second := d.second - 60, minute := d.minute + 1) else d
  }

  function RepairMinute(d: Date): Date
  {
    if d.minute >= 60 then d.(minute := d.minute - 60, hour := d.hour + 1) else d
  }

  function RepairHour(d: Date): Date
  {
    if d.hour >= 24 then d.(hour := d.hour - 24, day := d.day + 1) else d
  }

  function RepairDay(d: Date): Date
    requires HasMonth(d)
  {
    if d.day > DaysInMonth(d.year, d.month) then
      d.(day := d.day - DaysInMonth(d.year, d.month), month := d.month + 1)
    else d
  }

  function RepairMonth(d: Date): Date
  {
    if d.month > 12 then d.(month := d.month - 12, year := d.year + 1) else d
  }

  function Repaired(d: Date): (r: Date)
    requires HasMonth(d)
    ensures HasMonth(r)
  {
    RepairMonth(RepairDay(RepairHour(RepairMinute(RepairSecond(d)))))
  }

  function Plus(d: Date, seconds: nat): (r: Date)
    requires HasMonth(d)
    ensures HasMonth(r)
  {
    Repaired(Unrepaired(d, seconds))
  }

  // ----- the same on a 16-bit year

  function NextYear(year: uint16): uint16
  {
    (year as int + 1) % 0x1_0000
  }

  function YearLoop16(year: uint16, seconds: nat): (r: (uint16, nat))
    ensures r.1 < SECONDS_PER_DAY * DaysInYear(r.0)
    decreases seconds
  {
    if seconds < SECONDS_PER_DAY * DaysInYear(year) then (year, seconds)
    else YearLoop16(NextYear(year), seconds - SECONDS_PER_DAY * DaysInYear(year))
  }

  function MonthLoop16(year: uint16, month: nat, seconds: nat): (r: (uint16, nat, nat))
    requires 1 <= month <= 12
    ensures 1 <= r.1 <= 12 && r.2 < SECONDS_PER_DAY * DaysInMonth(r.0, r.1)
    decreases seconds
  {
    if seconds < SECONDS_PER_DAY * DaysInMonth(year, month) then (year, month, seconds)
    else if month == 12 then MonthLoop16(NextYear(year), 1, seconds - SECONDS_PER_DAY * DaysInMonth(year, month))
    else MonthLoop16(year, month + 1, seconds - SECONDS_PER_DAY * DaysInMonth(year, month))
  }

  /** `operator+=` with the year counter wrapping. */
  function Plus16(d: Date, seconds: nat): Date
    requires HasMonth(d) && d.year < 0x1_0000
  {
    var y := YearLoop16(d.year, seconds);
    var m := MonthLoop16(y.0, d.month, y.1);
    Wrapped(Repaired(Carried(d.(year := m.0, month := m.1), m.2)))
  }

  function Wrapped(d: Date): Date
  {
    d.(year := d.year % 0x1_0000)
  }

  /** Behind the last year a 16-bit counter holds comes the year 0. */
  lemma YearWraps(seconds: nat)
    requires 365 * 86400 <= seconds < (365 + 366) * 86400
    ensures YearLoop16(65535, seconds) == (0, seconds - 365 * 86400)
  {
    assert !IsLeapYear(65535) && IsLeapYear(0);
  }

  lemma {:induction false} YearLoopFits(year: uint16, seconds: nat)
    requires YearLoop(year, seconds).0 < 0x1_0000
    ensures YearLoop16(year, seconds).0 as nat == YearLoop(year, seconds).0
    ensures YearLoop16(year, seconds).1 == YearLoop(year, seconds).1
    decreases seconds
  {
    if seconds >= SECONDS_PER_DAY * DaysInYear(year) {
      YearLoopFits(NextYear(year), seconds - SECONDS_PER_DAY * DaysInYear(year));
    }
  }

  lemma {:induction false} MonthLoopFits(year: uint16, month: nat, seconds: nat)
    requires 1 <= month <= 12 && MonthLoop(year, month, seconds).0 < 0x1_0000
    ensures var r := MonthLoop16(year, month, seconds); (r.0 as nat, r.1, r.2) == MonthLoop(year, month, seconds)
    decreases seconds
  {
    if seconds >= SECONDS_PER_DAY * DaysInMonth(year, month) {
      MonthLoopStep(year, month, seconds);
      var rest := seconds - SECONDS_PER_DAY * DaysInMonth(year, month);
      hide DaysInMonth;
      if month == 12 {
        MonthLoopFits(NextYear(year), 1, rest);
      } else {
        MonthLoopFits(year, month + 1, rest);
      }
    }
  }

  /** As long as the year stays in 16 bits, nothing wraps on the way. */
  lemma PlusFits(d: Date, seconds: nat)
    requires HasMonth(d) && d.year < 0x1_0000 && Plus(d, seconds).year < 0x1_0000
    ensures Plus16(d, seconds) == Plus(d, seconds)
  {
    PlusYear(d, seconds);
    hide YearLoop, MonthLoop, YearLoop16, MonthLoop16, DaysInMonth;
    var y := YearLoop(d.year, seconds);
    YearLoopFits(d.year, seconds);
    MonthLoopFits(y.0, d.month, y.1);
  }

  /** The ranges the constructor of the timestamp accepts. */
  predicate InRange(d: Date)
  {
    HasMonth(d) && 1 <= d.day <= 31 && d.hour < 24 && d.minute < 60 && d.second <= 60
  }

  lemma RepairTimeKeepsSeconds(d: Date)
    requires HasMonth(d)
    ensures var t := RepairHour(RepairMinute(RepairSecond(d)));
      HasMonth(t) && Seconds(t) == Seconds(d)
  {
    hide DaysBeforeYear, DaysBeforeMonth;
  }

  lemma RepairDateKeepsSeconds(t: Date)
    requires HasMonth(t)
    ensures Seconds(RepairMonth(RepairDay(t))) == Seconds(t)
  {
    NextMonthStart(t.year, t.month);
    hide DaysBeforeYear, DaysBeforeMonth, DaysInMonth;
    assert Days(RepairMonth(RepairDay(t))) == Days(t);
  }

  /** `repair` moves seconds between fields without losing any. */
  lemma RepairKeepsSeconds(d: Date)
    requires HasMonth(d)
    ensures Seconds(Repaired(d)) == Seconds(d)
  {
    RepairTimeKeepsSeconds(d);
    RepairDateKeepsSeconds(RepairHour(RepairMinute(RepairSecond(d))));
    hide Seconds, RepairHour, RepairMinute, RepairSecond, RepairDay, RepairMonth;
  }

  lemma DayRemainder(s: nat)
    ensures s % 3600 == s % 86400 % 3600
  {
  }

  lemma HourRemainder(s: nat)
    ensures s % 60 == s % 3600 % 60
  {
    var q, a, b := s / 3600, s % 3600 / 60, s % 3600 % 60;
    assert s == 60 * (60 * q + a) + b;
    MinuteRest(60 * q + a, b);
  }

  lemma MinuteRest(k: nat, b: nat)
    requires b < 60
    ensures (60 * k + b) % 60 == b
  {
  }

  lemma SplitSeconds(s: nat)
    ensures s == SECONDS_PER_DAY * (s / SECONDS_PER_DAY) + SECONDS_PER_HOUR * (s % SECONDS_PER_DAY / SECONDS_PER_HOUR)
      + SECONDS_PER_MINUTE * (s % SECONDS_PER_HOUR / SECONDS_PER_MINUTE) + s % SECONDS_PER_MINUTE
  {
    DayRemainder(s);
    HourRemainder(s);
    var d, h := s % 86400, s % 3600;
    assert s == 86400 * (s / 86400) + d;
    assert d == 3600 * (d / 3600) + h;
    assert h == 60 * (h / 60) + h % 60;
  }

  function LeapDays(year: nat): nat
  {
    if IsLeapYear(year) then 1 else 0
  }

  /** The year loop counts years from January, so a start from March on gains or loses the leap day
      of the year reached against that of the start year; otherwise the second count is exact. */
  lemma PlusSeconds(d: Date, seconds: nat)
    requires HasMonth(d)
    ensures Seconds(Plus(d, seconds)) == Seconds(d) + seconds +
      if d.month <= 2 then 0
      else SECONDS_PER_DAY * (LeapDays(YearLoop(d.year, seconds).0) - LeapDays(d.year))
  {
    var y := YearLoop(d.year, seconds);
    var m := MonthLoop(y.0, d.month, y.1);
    YearLoopExact(d.year, seconds);
    MonthLoopExact(y.0, d.month, y.1);
    SplitSeconds(m.2);
    RepairKeepsSeconds(Unrepaired(d, seconds));
    MonthOffset(d.year, y.0, d.month);
  }

  lemma {:induction false} MonthOffset(y: nat, z: nat, month: nat)
    requires 1 <= month <= 12
    ensures DaysBeforeMonth(z, month) == DaysBeforeMonth(y, month) +
      if month <= 2 then 0 else LeapDays(z) - LeapDays(y)
    decreases month
  {
    if month > 1 {
      MonthOffset(y, z, month - 1);
    }
  }

  /** From the first second of a year: the valid date exactly `seconds` later, with nothing to repair. */
  lemma PlusFromNewYear(year: nat, seconds: nat)
    ensures var d, r := Date(year, 1, 1, 0, 0, 0), Plus(Date(year, 1, 1, 0, 0, 0), seconds);
      ValidDate(r) && Seconds(r) == Seconds(d) + seconds && r == Unrepaired(d, seconds)
  {
    var d := Date(year, 1, 1, 0, 0, 0);
    PlusSeconds(d, seconds);
    var u := Unrepaired(d, seconds);
    UnrepairedBounds(d, seconds);
    assert ValidDate(u);
    assert Repaired(u) == u;
  }

  lemma UnrepairedBounds(d: Date, seconds: nat)
    requires HasMonth(d)
    ensures var u := Unrepaired(d, seconds);
      && d.day <= u.day < d.day + DaysInMonth(u.year, u.month)
      && d.hour <= u.hour < d.hour + 24
      && d.minute <= u.minute < d.minute + 60
      && u.second == d.second + seconds % 60
  {
    var y := YearLoop(d.year, seconds);
    var m := MonthLoop(y.0, d.month, y.1);
    YearLoopMinutes(d.year, seconds);
    MonthLoopMinutes(y.0, d.month, y.1);
  }

  /** The loops take away whole minutes. */
  lemma {:induction false} YearLoopMinutes(year: nat, seconds: nat)
    ensures seconds % 60 == YearLoop(year, seconds).1 % 60
    decreases seconds
  {
    if seconds >= SECONDS_PER_DAY * DaysInYear(year) {
      WholeMinutes(seconds, DaysInYear(year));
      YearLoopMinutes(year + 1, seconds - SECONDS_PER_DAY * DaysInYear(year));
    }
  }

  lemma {:induction false} MonthLoopMinutes(year: nat, month: nat, seconds: nat)
    requires 1 <= month <= 12
    ensures seconds % 60 == MonthLoop(year, month, seconds).2 % 60
    decreases seconds
  {
    if seconds >= SECONDS_PER_DAY * DaysInMonth(year, month) {
      MonthLoopStep(year, month, seconds);
      WholeMinutes(seconds, DaysInMonth(year, month));
      hide DaysInMonth, MonthLoop;
      var y, m := if month == 12 then year + 1 else year, if month == 12 then 1 else month + 1;
      MonthLoopMinutes(y, m, seconds - SECONDS_PER_DAY * DaysInMonth(year, month));
    }
  }

  lemma WholeMinutes(seconds: nat, days: nat)
    requires seconds >= SECONDS_PER_DAY * days
    ensures seconds % 60 == (seconds - SECONDS_PER_DAY * days) % 60
  {
  }

  /** The days in the month after `d`'s. */
  function DaysInNextMonth(d: Date): nat
    requires HasMonth(d)
  {
    if d.month == 12 then DaysInMonth(d.year + 1, 1) else DaysInMonth(d.year, d.month + 1)
  }

  /** The date reached once hours, minutes and seconds are carried, its day still uncarried. */
  function TimeRepaired(d: Date, seconds: nat): (r: Date)
    requires HasMonth(d)
    ensures HasMonth(r)
  {
    RepairHour(RepairMinute(RepairSecond(Unrepaired(d, seconds))))
  }

  /** Exactly when the sum is a valid date: the seconds do not add up to 60, which `repair` leaves
      as it is, and the day does not run past the month after the one reached, which `repair`
      carries only once. */
  lemma PlusValid(d: Date, seconds: nat)
    requires InRange(d)
    ensures ValidDate(Plus(d, seconds)) <==>
      && d.second + seconds % 60 != 60
      && var t := TimeRepaired(d, seconds);
         t.day <= DaysInMonth(t.year, t.month) + DaysInNextMonth(t)
  {
    UnrepairedBounds(d, seconds);
    hide *;
    TimeFields(Unrepaired(d, seconds));
    DayFields(TimeRepaired(d, seconds));
    PlusInSteps(d, seconds);
  }

  lemma PlusInSteps(d: Date, seconds: nat)
    requires InRange(d)
    ensures HasMonth(d) && d.day >= 1 && d.second <= 60 && d.minute < 60 && d.hour < 24
    ensures TimeRepaired(d, seconds) == RepairHour(RepairMinute(RepairSecond(Unrepaired(d, seconds))))
    ensures Plus(d, seconds) == RepairMonth(RepairDay(TimeRepaired(d, seconds)))
  {
  }

  lemma TimeFields(u: Date)
    requires u.hour < 47 && u.minute < 119 && u.second < 120 && u.day >= 1
    ensures var t := RepairHour(RepairMinute(RepairSecond(u)));
      t.hour < 24 && t.minute < 60 && t.day >= 1 && t.second <= 60 && (t.second < 60 <==> u.second != 60)
  {
  }

  lemma DayFields(t: Date)
    requires HasMonth(t) && t.hour < 24 && t.minute < 60 && t.day >= 1 && t.second <= 60
    ensures ValidDate(RepairMonth(RepairDay(t))) <==>
      t.second < 60 && t.day <= DaysInMonth(t.year, t.month) + DaysInNextMonth(t)
  {
    hide DaysInMonth;
  }

  /** The month the loops reach, and the seconds left in it. */
  function MonthReached(d: Date, seconds: nat): (r: (nat, nat, nat))
    requires HasMonth(d)
    ensures 1 <= r.1 <= 12 && r.2 < SECONDS_PER_DAY * DaysInMonth(r.0, r.1)
  {
    var y := YearLoop(d.year, seconds);
    MonthLoop(y.0, d.month, y.1)
  }

  lemma MonthsApart(y: nat, m: nat, z: nat, n: nat)
    requires 1 <= m <= 12 && 1 <= n <= 12
    ensures y < z || (y == z && m < n) ==> MonthStart(y, m) + DaysInMonth(y, m) <= MonthStart(z, n)
  {
    if y == z && m < n {
      MonthMonotone(y, m, n);
    } else if y < z {
      YearMonotone(y, z);
      YearLength(y);
      if m < 12 {
        MonthMonotone(y, m, 13);
      }
    }
  }

  /** It is determined by the calendar alone: count whole years from the start year as long as they
      fit, then go on from the start month in the year reached. */
  lemma MonthReachedIs(d: Date, seconds: nat, year: nat, rest: nat, y: nat, m: nat, left: nat)
    requires HasMonth(d) && 1 <= m <= 12
    requires rest < SECONDS_PER_DAY * DaysInYear(year) && left < SECONDS_PER_DAY * DaysInMonth(y, m)
    requires SECONDS_PER_DAY * DaysBeforeYear(year) + rest == SECONDS_PER_DAY * DaysBeforeYear(d.year) + seconds
    requires SECONDS_PER_DAY * MonthStart(y, m) + left == SECONDS_PER_DAY * MonthStart(year, d.month) + rest
    ensures MonthReached(d, seconds) == (y, m, left)
  {
    hide MonthStart, DaysInMonth, DaysInYear, DaysBeforeYear, YearLoop, MonthLoop;
    YearReachedIs(d.year, seconds, year, rest);
    MonthLoopIs(year, d.month, rest, y, m, left);
  }

  lemma MonthLoopIs(year: nat, month: nat, rest: nat, y: nat, m: nat, left: nat)
    requires 1 <= month <= 12 && 1 <= m <= 12 && left < SECONDS_PER_DAY * DaysInMonth(y, m)
    requires SECONDS_PER_DAY * MonthStart(y, m) + left == SECONDS_PER_DAY * MonthStart(year, month) + rest
    ensures MonthLoop(year, month, rest) == (y, m, left)
  {
    hide MonthStart, DaysInMonth, MonthLoop;
    var r := MonthLoop(year, month, rest);
    MonthLoopExact(year, month, rest);
    MonthsApart(r.0, r.1, y, m);
    MonthsApart(y, m, r.0, r.1);
    SameSlot(MonthStart(r.0, r.1), DaysInMonth(r.0, r.1), r.2, MonthStart(y, m), DaysInMonth(y, m), left,
             r.0 < y || (r.0 == y && r.1 < m), y < r.0 || (r.0 == y && m < r.1));
  }

  lemma YearReachedIs(start: nat, seconds: nat, year: nat, rest: nat)
    requires rest < SECONDS_PER_DAY * DaysInYear(year)
    requires SECONDS_PER_DAY * DaysBeforeYear(year) + rest == SECONDS_PER_DAY * DaysBeforeYear(start) + seconds
    ensures YearLoop(start, seconds) == (year, rest)
  {
    var a := YearLoop(start, seconds);
    YearLoopExact(start, seconds);
    hide DaysInYear, DaysBeforeYear, YearLoop;
    YearsApart(a.0, year);
    YearsApart(year, a.0);
    SameSlot(DaysBeforeYear(a.0), DaysInYear(a.0), a.1, DaysBeforeYear(year), DaysInYear(year), rest,
             a.0 < year, year < a.0);
  }

  lemma YearsApart(y: nat, z: nat)
    ensures y < z ==> DaysBeforeYear(y) + DaysInYear(y) <= DaysBeforeYear(z)
  {
    if y < z {
      YearMonotone(y, z);
    }
  }

  /** Two places in the same or in disjoint stretches of days: the same second is in the same one. */
  lemma SameSlot(a: nat, alength: nat, r: nat, b: nat, blength: nat, s: nat, before: bool, after: bool)
    requires before ==> a + alength <= b
    requires after ==> b + blength <= a
    requires r < SECONDS_PER_DAY * alength && s < SECONDS_PER_DAY * blength
    requires SECONDS_PER_DAY * a + r == SECONDS_PER_DAY * b + s
    ensures !before && !after
  {
  }

  function SecondOfDay(d: Date): nat
  {
    SECONDS_PER_HOUR * d.hour + SECONDS_PER_MINUTE * d.minute + d.second
  }

  /** Over the arguments: the sum is a valid date exactly when the seconds do not add up to 60, and
      the start day with the whole days that are left runs no further than the end of the month
      after the one reached. */
  lemma PlusValidDays(d: Date, seconds: nat)
    requires InRange(d)
    ensures var (y, m, left) := MonthReached(d, seconds);
      ValidDate(Plus(d, seconds)) <==>
        && d.second + seconds % 60 != 60
        && d.day + (left + SecondOfDay(d)) / SECONDS_PER_DAY <=
             DaysInMonth(y, m) + DaysInNextMonth(Date(y, m, 1, 0, 0, 0))
  {
    var (y, m, left) := MonthReached(d, seconds);
    PlusValid(d, seconds);
    UnrepairedBounds(d, seconds);
    var u := Unrepaired(d, seconds);
    assert u == Carried(d.(year := y, month := m), left);
    assert TimeRepaired(d, seconds) == RepairHour(RepairMinute(RepairSecond(u)));
    LeftOver(d, seconds);
    hide Unrepaired, MonthReached, TimeRepaired, YearLoop, MonthLoop, DaysInMonth, Plus, ValidDate, DaysInNextMonth;
    hide RepairHour, RepairMinute, RepairSecond, Carried, SecondOfDay;
    if d.second + seconds % 60 != 60 {
      DaysReached(d, y, m, left, u);
      SameLength(RepairHour(RepairMinute(RepairSecond(u))), y, m);
    }
  }

  lemma SameLength(t: Date, y: nat, m: nat)
    requires t.year == y && t.month == m && 1 <= m <= 12
    ensures DaysInNextMonth(t) == DaysInNextMonth(Date(y, m, 1, 0, 0, 0))
  {
  }

  lemma DaysReached(d: Date, y: nat, m: nat, left: nat, u: Date)
    requires u == Carried(d.(year := y, month := m), left)
    requires u.hour < 47 && u.minute < 119 && u.second < 120 && u.second != 60
    ensures var t := RepairHour(RepairMinute(RepairSecond(u)));
      t.year == y && t.month == m && t.day == d.day + (left + SecondOfDay(d)) / SECONDS_PER_DAY
  {
    var t := RepairHour(RepairMinute(RepairSecond(u)));
    DayReached(u);
    SplitSeconds(left);
    hide RepairHour, RepairMinute, RepairSecond;
    assert SECONDS_PER_DAY * t.day + SecondOfDay(t) == SECONDS_PER_DAY * d.day + left + SecondOfDay(d);
    hide SecondOfDay, Carried;
    WholeDays(t.day - d.day, SecondOfDay(t), left + SecondOfDay(d));
  }

  lemma LeftOver(d: Date, seconds: nat)
    requires HasMonth(d)
    ensures seconds % 60 == MonthReached(d, seconds).2 % 60
    ensures MonthReached(d, seconds).2 % SECONDS_PER_MINUTE == Unrepaired(d, seconds).second - d.second
  {
    hide YearLoop, MonthLoop;
    var y := YearLoop(d.year, seconds);
    YearLoopMinutes(d.year, seconds);
    MonthLoopMinutes(y.0, d.month, y.1);
  }

  /** Carrying hours, minutes and seconds other than 60 moves whole days only. */
  lemma DayReached(u: Date)
    requires u.hour < 47 && u.minute < 119 && u.second < 120 && u.second != 60
    ensures var t := RepairHour(RepairMinute(RepairSecond(u)));
      && t.year == u.year && t.month == u.month && t.day >= u.day && SecondOfDay(t) < SECONDS_PER_DAY
      && SECONDS_PER_DAY * t.day + SecondOfDay(t) == SECONDS_PER_DAY * u.day + SecondOfDay(u)
  {
  }

  lemma WholeDays(days: int, rest: nat, total: nat)
    requires SECONDS_PER_DAY * days + rest == total && rest < SECONDS_PER_DAY
    ensures total / SECONDS_PER_DAY == days
  {
  }

  /** A start on one of the first 28 days can only go wrong through the uncarried sixtieth second. */
  lemma PlusValidEarlyDays(d: Date, seconds: nat)
    requires InRange(d) && d.day <= 28
    ensures ValidDate(Plus(d, seconds)) <==> d.second + seconds % 60 != 60
  {
    UnrepairedBounds(d, seconds);
    PlusValid(d, seconds);
    hide Unrepaired, DaysInMonth;
  }

  /** 30 seconds after 00:00:30 reads 00:00:60, although both arguments are in order. */
  lemma SixtiethSecond()
    ensures Plus(Date(2021, 1, 1, 0, 0, 30), 30) == Date(2021, 1, 1, 0, 0, 60)
  {
    assert YearLoop(2021, 30) == (2021, 30) && MonthLoop(2021, 1, 30) == (2021, 1, 30);
  }

  /** 30 days after 31 January reads 30 February. */
  lemma ThirtiethOfFebruary()
    ensures Plus(Date(2021, 1, 31, 0, 0, 0), 30 * SECONDS_PER_DAY) == Date(2021, 2, 30, 0, 0, 0)
  {
    assert YearLoop(2021, 30 * 86400) == (2021, 30 * 86400);
    assert MonthLoop(2021, 1, 30 * 86400) == (2021, 1, 30 * 86400);
  }

  /** 365 days after 1 March 2019 reads 1 March 2020, one day late. */
  lemma LeapDayMissed()
    ensures var d, r := Date(2019, 3, 1, 0, 0, 0), Plus(Date(2019, 3, 1, 0, 0, 0), 365 * SECONDS_PER_DAY);
      r == Date(2020, 3, 1, 0, 0, 0) && Seconds(r) == Seconds(d) + 366 * SECONDS_PER_DAY
  {
    var s := 365 * 86400;
    assert !IsLeapYear(2019) && IsLeapYear(2020);
    assert YearLoop(2020, 0) == (2020, 0);
    assert YearLoop(2019, s) == (2020, 0);
    assert MonthLoop(2020, 3, 0) == (2020, 3, 0);
    PlusSeconds(Date(2019, 3, 1, 0, 0, 0), s);
  }

  // ----- the source's class

  datatype TimeError = InvalidTimeStampInput | TimeStampOutOfBounds

  class UTCTimestamp {
    var year: uint16
    var month: byte
    var day: byte
    var hour: byte
    var minute: byte
    var second: byte
    var errors: seq<TimeError>

    function Value(): Date
      reads this
    {
      Date(year, month, day, hour, minute, second)
    }

    constructor (year: uint16, month: byte, day: byte, hour: byte, minute: byte, second: byte)
      ensures Value() == Date(year, month, day, hour, minute, second) && errors == []
    {
      this.year, this.month, this.day := year, month, day;
      this.hour, this.minute, this.second := hour, minute, second;
      errors := [];
    }

    /** `operator<`: chronological order on valid dates. */
    predicate Less(other: UTCTimestamp)
      reads this, other
      ensures ValidDate(Value()) && ValidDate(other.Value()) ==>
        (Less(other) <==> Seconds(Value()) < Seconds(other.Value()))
    {
      assert ValidDate(Value()) && ValidDate(other.Value()) ==>
          (Earlier(Value(), other.Value()) <==> Seconds(Value()) < Seconds(other.Value())) by {
        if ValidDate(Value()) && ValidDate(other.Value()) {
          EarlierIsFewerSeconds(Value(), other.Value());
        }
      }
      Earlier(Value(), other.Value())
    }

    /** `repair`: at most one carry per field. */
    method Repair()
      requires 1 <= month <= 12 && day < 250 && hour < 250 && minute < 250
      modifies this`year, this`month, this`day, this`hour, this`minute, this`second
      ensures Value() == Wrapped(Repaired(old(Value())))
    {
      if second > SECONDS_PER_MINUTE {
        second := second - SECONDS_PER_MINUTE;
        minute := minute + 1;
      }
      if minute >= 60 {
        minute := minute - 60;
        hour := hour + 1;
      }
      if hour >= 24 {
        hour := hour - 24;
        day := day + 1;
      }
      hide DaysInMonth;
      ghost var t := Value();
      assert t == RepairHour(RepairMinute(RepairSecond(old(Value()))));
      assert t.month == month && t.hour == hour && t.minute == minute && t.second == second;
      hide RepairHour, RepairMinute, RepairSecond;
      var days := DaysInMonth(year, month);
      if day > days {
        day := day - days;
        month := month + 1;
      }
      if month > MONTHS_PER_YEAR {
        month := month - MONTHS_PER_YEAR;
        year := NextYear(year);
      }
      assert Value() == Wrapped(RepairMonth(RepairDay(t)));
    }

    /** The year loop of `operator+=`. */
    method AddYears(duration: nat) returns (seconds: nat)
      modifies this`year
      ensures (year, seconds) == YearLoop16(old(year), duration)
    {
      seconds := duration;
      while seconds >= DaysInYear(year) * SECONDS_PER_DAY
        invariant YearLoop16(year, seconds) == YearLoop16(old(year), duration)
        decreases seconds
      {
        seconds := seconds - DaysInYear(year) * SECONDS_PER_DAY;
        year := NextYear(year);
      }
    }

    /** The month loop of `operator+=`. */
    method AddMonths(duration: nat) returns (seconds: nat)
      requires 1 <= month <= 12
      modifies this`year, this`month
      ensures (year, month as nat, seconds) == MonthLoop16(old(year), old(month), duration)
    {
      seconds := duration;
      while seconds >= DaysInMonth(year, month) * SECONDS_PER_DAY
        invariant 1 <= month <= 12
        invariant MonthLoop16(year, month, seconds) == MonthLoop16(old(year), old(month), duration)
        decreases seconds
      {
        seconds := seconds - DaysInMonth(year, month) * SECONDS_PER_DAY;
        hide DaysInMonth;
        month := month + 1;
        if month > MONTHS_PER_YEAR {
          month := month - MONTHS_PER_YEAR;
          year := NextYear(year);
        }
      }
    }

    /** `operator+=` for a duration of whole seconds. */
    method Add(duration: int)
      requires InRange(Value()) && duration < 0x1_0000_0000_0000_0000
      modifies this
      ensures duration < 0 ==> Value() == old(Value()) && errors == old(errors) + [InvalidTimeStampInput]
      ensures duration >= 0 ==> Value() == Plus16(old(Value()), duration) && errors == old(errors)
      ensures duration >= 0 && Plus(old(Value()), duration).year < 0x1_0000 ==>
        Value() == Plus(old(Value()), duration)
    {
      if duration < 0 {
        errors := errors + [InvalidTimeStampInput];
        return;
      }
      ghost var start := Value();
      hide YearLoop16, MonthLoop16, Repaired, DaysInMonth, Carried, Plus, Wrapped;
      if Plus(start, duration).year < 0x1_0000 {
        PlusFits(start, duration);
      }
      var seconds := AddYears(duration);
      seconds := AddMonths(seconds);
      Carry(seconds);
      Repair();
    }

    /** The carries between the loops and `repair`. */
    method Carry(left: nat)
      requires InRange(Value()) && left < DaysInMonth(year, month) * SECONDS_PER_DAY
      modifies this`day, this`hour, this`minute, this`second
      ensures Value() == Carried(old(Value()), left)
      ensures day < 100 && hour < 100 && minute < 200
    {
      var seconds := left;
      DayRemainder(left);
      HourRemainder(left);
      assert left / SECONDS_PER_DAY < 31;
      day := day + seconds / SECONDS_PER_DAY;
      seconds := seconds - seconds / SECONDS_PER_DAY * SECONDS_PER_DAY;
      assert seconds == left % SECONDS_PER_DAY;
      hour := hour + seconds / SECONDS_PER_HOUR;
      seconds := seconds - seconds / SECONDS_PER_HOUR * SECONDS_PER_HOUR;
      assert seconds == left % SECONDS_PER_HOUR;
      minute := minute + seconds / SECONDS_PER_MINUTE;
      seconds := seconds - seconds / SECONDS_PER_MINUTE * SECONDS_PER_MINUTE;
      assert seconds == left % SECONDS_PER_MINUTE;
      second := second + seconds;
    }
  }

  lemma PlusYear(d: Date, seconds: nat)
    requires HasMonth(d)
    ensures var y := YearLoop(d.year, seconds);
      d.year <= y.0 <= MonthLoop(y.0, d.month, y.1).0 <= Plus(d, seconds).year
  {
  }
}
