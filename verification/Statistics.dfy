/** Running statistics of a parameter, section 6.4 of ECSS-E-ST-70-41C, over the real numbers. */
module Statistics {
  import opened Bits
  import TS = TimeStamps

  type Ticks = TS.Ticks

  /** The sample counter has sixteen bits. */
  const COUNTER_LIMIT := 0x1_0000

  datatype Sample = Sample(value: real, time: Ticks)

  /** A real number or one of the infinities a reset starts from. */
  datatype Extended = MinusInfinity | Finite(value: real) | PlusInfinity

  predicate Greater(value: real, e: Extended)
  {
    e.MinusInfinity? || (e.Finite? && value > e.value)
  }

  predicate Smaller(value: real, e: Extended)
  {
    e.PlusInfinity? || (e.Finite? && value < e.value)
  }

  // ----- the statistics of a list of samples

  function Sum(samples: seq<Sample>): real
  {
    if samples == [] then 0.0 else Sum(samples[..|samples| - 1]) + samples[|samples| - 1].value
  }

  function SumOfSquares(samples: seq<Sample>): real
  {
    if samples == [] then 0.0
    else SumOfSquares(samples[..|samples| - 1]) + Square(samples[|samples| - 1].value)
  }

  function Mean(samples: seq<Sample>): real
    requires samples != []
  {
    Over(Sum(samples), |samples|)
  }

  function Over(x: real, n: nat): real
    requires n > 0
  {
    x / n as real
  }

  function Square(x: real): real
  {
    x * x
  }

  function Times(x: real, n: nat): real
  {
    x * n as real
  }

  /** The summed squares of the distances to `m`. */
  function Spread(samples: seq<Sample>, m: real): real
  {
    if samples == [] then 0.0
    else
      Spread(samples[..|samples| - 1], m) + Square(samples[|samples| - 1].value - m)
  }

  // ----- the samples since the counter last wrapped

  /** How many samples came before the window of the `n`-th one. */
  function Before(n: nat): (b: nat)
    ensures b <= n && (n > 0 ==> b < n)
  {
    if n == 0 then 0 else n - 1 - (n - 1) % COUNTER_LIMIT
  }

  /** The samples since the last wrap of the counter; at a wrap itself, all since the one before. */
  function Window(samples: seq<Sample>): (w: seq<Sample>)
    ensures w == [] <==> samples == []
  {
    samples[Before(|samples|)..]
  }

  function Earlier(samples: seq<Sample>): seq<Sample>
  {
    samples[..Before(|samples|)]
  }

  lemma WindowNext(samples: seq<Sample>, s: Sample)
    ensures var c := |samples| % 0x1_0000;
      && (c == 0 ==> Window(samples + [s]) == [s])
      && (c != 0 ==> |Window(samples)| == c && Window(samples + [s]) == Window(samples) + [s])
  {
    CounterNext(|samples|);
  }

  lemma CounterNext(n: nat)
    ensures n % COUNTER_LIMIT == 0 ==> Before(n + 1) == n
    ensures n % COUNTER_LIMIT != 0 ==> n - Before(n) == n % COUNTER_LIMIT && Before(n + 1) == Before(n)
  {
  }

  /** The window is everything until the counter wraps for the first time. */
  lemma FirstWindow(samples: seq<Sample>)
    requires |samples| <= COUNTER_LIMIT
    ensures Window(samples) == samples && Earlier(samples) == []
  {
  }

  // ----- extremes

  /** The first sample of the largest value, and the first of the smallest. */
  predicate IsFirstMax(samples: seq<Sample>, s: Sample)
  {
    exists i :: 0 <= i < |samples| && samples[i] == s &&
      (forall j :: 0 <= j < |samples| ==> samples[j].value <= s.value) &&
      (forall j :: 0 <= j < i ==> samples[j].value < s.value)
  }

  predicate IsFirstMin(samples: seq<Sample>, s: Sample)
  {
    exists i :: 0 <= i < |samples| && samples[i] == s &&
      (forall j :: 0 <= j < |samples| ==> samples[j].value >= s.value) &&
      (forall j :: 0 <= j < i ==> samples[j].value > s.value)
  }

  // ----- facts about means

  lemma DivideTimes(x: real, n: real)
    requires n > 0.0
    ensures x / n * n == x
  {
  }

  lemma QuotientBounds(x: real, lo: real, hi: real, n: real)
    requires n > 0.0 && lo * n <= x <= hi * n
    ensures lo <= x / n <= hi
  {
    DivideTimes(x, n);
    var q := x / n;
    if q < lo {
      Monotone(q, lo, n);
    }
    if q > hi {
      Monotone(hi, q, n);
    }
  }

  lemma Monotone(a: real, b: real, n: real)
    requires n > 0.0 && a < b
    ensures a * n < b * n
  {
    assert (b - a) * n > 0.0;
  }

  lemma {:induction false} SumBounds(samples: seq<Sample>, lo: real, hi: real)
    requires forall i :: 0 <= i < |samples| ==> lo <= samples[i].value <= hi
    ensures Times(lo, |samples|) <= Sum(samples) <= Times(hi, |samples|)
    decreases |samples|
  {
    if samples != [] {
      var n := |samples| - 1;
      SumBounds(samples[..n], lo, hi);
      OneMore(lo, n);
      OneMore(hi, n);
    }
  }

  lemma OneMore(x: real, n: nat)
    ensures Times(x, n + 1) == Times(x, n) + x
  {
    assert (n + 1) as real == n as real + 1.0;
  }

  /** The mean lies between the extremes. */
  lemma MeanBounds(samples: seq<Sample>, lo: Sample, hi: Sample)
    requires IsFirstMin(samples, lo) && IsFirstMax(samples, hi)
    ensures lo.value <= Mean(samples) <= hi.value
  {
    SumBounds(samples, lo.value, hi.value);
    QuotientBounds(Sum(samples), lo.value, hi.value, |samples| as real);
  }

  /** Twice the product. */
  function Twice(x: real, y: real): real
  {
    2.0 * x * y
  }

  lemma {:induction false} SpreadExpanded(samples: seq<Sample>, m: real)
    ensures Spread(samples, m) == SumOfSquares(samples) - Twice(m, Sum(samples)) + Times(Square(m), |samples|)
    decreases |samples|
  {
    hide Twice, Square, Times;
    if samples == [] {
      NothingSpread(m);
    } else {
      var n := |samples| - 1;
      SpreadExpanded(samples[..n], m);
      OneMore(Square(m), n);
      SquareOfDifference(samples[n].value, m);
      TwiceSum(m, Sum(samples[..n]), samples[n].value);
    }
  }

  lemma NothingSpread(m: real)
    ensures Twice(m, 0.0) == 0.0 && Times(Square(m), 0) == 0.0
  {
  }

  lemma SquareOfDifference(x: real, m: real)
    ensures Square(x - m) == Square(x) - Twice(m, x) + Square(m)
  {
  }

  lemma TwiceSum(m: real, a: real, b: real)
    ensures Twice(m, a + b) == Twice(m, a) + Twice(m, b)
  {
  }

  lemma {:induction false} SpreadNonNegative(samples: seq<Sample>, m: real)
    ensures Spread(samples, m) >= 0.0
    decreases |samples|
  {
    if samples != [] {
      SpreadNonNegative(samples[..|samples| - 1], m);
      SquareNonNegative(samples[|samples| - 1].value - m);
      hide Square;
    }
  }

  lemma SquareNonNegative(x: real)
    ensures Square(x) >= 0.0
  {
    if x >= 0.0 {
      assert x * x >= 0.0;
    } else {
      assert (-x) * (-x) >= 0.0;
    }
  }

  /** The mean of the squares less the square of the mean is the average squared deviation, and
      never negative. */
  lemma Variance(samples: seq<Sample>)
    requires samples != []
    ensures var n, m := |samples|, Mean(samples);
      Over(SumOfSquares(samples), n) - Square(m) == Over(Spread(samples, m), n) >= 0.0
  {
    var n, m := |samples|, Mean(samples);
    SpreadExpanded(samples, m);
    SpreadNonNegative(samples, m);
    hide Spread, SumOfSquares, Sum, Times, Twice, Square;
    TimesOver(Sum(samples), n);
    hide Over;
    VarianceOf(n, m, Sum(samples), SumOfSquares(samples), Spread(samples, m));
  }

  lemma TimesOver(x: real, n: nat)
    requires n > 0
    ensures Times(Over(x, n), n) == x
  {
  }

  lemma VarianceOf(n: nat, m: real, s: real, q: real, p: real)
    requires n > 0 && Times(m, n) == s && p == q - Twice(m, s) + Times(Square(m), n) && p >= 0.0
    ensures Over(q, n) - Square(m) == Over(p, n) >= 0.0
  {
    var r := n as real;
    MeanTwice(m, r, s);
    QuotientDifference(q, m * m, r, p);
    QuotientSign(p, r);
  }

  lemma QuotientSign(p: real, n: real)
    requires n > 0.0 && p >= 0.0
    ensures p / n >= 0.0
  {
    DivideTimes(p, n);
    var q := p / n;
    if q < 0.0 {
      Monotone(q, 0.0, n);
    }
  }

  lemma MeanTwice(m: real, n: real, s: real)
    requires m * n == s
    ensures 2.0 * m * s == 2.0 * (m * m * n)
  {
    assert m * s == m * (m * n) == m * m * n;
  }

  lemma QuotientDifference(q: real, a: real, n: real, p: real)
    requires n > 0.0 && p == q - a * n
    ensures q / n - a == p / n
  {
    DivideTimes(q, n);
    DivideTimes(p, n);
    var x := q / n - a - p / n;
    assert x * n == q - a * n - p == 0.0;
    if x > 0.0 {
      Monotone(0.0, x, n);
    } else if x < 0.0 {
      Monotone(x, 0.0, n);
    }
  }

  lemma SumsNext(samples: seq<Sample>, s: Sample)
    ensures Sum(samples + [s]) == Sum(samples) + s.value
    ensures SumOfSquares(samples + [s]) == SumOfSquares(samples) + Square(s.value)
  {
    assert (samples + [s])[..|samples|] == samples;
    hide Square;
  }

  lemma MeanNext(samples: seq<Sample>, mean: real, s: Sample)
    requires samples == [] || mean == Mean(samples)
    ensures Mean(samples + [s]) == Over(Times(mean, |samples|) + s.value, |samples| + 1)
  {
    hide Over, Times, Square;
    SumsNext(samples, s);
    if samples == [] {
      NoTimes(mean);
    } else {
      TimesOver(Sum(samples), |samples|);
    }
  }

  lemma {:induction false} SquaresAppend(a: seq<Sample>, b: seq<Sample>)
    ensures SumOfSquares(a + b) == SumOfSquares(a) + SumOfSquares(b)
    decreases |b|
  {
    if b == [] {
      assert a + b == a;
    } else {
      SquaresAppend(a, b[..|b| - 1]);
      assert (a + b)[..|a + b| - 1] == a + b[..|b| - 1];
    }
  }

  lemma {:induction false} SquaresNonNegative(samples: seq<Sample>)
    ensures SumOfSquares(samples) >= 0.0
    decreases |samples|
  {
    if samples != [] {
      SquaresNonNegative(samples[..|samples| - 1]);
      SquareNonNegative(samples[|samples| - 1].value);
      hide Square;
    }
  }

  lemma NoSquares()
    ensures SumOfSquares([]) == 0.0
  {
  }

  lemma OverSum(a: real, b: real, n: nat)
    requires n > 0
    ensures Over(a + b, n) == Over(a, n) + Over(b, n)
  {
  }

  /** The mean of all squares less the square of the window's mean: what the earlier samples'
      squares add to the window's variance. */
  lemma WrappedVariance(samples: seq<Sample>)
    requires |samples| % COUNTER_LIMIT != 0
    ensures var c, w := |samples| % COUNTER_LIMIT, Window(samples);
      && |w| == c
      && Over(SumOfSquares(samples), c) - Square(Mean(w)) ==
           Over(Spread(w, Mean(w)), c) + Over(SumOfSquares(Earlier(samples)), c)
      && Over(Spread(w, Mean(w)), c) >= 0.0 && Over(SumOfSquares(Earlier(samples)), c) >= 0.0
  {
    var c, w, e := |samples| % COUNTER_LIMIT, Window(samples), Earlier(samples);
    CounterNext(|samples|);
    assert samples == e + w;
    hide Window, Earlier, SumOfSquares, Spread, Mean, Square, Over;
    SquaresAppend(e, w);
    Variance(w);
    OverSum(SumOfSquares(e), SumOfSquares(w), c);
    SquaresNonNegative(e);
    OverSign(SumOfSquares(e), c);
  }

  lemma OverSign(x: real, n: nat)
    requires n > 0 && x >= 0.0
    ensures Over(x, n) >= 0.0
    ensures Over(x, n) == 0.0 <==> x == 0.0
  {
    QuotientSign(x, n as real);
    DivideTimes(x, n as real);
  }

  lemma NoTimes(x: real)
    ensures Times(x, 0) == 0.0
  {
  }

  // ----- the source's class

  class Statistic {
    var max: Extended
    var min: Extended
    var timeOfMaxValue: Ticks
    var timeOfMinValue: Ticks
    var mean: real
    var sumOfSquares: real
    var sampleCounter: uint16

    /** The fields are the statistics of these samples: extremes and squares of all, the mean of those
        since the counter last wrapped. */
    ghost predicate Summarises(samples: seq<Sample>)
      reads this
    {
      && sampleCounter == |samples| % 0x1_0000 && sumOfSquares == SumOfSquares(samples)
      && if samples == [] then
           max == MinusInfinity && min == PlusInfinity && timeOfMaxValue == 0 && timeOfMinValue == 0 && mean == 0.0
         else
           && mean == Mean(Window(samples))
           && max.Finite? && IsFirstMax(samples, Sample(max.value, timeOfMaxValue))
           && min.Finite? && IsFirstMin(samples, Sample(min.value, timeOfMinValue))
    }

    constructor ()
      ensures Summarises([])
    {
      max, min, timeOfMaxValue, timeOfMinValue := MinusInfinity, PlusInfinity, 0, 0;
      mean, sumOfSquares, sampleCounter := 0.0, 0.0, 0;
    }

    /** `resetStatistics`. */
    method ResetStatistics()
      modifies this
      ensures Summarises([])
    {
      max, min, timeOfMaxValue, timeOfMinValue := MinusInfinity, PlusInfinity, 0, 0;
      mean, sumOfSquares, sampleCounter := 0.0, 0.0, 0;
    }

    /** `updateStatistics`: one more sample, after any number of them. */
    method UpdateStatistics(value: real, now: Ticks, ghost samples: seq<Sample>)
      requires Summarises(samples)
      modifies this
      ensures Summarises(samples + [Sample(value, now)])
    {
      hide Mean, SumOfSquares, IsFirstMax, IsFirstMin, Window;
      UpdateExtremes(value, now, samples);
      UpdateSums(value, samples, Sample(value, now));
    }

    method UpdateSums(value: real, ghost samples: seq<Sample>, ghost s: Sample)
      requires sampleCounter as int == |samples| % COUNTER_LIMIT && sumOfSquares == SumOfSquares(samples)
      requires (samples == [] || mean == Mean(Window(samples))) && s.value == value
      modifies this`mean, this`sumOfSquares, this`sampleCounter
      ensures mean == Mean(Window(samples + [s])) && sumOfSquares == SumOfSquares(samples + [s])
      ensures sampleCounter == (|samples| + 1) % COUNTER_LIMIT
    {
      hide Mean, SumOfSquares, Over, Times, Square, Window;
      WindowNext(samples, s);
      SumsNext(samples, s);
      ghost var window := if sampleCounter == 0 then [] else Window(samples);
      MeanNext(window, mean, s);
      assert window + [s] == Window(samples + [s]);
      mean := Over(Times(mean, sampleCounter) + value, sampleCounter as int + 1);
      sumOfSquares := sumOfSquares + Square(value);
      sampleCounter := (sampleCounter as int + 1) % 0x1_0000;
    }

    method UpdateExtremes(value: real, now: Ticks, ghost samples: seq<Sample>)
      requires Summarises(samples)
      modifies this`max, this`min, this`timeOfMaxValue, this`timeOfMinValue
      ensures var all := samples + [Sample(value, now)];
        && max.Finite? && IsFirstMax(all, Sample(max.value, timeOfMaxValue))
        && min.Finite? && IsFirstMin(all, Sample(min.value, timeOfMinValue))
    {
      ghost var all := samples + [Sample(value, now)];
      hide Mean, SumOfSquares, IsFirstMax, IsFirstMin;
      if samples != [] {
        MaxStep(samples, Sample(max.value, timeOfMaxValue), Sample(value, now));
        MinStep(samples, Sample(min.value, timeOfMinValue), Sample(value, now));
      } else {
        OneSample(Sample(value, now));
        assert all == [Sample(value, now)];
      }
      if Greater(value, max) {
        max := Finite(value);
        timeOfMaxValue := now;
      }
      if Smaller(value, min) {
        min := Finite(value);
        timeOfMinValue := now;
      }
    }

    /** The number whose root is the reported standard deviation, with its absolute value taken as the
        source does: the variance of the samples since the counter wrapped, and on top of it the
        squares of all earlier ones. It is that variance exactly when there are none but zeros. */
    method SquaredDeviation(ghost samples: seq<Sample>) returns (v: real)
      requires Summarises(samples)
      ensures var c, w, earlier := |samples| % COUNTER_LIMIT, Window(samples), SumOfSquares(Earlier(samples));
        if c == 0 then v == 0.0
        else
          && v == Over(Spread(w, Mean(w)), c) + Over(earlier, c) && |w| == c
          && (v == Over(Spread(w, Mean(w)), c) <==> earlier == 0.0)
      ensures 0 < |samples| < COUNTER_LIMIT ==> v == Over(Spread(samples, Mean(samples)), |samples|)
      ensures v >= 0.0
    {
      if sampleCounter == 0 {
        return 0.0;
      }
      hide IsFirstMax, IsFirstMin, Spread, SumOfSquares, Mean, Over, Square, Window, Earlier;
      WrappedVariance(samples);
      if |samples| < COUNTER_LIMIT {
        FirstWindow(samples);
        NoSquares();
      }
      SquaresNonNegative(Earlier(samples));
      OverSign(SumOfSquares(Earlier(samples)), sampleCounter);
      var meanOfSquares := Over(sumOfSquares, sampleCounter);
      v := meanOfSquares - Square(mean);
      if v < 0.0 {
        v := -v;
      }
    }

    /** `statisticsAreInitialized`. */
    predicate StatisticsAreInitialized()
      reads this
    {
      && sampleCounter == 0 && mean == 0.0 && sumOfSquares == 0.0 && timeOfMaxValue == 0 && timeOfMinValue == 0
      && max.MinusInfinity? && min.PlusInfinity?
    }

    /** Exactly the empty history counts as initialized. */
    lemma InitializedIsEmpty(samples: seq<Sample>)
      requires Summarises(samples)
      ensures StatisticsAreInitialized() <==> samples == []
    {
    }
  }

  lemma OneSample(s: Sample)
    ensures IsFirstMax([s], s) && IsFirstMin([s], s)
  {
    assert [s][0] == s;
  }

  lemma MaxStep(samples: seq<Sample>, m: Sample, s: Sample)
    requires IsFirstMax(samples, m)
    ensures IsFirstMax(samples + [s], if s.value > m.value then s else m)
  {
    var all := samples + [s];
    var i :| 0 <= i < |samples| && samples[i] == m &&
      (forall j :: 0 <= j < |samples| ==> samples[j].value <= m.value) &&
      (forall j :: 0 <= j < i ==> samples[j].value < m.value);
    assert all[if s.value > m.value then |samples| else i] == if s.value > m.value then s else m;
  }

  lemma MinStep(samples: seq<Sample>, m: Sample, s: Sample)
    requires IsFirstMin(samples, m)
    ensures IsFirstMin(samples + [s], if s.value < m.value then s else m)
  {
    var all := samples + [s];
    var i :| 0 <= i < |samples| && samples[i] == m &&
      (forall j :: 0 <= j < |samples| ==> samples[j].value >= m.value) &&
      (forall j :: 0 <= j < i ==> samples[j].value > m.value);
    assert all[if s.value < m.value then |samples| else i] == if s.value < m.value then s else m;
  }
}
