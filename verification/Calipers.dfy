/** The streaming statistics of nl_calipers, over exact reals. */
module Calipers {
  import opened Bytes

  /** The largest double. */
  const DBL_MAX: real := 179769313486231570814527423731704356798070567525844996598917476803157260780028538760589558632766878171540458953514382464234321326889464182768467546703537516986049910576551282076245490090389328944075868508455133942304583236903222948165808559332123348274797826204144723168738177180919299881250404026184124858368.0

  // ---- What is to be computed ----

  function Sum(xs: seq<real>): real { if xs == [] then 0.0 else Sum(xs[..|xs| - 1]) + xs[|xs| - 1] }

  /** The sum of the squared deviations from `c`. */
  function Deviation(xs: seq<real>, c: real): real {
    if xs == [] then 0.0
    else Deviation(xs[..|xs| - 1], c) + (xs[|xs| - 1] - c) * (xs[|xs| - 1] - c)
  }

  function Least(xs: seq<real>, start: real): real {
    if xs == [] then start
    else
      var least := Least(xs[..|xs| - 1], start);
      if xs[|xs| - 1] < least then xs[|xs| - 1] else least
  }

  function Greatest(xs: seq<real>, start: real): real {
    if xs == [] then start
    else
      var greatest := Greatest(xs[..|xs| - 1], start);
      if xs[|xs| - 1] > greatest then xs[|xs| - 1] else greatest
  }

  lemma {:induction false} DeviationNonnegative(xs: seq<real>, c: real)
    ensures Deviation(xs, c) >= 0.0
  {
    if xs != [] {
      DeviationNonnegative(xs[..|xs| - 1], c);
      SquareNonnegative(xs[|xs| - 1] - c);
    }
  }

  lemma SquareNonnegative(x: real)
    ensures x * x >= 0.0
  {
    if x < 0.0 {
      assert x * x == (-x) * (-x);
    }
  }

  lemma Last(xs: seq<real>, x: real, c: real)
    ensures Sum(xs + [x]) == Sum(xs) + x
    ensures Deviation(xs + [x], c) == Deviation(xs, c) + (x - c) * (x - c)
  {
    assert (xs + [x])[..|xs|] == xs;
  }

  lemma NoSamples(c: real)
    ensures Sum([]) == 0.0 && Deviation([], c) == 0.0
  {
  }

  lemma SquareOfDifference(a: real, r: real)
    ensures (a - r) * (a - r) == a * a - 2.0 * r * a + r * r
  {
  }

  lemma ShiftStep(d: real, d': real, s: real, n: real, x: real, c: real, r: real)
    requires d' == d - 2.0 * r * (s - n * c) + n * (r * r)
    ensures d' + (x - (c + r)) * (x - (c + r))
            == (d + (x - c) * (x - c)) - 2.0 * r * ((s + x) - (n + 1.0) * c) + (n + 1.0) * (r * r)
  {
    SquareOfDifference(x - c, r);
    assert x - (c + r) == (x - c) - r;
    assert 2.0 * r * ((s + x) - (n + 1.0) * c) == 2.0 * r * (s - n * c) + 2.0 * r * (x - c);
  }

  /** Deviations from another centre. */
  lemma {:induction false} DeviationShifts(xs: seq<real>, c: real, r: real)
    ensures Deviation(xs, c + r) == Deviation(xs, c) - 2.0 * r * (Sum(xs) - |xs| as real * c) + |xs| as real * (r * r)
  {
    hide Sum, Deviation;
    if xs == [] {
      NoSamples(c);
      NoSamples(c + r);
    } else {
      var front, x := xs[..|xs| - 1], xs[|xs| - 1];
      var n := |front| as real;
      assert xs == front + [x];
      Last(front, x, c);
      Last(front, x, c + r);
      DeviationShifts(front, c, r);
      ShiftStep(Deviation(front, c), Deviation(front, c + r), Sum(front), n, x, c, r);
      assert |xs| as real == n + 1.0;
    }
  }

  /** The mean `m` of some samples, and the sum `t` of their squared deviations from it. */
  ghost predicate IsMeanAndDeviation(xs: seq<real>, m: real, t: real) {
    m * |xs| as real == Sum(xs) && t == Deviation(xs, m)
  }

  lemma LastExtreme(xs: seq<real>, x: real, start: real)
    ensures Least(xs + [x], start) == if x < Least(xs, start) then x else Least(xs, start)
    ensures Greatest(xs + [x], start) == if x > Greatest(xs, start) then x else Greatest(xs, start)
  {
    assert (xs + [x])[..|xs|] == xs;
  }

  /** One more sample, added as NL_WVAR_ADD does. */
  lemma UpdateIsExact(xs: seq<real>, x: real, m: real, t: real, q: real, r: real, m': real, t': real)
    requires xs != [] && IsMeanAndDeviation(xs, m, t)
    requires q == x - m && r == q / (|xs| + 1) as real
    requires m' == m + r && t' == t + |xs| as real * q * r
    ensures IsMeanAndDeviation(xs + [x], m', t')
  {
    hide Sum, Deviation;
    var n := |xs| as real;
    Quotient(q, n + 1.0);
    Last(xs, x, m + r);
    DeviationShifts(xs, m, r);
    UpdateStep(t, Sum(xs), n, x, m, q, r);
    assert |xs + [x]| as real == n + 1.0;
  }

  lemma Quotient(q: real, d: real)
    requires d != 0.0
    ensures q / d * d == q
  {
  }

  lemma UpdateStep(t: real, s: real, n: real, x: real, m: real, q: real, r: real)
    requires m * n == s && r * (n + 1.0) == q && q == x - m
    ensures (m + r) * (n + 1.0) == s + x
    ensures t - 2.0 * r * (s - n * m) + n * (r * r) + (x - (m + r)) * (x - (m + r)) == t + n * q * r
  {
    MeanStep(m, n, q, r);
    DeviationStep(n, q, r);
    assert s - n * m == 0.0;
    assert x - (m + r) == q - r;
  }

  lemma MeanStep(m: real, n: real, q: real, r: real)
    requires r * (n + 1.0) == q
    ensures (m + r) * (n + 1.0) == m * n + (m + q)
  {
  }

  lemma DeviationStep(n: real, q: real, r: real)
    requires r * (n + 1.0) == q
    ensures n * (r * r) + (q - r) * (q - r) == n * q * r
  {
    assert q - r == r * n;
    assert (q - r) * (q - r) == (r * n) * (r * n) == n * (r * r) * n;
    assert n * q * r == n * (r * (n + 1.0)) * r == n * (r * r) * n + n * (r * r);
  }

  lemma FirstSample(x: real)
    ensures IsMeanAndDeviation([x], x, 0.0) && Sum([x]) == x
  {
    assert [x][..0] == [];
  }

  lemma MeanUnique(xs: seq<real>, m: real)
    requires xs != [] && m * |xs| as real == Sum(xs)
    ensures m == Sum(xs) / |xs| as real
  {
  }

  /** A running maximum is the greatest of the start value and the samples. */
  lemma {:induction false} GreatestMeaning(xs: seq<real>, start: real)
    ensures forall x :: x in xs ==> x <= Greatest(xs, start)
    ensures Greatest(xs, start) == start || Greatest(xs, start) in xs
    ensures Greatest(xs, start) >= start
  {
    if xs != [] {
      GreatestMeaning(xs[..|xs| - 1], start);
      assert xs == xs[..|xs| - 1] + [xs[|xs| - 1]];
    }
  }

  lemma {:induction false} LeastMeaning(xs: seq<real>, start: real)
    ensures forall x :: x in xs ==> x >= Least(xs, start)
    ensures Least(xs, start) == start || Least(xs, start) in xs
    ensures Least(xs, start) <= start
  {
    if xs != [] {
      LeastMeaning(xs[..|xs| - 1], start);
      assert xs == xs[..|xs| - 1] + [xs[|xs| - 1]];
    }
  }

  /** The maximum that is kept is the greatest sample exactly when some sample is not negative. */
  lemma MaximumExactly(xs: seq<real>)
    ensures Greatest(xs, 0.0) in xs <==> exists x :: x in xs && x >= 0.0
  {
    GreatestMeaning(xs, 0.0);
    if x :| x in xs && x >= 0.0 {
      assert x <= Greatest(xs, 0.0);
    }
  }

  /** Samples are doubles, so the minimum that is kept is the least of them. */
  lemma MinimumExactly(xs: seq<real>)
    requires xs != [] && forall x :: x in xs ==> x <= DBL_MAX
    ensures Least(xs, DBL_MAX) in xs
  {
    LeastMeaning(xs, DBL_MAX);
    assert xs[0] in xs;
  }

  // ---- The running state ----

  class Summary {
    var sum: real
    var min: real
    var max: real
    var mean: Option<real>
    var sd: real
    var count: nat
    // netlogger_wvar_t
    var varM: real
    var varT: real
    var varCount: nat
    const minItems: nat
    // netlogger_ksum_t
    var sumS: real
    var sumC: real
    ghost var samples: seq<real>

    /** The state is that of the samples so far; the compensation of the sum is always zero. */
    ghost predicate Valid()
      reads this`varCount, this`varM, this`varT, this`sumS, this`sumC, this`min, this`max, this`samples
    {
      && varCount == |samples|
      && sumS == Sum(samples) && sumC == 0.0
      && (samples != [] ==> IsMeanAndDeviation(samples, varM, varT))
      && min == Least(samples, DBL_MAX) && max == Greatest(samples, 0.0)
      && minItems >= 2
    }

    constructor (minItems: nat)
      requires minItems >= 2
      ensures Valid() && samples == [] && count == 0 && this.minItems == minItems
    {
      this.minItems := minItems;
      sumS, sumC, varM, varT, varCount, sd, min, max, count := 0.0, 0.0, 0.0, 0.0, 0, 0.0, DBL_MAX, 0.0, 0;
      sum, mean := 0.0, None;
      samples := [];
    }

    method Clear()
      requires Valid()
      modifies this
      ensures Valid() && samples == [] && count == 0
    {
      sumS, sumC := 0.0, 0.0;
      varM, varT, varCount := 0.0, 0.0, 0;
      sd, min, max, count := 0.0, DBL_MAX, 0.0, 0;
      samples := [];
    }

    /** NL_KSUM_ADD and NL_WVAR_ADD, and the updates of the extremes. */
    method Add(x: real)
      requires Valid()
      modifies this`sumS, this`sumC, this`varM, this`varT, this`varCount, this`min, this`max, this`samples
      ensures Valid() && samples == old(samples) + [x]
    {
      hide Sum, Deviation, Least, Greatest, IsMeanAndDeviation;
      LastExtreme(samples, x, DBL_MAX);
      LastExtreme(samples, x, 0.0);
      Last(samples, x, 0.0);
      var y := x - sumC;
      var t := sumS + y;
      sumC := (t - sumS) - y;
      sumS := t;
      if varCount == 0 {
        varM := x;
        varT := 0.0;
        FirstSample(x);
        assert samples + [x] == [x];
      } else {
        var q := x - varM;
        var r := q / (varCount + 1) as real;
        ghost var m, t := varM, varT;
        varM := varM + r;
        varT := varT + varCount as real * q * r;
        UpdateIsExact(samples, x, m, t, q, r, varM, varT);
      }
      varCount := varCount + 1;
      if x < min {
        min := x;
      }
      if x > max {
        max := x;
      }
      samples := samples + [x];
    }

    /**
     The results for `n` samples; `root` is the square root. The mean of no samples is not a number.
     It agrees with the running mean.
     */
    method Calc(n: nat, root: real -> real)
      requires Valid() && n == varCount
      modifies this`sum, this`mean, this`sd
      ensures Valid()
      ensures sum == Sum(samples)
      ensures mean == if samples == [] then None else Some(Sum(samples) / |samples| as real)
      ensures samples != [] ==> mean == Some(varM)
      ensures sd == if |samples| < minItems then -1.0
                    else root(Deviation(samples, mean.value) / (|samples| - 1) as real)
    {
      sum := sumS;
      mean := if n == 0 then None else Some(sum / n as real);
      sd := if varCount < minItems then -1.0 else root(varT / (varCount - 1) as real);
      if samples != [] {
        MeanUnique(samples, varM);
      }
    }
  }

  /** A timed event: its duration in seconds and its value. */
  datatype Event = Event(dur: real, value: real)

  predicate Rated(e: Event) { e.value != 0.0 && e.dur > 0.0 }

  function RateOf(e: Event): real requires Rated(e) { e.value / (1000000000.0 * e.dur) }

  function GapOf(e: Event): real requires Rated(e) { 1000000000.0 * e.dur / e.value }

  /** An event counts for the rates when both its parts do; it moved its value at that rate, in that gap for each. */
  lemma RateMeaning(e: Event)
    ensures Rated(e) <==> e.value != 0.0 && e.dur > 0.0
    ensures Rated(e) ==>
      var nanoseconds := 1000000000.0 * e.dur;
      && RateOf(e) * nanoseconds == e.value && GapOf(e) * e.value == nanoseconds && RateOf(e) * GapOf(e) == 1.0
  {
    if Rated(e) {
      var n := 1000000000.0 * e.dur;
      Quotient(e.value, n);
      Quotient(n, e.value);
      Cancels(RateOf(e), GapOf(e), e.value, n);
    }
  }

  /** A quotient times its reciprocal. */
  lemma Cancels(a: real, b: real, v: real, n: real)
    requires v != 0.0 && a * n == v && b * v == n
    ensures a * b == 1.0
  {
    Regrouped(a, b, v);
    assert (a * b - 1.0) * v == 0.0;
  }

  lemma Regrouped(a: real, b: real, v: real)
    ensures (a * b) * v == a * (b * v)
  {
  }

  function Values(es: seq<Event>): seq<real> {
    if es == [] then [] else Values(es[..|es| - 1]) + [es[|es| - 1].value]
  }

  function Durations(es: seq<Event>): seq<real> {
    if es == [] then [] else Durations(es[..|es| - 1]) + [es[|es| - 1].dur]
  }

  /** Rates and gaps are per nanosecond, and only taken of events with a value and a duration. */
  function Rates(es: seq<Event>): seq<real> {
    if es == [] then []
    else
      var e := es[|es| - 1];
      Rates(es[..|es| - 1]) + if Rated(e) then [RateOf(e)] else []
  }

  function Gaps(es: seq<Event>): seq<real> {
    if es == [] then []
    else
      var e := es[|es| - 1];
      Gaps(es[..|es| - 1]) + if Rated(e) then [GapOf(e)] else []
  }

  lemma EventAdded(es: seq<Event>, e: Event)
    ensures Values(es + [e]) == Values(es) + [e.value] && Durations(es + [e]) == Durations(es) + [e.dur]
    ensures Rates(es + [e]) == if Rated(e) then Rates(es) + [RateOf(e)] else Rates(es)
    ensures Gaps(es + [e]) == if Rated(e) then Gaps(es) + [GapOf(e)] else Gaps(es)
    ensures Sum(Durations(es + [e])) == Sum(Durations(es)) + e.dur
  {
    assert (es + [e])[..|es|] == es;
    assert (Durations(es) + [e.dur])[..|Durations(es)|] == Durations(es);
  }

  class Caliper {
    /** The square root. */
    const root: real -> real
    const vsm: Summary
    const rsm: Summary
    const gsm: Summary
    var durSum: real
    var dur: real
    var isBegun: bool
    var dirty: bool
    var begin: real
    var end: real
    var first: real
    ghost var events: seq<Event>

    ghost predicate Valid()
      reads this, vsm, rsm, gsm
    {
      && vsm != rsm && vsm != gsm && rsm != gsm
      && vsm.Valid() && rsm.Valid() && gsm.Valid()
      && vsm.samples == Values(events) && rsm.samples == Rates(events) && gsm.samples == Gaps(events)
      && vsm.count == |events| && |Values(events)| == |events|
      && rsm.count == |Rates(events)| == |Gaps(events)|
      && durSum == Sum(Durations(events))
      && (events != [] && !dirty ==> Calculated())
    }

    /** The results are those of the events since the last clear. */
    ghost predicate Calculated()
      reads this, vsm, rsm, gsm
    {
      && Describes(vsm, Values(events)) && Describes(rsm, Rates(events)) && Describes(gsm, Gaps(events))
      && dur == end - first
    }

    /** The sum, the mean and the sample deviation; too few samples have none. */
    ghost predicate Describes(s: Summary, xs: seq<real>)
      reads s
    {
      && s.sum == Sum(xs)
      && s.mean == (if xs == [] then None else Some(Sum(xs) / |xs| as real))
      && s.sd == if |xs| < s.minItems || |xs| < 2 then -1.0
                 else root(Deviation(xs, s.mean.value) / (|xs| - 1) as real)
    }

    constructor (minItems: nat, root: real -> real)
      requires minItems >= 2
      ensures this.root == root && Valid() && fresh(vsm) && fresh(rsm) && fresh(gsm) && events == [] && !isBegun
    {
      this.root := root;
      vsm := new Summary(minItems);
      rsm := new Summary(minItems);
      gsm := new Summary(minItems);
      durSum, dur, begin, end, first := 0.0, 0.0, 0.0, 0.0, 0.0;
      isBegun, dirty := false, false;
      events := [];
    }

    method Clear()
      requires Valid()
      modifies this, vsm, rsm, gsm
      ensures Valid() && events == [] && !isBegun
    {
      vsm.Clear();
      rsm.Clear();
      gsm.Clear();
      dur, durSum, first := 0.0, 0.0, 0.0;
      isBegun, dirty := false, false;
      events := [];
    }

    /** `nlcali_begin`, at the time `now`. */
    method Begin(now: real)
      requires Valid()
      modifies this`begin, this`first, this`isBegun
      ensures Valid() && events == old(events) && isBegun && begin == now
      ensures first == if events == [] then now else old(first)
    {
      begin := now;
      if vsm.count == 0 {
        first := begin;
      }
      isBegun := true;
    }

    /** The rate and the gap of an event; only the rates are counted. */
    method AddRate(e: Event)
      requires rsm != gsm && rsm.Valid() && gsm.Valid() && Rated(e)
      modifies rsm, gsm
      ensures rsm.Valid() && rsm.samples == old(rsm.samples) + [RateOf(e)] && rsm.count == old(rsm.count) + 1
      ensures gsm.Valid() && gsm.samples == old(gsm.samples) + [GapOf(e)]
    {
      hide Sum, IsMeanAndDeviation, Least, Greatest;
      var gap := 1000000000.0 * e.dur / e.value;
      var rate := e.value / (1000000000.0 * e.dur);
      rsm.Add(rate);
      gsm.Add(gap);
      rsm.count := rsm.count + 1;
    }

    /** `nlcali_end`, at the time `now`; without a begin it does nothing. */
    method End(now: real, value: real)
      requires Valid()
      modifies this, vsm, rsm, gsm
      ensures Valid()
      ensures events == if old(isBegun) then old(events) + [Event(now - old(begin), value)] else old(events)
      ensures old(isBegun) ==> !isBegun && dirty && end == now
      ensures first == old(first) && begin == old(begin)
    {
      hide Sum, Deviation, Least, Greatest, IsMeanAndDeviation, Values, Rates, Gaps, Durations, Summary.Valid,
           Describes, RateOf, GapOf;
      if isBegun {
        end := now;
        var d := end - begin;
        EventAdded(events, Event(d, value));
        durSum := durSum + d;
        vsm.Add(value);
        if value != 0.0 && d > 0.0 {
          AddRate(Event(d, value));
        }
        vsm.count := vsm.count + 1;
        isBegun := false;
        dirty := true;
        events := events + [Event(d, value)];
      }
    }

    /** `nlcali_calc`; the gaps are counted by the rates. Calling it again has no effect. */
    method Calc()
      requires Valid()
      modifies this`dur, this`dirty, vsm, rsm, gsm
      ensures Valid() && events == old(events)
      ensures events != [] ==> !dirty && Calculated()
    {
      hide Sum, Deviation, Least, Greatest, IsMeanAndDeviation, Values, Rates, Gaps, Durations;
      if dirty && vsm.count > 0 {
        vsm.Calc(vsm.count, root);
        rsm.Calc(rsm.count, root);
        gsm.Calc(rsm.count, root);
        dur := end - first;
        dirty := false;
      }
    }
  }
}
