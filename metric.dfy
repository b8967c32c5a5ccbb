/** The metrics of `caliper/metric.py`: counters, gauges, histograms over a
    reservoir, exponentially weighted moving averages, meters and timers.
    The clock is a parameter (`now`, in seconds), and so are the random draws
    a histogram's reservoir consults and the `exp`-derived smoothing
    constants. */
module Metrics {
  import opened Outcomes
  import opened Snapshots
  import opened Reservoirs

  // ---------------------------------------------------------------------
  // Counter and Gauge
  // ---------------------------------------------------------------------

  /** `Counter`: a count that starts at 0. */
  class Counter {
    var count: int

    constructor ()
      ensures count == 0
    {
      count := 0;
    }

    /** `inc(n)`. */
    method Inc(n: int)
      modifies this
      ensures count == old(count) + n
    {
      count := count + n;
    }

    /** `dec(n)`. */
    method Dec(n: int)
      modifies this
      ensures count == old(count) - n
    {
      count := count - n;
    }
  }

  /** `Gauge`: an instantaneous value, `None` until one is set. */
  class Gauge<T> {
    var value: Option<T>

    constructor ()
      ensures value == None
    {
      value := None;
    }

    /** The `value` setter. */
    method Set(v: T)
      modifies this
      ensures value == Some(v)
    {
      value := Some(v);
    }

    /** `get_value()`, the `value` getter. */
    function Get(): Option<T>
      reads this
    {
      value
    }
  }

  // ---------------------------------------------------------------------
  // Choosing a sampling metric's reservoir
  // ---------------------------------------------------------------------

  /** Which reservoir a sampling metric ends up with: the one it was given,
      or a fresh default decaying reservoir. */
  datatype Choice = KeepGiven | MakeDefault

  /** `reservoir or SamplingMetric.default_reservoir()` as written. `given`
      is the length of the reservoir passed in, or `None` when none is.
      Python's `or` tests truthiness, and a reservoir defines `__len__`, so
      a reservoir that has seen no values yet counts as false. */
  function ChooseAsWritten(given: Option<nat>): Choice {
    if given.Some? && given.value != 0 then KeepGiven else MakeDefault
  }

  /** The evident intent: the default only when no reservoir is given. */
  function Choose(given: Option<nat>): Choice {
    if given.Some? then KeepGiven else MakeDefault
  }

  /** As written, a freshly built reservoir handed to a metric is thrown
      away for the default one, and only such a reservoir is; the intended
      choice keeps every reservoir given. */
  lemma FreshReservoirDiscarded(n: nat)
    ensures ChooseAsWritten(Some(n)) != Choose(Some(n)) <==> n == 0
    ensures ChooseAsWritten(None) == Choose(None) == MakeDefault
    ensures Choose(Some(n)) == KeepGiven
  {
  }

  // ---------------------------------------------------------------------
  // Histogram
  // ---------------------------------------------------------------------

  /** `Histogram(reservoir)`: a counter plus a reservoir of the values. */
  class Histogram {
    const counter: Counter
    const reservoir: AnyReservoir

    ghost predicate Valid()
      reads reservoir.Obj()
    {
      reservoir.Valid()
    }

    /** `reservoir` is the reservoir passed in, if any; `now` is the clock
        reading the default decaying reservoir starts its landmark at. */
    constructor (given: Option<AnyReservoir>, now: real)
      requires given.Some? ==> given.value.Valid()
      ensures Valid() && fresh(counter) && counter.count == 0
      ensures given.Some? ==> reservoir == given.value
      ensures given.None? ==> reservoir.Decaying? && fresh(reservoir.Obj()) && reservoir.History() == []
      ensures given.None? ==> reservoir.decaying.size == DefaultSize && reservoir.decaying.alpha == DefaultAlpha
      ensures given.None? ==> reservoir.decaying.res == map[] && reservoir.decaying.landmark == now
                              && reservoir.decaying.nextRescale == now + RescaleThreshold
    {
      var choice := Choose(if given.Some? then Some(given.value.Len()) else None);
      if choice == KeepGiven {
        reservoir := given.value;
      } else {
        var decaying := new ExponentiallyDecayingReservoir(DefaultSize, DefaultAlpha, now);
        reservoir := Decaying(decaying);
      }
      counter := new Counter();
    }

    /** `update(value)`: counts the value, then offers it to the reservoir,
        which is given no timestamp. The count goes up even when the
        reservoir's update fails. */
    method Update(value: real, d: Draw) returns (r: Result<(), ReservoirError>)
      requires Valid() && reservoir.Admits(d) && d.timestamp.None?
      modifies counter, reservoir.Obj()
      ensures Valid()
      ensures counter.count == old(counter.count) + 1
      ensures UpdatedWith(reservoir, value, d, r)
    {
      counter.Inc(1);
      r := reservoir.Update(value, d);
    }

    /** `snapshot()`: the reservoir's snapshot; `order` is the decaying
        reservoir's dictionary order. */
    method Snapshot() returns (s: AnySnapshot, ghost order: seq<real>)
      requires Valid()
      ensures s.Plain? <==> !reservoir.Decaying?
      ensures s.Plain? ==> Ascending(s.values) && multiset(s.values) <= multiset(reservoir.History())
      ensures reservoir.Unbounded? ==> multiset(s.values) == multiset(reservoir.History())
      ensures reservoir.Sliding? ==> var h := reservoir.History();
                                     multiset(s.values) == multiset(h[|h| - Min(|h|, reservoir.sliding.size)..])
      ensures reservoir.Uniform? ==> multiset(s.values) == multiset(reservoir.uniform.res)
      ensures s.Weighted? ==> s.weighted.WellFormed() && Ascending(s.weighted.values)
      ensures s.Weighted? ==> forall v :: v in s.weighted.values ==> v in reservoir.History()
      ensures reservoir.Decaying? ==>
                && Enumerates(order, reservoir.decaying.res.Keys)
                && (order != [] ==> TotalWeight(SamplesAt(reservoir.decaying.res, order)) > 0.0)
                && s.weighted == NewWeighted(SamplesAt(reservoir.decaying.res, order))
    {
      s, order := reservoir.Snapshot();
    }
  }

  // ---------------------------------------------------------------------
  // Exponentially weighted moving average
  // ---------------------------------------------------------------------

  /** An EWMA's changing state: the events not yet folded into the rate,
      whether the first tick happened, and the rate in events per second. */
  datatype EwmaState = EwmaState(uncounted: int, initialized: bool, rate: real)

  /** The state after `update(n)`. */
  function Updated(s: EwmaState, n: int): EwmaState {
    s.(uncounted := s.uncounted + n)
  }

  /** The instantaneous rate a tick sees: the pending events per second of
      the interval. */
  function InstantRate(s: EwmaState, interval: real): real
    requires interval != 0.0
  {
    s.uncounted as real / interval
  }

  /** The state after `tick()`: the first tick takes the instantaneous rate,
      later ones move the rate the fraction `alpha` towards it. */
  function Ticked(s: EwmaState, alpha: real, interval: real): EwmaState
    requires interval != 0.0
  {
    var instant := InstantRate(s, interval);
    EwmaState(0, true, if s.initialized then s.rate + alpha * (instant - s.rate) else instant)
  }

  /** The state after `k` ticks. */
  function TickedN(s: EwmaState, alpha: real, interval: real, k: nat): EwmaState
    requires interval != 0.0
    decreases k
  {
    if k == 0 then s else TickedN(Ticked(s, alpha, interval), alpha, interval, k - 1)
  }

  /** `x` lies between `a` and `b`, whichever is larger. */
  predicate Between(x: real, a: real, b: real) {
    (a <= b ==> a <= x <= b) && (b <= a ==> b <= x <= a)
  }

  /** A tick leaves no events pending; the first one sets the rate to the
      instantaneous rate, and with `0 <= alpha <= 1` a later one leaves it
      between the old rate and the instantaneous one. */
  lemma TickedRate(s: EwmaState, alpha: real, interval: real)
    requires interval != 0.0
    ensures Ticked(s, alpha, interval).uncounted == 0 && Ticked(s, alpha, interval).initialized
    ensures !s.initialized ==> Ticked(s, alpha, interval).rate == InstantRate(s, interval)
    ensures s.initialized && 0.0 <= alpha <= 1.0 ==>
              Between(Ticked(s, alpha, interval).rate, s.rate, InstantRate(s, interval))
  {
    var instant := InstantRate(s, interval);
    if s.initialized && 0.0 <= alpha <= 1.0 {
      var d := instant - s.rate;
      var r := Ticked(s, alpha, interval).rate;
      assert r == s.rate + alpha * d;
      if d == 0.0 {
        assert alpha * d == 0.0;
      } else if d > 0.0 {
        ScaleMonotone(0.0, alpha, d);
        ScaleMonotone(alpha, 1.0, d);
      } else {
        var e := -d;
        ScaleMonotone(0.0, alpha, e);
        ScaleMonotone(alpha, 1.0, e);
        assert 0.0 <= alpha * e <= e;
        assert alpha * d == -(alpha * e);
      }
    }
  }

  /** `x` to the power `k`. */
  function Power(x: real, k: nat): real {
    if k == 0 then 1.0 else x * Power(x, k - 1)
  }

  /** One more tick is one more step. */
  lemma {:induction false} TickedNStep(s: EwmaState, alpha: real, interval: real, k: nat)
    requires interval != 0.0
    ensures TickedN(s, alpha, interval, k + 1) == Ticked(TickedN(s, alpha, interval, k), alpha, interval)
    decreases k
  {
    if k > 0 {
      TickedNStep(Ticked(s, alpha, interval), alpha, interval, k - 1);
    }
  }

  /** With no events arriving, every tick after the first decays the rate by
      the factor `1 - alpha`. */
  lemma {:induction false} IdleDecay(s: EwmaState, alpha: real, interval: real, k: nat)
    requires interval != 0.0
    requires s.initialized && s.uncounted == 0
    ensures TickedN(s, alpha, interval, k) == EwmaState(0, true, Power(1.0 - alpha, k) * s.rate)
    decreases k
  {
    if k > 0 {
      var t := Ticked(s, alpha, interval);
      assert t == EwmaState(0, true, (1.0 - alpha) * s.rate);
      IdleDecay(t, alpha, interval, k - 1);
      assert Power(1.0 - alpha, k - 1) * ((1.0 - alpha) * s.rate) == Power(1.0 - alpha, k) * s.rate;
    }
  }

  /** `EWMA(alpha, interval)`. */
  class EWMA {
    const interval: real
    const alpha: real
    var uncounted: int
    var initialized: bool
    var rate: real

    function State(): EwmaState
      reads this
    {
      EwmaState(uncounted, initialized, rate)
    }

    constructor (alpha: real, interval: real)
      ensures this.alpha == alpha && this.interval == interval
      ensures State() == EwmaState(0, false, 0.0)
    {
      this.alpha, this.interval := alpha, interval;
      uncounted, initialized, rate := 0, false, 0.0;
    }

    /** `update(n)`: `n` more events pending. */
    method Update(n: int)
      modifies this
      ensures State() == Updated(old(State()), n)
    {
      uncounted := uncounted + n;
    }

    /** `tick()`: folds the pending events into the rate. A zero interval
        divides by zero in the source and is excluded. */
    method Tick()
      requires interval != 0.0
      modifies this
      ensures State() == Ticked(old(State()), alpha, interval)
    {
      var count := uncounted as real;
      uncounted := 0;
      var instant := count / interval;
      if initialized {
        rate := rate + alpha * (instant - rate);
      } else {
        rate := instant;
        initialized := true;
      }
    }
  }

  /** With `alpha` 0.5 over 5 seconds, 3 events then a tick give the rate
      0.6; 2 more events then a tick give 0.5. */
  lemma EwmaExample()
    ensures var s1 := Ticked(Updated(EwmaState(0, false, 0.0), 3), 0.5, 5.0);
            && s1 == EwmaState(0, true, 0.6)
            && Ticked(Updated(s1, 2), 0.5, 5.0) == EwmaState(0, true, 0.5)
  {
  }

  // ---------------------------------------------------------------------
  // Meter
  // ---------------------------------------------------------------------

  /** `EWMA.INTERVAL`: the averages are built for five-second ticks. */
  const EwmaTick: real := 5.0

  /** `Meter.INTERVAL`. */
  const MeterInterval: real := 5.0

  /** The interval the source gives a meter's averages: always
      `EWMA.INTERVAL`, whatever the meter's own interval. */
  function EwmaIntervalAsWritten(meterInterval: real): real {
    EwmaTick
  }

  /** The evident intent: the averages tick over the meter's interval. */
  function EwmaInterval(meterInterval: real): real {
    meterInterval
  }

  /** As written, a meter with a ten-second interval that sees 10 events in
      one interval reports a first rate of 2 events per second; with the
      intended interval the first rate is the events per second of the
      interval, for every count and every positive interval. */
  lemma MeterRateScaled(alpha: real, n: int, interval: real)
    requires interval > 0.0
    ensures Ticked(EwmaState(10, false, 0.0), alpha, EwmaIntervalAsWritten(10.0)).rate == 2.0
    ensures Ticked(EwmaState(n, false, 0.0), alpha, EwmaInterval(interval)).rate * interval == n as real
  {
  }

  /** `int(age / interval)` ticks when `age > interval`, none otherwise. */
  function TickCount(age: real, interval: real): nat
    requires interval > 0.0
  {
    if age > interval then
      DivAboveOne(age, interval);
      (age / interval).Floor
    else 0
  }

  lemma DivAboveOne(age: real, interval: real)
    requires interval > 0.0 && age > interval
    ensures age / interval > 1.0
  {
    assert (age / interval) * interval == age;
    if age / interval <= 1.0 {
      ScaleMonotone(age / interval, 1.0, interval);
    }
  }

  /** Multiplying a bracket `k <= q < k + 1` by a positive `c`. */
  lemma ScaleBracket(q: real, k: int, c: real)
    requires c > 0.0 && k as real <= q < (k + 1) as real
    ensures k as real * c <= q * c < (k + 1) as real * c
  {
    ScaleMonotone(k as real, q, c);
    MulStrict(q, (k + 1) as real, c);
  }

  /** Past one interval, the ticks are the whole intervals elapsed: at least
      one, and the remainder is shorter than an interval. */
  lemma TickCountBounds(age: real, interval: real)
    requires interval > 0.0
    ensures age <= interval ==> TickCount(age, interval) == 0
    ensures age > interval ==>
              var k := TickCount(age, interval);
              k >= 1 && k as real * interval <= age < (k + 1) as real * interval
  {
    if age > interval {
      DivAboveOne(age, interval);
      var q := age / interval;
      assert q * interval == age;
      ScaleBracket(q, q.Floor, interval);
    }
  }

  /** An age of 14 with interval 5 gives 2 ticks; and because a tick resets
      the last tick to the present, the remainder is dropped: two ticks 9
      seconds apart run 1 + 1 ticks where 18 seconds hold 3 intervals. */
  lemma TickCountExamples()
    ensures TickCount(14.0, 5.0) == 2
    ensures TickCount(9.0, 5.0) + TickCount(9.0, 5.0) < TickCount(18.0, 5.0)
  {
    assert 14.0 / 5.0 == 2.8;
    assert 9.0 / 5.0 == 1.8;
    assert 18.0 / 5.0 == 3.6;
  }

  /** What `mark(n)` at time `now` did to meter `m`: the count grew by `n`;
      past one interval since the last tick, the last tick moved to `now`;
      and each average ran the `TickCount` ticks due, then counted `n`. */
  twostate predicate Marked(m: Meter, n: int, now: real)
    requires m.Valid()
    reads m, m.m1, m.m5, m.m15
  {
    && m.count == old(m.count) + n
    && m.lastTick == (if now - old(m.lastTick) > m.interval then now else old(m.lastTick))
    && var k := TickCount(now - old(m.lastTick), m.interval);
       && m.m1.State() == Updated(TickedN(old(m.m1.State()), m.m1.alpha, m.m1.interval, k), n)
       && m.m5.State() == Updated(TickedN(old(m.m5.State()), m.m5.alpha, m.m5.interval, k), n)
       && m.m15.State() == Updated(TickedN(old(m.m15.State()), m.m15.alpha, m.m15.interval, k), n)
  }

  /** `Meter(interval)`: a count and the one, five and fifteen minute
      moving averages of the rate. The smoothing constants `alpha1`,
      `alpha5` and `alpha15` are `1 - exp(-5 / 60 / m)` for `m` minutes. */
  class Meter {
    var count: int
    const interval: real
    var lastTick: real
    const m1: EWMA
    const m5: EWMA
    const m15: EWMA

    ghost predicate Valid()
      reads this
    {
      && interval > 0.0
      && m1 != m5 && m5 != m15 && m1 != m15
      && m1.interval == m5.interval == m15.interval == EwmaInterval(interval)
    }

    constructor (interval: real, now: real, alpha1: real, alpha5: real, alpha15: real)
      requires interval > 0.0
      ensures Valid() && count == 0 && this.interval == interval && lastTick == now
      ensures fresh(m1) && fresh(m5) && fresh(m15)
      ensures m1.State() == m5.State() == m15.State() == EwmaState(0, false, 0.0)
      ensures m1.alpha == alpha1 && m5.alpha == alpha5 && m15.alpha == alpha15
    {
      count, this.interval, lastTick := 0, interval, now;
      m1 := new EWMA(alpha1, EwmaInterval(interval));
      m5 := new EWMA(alpha5, EwmaInterval(interval));
      m15 := new EWMA(alpha15, EwmaInterval(interval));
    }

    /** `mark(n)` at time `now`: catches up on the ticks due, then counts
        `n` events in the meter and in each average. */
    method Mark(n: int, now: real)
      requires Valid()
      modifies this, m1, m5, m15
      ensures Valid() && Marked(this, n, now)
    {
      Tick(now);
      count := count + n;
      m1.Update(n);
      m5.Update(n);
      m15.Update(n);
    }

    /** `_tick()` at time `now`: past one interval since the last tick, the
        last tick moves to `now` and each average ticks once per whole
        interval elapsed; otherwise nothing changes. */
    method Tick(now: real)
      requires Valid()
      modifies this, m1, m5, m15
      ensures Valid() && count == old(count)
      ensures lastTick == if now - old(lastTick) > interval then now else old(lastTick)
      ensures var k := TickCount(now - old(lastTick), interval);
              && m1.State() == TickedN(old(m1.State()), m1.alpha, m1.interval, k)
              && m5.State() == TickedN(old(m5.State()), m5.alpha, m5.interval, k)
              && m15.State() == TickedN(old(m15.State()), m15.alpha, m15.interval, k)
    {
      var age := now - lastTick;
      if age > interval {
        lastTick := now;
        var k := TickCount(age, interval);
        var i := 0;
        while i < k
          invariant 0 <= i <= k
          invariant m1.State() == TickedN(old(m1.State()), m1.alpha, m1.interval, i)
          invariant m5.State() == TickedN(old(m5.State()), m5.alpha, m5.interval, i)
          invariant m15.State() == TickedN(old(m15.State()), m15.alpha, m15.interval, i)
          invariant Valid() && count == old(count) && lastTick == now
        {
          TickedNStep(old(m1.State()), m1.alpha, m1.interval, i);
          TickedNStep(old(m5.State()), m5.alpha, m5.interval, i);
          TickedNStep(old(m15.State()), m15.alpha, m15.interval, i);
          m1.Tick();
          m5.Tick();
          m15.Tick();
          i := i + 1;
        }
      }
    }
  }

  // ---------------------------------------------------------------------
  // Timer
  // ---------------------------------------------------------------------

  /** `Timer(reservoir)`: a histogram of durations and a meter of how often
      they are recorded. */
  class Timer {
    const histogram: Histogram
    const meter: Meter

    ghost predicate Valid()
      reads histogram.reservoir.Obj(), meter
    {
      histogram.Valid() && meter.Valid()
    }

    /** `now` is the clock reading the histogram's default reservoir starts
        its landmark at, and `meterNow` the later one the meter starts its
        last tick at. */
    constructor (given: Option<AnyReservoir>, now: real, meterNow: real, alpha1: real, alpha5: real, alpha15: real)
      requires given.Some? ==> given.value.Valid()
      ensures Valid() && fresh(histogram) && fresh(meter) && fresh(meter.m1) && fresh(meter.m5) && fresh(meter.m15)
      ensures histogram.counter.count == 0 && meter.count == 0
      ensures given.Some? ==> histogram.reservoir == given.value
      ensures given.None? ==> && histogram.reservoir.Decaying? && fresh(histogram.reservoir.Obj())
                              && histogram.reservoir.History() == [] && histogram.reservoir.decaying.res == map[]
                              && histogram.reservoir.decaying.size == DefaultSize
                              && histogram.reservoir.decaying.alpha == DefaultAlpha
                              && histogram.reservoir.decaying.landmark == now
                              && histogram.reservoir.decaying.nextRescale == now + RescaleThreshold
      ensures meter.interval == MeterInterval && meter.lastTick == meterNow
      ensures meter.m1.State() == meter.m5.State() == meter.m15.State() == EwmaState(0, false, 0.0)
      ensures meter.m1.alpha == alpha1 && meter.m5.alpha == alpha5 && meter.m15.alpha == alpha15
    {
      histogram := new Histogram(given, now);
      meter := new Meter(MeterInterval, meterNow, alpha1, alpha5, alpha15);
    }

    /** `update(duration)` at time `now`: a positive duration goes to the
        histogram and marks the meter once, unless the histogram's
        reservoir fails first; any other duration changes nothing. */
    method Update(duration: real, d: Draw, now: real) returns (r: Result<(), ReservoirError>)
      requires Valid() && histogram.reservoir.Admits(d) && d.timestamp.None?
      modifies histogram.counter, histogram.reservoir.Obj(), meter, meter.m1, meter.m5, meter.m15
      ensures Valid()
      ensures duration <= 0.0 ==> r.Ok?
      ensures duration <= 0.0 || r.Err? ==> unchanged(meter, meter.m1, meter.m5, meter.m15)
      ensures duration <= 0.0 ==> unchanged(histogram.counter, histogram.reservoir.Obj())
      ensures duration > 0.0 ==> histogram.counter.count == old(histogram.counter.count) + 1
      ensures duration > 0.0 ==> UpdatedWith(histogram.reservoir, duration, d, r)
      ensures duration > 0.0 && r.Ok? ==> Marked(meter, 1, now)
    {
      r := Ok(());
      if duration > 0.0 {
        r := histogram.Update(duration, d);
        if r.Ok? {
          meter.Mark(1, now);
        }
      }
    }

    /** `time(update_on_success, update_on_failure)`: a fresh context. */
    method Time(updateOnSuccess: bool, updateOnFailure: bool) returns (c: Context)
      ensures fresh(c) && c.timer == this && !c.aborted && c.started.None?
      ensures c.updateOnSuccess == updateOnSuccess && c.updateOnFailure == updateOnFailure
    {
      c := new Context(this, updateOnSuccess, updateOnFailure);
    }
  }

  /** The exit decision of a timing context, as the source writes it:
      `exc_type and update_on_failure or exc_type is None and
      update_on_success`, behind `not self._aborted`. */
  predicate RecordsOnExit(aborted: bool, failed: bool, updateOnSuccess: bool, updateOnFailure: bool) {
    !aborted && ((failed && updateOnFailure) || (!failed && updateOnSuccess))
  }

  /** The documented meaning: an aborted context never records; otherwise a
      failed block records when `update_on_failure` is set and a successful
      one when `update_on_success` is; with both defaults a context that is
      not aborted always records. */
  lemma RecordsOnExitMeaning(aborted: bool, failed: bool, updateOnSuccess: bool, updateOnFailure: bool)
    ensures RecordsOnExit(aborted, failed, updateOnSuccess, updateOnFailure)
            <==> !aborted && (if failed then updateOnFailure else updateOnSuccess)
    ensures aborted ==> !RecordsOnExit(aborted, failed, updateOnSuccess, updateOnFailure)
    ensures !aborted && updateOnSuccess && updateOnFailure ==> RecordsOnExit(aborted, failed, updateOnSuccess, updateOnFailure)
  {
  }

  /** `Timer.Context`: times the block of a `with` statement. */
  class Context {
    const timer: Timer
    const updateOnSuccess: bool
    const updateOnFailure: bool
    var aborted: bool
    var started: Option<real>

    constructor (timer: Timer, updateOnSuccess: bool, updateOnFailure: bool)
      ensures this.timer == timer && !aborted && started.None?
      ensures this.updateOnSuccess == updateOnSuccess && this.updateOnFailure == updateOnFailure
    {
      this.timer := timer;
      this.updateOnSuccess, this.updateOnFailure := updateOnSuccess, updateOnFailure;
      aborted, started := false, None;
    }

    /** `abort()`: nothing will be recorded. */
    method Abort()
      modifies this
      ensures aborted && started == old(started)
    {
      aborted := true;
    }

    /** `__enter__()` at time `now`. */
    method Enter(now: real)
      modifies this
      ensures started == Some(now) && aborted == old(aborted)
    {
      started := Some(now);
    }

    /** `__exit__()` at time `now`, after a block that `failed` or not: the
        time since entering goes to the timer exactly when the context
        records on this exit, and the timer keeps only a positive one;
        otherwise the timer is untouched. Only a context that is not aborted
        reads its start time. `markNow` is the meter's own, later clock
        reading when it marks the event. */
    method Exit(failed: bool, now: real, markNow: real, d: Draw) returns (r: Result<(), ReservoirError>)
      requires !aborted ==> started.Some?
      requires timer.Valid() && timer.histogram.reservoir.Admits(d) && d.timestamp.None?
      modifies timer.histogram.counter, timer.histogram.reservoir.Obj(), timer.meter
      modifies timer.meter.m1, timer.meter.m5, timer.meter.m15
      ensures timer.Valid()
      ensures !RecordsOnExit(aborted, failed, updateOnSuccess, updateOnFailure) || now - started.value <= 0.0 ==>
                && r.Ok?
                && unchanged(timer.histogram.counter, timer.histogram.reservoir.Obj())
                && unchanged(timer.meter, timer.meter.m1, timer.meter.m5, timer.meter.m15)
      ensures RecordsOnExit(aborted, failed, updateOnSuccess, updateOnFailure) && now - started.value > 0.0 ==>
                && timer.histogram.counter.count == old(timer.histogram.counter.count) + 1
                && UpdatedWith(timer.histogram.reservoir, now - started.value, d, r)
                && (r.Err? ==> unchanged(timer.meter, timer.meter.m1, timer.meter.m5, timer.meter.m15))
      ensures RecordsOnExit(aborted, failed, updateOnSuccess, updateOnFailure) && now - started.value > 0.0 && r.Ok? ==>
                Marked(timer.meter, 1, markNow)
    {
      r := Ok(());
      if !aborted {
        var delta := now - started.value;
        if (failed && updateOnFailure) || (!failed && updateOnSuccess) {
          r := timer.Update(delta, d, markNow);
        }
      }
    }
  }
}
