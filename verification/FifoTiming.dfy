/** Timestamping of accelerometer FIFO samples (st_lis2dw12_buffer.c) as a machine
    whose steps interleave freely: the hard interrupt handler, the sample-by-sample
    drain of the reader thread, buffer enabling and the sysfs writes. */
module FifoTiming {
  import opened Basics
  import opened Ewma

  type Sample = seq<Byte>

  const MAX_WATERMARK := 31
  const NS_PER_SEC := 1_000_000_000

  /** A sample handed to the IIO buffer, its timestamp, and the clock at that moment. */
  datatype Stamped = Stamped(data: Sample, ts: int, at: int)

  /** The timing fields of st_lis2dw12_hw, the period a drain in progress works with,
      the latest clock reading, and everything pushed so far. */
  datatype State = State(ts: int, tsIrq: int, deltaTs: int, samples: nat, stdLevel: Byte,
                         watermark: int, drain: int, clock: int, pushed: seq<Stamped>)

  datatype Step =
    | Irq(now: int)
    | BeginDrain
    | Take(data: Sample, now: int)
    | FlushEnd(now: int)
    | Enable(odr: int, now: int)
    | SetWatermark(val: int)
    | SetStdLevel(level: Byte)

  function Apply(s: State, step: Step): State
    requires step.Enable? ==> step.odr > 0
    requires s.watermark > 0
  {
    match step
    case Irq(now) =>
      s.(deltaTs := Average(s.deltaTs, now - s.tsIrq), tsIrq := now, clock := now)
    case BeginDrain =>
      s.(drain := TruncDiv(s.deltaTs, s.watermark))
    case Take(data, now) =>
      if s.samples + 1 < s.stdLevel then
        s.(samples := s.samples + 1, ts := s.ts + s.drain, clock := now)
      else
        var ts := Min(now, s.ts);
        s.(samples := s.samples + 1, ts := ts + s.drain, clock := now,
           pushed := s.pushed + [Stamped(data, ts, now)])
    case FlushEnd(now) =>
      s.(tsIrq := now, clock := now)
    case Enable(odr, now) =>
      s.(tsIrq := now, ts := now, clock := now, samples := 0,
         deltaTs := TruncDiv(NS_PER_SEC, odr) * s.watermark)
    case SetWatermark(val) =>
      if val < 1 || val > MAX_WATERMARK then s else s.(watermark := val)
    case SetStdLevel(level) =>
      s.(stdLevel := level)
  }

  /** The clock never goes back, and buffers are enabled at a real rate. */
  predicate Allowed(s: State, step: Step) {
    && (step.Irq? || step.Take? || step.FlushEnd? || step.Enable? ==> step.now >= s.clock)
    && (step.Enable? ==> step.odr > 0)
    && s.watermark > 0
  }

  predicate AllowedRun(s: State, steps: seq<Step>)
    decreases |steps|
  {
    steps != [] ==> Allowed(s, steps[0]) && AllowedRun(Apply(s, steps[0]), steps[1..])
  }

  function Run(s: State, steps: seq<Step>): State
    requires AllowedRun(s, steps)
    decreases |steps|
  {
    if steps == [] then s else Run(Apply(s, steps[0]), steps[1..])
  }

  predicate Monotone(p: seq<Stamped>) {
    && (forall i, j :: 0 <= i < j < |p| ==> p[i].ts <= p[j].ts)
    && (forall i :: 0 <= i < |p| ==> p[i].ts <= p[i].at)
  }

  /** The interval and the period of a drain are never negative, the watermark stays in
      range, and the next stamp cannot fall behind the last one. */
  predicate Safe(s: State) {
    && s.deltaTs >= 0 && s.drain >= 0
    && 1 <= s.watermark <= MAX_WATERMARK
    && s.tsIrq <= s.clock
    && Monotone(s.pushed)
    && (s.pushed != [] ==> s.pushed[|s.pushed| - 1].ts <= s.ts && s.pushed[|s.pushed| - 1].ts <= s.clock)
  }

  lemma TruncDivNonNegative(a: int, b: int)
    requires a >= 0 && b > 0
    ensures TruncDiv(a, b) >= 0
  {
  }

  lemma ProductNonNegative(a: int, b: int)
    requires a >= 0 && b >= 0
    ensures a * b >= 0
  {
  }

  lemma StepSafe(s: State, step: Step)
    requires Safe(s) && Allowed(s, step)
    ensures Safe(Apply(s, step))
    ensures s.pushed <= Apply(s, step).pushed
  {
    match step {
      case Irq(now) => AverageStep(s.deltaTs, now - s.tsIrq);
      case BeginDrain => TruncDivNonNegative(s.deltaTs, s.watermark);
      case Enable(odr, now) =>
        TruncDivNonNegative(NS_PER_SEC, odr);
        ProductNonNegative(TruncDiv(NS_PER_SEC, odr), s.watermark);
      case _ =>
    }
  }

  /** Stamp safety over every interleaving: the timestamps pushed never decrease and
      never exceed the clock at their push, and nothing pushed is ever taken back. */
  lemma {:induction false} StampSafety(s: State, steps: seq<Step>)
    requires Safe(s) && AllowedRun(s, steps)
    ensures Safe(Run(s, steps)) && Monotone(Run(s, steps).pushed)
    ensures s.pushed <= Run(s, steps).pushed
    decreases |steps|
  {
    if steps != [] {
      StepSafe(s, steps[0]);
      StampSafety(Apply(s, steps[0]), steps[1..]);
    }
  }

  /** Steps that neither restart the sample count nor change its level. */
  predicate KeepsLevel(step: Step) {
    !step.Enable? && !step.SetStdLevel?
  }

  function Taken(steps: seq<Step>): seq<Sample> {
    if steps == [] then
      []
    else
      (if steps[0].Take? then [steps[0].data] else []) + Taken(steps[1..])
  }

  function Data(p: seq<Stamped>): (r: seq<Sample>)
    ensures |r| == |p|
  {
    seq(|p|, i requires 0 <= i < |p| => p[i].data)
  }

  /** How many more samples are thrown away as start-up noise. */
  function ToSkip(s: State): nat {
    Max(0, s.stdLevel - 1 - s.samples)
  }

  /** Drain conservation: over any run at a constant level, every sample read is counted
      once, the first ones are dropped until the level is reached, and all the others are
      pushed, in order and unchanged. */
  lemma {:induction false} DrainConservation(s: State, steps: seq<Step>)
    requires AllowedRun(s, steps)
    requires forall i :: 0 <= i < |steps| ==> KeepsLevel(steps[i])
    ensures Run(s, steps).samples == s.samples + |Taken(steps)|
    ensures Data(Run(s, steps).pushed) == Data(s.pushed) + After(Taken(steps), ToSkip(s))
    decreases |steps|
  {
    if steps == [] {
      assert After(Taken(steps), ToSkip(s)) == [];
    } else {
      var s', rest := Apply(s, steps[0]), steps[1..];
      DrainConservation(s', rest);
      assert Run(s, steps) == Run(s', rest);
      FirstConserves(s, steps[0], Taken(rest));
    }
  }

  /** The account of a run's first step, in front of the samples the rest takes. */
  lemma FirstConserves(s: State, step: Step, rest: seq<Sample>)
    requires Allowed(s, step) && KeepsLevel(step)
    ensures var s' := Apply(s, step);
            var first := if step.Take? then [step.data] else [];
            && s'.samples + |rest| == s.samples + |first + rest|
            && Data(s'.pushed) + After(rest, ToSkip(s')) == Data(s.pushed) + After(first + rest, ToSkip(s))
  {
    StepConserves(s, step);
    if step.Take? {
      KeepOne(Data(s.pushed), step.data, rest, ToSkip(s));
    } else {
      assert [] + rest == rest;
    }
  }

  lemma StepConserves(s: State, step: Step)
    requires Allowed(s, step) && KeepsLevel(step)
    ensures Apply(s, step).stdLevel == s.stdLevel
    ensures Apply(s, step).samples == s.samples + if step.Take? then 1 else 0
    ensures ToSkip(Apply(s, step)) == if step.Take? && ToSkip(s) > 0 then ToSkip(s) - 1 else ToSkip(s)
    ensures Data(Apply(s, step).pushed) ==
            Data(s.pushed) + if step.Take? && ToSkip(s) == 0 then [step.data] else []
  {
  }

  /** The samples after the first k. */
  function After<T>(taken: seq<T>, k: nat): seq<T> {
    if k <= |taken| then taken[k..] else []
  }

  /** Taking one sample in front of the rest, with k still to drop. */
  lemma KeepOne<T>(kept: seq<T>, x: T, rest: seq<T>, k: nat)
    ensures k == 0 ==> (kept + [x]) + After(rest, 0) == kept + After([x] + rest, 0)
    ensures k > 0 ==> kept + After(rest, k - 1) == kept + After([x] + rest, k)
  {
  }

  /** What can happen inside one drain: samples, and everything that interleaves without
      touching the running stamp or the drain's period. */
  predicate InDrain(step: Step) {
    step.Take? || step.Irq? || step.FlushEnd? || step.SetWatermark?
  }

  /** The clock readings of the samples of a run. */
  function Readings(steps: seq<Step>): seq<int> {
    if steps == [] then
      []
    else
      (if steps[0].Take? then [steps[0].now] else []) + Readings(steps[1..])
  }

  /** p is what was pushed before and then the samples of a drain with the given clock
      readings.  The first skip are dropped and only move the stamp on by a period. */
  predicate Drained(before: seq<Stamped>, ts: int, period: int, skip: nat, readings: seq<int>, p: seq<Stamped>)
    decreases |readings|
  {
    if readings == [] then
      p == before
    else if skip > 0 then
      Drained(before, ts + period, period, skip - 1, readings[1..], p)
    else
      var n, t := |before|, Min(readings[0], ts);
      && before < p && p[n].ts == t && p[n].at == readings[0]
      && Drained(p[..n + 1], t + period, period, 0, readings[1..], p)
  }

  lemma {:induction false} DrainedExtends(before: seq<Stamped>, ts: int, period: int, skip: nat, readings: seq<int>,
                                          p: seq<Stamped>)
    requires Drained(before, ts, period, skip, readings, p)
    ensures before <= p && |p| == |before| + Max(0, |readings| - skip)
    decreases |readings|
  {
    if readings != [] {
      if skip > 0 {
        DrainedExtends(before, ts + period, period, skip - 1, readings[1..], p);
      } else {
        var n := |before|;
        DrainedExtends(p[..n + 1], Min(readings[0], ts) + period, period, 0, readings[1..], p);
      }
    }
  }

  lemma {:induction false} DrainOfSteps(s: State, steps: seq<Step>)
    requires AllowedRun(s, steps) && forall i :: 0 <= i < |steps| ==> InDrain(steps[i])
    ensures Drained(s.pushed, s.ts, s.drain, ToSkip(s), Readings(steps), Run(s, steps).pushed)
    decreases |steps|
  {
    if steps != [] {
      DrainOfSteps(Apply(s, steps[0]), steps[1..]);
      DrainStep(s, steps[0], Readings(steps[1..]), Run(s, steps).pushed);
    }
  }

  lemma DrainStep(s: State, step: Step, rest: seq<int>, p: seq<Stamped>)
    requires Allowed(s, step) && InDrain(step)
    requires var s' := Apply(s, step); Drained(s'.pushed, s'.ts, s'.drain, ToSkip(s'), rest, p)
    ensures Drained(s.pushed, s.ts, s.drain, ToSkip(s), (if step.Take? then [step.now] else []) + rest, p)
  {
    if step.Take? {
      var r, s' := [step.now] + rest, Apply(s, step);
      assert r[1..] == rest;
      DrainedExtends(s'.pushed, s'.ts, s'.drain, ToSkip(s'), rest, p);
      if ToSkip(s) == 0 {
        assert p[..|s.pushed| + 1] == s'.pushed;
      }
    } else {
      assert [] + rest == rest;
    }
  }

  /** The clock reading of sample j, carried forward to sample k. */
  function Carried(readings: seq<int>, period: int, j: nat, k: nat): int
    requires j < |readings|
  {
    readings[j] + (k - j) * period
  }

  /** The stamp t of sample k is the least of the first stamp due, ts, and the readings from
      the first pushed sample on, each carried forward to sample k. */
  predicate LeastOf(t: int, ts: int, period: int, readings: seq<int>, first: nat, k: nat)
    requires first <= k < |readings|
  {
    && t <= ts + k * period
    && (forall j :: first <= j <= k ==> t <= Carried(readings, period, j, k))
    && (t == ts + k * period || exists j :: first <= j <= k && t == Carried(readings, period, j, k))
  }

  lemma LeastLater(t: int, ts: int, period: int, readings: seq<int>, first: nat, k: nat)
    requires 0 < first <= k < |readings| && LeastOf(t, ts + period, period, readings[1..], first - 1, k - 1)
    ensures LeastOf(t, ts, period, readings, first, k)
  {
    var rest := readings[1..];
    OnePeriod(ts, period, k);
    forall j | first <= j <= k ensures Carried(readings, period, j, k) == Carried(rest, period, j - 1, k - 1) {
    }
    if t != ts + k * period {
      var j :| first - 1 <= j <= k - 1 && t == Carried(rest, period, j, k - 1);
      assert t == Carried(readings, period, j + 1, k);
    }
  }

  lemma LeastAfterPush(t: int, ts: int, period: int, readings: seq<int>, k: nat)
    requires 0 < k < |readings| && LeastOf(t, Min(readings[0], ts) + period, period, readings[1..], 0, k - 1)
    ensures LeastOf(t, ts, period, readings, 0, k)
  {
    var rest := readings[1..];
    OnePeriod(Min(readings[0], ts), period, k);
    assert Carried(readings, period, 0, k) == readings[0] + k * period;
    forall j | 0 < j <= k ensures Carried(readings, period, j, k) == Carried(rest, period, j - 1, k - 1) {
    }
    if t != Min(readings[0], ts) + k * period {
      var j :| 0 <= j <= k - 1 && t == Carried(rest, period, j, k - 1);
      assert t == Carried(readings, period, j + 1, k);
    }
  }

  lemma OnePeriod(ts: int, period: int, k: int)
    ensures (ts + period) + (k - 1) * period == ts + k * period
  {
  }

  lemma {:induction false} DrainedIsLeast(before: seq<Stamped>, ts: int, period: int, skip: nat, readings: seq<int>,
                                          p: seq<Stamped>, k: nat)
    requires Drained(before, ts, period, skip, readings, p) && skip <= k < |readings|
    ensures |p| == |before| + |readings| - skip
    ensures LeastOf(p[|before| + k - skip].ts, ts, period, readings, skip, k)
    ensures p[|before| + k - skip].at == readings[k]
    decreases |readings|
  {
    var n := |before|;
    DrainedExtends(before, ts, period, skip, readings, p);
    if skip > 0 {
      DrainedIsLeast(before, ts + period, period, skip - 1, readings[1..], p, k - 1);
      LeastLater(p[n + k - skip].ts, ts, period, readings, skip, k);
    } else if k > 0 {
      DrainedIsLeast(p[..n + 1], Min(readings[0], ts) + period, period, 0, readings[1..], p, k - 1);
      LeastAfterPush(p[n + k].ts, ts, period, readings, k);
    } else {
      assert Carried(readings, period, 0, 0) == readings[0];
    }
  }

  /** What a stamp is, dropped samples counted: the stamp due at the start of the drain
      advanced by k periods, or any clock reading taken for a pushed sample up to it
      advanced likewise, whichever is least, whatever interrupts and flushes interleave. */
  lemma StampIsLeast(s: State, steps: seq<Step>, k: nat)
    requires AllowedRun(s, steps) && forall i :: 0 <= i < |steps| ==> InDrain(steps[i])
    requires ToSkip(s) <= k < |Readings(steps)|
    ensures |Run(s, steps).pushed| == |s.pushed| + |Readings(steps)| - ToSkip(s)
    ensures var pushed := Run(s, steps).pushed[|s.pushed| + k - ToSkip(s)];
            LeastOf(pushed.ts, s.ts, s.drain, Readings(steps), ToSkip(s), k) && pushed.at == Readings(steps)[k]
  {
    DrainOfSteps(s, steps);
    DrainedIsLeast(s.pushed, s.ts, s.drain, ToSkip(s), Readings(steps), Run(s, steps).pushed, k);
  }

  /** Since the buffer was enabled, n samples read at level L make max(0, n - max(0, L-1))
      pushes. */
  lemma PushCount(s: State, odr: int, now: int, steps: seq<Step>)
    requires Allowed(s, Enable(odr, now)) && AllowedRun(Apply(s, Enable(odr, now)), steps)
    requires forall i :: 0 <= i < |steps| ==> KeepsLevel(steps[i])
    ensures |Run(Apply(s, Enable(odr, now)), steps).pushed|
            == |s.pushed| + Max(0, |Taken(steps)| - Max(0, s.stdLevel - 1))
  {
    var e := Apply(s, Enable(odr, now));
    DrainConservation(e, steps);
    assert |Data(Run(e, steps).pushed)| == |Run(e, steps).pushed|;
  }

  /** A drain begun after enabling and before any interrupt works with the sample period
      of the rate, whatever the watermark. */
  lemma FirstPeriod(s: State, odr: int, now: int)
    requires Allowed(s, Enable(odr, now))
    ensures Apply(Apply(s, Enable(odr, now)), BeginDrain).drain == NS_PER_SEC / odr
  {
    DivideBack(NS_PER_SEC / odr, s.watermark);
  }

  /** The first drain after enabling, at sample period d: sample k carries the enabling
      time advanced by k periods, or less where a clock reading says so.  Every sample
      counts, also the dropped ones. */
  lemma FirstDrain(s: State, odr: int, now: int, steps: seq<Step>, k: nat)
    requires Allowed(s, Enable(odr, now))
    requires AllowedRun(Apply(Apply(s, Enable(odr, now)), BeginDrain), steps)
    requires forall i :: 0 <= i < |steps| ==> InDrain(steps[i])
    requires Max(0, s.stdLevel - 1) <= k < |Readings(steps)|
    ensures var e := Apply(Apply(s, Enable(odr, now)), BeginDrain);
            var first := Max(0, s.stdLevel - 1);
            && |Run(e, steps).pushed| == |s.pushed| + |Readings(steps)| - first
            && LeastOf(Run(e, steps).pushed[|s.pushed| + k - first].ts, now, 1_000_000_000 / odr,
                       Readings(steps), first, k)
  {
    FirstPeriod(s, odr, now);
    StampIsLeast(Apply(Apply(s, Enable(odr, now)), BeginDrain), steps, k);
  }

  function TakesAt(data: Sample, n: nat, now: int): seq<Step> {
    if n == 0 then [] else [Take(data, now)] + TakesAt(data, n - 1, now)
  }

  lemma {:induction false} TakesAllowed(s: State, data: Sample, n: nat, now: int)
    requires s.clock <= now && s.watermark > 0
    ensures var t := TakesAt(data, n, now);
            && AllowedRun(s, t) && (forall i :: 0 <= i < |t| ==> InDrain(t[i]))
            && Readings(t) == seq(n, _ => now)
    decreases n
  {
    if n > 0 {
      TakesAllowed(Apply(s, Take(data, now)), data, n - 1, now);
    }
  }

  /** Enabled at time 0 at 12 Hz with sample level 12: of twelve samples read after two
      seconds one is pushed, stamped eleven periods after the enabling. */
  lemma TwelfthSample(s: State, data: Sample)
    requires s.clock <= 0 && s.watermark > 0 && s.stdLevel == 12
    ensures var e := Apply(Apply(s, Enable(12, 0)), BeginDrain);
            var steps := TakesAt(data, 12, 2_000_000_000);
            && AllowedRun(e, steps) && |Run(e, steps).pushed| == |s.pushed| + 1
            && Run(e, steps).pushed[|s.pushed|].ts == 11 * 83_333_333
  {
    TakesAllowed(Apply(Apply(s, Enable(12, 0)), BeginDrain), data, 12, 2_000_000_000);
    FirstDrain(s, 12, 0, TakesAt(data, 12, 2_000_000_000), 11);
    assert Carried(seq(12, _ => 2_000_000_000), 83_333_333, 11, 11) == 2_000_000_000;
  }

  /** Stamps stay at or after the time the buffer was enabled, whatever follows. */
  lemma {:induction false} StampsFrom(s: State, steps: seq<Step>, from: int)
    requires Safe(s) && AllowedRun(s, steps) && s.ts >= from && s.clock >= from
    ensures s.pushed <= Run(s, steps).pushed
    ensures forall i :: |s.pushed| <= i < |Run(s, steps).pushed| ==> Run(s, steps).pushed[i].ts >= from
    decreases |steps|
  {
    if steps != [] {
      StepSafe(s, steps[0]);
      StampsFrom(Apply(s, steps[0]), steps[1..], from);
    }
  }

  lemma StampsAfterEnabling(s: State, odr: int, now: int, steps: seq<Step>)
    requires Safe(s) && Allowed(s, Enable(odr, now)) && AllowedRun(Apply(s, Enable(odr, now)), steps)
    ensures var p := Run(Apply(s, Enable(odr, now)), steps).pushed;
            s.pushed <= p && forall i :: |s.pushed| <= i < |p| ==> p[i].ts >= now
  {
    StepSafe(s, Enable(odr, now));
    StampsFrom(Apply(s, Enable(odr, now)), steps, now);
  }

  /** The period of a drain: as many samples as the watermark fill the interval, up to a
      rest smaller than the watermark. */
  lemma PeriodFillsInterval(s: State)
    requires Safe(s)
    ensures var d := Apply(s, BeginDrain).drain; d * s.watermark <= s.deltaTs < (d + 1) * s.watermark
  {
    DivBounds(s.deltaTs, s.watermark);
  }

  lemma DivideBack(x: nat, w: int)
    requires w > 0
    ensures TruncDiv(x * w, w) == x
  {
    ProductNonNegative(x, w);
    DivBounds(x * w, w);
    Between((x * w) / w, x, w);
  }

  lemma DivBounds(p: nat, w: int)
    requires w > 0
    ensures (p / w) * w <= p < (p / w) * w + w
  {
  }

  lemma Between(q: int, x: int, w: int)
    requires w > 0 && q * w <= x * w < q * w + w
    ensures q == x
  {
    if q < x {
      StepUp(q, x, w);
    } else if x < q {
      StepUp(x, q, w);
    }
  }

  lemma StepUp(a: int, b: int, w: int)
    requires a < b && w > 0
    ensures a * w + w <= b * w
  {
    ProductNonNegative(b - a - 1, w);
    assert (b - a - 1) * w == b * w - a * w - w;
  }

  /** Every interrupt gap, and every interval a buffer is enabled with, is within bounds. */
  predicate GapsWithin(s: State, steps: seq<Step>, lo: int, hi: int)
    requires AllowedRun(s, steps)
    decreases |steps|
  {
    steps != [] ==>
      && (steps[0].Irq? ==> lo <= steps[0].now - s.tsIrq <= hi)
      && (steps[0].Enable? ==> lo <= Apply(s, steps[0]).deltaTs <= hi)
      && GapsWithin(Apply(s, steps[0]), steps[1..], lo, hi)
  }

  /** The interval stays between any bounds that hold its value, every interrupt gap and
      every interval set by enabling. */
  lemma {:induction false} IntervalBound(s: State, steps: seq<Step>, lo: int, hi: int)
    requires AllowedRun(s, steps) && GapsWithin(s, steps, lo, hi)
    requires lo <= s.deltaTs <= hi
    ensures lo <= Run(s, steps).deltaTs <= hi
    decreases |steps|
  {
    if steps != [] {
      if steps[0].Irq? {
        AverageStep(s.deltaTs, steps[0].now - s.tsIrq);
      }
      IntervalBound(Apply(s, steps[0]), steps[1..], lo, hi);
    }
  }

  lemma {:induction false} RunSnoc(s: State, steps: seq<Step>, last: Step)
    requires AllowedRun(s, steps) && Allowed(Run(s, steps), last)
    ensures AllowedRun(s, steps + [last])
    ensures Run(s, steps + [last]) == Apply(Run(s, steps), last)
    decreases |steps|
  {
    var all := steps + [last];
    if steps == [] {
      assert all[1..] == [];
    } else {
      assert all[1..] == steps[1..] + [last];
      RunSnoc(Apply(s, steps[0]), steps[1..], last);
    }
  }

  /** The steps that read the clock as a reference for the next interrupt. */
  predicate SetsReference(step: Step) {
    step.Irq? || step.FlushEnd? || step.Enable?
  }

  /** The clock reading of the latest of them, or start when there is none. */
  function Reference(start: int, steps: seq<Step>): int {
    if steps == [] then
      start
    else if SetsReference(steps[|steps| - 1]) then
      steps[|steps| - 1].now
    else
      Reference(start, steps[..|steps| - 1])
  }

  lemma {:induction false} ReferenceSplit(start: int, steps: seq<Step>)
    requires steps != []
    ensures Reference(start, steps)
            == Reference(if SetsReference(steps[0]) then steps[0].now else start, steps[1..])
    decreases |steps|
  {
    var p := steps[..|steps| - 1];
    if |steps| > 1 {
      assert steps[1..][..|steps| - 2] == p[1..];
      ReferenceSplit(start, p);
    } else {
      assert p == [];
    }
  }

  lemma {:induction false} ReferenceKept(s: State, steps: seq<Step>)
    requires AllowedRun(s, steps)
    ensures Run(s, steps).tsIrq == Reference(s.tsIrq, steps)
    decreases |steps|
  {
    if steps != [] {
      ReferenceKept(Apply(s, steps[0]), steps[1..]);
      ReferenceSplit(s.tsIrq, steps);
    }
  }

  /** What an interrupt measures: whatever interleaves, it averages in its own clock reading
      less that of the latest interrupt, flush or enabling before it. */
  lemma InterruptMeasures(s: State, steps: seq<Step>, now: int)
    requires AllowedRun(s, steps) && Allowed(Run(s, steps), Irq(now))
    ensures AllowedRun(s, steps + [Irq(now)])
    ensures Run(s, steps + [Irq(now)]).deltaTs
            == Average(Run(s, steps).deltaTs, now - Reference(s.tsIrq, steps))
  {
    RunSnoc(s, steps, Irq(now));
    ReferenceKept(s, steps);
  }

  /** Between interrupts and enablings the interval is left alone. */
  lemma {:induction false} IntervalKept(s: State, steps: seq<Step>)
    requires AllowedRun(s, steps) && forall i :: 0 <= i < |steps| ==> !steps[i].Irq? && !steps[i].Enable?
    ensures Run(s, steps).deltaTs == s.deltaTs
    decreases |steps|
  {
    if steps != [] {
      IntervalKept(Apply(s, steps[0]), steps[1..]);
    }
  }

  /** The clock readings of the interrupts of a run. */
  function IrqTimes(steps: seq<Step>): seq<int> {
    if steps == [] then
      []
    else
      (if steps[0].Irq? then [steps[0].now] else []) + IrqTimes(steps[1..])
  }

  /** Each time is gap after the one before it, the first one after start. */
  predicate Spaced(times: seq<int>, start: int, gap: int) {
    times != [] ==> times[0] == start + gap && Spaced(times[1..], times[0], gap)
  }

  /** Interrupts spaced gap apart, the first one gap after the reference time, with samples
      and sysfs writes in between: n of them average the gap in n times. */
  lemma {:induction false} SteadyInterrupts(s: State, steps: seq<Step>, gap: int)
    requires AllowedRun(s, steps) && forall i :: 0 <= i < |steps| ==> !steps[i].FlushEnd? && !steps[i].Enable?
    requires Spaced(IrqTimes(steps), s.tsIrq, gap)
    ensures Run(s, steps).deltaTs == Settle(s.deltaTs, gap, |IrqTimes(steps)|)
    decreases |steps|
  {
    if steps != [] {
      var s', rest := Apply(s, steps[0]), steps[1..];
      if steps[0].Irq? {
        assert IrqTimes(steps)[1..] == IrqTimes(rest);
        SettleFirst(s.deltaTs, gap, |IrqTimes(rest)|);
      } else {
        assert IrqTimes(steps) == IrqTimes(rest);
      }
      SteadyInterrupts(s', rest, gap);
    }
  }

  lemma {:induction false} SettleFirst(start: int, gap: int, n: nat)
    ensures Settle(Average(start, gap), gap, n) == Settle(start, gap, n + 1)
    decreases n
  {
    if n > 0 {
      SettleFirst(start, gap, n - 1);
    }
  }

  /** The same from the moment the buffer is enabled, at the interval of its rate. */
  lemma SteadyFromEnabling(s: State, odr: int, now: int, steps: seq<Step>, gap: int)
    requires Allowed(s, Enable(odr, now)) && AllowedRun(Apply(s, Enable(odr, now)), steps)
    requires forall i :: 0 <= i < |steps| ==> !steps[i].FlushEnd? && !steps[i].Enable?
    requires Spaced(IrqTimes(steps), now, gap)
    ensures Run(Apply(s, Enable(odr, now)), steps).deltaTs
            == Settle(NS_PER_SEC / odr * s.watermark, gap, |IrqTimes(steps)|)
  {
    SteadyInterrupts(Apply(s, Enable(odr, now)), steps, gap);
  }

  /** The latest watermark written within range, or start when there is none. */
  function LatestWatermark(start: int, steps: seq<Step>): int {
    if steps == [] then
      start
    else
      var last := steps[|steps| - 1];
      if last.SetWatermark? && 1 <= last.val <= 31 then last.val
      else LatestWatermark(start, steps[..|steps| - 1])
  }

  function LatestLevel(start: Byte, steps: seq<Step>): Byte {
    if steps == [] then
      start
    else
      var last := steps[|steps| - 1];
      if last.SetStdLevel? then last.level else LatestLevel(start, steps[..|steps| - 1])
  }

  /** A value written is kept until the next one, whatever else happens. */
  lemma {:induction false} WritesKept(s: State, steps: seq<Step>)
    requires AllowedRun(s, steps)
    ensures Run(s, steps).watermark == LatestWatermark(s.watermark, steps)
    ensures Run(s, steps).stdLevel == LatestLevel(s.stdLevel, steps)
    decreases |steps|
  {
    if steps != [] {
      var p, last := steps[..|steps| - 1], steps[|steps| - 1];
      assert p + [last] == steps;
      AllowedPrefix(s, p, last);
      RunSnoc(s, p, last);
      WritesKept(s, p);
    }
  }

  lemma {:induction false} AllowedPrefix(s: State, steps: seq<Step>, last: Step)
    requires AllowedRun(s, steps + [last])
    ensures AllowedRun(s, steps) && Allowed(Run(s, steps), last)
    decreases |steps|
  {
    var all := steps + [last];
    if steps == [] {
      assert all[0] == last;
    } else {
      assert all[0] == steps[0] && all[1..] == steps[1..] + [last];
      AllowedPrefix(Apply(s, steps[0]), steps[1..], last);
    }
  }
}
