/** Collection of frame sums into the list of samples a weighing uses.

    Frame sums arrive one at a time from the frame assembler.  A stuck-zero
    counter tracks consecutive zero sums and, past 100, drops the frame with
    a warning.  Frames below the threshold are skipped until collection has
    started and end it afterwards.  Collection also ends as soon as the list
    holds more than `samples` values.  Progress messages are modelled as an
    append-only log of signals. */
module Collector {
  import opened Frames

  datatype Signal = SensorsNotResponding | SteppedOff | MeasurementStarted

  /** Collecting: still reading; UserLeft: stopped on a below-threshold frame
      after collection had started; Enough: stopped on the size bound. */
  datatype Phase = Collecting | UserLeft | Enough

  /** The loop's variables: the samples, the stuck-zero counter, the signals
      sent so far and whether (and why) the loop has ended. */
  datatype State = State(data: seq<real>, stuck: nat, log: seq<Signal>, phase: Phase)

  const Start: State := State([], 0, [], Collecting)

  /** The stuck-zero counter's limit: more consecutive zero frames than this
      mean the sensors are not responding. */
  const STUCK_LIMIT: nat := 100

  /** Number of occurrences of signal `s` in `log`. */
  function Count(log: seq<Signal>, s: Signal): nat
  {
    if log == [] then 0
    else Count(log[..|log| - 1], s) + (if log[|log| - 1] == s then 1 else 0)
  }

  lemma CountSnoc(log: seq<Signal>, x: Signal, s: Signal)
    ensures Count(log + [x], s) == Count(log, s) + (if x == s then 1 else 0)
  {
    assert (log + [x])[..|log|] == log;
  }

  /** One iteration of the collection loop, given the frame sum `m`. */
  function Next(st: State, m: real, samples: nat, threshold: real): (r: State)
    ensures st.log <= r.log && |r.log| <= |st.log| + 1
    ensures r.phase == Enough && st.phase != Enough ==> |r.data| == |st.data| + 1 > samples
    ensures (if m == 0.0 then st.stuck + 1 else 0) <= STUCK_LIMIT && m >= threshold ==>
      && r.data == st.data + [m]
      && r.log == (if st.data == [] then st.log + [MeasurementStarted] else st.log)
      && (r.phase == Enough <==> |st.data| + 1 > samples)
  {
    var stuck := if m == 0.0 then st.stuck + 1 else 0;
    if stuck > STUCK_LIMIT then
      st.(stuck := stuck, log := st.log + [SensorsNotResponding])
    else if |st.data| > 0 && m < threshold then
      st.(stuck := stuck, log := st.log + [SteppedOff], phase := UserLeft)
    else if |st.data| == 0 && m < threshold then
      st.(stuck := stuck)
    else
      var data := st.data + [m];
      st.(data := data, stuck := stuck,
          log := if |data| == 1 then st.log + [MeasurementStarted] else st.log,
          phase := if |data| > samples then Enough else Collecting)
  }

  /** The loop over a sequence of frame sums: each sum is one iteration,
      and sums that arrive after the loop has ended are never read. */
  function Run(st: State, ms: seq<real>, samples: nat, threshold: real): (r: State)
    ensures st.phase != Collecting ==> r == st
    ensures st.log <= r.log && |r.log| <= |st.log| + |ms|
    decreases ms
  {
    if ms == [] || st.phase != Collecting then st
    else Run(Next(st, ms[0], samples, threshold), ms[1..], samples, threshold)
  }

  /** The frame sums successive reads produce from position i on, and
      whether the reads ended with the button. */
  datatype Stream = Stream(sums: seq<real>, button: bool)

  function Readings(evs: seq<Read>, i: nat): (r: Stream)
    requires i <= |evs|
    ensures |r.sums| <= |evs| - i
    decreases |evs| - i
  {
    match Assemble(evs, i, Empty)
    case Measured(s, n) =>
      var rest := Readings(evs, n);
      Stream([s] + rest.sums, rest.button)
    case Aborted => Stream([], true)
    case Blocked => Stream([], false)
  }

  /** What a collection ends with: the samples (with the final loop state),
      the button's error, or a stream that ran dry while collecting (the
      device would keep being polled). */
  datatype Outcome = Samples(st: State) | ButtonPressed | Waiting(st: State)

  /** The outcome of collecting from state `st` over `rd`: the loop runs over
      the frame sums; if it has not ended when they run out, the reads ended
      with the button or with an empty stream. */
  function Collected(st: State, rd: Stream, samples: nat, threshold: real): (out: Outcome)
    ensures Good(st, samples, threshold) && out.Samples? ==>
      && Good(out.st, samples, threshold) && out.st.phase != Collecting
      && st.data <= out.st.data
      && 1 <= |out.st.data| <= samples + 1
    ensures Good(st, samples, threshold) && out.Waiting? ==>
      Good(out.st, samples, threshold) && out.st.phase == Collecting
  {
    var last := Run(st, rd.sums, samples, threshold);
    assert Good(st, samples, threshold) ==> Good(last, samples, threshold) && st.data <= last.data by {
      if Good(st, samples, threshold) { RunKeepsGood(st, rd.sums, samples, threshold); }
    }
    if last.phase != Collecting then Samples(last)
    else if rd.button then ButtonPressed
    else Waiting(last)
  }

  /** The invariant of the loop's variables. */
  predicate Good(st: State, samples: nat, threshold: real)
  {
    && (forall k :: 0 <= k < |st.data| ==> st.data[k] >= threshold)
    && Count(st.log, MeasurementStarted) == (if |st.data| == 0 then 0 else 1)
    && match st.phase
       case Collecting => |st.data| <= samples
       case UserLeft => 1 <= |st.data| <= samples
       case Enough => |st.data| == samples + 1
  }

  /** Collects samples from the device, reading from position `from`. */
  method ReadData(evs: seq<Read>, from: nat, samples: nat, threshold: real) returns (out: Outcome)
    requires from <= |evs|
    ensures out == Collected(Start, Readings(evs, from), samples, threshold)
    ensures out.Samples? ==> Good(out.st, samples, threshold) && out.st.phase != Collecting
    ensures out.Samples? ==> 1 <= |out.st.data| <= samples + 1
    ensures out.Samples? ==> (out.st.phase == Enough <==> |out.st.data| == samples + 1)
    ensures out.Samples? && out.st.phase == UserLeft ==>
      |out.st.log| > 0 && out.st.log[|out.st.log| - 1] == SteppedOff
    ensures out.Waiting? ==> Good(out.st, samples, threshold) && out.st.phase == Collecting
  {
    var data: seq<real> := [];
    var stuckZeroCount: nat := 0;
    var log: seq<Signal> := [];
    var pos := from;
    while true
      invariant from <= pos <= |evs|
      invariant Good(State(data, stuckZeroCount, log, Collecting), samples, threshold)
      invariant Collected(Start, Readings(evs, from), samples, threshold)
             == Collected(State(data, stuckZeroCount, log, Collecting), Readings(evs, pos), samples, threshold)
      decreases |evs| - pos
    {
      ghost var before := State(data, stuckZeroCount, log, Collecting);
      var measurement := GetRawMeasurement(evs, pos);
      if measurement.Aborted? {
        return ButtonPressed;
      }
      if measurement.Blocked? {
        return Waiting(State(data, stuckZeroCount, log, Collecting));
      }
      var m := measurement.sum;
      CollectedStep(before, evs, pos, samples, threshold);
      pos := measurement.next;
      ghost var after := Next(before, m, samples, threshold);
      NextKeepsGood(before, m, samples, threshold);

      if m == 0.0 {
        stuckZeroCount := stuckZeroCount + 1;
      } else {
        stuckZeroCount := 0;
      }
      if stuckZeroCount > STUCK_LIMIT {
        log := log + [SensorsNotResponding];
        assert State(data, stuckZeroCount, log, Collecting) == after;
        continue;
      }
      if |data| > 0 && m < threshold {
        log := log + [SteppedOff];
        out := Samples(State(data, stuckZeroCount, log, UserLeft));
        assert out.st == after;
        EndedStays(after, Readings(evs, pos), samples, threshold);
        return;
      }
      if |data| == 0 && m < threshold {
        assert State(data, stuckZeroCount, log, Collecting) == after;
        continue;
      }
      data := data + [m];
      if |data| == 1 {
        log := log + [MeasurementStarted];
      }
      if |data| > samples {
        out := Samples(State(data, stuckZeroCount, log, Enough));
        assert out.st == after;
        EndedStays(after, Readings(evs, pos), samples, threshold);
        return;
      }
      assert State(data, stuckZeroCount, log, Collecting) == after;
    }
  }

  /** Once the loop has ended, no further frame is read. */
  lemma EndedStays(st: State, rd: Stream, samples: nat, threshold: real)
    requires st.phase != Collecting
    ensures Collected(st, rd, samples, threshold) == Samples(st)
  {
  }

  /** A frame read while collecting is one iteration of the loop. */
  lemma CollectedStep(st: State, evs: seq<Read>, i: nat, samples: nat, threshold: real)
    requires i <= |evs| && st.phase == Collecting && Assemble(evs, i, Empty).Measured?
    ensures var raw := Assemble(evs, i, Empty);
      Collected(st, Readings(evs, i), samples, threshold)
      == Collected(Next(st, raw.sum, samples, threshold), Readings(evs, raw.next), samples, threshold)
  {
    var raw := Assemble(evs, i, Empty);
    var rest := Readings(evs, raw.next);
    assert Readings(evs, i).sums == [raw.sum] + rest.sums;
    assert ([raw.sum] + rest.sums)[1..] == rest.sums;
  }

  /** One iteration keeps the invariant. */
  lemma NextKeepsGood(st: State, m: real, samples: nat, threshold: real)
    requires Good(st, samples, threshold) && st.phase == Collecting
    ensures Good(Next(st, m, samples, threshold), samples, threshold)
  {
    var st' := Next(st, m, samples, threshold);
    CountSnoc(st.log, SensorsNotResponding, MeasurementStarted);
    CountSnoc(st.log, SteppedOff, MeasurementStarted);
    CountSnoc(st.log, MeasurementStarted, MeasurementStarted);
  }

  /** An iteration never alters collected samples: it keeps the list or
      appends the frame sum, and appends only an at-or-above-threshold sum. */
  lemma NextAppendsOnly(st: State, m: real, samples: nat, threshold: real)
    ensures var st' := Next(st, m, samples, threshold);
      || st'.data == st.data
      || (st'.data == st.data + [m] && m >= threshold)
  {
  }

  /** The stuck-zero counter counts consecutive zero sums; past the limit the
      frame is dropped with a warning and the loop goes on. */
  lemma StuckCounter(st: State, m: real, samples: nat, threshold: real)
    ensures var st' := Next(st, m, samples, threshold);
      && st'.stuck == (if m == 0.0 then st.stuck + 1 else 0)
      && (st'.stuck > STUCK_LIMIT ==>
            st' == st.(stuck := st'.stuck, log := st.log + [SensorsNotResponding]))
  {
  }

  /** A below-threshold sum (the counter not past its limit) is skipped
      before collection has started and ends collection afterwards, without
      being appended. */
  lemma BelowThreshold(st: State, m: real, samples: nat, threshold: real)
    requires m < threshold && (m == 0.0 ==> st.stuck < STUCK_LIMIT)
    ensures var st' := Next(st, m, samples, threshold);
      && st'.data == st.data
      && (|st.data| == 0 ==> st'.phase == st.phase && st'.log == st.log)
      && (|st.data| > 0 ==> st'.phase == UserLeft && st'.log == st.log + [SteppedOff])
  {
  }

  /** The loop keeps its invariant over any frame sums and never alters
      samples it has collected. */
  lemma {:induction false} RunKeepsGood(st: State, ms: seq<real>, samples: nat, threshold: real)
    requires Good(st, samples, threshold)
    ensures var last := Run(st, ms, samples, threshold);
      Good(last, samples, threshold) && st.data <= last.data
    decreases ms
  {
    if ms != [] && st.phase == Collecting {
      NextKeepsGood(st, ms[0], samples, threshold);
      NextAppendsOnly(st, ms[0], samples, threshold);
      RunKeepsGood(Next(st, ms[0], samples, threshold), ms[1..], samples, threshold);
    }
  }

  function Zeros(k: nat): seq<real>
  {
    seq(k, _ => 0.0)
  }

  function Repeat(s: Signal, n: nat): seq<Signal>
  {
    seq(n, _ => s)
  }

  /** How many of k further zero sums push a counter standing at `stuck`
      past the limit. */
  function Over(stuck: nat, k: nat): nat
  {
    if stuck + k <= STUCK_LIMIT then 0
    else if stuck >= STUCK_LIMIT then k
    else stuck + k - STUCK_LIMIT
  }

  /** Zero sums before collection has started (with a positive threshold)
      only count: each one past the 100th sends a warning, none ends the
      session and none is collected. */
  lemma {:induction false} ZeroFramesBeforeStart(st: State, k: nat, samples: nat, threshold: real)
    requires st.phase == Collecting && st.data == [] && threshold > 0.0
    ensures Run(st, Zeros(k), samples, threshold)
         == st.(stuck := st.stuck + k, log := st.log + Repeat(SensorsNotResponding, Over(st.stuck, k)))
    decreases k
  {
    if k == 0 {
      assert st.log + Repeat(SensorsNotResponding, 0) == st.log;
    } else {
      var st1 := Next(st, 0.0, samples, threshold);
      assert Zeros(k)[1..] == Zeros(k - 1);
      ZeroFramesBeforeStart(st1, k - 1, samples, threshold);
      var w := if st.stuck + 1 > STUCK_LIMIT then [SensorsNotResponding] else [];
      assert st1 == st.(stuck := st.stuck + 1, log := st.log + w);
      assert w + Repeat(SensorsNotResponding, Over(st.stuck + 1, k - 1))
          == Repeat(SensorsNotResponding, Over(st.stuck, k));
      assert st.log + w + Repeat(SensorsNotResponding, Over(st.stuck + 1, k - 1))
          == st.log + (w + Repeat(SensorsNotResponding, Over(st.stuck + 1, k - 1)));
    }
  }

  /** Sums that all reach a positive threshold are collected in order until
      the list exceeds `samples`: a full run keeps the first samples + 1. */
  lemma {:induction false} AboveThresholdFillsUp(st: State, ms: seq<real>, samples: nat, threshold: real)
    requires st.phase == Collecting && |st.data| <= samples && threshold > 0.0
    requires forall j :: 0 <= j < |ms| ==> ms[j] >= threshold
    ensures var last := Run(st, ms, samples, threshold);
      if |st.data| + |ms| > samples then
        last.phase == Enough && last.data == st.data + ms[..samples + 1 - |st.data|]
      else
        last.phase == Collecting && last.data == st.data + ms
    decreases ms
  {
    if ms == [] {
      assert st.data + ms == st.data;
    } else {
      var st1 := Next(st, ms[0], samples, threshold);
      assert st1.data == st.data + [ms[0]];
      if |st.data| + 1 > samples {
        assert st.data + ms[..samples + 1 - |st.data|] == st.data + [ms[0]];
      } else {
        AboveThresholdFillsUp(st1, ms[1..], samples, threshold);
        assert st.data + [ms[0]] + ms[1..] == st.data + ms;
        if |st.data| + |ms| > samples {
          assert ms[1..][..samples + 1 - |st1.data|] == ms[1..samples + 1 - |st.data|];
          assert st.data + [ms[0]] + ms[1..samples + 1 - |st.data|] == st.data + ms[..samples + 1 - |st.data|];
        }
      }
    }
  }
}
