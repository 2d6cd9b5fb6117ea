/** One weighing: collect samples from the board, then reduce them to the
    weight that is reported. */
module Weighing {
  import opened Frames
  import opened Collector
  import opened Reduction

  /** Samples collected per weighing, and the smallest frame sum that counts
      as someone standing on the board. */
  const SAMPLES: nat := 200
  const THRESHOLD: real := 20.0

  /** The weight in the requested unit, the button's error, or still waiting
      for frames when the stream ran dry. */
  datatype Weighed = Weight(value: real) | ButtonError | StillWaiting

  /** Weighs from the board's event stream (the board is already found). */
  method MeasureWeight(evs: seq<Read>, adjust: real, unit: string) returns (r: Weighed)
    ensures var out := Collected(Start, Readings(evs, 0), SAMPLES, THRESHOLD);
      && (r.Weight? <==> out.Samples?)
      && (r.ButtonError? <==> out.ButtonPressed?)
      && (out.Samples? ==> r.Weight? && r.value == FinalWeight(out.st.data, adjust, unit))
    ensures r.Weight? && unit != "lbs" ==> r.value >= THRESHOLD + adjust
    ensures r.Weight? && unit == "lbs" ==> r.value >= (THRESHOLD + adjust) * LBS_PER_KG
  {
    var out := ReadData(evs, 0, SAMPLES, THRESHOLD);
    match out
    case ButtonPressed =>
      r := ButtonError;
    case Waiting(_) =>
      r := StillWaiting;
    case Samples(st) =>
      var data := st.data;
      r := Weight(FinalWeight(data, adjust, unit));
      assert Min(data) >= THRESHOLD by {
        var k :| 0 <= k < |data| && data[k] == Min(data);
      }
      MultiplyMonotone(THRESHOLD + adjust, Min(data) + adjust, LBS_PER_KG);
  }
}
