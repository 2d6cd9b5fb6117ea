/** Assembly of one balance-board reading from the evdev event stream.

    The board reports its four load sensors as four absolute "hat" axes.
    One reading is complete when a SYN_REPORT event with value 0 arrives
    after each of the four axes has reported a value since the frame began;
    the reading is the sum of the four latest values, each divided by 100.
    A press of the board's button aborts the read.  The device is abstracted
    as a finite sequence of reads; a read is None when no event was pending. */
module Frames {

  datatype Option<T> = None | Some(value: T)

  /** An input event as delivered by the device: type, code and value. */
  datatype InputEvent = InputEvent(etype: int, code: int, value: int)

  /** The result of one non-blocking read: an event, or None. */
  type Read = Option<InputEvent>

  // Event codes of the Linux input subsystem (linux/input-event-codes.h).
  const SYN_REPORT: int := 0x00
  const ABS_HAT0X: int := 0x10
  const ABS_HAT0Y: int := 0x11
  const ABS_HAT1X: int := 0x12
  const ABS_HAT1Y: int := 0x13
  const BTN_A: int := 0x130

  /** The axis code that fills each of the four slots, in slot order. */
  const SlotCodes: seq<int> := [ABS_HAT1X, ABS_HAT0X, ABS_HAT0Y, ABS_HAT1Y]

  /** The four-slot buffer of one frame; None is a slot not yet reported. */
  type Slots = s: seq<Option<real>> | |s| == 4 witness [None, None, None, None]

  const Empty: Slots := [None, None, None, None]

  /** A raw axis value as the reading uses it (value / 100, exact). */
  function Scaled(v: int): real { v as real / 100.0 }

  predicate Full(buf: Slots) { forall k :: 0 <= k < 4 ==> buf[k].Some? }

  function SlotSum(buf: Slots): real
    requires Full(buf)
  {
    buf[0].value + buf[1].value + buf[2].value + buf[3].value
  }

  /** A frame boundary: dispatch looks at the code and the value only,
      never at the event type. */
  predicate IsBoundary(r: Read) { r.Some? && r.value.code == SYN_REPORT && r.value.value == 0 }

  predicate IsButton(r: Read) { r.Some? && r.value.code == BTN_A }

  /** The buffer after recording read `r`: the slot whose code `r` carries
      takes its scaled value, every other slot is kept. */
  function Record(buf: Slots, r: Read): (b: Slots)
  {
    seq(4, k requires 0 <= k < 4 =>
      if r.Some? && r.value.code == SlotCodes[k] then Some(Scaled(r.value.value)) else buf[k])
  }

  /** What one read does to the frame being assembled. */
  datatype Step = Continue(buf: Slots) | Emit(sum: real) | Abort

  /** One iteration of the read loop: the dispatch on the event code. */
  function Feed(buf: Slots, r: Read): (o: Step)
    ensures o.Abort? <==> IsButton(r)
    ensures o.Emit? <==> IsBoundary(r) && Full(buf)
    ensures o.Emit? ==> o.sum == SlotSum(buf)
    ensures IsBoundary(r) && !Full(buf) ==> o == Continue(Empty)
    ensures !IsButton(r) && !IsBoundary(r) ==> o == Continue(Record(buf, r))
  {
    if r.None? then Continue(buf)
    else if r.value.code == ABS_HAT1X then Continue(buf[0 := Some(Scaled(r.value.value))])
    else if r.value.code == ABS_HAT0X then Continue(buf[1 := Some(Scaled(r.value.value))])
    else if r.value.code == ABS_HAT0Y then Continue(buf[2 := Some(Scaled(r.value.value))])
    else if r.value.code == ABS_HAT1Y then Continue(buf[3 := Some(Scaled(r.value.value))])
    else if r.value.code == BTN_A then Abort
    else if r.value.code == SYN_REPORT && r.value.value == 0 then
      if Full(buf) then Emit(SlotSum(buf)) else Continue(Empty)
    else Continue(buf)
  }

  /** The outcome of reading one measurement starting at some position:
      a frame sum and the position after its boundary, an abort by the
      button, or the stream ran dry (the device would keep being polled). */
  datatype Raw = Measured(sum: real, next: nat) | Aborted | Blocked

  /** Reading from position j with buffer `buf`, one read at a time. */
  function Assemble(evs: seq<Read>, j: nat, buf: Slots): (res: Raw)
    requires j <= |evs|
    ensures res.Measured? ==> j < res.next <= |evs| && IsBoundary(evs[res.next - 1])
    decreases |evs| - j
  {
    if j == |evs| then Blocked
    else match Feed(buf, evs[j])
      case Continue(b) => Assemble(evs, j + 1, b)
      case Emit(s) => Measured(s, j + 1)
      case Abort => Aborted
  }

  /** Reads one measurement from the device, starting at position `from`. */
  method GetRawMeasurement(evs: seq<Read>, from: nat) returns (res: Raw)
    requires from <= |evs|
    ensures res == Assemble(evs, from, Empty)
    ensures FrameOutcome(evs, from, res)
  {
    AssembleMeetsFrameOutcome(evs, from);
    var data: Slots := Empty;
    var j := from;
    while j < |evs|
      invariant from <= j <= |evs|
      invariant Assemble(evs, from, Empty) == Assemble(evs, j, data)
      decreases |evs| - j
    {
      var event := evs[j];
      j := j + 1;
      if event.None? {
        continue;
      }
      var e := event.value;
      if e.code == ABS_HAT1X {
        data := data[0 := Some(Scaled(e.value))];
      } else if e.code == ABS_HAT0X {
        data := data[1 := Some(Scaled(e.value))];
      } else if e.code == ABS_HAT0Y {
        data := data[2 := Some(Scaled(e.value))];
      } else if e.code == ABS_HAT1Y {
        data := data[3 := Some(Scaled(e.value))];
      } else if e.code == BTN_A {
        return Aborted;
      } else if e.code == SYN_REPORT && e.value == 0 {
        if None in data {
          data := Empty;
          continue;
        } else {
          assert Full(data) by {
            forall k | 0 <= k < 4 ensures data[k].Some? {
              assert data[k] in data;
            }
          }
          return Measured(SlotSum(data), j);
        }
      }
    }
    return Blocked;
  }

  // ---------------------------------------------------------------------
  // A reference description of the same read, by positions in the stream.

  /** The scaled value of the last event in `seg` with the given code. */
  function Latest(seg: seq<Read>, code: int): Option<real>
  {
    if seg == [] then None
    else if seg[|seg| - 1].Some? && seg[|seg| - 1].value.code == code then
      Some(Scaled(seg[|seg| - 1].value.value))
    else Latest(seg[..|seg| - 1], code)
  }

  /** The buffer described by the events of one frame: each slot holds the
      latest value reported for its code. */
  function SlotsOf(seg: seq<Read>): Slots
  {
    seq(4, k requires 0 <= k < 4 => Latest(seg, SlotCodes[k]))
  }

  /** Where the frame that is open at position p began, for a read that
      started at position i: just after the last boundary before p. */
  function FrameStart(evs: seq<Read>, i: nat, p: nat): (f: nat)
    requires i <= p <= |evs|
    ensures i <= f <= p
    ensures f == i || IsBoundary(evs[f - 1])
    ensures forall q :: f <= q < p ==> !IsBoundary(evs[q])
    decreases p
  {
    if p == i then i
    else if IsBoundary(evs[p - 1]) then p
    else FrameStart(evs, i, p - 1)
  }

  /** The event at p closes a frame in which all four slots were reported. */
  predicate ClosesFrame(evs: seq<Read>, i: nat, p: nat)
    requires i <= p < |evs|
  {
    IsBoundary(evs[p]) && Full(SlotsOf(evs[FrameStart(evs, i, p)..p]))
  }

  /** The read that started at i ends at p. */
  predicate Stops(evs: seq<Read>, i: nat, p: nat)
    requires i <= p < |evs|
  {
    IsButton(evs[p]) || ClosesFrame(evs, i, p)
  }

  /** No event in [i, j) ends the read that started at i. */
  predicate Quiet(evs: seq<Read>, i: nat, j: nat)
    requires i <= j <= |evs|
  {
    forall q :: i <= q < j ==> !Stops(evs, i, q)
  }

  /** The specified outcome of a read starting at i: it ends at the first
      event that is a button press or a boundary closing a complete frame;
      a measurement is the sum of the latest four values of that frame. */
  predicate FrameOutcome(evs: seq<Read>, i: nat, res: Raw)
    requires i <= |evs|
  {
    match res
    case Measured(s, n) =>
      && i < n <= |evs|
      && Quiet(evs, i, n - 1)
      && ClosesFrame(evs, i, n - 1)
      && s == SlotSum(SlotsOf(evs[FrameStart(evs, i, n - 1)..n - 1]))
    case Aborted =>
      exists p :: i <= p < |evs| && Quiet(evs, i, p) && IsButton(evs[p])
    case Blocked =>
      Quiet(evs, i, |evs|)
  }

  lemma SlotsOfEmpty()
    ensures SlotsOf([]) == Empty
  {
  }

  /** Recording one more read extends the frame's description by that read
      (reads whose code is not an axis code leave it unchanged). */
  lemma SlotsOfSnoc(seg: seq<Read>, r: Read)
    ensures SlotsOf(seg + [r]) == Record(SlotsOf(seg), r)
  {
    assert (seg + [r])[..|seg|] == seg;
  }

  /** While nothing has ended the read, the buffer holds exactly the latest
      values of the open frame: nothing from an earlier frame survives. */
  lemma {:induction false} Progress(evs: seq<Read>, i: nat, j: nat)
    requires i <= j <= |evs| && Quiet(evs, i, j)
    ensures Assemble(evs, i, Empty) == Assemble(evs, j, SlotsOf(evs[FrameStart(evs, i, j)..j]))
  {
    if j == i {
      assert evs[i..i] == [];
      SlotsOfEmpty();
    } else {
      Progress(evs, i, j - 1);
      var f := FrameStart(evs, i, j - 1);
      var b := SlotsOf(evs[f..j - 1]);
      assert !Stops(evs, i, j - 1);
      if IsBoundary(evs[j - 1]) {
        assert Feed(b, evs[j - 1]) == Continue(Empty);
        assert evs[j..j] == [];
        SlotsOfEmpty();
      } else {
        assert evs[f..j] == evs[f..j - 1] + [evs[j - 1]];
        SlotsOfSnoc(evs[f..j - 1], evs[j - 1]);
      }
    }
  }

  lemma {:induction false} ScanFrom(evs: seq<Read>, i: nat, j: nat)
    requires i <= j <= |evs| && Quiet(evs, i, j)
    ensures FrameOutcome(evs, i, Assemble(evs, i, Empty))
    decreases |evs| - j
  {
    Progress(evs, i, j);
    var b := SlotsOf(evs[FrameStart(evs, i, j)..j]);
    if j < |evs| {
      if IsButton(evs[j]) {
        assert Assemble(evs, j, b) == Aborted;
      } else if ClosesFrame(evs, i, j) {
        assert Assemble(evs, j, b) == Measured(SlotSum(b), j + 1);
      } else {
        assert Quiet(evs, i, j + 1);
        ScanFrom(evs, i, j + 1);
      }
    }
  }

  /** The read loop meets its reference description. */
  lemma AssembleMeetsFrameOutcome(evs: seq<Read>, i: nat)
    requires i <= |evs|
    ensures FrameOutcome(evs, i, Assemble(evs, i, Empty))
  {
    ScanFrom(evs, i, i);
  }

  /** The reference description determines the outcome. */
  lemma FrameOutcomeUnique(evs: seq<Read>, i: nat, r1: Raw, r2: Raw)
    requires i <= |evs|
    requires FrameOutcome(evs, i, r1) && FrameOutcome(evs, i, r2)
    ensures r1 == r2
  {
    AssembleMeetsFrameOutcome(evs, i);
    FirstStopIsAssemble(evs, i, r1);
    FirstStopIsAssemble(evs, i, r2);
  }

  lemma FirstStopIsAssemble(evs: seq<Read>, i: nat, r: Raw)
    requires i <= |evs| && FrameOutcome(evs, i, r)
    ensures r == Assemble(evs, i, Empty)
  {
    var a := Assemble(evs, i, Empty);
    AssembleMeetsFrameOutcome(evs, i);
    // Both r and a end at a stopping position, and neither has a stop before it.
    var pr := StopPosition(evs, i, r);
    var pa := StopPosition(evs, i, a);
    SameStop(evs, i, pr, pa);
  }

  /** Two positions that are each the first stop (or the end) coincide. */
  lemma SameStop(evs: seq<Read>, i: nat, p1: nat, p2: nat)
    requires i <= p1 <= |evs| && i <= p2 <= |evs|
    requires Quiet(evs, i, p1) && (p1 < |evs| ==> Stops(evs, i, p1))
    requires Quiet(evs, i, p2) && (p2 < |evs| ==> Stops(evs, i, p2))
    ensures p1 == p2
  {
  }

  /** The position at which an outcome says the read ended (|evs| if it never ended). */
  lemma StopPosition(evs: seq<Read>, i: nat, r: Raw) returns (p: nat)
    requires i <= |evs| && FrameOutcome(evs, i, r)
    ensures i <= p <= |evs| && Quiet(evs, i, p)
    ensures r.Blocked? <==> p == |evs|
    ensures p < |evs| ==> Stops(evs, i, p)
    ensures r.Aborted? ==> p < |evs| && IsButton(evs[p])
    ensures r.Measured? ==> p == r.next - 1 && ClosesFrame(evs, i, p)
  {
    match r
    case Measured(s, n) => p := n - 1;
    case Aborted => p :| i <= p < |evs| && Quiet(evs, i, p) && IsButton(evs[p]);
    case Blocked => p := |evs|;
  }

  /** The button ends the read with an abort whatever its value and whatever
      the buffer holds, provided nothing ended the read before it. */
  lemma ButtonAborts(evs: seq<Read>, i: nat, p: nat)
    requires i <= p < |evs| && Quiet(evs, i, p) && IsButton(evs[p])
    ensures Assemble(evs, i, Empty) == Aborted
  {
    FirstStopIsAssemble(evs, i, Aborted);
  }

  /** A boundary that finds a slot unset discards the frame: the read goes
      on exactly as if it had started after that boundary. */
  lemma IncompleteFrameDiscarded(evs: seq<Read>, i: nat, p: nat)
    requires i <= p < |evs| && IsBoundary(evs[p]) && Quiet(evs, i, p + 1)
    ensures Assemble(evs, i, Empty) == Assemble(evs, p + 1, Empty)
  {
    Progress(evs, i, p + 1);
    assert evs[p + 1..p + 1] == [];
    SlotsOfEmpty();
  }

  /** Rewrites the type of every event, keeping codes and values. */
  function Retyped(evs: seq<Read>, t: int): (out: seq<Read>)
    ensures |out| == |evs|
  {
    seq(|evs|, k requires 0 <= k < |evs| =>
      if evs[k].Some? then Some(evs[k].value.(etype := t)) else None)
  }

  /** Dispatch never looks at the event type: any event with code 0 and
      value 0 closes a frame, whatever its type. */
  lemma {:induction false} TypeIsIgnored(evs: seq<Read>, t: int, j: nat, buf: Slots)
    requires j <= |evs|
    ensures Assemble(Retyped(evs, t), j, buf) == Assemble(evs, j, buf)
    decreases |evs| - j
  {
    if j < |evs| {
      var r := evs[j];
      var r' := Retyped(evs, t)[j];
      assert Feed(buf, r') == Feed(buf, r);
      match Feed(buf, r)
      case Continue(b) => TypeIsIgnored(evs, t, j + 1, b);
      case Emit(_) =>
      case Abort =>
    }
  }
}
