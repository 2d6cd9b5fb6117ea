# Weii balance-board weighing, modelled in Dafny

This project models the weighing pipeline of the Weii GUI (`weii/weii_gui.py`).
The pipeline reads a Wii Balance Board through the Linux evdev interface and
turns the board's events into one weight. It has three stages:

1. **Frame assembly** (`get_raw_measurement`), in `frames.dfy`, module `Frames`.
   The board reports its four load sensors on the axis codes `ABS_HAT1X`,
   `ABS_HAT0X`, `ABS_HAT0Y` and `ABS_HAT1Y`. Each value fills one slot of a
   four-slot buffer as `value / 100`, and a later value overwrites the slot.
   An event with code `SYN_REPORT` and value 0 closes the frame:
   - if all four slots are set, the read returns their sum;
   - otherwise the buffer is cleared and reading goes on.

   `BTN_A` aborts the read. Empty reads and every other event are ignored.
   Dispatch looks at the event code and value only, never at the event type.
   The device is a finite sequence of reads, where `None` is an empty
   `read_one()`. `GetRawMeasurement` is the read loop, written as a `while`
   loop over a four-slot buffer. It is proved equal to the recursive `Assemble`.
   `Assemble` is in turn proved to meet `FrameOutcome`, a description by
   stream positions: the read ends at the first button press, or at the first
   boundary whose frame (the events since the previous boundary) reported all
   four axes. A measurement is the sum of the latest value of each axis in
   that frame.
2. **Sample collection** (`read_data`), in `collector.dfy`, module `Collector`.
   `ReadData` is the collection loop. It keeps its own local variables, calls
   `GetRawMeasurement` for each frame, and keeps a stuck-zero counter.
   - Below-threshold frames are skipped until collection starts; the first
     one after that ends collection.
   - Collection also stops once the list holds more than `samples` values.

   Progress messages are an append-only log of signals. The loop is proved
   against `Next` (one iteration) and `Run` (the iterations over a sequence
   of frame sums). It is applied to `Readings`, the frame sums that successive
   reads produce.
3. **Reduction** (the end of `measure_weight`), in `reduction.dfy`, module
   `Reduction`. The weight is `median(samples) + adjust`, multiplied by
   2.20462 when the unit is `"lbs"`. The median sorts the samples and takes
   the middle one, or the mean of the two middle ones. `weighing.dfy`
   (module `Weighing`) composes the stages as `measure_weight` does, with
   200 samples and threshold 20.

All arithmetic is exact (`real`), so `/ 100`, the sums and `* 2.20462` are
exact.

Two details of the code are easy to misread:
- A full collection holds `samples + 1` values (201 for the call with 200).
  This is because the loop stops when `len(data) > samples`.
- The "sensors not responding" warning is first sent on the 101st consecutive
  zero frame (the counter must exceed 100), not the 100th.

## Model

| member | source | states |
|---|---|---|
| Frames.Feed | weii/weii_gui.py:36-55 | One read: an abort exactly when the code is `BTN_A`, whatever the buffer; a sum exactly at a code-0/value-0 event with all four slots set; a reset to four unset slots at such an event with a slot unset; otherwise only the slot of the event's axis code changes, and empty reads and other codes change nothing |
| Frames.Assemble | weii/weii_gui.py:33-55 | A measurement is returned only right after a code-0/value-0 event, and at a position after where reading began |
| Frames.GetRawMeasurement | weii/weii_gui.py:33-55 | The read loop returns exactly what the recursive read returns, and its result meets the position-based description: first stop, and a sum of the latest values of the closing frame |
| Frames.AssembleMeetsFrameOutcome | weii/weii_gui.py:40-55 | The read ends at the first event that is a button press or a boundary closing a frame with all four axes reported; a measurement is the sum of the latest value ÷100 of each axis since that frame began; running dry means no such event exists |
| Frames.FrameOutcomeUnique | weii/weii_gui.py:40-55 | The position-based description determines the outcome uniquely, so it is a complete specification of the read |
| Frames.FrameStart | weii/weii_gui.py:50-53 | The open frame starts where the read began or just after a boundary, and contains no boundary |
| Frames.Progress | weii/weii_gui.py:40-53 | While nothing has ended the read, the buffer holds exactly the latest values of the open frame: values from frames discarded at a boundary never carry over |
| Frames.IncompleteFrameDiscarded | weii/weii_gui.py:50-53 | After a boundary that found a slot unset, the read continues exactly as a fresh read starting after that boundary |
| Frames.ButtonAborts | weii/weii_gui.py:48-49 | A `BTN_A` event before any completed frame aborts the read, whatever its value and whatever the buffer holds |
| Frames.TypeIsIgnored | weii/weii_gui.py:40-50 | Changing the type of every event does not change the outcome: dispatch depends on codes and values only, so any code-0/value-0 event is a frame boundary |
| Collector.Next | weii/weii_gui.py:63-84 | One loop iteration on a frame sum. A sum at or above the threshold, with the counter not past 100, is appended; the start signal is logged exactly on the first append; the loop stops on the size bound exactly when the list then holds more than `samples`. Every iteration sends at most one message, appending to those already sent. The other cases are stated by `StuckCounter` and `BelowThreshold`, the invariant by `NextKeepsGood` |
| Collector.Run | weii/weii_gui.py:62-84 | The loop over frame sums, one `Next` per sum: once the loop has ended, later sums are never read and the state stays as it is; the log only grows, by at most one message per sum. See also `RunKeepsGood`, `AboveThresholdFillsUp`, `ZeroFramesBeforeStart` |
| Collector.Readings | weii/weii_gui.py:63 | The frame sums that repeated reads from a position produce: each read consumes at least one event, so there are at most as many sums as events left |
| Collector.NextAppendsOnly | weii/weii_gui.py:75-80 | An iteration keeps the collected list or appends the frame sum, and appends only a sum at or above the threshold; earlier samples are never altered |
| Collector.StuckCounter | weii/weii_gui.py:65-73 | A zero sum increments the stuck counter and any other sum resets it to 0; once it exceeds 100 the frame is dropped, the list is unchanged and a warning is logged |
| Collector.BelowThreshold | weii/weii_gui.py:75-79 | A below-threshold sum is never appended; before the first sample it is skipped and collection continues, afterwards it ends collection with a stepped-off signal |
| Collector.NextKeepsGood | weii/weii_gui.py:62-84 | One iteration keeps the loop invariant: all samples at or above threshold, at most `samples` while collecting, exactly one start signal once the list is non-empty |
| Collector.RunKeepsGood | weii/weii_gui.py:62-84 | Over any sequence of frame sums the invariant holds and the collected list only grows by appending |
| Collector.Collected | weii/weii_gui.py:62-86 | A collection that yields samples yields 1 to `samples + 1` of them, extending the starting list and satisfying the invariant |
| Collector.ReadData | weii/weii_gui.py:58-86 | The loop returns exactly the specified collection outcome. The samples it returns number 1 to `samples + 1`, all at or above threshold, with one start signal. There are `samples + 1` exactly when it stopped on the size bound, and otherwise the last signal is "stepped off" |
| Collector.ZeroFramesBeforeStart | weii/weii_gui.py:65-79 | With a positive threshold (the program uses 20), before collection starts, k consecutive zero frames raise the counter by k, collect nothing and end nothing; each one past the 100th logs a warning |
| Collector.AboveThresholdFillsUp | weii/weii_gui.py:75-84 | Sums that all reach a positive threshold are collected in order; once the list would exceed `samples` the loop stops with the first `samples + 1` of them |
| Reduction.Sort | weii/weii_gui.py:111 | The samples in ascending order, as a permutation of them |
| Reduction.Median | weii/weii_gui.py:111 | The median lies between the smallest and the largest sample |
| Reduction.SortedUnique | weii/weii_gui.py:111 | Two sorted sequences with the same elements are equal, so the sorted order the median reads is unique |
| Reduction.MedianOfPermutation | weii/weii_gui.py:111 | The median depends only on which samples were collected, not on their order |
| Reduction.MedianOfConstant | weii/weii_gui.py:111 | A constant list of samples has that constant as its median |
| Reduction.MedianOfMajority | weii/weii_gui.py:111 | A value held by more than half of the samples is their median, in both the odd and even cases, so a minority of outliers cannot move it |
| Reduction.OneOutlierExample | weii/weii_gui.py:111-114 | 199 samples of 85.0 and one of 84.0 have median 85.0; with adjustment 1.0 the weight is 86.0 kg, or 189.59732 lbs before display rounding |
| Reduction.FinalWeight | weii/weii_gui.py:111-114 | The weight `median + adjust`, multiplied by 2.20462 exactly when the unit is "lbs": it lies in [min + adjust, max + adjust] in kilograms, that range scaled by 2.20462 in pounds; see also `UnitRoundTrip`, `OneOutlierExample` |
| Reduction.UnitRoundTrip | weii/weii_gui.py:113-114 | Dividing the pound figure by 2.20462 gives the kilogram figure; every unit other than "lbs" reports kilograms |
| Weighing.MeasureWeight | weii/weii_gui.py:106-114 | A weight exactly when collection yields samples, the button's error exactly when the button ends the reads, and the weight is the reduction of the collected samples. In kilograms it is at least threshold + adjust; in pounds at least (threshold + adjust) × 2.20462 |

## Left out

- Device discovery (`get_board_device`, scanning by name, polling every 0.5 s): operating-system I/O. `MeasureWeight` starts with the board already found.
- `device.read_one()` and `device.close()`: the device is a finite sequence of reads. When the sequence runs out, the source would keep polling forever. The model reports this as `Blocked` / `Waiting` / `StillWaiting` instead.
- The text of progress messages, `time.sleep(2)` after the stuck-sensor warning, and the messages `measure_weight` sends before and after collecting. The collector logs only its own three signals, as tags.
- The exception text for the button: the abort is the `Aborted` / `ButtonPressed` / `ButtonError` outcome.
- The `bluetoothctl` disconnect and the shell command with `{weight}` substitution: subprocess side effects.
- `fake` mode's constant sample list: a test bypass. `MedianOfConstant` gives its median.
- `WeiiThread` and `WeiiApp`: the Qt interface, the worker thread, label parsing and one-decimal formatting.
- Floating-point rounding of `/ 100`, of the sum and of `* 2.20462`: all arithmetic is exact.
- Reduction.Median: Python's `statistics.median` raises an error on an empty list. The model requires a non-empty list instead. `Collected` and `ReadData` prove that collection never yields an empty list.
- Reduction.Sort: insertion sort stands for Python's `sorted`. Only the sorted result matters, and `SortedUnique` shows it is unique.
- Collector.ReadData: `samples` is a natural number. A negative count is never passed and is not modelled.
