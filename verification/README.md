# ERT-demo acquisition loop, modelled in Dafny

The firmware drives an array of sixteen electrodes for electrical
resistance tomography. At start-up it configures each electrode's GPIO line
as an output and drives it low. Then it loops forever. For each pair
(i, j) the nested loops visit (j starts at i + i; see below), it drives
electrode i high and electrode j low, waits 100 ms, and reads the ADC once
for every other electrode k. Each reading is sent at once as the text line
`i,j,k,value\n`. The firmware then drives i and j low again and waits
500 ms.

The model is a pure trace semantics of that loop:

- `Electrodes` holds the electrode count, the pin table and the drive level
  of each line.
- `Schedule` holds the pair enumeration and the sense sweep. The start of the
  inner pair loop is a parameter: `Doubled` (`j = i + i`, as written) or
  `Successor` (`j = i + 1`). Both run through the same trace model.
- `Codec` holds the `%d,%d,%d,%d\n` record line, a decoder for it, and the
  256-byte buffer bound.
- `Scan` holds the event trace: drive changes, delays, and the records handed
  to the transport. It is built from start-up and from passes of the outer
  loop, by functions and by methods whose loops carry the invariants.
- `PinLevels` replays the trace on the drive lines. It proves which
  electrodes are high at every point and the order in which excitation,
  settling, sampling and release happen.

Two things the loop cannot see are parameters:

- `adc(t)` is the value the t-th ADC read returns. It may be any 32-bit
  `int`: the code checks no range.
- `sink(t)` is the result the transport reports for the t-th send. The code
  only logs it, and the model proves that the schedule does not depend on it.

Where the project's documentation and the code disagree, the model follows
the code:

- The documentation describes distinct pairs i < j, N(N-1)/2 = 120 per pass.
  The code starts j at `i + i`. That gives 72 pairs per pass, including
  (0, 0), and misses pairs such as (2, 3). See "## Findings".
- The documentation gives readings as 0 to 4095 (12-bit). The code neither
  checks nor clamps the value.

## Model

| member | source | states |
|---|---|---|
| Electrodes.PinTableInjective | main/main.c:8-17 | The pin table has one entry per electrode and no GPIO line serves two electrodes, so a level can be tracked per electrode index. |
| Electrodes.Drive | main/main.c:64-65 | Setting one electrode's level changes that electrode's line and leaves every other line as it was. |
| Schedule.JStart | main/main.c:63 | Definition of the first j of row i: i + i as written, i + 1 for the distinct-pair variant. No contract of its own; DoubledPairsShape, SuccessorPairsShape and AsWrittenPairsDiffer state what each start yields. |
| Schedule.RowFrom | main/main.c:63 | One run of the inner pair loop from a given j: the pairs (i, j), (i, j + 1), ..., (i, n - 1), n - j of them, and none when j >= n. |
| Schedule.Pairs | main/main.c:62-63 | Definition of one pass's visiting order, built by PairsFrom row by row: row i from JStart(i) to n - 1, rows in increasing i. It has no contract of its own; PairsOrderedAndExact and the rows below state its properties. |
| Schedule.PairsOrderedAndExact | main/main.c:62-63 | A pass visits its pairs in strictly ascending (i, j) order, never the same pair twice. It visits exactly the pairs with JStart(i) <= j < n. |
| Schedule.DoubledPairsShape | main/main.c:63 | As written, a pass visits exactly the pairs with 2i <= j < n. Every visited pair has i <= j. i == j only for (0, 0), which is visited whenever n > 0. |
| Schedule.SuccessorPairsShape | main/main.c:62-63 | With j from i + 1, a pass visits exactly i < j < n in ascending order. Every two distinct electrodes are paired exactly once, in one orientation. No electrode is paired with itself. |
| Schedule.PairCounts | main/main.c:62-63 | Pairs per pass: floor((n+1)^2/4) as written and n(n-1)/2 with j from i + 1. That is 72 and 120 for sixteen electrodes. |
| Schedule.AsWrittenPairsDiffer | main/main.c:63 | For any array of at least four electrodes, sixteen included, the as-written pair set is the distinct-pair set restricted to 2i <= j, plus (0, 0). (0, 0) is visited and (2, 3) is not. |
| Schedule.SenseOrder | main/main.c:70-71 | The electrodes the sensing loop reads for pair (i, j), in order. Every one is an electrode of the array, and neither i nor j is read. |
| Schedule.SenseOrderSpec | main/main.c:70-71 | The sweep of pair (i, j) senses every electrode other than i and j exactly once, in ascending order. That is n - 2 readings, or n - 1 when i == j. |
| Schedule.SlotsOrderedAndExact | main/main.c:62-77 | A pass reads in strictly ascending (i, j, k) order, so no reading repeats. It reads exactly the electrodes k outside each visited pair. |
| Schedule.SlotCount | main/main.c:62-77 | Readings per pass are n - 2 per visited pair, plus one for (0, 0) as written. |
| Schedule.SlotCountsSixteen | main/main.c:8 | With sixteen electrodes a pass takes 1009 readings as written and 1680 with j from i + 1. |
| Codec.IntToDec | main/main.c:74 | Definition of `%d`: a minus sign before the magnitude's digits when negative. No contract of its own; ParseIntRoundTrip and IntToDecLength state its properties. |
| Codec.Encode | main/main.c:74 | Definition of the line sprintf writes: the four `%d` fields joined by commas and ended by a newline. No contract of its own; DecodeEncode and EncodeShape state its properties. |
| Codec.NatToDec | main/main.c:74 | `%d` of a non-negative value is a non-empty string of decimal digits with no leading zero. |
| Codec.NatToDecValue | main/main.c:74 | The digits `%d` writes for a non-negative value denote that value in base ten. |
| Codec.ParseIntRoundTrip | main/main.c:74 | The `%d` text of any integer reads back to that integer, whatever non-digit text follows. |
| Codec.DecodeEncode | main/main.c:74 | Decoding the line formatted for a record gives back the same four integers. |
| Codec.EncodeShape | main/main.c:74 | A record line is digits and minus signs in four fields, with exactly three commas and a single newline, which ends it. |
| Codec.IntToDecLength | main/main.c:73 | A 32-bit `int` prints in at most eleven characters. |
| Codec.EncodeFitsBuffer | main/main.c:58 | For 32-bit fields a line is at most 48 characters, so with its NUL it always fits the 256-byte buffer that sprintf on line 74 writes into. |
| Scan.InitTrace | main/main.c:47-52 | Definition of the start-up loop: for each electrode in order, configure its line as an output, log the result, and drive it low whatever that result was. No contract of its own; InitDrivesAllLow states its effect. |
| Scan.SweepFrom | main/main.c:70-76 | Definition of the sensing loop: for each k from 0 to n - 1 other than i and j, one read, sent at once as a record. No contract of its own; SweepShape states its shape. |
| Scan.PairTrace | main/main.c:64-82 | Definition of one pair's block: drive i high, drive j low, settle, sweep, release i, release j, rest. No contract of its own; BlockLayout states its layout. |
| Scan.CycleTrace | main/main.c:62-84 | Definition of one pass: the blocks of the visited pairs in visiting order, with the read counter running on. No contract of its own; ScanCycle and the Cycle lemmas state its properties. |
| Scan.Run | main/main.c:60-85 | Definition of the first c passes of the endless loop, each pass starting at the read counter the previous one left. No contract of its own; RunRepeatsSchedule, RunSendsReadings and RunPinInvariant state its properties. |
| Scan.AppTrace | main/main.c:46-86 | Definition of the program: the start-up loop, then the first c passes of the endless loop. No contract of its own; AppPinInvariant states its properties. |
| Scan.Sweep | main/main.c:70-77 | The sensing loop emits one send per sensed electrode, in sensing order, and advances the read counter by the number of readings. |
| Scan.ScanRow | main/main.c:63-83 | The inner pair loop emits, for each j of row i, the block drive-high, drive-low, settle, sweep, release, release, rest. It advances the read counter by the row's readings. |
| Scan.ScanCycle | main/main.c:62-84 | The outer pair loop emits the blocks of every pair of the pass in visiting order and advances the read counter by the pass's readings. |
| Scan.SweepShape | main/main.c:70-76 | Each send of a sweep carries (i, j), the sensed electrode in order, and the next consecutive reading. |
| Scan.CycleSendsEachReadingOnce | main/main.c:62-84 | A pass sends exactly one record per reading of its schedule, in schedule order. The x-th record carries the x-th reading. Nothing is retried or skipped, whatever the transport reports. |
| Scan.SentRecordsWellFormed | main/main.c:70-75 | Every sent record names electrodes of the array, with k outside the excited pair. With at most sixteen electrodes its line fits the buffer. |
| Scan.CycleScheduleFixed | main/main.c:29-44 | The drives, delays and (i, j, k) of a pass depend neither on the values read nor on the send results, which are only logged, nor on which pass it is. |
| Scan.RunRepeatsSchedule | main/main.c:60-85 | The first c passes of the endless loop repeat the first pass's schedule c times. |
| Scan.RunSendsReadings | main/main.c:60-85 | The records of the first c passes are the slot order repeated c times, filled with the readings in the order they were taken. |
| PinLevels.InitDrivesAllLow | main/main.c:47-52 | Start-up leaves every line low, whatever the lines held before and whatever each direction call reported. |
| PinLevels.BlockPinSafe | main/main.c:64-82 | Within one pair's block at most electrode i is ever high. Each reading is taken with exactly {i} high, or nothing high when i == j. |
| PinLevels.BlockEndsLow | main/main.c:79-80 | Each pair's block leaves every line low again. |
| PinLevels.CyclePinInvariant | main/main.c:62-84 | Over a pass, at every point at most one electrode is high, and it is the driven electrode of a visited pair. Every reading is taken with exactly its excitation set high. The pass ends with all lines low. |
| PinLevels.RunPinInvariant | main/main.c:60-85 | The same invariant holds over any number of passes. |
| PinLevels.AppPinInvariant | main/main.c:46-86 | From start-up on, after the configuration loop, the single-source invariant and the excitation of every reading hold at every point. |
| PinLevels.BlockLayout | main/main.c:64-82 | Every pair's block is laid out as the loop orders it: i high, j low, the 100 ms settle, then sends of (i, j) with k strictly ascending, then i low, j low, the 500 ms rest. |
| PinLevels.BlockSequenced | main/main.c:64-82 | A block has the loop's layout: i driven high, j driven low, the 100 ms settle, the sends of (i, j) with k ascending, i released, j released, the 500 ms rest. So every drive-high is followed by a drive-low and the settle, the sends follow the settle back to back, and the rest follows two drive-lows. |
| PinLevels.CycleSequenced | main/main.c:62-84 | A whole pass keeps that order. |
| PinLevels.RunSequenced | main/main.c:60-85 | The order holds across pass boundaries too. |
| PinLevels.AsWrittenUnexcitedReadings | main/main.c:63-76 | As written, each pass starts with pair (0, 0). Its n - 1 readings are of electrodes 1 to n - 1. Replaying the drive lines shows no electrode high at any send of (0, 0). |

## Left out

- The ESP-IDF set-up calls `gpio_config`, `adc1_config_width` and
  `adc1_config_channel_atten` (lines 48, 54-56) have no effect the trace can
  observe. They are not modelled. The result of `gpio_set_direction` is
  kept, in the `Configure` event.
- The ADC is not modelled electrically. `adc1_get_raw` always reads the same
  channel, whichever electrode k is being sensed. The model records the
  reading against k, as the record line does.
- The HTTP client inside `send_data` is not modelled. That covers the client
  set-up, the POST, the header (written `Context-Type`), the empty URL and the
  clean-up. Only the outcome the client reports is kept, as `sink(t)`.
- The log text of `error_handler` is not modelled. Its only effect is a log
  line; the model keeps the outcome in the event.
- `vTaskDelay` timing is not modelled. The model records the requested
  milliseconds, not the division by the tick period or the scheduling of
  other tasks.
- The endless `while(1)` is modelled by its finite prefixes, the first c
  passes for every c.
- The project's documentation describes a connectivity state machine and a
  check that rejects fewer than two electrodes. Neither exists in the code,
  so neither is modelled.
- C `int` overflow of `i + i` and of the loop counters cannot happen for
  sixteen electrodes. The indices are modelled as unbounded naturals.
- Electrodes.Drive: an index outside the array is a no-op in the model. In C
  it would index past the pin table. The scan never produces such an index.
- Concurrency with other FreeRTOS tasks is not modelled.

## Findings

| source | as written | input that shows it | evidently intended | confidence | as-written member | corrected member |
|---|---|---|---|---|---|---|
| main/main.c:63 | the inner pair loop starts at `j = i + i` | N = 16: pair (2, 3) is never excited, and pair (0, 0) is, so its 15 readings are taken with no electrode high. That gives 72 pairs and 1009 readings per pass instead of 120 and 1680. | `j = i + 1`: every two distinct electrodes excited exactly once per pass | high; not executed | Schedule.AsWrittenPairsDiffer | Schedule.SuccessorPairsShape |
