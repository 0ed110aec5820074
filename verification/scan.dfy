/** The acquisition loop as a trace of observable events: drive-line
    changes, delays, and the record lines handed to the transport.

    The two inputs the loop cannot see are parameters: `adc(t)` is the value
    the ADC returns on the t-th read since start-up, and `sink(t)` is the
    result the transport reports for the t-th send. Reads and sends pair up
    one to one, so a single counter indexes both. */
module Scan {
  import opened Electrodes
  import opened Schedule
  import opened Codec

  /** Delay after exciting a pair, before the first reading, in ms. */
  const SettleMs: nat := 100

  /** Delay after releasing a pair, before the next one, in ms. */
  const RestMs: nat := 500

  datatype Event =
      /** Output configuration of one drive line; `ok` is the logged result. */
    | Configure(electrode: nat, ok: bool)
    | SetLevel(electrode: nat, level: Level)
    | Delay(ms: nat)
      /** The line Encode(rec) handed to the transport; `ok` is the logged result. */
    | Send(rec: Record, ok: bool)

  // ---------------------------------------------------------------------
  // One pass of the scan

  /** Sense electrodes k, k + 1, ..., n - 1 other than i and j: read the ADC
      and send the record at once, one read per sent line. */
  function SweepFrom(n: nat, i: nat, j: nat, k: nat, adc: nat -> Int32, sink: nat -> bool, t: nat): seq<Event>
    decreases n - k
  {
    if k >= n then []
    else if k != i && k != j then
      [Send(Record(i, j, k, adc(t)), sink(t))] + SweepFrom(n, i, j, k + 1, adc, sink, t + 1)
    else
      SweepFrom(n, i, j, k + 1, adc, sink, t)
  }

  /** Excite the pair, settle, sweep, release both lines, rest. */
  function PairTrace(n: nat, q: Pair, adc: nat -> Int32, sink: nat -> bool, t: nat): seq<Event>
  {
    [SetLevel(q.i, High), SetLevel(q.j, Low), Delay(SettleMs)]
    + SweepFrom(n, q.i, q.j, 0, adc, sink, t)
    + [SetLevel(q.i, Low), SetLevel(q.j, Low), Delay(RestMs)]
  }

  function BlocksTrace(n: nat, ps: seq<Pair>, adc: nat -> Int32, sink: nat -> bool, t: nat): seq<Event>
    decreases |ps|
  {
    if ps == [] then []
    else PairTrace(n, ps[0], adc, sink, t) + BlocksTrace(n, ps[1..], adc, sink, t + |SenseOrder(n, ps[0].i, ps[0].j)|)
  }

  /** One pass of the outer loop, starting at read number t0. */
  function CycleTrace(v: InnerStart, n: nat, adc: nat -> Int32, sink: nat -> bool, t0: nat): seq<Event>
  {
    BlocksTrace(n, Pairs(v, n), adc, sink, t0)
  }

  /** The first c passes of the endless outer loop. */
  function Run(v: InnerStart, n: nat, adc: nat -> Int32, sink: nat -> bool, c: nat): seq<Event>
    decreases c
  {
    if c == 0 then [] else Run(v, n, adc, sink, c - 1) + CycleTrace(v, n, adc, sink, (c - 1) * |Slots(v, n)|)
  }

  /** The start-up loop: configure each line as an output, log the result,
      and drive it low, whatever the configuration call returned. */
  function InitFrom(n: nat, e: nat, dirOk: nat -> bool): seq<Event>
    decreases n - e
  {
    if e >= n then [] else [Configure(e, dirOk(e)), SetLevel(e, Low)] + InitFrom(n, e + 1, dirOk)
  }

  function InitTrace(n: nat, dirOk: nat -> bool): seq<Event>
  {
    InitFrom(n, 0, dirOk)
  }

  /** Start-up followed by the first c passes; the program as written is
      v == Doubled. */
  function AppTrace(v: InnerStart, n: nat, dirOk: nat -> bool, adc: nat -> Int32, sink: nat -> bool, c: nat): seq<Event>
  {
    InitTrace(n, dirOk) + Run(v, n, adc, sink, c)
  }

  /** The sensing loop for one pair: each reading is sent before the next
      electrode is read. Returns the events and the next read number. */
  method Sweep(n: nat, i: nat, j: nat, adc: nat -> Int32, sink: nat -> bool, t0: nat)
    returns (events: seq<Event>, t: nat)
    ensures events == SweepFrom(n, i, j, 0, adc, sink, t0)
    ensures t == t0 + |SenseOrder(n, i, j)|
  {
    events := [];
    t := t0;
    var k := 0;
    while k < n
      invariant events + SweepFrom(n, i, j, k, adc, sink, t) == SweepFrom(n, i, j, 0, adc, sink, t0)
      invariant t - t0 + |SenseFrom(n, i, j, k)| == |SenseOrder(n, i, j)|
      decreases n - k
    {
      if k != i && k != j {
        var value := adc(t);
        events := events + [Send(Record(i, j, k, value), sink(t))];
        t := t + 1;
      }
      k := k + 1;
    }
  }

  lemma BlocksStep(n: nat, q: Pair, rest: seq<Pair>, adc: nat -> Int32, sink: nat -> bool, t: nat)
    ensures BlocksTrace(n, [q] + rest, adc, sink, t)
      == PairTrace(n, q, adc, sink, t) + BlocksTrace(n, rest, adc, sink, t + |SenseOrder(n, q.i, q.j)|)
    ensures |SlotsOf(n, [q] + rest)| == |SenseOrder(n, q.i, q.j)| + |SlotsOf(n, rest)|
  {
    assert ([q] + rest)[0] == q && ([q] + rest)[1..] == rest;
    SlotsOfConcat(n, [q], rest);
  }

  lemma {:induction false} BlocksConcat(n: nat, a: seq<Pair>, b: seq<Pair>, adc: nat -> Int32, sink: nat -> bool, t: nat)
    ensures BlocksTrace(n, a + b, adc, sink, t)
      == BlocksTrace(n, a, adc, sink, t) + BlocksTrace(n, b, adc, sink, t + |SlotsOf(n, a)|)
    decreases |a|
  {
    if a == [] {
      assert a + b == b;
    } else {
      var q, r := a[0], a[1..];
      var d := |SenseOrder(n, q.i, q.j)|;
      var head := PairTrace(n, q, adc, sink, t);
      assert BlocksTrace(n, a + b, adc, sink, t) == head + BlocksTrace(n, r + b, adc, sink, t + d) by {
        assert a + b == [q] + (r + b);
        BlocksStep(n, q, r + b, adc, sink, t);
      }
      assert BlocksTrace(n, a, adc, sink, t) == head + BlocksTrace(n, r, adc, sink, t + d)
              && |SlotsOf(n, a)| == d + |SlotsOf(n, r)| by {
        assert a == [q] + r;
        BlocksStep(n, q, r, adc, sink, t);
      }
      BlocksConcat(n, r, b, adc, sink, t + d);
      var mid := BlocksTrace(n, r, adc, sink, t + d);
      var tail := BlocksTrace(n, b, adc, sink, t + |SlotsOf(n, a)|);
      SeqAssoc(head, mid, tail);
    }
  }

  /** Moving one finished piece from the remainder to the done prefix. */
  lemma ConcatStep<T>(done: seq<T>, todo: seq<T>, piece: seq<T>, later: seq<T>, whole: seq<T>)
    requires done + todo == whole && todo == piece + later
    ensures (done + piece) + later == whole
  {
    SeqAssoc(done, piece, later);
  }

  lemma SeqAssoc<T>(x: seq<T>, y: seq<T>, z: seq<T>)
    ensures x + (y + z) == (x + y) + z
  {
  }

  /** The block of pair (i, j) heads what remains of row i. */
  lemma RowStep(n: nat, i: nat, j: nat, adc: nat -> Int32, sink: nat -> bool, t: nat, block: seq<Event>, t': nat)
    requires j < n
    requires block == PairTrace(n, Pair(i, j), adc, sink, t)
    requires t' == t + |SenseOrder(n, i, j)|
    ensures BlocksTrace(n, RowFrom(i, j, n), adc, sink, t) == block + BlocksTrace(n, RowFrom(i, j + 1, n), adc, sink, t')
    ensures |SlotsOf(n, RowFrom(i, j, n))| == |SenseOrder(n, i, j)| + |SlotsOf(n, RowFrom(i, j + 1, n))|
  {
    assert RowFrom(i, j, n) == [Pair(i, j)] + RowFrom(i, j + 1, n);
    BlocksStep(n, Pair(i, j), RowFrom(i, j + 1, n), adc, sink, t);
  }

  /** The inner pair loop for row i: excite (i, j) for each j from the
      row's start up to n - 1. */
  method ScanRow(n: nat, i: nat, start: nat, adc: nat -> Int32, sink: nat -> bool, t0: nat)
    returns (events: seq<Event>, t: nat)
    ensures events == BlocksTrace(n, RowFrom(i, start, n), adc, sink, t0)
    ensures t == t0 + |SlotsOf(n, RowFrom(i, start, n))|
  {
    events := [];
    t := t0;
    var j := start;
    while j < n
      invariant events + BlocksTrace(n, RowFrom(i, j, n), adc, sink, t) == BlocksTrace(n, RowFrom(i, start, n), adc, sink, t0)
      invariant t + |SlotsOf(n, RowFrom(i, j, n))| == t0 + |SlotsOf(n, RowFrom(i, start, n))|
      decreases n - j
    {
      var sweep, t' := Sweep(n, i, j, adc, sink, t);
      var block := [SetLevel(i, High), SetLevel(j, Low), Delay(SettleMs)]
        + sweep
        + [SetLevel(i, Low), SetLevel(j, Low), Delay(RestMs)];
      RowStep(n, i, j, adc, sink, t, block, t');
      ConcatStep(events, BlocksTrace(n, RowFrom(i, j, n), adc, sink, t), block,
                 BlocksTrace(n, RowFrom(i, j + 1, n), adc, sink, t'), BlocksTrace(n, RowFrom(i, start, n), adc, sink, t0));
      events := events + block;
      t := t';
      j := j + 1;
    }
  }

  /** Rows i to n - 1 are row i followed by rows i + 1 to n - 1. */
  lemma PairsFromBlocks(v: InnerStart, n: nat, i: nat, adc: nat -> Int32, sink: nat -> bool, t: nat)
    requires i < n
    ensures var row := RowFrom(i, JStart(v, i), n);
      && BlocksTrace(n, PairsFrom(v, n, i), adc, sink, t)
         == BlocksTrace(n, row, adc, sink, t) + BlocksTrace(n, PairsFrom(v, n, i + 1), adc, sink, t + |SlotsOf(n, row)|)
      && |SlotsOf(n, PairsFrom(v, n, i))| == |SlotsOf(n, row)| + |SlotsOf(n, PairsFrom(v, n, i + 1))|
  {
    var row := RowFrom(i, JStart(v, i), n);
    var rest := PairsFrom(v, n, i + 1);
    var ps := PairsFrom(v, n, i);
    assert ps == row + rest;
    assert BlocksTrace(n, ps, adc, sink, t)
        == BlocksTrace(n, row, adc, sink, t) + BlocksTrace(n, rest, adc, sink, t + |SlotsOf(n, row)|) by {
      BlocksConcat(n, row, rest, adc, sink, t);
    }
    assert |SlotsOf(n, ps)| == |SlotsOf(n, row)| + |SlotsOf(n, rest)| by {
      SlotsOfConcat(n, row, rest);
    }
  }

  /** One row of the outer loop moves from the remaining pairs to the
      finished trace. */
  lemma CycleStep(v: InnerStart, n: nat, adc: nat -> Int32, sink: nat -> bool, t0: nat, i: nat,
                  trace: seq<Event>, t: nat, events: seq<Event>, t': nat)
    requires i < n
    requires trace + BlocksTrace(n, PairsFrom(v, n, i), adc, sink, t) == CycleTrace(v, n, adc, sink, t0)
    requires t + |SlotsOf(n, PairsFrom(v, n, i))| == t0 + |Slots(v, n)|
    requires events == BlocksTrace(n, RowFrom(i, JStart(v, i), n), adc, sink, t)
    requires t' == t + |SlotsOf(n, RowFrom(i, JStart(v, i), n))|
    ensures (trace + events) + BlocksTrace(n, PairsFrom(v, n, i + 1), adc, sink, t') == CycleTrace(v, n, adc, sink, t0)
    ensures t' + |SlotsOf(n, PairsFrom(v, n, i + 1))| == t0 + |Slots(v, n)|
  {
    var restTrace := BlocksTrace(n, PairsFrom(v, n, i + 1), adc, sink, t');
    PairsFromBlocks(v, n, i, adc, sink, t);
    ConcatStep(trace, BlocksTrace(n, PairsFrom(v, n, i), adc, sink, t), events, restTrace, CycleTrace(v, n, adc, sink, t0));
  }

  /** The outer pair loop of one pass: row after row, j starting at
      JStart(v, i). */
  method ScanCycle(v: InnerStart, n: nat, adc: nat -> Int32, sink: nat -> bool, t0: nat)
    returns (trace: seq<Event>, t: nat)
    ensures trace == CycleTrace(v, n, adc, sink, t0)
    ensures t == t0 + |Slots(v, n)|
  {
    trace := [];
    t := t0;
    var i := 0;
    assert trace + CycleTrace(v, n, adc, sink, t0) == CycleTrace(v, n, adc, sink, t0);
    while i < n
      invariant trace + BlocksTrace(n, PairsFrom(v, n, i), adc, sink, t) == CycleTrace(v, n, adc, sink, t0)
      invariant t + |SlotsOf(n, PairsFrom(v, n, i))| == t0 + |Slots(v, n)|
      decreases n - i
    {
      var row := RowFrom(i, JStart(v, i), n);
      var events, t' := ScanRow(n, i, JStart(v, i), adc, sink, t);
      CycleStep(v, n, adc, sink, t0, i, trace, t, events, t');
      trace := trace + events;
      t := t';
      i := i + 1;
    }
  }

  // ---------------------------------------------------------------------
  // What is sent

  /** The records handed to the transport, in order. */
  function Sent(trace: seq<Event>): seq<Record>
    decreases |trace|
  {
    if trace == [] then []
    else (if trace[0].Send? then [trace[0].rec] else []) + Sent(trace[1..])
  }

  /** The slots of a pass, filled with consecutive readings from read number t. */
  function Fill(ss: seq<Slot>, adc: nat -> Int32, t: nat): seq<Record>
  {
    seq(|ss|, x requires 0 <= x < |ss| => Record(ss[x].i, ss[x].j, ss[x].k, adc(t + x)))
  }

  lemma {:induction false} SentConcat(a: seq<Event>, b: seq<Event>)
    ensures Sent(a + b) == Sent(a) + Sent(b)
    decreases |a|
  {
    if a == [] {
      assert a + b == b;
    } else {
      assert (a + b)[0] == a[0];
      assert (a + b)[1..] == a[1..] + b;
      SentConcat(a[1..], b);
    }
  }

  lemma {:induction false} SentOfSends(trace: seq<Event>)
    requires forall x :: 0 <= x < |trace| ==> trace[x].Send?
    ensures Sent(trace) == seq(|trace|, x requires 0 <= x < |trace| => trace[x].rec)
    decreases |trace|
  {
    if trace != [] {
      SentOfSends(trace[1..]);
    }
  }

  lemma {:induction false} SentNoSends(trace: seq<Event>)
    requires forall x :: 0 <= x < |trace| ==> !trace[x].Send?
    ensures Sent(trace) == []
    decreases |trace|
  {
    if trace != [] {
      SentNoSends(trace[1..]);
    }
  }

  lemma FillConcat(a: seq<Slot>, b: seq<Slot>, adc: nat -> Int32, t: nat)
    ensures Fill(a + b, adc, t) == Fill(a, adc, t) + Fill(b, adc, t + |a|)
  {
  }

  /** The sweep of (i, j) from electrode k on: one Send per sensed electrode,
      in sensing order, carrying consecutive readings. */
  lemma {:induction false} SweepShape(n: nat, i: nat, j: nat, k: nat, adc: nat -> Int32, sink: nat -> bool, t: nat)
    ensures |SweepFrom(n, i, j, k, adc, sink, t)| == |SenseFrom(n, i, j, k)|
    ensures forall x :: 0 <= x < |SweepFrom(n, i, j, k, adc, sink, t)| ==>
      SweepFrom(n, i, j, k, adc, sink, t)[x] == Send(Record(i, j, SenseFrom(n, i, j, k)[x], adc(t + x)), sink(t + x))
    decreases n - k
  {
    if k < n {
      if k != i && k != j {
        SweepShape(n, i, j, k + 1, adc, sink, t + 1);
      } else {
        SweepShape(n, i, j, k + 1, adc, sink, t);
      }
    }
  }

  lemma PairSent(n: nat, q: Pair, adc: nat -> Int32, sink: nat -> bool, t: nat)
    ensures Sent(PairTrace(n, q, adc, sink, t)) == Fill(PairSlots(n, q), adc, t)
  {
    var sweep := SweepFrom(n, q.i, q.j, 0, adc, sink, t);
    var open := [SetLevel(q.i, High), SetLevel(q.j, Low), Delay(SettleMs)];
    var close := [SetLevel(q.i, Low), SetLevel(q.j, Low), Delay(RestMs)];
    SentConcat(open + sweep, close);
    SentConcat(open, sweep);
    SentNoSends(open);
    SentNoSends(close);
    SweepShape(n, q.i, q.j, 0, adc, sink, t);
    SentOfSends(sweep);
  }

  lemma {:induction false} BlocksSent(n: nat, ps: seq<Pair>, adc: nat -> Int32, sink: nat -> bool, t: nat)
    ensures Sent(BlocksTrace(n, ps, adc, sink, t)) == Fill(SlotsOf(n, ps), adc, t)
    decreases |ps|
  {
    if ps != [] {
      var q := ps[0];
      var t' := t + |SenseOrder(n, q.i, q.j)|;
      BlocksSent(n, ps[1..], adc, sink, t');
      PairSent(n, q, adc, sink, t);
      SentConcat(PairTrace(n, q, adc, sink, t), BlocksTrace(n, ps[1..], adc, sink, t'));
      FillConcat(PairSlots(n, q), SlotsOf(n, ps[1..]), adc, t);
    }
  }

  /** A pass sends one record per reading of its schedule, in schedule order,
      and the x-th record carries the x-th reading of the pass: no record is
      retried or skipped, whatever the transport reports. */
  lemma CycleSendsEachReadingOnce(v: InnerStart, n: nat, adc: nat -> Int32, sink: nat -> bool, t0: nat)
    ensures Sent(CycleTrace(v, n, adc, sink, t0)) == Fill(Slots(v, n), adc, t0)
    ensures |Sent(CycleTrace(v, n, adc, sink, t0))| == |Slots(v, n)|
    ensures forall x :: 0 <= x < |Slots(v, n)| ==>
      Sent(CycleTrace(v, n, adc, sink, t0))[x] ==
      Record(Slots(v, n)[x].i, Slots(v, n)[x].j, Slots(v, n)[x].k, adc(t0 + x))
  {
    BlocksSent(n, Pairs(v, n), adc, sink, t0);
  }

  /** Every sent record names electrodes of the array and a sensed electrode
      outside its excitation pair, and with sixteen electrodes its line fits
      the 256-byte buffer. */
  lemma SentRecordsWellFormed(v: InnerStart, n: nat, adc: nat -> Int32, sink: nat -> bool, t0: nat)
    ensures forall r :: r in Sent(CycleTrace(v, n, adc, sink, t0)) ==>
      0 <= r.i < n && 0 <= r.j < n && 0 <= r.k < n && r.k != r.i && r.k != r.j
    ensures n <= N ==> forall r :: r in Sent(CycleTrace(v, n, adc, sink, t0)) ==> |Encode(r)| + 1 <= BufferSize
  {
    CycleSendsEachReadingOnce(v, n, adc, sink, t0);
    SlotsOrderedAndExact(v, n);
    var rs := Sent(CycleTrace(v, n, adc, sink, t0));
    var ss := Slots(v, n);
    forall r | r in rs
      ensures 0 <= r.i < n && 0 <= r.j < n && 0 <= r.k < n && r.k != r.i && r.k != r.j
      ensures n <= N ==> |Encode(r)| + 1 <= BufferSize
    {
      var x :| 0 <= x < |rs| && rs[x] == r;
      assert ss[x] in ss;
      if n <= N {
        EncodeFitsBuffer(r);
      }
    }
  }

  // ---------------------------------------------------------------------
  // The schedule repeats

  /** What the loop does, without the values it reads or the results the
      transport reports. */
  datatype Step = Setup(electrode: nat) | Set(electrode: nat, level: Level) | Wait(ms: nat) | Emit(i: int, j: int, k: int)

  function StepOf(e: Event): Step
  {
    match e
    case Configure(el, _) => Setup(el)
    case SetLevel(el, lv) => Set(el, lv)
    case Delay(ms) => Wait(ms)
    case Send(r, _) => Emit(r.i, r.j, r.k)
  }

  function Control(trace: seq<Event>): seq<Step>
  {
    seq(|trace|, x requires 0 <= x < |trace| => StepOf(trace[x]))
  }

  function Repeat<T>(s: seq<T>, c: nat): seq<T>
    decreases c
  {
    if c == 0 then [] else Repeat(s, c - 1) + s
  }

  lemma ControlConcat(a: seq<Event>, b: seq<Event>)
    ensures Control(a + b) == Control(a) + Control(b)
  {
  }

  lemma PairControl(n: nat, q: Pair, adc: nat -> Int32, sink: nat -> bool, t: nat,
                    adc': nat -> Int32, sink': nat -> bool, t': nat)
    ensures Control(PairTrace(n, q, adc, sink, t)) == Control(PairTrace(n, q, adc', sink', t'))
  {
    var s := SweepFrom(n, q.i, q.j, 0, adc, sink, t);
    var s' := SweepFrom(n, q.i, q.j, 0, adc', sink', t');
    SweepShape(n, q.i, q.j, 0, adc, sink, t);
    SweepShape(n, q.i, q.j, 0, adc', sink', t');
    assert Control(s) == Control(s');
    var open := [SetLevel(q.i, High), SetLevel(q.j, Low), Delay(SettleMs)];
    var close := [SetLevel(q.i, Low), SetLevel(q.j, Low), Delay(RestMs)];
    ControlConcat(open + s, close);
    ControlConcat(open, s);
    ControlConcat(open + s', close);
    ControlConcat(open, s');
  }

  lemma {:induction false} BlocksControl(n: nat, ps: seq<Pair>, adc: nat -> Int32, sink: nat -> bool, t: nat,
                                         adc': nat -> Int32, sink': nat -> bool, t': nat)
    ensures Control(BlocksTrace(n, ps, adc, sink, t)) == Control(BlocksTrace(n, ps, adc', sink', t'))
    decreases |ps|
  {
    if ps != [] {
      var q := ps[0];
      var d := |SenseOrder(n, q.i, q.j)|;
      BlocksControl(n, ps[1..], adc, sink, t + d, adc', sink', t' + d);
      PairControl(n, q, adc, sink, t, adc', sink', t');
      ControlConcat(PairTrace(n, q, adc, sink, t), BlocksTrace(n, ps[1..], adc, sink, t + d));
      ControlConcat(PairTrace(n, q, adc', sink', t'), BlocksTrace(n, ps[1..], adc', sink', t' + d));
    }
  }

  /** The drives, delays and the (i, j, k) of every send of a pass do not
      depend on the readings, on what the transport reports, or on which
      pass it is. */
  lemma CycleScheduleFixed(v: InnerStart, n: nat, adc: nat -> Int32, sink: nat -> bool, t0: nat,
                           adc': nat -> Int32, sink': nat -> bool, t0': nat)
    ensures Control(CycleTrace(v, n, adc, sink, t0)) == Control(CycleTrace(v, n, adc', sink', t0'))
  {
    BlocksControl(n, Pairs(v, n), adc, sink, t0, adc', sink', t0');
  }

  lemma {:induction false} RepeatLength<T>(s: seq<T>, c: nat)
    ensures |Repeat(s, c)| == c * |s|
    decreases c
  {
    if c > 0 {
      RepeatLength(s, c - 1);
      assert c * |s| == (c - 1) * |s| + |s|;
    }
  }

  /** Pass after pass the loop repeats the first pass's schedule: the drives,
      delays and (i, j, k) of the first c passes are those of the first pass
      repeated c times. */
  lemma {:induction false} RunRepeatsSchedule(v: InnerStart, n: nat, adc: nat -> Int32, sink: nat -> bool, c: nat)
    ensures Control(Run(v, n, adc, sink, c)) == Repeat(Control(CycleTrace(v, n, adc, sink, 0)), c)
    decreases c
  {
    if c > 0 {
      var t0 := (c - 1) * |Slots(v, n)|;
      var prev := Run(v, n, adc, sink, c - 1);
      var cycle := CycleTrace(v, n, adc, sink, t0);
      var first := Control(CycleTrace(v, n, adc, sink, 0));
      assert Run(v, n, adc, sink, c) == prev + cycle;
      assert Control(prev) == Repeat(first, c - 1) by {
        RunRepeatsSchedule(v, n, adc, sink, c - 1);
      }
      assert Control(cycle) == first by {
        CycleScheduleFixed(v, n, adc, sink, t0, adc, sink, 0);
      }
      ControlConcat(prev, cycle);
    }
  }

  /** The records of the first c passes are the slot order repeated c times,
      filled with the readings in the order they were taken. */
  lemma {:induction false} RunSendsReadings(v: InnerStart, n: nat, adc: nat -> Int32, sink: nat -> bool, c: nat)
    ensures Sent(Run(v, n, adc, sink, c)) == Fill(Repeat(Slots(v, n), c), adc, 0)
    decreases c
  {
    if c > 0 {
      var ss := Slots(v, n);
      var t0 := (c - 1) * |ss|;
      var prev := Run(v, n, adc, sink, c - 1);
      var cycle := CycleTrace(v, n, adc, sink, t0);
      var before := Repeat(ss, c - 1);
      assert Run(v, n, adc, sink, c) == prev + cycle;
      assert Sent(prev) == Fill(before, adc, 0) by {
        RunSendsReadings(v, n, adc, sink, c - 1);
      }
      assert Sent(cycle) == Fill(ss, adc, t0) by {
        CycleSendsEachReadingOnce(v, n, adc, sink, t0);
      }
      assert |before| == t0 by {
        RepeatLength(ss, c - 1);
      }
      SentConcat(prev, cycle);
      FillConcat(before, ss, adc, 0);
    }
  }
}
