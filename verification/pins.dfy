/** Drive-line levels along the scan's event trace: which electrodes are
    high at every point, and the order in which excitation, settling,
    sampling and release happen. */
module PinLevels {
  import opened Electrodes
  import opened Schedule
  import opened Codec
  import opened Scan

  /** Effect of one event on the drive lines. */
  function Apply(ls: Levels, e: Event): Levels
  {
    match e
    case SetLevel(el, lv) => Drive(ls, el, lv)
    case _ => ls
  }

  /** The levels after the events of `trace`, starting from `ls`. */
  function LevelsAfter(ls: Levels, trace: seq<Event>): (r: Levels)
    ensures |r| == |ls|
    decreases |trace|
  {
    if trace == [] then ls else Apply(LevelsAfter(ls, trace[..|trace| - 1]), trace[|trace| - 1])
  }

  lemma {:induction false} LevelsAfterConcat(ls: Levels, a: seq<Event>, b: seq<Event>)
    ensures LevelsAfter(ls, a + b) == LevelsAfter(LevelsAfter(ls, a), b)
    decreases |b|
  {
    if b == [] {
      assert a + b == a;
    } else {
      assert (a + b)[..|a + b| - 1] == a + b[..|b| - 1];
      LevelsAfterConcat(ls, a, b[..|b| - 1]);
    }
  }

  lemma LevelsAfterStep(ls: Levels, trace: seq<Event>, p: nat)
    requires p < |trace|
    ensures LevelsAfter(ls, trace[..p + 1]) == Apply(LevelsAfter(ls, trace[..p]), trace[p])
  {
    assert trace[..p + 1][..p] == trace[..p];
  }

  /** The levels after the first p events of a trace that starts with every
      line low. */
  function LevelsAt(n: nat, trace: seq<Event>, p: nat): (r: Levels)
    requires p <= |trace|
    ensures |r| == n
  {
    LevelsAfter(AllLow(n), trace[..p])
  }

  /** Electrodes that should be high while a reading of `r` is taken: the
      driven electrode i, unless the same electrode was also driven low. */
  function Excited(r: Record): set<int>
  {
    if r.i != r.j then {r.i} else {}
  }

  /** At most one electrode is high, and it is one of `sources`. */
  ghost predicate AtMostOneSource(hs: set<int>, sources: set<int>)
  {
    hs <= sources && |hs| <= 1
  }

  /** The drive-line invariant of a trace that starts with every line low. */
  ghost predicate PinSafe(n: nat, trace: seq<Event>, sources: set<int>)
  {
    && (forall p :: 0 <= p <= |trace| ==> AtMostOneSource(HighSet(LevelsAt(n, trace, p)), sources))
    && (forall p :: 0 <= p < |trace| && trace[p].Send? ==> HighSet(LevelsAt(n, trace, p)) == Excited(trace[p].rec))
  }

  /** The electrodes the scan ever drives high. */
  function Sources(v: InnerStart, n: nat): set<int>
  {
    set q | q in Pairs(v, n) :: q.i as int
  }

  // ---------------------------------------------------------------------
  // One excitation block

  /** Expected levels after the first p events of the block of pair q whose
      sweep holds m reads. */
  function BlockLevels(n: nat, q: Pair, m: nat, p: nat): Levels
  {
    if p == 0 then AllLow(n)
    else if p == 1 then Drive(AllLow(n), q.i, High)
    else if p <= m + 3 then Drive(Drive(AllLow(n), q.i, High), q.j, Low)
    else AllLow(n)
  }

  lemma {:induction false} BlockLevelsAt(n: nat, q: Pair, adc: nat -> Int32, sink: nat -> bool, t: nat, p: nat)
    requires q.i < n && q.j < n
    requires p <= |PairTrace(n, q, adc, sink, t)|
    ensures LevelsAt(n, PairTrace(n, q, adc, sink, t), p)
      == BlockLevels(n, q, |SweepFrom(n, q.i, q.j, 0, adc, sink, t)|, p)
    decreases p
  {
    var b := PairTrace(n, q, adc, sink, t);
    var sweep := SweepFrom(n, q.i, q.j, 0, adc, sink, t);
    var m := |sweep|;
    var a := AllLow(n);
    if p == 0 {
      assert b[..0] == [];
    } else {
      BlockLevelsAt(n, q, adc, sink, t, p - 1);
      LevelsAfterStep(a, b, p - 1);
      var x := p - 1;
      if x == 0 {
        assert b[x] == SetLevel(q.i, High);
      } else if x == 1 {
        assert b[x] == SetLevel(q.j, Low);
      } else if x == 2 {
        assert b[x] == Delay(SettleMs);
      } else if x < m + 3 {
        SweepShape(n, q.i, q.j, 0, adc, sink, t);
        assert b[x] == sweep[x - 3];
      } else if x == m + 3 {
        assert b[x] == SetLevel(q.i, Low);
        assert Drive(Drive(Drive(a, q.i, High), q.j, Low), q.i, Low) == a;
      } else if x == m + 4 {
        assert b[x] == SetLevel(q.j, Low);
        assert Drive(a, q.j, Low) == a;
      } else {
        assert b[x] == Delay(RestMs);
      }
    }
  }

  lemma BlockHighSets(n: nat, q: Pair)
    requires q.i < n && q.j < n
    ensures HighSet(AllLow(n)) == {}
    ensures HighSet(Drive(AllLow(n), q.i, High)) == {q.i as int}
    ensures HighSet(Drive(Drive(AllLow(n), q.i, High), q.j, Low)) == if q.i != q.j then {q.i as int} else {}
  {
  }

  /** An excitation block releases both electrodes it drove: every line
      ends low again. */
  lemma BlockEndsLow(n: nat, q: Pair, adc: nat -> Int32, sink: nat -> bool, t: nat)
    requires q.i < n && q.j < n
    ensures LevelsAfter(AllLow(n), PairTrace(n, q, adc, sink, t)) == AllLow(n)
  {
    var b := PairTrace(n, q, adc, sink, t);
    assert b[..|b|] == b;
    BlockLevelsAt(n, q, adc, sink, t, |b|);
  }

  /** Within one excitation block at most electrode i is ever high, and
      each reading is taken with exactly the excited set high. */
  lemma BlockPinSafe(n: nat, q: Pair, adc: nat -> Int32, sink: nat -> bool, t: nat, sources: set<int>)
    requires q.i < n && q.j < n && q.i as int in sources
    ensures PinSafe(n, PairTrace(n, q, adc, sink, t), sources)
  {
    var b := PairTrace(n, q, adc, sink, t);
    var sweep := SweepFrom(n, q.i, q.j, 0, adc, sink, t);
    var m := |sweep|;
    BlockHighSets(n, q);
    SweepShape(n, q.i, q.j, 0, adc, sink, t);
    forall p | 0 <= p <= |b|
      ensures AtMostOneSource(HighSet(LevelsAt(n, b, p)), sources)
    {
      BlockLevelsAt(n, q, adc, sink, t, p);
    }
    forall p | 0 <= p < |b| && b[p].Send?
      ensures HighSet(LevelsAt(n, b, p)) == Excited(b[p].rec)
    {
      BlockLevelsAt(n, q, adc, sink, t, p);
      assert 3 <= p < m + 3;
      assert b[p] == sweep[p - 3];
    }
  }

  // ---------------------------------------------------------------------
  // Whole passes

  lemma PinSafeConcat(n: nat, a: seq<Event>, b: seq<Event>, sources: set<int>)
    requires PinSafe(n, a, sources) && PinSafe(n, b, sources)
    requires LevelsAfter(AllLow(n), a) == AllLow(n)
    ensures PinSafe(n, a + b, sources)
  {
    forall p | 0 <= p <= |a + b|
      ensures LevelsAt(n, a + b, p) == if p <= |a| then LevelsAt(n, a, p) else LevelsAt(n, b, p - |a|)
    {
      if p <= |a| {
        assert (a + b)[..p] == a[..p];
      } else {
        assert (a + b)[..p] == a + b[..p - |a|];
        LevelsAfterConcat(AllLow(n), a, b[..p - |a|]);
      }
    }
    forall p | 0 <= p < |a + b| && (a + b)[p].Send?
      ensures HighSet(LevelsAt(n, a + b, p)) == Excited((a + b)[p].rec)
    {
      if p >= |a| {
        assert (a + b)[p] == b[p - |a|];
      }
    }
  }

  lemma {:induction false} BlocksEndLow(n: nat, ps: seq<Pair>, adc: nat -> Int32, sink: nat -> bool, t: nat)
    requires forall q :: q in ps ==> q.i < n && q.j < n
    ensures LevelsAfter(AllLow(n), BlocksTrace(n, ps, adc, sink, t)) == AllLow(n)
    decreases |ps|
  {
    if ps == [] {
      assert BlocksTrace(n, ps, adc, sink, t) == [];
    } else {
      var q := ps[0];
      var t' := t + |SenseOrder(n, q.i, q.j)|;
      var head := PairTrace(n, q, adc, sink, t);
      var rest := BlocksTrace(n, ps[1..], adc, sink, t');
      assert BlocksTrace(n, ps, adc, sink, t) == head + rest;
      assert LevelsAfter(AllLow(n), head) == AllLow(n) by {
        assert q in ps;
        BlockEndsLow(n, q, adc, sink, t);
      }
      assert LevelsAfter(AllLow(n), rest) == AllLow(n) by {
        assert forall q' :: q' in ps[1..] ==> q' in ps;
        BlocksEndLow(n, ps[1..], adc, sink, t');
      }
      LevelsAfterConcat(AllLow(n), head, rest);
    }
  }

  lemma {:induction false} BlocksPinSafe(n: nat, ps: seq<Pair>, adc: nat -> Int32, sink: nat -> bool, t: nat, sources: set<int>)
    requires forall q :: q in ps ==> q.i < n && q.j < n && q.i as int in sources
    ensures PinSafe(n, BlocksTrace(n, ps, adc, sink, t), sources)
    decreases |ps|
  {
    if ps == [] {
      assert BlocksTrace(n, ps, adc, sink, t) == [];
      assert BlocksTrace(n, ps, adc, sink, t)[..0] == [];
    } else {
      var q := ps[0];
      var t' := t + |SenseOrder(n, q.i, q.j)|;
      var head := PairTrace(n, q, adc, sink, t);
      var rest := BlocksTrace(n, ps[1..], adc, sink, t');
      assert BlocksTrace(n, ps, adc, sink, t) == head + rest;
      assert PinSafe(n, head, sources) && LevelsAfter(AllLow(n), head) == AllLow(n) by {
        assert q in ps;
        BlockPinSafe(n, q, adc, sink, t, sources);
        BlockEndsLow(n, q, adc, sink, t);
      }
      assert PinSafe(n, rest, sources) by {
        assert forall q' :: q' in ps[1..] ==> q' in ps;
        BlocksPinSafe(n, ps[1..], adc, sink, t', sources);
      }
      PinSafeConcat(n, head, rest, sources);
    }
  }

  /** Over a whole pass, starting from all lines low: at every point at most
      one electrode is high and it is the driven electrode i of a visited
      pair; every reading of pair (i, j) is taken with exactly {i} high, or
      with nothing high when i == j; and the pass ends with all lines low. */
  lemma CyclePinInvariant(v: InnerStart, n: nat, adc: nat -> Int32, sink: nat -> bool, t0: nat)
    ensures LevelsAfter(AllLow(n), CycleTrace(v, n, adc, sink, t0)) == AllLow(n)
    ensures PinSafe(n, CycleTrace(v, n, adc, sink, t0), Sources(v, n))
  {
    PairsOrderedAndExact(v, n);
    BlocksEndLow(n, Pairs(v, n), adc, sink, t0);
    BlocksPinSafe(n, Pairs(v, n), adc, sink, t0, Sources(v, n));
  }

  lemma {:induction false} RunPinInvariant(v: InnerStart, n: nat, adc: nat -> Int32, sink: nat -> bool, c: nat)
    ensures LevelsAfter(AllLow(n), Run(v, n, adc, sink, c)) == AllLow(n)
    ensures PinSafe(n, Run(v, n, adc, sink, c), Sources(v, n))
    decreases c
  {
    if c == 0 {
      assert Run(v, n, adc, sink, c)[..0] == [];
    } else {
      var t0 := (c - 1) * |Slots(v, n)|;
      RunPinInvariant(v, n, adc, sink, c - 1);
      CyclePinInvariant(v, n, adc, sink, t0);
      PinSafeConcat(n, Run(v, n, adc, sink, c - 1), CycleTrace(v, n, adc, sink, t0), Sources(v, n));
      LevelsAfterConcat(AllLow(n), Run(v, n, adc, sink, c - 1), CycleTrace(v, n, adc, sink, t0));
    }
  }

  // ---------------------------------------------------------------------
  // Start-up

  lemma {:induction false} InitFromLevels(ls: Levels, n: nat, e: nat, dirOk: nat -> bool)
    requires |ls| == n
    ensures forall x :: 0 <= x < n ==> LevelsAfter(ls, InitFrom(n, e, dirOk))[x] == if x >= e then Low else ls[x]
    decreases n - e
  {
    if e >= n {
      assert InitFrom(n, e, dirOk) == [];
    } else {
      var head := [Configure(e, dirOk(e)), SetLevel(e, Low)];
      assert head[..1][..0] == [] && head[..2][..1] == head[..1] && head[..2] == head;
      assert LevelsAfter(ls, head[..1]) == ls;
      assert LevelsAfter(ls, head) == Drive(ls, e, Low);
      LevelsAfterConcat(ls, head, InitFrom(n, e + 1, dirOk));
      InitFromLevels(Drive(ls, e, Low), n, e + 1, dirOk);
    }
  }

  /** Start-up leaves every line low, whatever level the lines held at
      reset and whatever each configuration call reported. */
  lemma InitDrivesAllLow(n: nat, ls: Levels, dirOk: nat -> bool)
    requires |ls| == n
    ensures LevelsAfter(ls, InitTrace(n, dirOk)) == AllLow(n)
  {
    InitFromLevels(ls, n, 0, dirOk);
  }

  /** After start-up, the levels at any point of the program are those the
      scan reaches from all lines low. */
  lemma AppLevelsAt(v: InnerStart, n: nat, ls: Levels, dirOk: nat -> bool, adc: nat -> Int32, sink: nat -> bool, c: nat, p: nat)
    requires |ls| == n
    requires |InitTrace(n, dirOk)| <= p <= |AppTrace(v, n, dirOk, adc, sink, c)|
    ensures LevelsAfter(ls, AppTrace(v, n, dirOk, adc, sink, c)[..p])
      == LevelsAt(n, Run(v, n, adc, sink, c), p - |InitTrace(n, dirOk)|)
  {
    var init := InitTrace(n, dirOk);
    var run := Run(v, n, adc, sink, c);
    var app := AppTrace(v, n, dirOk, adc, sink, c);
    assert app[..p] == init + run[..p - |init|];
    LevelsAfterConcat(ls, init, run[..p - |init|]);
    InitDrivesAllLow(n, ls, dirOk);
  }

  /** From start-up on: once the start-up loop has run, every point of the
      scan has at most one electrode high, the driven electrode of a visited
      pair, and each reading is taken with exactly its excitation set
      high. */
  lemma AppPinInvariant(v: InnerStart, n: nat, ls: Levels, dirOk: nat -> bool, adc: nat -> Int32, sink: nat -> bool, c: nat)
    requires |ls| == n
    ensures LevelsAfter(ls, InitTrace(n, dirOk)) == AllLow(n)
    ensures forall p :: |InitTrace(n, dirOk)| <= p <= |AppTrace(v, n, dirOk, adc, sink, c)| ==>
      AtMostOneSource(HighSet(LevelsAfter(ls, AppTrace(v, n, dirOk, adc, sink, c)[..p])), Sources(v, n))
    ensures forall p :: |InitTrace(n, dirOk)| <= p < |AppTrace(v, n, dirOk, adc, sink, c)| && AppTrace(v, n, dirOk, adc, sink, c)[p].Send? ==>
      HighSet(LevelsAfter(ls, AppTrace(v, n, dirOk, adc, sink, c)[..p])) == Excited(AppTrace(v, n, dirOk, adc, sink, c)[p].rec)
  {
    var init := InitTrace(n, dirOk);
    var run := Run(v, n, adc, sink, c);
    var app := AppTrace(v, n, dirOk, adc, sink, c);
    var srcs := Sources(v, n);
    InitDrivesAllLow(n, ls, dirOk);
    assert PinSafe(n, run, srcs) by {
      RunPinInvariant(v, n, adc, sink, c);
    }
    forall p | |init| <= p <= |app|
      ensures AtMostOneSource(HighSet(LevelsAfter(ls, app[..p])), srcs)
    {
      AppLevelsAt(v, n, ls, dirOk, adc, sink, c, p);
    }
    forall p | |init| <= p < |app| && app[p].Send?
      ensures HighSet(LevelsAfter(ls, app[..p])) == Excited(app[p].rec)
    {
      AppLevelsAt(v, n, ls, dirOk, adc, sink, c, p);
      assert app[p] == run[p - |init|];
    }
  }

  // ---------------------------------------------------------------------
  // Event order

  /** Same sweep, later sensed electrode. */
  predicate NextInSweep(a: Record, b: Record)
  {
    a.i == b.i && a.j == b.j && a.k < b.k
  }

  predicate IsRelease(e: Event)
  {
    e.SetLevel? && e.level == Low
  }

  /** Every drive-high is followed by a drive-low and then the settle
      delay. */
  ghost predicate SettlesAfterExcite(trace: seq<Event>)
  {
    forall p :: 0 <= p < |trace| && trace[p].SetLevel? && trace[p].level == High ==>
      p + 2 < |trace| && IsRelease(trace[p + 1]) && trace[p + 2] == Delay(SettleMs)
  }

  /** Every send comes straight after the settle delay or after a send of
      the same sweep with a lower sensed electrode, so no delay or drive
      change falls inside a sweep. */
  ghost predicate SendsAfterSettle(trace: seq<Event>)
  {
    forall p :: 0 <= p < |trace| && trace[p].Send? ==>
      p > 0 && (trace[p - 1] == Delay(SettleMs) || (trace[p - 1].Send? && NextInSweep(trace[p - 1].rec, trace[p].rec)))
  }

  /** Every rest delay comes straight after two releases. */
  ghost predicate RestsAfterRelease(trace: seq<Event>)
  {
    forall p :: 0 <= p < |trace| && trace[p] == Delay(RestMs) ==>
      p >= 2 && IsRelease(trace[p - 2]) && IsRelease(trace[p - 1])
  }

  /** The order the loop keeps between driving, settling, sampling,
      releasing and resting. */
  ghost predicate Sequenced(trace: seq<Event>)
  {
    SettlesAfterExcite(trace) && SendsAfterSettle(trace) && RestsAfterRelease(trace)
  }

  lemma SequencedConcat(a: seq<Event>, b: seq<Event>)
    requires Sequenced(a) && Sequenced(b)
    requires |b| > 0 ==> !b[0].Send? && b[0] != Delay(RestMs)
    ensures Sequenced(a + b)
  {
    var ab := a + b;
    forall p | 0 <= p < |ab| && ab[p].SetLevel? && ab[p].level == High
      ensures p + 2 < |ab| && IsRelease(ab[p + 1]) && ab[p + 2] == Delay(SettleMs)
    {
      if p >= |a| {
        assert ab[p] == b[p - |a|];
      }
    }
    forall p | 0 <= p < |ab| && ab[p].Send?
      ensures p > 0 && (ab[p - 1] == Delay(SettleMs) || (ab[p - 1].Send? && NextInSweep(ab[p - 1].rec, ab[p].rec)))
    {
      if p >= |a| {
        assert ab[p] == b[p - |a|];
        assert p - |a| > 0;
        assert ab[p - 1] == b[p - 1 - |a|];
      }
    }
    forall p | 0 <= p < |ab| && ab[p] == Delay(RestMs)
      ensures p >= 2 && IsRelease(ab[p - 2]) && IsRelease(ab[p - 1])
    {
      if p >= |a| {
        assert ab[p] == b[p - |a|];
        assert p - |a| >= 2;
        assert ab[p - 1] == b[p - 1 - |a|] && ab[p - 2] == b[p - 2 - |a|];
      }
    }
  }

  /** Positions in the block of pair q: three set-up events, the sweep's
      sends in ascending order of sensed electrode, three closing events. */
  ghost predicate BlockShaped(b: seq<Event>, q: Pair)
  {
    && |b| >= 6
    && b[0] == SetLevel(q.i, High) && b[1] == SetLevel(q.j, Low) && b[2] == Delay(SettleMs)
    && b[|b| - 3] == SetLevel(q.i, Low) && b[|b| - 2] == SetLevel(q.j, Low) && b[|b| - 1] == Delay(RestMs)
    && (forall x :: 3 <= x < |b| - 3 ==> b[x].Send? && b[x].rec.i == q.i && b[x].rec.j == q.j)
    && (forall x, y :: 3 <= x < y < |b| - 3 ==> b[x].rec.k < b[y].rec.k)
  }

  lemma BlockLayout(n: nat, q: Pair, adc: nat -> Int32, sink: nat -> bool, t: nat)
    ensures BlockShaped(PairTrace(n, q, adc, sink, t), q)
  {
    var b := PairTrace(n, q, adc, sink, t);
    var sweep := SweepFrom(n, q.i, q.j, 0, adc, sink, t);
    var ks := SenseOrder(n, q.i, q.j);
    var m := |sweep|;
    assert |b| == m + 6;
    assert forall x :: 3 <= x < m + 3 ==> b[x] == sweep[x - 3];
    SweepShape(n, q.i, q.j, 0, adc, sink, t);
    SenseFromAscending(n, q.i, q.j, 0);
    forall x, y | 3 <= x < y < m + 3
      ensures b[x].rec.k < b[y].rec.k
    {
      assert b[x].rec.k == ks[x - 3] && b[y].rec.k == ks[y - 3];
    }
  }

  /** Any block with that layout keeps the loop's order. */
  lemma ShapedSequenced(b: seq<Event>, q: Pair)
    requires BlockShaped(b, q)
    ensures Sequenced(b)
  {
    assert SettlesAfterExcite(b);
    forall p | 0 <= p < |b| && b[p].Send?
      ensures p > 0 && (b[p - 1] == Delay(SettleMs) || (b[p - 1].Send? && NextInSweep(b[p - 1].rec, b[p].rec)))
    {
      assert 3 <= p < |b| - 3;
      if p > 3 {
        assert b[p - 1].rec.k < b[p].rec.k;
      }
    }
    assert RestsAfterRelease(b);
  }

  /** One pair's block keeps the loop's order, with the layout that names
      the electrodes: i driven high, then j driven low, and at the end i
      released, then j. */
  lemma BlockSequenced(n: nat, q: Pair, adc: nat -> Int32, sink: nat -> bool, t: nat)
    ensures BlockShaped(PairTrace(n, q, adc, sink, t), q)
    ensures Sequenced(PairTrace(n, q, adc, sink, t))
  {
    BlockLayout(n, q, adc, sink, t);
    ShapedSequenced(PairTrace(n, q, adc, sink, t), q);
  }

  lemma {:induction false} BlocksSequenced(n: nat, ps: seq<Pair>, adc: nat -> Int32, sink: nat -> bool, t: nat)
    ensures Sequenced(BlocksTrace(n, ps, adc, sink, t))
    ensures ps != [] ==> BlocksTrace(n, ps, adc, sink, t)[0] == SetLevel(ps[0].i, High)
    decreases |ps|
  {
    if ps != [] {
      var q := ps[0];
      var t' := t + |SenseOrder(n, q.i, q.j)|;
      var head := PairTrace(n, q, adc, sink, t);
      var rest := BlocksTrace(n, ps[1..], adc, sink, t');
      assert BlocksTrace(n, ps, adc, sink, t) == head + rest;
      assert head[0] == SetLevel(q.i, High);
      assert Sequenced(head) by {
        BlockSequenced(n, q, adc, sink, t);
      }
      assert Sequenced(rest) && (|rest| > 0 ==> !rest[0].Send? && rest[0] != Delay(RestMs)) by {
        BlocksSequenced(n, ps[1..], adc, sink, t');
      }
      SequencedConcat(head, rest);
    }
  }

  /** Over a pass: excitation, then the settle delay, then the whole sweep
      with nothing in between and the sensed electrode ascending, then both
      releases, then the rest delay. */
  lemma CycleSequenced(v: InnerStart, n: nat, adc: nat -> Int32, sink: nat -> bool, t0: nat)
    ensures Sequenced(CycleTrace(v, n, adc, sink, t0))
  {
    BlocksSequenced(n, Pairs(v, n), adc, sink, t0);
  }

  /** The order holds across pass boundaries too: a pass begins with a
      drive-high, never with a send or a rest delay. */
  lemma {:induction false} RunSequenced(v: InnerStart, n: nat, adc: nat -> Int32, sink: nat -> bool, c: nat)
    ensures Sequenced(Run(v, n, adc, sink, c))
    decreases c
  {
    if c > 0 {
      var t0 := (c - 1) * |Slots(v, n)|;
      var prev := Run(v, n, adc, sink, c - 1);
      var cycle := CycleTrace(v, n, adc, sink, t0);
      assert Run(v, n, adc, sink, c) == prev + cycle;
      assert Sequenced(prev) by {
        RunSequenced(v, n, adc, sink, c - 1);
      }
      assert Sequenced(cycle) && (|cycle| > 0 ==> cycle[0].SetLevel?) by {
        BlocksSequenced(n, Pairs(v, n), adc, sink, t0);
      }
      SequencedConcat(prev, cycle);
    }
  }

  // ---------------------------------------------------------------------
  // The pair (0, 0)

  lemma {:induction false} SenseFromAbove(n: nat, i: nat, j: nat, k: nat)
    requires i < k && j < k && k <= n
    ensures SenseFrom(n, i, j, k) == seq(n - k, x requires 0 <= x < n - k => k + x)
    decreases n - k
  {
    if k < n {
      SenseFromAbove(n, i, j, k + 1);
    }
  }

  /** As written, the slot order of any array begins with the n - 1 readings
      of the degenerate pair (0, 0). */
  lemma DoubledSlotsBegin(n: nat)
    requires n > 0
    ensures |Slots(Doubled, n)| >= n - 1
    ensures forall x :: 0 <= x < n - 1 ==> Slots(Doubled, n)[x] == Slot(0, 0, x + 1)
  {
    var ps := Pairs(Doubled, n);
    var row := RowFrom(0, 0, n);
    assert ps == row + PairsFrom(Doubled, n, 1);
    assert ps[0] == row[0] == Pair(0, 0);
    assert SenseOrder(n, 0, 0) == SenseFrom(n, 0, 0, 1);
    SenseFromAbove(n, 0, 0, 1);
    var first := PairSlots(n, Pair(0, 0));
    assert |first| == n - 1;
    assert forall x :: 0 <= x < n - 1 ==> first[x] == Slot(0, 0, x + 1);
    assert Slots(Doubled, n) == first + SlotsOf(n, ps[1..]);
  }

  /** As written, each pass begins with the degenerate pair (0, 0): its
      n - 1 readings, of electrodes 1 to n - 1 (fifteen for the sixteen-
      electrode array), are taken and sent while no electrode is driven
      high. */
  lemma AsWrittenUnexcitedReadings(n: nat, adc: nat -> Int32, sink: nat -> bool, t0: nat)
    requires n > 0
    ensures |Sent(CycleTrace(Doubled, n, adc, sink, t0))| >= n - 1
    ensures forall x :: 0 <= x < n - 1 ==> Sent(CycleTrace(Doubled, n, adc, sink, t0))[x] == Record(0, 0, x + 1, adc(t0 + x))
    ensures forall x :: 0 <= x < n - 1 ==> Excited(Sent(CycleTrace(Doubled, n, adc, sink, t0))[x]) == {}
    ensures var cycle := CycleTrace(Doubled, n, adc, sink, t0);
      forall p :: 0 <= p < |cycle| && cycle[p].Send? && cycle[p].rec.i == 0 && cycle[p].rec.j == 0 ==>
        HighSet(LevelsAt(n, cycle, p)) == {}
  {
    DoubledSlotsBegin(n);
    CycleSendsEachReadingOnce(Doubled, n, adc, sink, t0);
    CyclePinInvariant(Doubled, n, adc, sink, t0);
  }
}
