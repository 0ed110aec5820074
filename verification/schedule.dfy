/** The scan schedule: which excitation pairs one pass of the outer loop
    visits, in which order, and which electrodes are sensed for each pair.

    The inner loop's starting value is a parameter. `Doubled` (j starts at
    i + i) is what the scan does; `Successor` (j starts at i + 1) is the
    enumeration of distinct pairs that the loop's comment describes. */
module Schedule {
  import opened Electrodes

  datatype InnerStart = Doubled | Successor

  /** First value of j in row i of the pair loop. */
  function JStart(v: InnerStart, i: nat): nat
  {
    match v
    case Doubled => i + i
    case Successor => i + 1
  }

  /** An excitation pair: electrode i is driven high, electrode j low. */
  datatype Pair = Pair(i: nat, j: nat)

  /** The pairs (i, j), (i, j + 1), ..., (i, n - 1) of one row. */
  function RowFrom(i: nat, j: nat, n: nat): (r: seq<Pair>)
    ensures |r| == if j < n then n - j else 0
    ensures forall x :: 0 <= x < |r| ==> r[x] == Pair(i, j + x)
    decreases n - j
  {
    if j >= n then [] else [Pair(i, j)] + RowFrom(i, j + 1, n)
  }

  /** The pairs of rows i, i + 1, ..., n - 1, row by row. */
  function PairsFrom(v: InnerStart, n: nat, i: nat): seq<Pair>
    decreases n - i
  {
    if i >= n then [] else RowFrom(i, JStart(v, i), n) + PairsFrom(v, n, i + 1)
  }

  /** The pairs one pass of the outer loop visits, in visiting order. */
  function Pairs(v: InnerStart, n: nat): seq<Pair>
  {
    PairsFrom(v, n, 0)
  }

  /** Lexicographic order on pairs. */
  predicate Before(p: Pair, q: Pair)
  {
    p.i < q.i || (p.i == q.i && p.j < q.j)
  }

  ghost predicate Ascending(ps: seq<Pair>)
  {
    forall a, b :: 0 <= a < b < |ps| ==> Before(ps[a], ps[b])
  }

  /** Exactly the pairs with i at least the starting row and JStart(i) <= j < n. */
  lemma {:induction false} PairsFromMembers(v: InnerStart, n: nat, i: nat)
    ensures forall q :: q in PairsFrom(v, n, i) <==> i <= q.i && JStart(v, q.i) <= q.j < n
    decreases n - i
  {
    if i < n {
      var row := RowFrom(i, JStart(v, i), n);
      var rest := PairsFrom(v, n, i + 1);
      assert PairsFrom(v, n, i) == row + rest;
      assert forall q :: q in rest <==> i + 1 <= q.i && JStart(v, q.i) <= q.j < n by {
        PairsFromMembers(v, n, i + 1);
      }
      assert forall q :: q in row <==> q.i == i && JStart(v, i) <= q.j < n by {
        forall q: Pair | q.i == i && JStart(v, i) <= q.j < n
          ensures q in row
        {
          assert row[q.j - JStart(v, i)] == q;
        }
      }
    }
  }

  lemma AscendingConcat(a: seq<Pair>, b: seq<Pair>)
    requires Ascending(a) && Ascending(b)
    requires forall x, y :: x in a && y in b ==> Before(x, y)
    ensures Ascending(a + b)
  {
    forall s, t | 0 <= s < t < |a + b|
      ensures Before((a + b)[s], (a + b)[t])
    {
      if t < |a| {
      } else if s >= |a| {
        assert (a + b)[s] == b[s - |a|] && (a + b)[t] == b[t - |a|];
      } else {
        assert (a + b)[s] == a[s] && (a + b)[t] == b[t - |a|];
      }
    }
  }

  lemma {:induction false} PairsFromAscending(v: InnerStart, n: nat, i: nat)
    ensures Ascending(PairsFrom(v, n, i))
    decreases n - i
  {
    if i < n {
      PairsFromAscending(v, n, i + 1);
      PairsFromMembers(v, n, i + 1);
      var row := RowFrom(i, JStart(v, i), n);
      forall x, y | x in row && y in PairsFrom(v, n, i + 1)
        ensures Before(x, y)
      {
      }
      AscendingConcat(row, PairsFrom(v, n, i + 1));
    }
  }

  /** Every pass visits its pairs in strictly ascending lexicographic
      (i, j) order, so no pair is visited twice within a pass, and it
      visits exactly the pairs with JStart(i) <= j < n. */
  lemma PairsOrderedAndExact(v: InnerStart, n: nat)
    ensures Ascending(Pairs(v, n))
    ensures forall a, b :: 0 <= a < b < |Pairs(v, n)| ==> Pairs(v, n)[a] != Pairs(v, n)[b]
    ensures forall q :: q in Pairs(v, n) <==> JStart(v, q.i) <= q.j < n
  {
    PairsFromAscending(v, n, 0);
    PairsFromMembers(v, n, 0);
  }

  /** As written, a pass visits exactly the pairs with 2i <= j < n; every
      visited pair has i <= j, and i == j only for (0, 0). */
  lemma DoubledPairsShape(n: nat)
    ensures forall q :: q in Pairs(Doubled, n) <==> 2 * q.i <= q.j < n
    ensures forall q :: q in Pairs(Doubled, n) ==> q.i <= q.j && (q.i == q.j <==> q == Pair(0, 0))
    ensures Pair(0, 0) in Pairs(Doubled, n) <==> n > 0
  {
    PairsFromMembers(Doubled, n, 0);
  }

  /** With j starting at i + 1 a pass visits exactly the pairs i < j < n,
      in ascending order: every two distinct electrodes are excited together
      exactly once per pass, in one orientation, and no electrode is ever
      paired with itself. */
  lemma SuccessorPairsShape(n: nat)
    ensures Ascending(Pairs(Successor, n))
    ensures forall q :: q in Pairs(Successor, n) <==> q.i < q.j < n
    ensures forall a: nat, b: nat :: a < n && b < n && a != b ==>
      (Pair(a, b) in Pairs(Successor, n) <==> Pair(b, a) !in Pairs(Successor, n))
    ensures forall e: nat :: Pair(e, e) !in Pairs(Successor, n)
  {
    PairsOrderedAndExact(Successor, n);
  }

  lemma DivAddFour(x: int, a: int)
    ensures (x + 4 * a) / 4 == x / 4 + a
  {
  }

  lemma DivAddTwo(x: int, a: int)
    ensures (x + 2 * a) / 2 == x / 2 + a
  {
  }

  /** Row i contributes max(0, n - 2i) pairs; summed from row i on that is
      floor((n - 2i + 1)^2 / 4). */
  lemma {:induction false} DoubledCountFrom(n: nat, i: nat)
    ensures |PairsFrom(Doubled, n, i)| == if n <= 2 * i then 0 else ((n - 2 * i + 1) * (n - 2 * i + 1)) / 4
    decreases n - i
  {
    if i < n {
      DoubledCountFrom(n, i + 1);
      if 2 * i < n {
        var a := n - 2 * i;
        assert |RowFrom(i, JStart(Doubled, i), n)| == a;
        if a >= 3 {
          assert (a + 1) * (a + 1) == (a - 1) * (a - 1) + 4 * a;
          DivAddFour((a - 1) * (a - 1), a);
        }
      }
    }
  }

  /** With j starting at i + 1, the rows from i on hold (n - i)(n - i - 1)/2 pairs. */
  lemma {:induction false} SuccessorCountFrom(n: nat, i: nat)
    ensures |PairsFrom(Successor, n, i)| == if n <= i then 0 else ((n - i) * (n - i - 1)) / 2
    decreases n - i
  {
    if i < n {
      SuccessorCountFrom(n, i + 1);
      var m := n - i - 1;
      assert |RowFrom(i, JStart(Successor, i), n)| == m;
      assert (m + 1) * m == m * (m - 1) + 2 * m;
      DivAddTwo(m * (m - 1), m);
    }
  }

  /** Pairs per pass: the sum over i of max(0, n - 2i) as written, which is
      72 for sixteen electrodes; n(n - 1)/2, i.e. 120, with j from i + 1. */
  lemma PairCounts(n: nat)
    ensures |Pairs(Doubled, n)| == ((n + 1) * (n + 1)) / 4
    ensures |Pairs(Successor, n)| == (n * (n - 1)) / 2
    ensures |Pairs(Doubled, N)| == 72 && |Pairs(Successor, N)| == 120
  {
    DoubledCountFrom(n, 0);
    SuccessorCountFrom(n, 0);
    DoubledCountFrom(N, 0);
    SuccessorCountFrom(N, 0);
  }

  /** The scan as written against the distinct-pair enumeration: it visits
      the degenerate pair (0, 0), which drives electrode 0 high and at once
      low again, and it never visits a pair with i < j < 2i, such as (2, 3);
      every other pair it shares with the distinct-pair enumeration. */
  lemma AsWrittenPairsDiffer(n: nat)
    requires n >= 4
    ensures forall q :: q in Pairs(Doubled, n) <==>
      (q in Pairs(Successor, n) && 2 * q.i <= q.j) || q == Pair(0, 0)
    ensures Pair(0, 0) in Pairs(Doubled, n) && Pair(0, 0) !in Pairs(Successor, n)
    ensures Pair(2, 3) in Pairs(Successor, n) && Pair(2, 3) !in Pairs(Doubled, n)
  {
    DoubledPairsShape(n);
    SuccessorPairsShape(n);
  }

  // ---------------------------------------------------------------------
  // Sense sweep

  /** The electrodes k, k + 1, ..., n - 1 that are neither i nor j. */
  function SenseFrom(n: nat, i: nat, j: nat, k: nat): seq<nat>
    decreases n - k
  {
    if k >= n then []
    else (if k != i && k != j then [k] else []) + SenseFrom(n, i, j, k + 1)
  }

  /** The electrodes read while pair (i, j) is excited, in reading order:
      electrodes of the array, never i or j. */
  function SenseOrder(n: nat, i: nat, j: nat): (ks: seq<nat>)
    ensures forall k :: k in ks ==> k < n && k != i && k != j
  {
    SenseFromMembers(n, i, j, 0);
    SenseFrom(n, i, j, 0)
  }

  lemma {:induction false} SenseFromMembers(n: nat, i: nat, j: nat, k: nat)
    ensures forall x :: x in SenseFrom(n, i, j, k) <==> k <= x < n && x != i && x != j
    decreases n - k
  {
    if k < n {
      SenseFromMembers(n, i, j, k + 1);
    }
  }

  lemma {:induction false} SenseFromAscending(n: nat, i: nat, j: nat, k: nat)
    ensures forall a, b :: 0 <= a < b < |SenseFrom(n, i, j, k)| ==> SenseFrom(n, i, j, k)[a] < SenseFrom(n, i, j, k)[b]
    decreases n - k
  {
    if k < n {
      SenseFromAscending(n, i, j, k + 1);
      SenseFromMembers(n, i, j, k + 1);
      var rest := SenseFrom(n, i, j, k + 1);
      if k != i && k != j {
        var s := [k] + rest;
        forall a, b | 0 <= a < b < |s|
          ensures s[a] < s[b]
        {
          assert s[b] == rest[b - 1];
          if a > 0 {
            assert s[a] == rest[a - 1];
          } else {
            assert s[b] in rest;
          }
        }
      }
    }
  }

  lemma {:induction false} SenseFromCount(n: nat, i: nat, j: nat, k: nat)
    ensures |SenseFrom(n, i, j, k)| ==
      (if k < n then n - k else 0) - (if k <= i < n then 1 else 0) - (if k <= j < n && j != i then 1 else 0)
    decreases n - k
  {
    if k < n {
      SenseFromCount(n, i, j, k + 1);
    }
  }

  /** For a pair of the array, the sweep reads each electrode other than i
      and j exactly once, in strictly ascending order: n - 2 readings, or
      n - 1 when i == j. */
  lemma SenseOrderSpec(n: nat, i: nat, j: nat)
    requires i < n && j < n
    ensures forall k :: k in SenseOrder(n, i, j) <==> 0 <= k < n && k != i && k != j
    ensures forall a, b :: 0 <= a < b < |SenseOrder(n, i, j)| ==> SenseOrder(n, i, j)[a] < SenseOrder(n, i, j)[b]
    ensures |SenseOrder(n, i, j)| == if i == j then n - 1 else n - 2
  {
    SenseFromMembers(n, i, j, 0);
    SenseFromAscending(n, i, j, 0);
    SenseFromCount(n, i, j, 0);
  }

  // ---------------------------------------------------------------------
  // Slots: the (i, j, k) of every reading of a pass, in reading order

  /** One reading of the sweep: sense electrode k while (i, j) is excited. */
  datatype Slot = Slot(i: nat, j: nat, k: nat)

  function PairSlots(n: nat, q: Pair): seq<Slot>
  {
    var ks := SenseOrder(n, q.i, q.j);
    seq(|ks|, x requires 0 <= x < |ks| => Slot(q.i, q.j, ks[x]))
  }

  function SlotsOf(n: nat, ps: seq<Pair>): seq<Slot>
    decreases |ps|
  {
    if ps == [] then [] else PairSlots(n, ps[0]) + SlotsOf(n, ps[1..])
  }

  lemma {:induction false} SlotsOfConcat(n: nat, a: seq<Pair>, b: seq<Pair>)
    ensures SlotsOf(n, a + b) == SlotsOf(n, a) + SlotsOf(n, b)
    decreases |a|
  {
    if a == [] {
      assert a + b == b;
    } else {
      assert (a + b)[0] == a[0] && (a + b)[1..] == a[1..] + b;
      SlotsOfConcat(n, a[1..], b);
    }
  }

  /** The readings of one pass of the outer loop, in order. */
  function Slots(v: InnerStart, n: nat): seq<Slot>
  {
    SlotsOf(n, Pairs(v, n))
  }

  /** Lexicographic order on (i, j, k). */
  predicate SlotBefore(a: Slot, b: Slot)
  {
    Before(Pair(a.i, a.j), Pair(b.i, b.j)) || (a.i == b.i && a.j == b.j && a.k < b.k)
  }

  ghost predicate SlotsAscending(ss: seq<Slot>)
  {
    forall a, b :: 0 <= a < b < |ss| ==> SlotBefore(ss[a], ss[b])
  }

  /** Number of pairs with i == j. */
  function Diagonals(ps: seq<Pair>): nat
    decreases |ps|
  {
    if ps == [] then 0 else (if ps[0].i == ps[0].j then 1 else 0) + Diagonals(ps[1..])
  }

  lemma PairSlotsMembers(n: nat, q: Pair)
    requires q.i < n && q.j < n
    ensures forall s :: s in PairSlots(n, q) <==> Pair(s.i, s.j) == q && s.k < n && s.k != s.i && s.k != s.j
  {
    SenseOrderSpec(n, q.i, q.j);
    var ks := SenseOrder(n, q.i, q.j);
    var ss := PairSlots(n, q);
    forall s: Slot | Pair(s.i, s.j) == q && s.k < n && s.k != s.i && s.k != s.j
      ensures s in ss
    {
      assert s.k in ks;
      var x :| 0 <= x < |ks| && ks[x] == s.k;
      assert ss[x] == s;
    }
    forall s | s in ss
      ensures Pair(s.i, s.j) == q && s.k < n && s.k != s.i && s.k != s.j
    {
      var x :| 0 <= x < |ss| && ss[x] == s;
      assert ks[x] in ks;
    }
  }

  lemma {:induction false} SlotsOfMembers(n: nat, ps: seq<Pair>)
    requires forall q :: q in ps ==> q.i < n && q.j < n
    ensures forall s :: s in SlotsOf(n, ps) <==> Pair(s.i, s.j) in ps && s.k < n && s.k != s.i && s.k != s.j
    decreases |ps|
  {
    if ps != [] {
      SlotsOfMembers(n, ps[1..]);
      PairSlotsMembers(n, ps[0]);
      assert forall q' :: q' in ps <==> q' == ps[0] || q' in ps[1..];
    }
  }

  lemma SlotsAscendingConcat(a: seq<Slot>, b: seq<Slot>)
    requires SlotsAscending(a) && SlotsAscending(b)
    requires forall x, y :: x in a && y in b ==> SlotBefore(x, y)
    ensures SlotsAscending(a + b)
  {
    forall s, t | 0 <= s < t < |a + b|
      ensures SlotBefore((a + b)[s], (a + b)[t])
    {
      if t < |a| {
      } else if s >= |a| {
        assert (a + b)[s] == b[s - |a|] && (a + b)[t] == b[t - |a|];
      } else {
        assert (a + b)[s] == a[s] && (a + b)[t] == b[t - |a|];
      }
    }
  }

  lemma {:induction false} SlotsOfAscending(n: nat, ps: seq<Pair>)
    requires Ascending(ps)
    requires forall q :: q in ps ==> q.i < n && q.j < n
    ensures SlotsAscending(SlotsOf(n, ps))
    decreases |ps|
  {
    if ps != [] {
      var q := ps[0];
      SlotsOfAscending(n, ps[1..]);
      SlotsOfMembers(n, ps[1..]);
      SenseOrderSpec(n, q.i, q.j);
      var head := PairSlots(n, q);
      forall x, y | x in head && y in SlotsOf(n, ps[1..])
        ensures SlotBefore(x, y)
      {
        var b :| 0 <= b < |ps[1..]| && ps[1..][b] == Pair(y.i, y.j);
        assert ps[b + 1] == Pair(y.i, y.j);
      }
      SlotsAscendingConcat(head, SlotsOf(n, ps[1..]));
    }
  }

  lemma MulSucc(k: nat, c: int)
    ensures (k + 1) * c == k * c + c
  {
  }

  lemma {:induction false} SlotsOfCount(n: nat, ps: seq<Pair>)
    requires forall q :: q in ps ==> q.i < n && q.j < n
    ensures |SlotsOf(n, ps)| == |ps| * (n - 2) + Diagonals(ps)
    decreases |ps|
  {
    if ps != [] {
      var q := ps[0];
      var rest := ps[1..];
      var c: int := n - 2;
      var d := if q.i == q.j then 1 else 0;
      assert |SlotsOf(n, rest)| == |rest| * c + Diagonals(rest) by {
        assert forall q' :: q' in rest ==> q' in ps;
        SlotsOfCount(n, rest);
      }
      assert |PairSlots(n, q)| == c + d by {
        assert q in ps;
        SenseOrderSpec(n, q.i, q.j);
      }
      assert SlotsOf(n, ps) == PairSlots(n, q) + SlotsOf(n, rest);
      assert Diagonals(ps) == d + Diagonals(rest);
      MulSucc(|rest|, c);
    }
  }

  lemma {:induction false} DiagonalsConcat(a: seq<Pair>, b: seq<Pair>)
    ensures Diagonals(a + b) == Diagonals(a) + Diagonals(b)
    decreases |a|
  {
    if a != [] {
      assert (a + b)[0] == a[0];
      assert (a + b)[1..] == a[1..] + b;
      assert Diagonals(a + b) == (if a[0].i == a[0].j then 1 else 0) + Diagonals((a + b)[1..]);
      DiagonalsConcat(a[1..], b);
    } else {
      assert a + b == b;
    }
  }

  lemma {:induction false} RowDiagonals(i: nat, j: nat, n: nat)
    ensures Diagonals(RowFrom(i, j, n)) == if j <= i < n then 1 else 0
    decreases n - j
  {
    if j < n {
      RowDiagonals(i, j + 1, n);
      assert RowFrom(i, j, n)[1..] == RowFrom(i, j + 1, n);
    }
  }

  lemma {:induction false} DiagonalsFrom(v: InnerStart, n: nat, i: nat)
    ensures Diagonals(PairsFrom(v, n, i)) == if v == Doubled && i == 0 && n > 0 then 1 else 0
    decreases n - i
  {
    if i < n {
      DiagonalsFrom(v, n, i + 1);
      RowDiagonals(i, JStart(v, i), n);
      DiagonalsConcat(RowFrom(i, JStart(v, i), n), PairsFrom(v, n, i + 1));
    }
  }

  /** Each pass reads in strictly ascending (i, j, k) order, so no reading
      repeats, and it reads exactly the electrodes k outside a visited pair. */
  lemma SlotsOrderedAndExact(v: InnerStart, n: nat)
    ensures SlotsAscending(Slots(v, n))
    ensures forall s :: s in Slots(v, n) <==>
      Pair(s.i, s.j) in Pairs(v, n) && s.k < n && s.k != s.i && s.k != s.j
    ensures forall s :: s in Slots(v, n) ==> s.i < n && s.j < n && s.k < n
  {
    PairsOrderedAndExact(v, n);
    assert forall q :: q in Pairs(v, n) ==> q.i < n && q.j < n;
    SlotsOfAscending(n, Pairs(v, n));
    SlotsOfMembers(n, Pairs(v, n));
  }

  /** Readings per pass: n - 2 per visited pair, plus one for the pair
      (0, 0) as written. */
  lemma SlotCount(v: InnerStart, n: nat)
    ensures |Slots(v, n)| == |Pairs(v, n)| * (n - 2) + (if v == Doubled && n > 0 then 1 else 0)
  {
    PairsOrderedAndExact(v, n);
    assert forall q :: q in Pairs(v, n) ==> q.i < n && q.j < n;
    SlotsOfCount(n, Pairs(v, n));
    DiagonalsFrom(v, n, 0);
  }

  /** For sixteen electrodes that is 72 * 14 + 1 = 1009 readings per pass
      as written, against 120 * 14 = 1680 with j from i + 1. */
  lemma SlotCountsSixteen()
    ensures |Slots(Doubled, N)| == 1009 && |Slots(Successor, N)| == 1680
  {
    SlotCount(Doubled, N);
    SlotCount(Successor, N);
    PairCounts(N);
  }
}
