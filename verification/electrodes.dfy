/** The electrode array: sixteen endpoints, each wired to one GPIO drive line,
    and the drive level every line currently holds. */
module Electrodes {

  /** Number of electrodes in the array. */
  const N: nat := 16

  /** GPIO number wired to each electrode index. */
  const Pins: seq<nat> := [2, 4, 5, 12, 13, 14, 15, 16, 17, 18, 19, 21, 22, 23, 25, 26]

  /** The pin table has one entry per electrode and no GPIO line serves two
      electrodes, so a drive level can be tracked per electrode index. */
  lemma PinTableInjective()
    ensures |Pins| == N
    ensures forall a, b :: 0 <= a < N && 0 <= b < N && a != b ==> Pins[a] != Pins[b]
  {
  }

  /** Output level of a drive line: 0 or 1 as passed to gpio_set_level. */
  datatype Level = Low | High

  /** Level of every electrode, indexed by electrode. */
  type Levels = seq<Level>

  function AllLow(n: nat): (ls: Levels)
    ensures |ls| == n
    ensures forall e :: 0 <= e < n ==> ls[e] == Low
  {
    seq(n, _ => Low)
  }

  /** Drive electrode `e` to `lv`. An index outside the array names no line,
      so nothing changes; the scan never produces one. */
  function Drive(ls: Levels, e: nat, lv: Level): (r: Levels)
    ensures |r| == |ls|
    ensures e < |ls| ==> r[e] == lv
    ensures forall x :: 0 <= x < |ls| && x != e ==> r[x] == ls[x]
  {
    if e < |ls| then ls[e := lv] else ls
  }

  /** The electrodes currently driven high. */
  function HighSet(ls: Levels): (hs: set<int>)
    ensures forall e :: e in hs <==> 0 <= e < |ls| && ls[e] == High
  {
    set e | 0 <= e < |ls| && ls[e] == High
  }
}
