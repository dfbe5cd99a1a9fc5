/**
 * Known patterns under the rule: the 2 x 2 block is a still life and the
 * beacon is an oscillator of period two.  Each is checked row by row
 * through the locality of the rule (Torus.StepRow).
 */
module Patterns {
  import opened Torus

  /** Two sequences of length four that agree at every index are equal. */
  lemma Same4<T>(a: seq<T>, b: seq<T>)
    requires |a| == 4 && |b| == 4
    requires a[0] == b[0] && a[1] == b[1] && a[2] == b[2] && a[3] == b[3]
    ensures a == b
  {
  }

  /** Two sequences of length six that agree at every index are equal. */
  lemma Same6<T>(a: seq<T>, b: seq<T>)
    requires |a| == 6 && |b| == 6
    requires a[0] == b[0] && a[1] == b[1] && a[2] == b[2] && a[3] == b[3] && a[4] == b[4] && a[5] == b[5]
    ensures a == b
  {
  }

  const Dead4: seq<bool> := [false, false, false, false]
  const Pair4: seq<bool> := [false, true, true, false]

  /** The 2 x 2 block at rows and columns 1 and 2 of a 4 x 4 torus. */
  function Block(): (g: Grid)
    ensures IsGrid(g, 4, 4)
  {
    [Dead4, Pair4, Pair4, Dead4]
  }

  /** Each row of the block, between its neighbouring rows, stays as it is. */
  lemma BlockRows()
    ensures RowNext(Dead4, Dead4, Pair4, 4) == Dead4
    ensures RowNext(Dead4, Pair4, Pair4, 4) == Pair4
    ensures RowNext(Pair4, Pair4, Dead4, 4) == Pair4
    ensures RowNext(Pair4, Dead4, Dead4, 4) == Dead4
  {
    Same4(RowNext(Dead4, Dead4, Pair4, 4), Dead4);
    Same4(RowNext(Dead4, Pair4, Pair4, 4), Pair4);
    Same4(RowNext(Pair4, Pair4, Dead4, 4), Pair4);
    Same4(RowNext(Pair4, Dead4, Dead4, 4), Dead4);
  }

  /** The block is a still life: its next generation is itself. */
  lemma BlockIsStill()
    ensures Step(Block(), 4, 4) == Block()
  {
    var g := Block();
    var s := Step(g, 4, 4);
    StepRow(g, 4, 4, 0);
    StepRow(g, 4, 4, 1);
    StepRow(g, 4, 4, 2);
    StepRow(g, 4, 4, 3);
    BlockRows();
    Same4(s, g);
  }

  const Dead6: seq<bool> := [false, false, false, false, false, false]
  const Upper6: seq<bool> := [false, true, true, false, false, false]
  const Lower6: seq<bool> := [false, false, false, true, true, false]

  /** Row 2 of the beacon: its upper block's lower row, whose corner (2, 2) is alive only in the full phase. */
  function UpperInner(full: bool): seq<bool> {
    [false, true, full, false, false, false]
  }

  /** Row 3 of the beacon: its lower block's upper row, whose corner (3, 3) is alive only in the full phase. */
  function LowerInner(full: bool): seq<bool> {
    [false, false, false, full, true, false]
  }

  /**
   * The beacon on a 6 x 6 torus: two 2 x 2 blocks touching at a corner,
   * at rows and columns 1-2 and 3-4.  In its full phase all eight cells are
   * alive; in the other phase the touching corners (2, 2) and (3, 3) are
   * dead.
   */
  function Beacon(full: bool): (g: Grid)
    ensures IsGrid(g, 6, 6)
  {
    [Dead6, Upper6, UpperInner(full), LowerInner(full), Lower6, Dead6]
  }

  /** The dead rows 0 and 5 of the beacon stay dead. */
  lemma BeaconEdgeRows()
    ensures RowNext(Dead6, Dead6, Upper6, 6) == Dead6
    ensures RowNext(Lower6, Dead6, Dead6, 6) == Dead6
  {
    Same6(RowNext(Dead6, Dead6, Upper6, 6), Dead6);
    Same6(RowNext(Lower6, Dead6, Dead6, 6), Dead6);
  }

  /** Row 1, the upper block's upper row, survives in either phase. */
  lemma BeaconRow1(full: bool)
    ensures RowNext(Dead6, Upper6, UpperInner(full), 6) == Upper6
  {
    Same6(RowNext(Dead6, Upper6, UpperInner(full), 6), Upper6);
  }

  /** Row 2 passes to the other phase: the corner (2, 2) dies or is born. */
  lemma BeaconRow2(full: bool)
    ensures RowNext(Upper6, UpperInner(full), LowerInner(full), 6) == UpperInner(!full)
  {
    Same6(RowNext(Upper6, UpperInner(full), LowerInner(full), 6), UpperInner(!full));
  }

  /** Row 3 passes to the other phase: the corner (3, 3) dies or is born. */
  lemma BeaconRow3(full: bool)
    ensures RowNext(UpperInner(full), LowerInner(full), Lower6, 6) == LowerInner(!full)
  {
    Same6(RowNext(UpperInner(full), LowerInner(full), Lower6, 6), LowerInner(!full));
  }

  /** Row 4, the lower block's lower row, survives in either phase. */
  lemma BeaconRow4(full: bool)
    ensures RowNext(LowerInner(full), Lower6, Dead6, 6) == Lower6
  {
    Same6(RowNext(LowerInner(full), Lower6, Dead6, 6), Lower6);
  }

  /** One generation turns each phase of the beacon into the other. */
  lemma BeaconFlips(full: bool)
    ensures Step(Beacon(full), 6, 6) == Beacon(!full)
  {
    var g := Beacon(full);
    var s := Step(g, 6, 6);
    StepRow(g, 6, 6, 0);
    StepRow(g, 6, 6, 1);
    StepRow(g, 6, 6, 2);
    StepRow(g, 6, 6, 3);
    StepRow(g, 6, 6, 4);
    StepRow(g, 6, 6, 5);
    BeaconEdgeRows();
    BeaconRow1(full);
    BeaconRow2(full);
    BeaconRow3(full);
    BeaconRow4(full);
    Same6(s, Beacon(!full));
  }

  /** The beacon is an oscillator of period two: it changes, and is back after two generations. */
  lemma BeaconPeriodTwo(full: bool)
    ensures Generations(Beacon(full), 6, 6, 1) != Beacon(full)
    ensures Generations(Beacon(full), 6, 6, 2) == Beacon(full)
  {
    BeaconFlips(full);
    BeaconFlips(!full);
    assert Beacon(!full)[2][2] != Beacon(full)[2][2];
  }
}
