/**
 * The Life of main.go: the current field, the buffer the next generation
 * is written into, and the generation counter.
 */
module Game {
  import opened Errors
  import opened Torus
  import opened Board

  /** Row b with its first n columns taken from t, as far as t reaches. */
  function Patch(b: seq<bool>, t: seq<bool>, n: int): (p: seq<bool>)
    ensures |p| == |b|
  {
    seq(|b|, m requires 0 <= m < |b| => if m < n && m < |t| then t[m] else b[m])
  }

  /** Taking one more column from t writes t's cell there, if both rows have it. */
  lemma PatchNext(b: seq<bool>, t: seq<bool>, n: nat)
    ensures Patch(b, t, n + 1) == if n < |b| && n < |t| then Patch(b, t, n)[n := t[n]] else Patch(b, t, n)
  {
  }

  /**
   * Grid s written cell by cell into grid b, each write bounds-checked
   * against b: cells of s outside b are dropped, cells of b outside s keep
   * their value.
   */
  function Overlay(b: Grid, s: Grid): (o: Grid)
    ensures |o| == |b|
  {
    seq(|b|, k requires 0 <= k < |b| => if k < |s| then Patch(b[k], s[k], |s[k]|) else b[k])
  }

  /** Overlay keeps b's shape and takes s's cell wherever s has one. */
  lemma OverlayCells(b: Grid, s: Grid, hb: int, wb: int, hs: int, ws: int)
    requires IsGrid(b, hb, wb) && IsGrid(s, hs, ws)
    ensures IsGrid(Overlay(b, s), hb, wb)
    ensures forall i, j :: 0 <= i < hb && 0 <= j < wb ==>
      Overlay(b, s)[i][j] == if i < hs && j < ws then s[i][j] else b[i][j]
  {
  }

  /** Written into a buffer of its own shape, s replaces the buffer entirely. */
  lemma OverlaySameShape(b: Grid, s: Grid, h: int, w: int)
    requires IsGrid(b, h, w) && IsGrid(s, h, w)
    ensures Overlay(b, s) == s
  {
    OverlayCells(b, s, h, w, h, w);
    forall k | 0 <= k < h
      ensures Overlay(b, s)[k] == s[k]
    {
    }
  }

  /**
   * Written into a dead buffer of another shape, s survives only where the
   * two shapes overlap; everything else of the buffer stays dead.
   */
  lemma OverlayDead(b: Grid, s: Grid, hb: int, wb: int, hs: int, ws: int)
    requires IsGrid(b, hb, wb) && IsDead(b) && IsGrid(s, hs, ws)
    ensures forall i, j :: 0 <= i < hb && 0 <= j < wb ==>
      Overlay(b, s)[i][j] == (i < hs && j < ws && s[i][j])
  {
    OverlayCells(b, s, hb, wb, hs, ws);
  }

  /** A dead field written into a dead buffer, of whatever shape, leaves it dead. */
  lemma DeadOverlayStep(b: Grid, g: Grid, h: nat, w: nat, hb: int, wb: int)
    requires IsGrid(b, hb, wb) && IsDead(b) && IsGrid(g, h, w) && IsDead(g)
    ensures IsDead(Overlay(b, Step(g, h, w)))
  {
    DeadStepsToDead(g, h, w);
    OverlayDead(b, Step(g, h, w), hb, wb, h, w);
  }

  class Life {
    var cur: Field   // the generation on display
    var next: Field  // the buffer the following generation is written into
    var gen: int     // the generation counter

    /**
     * cur has its h rows; next is a dead, rectangular field of fresh rows
     * that share no storage with cur, so writing next leaves cur unchanged.
     */
    ghost predicate Valid()
      reads this, cur, cur.cs, next, next.cs, next.Rows()
    {
      Separate() && 0 <= next.w && 0 <= gen && IsDead(next.Cells())
    }

    /** Both fields are well formed and next shares no row with cur. */
    ghost predicate Separate()
      reads this, cur, cur.cs, next, next.cs
    {
      cur.Valid() && 0 <= cur.w && next.Rectangular() && next.DistinctRows()
      && cur.Rows() !! next.Rows()
    }

    /** The literal &Life{cur: cur, next: next, gen: 0}. */
    constructor (cur: Field, next: Field)
      ensures this.cur == cur && this.next == next && gen == 0
    {
      this.cur, this.next, gen := cur, next, 0;
    }

    /**
     * The statement l.next.Set(i, j, l.cur.NextGen(i, j)): cell (i, j) of
     * next takes the next state of cell (i, j) of cur if next has that cell;
     * otherwise Set fails, the error is ignored and nothing changes.
     */
    method FillCell(i: int, j: int)
      requires Separate() && cur.Rectangular() && 0 <= i < cur.h && 0 <= j < cur.w
      modifies next.Rows()
      ensures cur.Cells() == old(cur.Cells())
      ensures forall k :: 0 <= k < next.cs.Length ==>
        next.cs[k][..] ==
          if k == i && j < next.w then old(next.cs[k][..])[j := Step(cur.Cells(), cur.h, cur.w)[i][j]]
          else old(next.cs[k][..])
    {
      var b := cur.NextGen(i, j);
      StepCell(cur.Cells(), cur.h, cur.w, i, j);
      var _ := next.Set(i, j, b);
    }

    /**
     * The inner loop of Next for row i of cur.  Row i of next takes the
     * first w cells of row i of the next generation that it has room for;
     * no other row changes.
     */
    method FillRow(i: int)
      requires Separate() && cur.Rectangular() && 0 <= i < cur.h
      modifies next.Rows()
      ensures cur.Cells() == old(cur.Cells())
      ensures forall k :: 0 <= k < next.cs.Length ==>
        next.cs[k][..] == if k == i then Patch(old(next.cs[k][..]), Step(cur.Cells(), cur.h, cur.w)[i], cur.w)
                          else old(next.cs[k][..])
    {
      ghost var g := cur.Cells();
      assert IsGrid(g, cur.h, cur.w);
      ghost var row := Step(g, cur.h, cur.w)[i];
      ghost var base := if i < next.cs.Length then next.cs[i][..] else [];
      var j := 0;
      while j < cur.cs[i].Length
        invariant 0 <= j <= cur.cs[i].Length
        invariant cur.Cells() == g
        invariant i < next.cs.Length ==> next.cs[i][..] == Patch(base, row, j)
        invariant forall k :: 0 <= k < next.cs.Length && k != i ==> next.cs[k][..] == old(next.cs[k][..])
      {
        FillCell(i, j);
        if i < next.cs.Length {
          PatchNext(base, row, j);
        }
        j := j + 1;
      }
    }

    /**
     * The double loop of Next: every cell (i, j) of cur gets its next state
     * written into next, in the cells next has.
     */
    method Fill()
      requires Valid() && cur.Rectangular()
      modifies next.Rows()
      ensures Separate()
      ensures cur.Cells() == old(cur.Cells())
      ensures next.Cells() == Overlay(old(next.Cells()), Step(cur.Cells(), cur.h, cur.w))
    {
      ghost var g := cur.Cells();
      ghost var base := next.Cells();
      assert IsGrid(g, cur.h, cur.w);
      ghost var s := Step(g, cur.h, cur.w);
      var i := 0;
      while i < cur.cs.Length
        invariant 0 <= i <= cur.cs.Length
        invariant Separate() && cur.Cells() == g
        invariant forall k :: 0 <= k < i && k < next.cs.Length ==> next.cs[k][..] == Patch(base[k], s[k], cur.w)
        invariant forall k :: i <= k < next.cs.Length ==> next.cs[k][..] == base[k]
      {
        FillRow(i);
        i := i + 1;
      }
      assert forall k :: 0 <= k < next.cs.Length ==> next.Cells()[k] == Overlay(base, s)[k];
    }

    /**
     * What Next does before it allocates the new buffer: the new generation
     * is written into next and next becomes cur.  If the buffer had the
     * field's shape, cur is now the whole next generation.
     */
    method Advance()
      requires Valid() && cur.Rectangular()
      modifies this, next.Rows()
      ensures cur == old(next) && cur.Rectangular() && cur.DistinctRows() && gen == old(gen) + 1 && 0 <= gen
      ensures cur.h == old(next.h) && cur.w == old(next.w)
      ensures cur.Cells() == Overlay(old(next.Cells()), Step(old(cur.Cells()), old(cur.h), old(cur.w)))
      ensures old(next.h == cur.h && next.w == cur.w) ==>
        cur.Cells() == Step(old(cur.Cells()), old(cur.h), old(cur.w))
    {
      Fill();
      SameShapeStep(old(next.Cells()), old(cur.Cells()), old(cur.h), old(cur.w), old(next.h), old(next.w));
      cur := next;
      gen := gen + 1;
    }

    /**
     * Next as written: the new generation is written into next, the fields
     * swap, and the fresh buffer is allocated as NewField(cur.w, cur.h),
     * that is with height and width exchanged.
     */
    method Next()
      requires Valid() && cur.Rectangular()
      modifies this, next.Rows()
      ensures Valid() && cur.Rectangular()
      ensures gen == old(gen) + 1
      ensures cur == old(next) && cur.h == old(next.h) && cur.w == old(next.w)
      ensures cur.Cells() == Overlay(old(next.Cells()), Step(old(cur.Cells()), old(cur.h), old(cur.w)))
      ensures old(next.h == cur.h && next.w == cur.w) ==>
        cur.Cells() == Step(old(cur.Cells()), old(cur.h), old(cur.w))
      ensures fresh(next) && fresh(next.cs) && fresh(next.Rows()) && next.h == cur.w && next.w == cur.h
    {
      Advance();
      next := new Field(cur.w, cur.h);
    }

    /**
     * Next with the buffer allocated as NewField(cur.h, cur.w).  The buffer
     * then always has the field's shape (NewLife makes it so and every round
     * keeps it), so every round computes the whole next generation.
     */
    method NextCorrected()
      requires Valid() && cur.Rectangular() && next.h == cur.h && next.w == cur.w
      modifies this, next.Rows()
      ensures Valid() && cur.Rectangular() && next.h == cur.h && next.w == cur.w
      ensures gen == old(gen) + 1
      ensures cur == old(next) && cur.h == old(cur.h) && cur.w == old(cur.w)
      ensures cur.Cells() == Step(old(cur.Cells()), old(cur.h), old(cur.w))
      ensures fresh(next) && fresh(next.cs) && fresh(next.Rows())
    {
      Advance();
      next := new Field(cur.h, cur.w);
    }

    /**
     * n rounds of the loop of main, without the printing and the ticker,
     * with the buffer allocated as NewField(cur.h, cur.w): the field goes
     * through n generations of the rule.
     */
    method RunCorrected(n: nat)
      requires Valid() && cur.Rectangular() && next.h == cur.h && next.w == cur.w
      modifies this, next.Rows()
      ensures Valid() && cur.Rectangular() && next.h == cur.h && next.w == cur.w
      ensures gen == old(gen) + n
      ensures cur.h == old(cur.h) && cur.w == old(cur.w)
      ensures cur.Cells() == Generations(old(cur.Cells()), old(cur.h), old(cur.w), n)
    {
      ghost var g, h, w := cur.Cells(), cur.h, cur.w;
      var k := 0;
      while k < n
        invariant 0 <= k <= n
        invariant Valid() && cur.Rectangular() && next.h == cur.h && next.w == cur.w
        invariant gen == old(gen) + k && cur.h == h && cur.w == w
        invariant cur.Cells() == Generations(g, h, w, k)
        invariant next == old(next) || fresh(next.Rows())
      {
        NextCorrected();
        k := k + 1;
      }
    }

    /**
     * n rounds of the loop of main, without the printing and the ticker, on
     * a square field: the transposed buffer of Next has the field's shape,
     * so the field goes through n generations of the rule.
     */
    method Run(n: nat)
      requires Valid() && cur.Rectangular() && cur.h == cur.w && next.h == cur.h && next.w == cur.w
      modifies this, next.Rows()
      ensures Valid() && cur.Rectangular() && next.h == cur.h && next.w == cur.w
      ensures gen == old(gen) + n
      ensures cur.h == old(cur.h) && cur.w == old(cur.w)
      ensures cur.Cells() == Generations(old(cur.Cells()), old(cur.h), old(cur.w), n)
    {
      ghost var g, h, w := cur.Cells(), cur.h, cur.w;
      var k := 0;
      while k < n
        invariant 0 <= k <= n
        invariant Valid() && cur.Rectangular() && next.h == cur.h && next.w == cur.w
        invariant gen == old(gen) + k && cur.h == h && cur.w == w
        invariant cur.Cells() == Generations(g, h, w, k)
        invariant next == old(next) || fresh(next.Rows())
      {
        Next();
        k := k + 1;
      }
    }
  }

  /**
   * A buffer of the field's own shape receives the whole next generation.
   */
  lemma SameShapeStep(b: Grid, g: Grid, h: nat, w: nat, hb: int, wb: int)
    requires IsGrid(g, h, w) && IsGrid(b, hb, wb)
    ensures hb == h && wb == w ==> Overlay(b, Step(g, h, w)) == Step(g, h, w)
  {
    if hb == h && wb == w {
      OverlaySameShape(b, Step(g, h, w), h, w);
    }
  }

  /**
   * Two rounds of Next on a 1 x 2 field leave a 2 x 1 field: the buffer of
   * the second round is allocated transposed.
   */
  method TransposedAfterTwoRounds() returns (l: Life)
    ensures l.gen == 2 && l.cur.h == 2 && l.cur.w == 1
  {
    var row := new bool[2](_ => false);
    var init := new array<bool>[1](_ => row);
    var res := NewLife(1, 2, init);
    l := res.value;
    l.Next();
    l.Next();
  }

  /** Two rounds of NextCorrected on a 1 x 2 field leave a 1 x 2 field. */
  method ShapeKeptAfterTwoRounds() returns (l: Life)
    ensures l.gen == 2 && l.cur.h == 1 && l.cur.w == 2
  {
    var row := new bool[2](_ => false);
    var init := new array<bool>[1](_ => row);
    var res := NewLife(1, 2, init);
    l := res.value;
    l.NextCorrected();
    l.NextCorrected();
  }

  /**
   * NewLife(h, w, init): a Life whose current field is init itself (not a
   * copy) and whose buffer is a dead h x w field.  Only the number of rows
   * and the length of the first row are checked.
   */
  method NewLife(h: int, w: int, init: array<array<bool>>) returns (res: Result<Life>)
    requires 0 <= h && (h == 0 || 0 <= w)  // NewField panics on a negative size
    requires init.Length != 0 || h != 0     // init[0] panics on an empty init
    ensures res.Failure? <==> init.Length != h || init[0].Length != w
    ensures res.Failure? ==> res.error == WrongInitSize
    ensures res.Success? ==>
      var l := res.value;
      fresh(l) && l.Valid() && l.gen == 0 &&
      fresh(l.cur) && l.cur.cs == init && l.cur.h == h && l.cur.w == w &&
      fresh(l.next) && fresh(l.next.cs) && fresh(l.next.Rows()) && l.next.h == h && l.next.w == w
  {
    var cur := new Field(h, w);
    var next := new Field(h, w);
    if init.Length != h || init[0].Length != w {
      return Failure(WrongInitSize);
    }
    cur.cs := init;
    var l := new Life(cur, next);
    return Success(l);
  }
}
