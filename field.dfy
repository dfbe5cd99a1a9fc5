/**
 * The Field of main.go: an h x w matrix of cells held as an array of row
 * arrays, like Go's [][]bool.  Rows are separate objects, so two rows (or two
 * fields) may share storage; the contracts below say which writes are seen
 * where.
 */
module Board {
  import opened Errors
  import opened Torus

  /**
   * Go's % on int for a positive modulus: truncated toward zero, so the
   * remainder takes the sign of a.  It agrees with the mathematical a mod m
   * for a >= 0 and is m less than it when a is negative and not a multiple.
   */
  function GoRem(a: int, m: int): (r: int)
    requires 0 < m
    ensures a >= 0 ==> r == a % m
    ensures a < 0 ==> -m < r <= 0
    ensures a < 0 ==> r == if a % m == 0 then 0 else a % m - m
  {
    if a >= 0 then a % m
    else
      NegatedMod(-a, m);
      -((-a) % m)
  }

  /** The remainder of -b is m minus that of b, unless m divides b. */
  lemma NegatedMod(b: int, m: int)
    requires 0 < m
    ensures (-b) % m == if b % m == 0 then 0 else m - b % m
  {
    if b % m != 0 {
      ModUnique(-b, m, -(b / m) - 1, m - b % m);
    } else {
      ModUnique(-b, m, -(b / m), 0);
    }
  }

  /**
   * The index a toroidal read uses when a >= -m: Go's (a + m) % m, which is
   * a mod m, and a itself when a is already in [0, m).
   */
  lemma WrapIndex(a: int, m: int)
    requires 0 < m && a >= -m
    ensures GoRem(a + m, m) == a % m
    ensures 0 <= a < m ==> a % m == a
  {
    ModShift(a, m);
    ModInRange(a, m);
  }

  /** Below -m the Go formula yields a negative index unless m divides a. */
  lemma WrapIndexNegative(a: int, m: int)
    requires 0 < m && a < -m && a % m != 0
    ensures GoRem(a + m, m) < 0
  {
    ModShift(a, m);
  }

  class Field {
    var cs: array<array<bool>>  // the rows of the field
    var w: int                  // width
    var h: int                  // height

    /** The field has exactly h rows. */
    ghost predicate Valid()
      reads this
    {
      cs.Length == h
    }

    /** The row arrays. */
    ghost function Rows(): set<array<bool>>
      reads this, cs
    {
      set i | 0 <= i < cs.Length :: cs[i]
    }

    /** Every row holds exactly w cells. */
    ghost predicate Rectangular()
      reads this, cs
    {
      Valid() && forall i :: 0 <= i < cs.Length ==> cs[i].Length == w
    }

    /** No two rows share storage. */
    ghost predicate DistinctRows()
      reads this, cs
    {
      forall i, j :: 0 <= i < j < cs.Length ==> cs[i] != cs[j]
    }

    /** The cells, row by row. */
    ghost function Cells(): (g: Grid)
      reads this, cs, Rows()
      ensures |g| == cs.Length
      ensures forall i :: 0 <= i < cs.Length ==> g[i] == cs[i][..]
    {
      seq(cs.Length, i requires 0 <= i < cs.Length reads this, cs, Rows() => cs[i][..])
    }

    /** NewField(h, w): an h x w field of dead cells, each row freshly allocated. */
    constructor (h: int, w: int)
      requires 0 <= h && (h == 0 || 0 <= w)  // Go's make panics on a negative length
      ensures this.h == h && this.w == w
      ensures Valid() && Rectangular() && DistinctRows()
      ensures fresh(cs) && forall i :: 0 <= i < h ==> fresh(cs[i])
      ensures IsDead(Cells())
    {
      var empty := new bool[0];
      var rows := new array<bool>[h](_ => empty);
      var i := 0;
      while i < h
        invariant 0 <= i <= h
        invariant forall k :: 0 <= k < i ==> fresh(rows[k]) && rows[k].Length == w
        invariant forall k, m :: 0 <= k < i && 0 <= m < rows[k].Length ==> !rows[k][m]
        invariant forall k, l :: 0 <= k < l < i ==> rows[k] != rows[l]
      {
        rows[i] := new bool[w](_ => false);
        i := i + 1;
      }
      cs, this.w, this.h := rows, w, h;
    }

    /**
     * Set: a bounds-checked write.  Inside [0, h) x [0, w) it stores b at
     * (r, c) and passes; outside it fails with OutOfField and writes nothing.
     * The bounds are h and w, not the row's length: a row shorter than w
     * makes Go panic, which the second requires excludes.
     */
    method Set(r: int, c: int, b: bool) returns (err: Outcome)
      requires Valid()
      requires 0 <= r < h && 0 <= c < w ==> c < cs[r].Length
      modifies Rows()
      ensures err == if 0 <= r < h && 0 <= c < w then Pass else Fail(OutOfField)
      ensures err.Pass? ==> cs[r][..] == old(cs[r][..])[c := b]
      ensures forall i :: 0 <= i < cs.Length && (err.Fail? || cs[i] != cs[r]) ==> cs[i][..] == old(cs[i][..])
      ensures DistinctRows() ==>
        Cells() == if err.Pass? then old(Cells())[r := old(Cells())[r][c := b]] else old(Cells())
    {
      if r < 0 || r >= h || c < 0 || c >= w {
        return Fail(OutOfField);
      }
      cs[r][c] := b;
      err := Pass;
      if DistinctRows() {
        assert forall i :: 0 <= i < cs.Length && i != r ==> cs[i] != cs[r];
      }
    }

    /**
     * Alive: a wrap-around read.  The row index is Go's (r + h) % h, which
     * is r mod h only for r >= -h (more negative indices panic), and likewise
     * for the column.
     */
    function Alive(r: int, c: int): (b: bool)
      reads this, cs, Rows()
      requires Valid() && 0 < h && 0 < w && r >= -h && c >= -w
      requires c % w < cs[r % h].Length
      ensures b == cs[r % h][c % w]
      ensures 0 <= r < h && 0 <= c < w ==> c < cs[r].Length && b == cs[r][c]
    {
      WrapIndex(r, h);
      WrapIndex(c, w);
      var i, j := GoRem(r + h, h), GoRem(c + w, w);
      assert cs[i] in Rows();
      cs[i][j]
    }

    /** On a rectangular field Alive is the toroidal read of its cells. */
    lemma AliveIsCell(r: int, c: int)
      requires Rectangular() && 0 < h && 0 < w && r >= -h && c >= -w
      ensures IsGrid(Cells(), h, w) && Alive(r, c) == Cell(Cells(), h, w, r, c)
    {
    }

    /** Alive reads the field periodically: one full turn in either direction is no move. */
    lemma AlivePeriodic(r: int, c: int)
      requires Rectangular() && 0 < h && 0 < w && r >= -h && c >= -w
      ensures Alive(r, c) == Alive(r + h, c)
      ensures Alive(r, c) == Alive(r, c + w)
    {
      ModShift(r, h);
      ModShift(c, w);
    }

    /** One step of NextGen's scan: the alive offset adds one to the count. */
    lemma ScanAlive(g: Grid, r: int, c: int, i: int, j: int, p: nat, alive: nat)
      requires Rectangular() && 0 < h && 0 < w && r >= 1 - h && c >= 1 - w && g == Cells()
      requires -1 <= i <= 1 && -1 <= j <= 1 && p == 3 * (i + 1) + (j + 1)
      requires alive == Scanned(g, h, w, r, c, p)
      ensures (c + j) % w < cs[(r + i) % h].Length
      ensures alive + Count((i != 0 || j != 0) && Alive(r + i, c + j)) == Scanned(g, h, w, r, c, p + 1)
    {
      ScanStep(g, h, w, r, c, i, j);
      AliveIsCell(r + i, c + j);
    }

    /**
     * NextGen: whether (r, c) is alive next generation.  It scans the 3 x 3
     * block around (r, c), skipping the centre, counts the alive cells, and
     * applies B3/S23.  It changes nothing.
     */
    method NextGen(r: int, c: int) returns (b: bool)
      requires Rectangular() && 0 < h && 0 < w && r >= 1 - h && c >= 1 - w
      ensures b == NextState(Cells(), h, w, r, c)
    {
      ghost var g := Cells();
      assert IsGrid(g, h, w);
      var alive := 0;
      ghost var p := 0;
      var i := -1;
      while i <= 1
        invariant -1 <= i <= 2 && p == 3 * (i + 1)
        invariant alive == Scanned(g, h, w, r, c, p)
        invariant Cells() == g
      {
        var j := -1;
        while j <= 1
          invariant -1 <= j <= 2 && p == 3 * (i + 1) + (j + 1)
          invariant alive == Scanned(g, h, w, r, c, p)
          invariant Cells() == g
        {
          ScanAlive(g, r, c, i, j, p, alive);
          if (i != 0 || j != 0) && Alive(r + i, c + j) {
            alive := alive + 1;
          }
          p := p + 1;
          j := j + 1;
        }
        i := i + 1;
      }
      AliveIsCell(r, c);
      b := alive == 3 || (alive == 2 && Alive(r, c));
      RuleOfCount(g, h, w, r, c, p, alive);
    }
  }
}
