/**
 * NewLifeFromFile of main.go on the bytes of the file: the text is cut at
 * each '\n' the way bufio.Reader.ReadBytes('\n') cuts it, every complete
 * line becomes a row, and the line break itself becomes the last cell of
 * the row.
 */
module Loader {
  import opened Errors
  import opened Torus
  import opened Board
  import opened Game
  import opened Text

  /** The position of the first line break of s, or |s| when there is none. */
  function NewlineIndex(s: seq<byte>): (k: nat)
    ensures k <= |s|
    ensures k < |s| ==> s[k] == Newline
    ensures forall i :: 0 <= i < k ==> s[i] != Newline
  {
    if |s| == 0 then 0
    else if s[0] == Newline then 0
    else 1 + NewlineIndex(s[1..])
  }

  /** A search that finds a line break in a finds the same one in a + b. */
  lemma {:induction false} NewlineIndexAppend(a: seq<byte>, b: seq<byte>)
    requires NewlineIndex(a) < |a|
    ensures NewlineIndex(a + b) == NewlineIndex(a)
  {
    if a[0] != Newline {
      assert (a + b)[1..] == a[1..] + b;
      NewlineIndexAppend(a[1..], b);
    }
  }

  /** A search through s without a line break runs to the end. */
  lemma {:induction false} NoNewline(s: seq<byte>)
    requires forall i :: 0 <= i < |s| ==> s[i] != Newline
    ensures NewlineIndex(s) == |s|
  {
    if |s| > 0 {
      NoNewline(s[1..]);
    }
  }

  /**
   * One ReadBytes('\n'): the bytes up to and including the first line
   * break, and what is left; without a line break, everything and an end
   * of input (found is false).
   */
  datatype Read = Read(line: seq<byte>, rest: seq<byte>, found: bool)

  /** A complete line: it ends in its only line break. */
  predicate IsLine(l: seq<byte>) {
    |l| > 0 && NewlineIndex(l) == |l| - 1
  }

  function ReadBytes(s: seq<byte>): (r: Read)
    ensures r.line + r.rest == s
    ensures r.found <==> NewlineIndex(s) < |s|
    ensures r.found ==> IsLine(r.line)
    ensures !r.found ==> r.line == s && r.rest == []
  {
    var k := NewlineIndex(s);
    if k == |s| then Read(s, [], false)
    else
      assert s[..k + 1][..k] == s[..k];
      NoNewlineUpTo(s[..k + 1], k);
      Read(s[..k + 1], s[k + 1..], true)
  }

  /** A break at k with none before it is the first break. */
  lemma {:induction false} NoNewlineUpTo(s: seq<byte>, k: nat)
    requires k < |s| && s[k] == Newline && forall i :: 0 <= i < k ==> s[i] != Newline
    ensures NewlineIndex(s) == k
  {
    if k > 0 {
      NoNewlineUpTo(s[1..], k - 1);
    }
  }

  /** ReadBytes finds a line exactly when s holds a line break. */
  lemma ReadBytesFinds(s: seq<byte>)
    ensures ReadBytes(s).found <==> Newline in s
  {
    if Newline in s {
      var i :| 0 <= i < |s| && s[i] == Newline;
      assert NewlineIndex(s) <= i;
    } else {
      NoNewline(s);
    }
  }

  /** The complete lines of s, in order; an unterminated tail is not one. */
  function Lines(s: seq<byte>): (ls: seq<seq<byte>>)
    ensures forall k :: 0 <= k < |ls| ==> IsLine(ls[k])
    ensures |ls| == 0 <==> NewlineIndex(s) == |s|
    decreases |s|
  {
    var r := ReadBytes(s);
    if !r.found then [] else [r.line] + Lines(r.rest)
  }

  /** The lines joined back together. */
  function Join(ls: seq<seq<byte>>): seq<byte> {
    if |ls| == 0 then [] else ls[0] + Join(ls[1..])
  }

  /** The bytes after the last line break of s. */
  function Tail(s: seq<byte>): (t: seq<byte>)
    ensures NewlineIndex(t) == |t|
    decreases |s|
  {
    var r := ReadBytes(s);
    if !r.found then s else Tail(r.rest)
  }

  /** Cutting s into lines loses nothing: the lines and the tail make up s. */
  lemma {:induction false} LinesJoin(s: seq<byte>)
    ensures Join(Lines(s)) + Tail(s) == s
    decreases |s|
  {
    var r := ReadBytes(s);
    if r.found {
      LinesJoin(r.rest);
      assert Lines(s)[1..] == Lines(r.rest);
    }
  }

  /** A complete line at the front of the input is the line ReadBytes returns. */
  lemma FirstLine(l: seq<byte>, rest: seq<byte>)
    requires IsLine(l)
    ensures ReadBytes(l + rest) == Read(l, rest, true)
  {
    NewlineIndexAppend(l, rest);
    assert (l + rest)[..|l|] == l;
    assert (l + rest)[|l|..] == rest;
  }

  /** Cutting undoes joining: complete lines followed by a tail without a break. */
  lemma {:induction false} JoinLines(ls: seq<seq<byte>>, t: seq<byte>)
    requires forall k :: 0 <= k < |ls| ==> IsLine(ls[k])
    requires NewlineIndex(t) == |t|
    ensures Lines(Join(ls) + t) == ls
    ensures Tail(Join(ls) + t) == t
    decreases |ls|
  {
    if |ls| == 0 {
      assert Join(ls) + t == t;
    } else {
      var l := ls[0];
      var rest := Join(ls[1..]) + t;
      assert Join(ls) + t == l + rest;
      FirstLine(l, rest);
      JoinLines(ls[1..], t);
      assert ls == [l] + ls[1..];
    }
  }

  /** The rows bytesToBool makes of the lines, one row per line. */
  function LinesToGrid(ls: seq<seq<byte>>): (g: Grid)
    ensures |g| == |ls|
    ensures forall k :: 0 <= k < |ls| ==> g[k] == ToCells(ls[k])
  {
    seq(|ls|, k requires 0 <= k < |ls| => ToCells(ls[k]))
  }

  /** Every line of ls has length n. */
  predicate Even(ls: seq<seq<byte>>, n: int)
    decreases |ls|
  {
    |ls| == 0 || (|ls[0]| == n && Even(ls[1..], n))
  }

  /** Even checks the length of every line. */
  lemma {:induction false} EvenMeansAll(ls: seq<seq<byte>>, n: int)
    ensures Even(ls, n) <==> forall k :: 0 <= k < |ls| ==> |ls[k]| == n
    decreases |ls|
  {
    if |ls| > 0 {
      EvenMeansAll(ls[1..], n);
      assert forall k :: 0 < k < |ls| ==> ls[1..][k - 1] == ls[k];
    }
  }

  /** The lines of a + b are even exactly when those of a and of b are. */
  lemma {:induction false} EvenAppend(a: seq<seq<byte>>, b: seq<seq<byte>>, n: int)
    ensures Even(a + b, n) <==> Even(a, n) && Even(b, n)
    decreases |a|
  {
    if |a| == 0 {
      assert a + b == b;
    } else {
      assert (a + b)[1..] == a[1..] + b;
      EvenAppend(a[1..], b, n);
    }
  }

  /**
   * What NewLifeFromFile makes of the bytes of a file: no complete line is
   * the end-of-input error; a later line whose length differs from the
   * first one's is ColumnSize; otherwise one row per complete line, its
   * cells read by bytesToBool, the line break included.
   */
  function Load(buf: seq<byte>): Result<Grid> {
    var ls := Lines(buf);
    if |ls| == 0 then Failure(EndOfFile)
    else if !Even(ls, |ls[0]|) then Failure(ColumnSize)
    else Success(LinesToGrid(ls))
  }

  /**
   * A successful load has one row per complete line, all as wide as the
   * first line including its break, alive exactly at the 'o' bytes, and
   * with a dead last column.
   */
  lemma LoadShape(buf: seq<byte>)
    requires Load(buf).Success?
    ensures var g := Load(buf).value; var ls := Lines(buf);
      |ls| > 0 && IsGrid(g, |ls|, |ls[0]|) &&
      (forall k, j :: 0 <= k < |ls| && 0 <= j < |ls[0]| ==> (g[k][j] <==> ls[k][j] == AliveGlyph)) &&
      (forall k :: 0 <= k < |ls| ==> !g[k][|ls[0]| - 1])
  {
    var ls := Lines(buf);
    assert |ls| > 0 && Even(ls, |ls[0]|) && Load(buf).value == LinesToGrid(ls);
    assert IsLine(ls[0]);
    EvenMeansAll(ls, |ls[0]|);
    GridOfLines(ls, |ls[0]|);
  }

  /** Complete lines of length n make an n-column grid whose last column is dead. */
  lemma GridOfLines(ls: seq<seq<byte>>, n: int)
    requires 0 < n && forall k :: 0 <= k < |ls| ==> IsLine(ls[k]) && |ls[k]| == n
    ensures var g := LinesToGrid(ls);
      IsGrid(g, |ls|, n) &&
      (forall k, j :: 0 <= k < |ls| && 0 <= j < n ==> (g[k][j] <==> ls[k][j] == AliveGlyph)) &&
      (forall k :: 0 <= k < |ls| ==> !g[k][n - 1])
  {
  }

  /** Every failure of Load: no line break at all, or a line of another length. */
  lemma LoadFails(buf: seq<byte>)
    ensures Load(buf) == Failure(EndOfFile) <==> Newline !in buf
    ensures Load(buf) == Failure(ColumnSize) <==>
      Newline in buf && exists k :: 0 < k < |Lines(buf)| && |Lines(buf)[k]| != |Lines(buf)[0]|
  {
    ReadBytesFinds(buf);
    var ls := Lines(buf);
    if |ls| > 0 {
      EvenMeansAll(ls, |ls[0]|);
      if !Even(ls, |ls[0]|) {
        var k :| 0 <= k < |ls| && |ls[k]| != |ls[0]|;
        assert 0 < k;
      }
    }
  }

  /** A search through a and then b, neither holding a line break, runs to the end. */
  lemma {:induction false} NoNewlineAppend(a: seq<byte>, b: seq<byte>)
    requires NewlineIndex(a) == |a| && Newline !in b
    ensures NewlineIndex(a + b) == |a + b|
    decreases |a|
  {
    if |a| == 0 {
      assert a + b == b;
      NoNewline(b);
    } else {
      assert (a + b)[1..] == a[1..] + b;
      NoNewlineAppend(a[1..], b);
    }
  }

  /** Bytes appended to s follow its tail: s + t is the lines of s, then the tail and t. */
  lemma SplitAppend(s: seq<byte>, t: seq<byte>)
    ensures s + t == Join(Lines(s)) + (Tail(s) + t)
  {
    LinesJoin(s);
    assert s + t == (Join(Lines(s)) + Tail(s)) + t;
  }

  /** Bytes without a line break appended to s add no complete line. */
  lemma LinesIgnoreTail(s: seq<byte>, t: seq<byte>)
    requires Newline !in t
    ensures Lines(s + t) == Lines(s)
  {
    var ls := Lines(s);
    var t' := Tail(s) + t;
    SplitAppend(s, t);
    NoNewlineAppend(Tail(s), t);
    JoinLines(ls, t');
  }

  /** Bytes after the last line break never change the load. */
  lemma LoadIgnoresTail(buf: seq<byte>, t: seq<byte>)
    requires Newline !in t
    ensures Load(buf + t) == Load(buf)
  {
    LinesIgnoreTail(buf, t);
  }

  /** The text Field.Print writes for the rows of g of width w, each row on its own line. */
  function Render(g: Grid, w: int): seq<byte>
    requires forall k :: 0 <= k < |g| ==> |g[k]| <= w
  {
    if |g| == 0 then [] else RowText(g[0], w) + [Newline] + Render(g[1..], w)
  }

  /** The printed lines of g. */
  function RenderedLines(g: Grid, w: int): (ls: seq<seq<byte>>)
    requires forall k :: 0 <= k < |g| ==> |g[k]| <= w
    ensures |ls| == |g|
    ensures forall k :: 0 <= k < |g| ==> ls[k] == RowText(g[k], w) + [Newline]
  {
    seq(|g|, k requires 0 <= k < |g| => RowText(g[k], w) + [Newline])
  }

  lemma {:induction false} RenderJoin(g: Grid, w: int)
    requires forall k :: 0 <= k < |g| ==> |g[k]| <= w
    ensures Render(g, w) == Join(RenderedLines(g, w))
    decreases |g|
  {
    if |g| > 0 {
      RenderJoin(g[1..], w);
      assert RenderedLines(g, w)[1..] == RenderedLines(g[1..], w);
    }
  }

  /** Text whose complete lines all have length n loads one row per line. */
  lemma LoadEvenLines(buf: seq<byte>, n: int)
    requires |Lines(buf)| > 0 && forall k :: 0 <= k < |Lines(buf)| ==> |Lines(buf)[k]| == n
    ensures Load(buf) == Success(LinesToGrid(Lines(buf)))
  {
    var ls := Lines(buf);
    EvenMeansAll(ls, n);
  }

  /** The lines of the printed text are the printed lines. */
  lemma RenderLines(g: Grid, w: int)
    requires forall k :: 0 <= k < |g| ==> |g[k]| <= w
    ensures Lines(Render(g, w)) == RenderedLines(g, w)
  {
    var ls := RenderedLines(g, w);
    forall k | 0 <= k < |g|
      ensures IsLine(ls[k])
    {
      RowTextHasNoNewline(g[k], w);
      assert forall i :: 0 <= i < w ==> ls[k][i] == RowText(g[k], w)[i];
      NoNewlineUpTo(ls[k], w);
    }
    RenderJoin(g, w);
    JoinLines(ls, []);
    assert Render(g, w) == Join(ls) + [];
  }

  /** A printed full row read back has a dead cell for its line break. */
  lemma RenderedRowCells(row: seq<bool>)
    ensures ToCells(RowText(row, |row|) + [Newline]) == row + [false]
  {
    RowTextRoundTrip(row);
    assert ToCells(RowText(row, |row|) + [Newline]) == ToCells(RowText(row, |row|)) + ToCells([Newline]);
  }

  /**
   * Reading back what Field.Print writes for a non-empty h x w grid gives
   * the grid with one dead column more: the line break is read as a cell.
   */
  lemma LoadRender(g: Grid, h: int, w: int)
    requires 0 < h && IsGrid(g, h, w)
    ensures Load(Render(g, w)) == Success(seq(h, k requires 0 <= k < h => g[k] + [false]))
  {
    RenderLines(g, w);
    LoadEvenLines(Render(g, w), w + 1);
    RenderedCells(g, h, w);
  }

  /** The rows read from the printed lines of g: each row of g and a dead cell. */
  lemma RenderedCells(g: Grid, h: int, w: int)
    requires IsGrid(g, h, w)
    ensures LinesToGrid(RenderedLines(g, w)) == seq(h, k requires 0 <= k < h => g[k] + [false])
  {
    var ls := RenderedLines(g, w);
    var cells := seq(h, k requires 0 <= k < h => g[k] + [false]);
    forall k | 0 <= k < h
      ensures ToCells(ls[k]) == cells[k]
    {
      RenderedRowCells(g[k]);
    }
  }

  /** Without a complete first line the load fails with the end of input. */
  lemma LoadNoLine(buf: seq<byte>)
    requires !ReadBytes(buf).found
    ensures Load(buf) == Failure(EndOfFile)
  {
  }

  /** A complete line of another length than the first fails the load. */
  lemma LoadUnevenLine(buf: seq<byte>, read: seq<seq<byte>>, rest: seq<byte>)
    requires |read| > 0 && Lines(buf) == read + Lines(rest)
    requires ReadBytes(rest).found && |ReadBytes(rest).line| != |read[0]|
    ensures Load(buf) == Failure(ColumnSize)
  {
    LinesNext(rest);
    EvenAppend(read, Lines(rest), |read[0]|);
  }

  /** One more complete line read from rest. */
  lemma LinesNext(rest: seq<byte>)
    requires ReadBytes(rest).found
    ensures Lines(rest) == [ReadBytes(rest).line] + Lines(ReadBytes(rest).rest)
  {
  }

  /**
   * The reading part of NewLifeFromFile: the reader is the unread suffix
   * rest, and the rows are collected as in Go's init slice, one fresh row
   * per complete line, until the input ends or a line of another length
   * than the first turns up.  colsize is the length of the first line.
   */
  method ReadRows(buf: seq<byte>) returns (res: Result<seq<array<bool>>>, colsize: int, ghost cells: Grid)
    ensures res.Failure? ==> Load(buf) == Failure(res.error)
    ensures res.Success? ==>
      Load(buf) == Success(cells) && colsize == |Lines(buf)[0]| && |res.value| == |cells| &&
      forall k :: 0 <= k < |cells| ==> res.value[k][..] == cells[k]
  {
    var r := ReadBytes(buf);
    if !r.found {
      LoadNoLine(buf);
      return Failure(EndOfFile), 0, [];
    }
    colsize := |r.line|;
    var firstRow := BytesToBool(r.line);
    var rows := [firstRow];
    cells := [ToCells(r.line)];
    ghost var read := [r.line];
    var rest := r.rest;
    LinesNext(buf);
    while true
      invariant 1 <= |rows| == |read| && forall k :: 0 <= k < |read| ==> |read[k]| == colsize
      invariant Lines(buf) == read + Lines(rest)
      invariant |cells| == |rows| && forall k :: 0 <= k < |rows| ==> rows[k][..] == cells[k]
      invariant cells == LinesToGrid(read)
      decreases |rest|
    {
      var line := ReadBytes(rest);
      if !line.found {
        break;
      }
      if |line.line| != colsize {
        LoadUnevenLine(buf, read, rest);
        return Failure(ColumnSize), colsize, cells;
      }
      ReadMore(buf, read, rest, colsize);
      rows, cells := AppendRow(rows, cells, line.line);
      read := read + [line.line];
      rest := line.rest;
    }
    ReadDone(buf, read, rest, colsize);
    return Success(rows), colsize, cells;
  }

  /**
   * NewLifeFromFile on the bytes of the file: the rows read are handed to
   * NewLife with h the number of rows and w the length of the first line.
   * NewLife cannot fail here: h and w are len(init) and len(init[0]).
   */
  method NewLifeFromFile(buf: seq<byte>) returns (res: Result<Life>)
    ensures res.Failure? ==> Load(buf) == Failure(res.error)
    ensures res.Success? ==>
      var l := res.value;
      fresh(l) && l.Valid() && l.gen == 0 && l.cur.Rectangular() && Load(buf) == Success(l.cur.Cells()) &&
      fresh(l.cur) && fresh(l.next) && fresh(l.next.cs) && fresh(l.next.Rows()) &&
      l.next.h == l.cur.h && l.next.w == l.cur.w
  {
    var rows, colsize;
    ghost var cells;
    rows, colsize, cells := ReadRows(buf);
    if rows.Failure? {
      return Failure(rows.error);
    }
    LoadShape(buf);
    var init := new array<bool>[|rows.value|](k requires 0 <= k < |rows.value| => rows.value[k]);
    res := NewLife(|rows.value|, colsize, init);
    assert res.Success?;
    assert res.value.cur.Cells() == cells;
  }

  /**
   * A complete line as long as the first moves from the unread suffix to
   * the lines read, all of which keep the length of the first.
   */
  lemma ReadMore(buf: seq<byte>, read: seq<seq<byte>>, rest: seq<byte>, n: int)
    requires forall k :: 0 <= k < |read| ==> |read[k]| == n
    requires Lines(buf) == read + Lines(rest)
    requires ReadBytes(rest).found && |ReadBytes(rest).line| == n
    ensures var line := ReadBytes(rest);
      var read' := read + [line.line];
      (forall k :: 0 <= k < |read'| ==> |read'[k]| == n) && Lines(buf) == read' + Lines(line.rest) &&
      LinesToGrid(read') == LinesToGrid(read) + [ToCells(line.line)]
  {
    var line := ReadBytes(rest);
    var read' := read + [line.line];
    assert Lines(buf) == read' + Lines(line.rest) by {
      LinesNext(rest);
      assert read + ([line.line] + Lines(line.rest)) == read' + Lines(line.rest);
    }
    LinesToGridAppend(read, line.line);
  }

  /** Once no complete line is left, the lines read are all of them and the load succeeds. */
  lemma ReadDone(buf: seq<byte>, read: seq<seq<byte>>, rest: seq<byte>, n: int)
    requires 1 <= |read| && forall k :: 0 <= k < |read| ==> |read[k]| == n
    requires Lines(buf) == read + Lines(rest) && !ReadBytes(rest).found
    ensures Lines(buf) == read && Load(buf) == Success(LinesToGrid(read)) && n == |Lines(buf)[0]|
  {
    assert read + [] == read;
    EvenMeansAll(read, n);
  }

  /** append(init, bytesToBool(line)), with the cells of the rows alongside. */
  method AppendRow(rows: seq<array<bool>>, ghost cells: Grid, line: seq<byte>)
    returns (rows': seq<array<bool>>, ghost cells': Grid)
    requires |cells| == |rows| && forall k :: 0 <= k < |rows| ==> rows[k][..] == cells[k]
    ensures |rows'| == |rows| + 1 && rows'[..|rows|] == rows && fresh(rows'[|rows|])
    ensures cells' == cells + [ToCells(line)]
    ensures forall k :: 0 <= k < |rows'| ==> rows'[k][..] == cells'[k]
  {
    var row := BytesToBool(line);
    rows' := rows + [row];
    cells' := cells + [ToCells(line)];
  }

  /** One more line is one more row. */
  lemma LinesToGridAppend(ls: seq<seq<byte>>, l: seq<byte>)
    ensures LinesToGrid(ls + [l]) == LinesToGrid(ls) + [ToCells(l)]
  {
  }
}
