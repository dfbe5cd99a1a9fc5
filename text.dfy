/**
 * The text form of a field: one byte per cell, 'o' for alive.  Reading
 * maps 'o' to alive and every other byte to dead; printing writes 'o' for
 * alive and a space for dead.
 */
module Text {
  newtype byte = x: int | 0 <= x < 256

  const Newline: byte := 10     // '\n'
  const AliveGlyph: byte := 111 // 'o'
  const DeadGlyph: byte := 32   // ' '

  /** The cells bytesToBool reads from a line: alive exactly where the byte is 'o'. */
  function ToCells(line: seq<byte>): (cells: seq<bool>)
    ensures |cells| == |line|
  {
    seq(|line|, i requires 0 <= i < |line| => line[i] == AliveGlyph)
  }

  /** bytesToBool: a fresh array holding ToCells(line). */
  method BytesToBool(line: seq<byte>) returns (b: array<bool>)
    ensures fresh(b)
    ensures b[..] == ToCells(line)
  {
    b := new bool[|line|](_ => false);
    var i := 0;
    while i < |line|
      invariant 0 <= i <= |line|
      invariant forall k :: 0 <= k < i ==> b[k] == (line[k] == AliveGlyph)
    {
      if line[i] == AliveGlyph {
        b[i] := true;
      } else {
        b[i] := false;
      }
      i := i + 1;
    }
  }

  /** The glyph Field.Print writes for a cell. */
  function Glyph(alive: bool): byte {
    if alive then AliveGlyph else DeadGlyph
  }

  /**
   * The buffer Field.Print fills for one row of a field of width w: the
   * row's glyphs, followed by zero bytes where the row is shorter than w.
   * A row longer than w makes Go panic.
   */
  function RowText(row: seq<bool>, w: int): (t: seq<byte>)
    requires |row| <= w
    ensures |t| == w
  {
    seq(w, j requires 0 <= j < w => if j < |row| then Glyph(row[j]) else 0)
  }

  /** A printed row holds no line break, so it stays on its own line. */
  lemma RowTextHasNoNewline(row: seq<bool>, w: int)
    requires |row| <= w
    ensures Newline !in RowText(row, w)
  {
    var t := RowText(row, w);
    forall j | 0 <= j < |t|
      ensures t[j] != Newline
    {
    }
  }

  /** Reading back a printed full row gives the row. */
  lemma RowTextRoundTrip(row: seq<bool>)
    ensures ToCells(RowText(row, |row|)) == row
  {
    var t := RowText(row, |row|);
    forall j | 0 <= j < |row|
      ensures ToCells(t)[j] == row[j]
    {
    }
  }
}
