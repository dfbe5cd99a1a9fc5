# lifegame in Dafny

A model of the Game of Life engine of ymotongpoo/lifegame (`main.go`), with
proofs about it.

- **Field:** an `h x w` matrix of cells, held as an array of row arrays
  like Go's `[][]bool`. It supports:
  - `Set`, a bounds-checked write;
  - `Alive`, a wrap-around read that uses Go's truncated `%`;
  - `NextGen`, which counts the eight neighbours of a cell and applies the
    B3/S23 rule.
- **Life:** holds the current field `cur`, the buffer `next` and the
  generation counter `gen`.
  - `Next` writes the next generation into `next` cell by cell through
    `Set`, swaps the fields and allocates a fresh buffer.
  - `NewLife` builds a Life around a caller's rows.
  - `NewLifeFromFile` reads the rows from the bytes of a text file.

The model is split into modules:

- `Torus` (torus.dfy) states the rule on values: a `Grid` is a
  `seq<seq<bool>>`, `Cell` reads it modulo the height and width,
  `Neighbours` counts in the same 3 x 3 scan order as `NextGen`,
  `NextState` is B3/S23, `Step` is one generation and `Generations` is n
  of them.
- `Board` (field.dfy) is the class `Field`:
  - the constructor is `NewField`;
  - `Set` and `NextGen` are methods and `Alive` is a function;
  - `GoRem` is Go's `%`.
- `Game` (life.dfy) is the class `Life`, with `Next`, and `NewLife`.
  `NextCorrected` allocates the buffer untransposed, and `Run` and
  `RunCorrected` are n rounds of the loop of `main`.
  - `Overlay` describes what the double loop of `Next` leaves in `next`:
    the new generation written cell by cell, each write checked against
    the bounds of `next`. Cells outside `next` are dropped, and cells of
    `next` the generation do not reach are left as they were.
- `Text` (text.dfy) has the byte level: `bytesToBool` and the row buffer
  that `Field.Print` fills.
- `Loader` (loader.dfy) reads a file. `Load` is what `NewLifeFromFile`
  makes of the file's contents:
  - `ReadBytes` is one `bufio.Reader.ReadBytes('\n')` and `Lines` are
    the complete lines.
  - No complete line at all is the end-of-input error.
  - A later complete line of another length than the first is
    `ColumnSize`.
  - Otherwise there is one row per complete line, with `'o'` alive and
    every other byte dead. The width counts the line break. A tail
    without a line break is ignored.
  - `NewLifeFromFile` is the method that does this with a loop and
    arrays, proved equal to `Load`.
- `Patterns` (patterns.dfy) checks two known patterns under `Step`: the
  2 x 2 block is a still life and the beacon has period two. Each is
  checked row by row, since a row of the next generation depends only on
  three rows of the current one.
- `Errors` (errors.dfy) has the error values the source returns.

Go panics become preconditions:
- `make` with a negative length;
- `init[0]` of an empty slice;
- `Alive` outside the range its formula serves;
- writing past the end of a short row.

Go errors become `Outcome` and `Result` values.

## Model

| member | source | states |
|---|---|---|
| Torus.NextState | main.go:64 | B3: a dead cell becomes alive iff it has exactly three alive neighbours; S23: an alive cell stays alive iff it has two or three |
| Torus.Neighbours | main.go:56-63 | the neighbour count is at most eight |
| Torus.NeighboursAreEightOffsets | main.go:57-63 | the scan count equals the sum over the eight offsets (i, j) != (0, 0) around the cell, read with wrap-around |
| Torus.ScanStep | main.go:57-62 | each step of the double loop adds the offset (i, j) to the count, except the centre |
| Torus.CellPeriodic | main.go:47-51 | wrap-around reads do not change by a full turn of h rows or w columns, and inside the grid they read the cell itself |
| Torus.Step | main.go:152-157 | the next generation of an h x w grid is again h x w |
| Torus.StepByCells | main.go:153-157 | a grid that agrees with the next state in every cell is the next generation |
| Torus.RuleAt | main.go:56-64 | the next state of a cell is B3/S23 applied to the sum of its eight wrapped neighbours, each named by its wrapped row and column |
| Torus.StepRow | main.go:55-64 | row i of the next generation depends only on rows i - 1, i and i + 1, wrapped around: it is RowNext of those three rows |
| Torus.LonelyCellDies | main.go:64 | a cell with no alive neighbour is dead next generation |
| Torus.ScannedDead | main.go:56-63 | on a grid with no alive cell every partial scan counts zero |
| Torus.DeadStepsToDead | main.go:152-158 | a grid with no alive cell is its own next generation |
| Torus.DeadStaysDead | main.go:152-161 | a grid with no alive cell stays unchanged for any number of generations |
| Board.GoRem | main.go:48-49 | Go's `%`: the Euclidean remainder for a >= 0; for a < 0 it lies in (-m, 0] and is m less than the Euclidean one unless m divides a |
| Board.WrapIndex | main.go:48-49 | for a >= -m the index `(a + m) % m` is a mod m |
| Board.WrapIndexNegative | main.go:48-49 | for a < -m and a not a multiple of m the index `(a + m) % m` is negative, so the read would panic |
| Board.Field.constructor | main.go:28-34 | NewField(h, w): h fresh, distinct rows of w dead cells, with the fields h and w set |
| Board.Field.Set | main.go:37-43 | inside [0, h) x [0, w): passes and writes exactly cell (r, c), no other row changes; outside: fails with OutOfField and nothing changes |
| Board.Field.Alive | main.go:47-51 | for r >= -h and c >= -w it reads cell (r mod h, c mod w), and inside the field cell (r, c) itself |
| Board.Field.AliveIsCell | main.go:47-51 | on a rectangular field Alive is the wrap-around read of the cells |
| Board.Field.AlivePeriodic | main.go:47-51 | `Alive(r, c) == Alive(r + h, c)` and `Alive(r, c) == Alive(r, c + w)` |
| Board.Field.ScanAlive | main.go:59-61 | one pass of the inner loop body adds exactly the alive non-centre neighbour at offset (i, j) |
| Board.Field.NextGen | main.go:55-65 | returns the B3/S23 next state of (r, c) in the current cells, and changes nothing |
| Game.PatchNext | main.go:154-156 | one more passing write of the inner loop puts the next cell into the row |
| Game.OverlayCells | main.go:153-157 | after the double loop next keeps its shape; each of its cells holds the new generation where both fields have that cell, and its old value elsewhere |
| Game.OverlaySameShape | main.go:153-157 | written into a buffer of its own shape, the generation replaces the buffer entirely |
| Game.OverlayDead | main.go:153-157 | written into a dead buffer of another shape, the generation survives only where the shapes overlap |
| Game.DeadOverlayStep | main.go:152-158 | an all-dead field written into a dead buffer of any shape leaves it dead |
| Game.SameShapeStep | main.go:153-157 | if next has the shape of cur, the double loop leaves exactly the next generation in next |
| Game.Life.constructor | main.go:96 | the Life literal: the given fields and gen 0 |
| Game.Life.FillCell | main.go:155 | `next.Set(i, j, cur.NextGen(i, j))`: the cell takes its next state if next has it, nothing else changes, cur is untouched |
| Game.Life.FillRow | main.go:154-156 | row i of next takes the next generation in the columns it has; the other rows and cur are untouched |
| Game.Life.Fill | main.go:153-157 | next becomes the overlay of the next generation on the old buffer; cur is untouched |
| Game.Life.Advance | main.go:152-158 | the double loop and `l.cur = l.next`: gen grows by one; cur is the old buffer, holding the overlay of the next generation, and the whole next generation when the shapes agreed |
| Game.Life.Next | main.go:152-161 | gen grows by one; cur becomes the old buffer, holding the overlay of the next generation (the whole next generation when the shapes agreed; with DeadOverlayStep, an all-dead field stays dead); the fresh next is dead and transposed (h = cur.w, w = cur.h) |
| Game.Life.NextCorrected | main.go:152-161 | with a buffer of the field's shape, cur becomes exactly the next generation, its shape is kept, and the fresh next again has that shape, so the next round may be called again |
| Game.Life.RunCorrected | main.go:181-184 | n rounds of NextCorrected take the field through n generations: `cur.Cells() == Generations(g, h, w, n)`, gen grows by n, and the shapes are kept |
| Game.Life.Run | main.go:181-184 | on a square field, n rounds of Next as written take the field through n generations, since the transposed buffer has the field's shape |
| Game.TransposedAfterTwoRounds | main.go:159 | two rounds of Next on a 1 x 2 field leave a 2 x 1 field |
| Game.ShapeKeptAfterTwoRounds | main.go:159 | two rounds of NextCorrected on a 1 x 2 field leave a 1 x 2 field |
| Game.NewLife | main.go:89-97 | fails with WrongInitSize iff `len(init) != h` or `len(init[0]) != w`; on success gen is 0, cur's rows are init itself and next is a fresh dead h x w field |
| Patterns.BlockIsStill | main.go:152-157 | the 2 x 2 block on a 4 x 4 torus is its own next generation |
| Patterns.BlockRows | main.go:55-64 | each row of the block, between its neighbouring rows, stays as it is |
| Patterns.BeaconFlips | main.go:152-157 | one generation turns each phase of the beacon on a 6 x 6 torus into the other: the touching corners die or are born, the other six cells survive |
| Patterns.BeaconPeriodTwo | main.go:152-161 | the beacon changes in one generation and is back after two |
| Text.BytesToBool | main.go:138-148 | a fresh array holding ToCells(line): alive exactly at the `'o'` bytes |
| Text.RowText | main.go:70-77 | the buffer for a row of a width-w field has exactly w bytes |
| Text.RowTextHasNoNewline | main.go:72-76 | a printed row holds no line break |
| Text.RowTextRoundTrip | main.go:72-76 | reading a printed full row back with bytesToBool gives the row |
| Loader.NewlineIndex | main.go:109 | the position of the first line break, or the length when there is none |
| Loader.NewlineIndexAppend | main.go:109 | a line break found in a is found at the same place in a + b |
| Loader.ReadBytes | main.go:109 | the bytes up to and including the first line break plus the rest; without a break, everything, and found is false |
| Loader.ReadBytesFinds | main.go:109-112 | ReadBytes finds a line iff the input holds a line break |
| Loader.FirstLine | main.go:119 | a complete line at the front of the input is the line ReadBytes returns |
| Loader.Lines | main.go:118-122 | the complete lines: each ends in its only line break, and there are none iff there is no break |
| Loader.LinesJoin | main.go:118-122 | the lines and the tail make up the input again |
| Loader.JoinLines | main.go:118-122 | cutting undoes joining: complete lines followed by a tail without a break cut into those lines and that tail |
| Loader.Tail | main.go:119-121 | the tail after the last line break holds no break |
| Loader.LinesIgnoreTail | main.go:119-121 | bytes without a line break after the input add no line |
| Loader.LoadIgnoresTail | main.go:119-121 | an unterminated final line never changes the result |
| Loader.LinesToGridAppend | main.go:126 | one more line is one more row |
| Loader.EvenMeansAll | main.go:123-125 | the length check of the loop accepts iff every line has the first line's length |
| Loader.EvenAppend | main.go:123-125 | the lines of a + b pass the check iff those of a and of b do |
| Loader.LoadUnevenLine | main.go:123-125 | a complete line of another length than the first fails with ColumnSize |
| Loader.LoadEvenLines | main.go:118-131 | when all complete lines have the same length the load succeeds with one row per line |
| Loader.LoadShape | main.go:113-126 | a successful load is a grid with one row per line and colsize columns counting the line break; a cell is alive iff its byte is `'o'`; the last column is dead |
| Loader.GridOfLines | main.go:113-126 | complete lines of length n make an n-column grid, alive at the `'o'` bytes, dead in the last column |
| Loader.LoadFails | main.go:109-125 | the end-of-input error iff the input holds no line break; ColumnSize iff it does and some later line differs in length from the first |
| Loader.RenderJoin | main.go:69-79 | the printed text is the printed lines joined |
| Loader.RenderLines | main.go:69-79 | cutting the printed text gives back the printed lines |
| Loader.RenderedRowCells | main.go:72-76 | a printed row read back gives the row and a dead cell for the line break |
| Loader.RenderedCells | main.go:72-76 | the rows read from the printed lines are the rows with a dead cell added |
| Loader.LoadRender | main.go:68-80 | loading what Field.Print writes for an h x w grid gives the grid with one dead column added |
| Loader.AppendRow | main.go:126 | `append(init, bytesToBool(line))`: one fresh row more, holding the line's cells; the earlier rows are kept |
| Loader.ReadMore | main.go:118-127 | one pass of the reading loop: a complete line as long as the first moves from the unread bytes to the lines read, which keep the first line's length and gain one row |
| Loader.ReadDone | main.go:118-122 | when no complete line is left, the lines read are all the lines and the load succeeds with their rows |
| Loader.ReadRows | main.go:106-130 | the reading loop: fails exactly as Load does, and on success returns one row per line holding the cells of Load, with colsize the first line's length |
| Loader.NewLifeFromFile | main.go:100-136 | fails exactly as Load does; otherwise a valid Life at generation 0 whose cur holds exactly the grid Load gives |

## Left out

- `ioutil.ReadFile` (main.go:102) is not modelled. `NewLifeFromFile` takes the file's contents as a byte sequence, so its file-system error is not modelled either.
- The `bufio.Reader` over `bytes.Reader` is modelled as the unread suffix of those bytes. Such a reader fails only with the end of input.
- `Loader.NewLifeFromFile`: the check `err != nil && err != io.EOF` (main.go:128) has no path in the model. The `err` it tests is the one of the first line, which is `nil` by then, because the loop's `line, err :=` declares a new `err`.
- `Loader.NewLifeFromFile`: the error branch after `NewLife` (main.go:132-134) cannot be taken, since `h` and `w` are `len(init)` and `len(init[0])` by construction. The method proves that rather than modelling the branch.
- `Life.Print` (main.go:164-170) is not modelled: it runs `clear` and prints a header.
- `Field.Print` (main.go:68-80) is modelled up to its output. `Text.RowText` is the buffer it fills and `Loader.Render` is the text it writes. `fmt.Println` itself is not modelled.
- `main` (main.go:172-185) is modelled only as `Run` and `RunCorrected`, n rounds of its loop without `Print`: the ticker, `log.Fatalf` and the endless loop are timing and process I/O. `Torus.Generations` is what rounds of `NextCorrected`, or of `Next` on a square field, compute.
- `Game.Life.Next`: `gen` is an unbounded integer, so the wrap-around of Go's `int` after 2^63 - 1 rounds is not modelled.
- `Board.Field.NextGen`: requires every row to hold w cells. `NewLife` checks only the first row, so a ragged field can reach `Next`. On such a field Go reads or panics depending on the row lengths, and the model does not cover it.
- `Game.Life.Next` and `Game.Life.NextCorrected`: require every row of `cur` to hold w cells, for the same reason.
- `Game.Life.NextCorrected`: requires the buffer to have the field's shape. That holds for every Life of the corrected program, since `NewLife` and `NextCorrected` both allocate the buffer so.
- `Board.Field.NextGen`: requires r >= 1 - h and c >= 1 - w, the range in which every read of the scan stays in `Alive`'s range. `Next` calls it only inside the field.
- `Game.Life.Next`: the fresh buffer's shape is read from the field that has just become `cur` (the old buffer), because `NewField(l.cur.w, l.cur.h)` runs after `l.cur = l.next`. While the buffer has the field's shape, this is the old field's shape transposed.

## Findings

| source | as written | input that shows it | evidently intended | confidence | as-written member | corrected member |
|---|---|---|---|---|---|---|
| main.go:159 | `l.next = NewField(l.cur.w, l.cur.h)` passes the width as the height; NewField takes `(h, w)` (main.go:28) | a 1 x 2 field: after two rounds of Next the current field is 2 x 1, and the second round has written only one of the two cells of the next generation | `NewField(l.cur.h, l.cur.w)`, a buffer of the field's own shape | not executed | Game.Life.Next, Game.TransposedAfterTwoRounds | Game.Life.NextCorrected, Game.ShapeKeptAfterTwoRounds, Game.Life.RunCorrected |
