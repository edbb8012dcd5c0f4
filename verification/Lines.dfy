/** Where text lands on the screen: newlines, tabs and backspaces in coordinates of the character
    grid (core/print.c:471-525), and lines of text read off the frame buffer. */
module Lines {
  import opened Bits
  import opened Cursor
  import opened Display
  import opened Glyph
  import opened Itoa
  import opened Options

  predicate SmallGrid(s: Screen) {
    NonEmptyGrid(s) && Cols(s) < 0x8000 && Rows(s) < 0x8000
  }

  /** The row below, row 0 behind the last. */
  function Below(rows: nat, y: nat): (r: nat)
    requires y < rows
    ensures r < rows
  {
    if y + 1 < rows then y + 1 else 0
  }

  /** The cell `v` columns on from the start of row `y`, going on below at the end of a row. */
  function Around(cols: nat, rows: nat, y: nat, v: nat): (p: Pos)
    requires cols > 0 && y < rows
    ensures 0 <= p.x < cols && 0 <= p.y < rows
    decreases v
  {
    if v < cols then Pos(v, y) else Around(cols, rows, Below(rows, y), v - cols)
  }

  function Cell(s: Screen, y: nat, v: nat): Pos
    requires NonEmptyGrid(s) && y < Rows(s)
  {
    Around(Cols(s), Rows(s), y, v)
  }

  lemma CellInGrid(s: Screen, y: nat, v: nat)
    requires SmallGrid(s) && y < Rows(s)
    ensures InGrid(s, Cell(s, y, v))
  {
  }

  lemma {:induction false} NextAround(cols: nat, rows: nat, y: nat, v: nat)
    requires cols > 0 && y < rows
    ensures var p := Around(cols, rows, y, v);
            Around(cols, rows, y, v + 1) == if p.x + 1 < cols then Pos(p.x + 1, p.y) else Pos(0, Below(rows, p.y))
    decreases v
  {
    if v >= cols { NextAround(cols, rows, Below(rows, y), v - cols); }
  }

  lemma AdvanceCell(s: Screen, y: nat, v: nat)
    requires SmallGrid(s) && y < Rows(s)
    ensures Advance(s, Cell(s, y, v)) == Cell(s, y, v + 1)
  {
    CellInGrid(s, y, v);
    AdvanceInGrid(s, Cell(s, y, v));
    NextAround(Cols(s), Rows(s), y, v);
  }

  /** `cols * rows`, row by row. */
  function GridSize(cols: nat, rows: nat): nat {
    if rows == 0 then 0 else cols + GridSize(cols, rows - 1)
  }

  lemma {:induction false} GridSizeIs(cols: nat, rows: nat)
    ensures GridSize(cols, rows) == cols * rows
  {
    if rows > 0 { GridSizeIs(cols, rows - 1); }
  }

  /** The column of that cell. */
  function Column(cols: nat, v: nat): (x: nat)
    requires cols > 0
    ensures x < cols
    decreases v
  {
    if v < cols then v else Column(cols, v - cols)
  }

  lemma {:induction false} ColumnIs(cols: nat, rows: nat, y: nat, v: nat)
    requires cols > 0 && y < rows
    ensures Around(cols, rows, y, v).x == Column(cols, v)
    decreases v
  {
    if v >= cols { ColumnIs(cols, rows, Below(rows, y), v - cols); }
  }

  /** Where its row ends. */
  function RowEnd(cols: nat, v: nat): (w: nat)
    requires cols > 0
    ensures v < w <= v + cols
    decreases v
  {
    if v < cols then cols else cols + RowEnd(cols, v - cols)
  }

  lemma {:induction false} BehindRow(cols: nat, rows: nat, y: nat, v: nat)
    requires cols > 0 && y < rows
    ensures Around(cols, rows, y, RowEnd(cols, v)) == Pos(0, Below(rows, Around(cols, rows, y, v).y))
    decreases v
  {
    if v >= cols { BehindRow(cols, rows, Below(rows, y), v - cols); }
  }

  // ---------------------------------------------------------------- one character

  /** The blanks drawn from column `v` on. */
  function BlankCells(s: Screen, y: nat, v: nat, n: nat): (draws: seq<Draw>)
    requires NonEmptyGrid(s) && y < Rows(s)
    ensures |draws| == n
  {
    seq(n, i requires 0 <= i < n => CellDraw(s, Cell(s, y, v + i), ' '))
  }

  lemma {:induction false} BlanksAre(s: Screen, y: nat, v: nat, n: nat)
    requires SmallGrid(s) && y < Rows(s)
    ensures Blanks(s, Cell(s, y, v), n) == After(Cell(s, y, v + n), BlankCells(s, y, v, n))
    decreases n
  {
    if n != 0 {
      AdvanceCell(s, y, v);
      BlanksAre(s, y, v + 1, n - 1);
      BlankCellsFirst(s, y, v, n);
    }
  }

  lemma BlankCellsFirst(s: Screen, y: nat, v: nat, n: nat)
    requires NonEmptyGrid(s) && y < Rows(s) && n > 0
    ensures BlankCells(s, y, v, n) == [CellDraw(s, Cell(s, y, v), ' ')] + BlankCells(s, y, v + 1, n - 1)
  {
  }

  /** A newline draws nothing and goes to column 0 of the next row, of row 0 behind the last. */
  lemma Newline(s: Screen, p: Pos)
    requires SmallGrid(s) && InGrid(s, p)
    ensures Typed(s, p, '\n') == After(Pos(0, if p.y + 1 == Rows(s) then 0 else p.y + 1), [])
  {
  }

  /** A backspace off column 0 goes back one cell and blanks it. */
  lemma Backspace(s: Screen, p: Pos)
    requires SmallGrid(s) && InGrid(s, p) && p.x > 0
    ensures Typed(s, p, 8 as char)
         == After(Pos(p.x - 1, p.y), [Draw((p.x - 1) * s.xSize, p.y * s.ySize, ' ')])
  {
  }

  /** At column 0 it blanks a place that is given by pixel quantities taken for cells, and comes back
      from there to the start of a row, or to the same column where that is one of the grid. */
  lemma BackspaceFromMargin(s: Screen, p: Pos)
    requires NonEmptyGrid(s) && ScreenFits(s) && InGrid(s, p) && p.x == 0
    ensures var x, y := (Cols(s) - 1) * s.xSize, if p.y > 0 then p.y - 1 else (Rows(s) - 1) * s.ySize;
            var after := Typed(s, p, 8 as char);
            && after.draws == [Draw(x * s.xSize, y * s.ySize, ' ')]
            && (x >= Cols(s) ==> after.pos == Pos(0, if y + 1 < Rows(s) then y + 1 else 0))
            && (x < Cols(s) ==> after.pos == Pos(x, if y < Rows(s) then y else 0))
  {
    PixelBounds(Cols(s), s.xSize, s.xRes);
    PixelBounds(Rows(s), s.ySize, s.yRes);
    assert BackspacePos(s, p) == Pos((Cols(s) - 1) * s.xSize, if p.y > 0 then p.y - 1 else (Rows(s) - 1) * s.ySize);
  }

  lemma TabStop(x: nat, stop: int)
    requires x < stop <= x + 8 && stop % 8 == 0
    ensures x + TabWidth(x) == stop
  {
  }

  /** A tab blanks the cells up to the next column that is a multiple of 8, counted on over the
      end of the row, and leaves the cursor there. */
  lemma Tab(s: Screen, p: Pos, stop: int)
    requires SmallGrid(s) && InGrid(s, p) && p.x < stop <= p.x + 8 && stop % 8 == 0
    ensures Typed(s, p, '\t') == After(Cell(s, p.y, stop), BlankCells(s, p.y, p.x, stop - p.x))
  {
    TabStop(p.x, stop);
    assert Cell(s, p.y, p.x) == p;
    BlanksAre(s, p.y, p.x, TabWidth(p.x));
  }

  predicate IsBlank(s: Screen, d: Draw, x: int, y: int) {
    d == Draw(x * s.xSize, y * s.ySize, ' ')
  }

  lemma BlankCell(s: Screen, y: nat, v: nat, n: nat, i: nat, cell: Pos)
    requires NonEmptyGrid(s) && y < Rows(s) && i < n && cell == Cell(s, y, v + i)
    ensures IsBlank(s, BlankCells(s, y, v, n)[i], cell.x, cell.y)
  {
    assert BlankCells(s, y, v, n)[i] == CellDraw(s, cell, ' ');
  }

  /** In coordinates, short of the end of the row. */
  lemma TabInRow(s: Screen, p: Pos, stop: int, i: nat)
    requires SmallGrid(s) && InGrid(s, p) && p.x < stop <= p.x + 8 && stop % 8 == 0 && stop < Cols(s)
    requires i < stop - p.x
    ensures var after := Typed(s, p, '\t');
            after.pos == Pos(stop, p.y) && |after.draws| == stop - p.x
            && IsBlank(s, after.draws[i], p.x + i, p.y)
  {
    Tab(s, p, stop);
    BlankCell(s, p.y, p.x, stop - p.x, i, Pos(p.x + i, p.y));
  }

  /** And over the end of a row of at least 8 columns: blanks to its last cell and on from the
      first cell of the row below. */
  lemma TabOverEnd(s: Screen, p: Pos, stop: int, i: nat)
    requires SmallGrid(s) && InGrid(s, p) && p.x < stop <= p.x + 8 && stop % 8 == 0 && 8 <= Cols(s) <= stop
    requires i < stop - p.x
    ensures var after, below := Typed(s, p, '\t'), if p.y + 1 == Rows(s) then 0 else p.y + 1;
            && after.pos == Pos(stop - Cols(s), below) && |after.draws| == stop - p.x
            && (p.x + i < Cols(s) ==> IsBlank(s, after.draws[i], p.x + i, p.y))
            && (p.x + i >= Cols(s) ==> IsBlank(s, after.draws[i], p.x + i - Cols(s), below))
  {
    var below := if p.y + 1 == Rows(s) then 0 else p.y + 1;
    Tab(s, p, stop);
    InNextRow(Cols(s), Rows(s), p.y, stop);
    if p.x + i < Cols(s) {
      BlankCell(s, p.y, p.x, stop - p.x, i, Pos(p.x + i, p.y));
    } else {
      InNextRow(Cols(s), Rows(s), p.y, p.x + i);
      BlankCell(s, p.y, p.x, stop - p.x, i, Pos(p.x + i - Cols(s), below));
    }
  }

  lemma InNextRow(cols: nat, rows: nat, y: nat, x: nat)
    requires cols <= x < 2 * cols && y < rows
    ensures Around(cols, rows, y, x) == Pos(x - cols, Below(rows, y))
  {
  }

  // ---------------------------------------------------------------- text without backspaces

  /** The column, counted on over the end of rows, behind a character typed in column `v`. */
  function Behind(s: Screen, v: nat, c: char): (w: nat)
    requires NonEmptyGrid(s)
    ensures w > v
  {
    if c == '\n' then RowEnd(Cols(s), v)
    else if c == '\t' then v + TabWidth(Column(Cols(s), v))
    else v + 1
  }

  function End(s: Screen, v: nat, text: string): (w: nat)
    requires NonEmptyGrid(s)
    ensures w >= v
    decreases |text|
  {
    if text == "" then v else End(s, Behind(s, v, text[0]), text[1..])
  }

  predicate NoBackspace(text: string) {
    forall i :: 0 <= i < |text| ==> text[i] != BACKSPACE
  }

  /** What stands in the cells from `v` to `Behind(s, v, c)`. */
  function Seen(c: char): char {
    if c == '\t' then ' ' else c
  }

  lemma NextRow(s: Screen, y: nat, v: nat)
    requires SmallGrid(s) && y < Rows(s)
    ensures Typed(s, Cell(s, y, v), '\n') == After(Cell(s, y, Behind(s, v, '\n')), [])
  {
    CellInGrid(s, y, v);
    Newline(s, Cell(s, y, v));
    BehindRow(Cols(s), Rows(s), y, v);
  }

  lemma TabCell(s: Screen, y: nat, v: nat)
    requires SmallGrid(s) && y < Rows(s)
    ensures var w := Behind(s, v, '\t');
            Typed(s, Cell(s, y, v), '\t') == After(Cell(s, y, w), BlankCells(s, y, v, w - v))
  {
    ColumnIs(Cols(s), Rows(s), y, v);
    BlanksAre(s, y, v, TabWidth(Column(Cols(s), v)));
  }

  lemma PrintableCell(s: Screen, y: nat, v: nat, c: char)
    requires SmallGrid(s) && y < Rows(s) && Printable(c)
    ensures Typed(s, Cell(s, y, v), c) == After(Cell(s, y, v + 1), [CellDraw(s, Cell(s, y, v), c)])
  {
    AdvanceCell(s, y, v);
  }

  lemma TypedCell(s: Screen, y: nat, v: nat, c: char)
    requires SmallGrid(s) && y < Rows(s) && c != BACKSPACE
    ensures var after := Typed(s, Cell(s, y, v), c);
            && after.pos == Cell(s, y, Behind(s, v, c))
            && (c == '\n' ==> after.draws == [])
            && (c != '\n' ==> |after.draws| == Behind(s, v, c) - v)
            && forall i :: 0 <= i < |after.draws| ==> after.draws[i] == CellDraw(s, Cell(s, y, v + i), Seen(c))
  {
    if c == '\n' {
      NextRow(s, y, v);
    } else if c == '\t' {
      TabCell(s, y, v);
    } else {
      PrintableCell(s, y, v, c);
      assert Cell(s, y, v + 0) == Cell(s, y, v);
    }
  }

  lemma {:induction false} TextEnds(s: Screen, y: nat, v: nat, text: string)
    requires SmallGrid(s) && y < Rows(s) && NoBackspace(text)
    ensures TypedAll(s, Cell(s, y, v), text).pos == Cell(s, y, End(s, v, text))
    decreases |text|
  {
    if text != "" {
      TypedCell(s, y, v, text[0]);
      TextEnds(s, y, Behind(s, v, text[0]), text[1..]);
    }
  }

  // ---------------------------------------------------------------- what is drawn where

  // Whole rows on, the row is counted modulo their number.
  lemma {:induction false} RowsOn(cols: nat, rows: nat, y: nat, n: nat, x: nat)
    requires x < cols && y < rows
    ensures Around(cols, rows, y, cols * n + x) == Pos(x, (y + n) % rows)
    decreases n
  {
    if n == 0 {
      SmallModulo(y, rows);
    } else {
      assert cols * n == cols * (n - 1) + cols;
      RowsOn(cols, rows, Below(rows, y), n - 1, x);
      if y + 1 == rows { WrapModulo(n - 1, rows); }
    }
  }

  // Fewer cells apart than the grid has, two cells are different.
  lemma {:induction false} CellsApart(cols: nat, rows: nat, y: nat, v: nat, w: nat)
    requires cols > 0 && y < rows && v < w < v + cols * rows
    ensures Around(cols, rows, y, v) != Around(cols, rows, y, w)
    decreases v
  {
    if v >= cols {
      CellsApart(cols, rows, Below(rows, y), v - cols, w - cols);
    } else {
      var q, x := w / cols, w % cols;
      assert w == cols * q + x;
      RowsOn(cols, rows, y, q, x);
      if x == v { NotTheSameRow(cols, rows, y, q); }
    }
  }

  lemma NotTheSameRow(cols: nat, rows: nat, y: nat, q: nat)
    requires y < rows && 0 < cols * q < cols * rows
    ensures (y + q) % rows != y
  {
    MulBetween(cols, q, rows);
    if y + q < rows { SmallModulo(y + q, rows); } else { DivUnique(y + q, rows, 1, y + q - rows); }
  }

  lemma MulLarger(c: nat, r: nat, d: nat)
    requires d >= r
    ensures c * d >= c * r
  {
    assert c * d == c * r + c * (d - r);
  }

  lemma MulBetween(c: nat, d: nat, r: nat)
    requires 0 < c * d < c * r
    ensures 0 < d < r
  {
    if d >= r { MulLarger(c, r, d); }
  }

  lemma {:induction false} LastOnBoth(a: seq<Draw>, b: seq<Draw>, px: nat, py: nat)
    ensures LastOn(a + b, px, py) == if LastOn(b, px, py).Some? then LastOn(b, px, py) else LastOn(a, px, py)
    decreases |b|
  {
    if b == [] {
      assert a + b == a;
    } else {
      assert (a + b)[..|a + b| - 1] == a + b[..|b| - 1];
      LastOnBoth(a, b[..|b| - 1], px, py);
    }
  }

  /** The pixel lies in the cell, of 8 by 16 pixels. */
  predicate InCell(cell: Pos, px: nat, py: nat) {
    8 * cell.x <= px < 8 * cell.x + 8 && 16 * cell.y <= py < 16 * cell.y + 16
  }

  lemma OverCell(s: Screen, cell: Pos, c: char, px: nat, py: nat)
    requires s.xSize == 8 && s.ySize == 16
    ensures DrawsOver(CellDraw(s, cell, c), px, py) <==> InCell(cell, px, py)
  {
  }

  lemma OneCell(s: Screen, y: nat, v: nat, w: nat, px: nat, py: nat)
    requires TextScreen(s) && y < Rows(s) && InCell(Cell(s, y, v), px, py)
    requires v < w < v + GridSize(Cols(s), Rows(s)) || w < v < w + GridSize(Cols(s), Rows(s))
    ensures !InCell(Cell(s, y, w), px, py)
  {
    GridSizeIs(Cols(s), Rows(s));
    if v < w { CellsApart(Cols(s), Rows(s), y, v, w); } else { CellsApart(Cols(s), Rows(s), y, w, v); }
    InOneCell(Cell(s, y, v), Cell(s, y, w), px, py);
  }

  lemma InOneCell(a: Pos, b: Pos, px: nat, py: nat)
    requires InCell(a, px, py) && a != b
    ensures !InCell(b, px, py)
  {
  }

  lemma {:induction false} NothingOn(draws: seq<Draw>, px: nat, py: nat)
    requires forall i :: 0 <= i < |draws| ==> !DrawsOver(draws[i], px, py)
    ensures LastOn(draws, px, py).None?
  {
    if draws != [] { NothingOn(draws[..|draws| - 1], px, py); }
  }

  // A text leaves the cells alone that it does not come to.
  lemma {:induction false} NotDrawn(s: Screen, y: nat, v: nat, text: string, px: nat, py: nat)
    requires TextScreen(s) && y < Rows(s) && NoBackspace(text)
    requires forall w :: v <= w < End(s, v, text) ==> !InCell(Cell(s, y, w), px, py)
    ensures LastOn(TypedAll(s, Cell(s, y, v), text).draws, px, py).None?
    decreases |text|
  {
    if text != "" {
      var first, next := Typed(s, Cell(s, y, v), text[0]), Behind(s, v, text[0]);
      TypedCell(s, y, v, text[0]);
      NotDrawn(s, y, next, text[1..], px, py);
      forall i | 0 <= i < |first.draws|
        ensures !DrawsOver(first.draws[i], px, py)
      {
        assert !InCell(Cell(s, y, v + i), px, py);
        OverCell(s, Cell(s, y, v + i), Seen(text[0]), px, py);
      }
      NothingOn(first.draws, px, py);
      LastOnBoth(first.draws, TypedAll(s, first.pos, text[1..]).draws, px, py);
    }
  }

  // The rest of a text leaves a cell alone that it starts behind and does not come round to.
  lemma RestNotDrawn(s: Screen, y: nat, w: nat, v: nat, text: string, px: nat, py: nat)
    requires TextScreen(s) && y < Rows(s) && NoBackspace(text) && InCell(Cell(s, y, w), px, py)
    requires w < v && End(s, v, text) <= w + GridSize(Cols(s), Rows(s))
    ensures LastOn(TypedAll(s, Cell(s, y, v), text).draws, px, py).None?
  {
    forall u | v <= u < End(s, v, text)
      ensures !InCell(Cell(s, y, u), px, py)
    {
      OneCell(s, y, w, u, px, py);
    }
    NotDrawn(s, y, v, text, px, py);
  }

  lemma NotOver(s: Screen, y: nat, w: nat, u: nat, c: char, px: nat, py: nat)
    requires TextScreen(s) && y < Rows(s) && w < u < w + GridSize(Cols(s), Rows(s)) && InCell(Cell(s, y, w), px, py)
    ensures !DrawsOver(CellDraw(s, Cell(s, y, u), c), px, py)
  {
    OneCell(s, y, w, u, px, py);
    OverCell(s, Cell(s, y, u), c, px, py);
  }

  lemma BlankOnce(s: Screen, y: nat, v: nat, n: nat, w: nat, px: nat, py: nat)
    requires TextScreen(s) && y < Rows(s) && v <= w < v + n <= v + GridSize(Cols(s), Rows(s))
    requires InCell(Cell(s, y, w), px, py)
    ensures LastOn(BlankCells(s, y, v, n), px, py) == Some(CellDraw(s, Cell(s, y, w), ' '))
  {
    var draws, at := BlankCells(s, y, v, n), w - v;
    forall i | at < i < n
      ensures !DrawsOver(draws[i], px, py)
    {
      NotOver(s, y, w, v + i, ' ', px, py);
    }
    OverCell(s, Cell(s, y, w), ' ', px, py);
    LastOnIs(draws, px, py, at);
  }

  lemma PrintedOnce(s: Screen, cell: Pos, c: char, px: nat, py: nat)
    requires TextScreen(s) && InCell(cell, px, py)
    ensures LastOn([CellDraw(s, cell, c)], px, py) == Some(CellDraw(s, cell, c))
  {
    OverCell(s, cell, c, px, py);
    LastOnIs([CellDraw(s, cell, c)], px, py, 0);
  }

  lemma DrawnOnce(s: Screen, y: nat, v: nat, c: char, w: nat, px: nat, py: nat)
    requires TextScreen(s) && y < Rows(s) && c != BACKSPACE && c != '\n' && v <= w < Behind(s, v, c)
    requires Behind(s, v, c) <= v + GridSize(Cols(s), Rows(s)) && InCell(Cell(s, y, w), px, py)
    ensures LastOn(Typed(s, Cell(s, y, v), c).draws, px, py) == Some(CellDraw(s, Cell(s, y, w), Seen(c)))
  {
    if c == '\t' {
      TabCell(s, y, v);
      BlankOnce(s, y, v, Behind(s, v, c) - v, w, px, py);
    } else {
      PrintableCell(s, y, v, c);
      PrintedOnce(s, Cell(s, y, v), c, px, py);
    }
  }

  // The character that a cell shows, when the text does not come round to it again.
  lemma FirstShown(s: Screen, y: nat, v: nat, text: string, w: nat, px: nat, py: nat)
    requires TextScreen(s) && y < Rows(s) && NoBackspace(text) && text != "" && text[0] != '\n'
    requires v <= w < Behind(s, v, text[0]) && InCell(Cell(s, y, w), px, py)
    requires End(s, v, text) <= v + GridSize(Cols(s), Rows(s))
    ensures LastOn(TypedAll(s, Cell(s, y, v), text).draws, px, py) == Some(CellDraw(s, Cell(s, y, w), Seen(text[0])))
  {
    var first, next := Typed(s, Cell(s, y, v), text[0]), Behind(s, v, text[0]);
    TypedCell(s, y, v, text[0]);
    DrawnOnce(s, y, v, text[0], w, px, py);
    RestNotDrawn(s, y, w, next, text[1..], px, py);
    LastOnBoth(first.draws, TypedAll(s, first.pos, text[1..]).draws, px, py);
  }

  lemma {:induction false} CharShown(s: Screen, y: nat, v: nat, before: string, c: char, after: string, w: nat,
                                     px: nat, py: nat)
    requires TextScreen(s) && y < Rows(s) && NoBackspace(before + [c] + after) && c != '\n'
    requires End(s, v, before) <= w < Behind(s, End(s, v, before), c) && InCell(Cell(s, y, w), px, py)
    requires End(s, v, before + [c] + after) <= v + GridSize(Cols(s), Rows(s))
    ensures LastOn(TypedAll(s, Cell(s, y, v), before + [c] + after).draws, px, py)
         == Some(CellDraw(s, Cell(s, y, w), Seen(c)))
    decreases |before|
  {
    var text := before + [c] + after;
    if before == "" {
      assert text[0] == c;
      FirstShown(s, y, v, text, w, px, py);
    } else {
      var next := Behind(s, v, before[0]);
      assert text[1..] == before[1..] + [c] + after && text[0] == before[0];
      TypedCell(s, y, v, text[0]);
      CharShown(s, y, next, before[1..], c, after, w, px, py);
      LastOnBoth(Typed(s, Cell(s, y, v), text[0]).draws, TypedAll(s, Cell(s, y, next), text[1..]).draws, px, py);
    }
  }

  // ---------------------------------------------------------------- on the frame buffer

  lemma {:induction false} NoBackspaceStays(s: Screen, p: Pos, text: string)
    requires TextScreen(s) && NoBackspace(text)
    ensures StaysOnScreen(s, p, text)
    decreases |text|
  {
    if text != "" { NoBackspaceStays(s, Typed(s, p, text[0]).pos, text[1..]); }
  }

  /** The colour of a pixel of a font row, leftmost first. */
  function InkColour(f: Frame, row: Byte, i: nat): nat
    requires i < 8
  {
    if row / Pow2(7 - i) % 2 == 1 then f.fore else f.back
  }

  /** Byte `b`, the lowest first, of a pixel of the font's glyph for a character. */
  function GlyphByte(f: Frame, c: char, i: nat, r: nat, b: nat): nat
    requires ValidFrame(f) && i < 8 && r < 16
  {
    InkColour(f, f.font[c as nat % 256][r], i) / Pow2(8 * b) % 256
  }

  /** Byte `b` of the pixel in column `i` and row `r` of a cell. */
  function CellByte(f: Frame, fb: seq<Byte>, cell: Pos, i: nat, r: nat, b: nat): Option<Byte>
    requires cell.x >= 0 && cell.y >= 0
  {
    var at := Offset(f.width, f.depth, 8 * cell.x + i, 16 * cell.y + r, b);
    if at < |fb| then Some(fb[at]) else None
  }

  lemma {:induction false} BitIs(w: nat, k: nat)
    ensures Bit(w, k) <==> w / Pow2(k) % 2 == 1
  {
    if k > 0 {
      BitIs(w / 2, k - 1);
      DivTwice(w, Pow2(k - 1));
    }
  }

  lemma PixelIsInk(f: Frame, row: Byte, i: nat, b: nat)
    requires i < 8
    ensures PixelByte(row, i, b, f.fore, f.back) == InkColour(f, row, i) / Pow2(8 * b) % 256
  {
    BitIs(row, 7 - i);
    ShrIs(InkColour(f, row, i), 8 * b);
  }

  lemma ShowsIsCell(f: Frame, s: Screen, fb: seq<Byte>, cell: Pos, c: char, i: nat, r: nat, b: nat)
    requires TextScreen(s) && Holds(f, s, |fb|) && cell.x >= 0 && cell.y >= 0 && i < 8 && r < 16
    requires Offset(f.width, f.depth, 8 * cell.x + i, 16 * cell.y + r, b) < |fb|
    requires Shows(f, fb, CellDraw(s, cell, c), 8 * cell.x + i, 16 * cell.y + r, b)
    ensures CellByte(f, fb, cell, i, r, b) == Some(GlyphByte(f, c, i, r, b))
  {
    PixelIsInk(f, f.font[c as nat % 256][r], i, b);
  }

  lemma PixelInside(width: nat, depth: nat, px: nat, py: nat, b: nat, rows: nat, size: nat)
    requires px < width && py < rows && b < depth && width * rows * depth <= size
    ensures Offset(width, depth, px, py, b) < size
  {
    MulGap(width, py, rows);
    MulGap(depth, width * py + px, width * rows);
  }

  lemma CellPixelInside(f: Frame, s: Screen, size: nat, cell: Pos, i: nat, r: nat, b: nat)
    requires TextScreen(s) && Holds(f, s, size) && InGrid(s, cell) && i < 8 && r < 16 && b < f.depth
    ensures 8 * cell.x + i < f.width && Offset(f.width, f.depth, 8 * cell.x + i, 16 * cell.y + r, b) < size
  {
    CellOnScreen(s, cell, ' ');
    DrawFits(f, s, size, CellDraw(s, cell, ' '));
    PixelInside(f.width, f.depth, 8 * cell.x + i, 16 * cell.y + r, b, 16 * cell.y + 16, size);
  }

  // The last call over a pixel of a cell paints it.
  lemma PaintedCell(f: Frame, s: Screen, fb: seq<Byte>, draws: seq<Draw>, cell: Pos, c: char, i: nat, r: nat, b: nat)
    requires TextScreen(s) && Holds(f, s, |fb|) && AllOnScreen(s, draws) && InGrid(s, cell)
    requires i < 8 && r < 16 && b < f.depth
    requires LastOn(draws, 8 * cell.x + i, 16 * cell.y + r) == Some(CellDraw(s, cell, c))
    ensures CellByte(f, Picture(f, s, fb, draws), cell, i, r, b) == Some(GlyphByte(f, c, i, r, b))
  {
    CellPixelInside(f, s, |fb|, cell, i, r, b);
    LastShows(f, s, fb, draws, CellDraw(s, cell, c), 8 * cell.x + i, 16 * cell.y + r, b);
    ShowsIsCell(f, s, Picture(f, s, fb, draws), cell, c, i, r, b);
  }

  lemma AllDrawnInside(s: Screen, p: Pos, text: string)
    requires TextScreen(s) && InGrid(s, p) && NoBackspace(text)
    ensures AllOnScreen(s, TypedAll(s, p, text).draws)
  {
    NoBackspaceStays(s, p, text);
    TextOnScreen(s, p, text);
  }

  /** The cell where the cursor stands behind `before` is `w` columns on, and the text does not
      come round to it again. */
  predicate Stands(s: Screen, p: Pos, before: string, c: char, after: string, w: nat)
    requires TextScreen(s) && InGrid(s, p)
  {
    && NoBackspace(before + [c] + after) && c != '\n'
    && End(s, p.x, before) <= w < Behind(s, End(s, p.x, before), c)
    && End(s, p.x, before + [c] + after) <= p.x + GridSize(Cols(s), Rows(s))
  }

  lemma TextShown(s: Screen, p: Pos, before: string, c: char, after: string, w: nat, cell: Pos, px: nat, py: nat)
    requires TextScreen(s) && InGrid(s, p) && Stands(s, p, before, c, after, w) && cell == Cell(s, p.y, w)
    requires InCell(cell, px, py)
    ensures LastOn(TypedAll(s, p, before + [c] + after).draws, px, py) == Some(CellDraw(s, cell, Seen(c)))
  {
    assert Cell(s, p.y, p.x) == p;
    CharShown(s, p.y, p.x, before, c, after, w, px, py);
  }

  /** The frame buffer after the text. */
  function Printed(f: Frame, s: Screen, fb: seq<Byte>, p: Pos, text: string): (r: seq<Byte>)
    requires TextScreen(s) && Holds(f, s, |fb|) && InGrid(s, p) && NoBackspace(text)
    ensures |r| == |fb|
  {
    AllDrawnInside(s, p, text);
    Picture(f, s, fb, TypedAll(s, p, text).draws)
  }

  lemma PrintedPixel(f: Frame, s: Screen, fb: seq<Byte>, p: Pos, text: string, cell: Pos, c: char, i: nat, r: nat,
                     b: nat)
    requires TextScreen(s) && Holds(f, s, |fb|) && InGrid(s, p) && NoBackspace(text) && InGrid(s, cell)
    requires i < 8 && r < 16 && b < f.depth
    requires LastOn(TypedAll(s, p, text).draws, 8 * cell.x + i, 16 * cell.y + r) == Some(CellDraw(s, cell, c))
    ensures CellByte(f, Printed(f, s, fb, p, text), cell, i, r, b) == Some(GlyphByte(f, c, i, r, b))
  {
    AllDrawnInside(s, p, text);
    PaintedCell(f, s, fb, TypedAll(s, p, text).draws, cell, c, i, r, b);
  }

  /** Any text without backspaces can be read off the frame buffer: that cell shows `c`, and a tab
      blanks all the cells that it passes. */
  lemma PrintedCell(f: Frame, s: Screen, fb: seq<Byte>, p: Pos, before: string, c: char, after: string, w: nat,
                    cell: Pos, i: nat, r: nat, b: nat)
    requires TextScreen(s) && Holds(f, s, |fb|) && InGrid(s, p)
    requires Stands(s, p, before, c, after, w) && cell == Cell(s, p.y, w) && i < 8 && r < 16 && b < f.depth
    ensures CellByte(f, Printed(f, s, fb, p, before + [c] + after), cell, i, r, b)
         == Some(GlyphByte(f, Seen(c), i, r, b))
  {
    CellInGrid(s, p.y, w);
    TextShown(s, p, before, c, after, w, cell, 8 * cell.x + i, 16 * cell.y + r);
    PrintedPixel(f, s, fb, p, before + [c] + after, cell, Seen(c), i, r, b);
  }

  // ---------------------------------------------------------------- lines

  predicate AllPrintable(text: string) {
    forall i :: 0 <= i < |text| ==> Printable(text[i])
  }

  /** Lines, a newline behind each. */
  function Joined(lines: seq<string>): string {
    if lines == [] then "" else Joined(lines[..|lines| - 1]) + lines[|lines| - 1] + "\n"
  }

  /** Every line leaves room at the end of its row; the first starts in column `x`. */
  predicate ShortLines(s: Screen, x: nat, lines: seq<string>)
    requires NonEmptyGrid(s)
  {
    forall k :: 0 <= k < |lines| ==> AllPrintable(lines[k]) && (if k == 0 then x else 0) + |lines[k]| < Cols(s)
  }

  lemma {:induction false} EndBoth(s: Screen, v: nat, a: string, b: string)
    requires NonEmptyGrid(s)
    ensures End(s, v, a + b) == End(s, End(s, v, a), b)
    decreases |a|
  {
    if a == "" {
      assert a + b == b;
    } else {
      assert (a + b)[1..] == a[1..] + b;
      EndBoth(s, Behind(s, v, a[0]), a[1..], b);
    }
  }

  lemma {:induction false} EndPrintable(s: Screen, v: nat, text: string)
    requires NonEmptyGrid(s) && AllPrintable(text)
    ensures End(s, v, text) == v + |text|
    decreases |text|
  {
    if text != "" { EndPrintable(s, v + 1, text[1..]); }
  }

  lemma {:induction false} LinesEnd(s: Screen, x: nat, lines: seq<string>)
    requires NonEmptyGrid(s) && ShortLines(s, x, lines)
    ensures End(s, x, Joined(lines)) == if lines == [] then x else Cols(s) * |lines|
  {
    if lines != [] {
      var n := |lines| - 1;
      var v := if n == 0 then x else Cols(s) * n;
      LinesEnd(s, x, lines[..n]);
      EndBoth(s, x, Joined(lines[..n]), lines[n]);
      EndPrintable(s, v, lines[n]);
      EndBoth(s, x, Joined(lines[..n]) + lines[n], "\n");
      RowOver(Cols(s), n, v + |lines[n]|);
      assert "\n"[1..] == "";
    }
  }

  lemma {:induction false} RowOver(cols: nat, n: nat, v: nat)
    requires cols * n <= v < cols * n + cols
    ensures RowEnd(cols, v) == cols * (n + 1)
    decreases n
  {
    assert cols * (n + 1) == cols * n + cols;
    if n > 0 {
      assert cols * n == cols * (n - 1) + cols;
      MulLarger(cols, 1, n);
      RowOver(cols, n - 1, v - cols);
    }
  }

  lemma LineSplit(joined: string, line: string, after: string, j: nat)
    requires j < |line|
    ensures joined + line + after == joined + line[..j] + [line[j]] + (line[j + 1..] + after)
  {
    assert line == line[..j] + [line[j]] + line[j + 1..];
  }

  // The cell of character `j` of a line.
  lemma LineColumn(s: Screen, p: Pos, above: seq<string>, line: string, j: nat, cell: Pos) returns (v: nat)
    requires SmallGrid(s) && InGrid(s, p) && ShortLines(s, p.x, above) && AllPrintable(line) && j < |line|
    requires (if above == [] then p.x else 0) + |line| <= Cols(s)
    requires cell == Pos((if above == [] then p.x else 0) + j, (p.y + |above|) % Rows(s))
    ensures v == End(s, p.x, Joined(above) + line[..j]) && Behind(s, v, line[j]) == v + 1
    ensures cell == Cell(s, p.y, v) && Seen(line[j]) == line[j] != '\n'
  {
    var k, column := |above|, (if above == [] then p.x else 0) + j;
    v := Cols(s) * k + column;
    LinesEnd(s, p.x, above);
    EndBoth(s, p.x, Joined(above), line[..j]);
    EndPrintable(s, End(s, p.x, Joined(above)), line[..j]);
    RowsOn(Cols(s), Rows(s), p.y, k, column);
    assert Printable(line[j]);
  }

  /** Line `k` is read off row `k`, counted from the row of the cursor: character `j` of a line
      stands in column `j` of its row, or `j` columns behind the cursor in the first. */
  lemma PrintedLine(f: Frame, s: Screen, fb: seq<Byte>, p: Pos, above: seq<string>, line: string, after: string,
                    j: nat, cell: Pos, i: nat, r: nat, b: nat)
    requires TextScreen(s) && Holds(f, s, |fb|) && InGrid(s, p)
    requires ShortLines(s, p.x, above) && AllPrintable(line) && NoBackspace(Joined(above) + line + after)
    requires (if above == [] then p.x else 0) + |line| <= Cols(s)
    requires End(s, p.x, Joined(above) + line + after) <= p.x + GridSize(Cols(s), Rows(s))
    requires j < |line| && cell == Pos((if above == [] then p.x else 0) + j, (p.y + |above|) % Rows(s))
    requires i < 8 && r < 16 && b < f.depth
    ensures CellByte(f, Printed(f, s, fb, p, Joined(above) + line + after), cell, i, r, b)
         == Some(GlyphByte(f, line[j], i, r, b))
  {
    LineSplit(Joined(above), line, after, j);
    var v := LineColumn(s, p, above, line, j, cell);
    PrintedCell(f, s, fb, p, Joined(above) + line[..j], line[j], line[j + 1..] + after, v, cell, i, r, b);
  }
}
