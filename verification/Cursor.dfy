/** The text cursor of `print` (core/print.c:455-527). */
module Cursor {
  import Bits
  import opened Options
  import opened Itoa
  import opened Format

  /** Resolution and character cell in pixels, 16 bits each; no dimension of the cell is 0. */
  datatype Screen = Screen(xRes: nat, yRes: nat, xSize: nat, ySize: nat)

  predicate ValidScreen(s: Screen) {
    s.xRes < 0x1_0000 && s.yRes < 0x1_0000 && s.xSize > 0 && s.ySize > 0
  }

  function Cols(s: Screen): nat requires s.xSize > 0 { s.xRes / s.xSize }

  function Rows(s: Screen): nat requires s.ySize > 0 { s.yRes / s.ySize }

  /** The cursor, in cells; both coordinates are 16-bit signed. */
  datatype Pos = Pos(x: int, y: int)

  /** One call of `putchar_k`: pixel position and character. */
  datatype Draw = Draw(px: int, py: int, c: char)

  const BACKSPACE: char := 8 as char

  /** A value assigned to an `int16_t`. */
  function AsInt16(n: int): (r: int)
    ensures -0x8000 <= r < 0x8000
    ensures -0x8000 <= n < 0x8000 ==> r == n
    ensures 0x8000 <= n < 0x1_0000 ==> r < 0
  {
    var m := n % 0x1_0000;
    if m < 0x8000 then m else m - 0x1_0000
  }

  predicate InGrid(s: Screen, p: Pos)
    requires ValidScreen(s)
  {
    0 <= p.x < Cols(s) && 0 <= p.y < Rows(s) && p.x < 0x8000 && p.y < 0x8000
  }

  // ---------------------------------------------------------------- what one character does

  /** The checks at the end of every iteration (core/print.c:515-523). */
  function Settle(s: Screen, p: Pos): Pos
    requires ValidScreen(s)
  {
    var q := if p.x >= Cols(s) then Pos(0, AsInt16(p.y + 1)) else p;
    if q.y >= Rows(s) then Pos(q.x, 0) else q
  }

  function CellDraw(s: Screen, p: Pos, c: char): Draw {
    Draw(p.x * s.xSize, p.y * s.ySize, c)
  }

  function Advance(s: Screen, p: Pos): Pos
    requires ValidScreen(s)
  {
    Settle(s, Pos(AsInt16(p.x + 1), p.y))
  }

  /** Where backspace puts the cursor before the final checks: from column 0 it assigns
      pixel quantities to cell coordinates (core/print.c:489-496). */
  function BackspacePos(s: Screen, p: Pos): Pos
    requires ValidScreen(s)
  {
    var x := AsInt16(p.x - 1);
    if x >= 0 then Pos(x, p.y)
    else
      var y := AsInt16(p.y - 1);
      Pos(AsInt16((Cols(s) - 1) * s.xSize), if y < 0 then AsInt16((Rows(s) - 1) * s.ySize) else y)
  }

  /** The blanks up to the next multiple of 8 columns, `((x + 8) & ~7) - x`. */
  function TabWidth(x: int): (n: nat)
    ensures 1 <= n <= 8 && (x + n) % 8 == 0
  {
    (x + 8) / 8 * 8 - x
  }

  datatype After = After(pos: Pos, draws: seq<Draw>)

  function Blanks(s: Screen, p: Pos, n: nat): After
    requires ValidScreen(s)
    decreases n
  {
    if n == 0 then After(p, [])
    else
      var rest := Blanks(s, Advance(s, p), n - 1);
      After(rest.pos, [CellDraw(s, p, ' ')] + rest.draws)
  }

  function Typed(s: Screen, p: Pos, c: char): After
    requires ValidScreen(s)
  {
    if c == '\n' then After(Settle(s, Pos(0, AsInt16(p.y + 1))), [])
    else if c == BACKSPACE then
      var q := BackspacePos(s, p);
      After(Settle(s, q), [CellDraw(s, q, ' ')])
    else if c == '\t' then Blanks(s, p, TabWidth(p.x))
    else After(Advance(s, p), [CellDraw(s, p, c)])
  }

  function TypedAll(s: Screen, p: Pos, text: string): After
    requires ValidScreen(s)
    decreases |text|
  {
    if text == "" then After(p, [])
    else
      var first := Typed(s, p, text[0]);
      var rest := TypedAll(s, first.pos, text[1..]);
      After(rest.pos, first.draws + rest.draws)
  }

  // ---------------------------------------------------------------- print

  class Console {
    const screen: Screen
    const tmpbuf: array<char>
    var position: Pos
    var drawn: seq<Draw>

    constructor (screen: Screen, position: Pos)
      ensures this.screen == screen && this.position == position && drawn == []
      ensures fresh(tmpbuf) && tmpbuf.Length == 4096
    {
      this.screen, this.position, drawn := screen, position, [];
      tmpbuf := new char[4096](_ => '\0');
    }

    method PutChar(p: Pos, c: char)
      modifies this`drawn
      ensures drawn == old(drawn) + [CellDraw(screen, p, c)]
    {
      drawn := drawn + [Draw(p.x * screen.xSize, p.y * screen.ySize, c)];
    }

    /** core/print.c:515-523 */
    method SettlePosition()
      requires ValidScreen(screen)
      modifies this`position
      ensures position == Settle(screen, old(position))
    {
      if position.x >= screen.xRes / screen.xSize {
        position := Pos(0, AsInt16(position.y + 1));
      }
      if position.y >= screen.yRes / screen.ySize {
        position := Pos(position.x, 0);
      }
    }

    /** core/print.c:489-496 */
    method BackUp()
      requires ValidScreen(screen)
      modifies this`position
      ensures position == BackspacePos(screen, old(position))
    {
      position := Pos(AsInt16(position.x - 1), position.y);
      if position.x < 0 {
        position := Pos(AsInt16((screen.xRes / screen.xSize - 1) * screen.xSize), AsInt16(position.y - 1));
        if position.y < 0 {
          position := Pos(position.x, AsInt16((screen.yRes / screen.ySize - 1) * screen.ySize));
        }
      }
    }

    /** The loop body (core/print.c:473-523).  While `line` counts pending tab blanks the index
        is stepped back and the body is entered at the tab label. */
    method Iterate(count: nat, line: nat) returns (count': int, line': nat)
      requires ValidScreen(screen) && count < tmpbuf.Length && (line > 0 ==> count > 0)
      modifies this`position, this`drawn
      ensures count' == if line > 0 then count - 1 else count
      ensures line' == if line > 0 then line - 1 else if tmpbuf[count] == '\t' then TabWidth(old(position).x) - 1 else 0
      ensures var p := old(position);
              if line > 0 || tmpbuf[count] == '\t' then
                position == Advance(screen, p) && drawn == old(drawn) + [CellDraw(screen, p, ' ')]
              else
                position == Typed(screen, p, tmpbuf[count]).pos
                    && drawn == old(drawn) + Typed(screen, p, tmpbuf[count]).draws
    {
      count', line' := count, line;
      var ifnbt := tmpbuf[count];
      var tab := false;
      assert drawn + [] == drawn;
      if line > 0 {
        count' := count' - 1;
        tab := true;
      } else if ifnbt == '\n' {
        position := Pos(0, AsInt16(position.y + 1));
      } else if ifnbt == BACKSPACE {
        BackUp();
        PutChar(position, ' ');
      } else if ifnbt == '\t' {
        line' := TabWidth(position.x);
        tab := true;
      } else {
        PutChar(position, ifnbt);
        position := Pos(AsInt16(position.x + 1), position.y);
      }
      if tab {
        line' := line' - 1;
        PutChar(position, ' ');
        position := Pos(AsInt16(position.x + 1), position.y);
      }
      SettlePosition();
    }

    method Show(i: nat)
      requires ValidScreen(screen) && i < tmpbuf.Length
      modifies this`position, this`drawn
      ensures position == TypedAll(screen, old(position), tmpbuf[..i]).pos
      ensures drawn == old(drawn) + TypedAll(screen, old(position), tmpbuf[..i]).draws
    {
      var count, line: nat := 0, 0;
      ghost var rest := tmpbuf[..i];
      ghost var end := TypedAll(screen, position, rest).pos;
      ghost var final := drawn + TypedAll(screen, position, rest).draws;
      assert drawn + [] == drawn;
      while count < i || line != 0
        invariant 0 <= count <= i && (line > 0 ==> count > 0) && rest == tmpbuf[count..i]
        invariant Pending(screen, position, line, rest, drawn, final, end)
        decreases i - count, line
      {
        PendingStep(screen, position, line, rest, drawn, final, end);
        if line == 0 { rest := rest[1..]; }
        count, line := Iterate(count, line);
        count := count + 1;
      }
      assert drawn + [] + [] == drawn;
    }

    /** Formats into the buffer and shows the text (core/print.c:455-526). */
    method Print(format: Option<string>, args: seq<Arg>) returns (i: int)
      requires screen.xRes < 0x1_0000 && screen.yRes < 0x1_0000 && tmpbuf.Length == 4096
      requires format.Some? ==> |Formatted(format.value, args).text| < 4096
      modifies this`position, this`drawn, tmpbuf
      ensures screen.xSize == 0 || screen.ySize == 0 ==> i == -1 && position == old(position) && drawn == old(drawn)
      ensures screen.xSize > 0 && screen.ySize > 0 ==>
                var text := if format.Some? then Formatted(format.value, args).text else "";
                var after := TypedAll(screen, old(position), text);
                i == |text| && position == after.pos && drawn == old(drawn) + after.draws
    {
      if screen.ySize <= 0 || screen.xSize <= 0 {
        return -1;
      }
      i := VsprintfK(tmpbuf, format, args);
      ghost var text := if format.Some? then Formatted(format.value, args).text else "";
      assert tmpbuf[..i] == text by {
        if format.Some? { WroteText(tmpbuf, old(tmpbuf[..]), text); }
      }
      Show(i);
    }
  }

  lemma WroteText(buf: array<char>, orig: seq<char>, text: string)
    requires Wrote(buf, orig, text + ['\0'])
    ensures buf[..|text|] == text
  {
    assert buf[..|text|] == buf[..][..|text|];
  }

  /** From here `line` blanks and then `rest` lead to the final position and drawing. */
  ghost predicate Pending(s: Screen, p: Pos, line: nat, rest: string, drawn: seq<Draw>, final: seq<Draw>, end: Pos)
    requires ValidScreen(s)
  {
    var blanks := Blanks(s, p, line);
    var after := TypedAll(s, blanks.pos, rest);
    after.pos == end && drawn + blanks.draws + after.draws == final
  }

  lemma PendingBlank(s: Screen, p: Pos, line: nat, rest: string, drawn: seq<Draw>, final: seq<Draw>, end: Pos)
    requires ValidScreen(s) && line > 0 && Pending(s, p, line, rest, drawn, final, end)
    ensures Pending(s, Advance(s, p), line - 1, rest, drawn + [CellDraw(s, p, ' ')], final, end)
  {
    var more := Blanks(s, Advance(s, p), line - 1);
    assert drawn + [CellDraw(s, p, ' ')] + more.draws == drawn + ([CellDraw(s, p, ' ')] + more.draws);
  }

  // One iteration, whatever it does.
  lemma PendingStep(s: Screen, p: Pos, line: nat, rest: string, drawn: seq<Draw>, final: seq<Draw>, end: Pos)
    requires ValidScreen(s) && (line == 0 ==> rest != "") && Pending(s, p, line, rest, drawn, final, end)
    ensures var blank := line > 0 || rest[0] == '\t';
            Pending(s, if blank then Advance(s, p) else Typed(s, p, rest[0]).pos,
                    if line > 0 then line - 1 else if rest[0] == '\t' then TabWidth(p.x) - 1 else 0,
                    if line > 0 then rest else rest[1..],
                    drawn + (if blank then [CellDraw(s, p, ' ')] else Typed(s, p, rest[0]).draws), final, end)
  {
    if line > 0 {
      PendingBlank(s, p, line, rest, drawn, final, end);
    } else {
      PendingChar(s, p, rest, drawn, final, end);
    }
  }

  lemma PendingChar(s: Screen, p: Pos, rest: string, drawn: seq<Draw>, final: seq<Draw>, end: Pos)
    requires ValidScreen(s) && rest != "" && Pending(s, p, 0, rest, drawn, final, end)
    ensures rest[0] == '\t' ==>
              Pending(s, Advance(s, p), TabWidth(p.x) - 1, rest[1..], drawn + [CellDraw(s, p, ' ')], final, end)
    ensures rest[0] != '\t' ==>
              Pending(s, Typed(s, p, rest[0]).pos, 0, rest[1..], drawn + Typed(s, p, rest[0]).draws, final, end)
  {
    var first := Typed(s, p, rest[0]);
    if rest[0] == '\t' {
      PendingTyped(s, p, TabWidth(p.x), rest, first, drawn, final, end);
      PendingBlank(s, p, TabWidth(p.x), rest[1..], drawn, final, end);
    } else {
      PendingOne(s, rest, first, drawn, TypedAll(s, first.pos, rest[1..]), final, end);
    }
  }

  lemma Regrouped(drawn: seq<Draw>, first: seq<Draw>, rest: seq<Draw>)
    ensures drawn + [] + (first + rest) == drawn + first + rest == drawn + first + [] + rest
  {
    assert drawn + [] == drawn;
    assert drawn + first + [] == drawn + first;
  }

  // What the first character does can be left pending as blanks.
  lemma PendingTyped(s: Screen, p: Pos, line: nat, rest: string, first: After, drawn: seq<Draw>, final: seq<Draw>,
                     end: Pos)
    requires ValidScreen(s) && rest != "" && Pending(s, p, 0, rest, drawn, final, end)
    requires first == Typed(s, p, rest[0]) == Blanks(s, p, line)
    ensures Pending(s, p, line, rest[1..], drawn, final, end)
  {
    Regrouped(drawn, first.draws, TypedAll(s, first.pos, rest[1..]).draws);
  }

  // Or it is done at once.
  lemma PendingOne(s: Screen, rest: string, first: After, drawn: seq<Draw>, after: After, final: seq<Draw>, end: Pos)
    requires ValidScreen(s) && rest != "" && after == TypedAll(s, first.pos, rest[1..])
    requires after.pos == end && drawn + [] + (first.draws + after.draws) == final
    ensures Pending(s, first.pos, 0, rest[1..], drawn + first.draws, final, end)
  {
    Regrouped(drawn, first.draws, after.draws);
  }

  // ---------------------------------------------------------------- the cursor stays in the grid

  predicate NonEmptyGrid(s: Screen) {
    ValidScreen(s) && Cols(s) > 0 && Rows(s) > 0
  }

  /** The grid, and the pixel quantities that backspace assigns, fit in 16 signed bits; where
      backspace also steps the row forward there is room for one more. */
  predicate ScreenFits(s: Screen)
    requires NonEmptyGrid(s)
  {
    && Cols(s) < 0x8000 && Rows(s) < 0x8000
    && (Cols(s) - 1) * s.xSize < 0x8000
    && (Rows(s) - 1) * s.ySize < if Cols(s) > 1 && s.xSize > 1 then 0x7FFF else 0x8000
  }

  // The bounds of the two pixel quantities.
  lemma PixelBounds(cells: nat, size: nat, res: nat)
    requires size > 0 && res < 0x1_0000 && cells == res / size && cells > 0
    ensures cells - 1 <= (cells - 1) * size <= res - size
    ensures (cells - 1) * size >= cells <==> cells > 1 && size > 1
  {
    var n := cells - 1;
    assert cells * size == n * size + size;
    assert res == size * cells + res % size;
    if size == 1 {
      assert n * size == n;
    } else {
      Bits.MulGap(n, 1, size);
      assert n * size >= n + n;
    }
  }

  lemma AdvanceInGrid(s: Screen, p: Pos)
    requires NonEmptyGrid(s) && Cols(s) < 0x8000 && Rows(s) < 0x8000 && InGrid(s, p)
    ensures InGrid(s, Advance(s, p))
    ensures Advance(s, p) == if p.x + 1 < Cols(s) then Pos(p.x + 1, p.y)
                             else if p.y + 1 < Rows(s) then Pos(0, p.y + 1) else Pos(0, 0)
  {
  }

  lemma {:induction false} BlanksInGrid(s: Screen, p: Pos, n: nat)
    requires NonEmptyGrid(s) && Cols(s) < 0x8000 && Rows(s) < 0x8000 && InGrid(s, p)
    ensures InGrid(s, Blanks(s, p, n).pos)
    decreases n
  {
    if n != 0 {
      AdvanceInGrid(s, p);
      BlanksInGrid(s, Advance(s, p), n - 1);
    }
  }

  /** Backspace at column 0 of a grid with more than one column, cells being wider than a
      pixel, leaves the cursor where it is. */
  lemma BackspaceAtMargin(s: Screen, p: Pos)
    requires NonEmptyGrid(s) && ScreenFits(s) && InGrid(s, p) && p.x == 0
    ensures Cols(s) > 1 && s.xSize > 1 ==> Typed(s, p, BACKSPACE).pos == p
    ensures InGrid(s, Typed(s, p, BACKSPACE).pos)
  {
    PixelBounds(Cols(s), s.xSize, s.xRes);
    PixelBounds(Rows(s), s.ySize, s.yRes);
  }

  lemma TypedInGrid(s: Screen, p: Pos, c: char)
    requires NonEmptyGrid(s) && ScreenFits(s) && InGrid(s, p)
    ensures InGrid(s, Typed(s, p, c).pos)
  {
    if c == BACKSPACE {
      if p.x == 0 { BackspaceAtMargin(s, p); }
    } else if c == '\t' {
      BlanksInGrid(s, p, TabWidth(p.x));
    } else if c != '\n' {
      AdvanceInGrid(s, p);
    }
  }

  lemma TooLarge(s: Screen)
    requires NonEmptyGrid(s) && !ScreenFits(s)
    ensures exists p, c :: InGrid(s, p) && !InGrid(s, Typed(s, p, c).pos)
  {
    PixelBounds(Cols(s), s.xSize, s.xRes);
    PixelBounds(Rows(s), s.ySize, s.yRes);
    if Cols(s) >= 0x8000 {
      var p := Pos(0x7FFF, 0);
      assert InGrid(s, p) && !InGrid(s, Typed(s, p, 'a').pos);
    } else if Rows(s) >= 0x8000 {
      var p := Pos(0, 0x7FFF);
      assert InGrid(s, p) && !InGrid(s, Typed(s, p, '\n').pos);
    } else {
      var p := Pos(0, 0);
      assert InGrid(s, p) && !InGrid(s, Typed(s, p, BACKSPACE).pos);
    }
  }

  /** Every character keeps the cursor in the grid, wherever it stands, if and only if the
      screen fits. */
  lemma GridKept(s: Screen)
    requires NonEmptyGrid(s)
    ensures (forall p, c :: InGrid(s, p) ==> InGrid(s, Typed(s, p, c).pos)) <==> ScreenFits(s)
  {
    if ScreenFits(s) {
      forall p, c | InGrid(s, p)
        ensures InGrid(s, Typed(s, p, c).pos)
      {
        TypedInGrid(s, p, c);
      }
    } else {
      TooLarge(s);
    }
  }

  lemma {:induction false} TextInGrid(s: Screen, p: Pos, text: string)
    requires NonEmptyGrid(s) && ScreenFits(s) && InGrid(s, p)
    ensures InGrid(s, TypedAll(s, p, text).pos)
    decreases |text|
  {
    if text != "" {
      TypedInGrid(s, p, text[0]);
      TextInGrid(s, Typed(s, p, text[0]).pos, text[1..]);
    }
  }

  // ---------------------------------------------------------------- drawing stays on the screen

  /** The character cell drawn at lies on the screen. */
  predicate OnScreen(s: Screen, d: Draw) {
    0 <= d.px && d.px + s.xSize <= s.xRes && 0 <= d.py && d.py + s.ySize <= s.yRes
  }

  lemma CellOnScreen(s: Screen, p: Pos, c: char)
    requires NonEmptyGrid(s) && InGrid(s, p)
    ensures OnScreen(s, CellDraw(s, p, c))
  {
    CellInside(p.x, Cols(s), s.xSize, s.xRes);
    CellInside(p.y, Rows(s), s.ySize, s.yRes);
  }

  lemma CellInside(x: int, cells: nat, size: nat, res: nat)
    requires 0 <= x < cells && size > 0 && cells == res / size
    ensures 0 <= x * size && x * size + size <= res
  {
    DivBounds(res, size);
    MulGrows(x, cells, size);
  }

  lemma DivBounds(res: nat, size: nat)
    requires size > 0
    ensures res / size * size <= res < res / size * size + size
  {
  }

  lemma MulGrows(x: nat, y: nat, size: nat)
    ensures x < y ==> x * size + size <= y * size
    ensures x <= y ==> x * size <= y * size
  {
    if x < y {
      var d: nat := y - x - 1;
      assert (x + d + 1) * size == x * size + d * size + size;
    }
  }

  lemma {:induction false} BlanksOnScreen(s: Screen, p: Pos, n: nat)
    requires NonEmptyGrid(s) && Cols(s) < 0x8000 && Rows(s) < 0x8000 && InGrid(s, p)
    ensures forall d <- Blanks(s, p, n).draws :: OnScreen(s, d)
    decreases n
  {
    if n != 0 {
      CellOnScreen(s, p, ' ');
      AdvanceInGrid(s, p);
      BlanksOnScreen(s, Advance(s, p), n - 1);
    }
  }

  /** Everything typed in the grid is drawn on the screen, except by a backspace at column 0,
      which draws on the screen if and only if the grid has one column or cells are one pixel
      wide, and the same holds for the rows where it also leaves row 0. */
  lemma DrawnOnScreen(s: Screen, p: Pos, c: char)
    requires NonEmptyGrid(s) && ScreenFits(s) && InGrid(s, p)
    ensures (forall d <- Typed(s, p, c).draws :: OnScreen(s, d))
       <==> !(c == BACKSPACE && p.x == 0)
            || ((Cols(s) == 1 || s.xSize == 1) && (p.y > 0 || Rows(s) == 1 || s.ySize == 1))
  {
    if c == BACKSPACE {
      BackspaceDraw(s, p);
    } else if c == '\t' {
      BlanksOnScreen(s, p, TabWidth(p.x));
    } else if c != '\n' {
      CellOnScreen(s, p, c);
    }
  }

  lemma BackspaceDraw(s: Screen, p: Pos)
    requires NonEmptyGrid(s) && ScreenFits(s) && InGrid(s, p)
    ensures OnScreen(s, CellDraw(s, BackspacePos(s, p), ' '))
       <==> p.x > 0 || ((Cols(s) == 1 || s.xSize == 1) && (p.y > 0 || Rows(s) == 1 || s.ySize == 1))
  {
    var q := BackspacePos(s, p);
    PixelBounds(Cols(s), s.xSize, s.xRes);
    PixelBounds(Rows(s), s.ySize, s.yRes);
    CellEdge(q.x, Cols(s), s.xSize, s.xRes);
    CellEdge(q.y, Rows(s), s.ySize, s.yRes);
  }

  // A cell coordinate is on the screen exactly when it is a cell of the grid.
  lemma CellEdge(x: int, cells: nat, size: nat, res: nat)
    requires size > 0 && cells == res / size
    ensures 0 <= x * size && x * size + size <= res <==> 0 <= x < cells
  {
    if x < 0 {
      MulGrows(1, -x, size);
      assert x * size == -((-x) * size);
    } else {
      DivBounds(res, size);
      MulGrows(x, cells, size);
      MulGrows(cells, x, size);
    }
  }

  // ---------------------------------------------------------------- printable text

  predicate Printable(c: char) {
    c != '\n' && c != BACKSPACE && c != '\t'
  }

  /** The number of a cell, row by row. */
  function Index(s: Screen, p: Pos): int
    requires s.xSize > 0
  {
    p.y * Cols(s) + p.x
  }

  lemma AdvanceIndex(s: Screen, p: Pos)
    requires NonEmptyGrid(s) && Cols(s) < 0x8000 && Rows(s) < 0x8000 && InGrid(s, p)
    ensures Cols(s) * Rows(s) > 0 && 0 <= Index(s, p) < Cols(s) * Rows(s)
    ensures Index(s, Advance(s, p)) == if Index(s, p) + 1 == Cols(s) * Rows(s) then 0 else Index(s, p) + 1
  {
    AdvanceInGrid(s, p);
    IndexBounds(p.x, p.y, Cols(s), Rows(s));
  }

  lemma IndexBounds(x: int, y: int, cols: nat, rows: nat)
    requires 0 <= x < cols && 0 <= y < rows
    ensures cols * rows > 0 && 0 <= y * cols + x < cols * rows
    ensures y * cols + x + 1 == cols * rows <==> y + 1 == rows && x + 1 == cols
    ensures (y + 1) * cols == y * cols + cols
  {
    assert (y + 1) * cols <= rows * cols;
    if y + 1 < rows { assert (y + 2) * cols <= rows * cols; }
  }

  /** `n` printable characters move the cursor on by `n` cells, around the screen. */
  lemma {:induction false} PrintableText(s: Screen, p: Pos, text: string)
    requires NonEmptyGrid(s) && Cols(s) < 0x8000 && Rows(s) < 0x8000 && InGrid(s, p)
    requires forall i :: 0 <= i < |text| ==> Printable(text[i])
    ensures InGrid(s, TypedAll(s, p, text).pos) && Cols(s) * Rows(s) > 0
    ensures Index(s, TypedAll(s, p, text).pos) == (Index(s, p) + |text|) % (Cols(s) * Rows(s))
    decreases |text|
  {
    AdvanceIndex(s, p);
    var total := Cols(s) * Rows(s);
    if text == "" {
      SmallModulo(Index(s, p), total);
    } else {
      AdvanceInGrid(s, p);
      PrintableText(s, Advance(s, p), text[1..]);
      if Index(s, p) + 1 == total {
        WrapModulo(|text| - 1, total);
      }
    }
  }

  lemma WrapModulo(n: nat, total: nat)
    requires total > 0
    ensures n % total == (total + n) % total
  {
    var q, r := n / total, n % total;
    assert n == total * q + r;
    assert total + n == total * (q + 1) + r;
    Bits.DivUnique(total + n, total, q + 1, r);
  }
}
