/** What printing leaves on the screen: the drawing calls of `print` (core/print.c:497, 505, 510)
    carried out by `putchar_framebuffer`, on cells of 8 by 16 pixels
    (core/init/x86_64/BIOS/init.c:76-78). */
module Display {
  import opened Bits
  import opened Cursor
  import opened Format
  import opened Glyph
  import opened Itoa
  import opened Options

  /** Frame buffer geometry, font and colours; `depth` bytes a pixel. */
  datatype Frame = Frame(width: nat, depth: nat, font: seq<seq<Byte>>, fore: nat, back: nat)

  predicate ValidFrame(f: Frame) {
    0 < f.depth <= 4 && |f.font| == 256 && forall i :: 0 <= i < 256 ==> |f.font[i]| == 16
  }

  predicate TextScreen(s: Screen) {
    NonEmptyGrid(s) && ScreenFits(s) && s.xSize == 8 && s.ySize == 16
  }

  /** The frame buffer holds every pixel of the screen. */
  predicate Holds(f: Frame, s: Screen, size: nat) {
    ValidFrame(f) && f.width == s.xRes && s.xRes * s.yRes * f.depth <= size
  }

  function GlyphOf(f: Frame, c: char): (glyph: seq<Byte>)
    requires ValidFrame(f)
    ensures |glyph| == 16
  {
    f.font[c as nat % 256]
  }

  lemma DrawFits(f: Frame, s: Screen, size: nat, d: Draw)
    requires TextScreen(s) && Holds(f, s, size) && OnScreen(s, d)
    ensures f.width * (d.py + 16) * f.depth <= size
    ensures RowsFit(RowStart(f.width, d.px, d.py, f.depth), f.width * f.depth, 8 * f.depth, 16, size)
  {
    MulLe(d.py + 16, s.yRes, f.width);
    MulLe(f.width * (d.py + 16), f.width * s.yRes, f.depth);
    Glyph.CellFits(f.width, d.px, d.py, f.depth, 16, size);
  }

  // ---------------------------------------------------------------- a sequence of drawing calls

  predicate AllOnScreen(s: Screen, draws: seq<Draw>) {
    forall i :: 0 <= i < |draws| ==> OnScreen(s, draws[i])
  }

  /** The frame buffer after one drawing call. */
  function Drawn(f: Frame, s: Screen, fb: seq<Byte>, d: Draw): (r: seq<Byte>)
    requires TextScreen(s) && Holds(f, s, |fb|) && OnScreen(s, d)
    ensures |r| == |fb|
  {
    DrawFits(f, s, |fb|, d);
    Painted(fb, RowStart(f.width, d.px, d.py, f.depth), f.width * f.depth, GlyphOf(f, d.c), f.depth, f.fore, f.back)
  }

  function Picture(f: Frame, s: Screen, fb: seq<Byte>, draws: seq<Draw>): (r: seq<Byte>)
    requires TextScreen(s) && Holds(f, s, |fb|) && AllOnScreen(s, draws)
    ensures |r| == |fb|
  {
    if draws == [] then fb
    else Drawn(f, s, Picture(f, s, fb, draws[..|draws| - 1]), draws[|draws| - 1])
  }

  method DrawOne(fb: array<Byte>, f: Frame, s: Screen, d: Draw)
    requires TextScreen(s) && Holds(f, s, fb.Length) && OnScreen(s, d)
    modifies fb
    ensures fb[..] == Drawn(f, s, old(fb[..]), d)
  {
    DrawFits(f, s, fb.Length, d);
    PutcharFramebuffer(fb, 8 * f.depth, f.width, d.px, d.py, f.fore, f.back, GlyphOf(f, d.c));
  }

  method DrawAll(fb: array<Byte>, f: Frame, s: Screen, draws: seq<Draw>)
    requires TextScreen(s) && Holds(f, s, fb.Length) && AllOnScreen(s, draws)
    modifies fb
    ensures fb[..] == Picture(f, s, old(fb[..]), draws)
  {
    ghost var before := fb[..];
    var i := 0;
    while i < |draws|
      invariant 0 <= i <= |draws|
      invariant fb[..] == Picture(f, s, before, draws[..i])
    {
      assert draws[..i + 1][..i] == draws[..i];
      DrawOne(fb, f, s, draws[i]);
      i := i + 1;
    }
    assert draws[..i] == draws;
  }

  // ---------------------------------------------------------------- the picture

  predicate DrawsOver(d: Draw, px: nat, py: nat) {
    d.px <= px < d.px + 8 && d.py <= py < d.py + 16
  }

  /** The last call that draws over the pixel. */
  function LastOn(draws: seq<Draw>, px: nat, py: nat): (r: Option<Draw>)
    ensures r.Some? ==> r.value in draws && DrawsOver(r.value, px, py)
  {
    if draws == [] then None
    else if DrawsOver(draws[|draws| - 1], px, py) then Some(draws[|draws| - 1])
    else LastOn(draws[..|draws| - 1], px, py)
  }

  lemma DrawnPixel(f: Frame, s: Screen, fb: seq<Byte>, d: Draw, px: nat, py: nat, k: nat)
    requires TextScreen(s) && Holds(f, s, |fb|) && OnScreen(s, d)
    requires px < f.width && k < f.depth && Offset(f.width, f.depth, px, py, k) < |fb|
    ensures Drawn(f, s, fb, d)[Offset(f.width, f.depth, px, py, k)] ==
            if DrawsOver(d, px, py) then PixelByte(GlyphOf(f, d.c)[py - d.py], px - d.px, k, f.fore, f.back)
            else fb[Offset(f.width, f.depth, px, py, k)]
  {
    DrawFits(f, s, |fb|, d);
    PaintedPixel(fb, f.width, d.px, d.py, f.depth, GlyphOf(f, d.c), f.fore, f.back, px, py, k);
  }

  /** After any drawing calls a pixel shows the last glyph drawn over it, or what was there. */
  lemma {:induction false} ShownPixel(f: Frame, s: Screen, fb: seq<Byte>, draws: seq<Draw>, px: nat, py: nat, k: nat)
    requires TextScreen(s) && Holds(f, s, |fb|) && AllOnScreen(s, draws)
    requires px < f.width && k < f.depth && Offset(f.width, f.depth, px, py, k) < |fb|
    ensures Picture(f, s, fb, draws)[Offset(f.width, f.depth, px, py, k)] ==
            (match LastOn(draws, px, py)
             case None => fb[Offset(f.width, f.depth, px, py, k)]
             case Some(d) => PixelByte(GlyphOf(f, d.c)[py - d.py], px - d.px, k, f.fore, f.back))
  {
    if draws != [] {
      var last := |draws| - 1;
      ShownPixel(f, s, fb, draws[..last], px, py, k);
      DrawnPixel(f, s, Picture(f, s, fb, draws[..last]), draws[last], px, py, k);
    }
  }

  // ---------------------------------------------------------------- printed text

  /** What the character draws lies on the screen: only a backspace at column 0 can draw off it,
      and does so unless the grid has one column and the row stays. */
  predicate DrawsInside(s: Screen, p: Pos, c: char)
    requires TextScreen(s)
  {
    c == BACKSPACE && p.x == 0 ==> Cols(s) == 1 && (p.y > 0 || Rows(s) == 1)
  }

  predicate StaysOnScreen(s: Screen, p: Pos, text: string)
    requires TextScreen(s)
    decreases |text|
  {
    text == "" || (DrawsInside(s, p, text[0]) && StaysOnScreen(s, Typed(s, p, text[0]).pos, text[1..]))
  }

  lemma AllOfBoth(s: Screen, a: seq<Draw>, b: seq<Draw>)
    ensures AllOnScreen(s, a + b) <==> AllOnScreen(s, a) && AllOnScreen(s, b)
  {
    assert forall i :: 0 <= i < |a| ==> (a + b)[i] == a[i];
    assert forall i :: 0 <= i < |b| ==> (a + b)[|a| + i] == b[i];
  }

  lemma CharOnScreen(s: Screen, p: Pos, c: char)
    requires TextScreen(s) && InGrid(s, p)
    ensures AllOnScreen(s, Typed(s, p, c).draws) <==> DrawsInside(s, p, c)
  {
    DrawnOnScreen(s, p, c);
    var draws := Typed(s, p, c).draws;
    assert AllOnScreen(s, draws) <==> forall d <- draws :: OnScreen(s, d);
  }

  /** Text is drawn on the screen if and only if every backspace at column 0 draws inside. */
  lemma {:induction false} TextOnScreen(s: Screen, p: Pos, text: string)
    requires TextScreen(s) && InGrid(s, p)
    ensures AllOnScreen(s, TypedAll(s, p, text).draws) <==> StaysOnScreen(s, p, text)
    decreases |text|
  {
    if text != "" {
      var first := Typed(s, p, text[0]);
      CharOnScreen(s, p, text[0]);
      TypedInGrid(s, p, text[0]);
      TextOnScreen(s, first.pos, text[1..]);
      AllOfBoth(s, first.draws, TypedAll(s, first.pos, text[1..]).draws);
    }
  }

  lemma {:induction false} PrintableStays(s: Screen, p: Pos, text: string)
    requires TextScreen(s) && forall j :: 0 <= j < |text| ==> Printable(text[j])
    ensures StaysOnScreen(s, p, text)
    decreases |text|
  {
    if text != "" { PrintableStays(s, Typed(s, p, text[0]).pos, text[1..]); }
  }

  /** The cell with a number, row by row. */
  function CellAt(s: Screen, n: nat): Pos
    requires TextScreen(s)
  {
    Pos(n % Cols(s), n / Cols(s))
  }

  lemma CellOfIndex(s: Screen, p: Pos)
    requires TextScreen(s) && InGrid(s, p)
    ensures Index(s, p) >= 0 && CellAt(s, Index(s, p)) == p
  {
    IndexBounds(p.x, p.y, Cols(s), Rows(s));
    DivUnique(Index(s, p), Cols(s), p.y, p.x);
  }

  // The cell that character `i` of a printable text is drawn in.
  function CellOf(s: Screen, p: Pos, i: nat): Pos
    requires TextScreen(s) && InGrid(s, p)
  {
    CellOfIndex(s, p);
    AdvanceIndex(s, p);
    CellAt(s, (Index(s, p) + i) % (Cols(s) * Rows(s)))
  }

  lemma {:induction false} PrintableDraws(s: Screen, p: Pos, text: string, i: nat)
    requires TextScreen(s) && InGrid(s, p) && i < |text| && forall j :: 0 <= j < |text| ==> Printable(text[j])
    ensures var draws := TypedAll(s, p, text).draws;
            |draws| == |text| && draws[i] == CellDraw(s, CellOf(s, p, i), text[i])
    decreases |text|
  {
    var q, total := Advance(s, p), Cols(s) * Rows(s);
    CellOfIndex(s, p);
    AdvanceIndex(s, p);
    AdvanceInGrid(s, p);
    assert Typed(s, p, text[0]) == After(q, [CellDraw(s, p, text[0])]);
    if |text| > 1 {
      PrintableDraws(s, q, text[1..], if i == 0 then 0 else i - 1);
    }
    if i == 0 {
      SmallModulo(Index(s, p), total);
    } else if Index(s, p) + 1 == total {
      WrapModulo(i - 1, total);
    }
  }

  // No other character of a text that fits on the screen is drawn over its cell.
  lemma CellsDiffer(s: Screen, p: Pos, i: nat, j: nat)
    requires TextScreen(s) && InGrid(s, p) && i < j < i + Cols(s) * Rows(s)
    ensures CellOf(s, p, i) != CellOf(s, p, j)
  {
    var total := Cols(s) * Rows(s);
    CellOfIndex(s, p);
    AdvanceIndex(s, p);
    ResiduesDiffer(Index(s, p) + i, Index(s, p) + j, total);
    NumbersDiffer((Index(s, p) + i) % total, (Index(s, p) + j) % total, Cols(s));
  }

  lemma NumbersDiffer(a: nat, b: nat, cols: nat)
    requires cols > 0 && a != b
    ensures a % cols != b % cols || a / cols != b / cols
  {
    assert a == cols * (a / cols) + a % cols;
    assert b == cols * (b / cols) + b % cols;
  }

  lemma ResiduesDiffer(a: nat, b: nat, total: nat)
    requires a < b < a + total
    ensures a % total != b % total
  {
    if a % total == b % total {
      var d := b / total - a / total;
      assert b - a == total * d;
      NotBetween(total, d);
    }
  }

  lemma NotBetween(total: nat, d: int)
    ensures !(0 < total * d < total)
  {
    if d >= 1 { MulGap(total, 0, d); }
  }

  lemma CoversOne(s: Screen, p: Pos, q: Pos, c: char, d: char, px: nat, py: nat)
    requires TextScreen(s) && DrawsOver(CellDraw(s, p, c), px, py) && DrawsOver(CellDraw(s, q, d), px, py)
    ensures p == q
  {
  }

  lemma {:induction false} LastOnIs(draws: seq<Draw>, px: nat, py: nat, i: nat)
    requires i < |draws| && DrawsOver(draws[i], px, py)
    requires forall j :: i < j < |draws| ==> !DrawsOver(draws[j], px, py)
    ensures LastOn(draws, px, py) == Some(draws[i])
  {
    if i < |draws| - 1 { LastOnIs(draws[..|draws| - 1], px, py, i); }
  }

  // So the last call over a pixel of that cell is the one for the character.
  lemma LastOfText(s: Screen, p: Pos, text: string, i: nat, px: nat, py: nat)
    requires TextScreen(s) && InGrid(s, p)
    requires i < |text| <= Cols(s) * Rows(s) && forall j :: 0 <= j < |text| ==> Printable(text[j])
    requires DrawsOver(CellDraw(s, CellOf(s, p, i), text[i]), px, py)
    ensures LastOn(TypedAll(s, p, text).draws, px, py) == Some(CellDraw(s, CellOf(s, p, i), text[i]))
  {
    var draws := TypedAll(s, p, text).draws;
    PrintableDraws(s, p, text, i);
    forall j | i < j < |draws|
      ensures !DrawsOver(draws[j], px, py)
    {
      Elsewhere(s, p, text, i, j, px, py);
    }
    LastOnIs(draws, px, py, i);
  }

  lemma Elsewhere(s: Screen, p: Pos, text: string, i: nat, j: nat, px: nat, py: nat)
    requires TextScreen(s) && InGrid(s, p)
    requires i < j < |text| <= Cols(s) * Rows(s) && forall j :: 0 <= j < |text| ==> Printable(text[j])
    requires DrawsOver(CellDraw(s, CellOf(s, p, i), text[i]), px, py)
    ensures j < |TypedAll(s, p, text).draws| && !DrawsOver(TypedAll(s, p, text).draws[j], px, py)
  {
    PrintableDraws(s, p, text, j);
    CellsDiffer(s, p, i, j);
    var here, there := CellOf(s, p, i), CellOf(s, p, j);
    if DrawsOver(CellDraw(s, there, text[j]), px, py) { CoversOne(s, here, there, text[i], text[j], px, py); }
  }

  /** The pixel shows the glyph of a drawing call. */
  predicate Shows(f: Frame, fb: seq<Byte>, d: Draw, px: nat, py: nat, k: nat)
    requires ValidFrame(f) && DrawsOver(d, px, py) && Offset(f.width, f.depth, px, py, k) < |fb|
  {
    fb[Offset(f.width, f.depth, px, py, k)] == PixelByte(GlyphOf(f, d.c)[py - d.py], px - d.px, k, f.fore, f.back)
  }

  lemma LastShows(f: Frame, s: Screen, fb: seq<Byte>, draws: seq<Draw>, d: Draw, px: nat, py: nat, k: nat)
    requires TextScreen(s) && Holds(f, s, |fb|) && AllOnScreen(s, draws)
    requires px < f.width && k < f.depth && Offset(f.width, f.depth, px, py, k) < |fb|
    requires LastOn(draws, px, py) == Some(d)
    ensures Shows(f, Picture(f, s, fb, draws), d, px, py, k)
  {
    ShownPixel(f, s, fb, draws, px, py, k);
  }

  /** A printable text that fits on the screen can be read off the frame buffer: the cell that
      is `i` cells on from the cursor shows the glyph of character `i`. */
  lemma PrintedText(f: Frame, s: Screen, fb: seq<Byte>, p: Pos, text: string, i: nat, px: nat, py: nat, k: nat)
    requires TextScreen(s) && Holds(f, s, |fb|) && InGrid(s, p)
    requires i < |text| <= Cols(s) * Rows(s) && forall j :: 0 <= j < |text| ==> Printable(text[j])
    requires DrawsOver(CellDraw(s, CellOf(s, p, i), text[i]), px, py)
    requires px < f.width && k < f.depth && Offset(f.width, f.depth, px, py, k) < |fb|
    ensures AllOnScreen(s, TypedAll(s, p, text).draws)
    ensures Shows(f, Picture(f, s, fb, TypedAll(s, p, text).draws), CellDraw(s, CellOf(s, p, i), text[i]), px, py, k)
  {
    PrintableStays(s, p, text);
    TextOnScreen(s, p, text);
    LastOfText(s, p, text, i, px, py);
    LastShows(f, s, fb, TypedAll(s, p, text).draws, CellDraw(s, CellOf(s, p, i), text[i]), px, py, k);
  }

  /** `print` onto the frame buffer: text that draws on the screen is typed at the cursor, and what
      it draws is painted over what was there. */
  method PrintOn(console: Console, fb: array<Byte>, f: Frame, format: Option<string>, args: seq<Arg>) returns (i: int)
    requires console.tmpbuf.Length == 4096 && TextScreen(console.screen) && Holds(f, console.screen, fb.Length)
    requires InGrid(console.screen, console.position)
    requires format.Some? ==>
               && |Formatted(format.value, args).text| < 4096
               && StaysOnScreen(console.screen, console.position, Formatted(format.value, args).text)
    modifies console`position, console`drawn, console.tmpbuf, fb
    ensures var text := if format.Some? then Formatted(format.value, args).text else "";
            var after := TypedAll(console.screen, old(console.position), text);
            && i == |text| && console.position == after.pos && InGrid(console.screen, console.position)
            && AllOnScreen(console.screen, after.draws)
            && fb[..] == Picture(f, console.screen, old(fb[..]), after.draws)
  {
    ghost var text := if format.Some? then Formatted(format.value, args).text else "";
    TextOnScreen(console.screen, console.position, text);
    TextInGrid(console.screen, console.position, text);
    var before := console.drawn;
    ghost var after := TypedAll(console.screen, console.position, text);
    i := console.Print(format, args);
    assert console.drawn[|before|..] == after.draws;
    DrawAll(fb, f, console.screen, console.drawn[|before|..]);
  }
}
