/** Drawing a glyph into the frame buffer: `putchar_framebuffer`
    (core/init/x86_64/BIOS/init.c:23-63). */
module Glyph {
  import opened Bits

  /** Byte `k` of a colour, least significant first: `(uint8_t)(colour >> (8 * k))`. */
  function ColourByte(colour: nat, k: nat): Byte {
    Shr(colour, 8 * k) % 256
  }

  /** Column `j` of a glyph row, the leftmost being bit 7. */
  predicate Inked(row: Byte, j: nat)
    requires j < 8
  {
    Bit(row, 7 - j)
  }

  /** Byte `k` of the pixel in column `j` of a glyph row. */
  function PixelByte(row: Byte, j: nat, k: nat, fore: nat, back: nat): Byte
    requires j < 8
  {
    ColourByte(if Inked(row, j) then fore else back, k)
  }

  lemma {:induction false} ShrIs(w: nat, n: nat)
    ensures Shr(w, n) == w / Pow2(n)
  {
    if n > 0 {
      ShrIs(w / 2, n - 1);
      DivTwice(w, Pow2(n - 1));
    }
  }

  lemma DivTwice(w: nat, p: nat)
    requires p > 0
    ensures w / 2 / p == w / (2 * p)
  {
    var q, r := w / 2 / p, w / 2 % p;
    assert w / 2 == p * q + r && w == 2 * (w / 2) + w % 2;
    assert w == (2 * p) * q + (2 * r + w % 2);
    DivUnique(w, 2 * p, q, 2 * r + w % 2);
  }

  lemma BytePowers()
    ensures Pow2(0) == 1 && Pow2(8) == 0x100 && Pow2(16) == 0x1_0000 && Pow2(24) == 0x100_0000
  {
    assert Pow2(8) == 0x100;
    PowSum(8, 8);
    PowSum(16, 8);
  }

  /** Blue comes first, then green and red. */
  lemma BlueFirst(colour: nat, red: Byte, green: Byte, blue: Byte)
    requires colour == 0x1_0000 * red + 0x100 * green + blue
    ensures ColourByte(colour, 0) == blue && ColourByte(colour, 1) == green && ColourByte(colour, 2) == red
    ensures ColourByte(colour, 3) == 0
  {
    BytePowers();
    ShrIs(colour, 0);
    ShrIs(colour, 8);
    ShrIs(colour, 16);
    ShrIs(colour, 24);
  }

  function Worth(bit: bool, n: nat): nat { if bit then n else 0 }

  lemma LowFour(w: nat)
    ensures w == 16 * (w / 16) + Worth(Bit(w, 3), 8) + Worth(Bit(w, 2), 4) + Worth(Bit(w, 1), 2) + Worth(Bit(w, 0), 1)
  {
    assert Bit(w, 1) == Bit(w / 2, 0) && Bit(w, 2) == Bit(w / 2 / 2, 0) && Bit(w, 3) == Bit(w / 2 / 2 / 2, 0);
    assert w / 2 / 2 / 2 / 2 == w / 16;
  }

  lemma HighFour(w: nat, k: nat)
    ensures Bit(w, 4 + k) == Bit(w / 16, k)
  {
    assert Bit(w, 4 + k) == Bit(w / 2, 3 + k) == Bit(w / 2 / 2, 2 + k);
    assert Bit(w / 2 / 2, 2 + k) == Bit(w / 2 / 2 / 2, 1 + k) == Bit(w / 2 / 2 / 2 / 2, k);
    assert w / 2 / 2 / 2 / 2 == w / 16;
  }

  lemma HighNibble(row: Byte)
    ensures row / 16 == Worth(Inked(row, 0), 8) + Worth(Inked(row, 1), 4) + Worth(Inked(row, 2), 2)
                        + Worth(Inked(row, 3), 1)
  {
    LowFour(row / 16);
    HighFour(row, 0);
    HighFour(row, 1);
    HighFour(row, 2);
    HighFour(row, 3);
  }

  /** Column 0 is the most significant bit of a glyph row, column 7 the least. */
  lemma RowOfInk(row: Byte)
    ensures row == 16 * (Worth(Inked(row, 0), 8) + Worth(Inked(row, 1), 4) + Worth(Inked(row, 2), 2)
                         + Worth(Inked(row, 3), 1))
                   + Worth(Inked(row, 4), 8) + Worth(Inked(row, 5), 4) + Worth(Inked(row, 6), 2)
                   + Worth(Inked(row, 7), 1)
  {
    HighNibble(row);
    LowFour(row);
  }

  // ---------------------------------------------------------------- rows of bytes

  /** The bytes of one glyph row, `depth` bytes a pixel. */
  function RowBytes(row: Byte, depth: nat, fore: nat, back: nat): (bytes: seq<Byte>)
    requires depth > 0
    ensures |bytes| == 8 * depth
  {
    seq(8 * depth, t requires 0 <= t < 8 * depth => RowByte(row, depth, fore, back, t))
  }

  function RowByte(row: Byte, depth: nat, fore: nat, back: nat, t: nat): Byte
    requires depth > 0 && t < 8 * depth
  {
    InRow(depth, t);
    PixelByte(row, t / depth, t % depth, fore, back)
  }

  lemma InRow(depth: nat, t: nat)
    requires depth > 0 && t < 8 * depth
    ensures t / depth < 8
  {
    var q := t / depth;
    assert t == depth * q + t % depth;
    if q >= 8 { MulGap(depth, 7, q); }
  }

  function Splice(s: seq<Byte>, at: nat, bytes: seq<Byte>): (r: seq<Byte>)
    requires at + |bytes| <= |s|
    ensures |r| == |s|
  {
    s[..at] + bytes + s[at + |bytes|..]
  }

  /** `n` rows of `row` bytes, `stride` apart from `at` on, lie inside `size` bytes. */
  predicate RowsFit(at: nat, stride: nat, row: nat, n: nat, size: nat)
    decreases n
  {
    n == 0 || (at + row <= size && RowsFit(at + stride, stride, row, n - 1, size))
  }

  /** Glyph rows painted one after the other, `stride` apart from `at` on. */
  function Painted(s: seq<Byte>, at: nat, stride: nat, rows: seq<Byte>, depth: nat, fore: nat,
                   back: nat): (r: seq<Byte>)
    requires depth > 0 && RowsFit(at, stride, 8 * depth, |rows|, |s|)
    ensures |r| == |s|
    decreases |rows|
  {
    if rows == [] then s
    else Painted(Splice(s, at, RowBytes(rows[0], depth, fore, back)), at + stride, stride, rows[1..], depth, fore, back)
  }

  // ---------------------------------------------------------------- putchar_framebuffer

  lemma {:induction false} AndPower(w: nat, n: nat)
    ensures And(w, Pow2(n)) != 0 <==> Bit(w, n)
  {
    if w == 0 {
      ZeroBits(n);
    } else if n == 0 {
      AndNone(w / 2);
    } else {
      AndPower(w / 2, n - 1);
    }
  }

  lemma {:induction false} AndNone(w: nat)
    ensures And(w, 0) == 0
  {
    if w != 0 { AndNone(w / 2); }
  }

  lemma SpliceStep(before: seq<Byte>, at: nat, bytes: seq<Byte>, n: nat, cur: seq<Byte>)
    requires at + |bytes| <= |before| && n < |bytes| && cur == Splice(before, at, bytes[..n])
    ensures cur[at + n := bytes[n]] == Splice(before, at, bytes[..n + 1])
  {
  }

  /** The bytes from `t` on are those of one pixel of the colour. */
  predicate PixelAt(bytes: seq<Byte>, t: nat, depth: nat, colour: nat) {
    t + depth <= |bytes| && forall u :: t <= u < t + depth ==> bytes[u] == ColourByte(colour, u - t)
  }

  /** One of the two pixel loops (core/init/x86_64/BIOS/init.c:40-46 and 50-56): `t` bytes of
      the row have been written, and `depth` more are. */
  method PutPixel(fb: array<Byte>, addr: nat, depth: nat, colour: nat,
                  ghost before: seq<Byte>, ghost at: nat, ghost bytes: seq<Byte>, ghost t: nat)
    returns (next: nat)
    requires PixelAt(bytes, t, depth, colour) && at + |bytes| <= |before| == fb.Length && addr == at + t
    requires fb[..] == Splice(before, at, bytes[..t])
    modifies fb
    ensures next == addr + depth && fb[..] == Splice(before, at, bytes[..t + depth])
  {
    next := addr;
    var counter := 0;
    while counter < depth
      invariant 0 <= counter <= depth && next == addr + counter
      invariant fb[..] == Splice(before, at, bytes[..t + counter])
    {
      ghost var cur := fb[..];
      var inbox := Shr(colour, 8 * counter) % 256;
      assert bytes[t + counter] == ColourByte(colour, t + counter - t) == inbox;
      fb[next] := inbox;
      assert fb[..] == cur[at + (t + counter) := bytes[t + counter]];
      SpliceStep(before, at, bytes, t + counter, cur);
      next := next + 1;
      counter := counter + 1;
    }
  }

  // One bit of the mask is moved to the right.
  lemma TestBit(row: Byte, testval: nat, n: nat)
    requires testval == Pow2(n + 1) / 2
    ensures testval == Pow2(n) && (And(row, testval) != 0 <==> Bit(row, n))
  {
    AndPower(row, n);
  }

  // The bytes of the first `j` pixels.
  ghost function PixelsEnd(j: nat, depth: nat): nat {
    if j == 0 then 0 else PixelsEnd(j - 1, depth) + depth
  }

  lemma {:induction false} PixelsEndIs(j: nat, depth: nat)
    ensures PixelsEnd(j, depth) == j * depth
  {
    if j != 0 {
      PixelsEndIs(j - 1, depth);
      assert j * depth == (j - 1) * depth + depth;
    }
  }

  /** The bytes are those of the eight pixels of a glyph row, one after the other. */
  ghost predicate IsRow(bytes: seq<Byte>, row: Byte, depth: nat, fore: nat, back: nat) {
    && |bytes| == PixelsEnd(8, depth)
    && forall j: nat :: j < 8 ==> PixelAt(bytes, PixelsEnd(j, depth), depth, if Inked(row, j) then fore else back)
  }

  lemma RowBytesIsRow(row: Byte, depth: nat, fore: nat, back: nat)
    requires depth > 0
    ensures IsRow(RowBytes(row, depth, fore, back), row, depth, fore, back)
  {
    PixelsEndIs(8, depth);
    forall j: nat | j < 8
      ensures PixelAt(RowBytes(row, depth, fore, back), PixelsEnd(j, depth), depth,
                      if Inked(row, j) then fore else back)
    {
      PixelOfRow(row, depth, fore, back, j, PixelsEnd(j, depth));
    }
  }

  lemma PixelOfRow(row: Byte, depth: nat, fore: nat, back: nat, j: nat, t: nat)
    requires depth > 0 && j < 8 && t == PixelsEnd(j, depth)
    ensures PixelAt(RowBytes(row, depth, fore, back), t, depth, if Inked(row, j) then fore else back)
  {
    PixelsEndIs(j, depth);
    MulGap(depth, j, 8);
    forall u | t <= u < t + depth
      ensures RowBytes(row, depth, fore, back)[u] == ColourByte(if Inked(row, j) then fore else back, u - t)
    {
      DivUnique(u, depth, j, u - t);
    }
  }

  /** Halving the mask moves it to the bit of column `j`, which selects the colour of the pixel
      that comes next. */
  lemma NextPixel(bytes: seq<Byte>, row: Byte, depth: nat, fore: nat, back: nat, j: nat, mask: nat)
    requires IsRow(bytes, row, depth, fore, back) && j < 8 && mask == Pow2(8 - j)
    ensures mask / 2 == Pow2(8 - (j + 1))
    ensures PixelAt(bytes, PixelsEnd(j, depth), depth, if And(row, mask / 2) != 0 then fore else back)
  {
    TestBit(row, mask / 2, 7 - j);
  }

  /** The pixel loop of one glyph row (core/init/x86_64/BIOS/init.c:34-59). */
  method PutPixels(fb: array<Byte>, at: nat, row: Byte, depth: nat, fore: nat, back: nat, ghost bytes: seq<Byte>)
    requires at + |bytes| <= fb.Length && IsRow(bytes, row, depth, fore, back)
    modifies fb
    ensures fb[..] == Splice(old(fb[..]), at, bytes)
  {
    ghost var before, t: nat := fb[..], 0;
    var addr := at;
    var testval := 0x100;
    assert testval == Pow2(8);
    var j := 0;
    assert fb[..] == Splice(before, at, bytes[..0]);
    while j < 8
      invariant 0 <= j <= 8 && t == PixelsEnd(j, depth) <= |bytes| && addr == at + t && testval == Pow2(8 - j)
      invariant fb[..] == Splice(before, at, bytes[..t])
    {
      NextPixel(bytes, row, depth, fore, back, j, testval);
      testval := testval / 2;
      if And(row, testval) != 0 {
        addr := PutPixel(fb, addr, depth, fore, before, at, bytes, t);
      } else {
        addr := PutPixel(fb, addr, depth, back, before, at, bytes, t);
      }
      t := t + depth;
      j := j + 1;
    }
    assert bytes[..t] == bytes;
  }

  method PutRow(fb: array<Byte>, at: nat, row: Byte, depth: nat, fore: nat, back: nat)
    requires depth > 0 && at + 8 * depth <= fb.Length
    modifies fb
    ensures fb[..] == Splice(old(fb[..]), at, RowBytes(row, depth, fore, back))
  {
    RowBytesIsRow(row, depth, fore, back);
    PutPixels(fb, at, row, depth, fore, back, RowBytes(row, depth, fore, back));
  }

  /** The address of the leftmost pixel of a cell row (core/init/x86_64/BIOS/init.c:33). */
  function RowStart(width: nat, x: nat, y: nat, depth: nat): nat {
    (width * y + x) * depth
  }

  lemma NextRowStart(width: nat, x: nat, y: nat, depth: nat)
    ensures RowStart(width, x, y + 1, depth) == RowStart(width, x, y, depth) + width * depth
  {
    assert width * (y + 1) + x == (width * y + x) + width;
    assert (width * y + x + width) * depth == (width * y + x) * depth + width * depth;
  }

  lemma {:induction false} CellFits(width: nat, x: nat, y: nat, depth: nat, n: nat, size: nat)
    requires depth > 0 && x + 8 <= width && width * (y + n) * depth <= size
    ensures RowsFit(RowStart(width, x, y, depth), width * depth, 8 * depth, n, size)
    decreases n
  {
    if n > 0 {
      NextRowStart(width, x, y, depth);
      RowInside(width, x, y, depth, n, size);
      CellFits(width, x, y + 1, depth, n - 1, size);
    }
  }

  lemma RowInside(width: nat, x: nat, y: nat, depth: nat, n: nat, size: nat)
    requires x + 8 <= width && n > 0 && width * (y + n) * depth <= size
    ensures RowStart(width, x, y, depth) + 8 * depth <= size
  {
    assert (width * y + x) * depth + 8 * depth == (width * y + x + 8) * depth;
    assert width * (y + 1) == width * y + width;
    MulLe(y + 1, y + n, width);
    MulLe(width * y + x + 8, width * (y + n), depth);
  }

  lemma MulLe(a: nat, b: nat, c: nat)
    requires a <= b
    ensures a * c <= b * c && c * a <= c * b
  {
  }

  /** Painting `rows` into `s` from `at` on completes the picture `whole`. */
  ghost predicate Completes(whole: seq<Byte>, s: seq<Byte>, at: nat, stride: nat, rows: seq<Byte>, depth: nat,
                            fore: nat, back: nat) {
    depth > 0 && RowsFit(at, stride, 8 * depth, |rows|, |s|) && whole == Painted(s, at, stride, rows, depth, fore, back)
  }

  lemma RowCompletes(whole: seq<Byte>, s: seq<Byte>, at: nat, stride: nat, rows: seq<Byte>, depth: nat, fore: nat,
                     back: nat)
    requires rows != [] && Completes(whole, s, at, stride, rows, depth, fore, back)
    ensures at + 8 * depth <= |s|
    ensures Completes(whole, Splice(s, at, RowBytes(rows[0], depth, fore, back)), at + stride, stride,
                      rows[1..], depth, fore, back)
  {
  }

  // One row more.
  method PutNextRow(fb: array<Byte>, width: nat, x: nat, y: nat, i: nat, btpp: nat, fore: nat, back: nat,
                    glyph: seq<Byte>, ghost whole: seq<Byte>)
    requires i < |glyph| && btpp > 0
    requires Completes(whole, fb[..], RowStart(width, x, y + i, btpp), width * btpp, glyph[i..], btpp, fore, back)
    modifies fb
    ensures Completes(whole, fb[..], RowStart(width, x, y + (i + 1), btpp), width * btpp, glyph[i + 1..], btpp, fore,
                      back)
  {
    var addr := RowStart(width, x, y + i, btpp);
    RowCompletes(whole, fb[..], addr, width * btpp, glyph[i..], btpp, fore, back);
    PutRow(fb, addr, glyph[i], btpp, fore, back);
    NextRowStart(width, x, y + i, btpp);
    assert glyph[i..][1..] == glyph[i + 1..];
  }

  /** The row loop (core/init/x86_64/BIOS/init.c:31-61). */
  method PutRows(fb: array<Byte>, width: nat, x: nat, y: nat, btpp: nat, fore: nat, back: nat, glyph: seq<Byte>)
    requires |glyph| == 16 && btpp > 0
    requires RowsFit(RowStart(width, x, y, btpp), width * btpp, 8 * btpp, 16, fb.Length)
    modifies fb
    ensures fb[..] == Painted(old(fb[..]), RowStart(width, x, y, btpp), width * btpp, glyph, btpp, fore, back)
  {
    ghost var stride := width * btpp;
    ghost var whole := Painted(fb[..], RowStart(width, x, y, btpp), stride, glyph, btpp, fore, back);
    var i := 0;
    while i < 16
      invariant 0 <= i <= 16
      invariant Completes(whole, fb[..], RowStart(width, x, y + i, btpp), stride, glyph[i..], btpp, fore, back)
    {
      PutNextRow(fb, width, x, y, i, btpp, fore, back, glyph, whole);
      i := i + 1;
    }
  }

  /** Draws the glyph at pixel (x, y).  Nothing is drawn without a buffer or for a pixel that
      is not a whole number of bytes; above 32 bits the colour would be shifted too far. */
  method PutcharFramebuffer(fb: array?<Byte>, bpp: nat, width: nat, x: nat, y: nat, fore: nat, back: nat,
                            glyph: seq<Byte>)
    requires |glyph| == 16 && bpp <= 32 && x + 8 <= width
    requires fb != null ==> width * (y + 16) * (bpp / 8) <= fb.Length
    modifies fb
    ensures fb != null && (bpp == 0 || bpp % 8 != 0) ==> fb[..] == old(fb[..])
    ensures fb != null && bpp > 0 && bpp % 8 == 0 ==>
              var depth := bpp / 8;
              && RowsFit(RowStart(width, x, y, depth), width * depth, 8 * depth, 16, fb.Length)
              && fb[..] == Painted(old(fb[..]), RowStart(width, x, y, depth), width * depth, glyph, depth, fore, back)
  {
    if fb == null || bpp == 0 || bpp % 8 != 0 {
      return;
    }
    var btpp := bpp / 8;
    CellFits(width, x, y, btpp, 16, fb.Length);
    PutRows(fb, width, x, y, btpp, fore, back, glyph);
  }

  // ---------------------------------------------------------------- the picture

  /** The byte `k` of pixel (px, py). */
  function Offset(width: nat, depth: nat, px: nat, py: nat, k: nat): nat {
    (width * py + px) * depth + k
  }

  lemma PixelIs(width: nat, depth: nat, q: nat, x: nat, y: nat, c: nat)
    requires x < width && c < depth && Offset(width, depth, x, y, c) == q
    ensures c == q % depth && x == q / depth % width && y == q / depth / width
  {
    DivUnique(q, depth, width * y + x, c);
    DivUnique(q / depth, width, y, x);
  }

  lemma PixelExists(width: nat, depth: nat, q: nat)
    requires width > 0 && depth > 0
    ensures Offset(width, depth, q / depth % width, q / depth / width, q % depth) == q
  {
    var p := q / depth;
    assert p == width * (p / width) + p % width;
    assert q == p * depth + q % depth;
  }

  /** Every byte belongs to exactly one pixel. */
  lemma PixelOfByte(width: nat, depth: nat, q: nat) returns (px: nat, py: nat, k: nat)
    requires width > 0 && depth > 0
    ensures px < width && k < depth && Offset(width, depth, px, py, k) == q
    ensures forall x: nat, y: nat, c: nat :: x < width && c < depth && Offset(width, depth, x, y, c) == q
             ==> x == px && y == py && c == k
  {
    k, px, py := q % depth, q / depth % width, q / depth / width;
    PixelExists(width, depth, q);
    forall x: nat, y: nat, c: nat | x < width && c < depth && Offset(width, depth, x, y, c) == q
      ensures x == px && y == py && c == k
    {
      PixelIs(width, depth, q, x, y, c);
    }
  }

  /** The painted buffer, pixel by pixel: inside the cell the glyph in the two colours,
      outside it what was there before. */
  lemma {:induction false} PaintedPixel(s: seq<Byte>, width: nat, x: nat, y: nat, depth: nat, rows: seq<Byte>,
                                        fore: nat, back: nat, px: nat, py: nat, k: nat)
    requires x + 8 <= width && px < width && k < depth && Offset(width, depth, px, py, k) < |s|
    requires RowsFit(RowStart(width, x, y, depth), width * depth, 8 * depth, |rows|, |s|)
    ensures Painted(s, RowStart(width, x, y, depth), width * depth, rows, depth, fore, back)
            [Offset(width, depth, px, py, k)]
         == if x <= px < x + 8 && y <= py < y + |rows| then PixelByte(rows[py - y], px - x, k, fore, back)
            else s[Offset(width, depth, px, py, k)]
    decreases |rows|
  {
    if rows != [] {
      var at, q := RowStart(width, x, y, depth), Offset(width, depth, px, py, k);
      var bytes := RowBytes(rows[0], depth, fore, back);
      NextRowStart(width, x, y, depth);
      PaintedPixel(Splice(s, at, bytes), width, x, y + 1, depth, rows[1..], fore, back, px, py, k);
      SplicedPixel(s, width, x, y, depth, rows[0], fore, back, px, py, k);
    }
  }

  lemma SplicedPixel(s: seq<Byte>, width: nat, x: nat, y: nat, depth: nat, row: Byte, fore: nat, back: nat, px: nat,
                     py: nat, k: nat)
    requires x + 8 <= width && px < width && k < depth && Offset(width, depth, px, py, k) < |s|
    requires RowStart(width, x, y, depth) + 8 * depth <= |s|
    ensures Splice(s, RowStart(width, x, y, depth), RowBytes(row, depth, fore, back))[Offset(width, depth, px, py, k)]
         == if x <= px < x + 8 && py == y then PixelByte(row, px - x, k, fore, back)
            else s[Offset(width, depth, px, py, k)]
  {
    var at, q := RowStart(width, x, y, depth), Offset(width, depth, px, py, k);
    InRowOf(width, depth, x, y, px, py, k);
    if py == y && x <= px < x + 8 {
      DivUnique(q - at, depth, px - x, k);
      assert RowBytes(row, depth, fore, back)[q - at] == RowByte(row, depth, fore, back, q - at);
    }
  }

  // A byte lies in the eight pixels from (x, y) on exactly when its pixel does.
  lemma InRowOf(width: nat, depth: nat, x: nat, y: nat, px: nat, py: nat, k: nat)
    requires x + 8 <= width && px < width && k < depth
    ensures var at, q := RowStart(width, x, y, depth), Offset(width, depth, px, py, k);
            && (at <= q < at + 8 * depth <==> py == y && x <= px < x + 8)
            && (py == y && x <= px ==> q - at == (px - x) * depth + k)
  {
    var p0, p := width * y + x, width * py + px;
    PixelDistance(p0, p, depth, k);
    MulGap(width, py, y);
    MulGap(width, y, py);
  }

  lemma PixelDistance(p0: nat, p: nat, depth: nat, k: nat)
    requires k < depth
    ensures p0 * depth <= p * depth + k < p0 * depth + 8 * depth <==> p0 <= p < p0 + 8
    ensures p0 <= p ==> p * depth + k - p0 * depth == (p - p0) * depth + k
  {
    if p < p0 {
      MulGap(depth, p, p0);
    } else {
      var d: nat := p - p0;
      assert (p0 + d) * depth == p0 * depth + d * depth;
      if d < 8 { MulGap(depth, d, 8); } else { MulLe(8, d, depth); }
    }
  }
}
