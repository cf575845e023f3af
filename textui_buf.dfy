/** The pixel side of the console (TextuiBuf and
    TextuiCharChromatic::textui_refresh_character): pixel index arithmetic,
    storing one colour at a pixel for 16, 24 and 32 bit depths, and drawing
    one 8x16 glyph into a framebuffer that is a plain byte array of a frame
    `width` pixels wide. Multi-byte colours are stored least significant
    byte first (x86_64). */
module TextuiBuf {
  import opened TextuiTypes

  const TEXTUI_CHAR_WIDTH: nat := 8
  const TEXTUI_CHAR_HEIGHT: nat := 16
  const U32_MODULUS: nat := 0x1_0000_0000

  /** The value of an i32 converted with `as u32`, or of a u32 product. */
  function U32(x: int): nat { x % U32_MODULUS }

  /** The bit depths put_color_in_pixel knows; any other one panics. */
  predicate SupportedDepth(bitDepth: int) { bitDepth == 32 || bitDepth == 24 || bitDepth == 16 }

  /** Bytes stored per pixel: 4 for depth 32, 3 for 24, 2 for 16. */
  function BytesPerPixel(bitDepth: int): (n: nat)
    requires SupportedDepth(bitDepth)
    ensures 2 <= n <= 4
    ensures n * 8 == bitDepth
  {
    if bitDepth == 32 then 4 else if bitDepth == 24 then 3 else 2
  }

  /** Byte `k` of a u32 in memory order (little-endian). */
  function ColorByte(color: bv32, k: nat): bv8
    requires k < 4
  {
    if k == 0 then (color & 0xff) as bv8
    else if k == 1 then ((color >> 8) & 0xff) as bv8
    else if k == 2 then ((color >> 16) & 0xff) as bv8
    else ((color >> 24) & 0xff) as bv8
  }

  /** Byte `b` lies in the bytes of pixel `index`. */
  predicate Covers(index: nat, bpp: nat, b: int) { index * bpp <= b < index * bpp + bpp }

  /** The bytes `s` after copying the `n` low bytes of `color` to byte
      offset `at`: those bytes get the colour's bytes in memory order, every
      other byte keeps its value. */
  function LowBytesStored(s: seq<bv8>, at: nat, color: bv32, n: nat): (r: seq<bv8>)
    requires n <= 4
  {
    seq(|s|, b requires 0 <= b < |s| => if at <= b < at + n then ColorByte(color, b - at) else s[b])
  }

  /** The bytes `s` after storing `color` at pixel `index`: the pixel's
      `BytesPerPixel` bytes get the low bytes of the colour, every other
      byte keeps its value. */
  function PutColor(s: seq<bv8>, bitDepth: int, color: bv32, index: nat): (r: seq<bv8>)
    requires SupportedDepth(bitDepth)
    requires (index + 1) * BytesPerPixel(bitDepth) <= |s|
  {
    LowBytesStored(s, index * BytesPerPixel(bitDepth), color, BytesPerPixel(bitDepth))
  }

  /** A store of the `n` low bytes of `color` at byte offset `at` (the u32
      store or the copy_nonoverlapping of put_color_in_pixel). */
  method StoreLowBytes(buf: array<bv8>, at: nat, color: bv32, n: nat)
    requires n <= 4 && at + n <= buf.Length
    modifies buf
    ensures buf[..] == LowBytesStored(old(buf[..]), at, color, n)
  {
    var k := 0;
    while k < n
      invariant 0 <= k <= n
      invariant buf[..] == LowBytesStored(old(buf[..]), at, color, k)
    {
      buf[at + k] := ColorByte(color, k);
      k := k + 1;
    }
  }

  /** TextuiBuf::put_color_in_pixel. Returns false (the kernel panics) and
      writes nothing for an unsupported depth. */
  method PutColorInPixel(buf: array<bv8>, bitDepth: int, color: bv32, index: nat) returns (ok: bool)
    requires SupportedDepth(bitDepth) ==> (index + 1) * BytesPerPixel(bitDepth) <= buf.Length
    modifies buf
    ensures ok == SupportedDepth(bitDepth)
    ensures ok ==> buf[..] == PutColor(old(buf[..]), bitDepth, color, index)
    ensures !ok ==> buf[..] == old(buf[..])
  {
    ok := true;
    if bitDepth == 32 {
      // one u32 store at u32 offset `index`
      MulStep(index, 4);
      StoreLowBytes(buf, index * 4, color, 4);
    } else if bitDepth == 24 {
      // copy the first three bytes of the colour to byte offset index * 3
      MulStep(index, 3);
      StoreLowBytes(buf, index * 3, color, 3);
    } else if bitDepth == 16 {
      // copy the first two bytes of the colour to byte offset index * 2
      MulStep(index, 2);
      StoreLowBytes(buf, index * 2, color, 2);
    } else {
      ok := false;
    }
  }

  /** get_index_by_x_y: the pixel at column x of pixel row y. */
  function IndexByXY(width: nat, x: nat, y: nat): nat { width * y + x }

  /** get_index_of_next_line: the pixel one row below. */
  function IndexOfNextLine(width: nat, nowIndex: nat): nat { width + nowIndex }

  /** get_start_index_by_lineid_lineindex: the top-left pixel of the cell at
      text row `lineid`, text column `lineindex`. Both are converted to u32
      and multiplied by the glyph size in u32 arithmetic. */
  function StartIndex(width: nat, lineid: LineId, lineindex: LineIndex): nat
  {
    var x := U32(U32(lineindex) * TEXTUI_CHAR_WIDTH);
    var y := U32(U32(lineid) * TEXTUI_CHAR_HEIGHT);
    IndexByXY(width, x, y)
  }

  /** In a frame `width` pixels wide, the pixel at a column x inside the
      frame and row y is read back as row = index / width and
      column = index % width. */
  lemma IndexByXYRowColumn(width: nat, x: nat, y: nat)
    requires x < width
    ensures IndexByXY(width, x, y) / width == y && IndexByXY(width, x, y) % width == x
  {
    ModUnique(width * y + x, width, y, x);
  }

  /** The next-line index is the pixel of the same column, one row down. */
  lemma IndexOfNextLineBelow(width: nat, nowIndex: nat)
    requires width > 0
    ensures IndexOfNextLine(width, nowIndex) / width == nowIndex / width + 1
    ensures IndexOfNextLine(width, nowIndex) % width == nowIndex % width
  {
    var q, r := nowIndex / width, nowIndex % width;
    assert width * (q + 1) + r == width + nowIndex;
    ModUnique(width + nowIndex, width, q + 1, r);
  }

  lemma U32Identity(x: int)
    requires 0 <= x < U32_MODULUS
    ensures U32(x) == x
  {
  }

  /** For a cell on the screen (no u32 wrap-around) the start pixel is
      pixel column 8 * lineindex of pixel row 16 * lineid. */
  lemma StartIndexLayout(width: nat, lineid: LineId, lineindex: LineIndex)
    requires 0 <= lineid && TEXTUI_CHAR_HEIGHT * lineid < U32_MODULUS
    requires 0 <= lineindex && TEXTUI_CHAR_WIDTH * lineindex < U32_MODULUS
    ensures StartIndex(width, lineid, lineindex) ==
            IndexByXY(width, TEXTUI_CHAR_WIDTH * lineindex, TEXTUI_CHAR_HEIGHT * lineid)
    ensures StartIndex(width, lineid, lineindex) ==
            width * (TEXTUI_CHAR_HEIGHT * lineid) + TEXTUI_CHAR_WIDTH * lineindex
  {
    U32Identity(lineid);
    U32Identity(lineindex);
    U32Identity(TEXTUI_CHAR_HEIGHT * lineid);
    U32Identity(TEXTUI_CHAR_WIDTH * lineindex);
  }

  /** One pixel store: the pixel index and the colour put there. */
  datatype PixelWrite = PixelWrite(index: nat, color: bv32)

  /** The pixel of glyph row i, glyph column j, for a glyph whose top-left
      pixel is `start`. */
  function GlyphPixel(start: nat, width: nat, i: nat, j: nat): nat { start + i * width + j }

  /** The 128 pixel stores of one glyph, in the order the render loop does
      them: row by row, each row left to right, foreground colour where the
      glyph has its bit set and background colour elsewhere. */
  function GlyphWrites(start: nat, width: nat, f: Font, fg: FontColor, bg: FontColor): (ws: seq<PixelWrite>)
    requires ValidFont(f)
    ensures |ws| == 128
  {
    seq(128, n requires 0 <= n < 128 =>
      PixelWrite(GlyphPixel(start, width, n / 8, n % 8),
                 if IsFrcolor(f, n / 8, n % 8) then fg.value else bg.value))
  }

  /** Every store of `ws` lands inside a buffer of `len` bytes. */
  predicate WritesFit(ws: seq<PixelWrite>, bpp: nat, len: nat)
  {
    forall n :: 0 <= n < |ws| ==> PixelFits(ws[n].index, bpp, len)
  }

  /** All bytes of pixel `index` lie in a buffer of `len` bytes. */
  predicate PixelFits(index: nat, bpp: nat, len: nat) { (index + 1) * bpp <= len }

  /** The bytes after doing the stores of `ws` one after the other. */
  function ApplyWrites(s: seq<bv8>, bitDepth: int, ws: seq<PixelWrite>): (r: seq<bv8>)
    requires SupportedDepth(bitDepth)
    requires WritesFit(ws, BytesPerPixel(bitDepth), |s|)
    ensures |r| == |s|
    decreases |ws|
  {
    if ws == [] then s
    else
      var last := ws[|ws| - 1];
      PutColor(ApplyWrites(s, bitDepth, ws[..|ws| - 1]), bitDepth, last.color, last.index)
  }

  /** Doing the first n + 1 stores is doing the first n and then store n. */
  lemma ApplyWritesSnoc(s: seq<bv8>, bitDepth: int, ws: seq<PixelWrite>, n: nat)
    requires SupportedDepth(bitDepth)
    requires WritesFit(ws, BytesPerPixel(bitDepth), |s|)
    requires n < |ws|
    ensures WritesFit(ws[..n], BytesPerPixel(bitDepth), |s|)
    ensures WritesFit(ws[..n + 1], BytesPerPixel(bitDepth), |s|)
    ensures PixelFits(ws[n].index, BytesPerPixel(bitDepth), |s|)
    ensures ApplyWrites(s, bitDepth, ws[..n + 1]) ==
            PutColor(ApplyWrites(s, bitDepth, ws[..n]), bitDepth, ws[n].color, ws[n].index)
  {
    assert ws[..n + 1][..n] == ws[..n];
  }

  /** The colour of a cell is taken from the glyph of its character, a
      blank cell being drawn as the glyph of ' '. */
  function GlyphChar(cell: Cell): char
  {
    match cell.c
    case Some(ch) => ch
    case None => ' '
  }

  /** The glyph drawn is that of the cell's character, or of ' ' for an
      empty cell (`unwrap_or(' ')`). */
  lemma GlyphCharOf(cell: Cell)
    ensures cell.c.Some? ==> GlyphChar(cell) == cell.c.value
    ensures cell.c.None? ==> GlyphChar(cell) == ' '
  {
  }

  lemma MulStep(i: nat, width: nat)
    ensures (i + 1) * width == i * width + width
  {
  }

  lemma MulMono(a: nat, b: nat, width: nat)
    requires a <= b
    ensures a * width <= b * width
  {
  }

  lemma DivMod8(i: nat, j: nat)
    requires j < 8
    ensures (8 * i + j) / 8 == i && (8 * i + j) % 8 == j
  {
  }

  /** The stores of a glyph fit a buffer that holds its bottom-right pixel. */
  lemma GlyphWritesFit(start: nat, width: nat, f: Font, fg: FontColor, bg: FontColor, bpp: nat, len: nat)
    requires ValidFont(f)
    requires (start + 15 * width + 8) * bpp <= len
    ensures WritesFit(GlyphWrites(start, width, f, fg, bg), bpp, len)
  {
    var ws := GlyphWrites(start, width, f, fg, bg);
    forall n | 0 <= n < 128 ensures PixelFits(ws[n].index, bpp, len) {
      MulMono(n / 8, 15, width);
      MulMono(ws[n].index + 1, start + 15 * width + 8, bpp);
    }
  }

  /** The store number 8 * i + j of a glyph is at pixel start + i * width + j. */
  lemma GlyphWriteAt(start: nat, width: nat, f: Font, fg: FontColor, bg: FontColor, i: nat, j: nat)
    requires ValidFont(f) && i < 16 && j < 8
    ensures GlyphWrites(start, width, f, fg, bg)[8 * i + j] ==
      PixelWrite(start + i * width + j, if IsFrcolor(f, i, j) then fg.value else bg.value)
  {
    DivMod8(i, j);
  }

  /** The body of the inner loop of textui_refresh_character: pixel
      (i, j) of the glyph gets the foreground colour where the glyph has its
      bit set and the background colour elsewhere; this is store 8 * i + j
      of GlyphWrites. */
  method DrawGlyphPixel(buf: array<bv8>, bitDepth: int, ghost s0: seq<bv8>, start: nat, width: nat,
                        font: Font, fg: FontColor, bg: FontColor, i: nat, j: nat, count: nat)
    requires SupportedDepth(bitDepth) && ValidFont(font) && i < TEXTUI_CHAR_HEIGHT && j < TEXTUI_CHAR_WIDTH
    requires |s0| == buf.Length
    requires WritesFit(GlyphWrites(start, width, font, fg, bg), BytesPerPixel(bitDepth), |s0|)
    requires count == start + i * width + j
    requires buf[..] == ApplyWrites(s0, bitDepth, GlyphWrites(start, width, font, fg, bg)[..8 * i + j])
    modifies buf
    ensures buf[..] == ApplyWrites(s0, bitDepth, GlyphWrites(start, width, font, fg, bg)[..8 * i + j + 1])
  {
    ghost var ws := GlyphWrites(start, width, font, fg, bg);
    ghost var n := 8 * i + j;
    GlyphWriteAt(start, width, font, fg, bg, i, j);
    ApplyWritesSnoc(s0, bitDepth, ws, n);
    assert ws[n].index == count;
    assert PixelFits(count, BytesPerPixel(bitDepth), buf.Length);
    var ok;
    if IsFrcolor(font, i, j) {
      ok := PutColorInPixel(buf, bitDepth, fg.value, count);
    } else {
      ok := PutColorInPixel(buf, bitDepth, bg.value, count);
    }
  }

  /** The inner loop of textui_refresh_character: the 8 pixels of glyph
      row i, left to right from pixel `rowStart`. */
  method DrawGlyphRow(buf: array<bv8>, bitDepth: int, ghost s0: seq<bv8>, start: nat, width: nat,
                      font: Font, fg: FontColor, bg: FontColor, i: nat, rowStart: nat)
    requires SupportedDepth(bitDepth) && ValidFont(font) && i < TEXTUI_CHAR_HEIGHT && |s0| == buf.Length
    requires WritesFit(GlyphWrites(start, width, font, fg, bg), BytesPerPixel(bitDepth), |s0|)
    requires rowStart == start + i * width
    requires buf[..] == ApplyWrites(s0, bitDepth, GlyphWrites(start, width, font, fg, bg)[..8 * i])
    modifies buf
    ensures buf[..] == ApplyWrites(s0, bitDepth, GlyphWrites(start, width, font, fg, bg)[..8 * i + 8])
  {
    ghost var ws := GlyphWrites(start, width, font, fg, bg);
    var count := rowStart;
    var j := 0;
    while j < TEXTUI_CHAR_WIDTH
      invariant 0 <= j <= TEXTUI_CHAR_WIDTH
      invariant count == rowStart + j
      invariant buf[..] == ApplyWrites(s0, bitDepth, ws[..8 * i + j])
    {
      DrawGlyphPixel(buf, bitDepth, s0, start, width, font, fg, bg, i, j, count);
      count := count + 1;
      j := j + 1;
    }
  }

  /** TextuiCharChromatic::textui_refresh_character: draw the glyph of `cell`
      with its top-left pixel at text row `lineid`, text column `lineindex`.
      Returns false (the kernel panics on the first pixel) for an
      unsupported depth, leaving the buffer as it was. */
  method RefreshCharacter(cell: Cell, glyphOf: char -> Font, buf: array<bv8>, bitDepth: int,
                          width: nat, lineid: LineId, lineindex: LineIndex) returns (ok: bool)
    requires ValidFont(glyphOf(GlyphChar(cell)))
    requires SupportedDepth(bitDepth) ==>
      (StartIndex(width, lineid, lineindex) + 15 * width + 8) * BytesPerPixel(bitDepth) <= buf.Length
    modifies buf
    ensures ok == SupportedDepth(bitDepth)
    ensures !ok ==> buf[..] == old(buf[..])
    ensures ok ==> WritesFit(GlyphWrites(StartIndex(width, lineid, lineindex), width, glyphOf(GlyphChar(cell)),
                                         cell.frcolor, cell.bkcolor), BytesPerPixel(bitDepth), buf.Length)
    ensures ok ==> buf[..] == ApplyWrites(old(buf[..]), bitDepth,
                                          GlyphWrites(StartIndex(width, lineid, lineindex), width,
                                                      glyphOf(GlyphChar(cell)), cell.frcolor, cell.bkcolor))
  {
    var font := glyphOf(GlyphChar(cell));
    var start := StartIndex(width, lineid, lineindex);
    ghost var ws := GlyphWrites(start, width, font, cell.frcolor, cell.bkcolor);
    if !SupportedDepth(bitDepth) {
      // the first put_color_in_pixel panics before storing anything
      ok := false;
      return;
    }
    GlyphWritesFit(start, width, font, cell.frcolor, cell.bkcolor, BytesPerPixel(bitDepth), buf.Length);
    ghost var s0 := buf[..];
    var count := start;
    var i := 0;
    while i < TEXTUI_CHAR_HEIGHT
      invariant 0 <= i <= TEXTUI_CHAR_HEIGHT
      invariant count == start + i * width
      invariant buf[..] == ApplyWrites(s0, bitDepth, ws[..8 * i])
    {
      var rowStart := count;
      DrawGlyphRow(buf, bitDepth, s0, start, width, font, cell.frcolor, cell.bkcolor, i, rowStart);
      count := IndexOfNextLine(width, rowStart);
      MulStep(i, width);
      i := i + 1;
    }
    assert ws[..128] == ws;
    ok := true;
  }

  // ---------------------------------------------------------------------
  // Where the pixels of one glyph end up

  /** The bytes of two different pixels do not overlap. */
  lemma PixelsDisjoint(p: nat, q: nat, bpp: nat, k: nat)
    requires p != q && 2 <= bpp <= 4 && k < bpp
    ensures !Covers(q, bpp, p * bpp + k)
  {
    if bpp == 2 {
      assert p * bpp == 2 * p && q * bpp == 2 * q;
    } else if bpp == 3 {
      assert p * bpp == 3 * p && q * bpp == 3 * q;
    } else {
      assert p * bpp == 4 * p && q * bpp == 4 * q;
    }
  }

  /** After a sequence of stores, a pixel that no other store touches
      holds the bytes of its colour. */
  lemma {:induction false} ApplyWritesStored(s: seq<bv8>, bitDepth: int, ws: seq<PixelWrite>, n: nat, k: nat)
    requires SupportedDepth(bitDepth)
    requires WritesFit(ws, BytesPerPixel(bitDepth), |s|)
    requires n < |ws| && k < BytesPerPixel(bitDepth)
    requires forall a :: 0 <= a < |ws| && a != n ==> ws[a].index != ws[n].index
    ensures ws[n].index * BytesPerPixel(bitDepth) + k < |s|
    ensures ApplyWrites(s, bitDepth, ws)[ws[n].index * BytesPerPixel(bitDepth) + k] == ColorByte(ws[n].color, k)
    decreases |ws|
  {
    var bpp := BytesPerPixel(bitDepth);
    var init := ws[..|ws| - 1];
    var last := ws[|ws| - 1];
    assert forall m :: 0 <= m < |init| ==> init[m] == ws[m];
    assert WritesFit(init, bpp, |s|);
    var prev := ApplyWrites(s, bitDepth, init);
    assert ApplyWrites(s, bitDepth, ws) == PutColor(prev, bitDepth, last.color, last.index);
    var b := ws[n].index * bpp + k;
    assert PixelFits(ws[n].index, bpp, |s|);
    MulStep(ws[n].index, bpp);
    if n < |ws| - 1 {
      ApplyWritesStored(s, bitDepth, init, n, k);
      PixelsDisjoint(ws[n].index, last.index, bpp, k);
      PutColorKeeps(prev, bitDepth, last.color, last.index, b);
      assert init[n] == ws[n];
      assert prev[b] == ColorByte(ws[n].color, k);
    } else {
      PutColorStores(prev, bitDepth, last.color, last.index, k);
      assert ws[n] == last;
    }
    assert ApplyWrites(s, bitDepth, ws)[b] == ColorByte(ws[n].color, k);
  }

  /** Byte `k` of the pixel stored gets byte `k` of the colour. */
  lemma PutColorStores(s: seq<bv8>, bitDepth: int, color: bv32, index: nat, k: nat)
    requires SupportedDepth(bitDepth)
    requires (index + 1) * BytesPerPixel(bitDepth) <= |s| && k < BytesPerPixel(bitDepth)
    ensures index * BytesPerPixel(bitDepth) + k < |s|
    ensures PutColor(s, bitDepth, color, index)[index * BytesPerPixel(bitDepth) + k] == ColorByte(color, k)
  {
    MulStep(index, BytesPerPixel(bitDepth));
  }

  /** A byte outside the pixel stored keeps its value. */
  lemma PutColorKeeps(s: seq<bv8>, bitDepth: int, color: bv32, index: nat, b: nat)
    requires SupportedDepth(bitDepth)
    requires (index + 1) * BytesPerPixel(bitDepth) <= |s| && b < |s|
    requires !Covers(index, BytesPerPixel(bitDepth), b)
    ensures PutColor(s, bitDepth, color, index)[b] == s[b]
  {
  }

  /** A byte that no store of `ws` covers keeps its value. */
  lemma {:induction false} ApplyWritesUntouched(s: seq<bv8>, bitDepth: int, ws: seq<PixelWrite>, b: nat)
    requires SupportedDepth(bitDepth)
    requires WritesFit(ws, BytesPerPixel(bitDepth), |s|)
    requires b < |s|
    requires forall n :: 0 <= n < |ws| ==> !Covers(ws[n].index, BytesPerPixel(bitDepth), b)
    ensures ApplyWrites(s, bitDepth, ws)[b] == s[b]
    decreases |ws|
  {
    if ws != [] {
      var init := ws[..|ws| - 1];
      assert WritesFit(init, BytesPerPixel(bitDepth), |s|);
      assert forall n :: 0 <= n < |init| ==> init[n] == ws[n];
      ApplyWritesUntouched(s, bitDepth, init, b);
      assert !Covers(ws[|ws| - 1].index, BytesPerPixel(bitDepth), b);
    }
  }

  /** In a frame at least one glyph wide, the 128 pixels of a glyph are
      pairwise different. */
  lemma GlyphPixelsDistinct(start: nat, width: nat, f: Font, fg: FontColor, bg: FontColor)
    requires ValidFont(f) && width >= TEXTUI_CHAR_WIDTH
    ensures forall a, b :: 0 <= a < b < 128 ==>
      GlyphWrites(start, width, f, fg, bg)[a].index != GlyphWrites(start, width, f, fg, bg)[b].index
  {
    var ws := GlyphWrites(start, width, f, fg, bg);
    forall a, b | 0 <= a < b < 128 ensures ws[a].index != ws[b].index {
      if a / 8 < b / 8 {
        MulMono(a / 8 + 1, b / 8, width);
        MulStep(a / 8, width);
      }
    }
  }

  /** The pixel of glyph row i, column j of a glyph rendered into a frame at
      least one glyph wide holds the foreground colour when is_frcolor(i, j)
      and the background colour otherwise. */
  lemma GlyphPixelColor(s: seq<bv8>, bitDepth: int, start: nat, width: nat,
                        f: Font, fg: FontColor, bg: FontColor, i: nat, j: nat, k: nat)
    requires SupportedDepth(bitDepth) && ValidFont(f) && width >= TEXTUI_CHAR_WIDTH
    requires WritesFit(GlyphWrites(start, width, f, fg, bg), BytesPerPixel(bitDepth), |s|)
    requires i < 16 && j < 8 && k < BytesPerPixel(bitDepth)
    ensures GlyphPixel(start, width, i, j) * BytesPerPixel(bitDepth) + k < |s|
    ensures ApplyWrites(s, bitDepth, GlyphWrites(start, width, f, fg, bg))
              [GlyphPixel(start, width, i, j) * BytesPerPixel(bitDepth) + k]
            == ColorByte(if IsFrcolor(f, i, j) then fg.value else bg.value, k)
  {
    var ws := GlyphWrites(start, width, f, fg, bg);
    GlyphPixelsDistinct(start, width, f, fg, bg);
    GlyphWriteAt(start, width, f, fg, bg, i, j);
    var n := 8 * i + j;
    assert ws[n].index == GlyphPixel(start, width, i, j);
    forall a | 0 <= a < |ws| && a != n ensures ws[a].index != ws[n].index {
      if a < n { } else { }
    }
    ApplyWritesStored(s, bitDepth, ws, n, k);
  }

  /** Rendering a glyph leaves every byte outside its 16 x 8 pixels as it was. */
  lemma GlyphOutsideUnchanged(s: seq<bv8>, bitDepth: int, start: nat, width: nat,
                              f: Font, fg: FontColor, bg: FontColor, b: nat)
    requires SupportedDepth(bitDepth) && ValidFont(f)
    requires WritesFit(GlyphWrites(start, width, f, fg, bg), BytesPerPixel(bitDepth), |s|)
    requires b < |s|
    requires forall i, j :: 0 <= i < 16 && 0 <= j < 8 ==>
      !Covers(GlyphPixel(start, width, i, j), BytesPerPixel(bitDepth), b)
    ensures ApplyWrites(s, bitDepth, GlyphWrites(start, width, f, fg, bg))[b] == s[b]
  {
    var ws := GlyphWrites(start, width, f, fg, bg);
    forall n | 0 <= n < |ws| ensures !Covers(ws[n].index, BytesPerPixel(bitDepth), b) {
      GlyphWriteAt(start, width, f, fg, bg, n / 8, n % 8);
    }
    ApplyWritesUntouched(s, bitDepth, ws, b);
  }
}
