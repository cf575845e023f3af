/** Value types of the text console: line numbers, column indices, packed
    colours, coloured character cells and 8x16 glyph bitmaps. */
module TextuiTypes {

  datatype Option<T> = None | Some(value: T)

  /** A virtual line number inside a window (an i32 in the kernel). */
  type LineId = int

  /** A column inside a virtual line (an i32 in the kernel). */
  type LineIndex = int

  /** LineId::check: the line number addresses one of `max` lines. */
  function CheckLineId(id: LineId, max: int): (ok: bool)
    ensures ok <==> 0 <= id < max
  {
    id < max && id >= 0
  }

  /** LineIndex::check: the column addresses one of `charsPerLine` cells. */
  function CheckLineIndex(index: LineIndex, charsPerLine: int): (ok: bool)
    ensures ok <==> 0 <= index < charsPerLine
  {
    index < charsPerLine && index >= 0
  }

  /** A colour packed as 0x00RRGGBB in a u32. */
  datatype FontColor = FontColor(value: bv32)

  const COLOR_MASK: bv32 := 0x00ff_ffff

  /** The red, green and blue bytes of a packed colour. */
  function Red(c: FontColor): bv8 { ((c.value >> 16) & 0xff) as bv8 }
  function Green(c: FontColor): bv8 { ((c.value >> 8) & 0xff) as bv8 }
  function Blue(c: FontColor): bv8 { (c.value & 0xff) as bv8 }

  /** FontColor::new: pack three bytes; the result never has a bit above bit 23
      and the three bytes can be read back unchanged. */
  function ColorNew(r: bv8, g: bv8, b: bv8): (c: FontColor)
    ensures c.value <= COLOR_MASK
    ensures Red(c) == r && Green(c) == g && Blue(c) == b
  {
    var val := ((r as bv32) << 16) | ((g as bv32) << 8) | (b as bv32);
    FontColor(val & COLOR_MASK)
  }

  /** From<u32> for FontColor: keep the low 24 bits. */
  function ColorFromU32(x: bv32): (c: FontColor)
    ensures c.value <= COLOR_MASK
    ensures Red(c) == ((x >> 16) & 0xff) as bv8
    ensures Green(c) == ((x >> 8) & 0xff) as bv8
    ensures Blue(c) == (x & 0xff) as bv8
  {
    FontColor(x & COLOR_MASK)
  }

  const BLACK: FontColor := ColorNew(0, 0, 0)

  /** Packing agrees with the arithmetic layout r*2^16 + g*2^8 + b. */
  lemma ColorNewArithmetic(r: bv8, g: bv8, b: bv8)
    ensures ColorNew(r, g, b).value == (r as bv32) * 0x1_0000 + (g as bv32) * 0x100 + (b as bv32)
  {
  }

  /** Converting a packed colour back through From<u32> gives the same colour,
      and bits above bit 23 never influence From<u32>. */
  lemma ColorRoundTrip(r: bv8, g: bv8, b: bv8, high: bv32)
    ensures ColorFromU32(ColorNew(r, g, b).value) == ColorNew(r, g, b)
    ensures ColorFromU32(ColorNew(r, g, b).value | (high & !COLOR_MASK)) == ColorNew(r, g, b)
  {
  }

  /** TextuiCharChromatic: an optional character with its two colours. */
  datatype Cell = Cell(c: Option<char>, frcolor: FontColor, bkcolor: FontColor)

  /** The cell every line is filled with when it is created or cleared. */
  const BLANK_CELL: Cell := Cell(None, BLACK, BLACK)

  /** An 8x16 glyph: one byte per pixel row. */
  datatype Font = Font(rows: seq<bv8>)

  predicate ValidFont(f: Font) { |f.rows| == 16 }

  /** Bit `k` of a byte, counting from the least significant bit. */
  function Bit(b: bv8, k: nat): bool
    requires k < 8
  {
    (b >> k) & 1 == 1
  }

  /** Font::is_frcolor: is pixel (height, width) of the glyph a foreground
      pixel. The kernel tests `1 << (8 - width)` on a u8; for width 0 the shift
      amount is 8, which a build without overflow checks masks to 0. */
  function IsFrcolor(f: Font, height: nat, width: nat): (fr: bool)
    requires height < |f.rows| && width <= 8
    ensures 1 <= width ==> (fr <==> Bit(f.rows[height], 8 - width))
    ensures width == 0 ==> (fr <==> Bit(f.rows[height], 0))
  {
    var w := f.rows[height];
    var testbit: bv8 := 1 << ((8 - width) % 8);
    w & testbit != 0
  }

  /** Euclidean quotients and remainders are unique. */
  lemma ModUnique(y: int, n: int, q: int, r: int)
    requires n > 0 && 0 <= r < n && y == n * q + r
    ensures y / n == q && y % n == r
  {
    var q', r' := y / n, y % n;
    assert y == n * q' + r';
    var d := q - q';
    assert n * d == n * q - n * q';
    assert n * d == r' - r;
    if d >= 1 {
      MulAtLeast(n, d);
    } else if d <= -1 {
      MulAtLeast(n, -d);
    }
  }

  lemma MulAtLeast(n: int, d: int)
    requires n > 0 && d >= 1
    ensures n * d >= n
  {
  }
}
