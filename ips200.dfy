/** The IPS200 framebuffer display: a mapped array of RGB565 cells, row
    after row, and the drawing routines that write into it one point at a
    time.  Each routine is proved to leave the buffer as `Raster.Rect` of its
    old contents, with the rectangle it covers and the pixels it draws. */
module Ips200 {
  import opened Raster
  import opened Rgb565
  import opened Text

  type Uint16 = x: int | 0 <= x < 0x1_0000
  type Int32 = x: int | -0x8000_0000 <= x < 0x8000_0000
  type Uint32 = x: int | 0 <= x < 0x1_0000_0000

  /** `full` and `init` fill this many columns and rows. */
  const PanelColumns: nat := 240
  const PanelRows: nat := 320

  /** The region `full` covers. */
  function PanelArea(width: nat): Area
  {
    Area(width, 0, 0, PanelColumns, PanelRows)
  }

  /** One colour for every point of the panel. */
  function Fill(color: Color): (px: seq<Color>)
    ensures |px| == PanelColumns * PanelRows
    ensures forall k :: 0 <= k < |px| ==> px[k] == color
  {
    seq(PanelColumns * PanelRows, _ => color)
  }

  /** After `full`, each point of the panel has the colour and every cell
      beyond it keeps its old one. */
  lemma FullPoint(before: seq<Color>, width: nat, color: Color, px: nat, py: nat)
    requires PanelColumns <= width && px < width && py * width + px < |before|
    ensures Rect(before, PanelArea(width), Fill(color))[py * width + px]
            == if px < PanelColumns && py < PanelRows then color else before[py * width + px]
  {
    if px < PanelColumns && py < PanelRows {
      RectPoint(before, PanelArea(width), Fill(color), px, py);
    } else {
      RectFrame(before, PanelArea(width), Fill(color), px, py);
    }
  }

  // ---------------------------------------------------------------------
  // The 8x16 font

  /** The fonts, pen and background a string is drawn with.  Glyph `c - 32`
      of `font` draws character `c`; byte `i` of a glyph is column `i` of the
      top eight rows, byte `i + 8` column `i` of the bottom eight, least
      significant bit topmost. */
  datatype Lettering = Lettering(font: seq<seq<byte>>, pen: Color, bg: Color)
  {
    predicate Covers(c: char)
    {
      32 <= c as int < 32 + |font| && |font[c as int - 32]| == 16
    }

    predicate CoversAll(s: string)
    {
      forall k :: 0 <= k < |s| ==> Covers(s[k])
    }

    function Glyph(c: char): seq<byte>
      requires Covers(c)
    {
      font[c as int - 32]
    }
  }

  /** `b` shifted right by `n` places, one place at a time: an unsigned
      byte shifted right one place is its half, rounded down. */
  function ShiftRight(b: byte, n: nat): byte
  {
    if n == 0 then b else ShiftRight(b, n - 1) / 2
  }

  /** Bit `n` of `b`, counting from the least significant: the low bit of
      `b` shifted right `n` places, which `& 0x01` isolates. */
  predicate BitSet(b: byte, n: nat)
  {
    ShiftRight(b, n) % 2 == 1
  }

  /** The colour of column `col`, row `row` of a glyph. */
  function GlyphPixel<T>(glyph: seq<byte>, col: nat, row: nat, pen: T, bg: T): T
    requires |glyph| == 16 && col < 8 && row < 16
  {
    var lit := if row < 8 then BitSet(glyph[col], row) else BitSet(glyph[col + 8], row - 8);
    if lit then pen else bg
  }

  /** The glyph as an 8 by 16 row-major picture. */
  function GlyphPixels<T>(glyph: seq<byte>, pen: T, bg: T): (px: seq<T>)
    requires |glyph| == 16
    ensures |px| == 8 * 16
  {
    seq(8 * 16, k requires 0 <= k < 8 * 16 => GlyphPixel(glyph, k % 8, k / 8, pen, bg))
  }

  /** `src` holds the glyph's pixels, row-major, eight to a row. */
  ghost predicate IsGlyphPicture<T>(src: seq<T>, glyph: seq<byte>, pen: T, bg: T)
    requires |glyph| == 16
  {
    |src| == 8 * 16
    && forall col: nat, row: nat {:trigger GlyphPixel(glyph, col, row, pen, bg)} ::
         col < 8 && row < 16 ==> src[col + row * 8] == GlyphPixel(glyph, col, row, pen, bg)
  }

  /** `GlyphPixels` is such a picture. */
  lemma GlyphPixelsPicture<T>(glyph: seq<byte>, pen: T, bg: T)
    requires |glyph| == 16
    ensures IsGlyphPicture(GlyphPixels(glyph, pen, bg), glyph, pen, bg)
  {
    var px := GlyphPixels(glyph, pen, bg);
    forall col: nat, row: nat | col < 8 && row < 16
      ensures px[col + row * 8] == GlyphPixel(glyph, col, row, pen, bg)
    {
      var k := col + row * 8;
      assert k % 8 == col && k / 8 == row;
    }
  }

  /** ... and the only one. */
  lemma GlyphPictureUnique<T>(src: seq<T>, glyph: seq<byte>, pen: T, bg: T)
    requires |glyph| == 16 && IsGlyphPicture(src, glyph, pen, bg)
    ensures src == GlyphPixels(glyph, pen, bg)
  {
    var px := GlyphPixels(glyph, pen, bg);
    forall k | 0 <= k < |px| ensures src[k] == px[k] {
      var col, row := k % 8, k / 8;
      assert k == col + row * 8;
      assert src[col + row * 8] == GlyphPixel(glyph, col, row, pen, bg);
    }
  }

  /** The picture's cell for column `col`, row `row` is the pen colour
      exactly when the glyph byte of that half, shifted right by the row
      within the half, ends in a set bit. */
  lemma GlyphCell<T>(src: seq<T>, glyph: seq<byte>, pen: T, bg: T, col: nat, row: nat, bits: byte)
    requires |glyph| == 16 && IsGlyphPicture(src, glyph, pen, bg) && col < 8 && row < 16
    requires bits == if row < 8 then ShiftRight(glyph[col], row) else ShiftRight(glyph[col + 8], row - 8)
    ensures col + row * 8 < |src|
    ensures src[col + row * 8] == if bits % 2 != 0 then pen else bg
  {
    assert src[col + row * 8] == GlyphPixel(glyph, col, row, pen, bg);
  }

  /** Drawing point `(px, py)`, cell `(i, j)` of a glyph box, in the colour
      its bit selects is the next step of painting the glyph's picture column
      after column. */
  lemma GlyphStep<T>(before: seq<T>, a: Area, src: seq<T>, glyph: seq<byte>, pen: T, bg: T,
                  p: nat, i: nat, row0: nat, j: nat, bits: byte, cur: seq<T>, px: nat, py: nat, c: T)
    requires Inside(a, |before|) && a.w == 8 && a.h == 16
    requires |glyph| == 16 && IsGlyphPicture(src, glyph, pen, bg)
    requires i < 8 && (row0 == 0 || row0 == 8) && j < 8 && p == i * 16 + row0 + j
    requires px == a.x + i && py == a.y + row0 + j
    requires bits == ShiftRight(glyph[i + row0], j)
    requires cur == Painted(before, a, src, p, true) && c == if bits % 2 != 0 then pen else bg
    ensures Offset(a.width, px, py) < |cur|
    ensures cur[Offset(a.width, px, py) := c] == Painted(before, a, src, p + 1, true)
  {
    GlyphCell(src, glyph, pen, bg, i, row0 + j, bits);
    PaintStep(before, a, src, p, true, i, row0 + j);
  }

  /** Once all 128 cells of a glyph box are painted column after column the
      box holds the glyph's pixels. */
  lemma GlyphDone<T>(before: seq<T>, a: Area, src: seq<T>, glyph: seq<byte>, pen: T, bg: T)
    requires Inside(a, |before|) && a.w == 8 && a.h == 16
    requires |glyph| == 16 && IsGlyphPicture(src, glyph, pen, bg)
    ensures Painted(before, a, src, 8 * 16, true) == Rect(before, a, GlyphPixels(glyph, pen, bg))
  {
    GlyphPictureUnique(src, glyph, pen, bg);
    PaintDone(before, a, src, true);
  }

  /** The box character `n` of a string at `(x, y)` occupies. */
  function CharArea(width: nat, x: nat, y: nat, n: nat): Area
  {
    Area(width, x + 8 * n, y, 8, 16)
  }

  /** The buffer after drawing character `c` in the 8 by 16 box at `(x, y)`:
      the box shows the character's glyph in the lettering's colours. */
  function CharScreen(before: seq<Color>, width: nat, ink: Lettering, x: nat, y: nat, c: char): (after: seq<Color>)
    requires width > 0 && ink.Covers(c)
    ensures |after| == |before|
  {
    Rect(before, Area(width, x, y, 8, 16), GlyphPixels(ink.Glyph(c), ink.pen, ink.bg))
  }

  /** The buffer after drawing `s` at `(x, y)`, one character after another,
      each eight columns right of the one before. */
  function TextScreen(before: seq<Color>, width: nat, ink: Lettering, x: nat, y: nat, s: string): (after: seq<Color>)
    requires width > 0 && x + 8 * |s| <= width && ink.CoversAll(s)
    ensures |after| == |before|
  {
    if s == [] then before
    else
      var n := |s| - 1;
      CharScreen(TextScreen(before, width, ink, x, y, s[..n]), width, ink, x + 8 * n, y, s[n])
  }

  /** The last character of a non-empty string is drawn over the screen of
      the characters before it. */
  lemma TextScreenUnfold(before: seq<Color>, width: nat, ink: Lettering, x: nat, y: nat, s: string)
    requires width > 0 && x + 8 * |s| <= width && ink.CoversAll(s) && s != []
    ensures ink.CoversAll(s[..|s| - 1])
    ensures TextScreen(before, width, ink, x, y, s)
            == Rect(TextScreen(before, width, ink, x, y, s[..|s| - 1]), CharArea(width, x, y, |s| - 1),
                    GlyphPixels(ink.Glyph(s[|s| - 1]), ink.pen, ink.bg))
  {
    var prefix := s[..|s| - 1];
    forall k | 0 <= k < |prefix| ensures ink.Covers(prefix[k]) {
      assert prefix[k] == s[k];
    }
  }

  /** Column `col`, row `row` of character `n` appears at `(x + 8n + col, y + row)`:
      no later character overwrites it. */
  lemma {:induction false} TextCharShown(before: seq<Color>, width: nat, ink: Lettering, x: nat, y: nat, s: string,
                                         n: nat, col: nat, row: nat)
    requires width > 0 && x + 8 * |s| <= width && ink.CoversAll(s)
    requires n < |s| && col < 8 && row < 16
    requires (y + row) * width + (x + 8 * n + col) < |before|
    ensures TextScreen(before, width, ink, x, y, s)[(y + row) * width + (x + 8 * n + col)]
            == GlyphPixel(ink.Glyph(s[n]), col, row, ink.pen, ink.bg)
    decreases |s|
  {
    var last := |s| - 1;
    TextScreenUnfold(before, width, ink, x, y, s);
    var prefix := s[..last];
    var earlier := TextScreen(before, width, ink, x, y, prefix);
    var glyph := GlyphPixels(ink.Glyph(s[last]), ink.pen, ink.bg);
    if n == last {
      RectPoint(earlier, CharArea(width, x, y, last), glyph, col, row);
    } else {
      RectFrame(earlier, CharArea(width, x, y, last), glyph, x + 8 * n + col, y + row);
      assert prefix[n] == s[n];
      TextCharShown(before, width, ink, x, y, prefix, n, col, row);
    }
  }

  /** A point outside the box of the string keeps its colour. */
  lemma {:induction false} TextOutside(before: seq<Color>, width: nat, ink: Lettering, x: nat, y: nat, s: string,
                                       px: nat, py: nat)
    requires width > 0 && x + 8 * |s| <= width && ink.CoversAll(s)
    requires px < width && py * width + px < |before|
    requires !(x <= px < x + 8 * |s| && y <= py < y + 16)
    ensures TextScreen(before, width, ink, x, y, s)[py * width + px] == before[py * width + px]
    decreases |s|
  {
    if s != [] {
      var last := |s| - 1;
      TextScreenUnfold(before, width, ink, x, y, s);
      var prefix := s[..last];
      var earlier := TextScreen(before, width, ink, x, y, prefix);
      RectFrame(earlier, CharArea(width, x, y, last), GlyphPixels(ink.Glyph(s[last]), ink.pen, ink.bg), px, py);
      TextOutside(before, width, ink, x, y, prefix, px, py);
    }
  }

  /** A C string holding a NUL ends before the end of its buffer. */
  lemma TerminatedString(dat: string)
    requires '\0' in dat
    ensures |CString(dat)| < |dat| && dat[|CString(dat)|] == '\0'
    ensures forall k :: 0 <= k < |CString(dat)| ==> dat[k] == CString(dat)[k] != '\0'
  {
  }

  /** Row `rows` of a `w`-wide picture ends `w` points after it starts,
      and within the picture when `rows` is below its height. */
  lemma RowEnd(rows: nat, w: nat, h: nat)
    requires rows <= h
    ensures (rows + 1) * w == rows * w + w
    ensures rows < h ==> rows * w + w <= w * h
    ensures rows == h ==> rows * w == w * h
  {
    if rows < h {
      assert (h - rows - 1) * w >= 0;
      assert w * h == rows * w + w + (h - rows - 1) * w;
    }
  }

  /** Drawing one more character of `s` paints its box over the screen
      that shows the characters before it. */
  lemma TextScreenExtend(before: seq<Color>, width: nat, ink: Lettering, x: nat, y: nat, s: string, j: nat)
    requires width > 0 && x + 8 * |s| <= width && ink.CoversAll(s) && j < |s|
    ensures ink.CoversAll(s[..j]) && ink.CoversAll(s[..j + 1])
    ensures TextScreen(before, width, ink, x, y, s[..j + 1])
            == CharScreen(TextScreen(before, width, ink, x, y, s[..j]), width, ink, x + 8 * j, y, s[j])
  {
    assert s[..j + 1][..j] == s[..j];
  }

  // ---------------------------------------------------------------------
  // Images

  /** Each gray level of the picture as its RGB565 grey. */
  function GrayPixels(image: seq<bv8>): (px: seq<Color>)
    ensures |px| == |image|
    ensures forall k :: 0 <= k < |image| ==> px[k] == GrayColor(image[k])
  {
    seq(|image|, k requires 0 <= k < |image| => GrayColor(image[k]))
  }

  /** After `showGrayImage`, point `(x + i, y + j)` shows the grey of gray
      level `i + j * w` of the picture. */
  lemma GrayImagePoint(before: seq<Color>, a: Area, image: seq<bv8>, i: nat, j: nat)
    requires a.Fits() && |image| == a.w * a.h
    requires i < a.w && j < a.h && a.Index(i, j) < |before|
    ensures i + j * a.w < |image|
    ensures Rect(before, a, GrayPixels(image))[a.Index(i, j)] == GrayColor(image[i + j * a.w])
  {
    RectPoint(before, a, GrayPixels(image), i, j);
  }

  // ---------------------------------------------------------------------
  // The numeric truncation of showInt and showUint

  /** C's `%` on a positive divisor: truncates toward zero, so the remainder
      has the sign of the dividend. */
  function CRem(a: int, b: int): (r: int)
    requires b > 0
    ensures Abs(r) == Abs(a) % b
    ensures a >= 0 ==> r >= 0
    ensures a < 0 ==> r <= 0
  {
    if a >= 0 then a % b else -((-a) % b)
  }

  function Abs(a: int): nat
  {
    if a < 0 then -a else a
  }

  lemma {:induction false} Pow10Monotone(m: nat, n: nat)
    requires m <= n
    ensures Pow10(m) <= Pow10(n)
    decreases n
  {
    if m < n {
      Pow10Monotone(m, n - 1);
    }
  }

  /** Every offset the truncation loops build fits an `int32`. */
  lemma Pow10Bound(n: nat)
    requires n <= 9
    ensures Pow10(n) <= 1_000_000_000
  {
    Pow10Monotone(n, 9);
    assert Pow10(9) == 1_000_000_000;
  }

  /** The value `showInt` converts: `dat` cut to its last `num` digits,
      keeping its sign, when `num` is below 10, and `dat` itself otherwise. */
  method TruncateInt(dat: Int32, num: byte) returns (r: Int32)
    ensures r == if num < 10 then CRem(dat, Pow10(num)) else dat
  {
    r := dat;
    var offset: Int32 := 1;
    if 10 > num {
      var n := num;
      Pow10Bound(num);
      while 0 < n
        invariant 0 <= n <= num
        invariant offset == Pow10(num - n)
      {
        Pow10Monotone(num - n + 1, num);
        offset := offset * 10;
        n := n - 1;
      }
      r := CRem(r, offset);
    }
  }

  /** The value `showUint` converts: `dat` modulo `10^num` when `num` is
      below 10, and `dat` itself otherwise. */
  method TruncateUint(dat: Uint32, num: byte) returns (r: Uint32)
    ensures r == if num < 10 then dat % Pow10(num) else dat
  {
    r := dat;
    var offset: Int32 := 1;
    if 10 > num {
      var n := num;
      Pow10Bound(num);
      while 0 < n
        invariant 0 <= n <= num
        invariant offset == Pow10(num - n)
      {
        Pow10Monotone(num - n + 1, num);
        offset := offset * 10;
        n := n - 1;
      }
      r := r % offset;
    }
  }

  /** A value that already has at most `num` digits is shown whole; a width
      of zero shows 0. */
  lemma TruncationKeepsShortValues(dat: int, num: nat)
    ensures Abs(dat) < Pow10(num) ==> CRem(dat, Pow10(num)) == dat
    ensures CRem(dat, Pow10(0)) == 0
  {
    if Abs(dat) < Pow10(num) {
      RemainderOfSmaller(Abs(dat), Pow10(num));
    }
  }

  /** A value below the divisor is its own remainder. */
  lemma RemainderOfSmaller(n: nat, d: nat)
    requires n < d
    ensures n % d == n
  {
    var q := n / d;
    assert n == q * d + n % d;
    MultipleBound(q, d);
  }

  // ---------------------------------------------------------------------
  // The display

  /** The display driver's state: the static members of the C++ class. */
  class DisplayIps200 {
    /** Nothing in the driver assigns the colours after their static
        initialisers. */
    const penColor: Color
    const bgColor: Color
    var width: nat
    var height: nat
    /** The mapped framebuffer, or null before `init`. */
    var screenBase: array?<Color>
    /** The 8x16 ASCII font table, taken as given. */
    const font: seq<seq<byte>>

    /** The static initialisers: default colours, no resolution, no buffer. */
    constructor(font: seq<seq<byte>>)
      ensures width == 0 && height == 0 && screenBase == null
      ensures penColor == DefaultPen && bgColor == DefaultBackground
      ensures this.font == font
    {
      penColor := DefaultPen;
      bgColor := DefaultBackground;
      width := 0;
      height := 0;
      screenBase := null;
      this.font := font;
    }

    function Ink(): Lettering
      reads this
    {
      Lettering(font, penColor, bgColor)
    }

    /** A `w` by `h` box at `(x, y)` has uint16 coordinates and, once the
        buffer is mapped, lies inside its rows and inside the buffer. */
    predicate BoxFits(x: int, y: int, w: nat, h: nat)
      reads this
    {
      0 <= x && 0 <= y && x + w <= 0x1_0000 && y + h <= 0x1_0000
      && (screenBase != null ==> 0 < width && x + w <= width && (y + h) * width <= screenBase.Length)
    }

    /** `drawPoint`: exactly cell `y * width + x` takes the colour; nothing
        happens before the buffer is mapped. */
    method DrawPoint(x: Uint16, y: Uint16, color: Color)
      requires screenBase != null ==> Offset(width, x, y) < screenBase.Length
      modifies screenBase
      ensures screenBase != null ==> screenBase[..] == old(screenBase[..])[Offset(width, x, y) := color]
      ensures width == old(width)
    {
      if screenBase != null {
        screenBase[y * width + x] := color;
      }
    }

    /** `full`: the first 240 columns of the first 320 rows take the colour,
        column after column. */
    method Full(color: Color)
      requires BoxFits(0, 0, PanelColumns, PanelRows)
      modifies screenBase
      ensures screenBase != null ==> screenBase[..] == Rect(old(screenBase[..]), PanelArea(width), Fill(color))
    {
      ghost var before := if screenBase == null then [] else screenBase[..];
      var a := PanelArea(width);
      ghost var src := Fill(color);
      ghost var done := 0;
      if screenBase != null {
        PaintStart(before, a, src, true);
      }
      var i: Uint16 := 0;
      while i < 240
        invariant 0 <= i <= 240 && done == i * 320
        invariant screenBase != null ==> screenBase[..] == Painted(before, a, src, done, true)
      {
        var j: Uint16 := 0;
        while j < 320
          invariant 0 <= j <= 320 && done == i * 320 + j
          invariant screenBase != null ==> screenBase[..] == Painted(before, a, src, done, true)
        {
          if screenBase != null {
            PaintStep(before, a, src, done, true, i, j);
          }
          DrawPoint(i, j, color);
          done := done + 1;
          j := j + 1;
        }
        i := i + 1;
      }
      if screenBase != null {
        PaintDone(before, a, src, true);
      }
    }

    /** `clear`: `full` in the default background colour. */
    method Clear()
      requires BoxFits(0, 0, PanelColumns, PanelRows)
      modifies screenBase
      ensures screenBase != null ==> screenBase[..] == Rect(old(screenBase[..]), PanelArea(width), Fill(White))
    {
      Full(DefaultBackground);
    }

    /** `init` once the framebuffer is mapped: the resolution and buffer the
        driver reports become the display's, and the panel is painted in the
        default background colour. */
    method InitMapped(screen: array<Color>, xres: nat, yres: nat)
      requires PanelColumns <= xres && PanelRows * xres <= screen.Length
      modifies this, screen
      ensures width == xres && height == yres && screenBase == screen
      ensures screen[..] == Rect(old(screen[..]), PanelArea(xres), Fill(White))
    {
      width := xres;
      height := yres;
      screenBase := screen;
      Full(DefaultBackground);
    }

    /** One inner loop of `showChar`: the eight points of column `x + i`
        from row `y + row0` down, each in the pen colour when the low bit of
        `bits`, shifted right once per point, is set and in the background
        colour otherwise; that is the next eight steps of painting the
        glyph's picture column after column. */
    method ShowGlyphBits(x: Uint16, y: Uint16, i: nat, row0: nat, bits: byte, ghost before: seq<Color>,
                         ghost a: Area, ghost src: seq<Color>, ghost glyph: seq<byte>, ghost p: nat)
      requires x + 8 <= 0x1_0000 && y + 16 <= 0x1_0000 && i < 8 && (row0 == 0 || row0 == 8)
      requires a == Area(width, x, y, 8, 16) && p == i * 16 + row0
      requires |glyph| == 16 && IsGlyphPicture(src, glyph, penColor, bgColor) && bits == glyph[i + row0]
      requires screenBase != null ==> Inside(a, |before|) && screenBase[..] == Painted(before, a, src, p, true)
      modifies screenBase
      ensures screenBase != null ==> screenBase[..] == Painted(before, a, src, p + 8, true)
      ensures width == old(width)
    {
      var temp := bits;
      ghost var done := p;
      for j := 0 to 8
        invariant temp == ShiftRight(bits, j) && done == p + j
        invariant screenBase != null ==> screenBase[..] == Painted(before, a, src, done, true)
      {
        ShowGlyphPoint(x, y, i, row0, j, temp, before, a, src, glyph, done);
        done := done + 1;
        temp := temp / 2;
      }
    }

    /** One pass of an inner loop of `showChar`: point `(x + i, y + row0 + j)`
        takes the pen colour when the low bit of `temp` is set and the
        background colour otherwise, the next step of painting the glyph's
        picture column after column. */
    method ShowGlyphPoint(x: Uint16, y: Uint16, i: nat, row0: nat, j: nat, temp: byte, ghost before: seq<Color>,
                          ghost a: Area, ghost src: seq<Color>, ghost glyph: seq<byte>, ghost p: nat)
      requires x + 8 <= 0x1_0000 && y + 16 <= 0x1_0000 && i < 8 && (row0 == 0 || row0 == 8) && j < 8
      requires a == Area(width, x, y, 8, 16) && p == i * 16 + row0 + j
      requires |glyph| == 16 && IsGlyphPicture(src, glyph, penColor, bgColor) && temp == ShiftRight(glyph[i + row0], j)
      requires screenBase != null ==> Inside(a, |before|) && screenBase[..] == Painted(before, a, src, p, true)
      modifies screenBase
      ensures screenBase != null ==> screenBase[..] == Painted(before, a, src, p + 1, true)
      ensures width == old(width)
    {
      var color := if temp % 2 != 0 then penColor else bgColor;
      if screenBase != null {
        GlyphStep(before, a, src, glyph, penColor, bgColor, p, i, row0, j, temp, screenBase[..],
                  x + i, y + row0 + j, color);
      }
      DrawPoint(x + i, y + row0 + j, color);
    }

    /** One pass of `showChar`'s outer loop: column `x + i` of the box
        takes the top and then the bottom byte of the glyph's column `i`. */
    method ShowGlyphColumn(x: Uint16, y: Uint16, i: nat, glyph: seq<byte>, ghost before: seq<Color>,
                           ghost a: Area, ghost src: seq<Color>, ghost p: nat)
      requires x + 8 <= 0x1_0000 && y + 16 <= 0x1_0000 && i < 8
      requires a == Area(width, x, y, 8, 16) && p == i * 16
      requires |glyph| == 16 && IsGlyphPicture(src, glyph, penColor, bgColor)
      requires screenBase != null ==> Inside(a, |before|) && screenBase[..] == Painted(before, a, src, p, true)
      modifies screenBase
      ensures screenBase != null ==> screenBase[..] == Painted(before, a, src, p + 16, true)
      ensures width == old(width)
    {
      var top := glyph[i];
      var bottom := glyph[i + 8];
      ShowGlyphBits(x, y, i, 0, top, before, a, src, glyph, p);
      ShowGlyphBits(x, y, i, 8, bottom, before, a, src, glyph, p + 8);
    }

    /** The loops of `showChar`: the eight columns of the box at `(x, y)`,
        left to right, each top to bottom. */
    method ShowGlyph(x: Uint16, y: Uint16, glyph: seq<byte>, ghost before: seq<Color>,
                     ghost a: Area, ghost src: seq<Color>)
      requires x + 8 <= 0x1_0000 && y + 16 <= 0x1_0000 && a == Area(width, x, y, 8, 16)
      requires |glyph| == 16 && IsGlyphPicture(src, glyph, penColor, bgColor)
      requires screenBase != null ==> Inside(a, |before|) && screenBase[..] == before
      modifies screenBase
      ensures screenBase != null ==> screenBase[..] == Painted(before, a, src, 8 * 16, true)
      ensures width == old(width)
    {
      ghost var done := 0;
      if screenBase != null {
        PaintStart(before, a, src, true);
      }
      for i := 0 to 8
        invariant done == i * 16 && width == old(width)
        invariant screenBase != null ==> screenBase[..] == Painted(before, a, src, done, true)
      {
        ShowGlyphColumn(x, y, i, glyph, before, a, src, done);
        done := done + 16;
      }
    }

    /** `showChar`: the glyph of `dat` fills the 8 by 16 box at `(x, y)`,
        pen colour where its bits are set and background elsewhere, column
        after column. */
    method ShowChar(x: Uint16, y: Uint16, dat: char)
      requires Ink().Covers(dat) && BoxFits(x, y, 8, 16)
      modifies screenBase
      ensures screenBase != null ==>
                screenBase[..] == CharScreen(old(screenBase[..]), width, Ink(), x, y, dat)
    {
      ghost var before := if screenBase == null then [] else screenBase[..];
      ghost var a := Area(width, x, y, 8, 16);
      var glyph := font[dat as int - 32];
      ghost var src := GlyphPixels(glyph, penColor, bgColor);
      GlyphPixelsPicture(glyph, penColor, bgColor);
      ShowGlyph(x, y, glyph, before, a, src);
      if screenBase != null {
        GlyphDone(before, a, src, glyph, penColor, bgColor);
      }
    }

    /** One pass of `showString`'s loop: character `j` of `s` is drawn in
        its box, eight columns per character right of `x`. */
    method ShowTextChar(x: Uint16, y: Uint16, j: Uint16, c: char,
                        ghost before: seq<Color>, ghost ink: Lettering, ghost s: string)
      requires ink == Ink() && j < |s| && c == s[j]
      requires ink.CoversAll(s) && BoxFits(x, y, 8 * |s|, 16)
      requires screenBase != null ==> screenBase[..] == TextScreen(before, width, ink, x, y, s[..j])
      modifies screenBase
      ensures screenBase != null ==> screenBase[..] == TextScreen(before, width, ink, x, y, s[..j + 1])
    {
      ghost var prev := if screenBase == null then [] else screenBase[..];
      if screenBase != null {
        TextScreenExtend(before, width, ink, x, y, s, j);
      }
      ShowChar(x + 8 * j, y, c);
      assert width == old(width) && Ink() == ink;
      assert screenBase != null ==> screenBase[..] == CharScreen(prev, width, ink, x + 8 * j, y, s[j]);
    }

    /** `showString`: the characters of `dat` up to its first NUL, each drawn
        eight columns right of the one before. */
    method ShowString(x: Uint16, y: Uint16, dat: string)
      requires '\0' in dat
      requires Ink().CoversAll(CString(dat)) && BoxFits(x, y, 8 * |CString(dat)|, 16)
      modifies screenBase
      ensures screenBase != null ==> screenBase[..] == TextScreen(old(screenBase[..]), width, Ink(), x, y, CString(dat))
    {
      ghost var before := if screenBase == null then [] else screenBase[..];
      ghost var s := CString(dat);
      ghost var ink := Ink();
      TerminatedString(dat);
      var j: Uint16 := 0;
      while '\0' != dat[j]
        invariant 0 <= j <= |s|
        invariant screenBase != null ==> screenBase[..] == TextScreen(before, width, ink, x, y, s[..j])
        decreases |s| - j
      {
        assert j < |s|;
        ShowTextChar(x, y, j, dat[j], before, ink, s);
        j := j + 1;
      }
      assert j == |s|;
      assert s[..j] == s;
    }

    /** One pass of `showGrayImage`'s outer loop: row `yStart` of the box
        takes row `yStart - y` of the picture, each level drawn as its
        RGB565 grey, left to right. */
    method ShowGrayRow(x: Uint16, y: Uint16, yStart: Uint32, image: seq<bv8>, w: Uint16, h: Uint16,
                       ghost before: seq<Color>, ghost a: Area, ghost src: seq<Color>, ghost base: nat)
      requires y <= yStart < y + h && w * h <= |image| && BoxFits(x, y, w, h)
      requires a == Area(width, x, y, w, h) && src == GrayPixels(image[..w * h])
      requires base == (yStart - y) * w && base + w <= w * h
      requires screenBase != null ==> Inside(a, |before|) && screenBase[..] == Painted(before, a, src, base, false)
      modifies screenBase
      ensures screenBase != null ==> screenBase[..] == Painted(before, a, src, base + w, false)
      ensures width == old(width)
    {
      ghost var done := base;
      var xStart: Uint32 := x;
      while xStart < x + w
        invariant x <= xStart <= x + w && done == base + (xStart - x)
        invariant screenBase != null ==> screenBase[..] == Painted(before, a, src, done, false)
      {
        var i, j := xStart - x, yStart - y;
        var grayValue := image[i + j * w];
        var color := GrayColor(grayValue);
        if screenBase != null {
          PaintStep(before, a, src, done, false, i, j);
        }
        DrawPoint(xStart, yStart, color);
        done := done + 1;
        xStart := xStart + 1;
      }
    }

    /** `showGrayImage`: the `w` by `h` gray picture at `(x, y)`, each level
        drawn as its RGB565 grey, row after row. */
    method ShowGrayImage(x: Uint16, y: Uint16, image: seq<bv8>, w: Uint16, h: Uint16)
      requires w * h <= |image| && BoxFits(x, y, w, h)
      modifies screenBase
      ensures screenBase != null ==>
                screenBase[..] == Rect(old(screenBase[..]), Area(width, x, y, w, h), GrayPixels(image[..w * h]))
    {
      ghost var before := if screenBase == null then [] else screenBase[..];
      var a := Area(width, x, y, w, h);
      ghost var src := GrayPixels(image[..w * h]);
      ghost var done := 0;
      if screenBase != null {
        PaintStart(before, a, src, false);
      }
      var yStart: Uint32 := y;
      while yStart < y + h
        invariant y <= yStart <= y + h && done == (yStart - y) * w && done <= w * h
        invariant screenBase != null ==> screenBase[..] == Painted(before, a, src, done, false)
      {
        RowEnd(yStart - y, w, h);
        ShowGrayRow(x, y, yStart, image, w, h, before, a, src, done);
        done := done + w;
        yStart := yStart + 1;
      }
      RowEnd(h, w, h);
      if screenBase != null {
        PaintDone(before, a, src, false);
      }
    }

    /** One pass of `showRgbImage`'s outer loop: row `yStart` of the box
        takes row `yStart - y` of the picture unchanged, left to right. */
    method ShowRgbRow(x: Uint16, y: Uint16, yStart: Uint32, image: seq<Color>, w: Uint16, h: Uint16,
                      ghost before: seq<Color>, ghost a: Area, ghost src: seq<Color>, ghost base: nat)
      requires y <= yStart < y + h && w * h <= |image| && BoxFits(x, y, w, h)
      requires a == Area(width, x, y, w, h) && src == image[..w * h]
      requires base == (yStart - y) * w && base + w <= w * h
      requires screenBase != null ==> Inside(a, |before|) && screenBase[..] == Painted(before, a, src, base, false)
      modifies screenBase
      ensures screenBase != null ==> screenBase[..] == Painted(before, a, src, base + w, false)
      ensures width == old(width)
    {
      ghost var done := base;
      var xStart: Uint32 := x;
      while xStart < x + w
        invariant x <= xStart <= x + w && done == base + (xStart - x)
        invariant screenBase != null ==> screenBase[..] == Painted(before, a, src, done, false)
      {
        var i, j := xStart - x, yStart - y;
        var rgbValue := image[i + j * w];
        if screenBase != null {
          PaintStep(before, a, src, done, false, i, j);
        }
        DrawPoint(xStart, yStart, rgbValue);
        done := done + 1;
        xStart := xStart + 1;
      }
    }

    /** `showRgbImage`: the `w` by `h` RGB565 picture at `(x, y)`, copied
        unchanged, row after row. */
    method ShowRgbImage(x: Uint16, y: Uint16, image: seq<Color>, w: Uint16, h: Uint16)
      requires w * h <= |image| && BoxFits(x, y, w, h)
      modifies screenBase
      ensures screenBase != null ==>
                screenBase[..] == Rect(old(screenBase[..]), Area(width, x, y, w, h), image[..w * h])
    {
      ghost var before := if screenBase == null then [] else screenBase[..];
      var a := Area(width, x, y, w, h);
      ghost var src := image[..w * h];
      ghost var done := 0;
      if screenBase != null {
        PaintStart(before, a, src, false);
      }
      var yStart: Uint32 := y;
      while yStart < y + h
        invariant y <= yStart <= y + h && done == (yStart - y) * w && done <= w * h
        invariant screenBase != null ==> screenBase[..] == Painted(before, a, src, done, false)
      {
        RowEnd(yStart - y, w, h);
        ShowRgbRow(x, y, yStart, image, w, h, before, a, src, done);
        done := done + w;
        yStart := yStart + 1;
      }
      RowEnd(h, w, h);
      if screenBase != null {
        PaintDone(before, a, src, false);
      }
    }
  }
}
