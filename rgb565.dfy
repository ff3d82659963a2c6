/** RGB565 colours: a 16-bit pixel holding red in bits 15-11, green in bits
    10-5 and blue in bits 4-0, as the framebuffer stores them. */
module Rgb565 {

  type Color = bv16

  // The palette of the common font header.
  const White: Color := 0xFFFF
  const Black: Color := 0x0000
  const Blue: Color := 0x001F
  const Purple: Color := 0xF81F
  const Pink: Color := 0xFE19
  const Red: Color := 0xF800
  const Magenta: Color := 0xF81F
  const Green: Color := 0x07E0
  const Cyan: Color := 0x07FF
  const Yellow: Color := 0xFFE0
  const Brown: Color := 0xBC40
  const Gray: Color := 0x8430
  const Color39C5BB: Color := 0x3616
  const Color66CCFF: Color := 0x665F

  /** The display's default pen and background colours. */
  const DefaultPen: Color := Red
  const DefaultBackground: Color := White

  /** A colour from its three channels. */
  function Pack(r: bv16, g: bv16, b: bv16): Color
  {
    (r << 11) | (g << 5) | b
  }

  function RedOf(c: Color): bv16 { c >> 11 }
  function GreenOf(c: Color): bv16 { (c >> 5) & 0x3F }
  function BlueOf(c: Color): bv16 { c & 0x1F }

  /** Channels in range are recovered from the packed colour, and every
      colour is the packing of its channels. */
  lemma PackRoundTrip(r: bv16, g: bv16, b: bv16, c: Color)
    requires r < 32 && g < 64 && b < 32
    ensures RedOf(Pack(r, g, b)) == r && GreenOf(Pack(r, g, b)) == g && BlueOf(Pack(r, g, b)) == b
    ensures Pack(RedOf(c), GreenOf(c), BlueOf(c)) == c
  {
  }

  /** The palette entries are the channel values they are named after. */
  lemma PaletteChannels()
    ensures White == Pack(31, 63, 31) && Black == Pack(0, 0, 0)
    ensures Red == Pack(31, 0, 0) && Green == Pack(0, 63, 0) && Blue == Pack(0, 0, 31)
    ensures Yellow == Pack(31, 63, 0) && Cyan == Pack(0, 63, 31)
    ensures Purple == Pack(31, 0, 31) && Magenta == Purple
  {
  }

  /** An 8-bit gray level as an RGB565 grey: the top five bits of the level
      go to red and blue, the top six to green.  The level is a `bv8`
      rather than a `byte` because the conversion is shifts and `|`. */
  function GrayColor(gray: bv8): (c: Color)
    ensures RedOf(c) == (gray >> 3) as bv16 && BlueOf(c) == (gray >> 3) as bv16
    ensures GreenOf(c) == (gray >> 2) as bv16
  {
    var r := ((gray >> 3) & 0x1F) as bv16;
    var g := ((gray >> 2) & 0x3F) as bv16;
    var b := ((gray >> 3) & 0x1F) as bv16;
    (r << 11) | (g << 5) | (b << 0)
  }

  /** Black stays black, full white becomes white, and the red and blue
      channels of a grey are always equal. */
  lemma GrayEnds(gray: bv8)
    ensures GrayColor(0) == Black && GrayColor(255) == White
    ensures RedOf(GrayColor(gray)) == BlueOf(GrayColor(gray))
  {
  }

  /** A lighter gray level never gives a darker channel. */
  lemma GrayMonotone(g1: bv8, g2: bv8)
    requires g1 <= g2
    ensures RedOf(GrayColor(g1)) <= RedOf(GrayColor(g2))
    ensures GreenOf(GrayColor(g1)) <= GreenOf(GrayColor(g2))
    ensures BlueOf(GrayColor(g1)) <= BlueOf(GrayColor(g2))
    ensures GrayColor(g1) <= GrayColor(g2)
  {
  }
}
