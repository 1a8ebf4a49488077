/**
 * The RGBA pixel of the renderer: four unsigned 8-bit channels, the fixed
 * "set pixel" given to points believed to lie in the Mandelbrot set, and the
 * serialisation of a pixel into four bytes in the order r, g, b, a.
 */
module Pixels {
  import opened Util

  datatype Pixel = Pixel(r: Byte, g: Byte, b: Byte, a: Byte)

  /** Black and fully opaque. */
  const SET_PIXEL: Pixel := Pixel(0, 0, 0, 255)

  /** The four channels of `p` as bytes, red first and alpha last. */
  function ToSlice(p: Pixel): (s: seq<Byte>)
    ensures |s| == 4
  {
    [p.r, p.g, p.b, p.a]
  }

  /** Rebuilds a pixel from four bytes in r, g, b, a order: the inverse of ToSlice. */
  function FromSlice(s: seq<Byte>): (p: Pixel)
    requires |s| == 4
  {
    Pixel(s[0], s[1], s[2], s[3])
  }

  /** A field-by-field copy of `p`. */
  function Clone(p: Pixel): (q: Pixel)
    ensures q == p
  {
    Pixel(p.r, p.g, p.b, p.a)
  }

  /** Rebuilding a pixel from its slice gives back the same pixel. */
  lemma FromToSlice(p: Pixel)
    ensures FromSlice(ToSlice(p)) == p
  {
  }

  /** Every four-byte slice is the slice of the pixel rebuilt from it. */
  lemma ToFromSlice(s: seq<Byte>)
    requires |s| == 4
    ensures ToSlice(FromSlice(s)) == s
  {
  }

  /** Different pixels serialise to different bytes. */
  lemma ToSliceInjective(p: Pixel, q: Pixel)
    ensures ToSlice(p) == ToSlice(q) <==> p == q
  {
    if ToSlice(p) == ToSlice(q) {
      FromToSlice(p);
      FromToSlice(q);
    }
  }

  /** The set pixel serialises as black with full alpha, channel order r, g, b, a. */
  lemma SetPixelSlice()
    ensures ToSlice(SET_PIXEL) == [0, 0, 0, 255]
  {
  }
}
