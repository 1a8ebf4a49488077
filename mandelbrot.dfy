/**
 * The escape-time kernel and the one-shot image pipeline of the renderer.
 *
 * The source computes with IEEE-754 doubles. Their values are not modelled:
 * every floating-point operation the kernel performs is taken from an `Arith`
 * record of uninterpreted operations, so the model fixes which operations are
 * applied, on which operands and in which order, and proves the integer
 * bookkeeping (the iteration counter, the pixel order, the byte layout) for
 * every possible floating-point semantics.
 */
module Mandelbrot {
  import opened Util
  import opened Pixels

  /** The floating-point operations the kernel uses, over a number type F. */
  datatype Arith<!F> = Arith(
    add: (F, F) -> F,
    sub: (F, F) -> F,
    mul: (F, F) -> F,
    div: (F, F) -> F,
    sqrt: F -> F,
    greater: (F, F) -> bool,  // the comparison `>`
    ofNat: nat -> F,           // the cast `n as f64`
    two: F                     // the literal 2.0
  )

  /** A point of the complex plane: real part x, imaginary part y. */
  datatype Coordinate<F> = Coordinate(x: F, y: F)

  /** A colour policy: iteration count and escape threshold to a pixel. */
  type ColourFunction = (nat, nat) -> Pixel

  // ---------------------------------------------------------------------------
  // Escape loop
  // ---------------------------------------------------------------------------

  /** The orbit value z = (zr, zi). */
  datatype Orbit<F> = Orbit(zr: F, zi: F)

  /** One update z := z*z + c, where the new zi is computed from the zr before the update. */
  function Square<F>(a: Arith<F>, c: Coordinate<F>, z: Orbit<F>): Orbit<F>
  {
    Orbit(a.add(a.sub(a.mul(z.zr, z.zr), a.mul(z.zi, z.zi)), c.x),
          a.add(a.mul(a.mul(a.two, z.zr), z.zi), c.y))
  }

  /** z after n updates; the orbit starts at c itself, not at 0. */
  function OrbitAt<F>(a: Arith<F>, c: Coordinate<F>, n: nat): Orbit<F>
  {
    if n == 0 then Orbit(c.x, c.y) else Square(a, c, OrbitAt(a, c, n - 1))
  }

  /** sqrt(zr*zr + zi*zi) */
  function Magnitude<F>(a: Arith<F>, z: Orbit<F>): F
  {
    a.sqrt(a.add(a.mul(z.zr, z.zr), a.mul(z.zi, z.zi)))
  }

  /** The escape test after the n-th update: the magnitude exceeds the escape threshold. */
  predicate EscapesAt<F>(a: Arith<F>, c: Coordinate<F>, escapeThreshold: nat, n: nat)
  {
    a.greater(Magnitude(a, OrbitAt(a, c, n)), a.ofNat(escapeThreshold))
  }

  /**
   * The iteration count reported when the search starts at update k: the first
   * update from k on at which the orbit escapes, or loopThreshold + 1 when none
   * up to loopThreshold does.
   */
  function EscapeFrom<F>(a: Arith<F>, c: Coordinate<F>, loopThreshold: nat, escapeThreshold: nat, k: nat): (r: nat)
    requires 1 <= k <= loopThreshold + 1
    ensures k <= r <= loopThreshold + 1
    ensures forall j :: k <= j < r ==> !EscapesAt(a, c, escapeThreshold, j)
    ensures r == loopThreshold + 1 || EscapesAt(a, c, escapeThreshold, r)
    decreases loopThreshold + 1 - k
  {
    if EscapesAt(a, c, escapeThreshold, k) || k > loopThreshold then k
    else EscapeFrom(a, c, loopThreshold, escapeThreshold, k + 1)
  }

  /**
   * The escape-time count of coordinate c: at least 1 (the counter is raised
   * before the first update), at most loopThreshold + 1, no escape before it,
   * and either an escape at it or the cap.
   */
  function EscapeIterations<F>(a: Arith<F>, c: Coordinate<F>, loopThreshold: nat, escapeThreshold: nat): (r: nat)
    ensures 1 <= r <= loopThreshold + 1
    ensures forall j :: 1 <= j < r ==> !EscapesAt(a, c, escapeThreshold, j)
    ensures r == loopThreshold + 1 || EscapesAt(a, c, escapeThreshold, r)
  {
    EscapeFrom(a, c, loopThreshold, escapeThreshold, 1)
  }

  /** The three facts of EscapeIterations' contract determine the count uniquely. */
  lemma EscapeIterationsUnique<F>(a: Arith<F>, c: Coordinate<F>, loopThreshold: nat, escapeThreshold: nat, r: nat)
    requires 1 <= r <= loopThreshold + 1
    requires forall j :: 1 <= j < r ==> !EscapesAt(a, c, escapeThreshold, j)
    requires r == loopThreshold + 1 || EscapesAt(a, c, escapeThreshold, r)
    ensures r == EscapeIterations(a, c, loopThreshold, escapeThreshold)
  {
  }

  /** A point whose orbit never passes the escape test reports exactly loopThreshold + 1. */
  lemma NeverEscapes<F>(a: Arith<F>, c: Coordinate<F>, loopThreshold: nat, escapeThreshold: nat)
    requires forall j :: 1 <= j <= loopThreshold ==> !EscapesAt(a, c, escapeThreshold, j)
    ensures EscapeIterations(a, c, loopThreshold, escapeThreshold) == loopThreshold + 1
  {
  }

  /** A point that first escapes at update k <= loopThreshold + 1 reports exactly k. */
  lemma FirstEscape<F>(a: Arith<F>, c: Coordinate<F>, loopThreshold: nat, escapeThreshold: nat, k: nat)
    requires 1 <= k <= loopThreshold + 1
    requires EscapesAt(a, c, escapeThreshold, k)
    requires forall j :: 1 <= j < k ==> !EscapesAt(a, c, escapeThreshold, j)
    ensures EscapeIterations(a, c, loopThreshold, escapeThreshold) == k
  {
    EscapeIterationsUnique(a, c, loopThreshold, escapeThreshold, k);
  }

  /**
   * The escape loop of the source: raise the counter, update z (saving zr
   * first), stop on escape or once the counter exceeds loopThreshold.
   * With loopThreshold == u32::MAX the final `counter += 1` would overflow.
   */
  method GetEscapeIterations<F>(a: Arith<F>, coordinate: Coordinate<F>, loopThreshold: U32, escapeThreshold: U32)
    returns (counter: U32)
    requires loopThreshold < U32_MAX
    ensures counter == EscapeIterations(a, coordinate, loopThreshold, escapeThreshold)
  {
    var cr := coordinate.x;
    var ci := coordinate.y;
    var zr := cr;
    var zi := ci;
    counter := 0;
    while true
      invariant counter <= loopThreshold
      invariant zr == OrbitAt(a, coordinate, counter).zr && zi == OrbitAt(a, coordinate, counter).zi
      invariant forall j :: 1 <= j <= counter ==> !EscapesAt(a, coordinate, escapeThreshold, j)
      decreases loopThreshold - counter
    {
      counter := counter + 1;
      var tempZr := zr;
      zr := a.add(a.sub(a.mul(zr, zr), a.mul(zi, zi)), cr);
      zi := a.add(a.mul(a.mul(a.two, tempZr), zi), ci);
      var abs := a.sqrt(a.add(a.mul(zr, zr), a.mul(zi, zi)));
      if a.greater(abs, a.ofNat(escapeThreshold)) {
        EscapeIterationsUnique(a, coordinate, loopThreshold, escapeThreshold, counter);
        break;
      }
      if counter > loopThreshold {
        EscapeIterationsUnique(a, coordinate, loopThreshold, escapeThreshold, counter);
        break;
      }
    }
  }

  // ---------------------------------------------------------------------------
  // One-shot pipeline
  // ---------------------------------------------------------------------------

  /** The plane coordinate of pixel (x, y): x * stepX + lowerLeft.x, y * stepY + lowerLeft.y. */
  function MapCoordinate<F>(a: Arith<F>, lowerLeft: Coordinate<F>, stepX: F, stepY: F, x: nat, y: nat): Coordinate<F>
  {
    Coordinate(a.add(a.mul(a.ofNat(x), stepX), lowerLeft.x),
               a.add(a.mul(a.ofNat(y), stepY), lowerLeft.y))
  }

  /** Points past the iteration cap get the set pixel; the others go through the colour policy. */
  function ChoosePixel(escapeIterations: nat, loopThreshold: nat, escapeThreshold: nat, colour: ColourFunction): Pixel
  {
    if escapeIterations > loopThreshold then SET_PIXEL else colour(escapeIterations, escapeThreshold)
  }

  /** The pixel computed for coordinate c. */
  function PixelOf<F>(a: Arith<F>, c: Coordinate<F>, loopThreshold: nat, escapeThreshold: nat, colour: ColourFunction): Pixel
  {
    ChoosePixel(EscapeIterations(a, c, loopThreshold, escapeThreshold), loopThreshold, escapeThreshold, colour)
  }

  /** A pixel is the set pixel when its point passes the cap, and the colour policy's otherwise. */
  lemma PixelOfChoice<F>(a: Arith<F>, c: Coordinate<F>, loopThreshold: nat, escapeThreshold: nat, colour: ColourFunction)
    ensures var n := EscapeIterations(a, c, loopThreshold, escapeThreshold);
      PixelOf(a, c, loopThreshold, escapeThreshold, colour) ==
        if n == loopThreshold + 1 then SET_PIXEL else colour(n, escapeThreshold)
  {
  }

  /** The pairs (r, c) for r in rows (outer) and c in cols (inner), in that order. */
  function CartesianProduct<A, B>(rows: seq<A>, cols: seq<B>): seq<(A, B)>
  {
    Flatten(seq(|rows|, i requires 0 <= i < |rows| => seq(|cols|, j requires 0 <= j < |cols| => (rows[i], cols[j]))))
  }

  /** `flat_map` of ToSlice: the bytes of every pixel, in order. */
  function PixelBytes(pixels: seq<Pixel>): seq<Byte>
  {
    Flatten(seq(|pixels|, i requires 0 <= i < |pixels| => ToSlice(pixels[i])))
  }

  /** The step between neighbouring pixels along one axis: extent / pixel count. */
  function Step<F>(a: Arith<F>, low: F, high: F, count: nat): F
  {
    a.div(a.sub(high, low), a.ofNat(count))
  }

  /** The pixel at column x and row y of the one-shot image. */
  function ImagePixel<F>(
    a: Arith<F>, lowerLeft: Coordinate<F>, upperRight: Coordinate<F>,
    imageWidth: nat, imageHeight: nat, escapeThreshold: nat, loopThreshold: nat,
    colourFunction: ColourFunction, x: nat, y: nat): Pixel
  {
    var stepX := Step(a, lowerLeft.x, upperRight.x, imageWidth);
    var stepY := Step(a, lowerLeft.y, upperRight.y, imageHeight);
    PixelOf(a, MapCoordinate(a, lowerLeft, stepX, stepY, x, y), loopThreshold, escapeThreshold, colourFunction)
  }

  /** The cells (y, x) of the one-shot image in enumeration order: rows ascending, columns descending. */
  function ImageCells(imageWidth: nat, imageHeight: nat): seq<(nat, nat)>
  {
    CartesianProduct(Range(0, imageHeight), Reverse(Range(0, imageWidth)))
  }

  /** The pixels of the one-shot image, in enumeration order. */
  function ImagePixels<F>(
    a: Arith<F>, lowerLeft: Coordinate<F>, upperRight: Coordinate<F>,
    imageWidth: nat, imageHeight: nat, escapeThreshold: nat, loopThreshold: nat,
    colourFunction: ColourFunction): seq<Pixel>
  {
    var cells := ImageCells(imageWidth, imageHeight);
    seq(|cells|, i requires 0 <= i < |cells| =>
      ImagePixel(a, lowerLeft, upperRight, imageWidth, imageHeight, escapeThreshold, loopThreshold,
                 colourFunction, cells[i].1, cells[i].0))
  }

  /**
   * The whole image as RGBA bytes: rows y ascending, and within a row the
   * columns x from imageWidth - 1 down to 0. As in GetEscapeIterations, a
   * loopThreshold of u32::MAX would overflow the iteration counter.
   */
  function RenderImage<F>(
    a: Arith<F>, lowerLeft: Coordinate<F>, upperRight: Coordinate<F>,
    imageWidth: U32, imageHeight: U32, escapeThreshold: U32, loopThreshold: U32,
    colourFunction: ColourFunction): seq<Byte>
    requires loopThreshold < U32_MAX
  {
    PixelBytes(ImagePixels(a, lowerLeft, upperRight, imageWidth, imageHeight, escapeThreshold, loopThreshold, colourFunction))
  }

  /** The four bytes of group k are the r, g, b, a of pixel k. */
  lemma {:induction false} PixelBytesGroup(pixels: seq<Pixel>, k: nat)
    requires k < |pixels|
    ensures |PixelBytes(pixels)| == 4 * |pixels|
    ensures PixelBytes(pixels)[4 * k .. 4 * k + 4] == ToSlice(pixels[k])
  {
    var groups := seq(|pixels|, i requires 0 <= i < |pixels| => ToSlice(pixels[i]));
    FlattenLength(groups, 4);
    forall j | 0 <= j < 4 ensures PixelBytes(pixels)[4 * k + j] == ToSlice(pixels[k])[j] {
      FlattenAt(groups, 4, k, j);
    }
  }

  /** Element k of the product of rows and cols pairs rows[k / |cols|] with cols[k % |cols|]. */
  lemma {:induction false} CartesianProductAt<A, B>(rows: seq<A>, cols: seq<B>, k: nat)
    requires k < |rows| * |cols|
    ensures |CartesianProduct(rows, cols)| == |rows| * |cols|
    ensures k / |cols| < |rows| && k % |cols| < |cols|
    ensures CartesianProduct(rows, cols)[k] == (rows[k / |cols|], cols[k % |cols|])
  {
    FlattenIndex(seq(|rows|, i requires 0 <= i < |rows| => seq(|cols|, j requires 0 <= j < |cols| => (rows[i], cols[j]))), |cols|, k);
  }

  /**
   * Pixel k of the enumeration is the one at column imageWidth - 1 - k % imageWidth
   * and row k / imageWidth: rows ascending outside, columns descending inside.
   */
  lemma ImagePixelsOrder<F>(
    a: Arith<F>, lowerLeft: Coordinate<F>, upperRight: Coordinate<F>,
    imageWidth: nat, imageHeight: nat, escapeThreshold: nat, loopThreshold: nat,
    colourFunction: ColourFunction, k: nat)
    requires 0 < imageWidth && k < imageWidth * imageHeight
    ensures var pixels := ImagePixels(a, lowerLeft, upperRight, imageWidth, imageHeight, escapeThreshold, loopThreshold, colourFunction);
      |pixels| == imageWidth * imageHeight &&
      pixels[k] == ImagePixel(a, lowerLeft, upperRight, imageWidth, imageHeight, escapeThreshold, loopThreshold,
                              colourFunction, imageWidth - 1 - k % imageWidth, k / imageWidth)
  {
    ImageCellsAt(imageWidth, imageHeight, k);
  }

  /** Cell k of the enumeration is row k / imageWidth, column imageWidth - 1 - k % imageWidth. */
  lemma ImageCellsAt(imageWidth: nat, imageHeight: nat, k: nat)
    requires 0 < imageWidth && k < imageWidth * imageHeight
    ensures var cells := ImageCells(imageWidth, imageHeight);
      |cells| == imageWidth * imageHeight &&
      cells[k] == (k / imageWidth, imageWidth - 1 - k % imageWidth)
  {
    var rows, cols := Range(0, imageHeight), Reverse(Range(0, imageWidth));
    assert |rows| * |cols| == imageWidth * imageHeight by {
      assert |rows| == imageHeight && |cols| == imageWidth;
    }
    CartesianProductAt(rows, cols, k);
  }

  /**
   * The image holds exactly 4 * imageWidth * imageHeight bytes, and the four
   * bytes of group k are the r, g, b, a of the pixel at column
   * imageWidth - 1 - k % imageWidth and row k / imageWidth.
   */
  lemma RenderImageLayout<F>(
    a: Arith<F>, lowerLeft: Coordinate<F>, upperRight: Coordinate<F>,
    imageWidth: U32, imageHeight: U32, escapeThreshold: U32, loopThreshold: U32,
    colourFunction: ColourFunction, k: nat)
    requires loopThreshold < U32_MAX
    requires 0 < imageWidth && k < imageWidth * imageHeight
    ensures var bytes := RenderImage(a, lowerLeft, upperRight, imageWidth, imageHeight, escapeThreshold, loopThreshold, colourFunction);
      |bytes| == 4 * (imageWidth * imageHeight) && 4 * k + 4 <= |bytes| &&
      bytes[4 * k .. 4 * k + 4] ==
        ToSlice(ImagePixel(a, lowerLeft, upperRight, imageWidth, imageHeight, escapeThreshold, loopThreshold,
                           colourFunction, imageWidth - 1 - k % imageWidth, k / imageWidth))
  {
    var pixels := ImagePixels(a, lowerLeft, upperRight, imageWidth, imageHeight, escapeThreshold, loopThreshold, colourFunction);
    ImagePixelsOrder(a, lowerLeft, upperRight, imageWidth, imageHeight, escapeThreshold, loopThreshold, colourFunction, k);
    PixelBytesGroup(pixels, k);
    assert |pixels| == imageWidth * imageHeight;
  }

  /** The image holds four bytes per pixel: 4 * imageWidth * imageHeight in all. */
  lemma RenderImageLength<F>(
    a: Arith<F>, lowerLeft: Coordinate<F>, upperRight: Coordinate<F>,
    imageWidth: U32, imageHeight: U32, escapeThreshold: U32, loopThreshold: U32,
    colourFunction: ColourFunction)
    requires loopThreshold < U32_MAX
    ensures |RenderImage(a, lowerLeft, upperRight, imageWidth, imageHeight, escapeThreshold, loopThreshold, colourFunction)|
      == 4 * (imageWidth * imageHeight)
  {
    var rows, cols := Range(0, imageHeight), Reverse(Range(0, imageWidth));
    FlattenLength(seq(|rows|, i requires 0 <= i < |rows| => seq(|cols|, j requires 0 <= j < |cols| => (rows[i], cols[j]))), |cols|);
    var pixels := ImagePixels(a, lowerLeft, upperRight, imageWidth, imageHeight, escapeThreshold, loopThreshold, colourFunction);
    assert |pixels| == imageHeight * imageWidth;
    FlattenLength(seq(|pixels|, i requires 0 <= i < |pixels| => ToSlice(pixels[i])), 4);
    assert |pixels| * 4 == 4 * (imageWidth * imageHeight);
  }

  /** A 2 x 1 image lists the right-hand pixel first: the horizontal axis is flipped. */
  lemma TwoByOneIsFlipped<F>(
    a: Arith<F>, lowerLeft: Coordinate<F>, upperRight: Coordinate<F>,
    escapeThreshold: U32, loopThreshold: U32, colourFunction: ColourFunction)
    requires loopThreshold < U32_MAX
    ensures RenderImage(a, lowerLeft, upperRight, 2, 1, escapeThreshold, loopThreshold, colourFunction) ==
      ToSlice(ImagePixel(a, lowerLeft, upperRight, 2, 1, escapeThreshold, loopThreshold, colourFunction, 1, 0)) +
      ToSlice(ImagePixel(a, lowerLeft, upperRight, 2, 1, escapeThreshold, loopThreshold, colourFunction, 0, 0))
  {
    RenderImageLayout(a, lowerLeft, upperRight, 2, 1, escapeThreshold, loopThreshold, colourFunction, 0);
    RenderImageLayout(a, lowerLeft, upperRight, 2, 1, escapeThreshold, loopThreshold, colourFunction, 1);
    var bytes := RenderImage(a, lowerLeft, upperRight, 2, 1, escapeThreshold, loopThreshold, colourFunction);
    assert bytes == bytes[0..4] + bytes[4..8];
  }
}
