/**
 * The incremental renderer: a column-major canvas `pixels[x][y]` filled one
 * batch of linear pixel indices per frame, driven by a cursor `pointer`, and
 * the frame emitter that copies the canvas into an RGBA byte buffer with the
 * horizontal axis flipped.
 */
module RenderState {
  import opened Util
  import opened Pixels
  import opened Mandelbrot

  const WIDTH: nat := 500
  const HEIGHT: nat := 500
  const ESCAPE_THRESHOLD: U32 := 25
  const LOOP_THRESHOLD: U32 := 1000
  /** How many linear indices one call of DrawNextFrame visits. */
  const PIXELS_PER_FRAME: nat := 10000

  // ---------------------------------------------------------------------------
  // Colour policy
  // ---------------------------------------------------------------------------

  datatype Channel = Red | Green | Blue

  /**
   * The value of one colour channel, `(FACTOR * iterations / threshold * 255).round() as u8`
   * in single precision, with FACTOR the channel's constant; left uninterpreted.
   */
  type ChannelPolicy = (Channel, nat, nat) -> Byte

  /** The colour of an escaping point: three computed channels and full opacity. */
  function MyColourFunction(channel: ChannelPolicy, iterations: nat, threshold: nat): (p: Pixel)
    ensures p.a == 255
    ensures p.r == channel(Red, iterations, threshold)
    ensures p.g == channel(Green, iterations, threshold)
    ensures p.b == channel(Blue, iterations, threshold)
  {
    Pixel(channel(Red, iterations, threshold), channel(Green, iterations, threshold),
          channel(Blue, iterations, threshold), 255)
  }

  /** MyColourFunction as the colour policy the pixel computation takes. */
  function Colour(channel: ChannelPolicy): ColourFunction
  {
    (iterations: nat, threshold: nat) => MyColourFunction(channel, iterations, threshold)
  }

  /** Whatever the channel policy, every pixel the renderer computes is fully opaque. */
  lemma ComputedPixelsOpaque<F>(
    a: Arith<F>, c: Coordinate<F>, loopThreshold: nat, escapeThreshold: nat, channel: ChannelPolicy)
    ensures PixelOf(a, c, loopThreshold, escapeThreshold, Colour(channel)).a == 255
  {
    var n := EscapeIterations(a, c, loopThreshold, escapeThreshold);
    if n <= loopThreshold {
      assert PixelOf(a, c, loopThreshold, escapeThreshold, Colour(channel)) == MyColourFunction(channel, n, escapeThreshold);
    }
  }

  // ---------------------------------------------------------------------------
  // Canvas
  // ---------------------------------------------------------------------------

  /** Columns first: canvas[x][y] is the pixel at column x, row y. */
  type Canvas = seq<seq<Pixel>>

  /** The canvas has the fixed WIDTH x HEIGHT shape. */
  predicate IsCanvas(c: Canvas)
  {
    |c| == WIDTH && forall x :: 0 <= x < |c| ==> |c[x]| == HEIGHT
  }

  /** A WIDTH x HEIGHT canvas holding the set pixel everywhere. */
  function InitialCanvas(): (c: Canvas)
    ensures IsCanvas(c)
    ensures forall x, y :: 0 <= x < WIDTH && 0 <= y < HEIGHT ==> c[x][y] == SET_PIXEL
  {
    seq(WIDTH, _ => seq(HEIGHT, _ => SET_PIXEL))
  }

  /** Cell (x, y) has a linear index y * width + x in [lo, hi) of an image `width` wide. */
  predicate InBatch(width: nat, lo: nat, hi: nat, x: nat, y: nat)
  {
    x < width && lo <= y * width + x < hi
  }

  /**
   * The canvas after the linear indices lo .. hi - 1 have been written: the
   * cell of index p, column p % width and row p / width, holds pixelAt of that
   * cell; every other cell keeps its pixel.
   */
  function Painted(c: Canvas, width: nat, pixelAt: (nat, nat) -> Pixel, lo: nat, hi: nat): (r: Canvas)
    ensures |r| == |c| && forall x :: 0 <= x < |c| ==> |r[x]| == |c[x]|
  {
    seq(|c|, x requires 0 <= x < |c| =>
      seq(|c[x]|, y requires 0 <= y < |c[x]| =>
        if InBatch(width, lo, hi, x, y) then pixelAt(x, y) else c[x][y]))
  }

  /** Cell (x, y) of a painted canvas. */
  lemma PaintedAt(c: Canvas, width: nat, pixelAt: (nat, nat) -> Pixel, lo: nat, hi: nat, x: nat, y: nat)
    requires x < |c| && y < |c[x]|
    ensures Painted(c, width, pixelAt, lo, hi)[x][y] ==
      if InBatch(width, lo, hi, x, y) then pixelAt(x, y) else c[x][y]
  {
  }

  /** Two cells of an image `width` wide with the same linear index are the same cell. */
  lemma CellUnique(width: nat, x: nat, y: nat, x': nat, y': nat)
    requires x < width && x' < width
    requires y * width + x == y' * width + x'
    ensures x == x' && y == y'
  {
    if y < y' {
      MulMonotone(y + 1, y', width);
    } else if y' < y {
      MulMonotone(y' + 1, y, width);
    }
  }

  /** A written index p lands in cell (p % width, p / width) with the pixel for that cell. */
  lemma PaintedWrites(c: Canvas, width: nat, pixelAt: (nat, nat) -> Pixel, lo: nat, hi: nat, p: nat)
    requires width > 0 && lo <= p < hi
    requires p % width < |c| && p / width < |c[p % width]|
    ensures Painted(c, width, pixelAt, lo, hi)[p % width][p / width] == pixelAt(p % width, p / width)
  {
    var x, y := p % width, p / width;
    assert p == y * width + x;
    PaintedAt(c, width, pixelAt, lo, hi, x, y);
  }

  /** A cell whose linear index lies outside [lo, hi) keeps its pixel. */
  lemma PaintedKeeps(c: Canvas, width: nat, pixelAt: (nat, nat) -> Pixel, lo: nat, hi: nat, x: nat, y: nat)
    requires x < |c| && y < |c[x]|
    requires !InBatch(width, lo, hi, x, y)
    ensures Painted(c, width, pixelAt, lo, hi)[x][y] == c[x][y]
  {
  }

  /** Writing no index leaves the canvas as it is. */
  lemma PaintedNothing(c: Canvas, width: nat, pixelAt: (nat, nat) -> Pixel, lo: nat)
    ensures Painted(c, width, pixelAt, lo, lo) == c
  {
    var r := Painted(c, width, pixelAt, lo, lo);
    forall x | 0 <= x < |c| ensures r[x] == c[x] {
      forall y | 0 <= y < |c[x]| ensures r[x][y] == c[x][y] {
        PaintedAt(c, width, pixelAt, lo, lo, x, y);
      }
    }
  }

  /** Writing index hi, the index of cell (x, y), after lo .. hi - 1 is one cell update. */
  lemma PaintStep(c: Canvas, width: nat, pixelAt: (nat, nat) -> Pixel, lo: nat, hi: nat, x: nat, y: nat)
    requires lo <= hi && x < width && hi == y * width + x
    requires x < |c| && y < |c[x]|
    ensures var before := Painted(c, width, pixelAt, lo, hi);
      Painted(c, width, pixelAt, lo, hi + 1) == before[x := before[x][y := pixelAt(x, y)]]
  {
    var before := Painted(c, width, pixelAt, lo, hi);
    var after := Painted(c, width, pixelAt, lo, hi + 1);
    var updated := before[x := before[x][y := pixelAt(x, y)]];
    forall x' | 0 <= x' < |c| ensures after[x'] == updated[x'] {
      assert |after[x']| == |updated[x']|;
      forall y' | 0 <= y' < |c[x']| ensures after[x'][y'] == updated[x'][y'] {
        PaintStepAt(c, width, pixelAt, lo, hi, x, y, x', y');
      }
    }
  }

  lemma PaintStepAt(c: Canvas, width: nat, pixelAt: (nat, nat) -> Pixel, lo: nat, hi: nat, x: nat, y: nat, x': nat, y': nat)
    requires lo <= hi && x < width && hi == y * width + x
    requires x < |c| && y < |c[x]|
    requires x' < |c| && y' < |c[x']|
    ensures var before := Painted(c, width, pixelAt, lo, hi);
      Painted(c, width, pixelAt, lo, hi + 1)[x'][y'] == before[x := before[x][y := pixelAt(x, y)]][x'][y']
  {
    var before := Painted(c, width, pixelAt, lo, hi);
    var after := Painted(c, width, pixelAt, lo, hi + 1);
    if x' == x && y' == y {
      assert InBatch(width, lo, hi + 1, x, y);
      assert after[x][y] == pixelAt(x, y);
    } else {
      if x' < width && y' * width + x' == hi {
        CellUnique(width, x, y, x', y');
      }
      assert InBatch(width, lo, hi + 1, x', y') == InBatch(width, lo, hi, x', y');
      assert after[x'][y'] == before[x'][y'];
    }
  }

  /**
   * On a WIDTH x HEIGHT canvas, writing index p < width * height of an image
   * no larger than the canvas updates the single cell (p % width, p / width).
   */
  lemma PaintNext(c: Canvas, width: nat, height: nat, pixelAt: (nat, nat) -> Pixel, lo: nat, p: nat)
    requires IsCanvas(c) && width <= WIDTH && height <= HEIGHT
    requires lo <= p < width * height
    ensures width > 0 && 0 <= p % width && 0 <= p / width
    ensures var before := Painted(c, width, pixelAt, lo, p);
      p % width < |before| && p / width < |before[p % width]| &&
      Painted(c, width, pixelAt, lo, p + 1) ==
        before[p % width := before[p % width][p / width := pixelAt(p % width, p / width)]]
  {
    DivBelow(p, width, height);
    DivModDecompose(p, width);
    PaintStep(c, width, pixelAt, lo, p, p % width, p / width);
  }

  /** An image no larger than the canvas has at most WIDTH * HEIGHT indices. */
  lemma AreaBound(width: nat, height: nat)
    requires width <= WIDTH && height <= HEIGHT
    ensures width * height <= WIDTH * HEIGHT
  {
    MulMonotone(width, WIDTH, height);
    MulMonotone(height, HEIGHT, WIDTH);
  }

  /** Painting keeps the canvas WIDTH x HEIGHT. */
  lemma PaintedIsCanvas(c: Canvas, width: nat, pixelAt: (nat, nat) -> Pixel, lo: nat, hi: nat)
    requires IsCanvas(c)
    ensures IsCanvas(Painted(c, width, pixelAt, lo, hi))
  {
  }

  /** Rewriting indices m .. d - 1 after a .. b - 1, with a <= m <= b <= d, writes a .. d - 1. */
  lemma PaintedCompose(c: Canvas, width: nat, pixelAt: (nat, nat) -> Pixel, a: nat, m: nat, b: nat, d: nat)
    requires a <= m <= b <= d
    ensures Painted(Painted(c, width, pixelAt, a, b), width, pixelAt, m, d) == Painted(c, width, pixelAt, a, d)
  {
    var inner := Painted(c, width, pixelAt, a, b);
    var outer := Painted(inner, width, pixelAt, m, d);
    var direct := Painted(c, width, pixelAt, a, d);
    forall x | 0 <= x < |c| ensures outer[x] == direct[x] {
      forall y | 0 <= y < |c[x]| ensures outer[x][y] == direct[x][y] {
        PaintedAt(c, width, pixelAt, a, b, x, y);
        PaintedAt(inner, width, pixelAt, m, d, x, y);
        PaintedAt(c, width, pixelAt, a, d, x, y);
      }
    }
  }

  // ---------------------------------------------------------------------------
  // Render cursor
  // ---------------------------------------------------------------------------

  /**
   * The cursor after one call of DrawNextFrame from `start`: unchanged once the
   * image is complete; otherwise the last index of a full batch, or `total`
   * when the batch runs off the end.
   */
  function CursorAfter(start: nat, total: nat): nat
  {
    if start >= total then start
    else if start + PIXELS_PER_FRAME - 1 < total then start + PIXELS_PER_FRAME - 1
    else total
  }

  /**
   * One past the last linear index written by one call from `start`: the
   * batch covers start .. min(start + PIXELS_PER_FRAME, total) - 1 of an
   * unfinished image and nothing once the image is complete.
   */
  function WrittenEnd(start: nat, total: nat): nat
  {
    if start >= total then start else Min(start + PIXELS_PER_FRAME, total)
  }

  /**
   * After a call on an unfinished image every index below the new cursor has
   * been written, and the cursor's own index has been written exactly when the
   * batch had room for all PIXELS_PER_FRAME indices (the next call visits it again).
   */
  lemma WrittenThroughCursor(start: nat, total: nat)
    requires start < total
    ensures CursorAfter(start, total) <= WrittenEnd(start, total) <= CursorAfter(start, total) + 1
    ensures WrittenEnd(start, total) == CursorAfter(start, total) + 1 <==> start + PIXELS_PER_FRAME <= total
  {
  }

  /** The mutable part of the renderer as a value. */
  datatype Progress = Progress(canvas: Canvas, cursor: nat)

  /** The effect of one call of DrawNextFrame on the canvas and the cursor. */
  function Batch(pr: Progress, width: nat, total: nat, pixelAt: (nat, nat) -> Pixel): (next: Progress)
    ensures |next.canvas| == |pr.canvas| && forall x :: 0 <= x < |pr.canvas| ==> |next.canvas[x]| == |pr.canvas[x]|
  {
    Progress(Painted(pr.canvas, width, pixelAt, pr.cursor, WrittenEnd(pr.cursor, total)),
             CursorAfter(pr.cursor, total))
  }

  /**
   * The cursor never moves back and never passes `total`, and an unfinished
   * image always advances. A batch with room for all PIXELS_PER_FRAME indices
   * moves it by PIXELS_PER_FRAME - 1 (its last index is visited again by the
   * next call); a batch that meets `total` leaves it on `total`.
   */
  lemma BatchCursor(pr: Progress, width: nat, total: nat, pixelAt: (nat, nat) -> Pixel)
    requires pr.cursor <= total
    ensures var next := Batch(pr, width, total, pixelAt).cursor;
      pr.cursor <= next <= total &&
      (pr.cursor < total ==> pr.cursor < next) &&
      (pr.cursor + PIXELS_PER_FRAME <= total ==> next == pr.cursor + PIXELS_PER_FRAME - 1) &&
      (pr.cursor < total < pr.cursor + PIXELS_PER_FRAME ==> next == total)
  {
  }

  /** Once the cursor has reached `total`, a call changes neither the canvas nor the cursor. */
  lemma BatchIdempotent(pr: Progress, width: nat, total: nat, pixelAt: (nat, nat) -> Pixel)
    requires pr.cursor >= total
    ensures Batch(pr, width, total, pixelAt) == pr
  {
    PaintedNothing(pr.canvas, width, pixelAt, pr.cursor);
  }

  /**
   * One call writes exactly the indices from the cursor up to
   * WrittenEnd(cursor, total) - 1, each into its own cell, and leaves every
   * other cell alone.
   */
  lemma BatchWrites(pr: Progress, width: nat, total: nat, pixelAt: (nat, nat) -> Pixel, x: nat, y: nat)
    requires x < |pr.canvas| && y < |pr.canvas[x]|
    ensures var after := Batch(pr, width, total, pixelAt).canvas;
      after[x][y] == if InBatch(width, pr.cursor, WrittenEnd(pr.cursor, total), x, y) then pixelAt(x, y) else pr.canvas[x][y]
  {
  }

  /** A batch that reaches `total` at index p leaves the cursor on p and has written start .. p - 1. */
  lemma BatchStopsAtEnd(c: Canvas, width: nat, total: nat, pixelAt: (nat, nat) -> Pixel, start: nat, p: nat)
    requires start <= p == total < start + PIXELS_PER_FRAME
    ensures Batch(Progress(c, start), width, total, pixelAt) == Progress(Painted(c, width, pixelAt, start, p), p)
  {
  }

  /** A batch that visits all PIXELS_PER_FRAME indices leaves the cursor on the last one. */
  lemma BatchFullFrame(c: Canvas, width: nat, total: nat, pixelAt: (nat, nat) -> Pixel, start: nat)
    requires start + PIXELS_PER_FRAME <= total
    ensures Batch(Progress(c, start), width, total, pixelAt) ==
      Progress(Painted(c, width, pixelAt, start, start + PIXELS_PER_FRAME), start + PIXELS_PER_FRAME - 1)
  {
  }

  function Min(a: nat, b: nat): nat
  {
    if a < b then a else b
  }

  /** n successive calls of DrawNextFrame. */
  function Run(pr: Progress, width: nat, total: nat, pixelAt: (nat, nat) -> Pixel, n: nat): (last: Progress)
    ensures |last.canvas| == |pr.canvas| && forall x :: 0 <= x < |pr.canvas| ==> |last.canvas[x]| == |pr.canvas[x]|
  {
    if n == 0 then pr else Batch(Run(pr, width, total, pixelAt, n - 1), width, total, pixelAt)
  }

  /** One past the last index written by the first n calls from a fresh cursor. */
  function Reached(n: nat, total: nat): nat
  {
    if n == 0 then 0 else Min(n * (PIXELS_PER_FRAME - 1) + 1, total)
  }

  /**
   * After n calls from cursor 0 the cursor is min(n * (PIXELS_PER_FRAME - 1), total)
   * and exactly the indices below Reached(n) have been written: the index each
   * unfinished batch revisits is written twice with the same pixel, and none is skipped.
   */
  lemma {:induction false} RunFromStart(c: Canvas, width: nat, total: nat, pixelAt: (nat, nat) -> Pixel, n: nat)
    ensures Run(Progress(c, 0), width, total, pixelAt, n) ==
      Progress(Painted(c, width, pixelAt, 0, Reached(n, total)), Min(n * (PIXELS_PER_FRAME - 1), total))
  {
    if n == 0 {
      PaintedNothing(c, width, pixelAt, 0);
    } else {
      RunFromStart(c, width, total, pixelAt, n - 1);
      var m := (n - 1) * (PIXELS_PER_FRAME - 1);
      assert n * (PIXELS_PER_FRAME - 1) == m + PIXELS_PER_FRAME - 1;
      var cur := Min(m, total);
      var h := Reached(n - 1, total);
      var before := Painted(c, width, pixelAt, 0, h);
      assert Run(Progress(c, 0), width, total, pixelAt, n) == Batch(Progress(before, cur), width, total, pixelAt);
      if cur >= total {
        assert h == total && Reached(n, total) == total;
        PaintedNothing(before, width, pixelAt, cur);
      } else {
        assert cur == m && h == (if n == 1 then 0 else m + 1) && h <= WrittenEnd(cur, total);
        assert WrittenEnd(cur, total) == Reached(n, total);
        PaintedCompose(c, width, pixelAt, 0, cur, h, WrittenEnd(cur, total));
      }
    }
  }

  /** The linear index of every cell of a width x height image is below width * height. */
  lemma CellIndexBelow(width: nat, height: nat, x: nat, y: nat)
    requires x < width && y < height
    ensures y * width + x < width * height
  {
    MulMonotone(y + 1, height, width);
    assert (y + 1) * width == y * width + width;
    assert height * width == width * height;
  }

  /**
   * Once enough calls have been made (n * (PIXELS_PER_FRAME - 1) >= width * height)
   * the cursor rests at width * height and every cell of the image holds its computed pixel.
   */
  lemma RenderCompletes(c: Canvas, width: nat, height: nat, pixelAt: (nat, nat) -> Pixel, n: nat)
    requires n * (PIXELS_PER_FRAME - 1) >= width * height
    ensures var pr := Run(Progress(c, 0), width, width * height, pixelAt, n);
      pr.cursor == width * height &&
      forall x, y :: 0 <= x < width && 0 <= y < height && x < |c| && y < |c[x]| ==> pr.canvas[x][y] == pixelAt(x, y)
  {
    var total := width * height;
    RunFromStart(c, width, total, pixelAt, n);
    assert Reached(n, total) == total;
    forall x, y | 0 <= x < width && 0 <= y < height && x < |c| && y < |c[x]|
      ensures Painted(c, width, pixelAt, 0, total)[x][y] == pixelAt(x, y)
    {
      PaintedWholeImage(c, width, height, pixelAt, x, y);
    }
  }

  /** Painting every index below width * height gives each cell of the image its pixel. */
  lemma PaintedWholeImage(c: Canvas, width: nat, height: nat, pixelAt: (nat, nat) -> Pixel, x: nat, y: nat)
    requires x < width && y < height && x < |c| && y < |c[x]|
    ensures Painted(c, width, pixelAt, 0, width * height)[x][y] == pixelAt(x, y)
  {
    CellIndexBelow(width, height, x, y);
    assert InBatch(width, 0, width * height, x, y);
    PaintedAt(c, width, pixelAt, 0, width * height, x, y);
  }

  // ---------------------------------------------------------------------------
  // Frame emitter
  // ---------------------------------------------------------------------------

  /** Canvas column of output pixel i: the horizontal axis is flipped. */
  function FlipX(i: nat): nat
  {
    WIDTH - 1 - i % WIDTH
  }

  /** Canvas row of output pixel i. */
  function FlipY(i: nat): nat
  {
    i / WIDTH
  }

  /** The output pixel that shows canvas cell (x, y). */
  function OutputIndex(x: nat, y: nat): nat
    requires x < WIDTH
  {
    y * WIDTH + (WIDTH - 1 - x)
  }

  /** Every output pixel of a full frame shows a canvas cell, and OutputIndex finds it back. */
  lemma FlipInRange(i: nat)
    requires i < WIDTH * HEIGHT
    ensures FlipX(i) < WIDTH && FlipY(i) < HEIGHT
    ensures OutputIndex(FlipX(i), FlipY(i)) == i
  {
    DivBelow(i, WIDTH, HEIGHT);
  }

  /** Every canvas cell is shown by an output pixel of a full frame, and the flip finds it back. */
  lemma OutputIndexInRange(x: nat, y: nat)
    requires x < WIDTH && y < HEIGHT
    ensures OutputIndex(x, y) < WIDTH * HEIGHT
    ensures FlipX(OutputIndex(x, y)) == x && FlipY(OutputIndex(x, y)) == y
  {
    CellIndexBelow(WIDTH, HEIGHT, WIDTH - 1 - x, y);
    DivModUnique(OutputIndex(x, y), WIDTH, y, WIDTH - 1 - x);
  }

  /** In a full frame each canvas cell is shown by exactly one output pixel. */
  lemma EachCellOnce(x: nat, y: nat, i: nat)
    requires x < WIDTH && y < HEIGHT && i < WIDTH * HEIGHT
    ensures (FlipX(i) == x && FlipY(i) == y) <==> i == OutputIndex(x, y)
  {
    FlipInRange(i);
    OutputIndexInRange(x, y);
  }

  /**
   * The frame after drawing: each full 4-byte chunk i holds the r, g, b, a of
   * canvas cell (FlipX(i), FlipY(i)); trailing bytes short of a chunk are kept.
   */
  function Emit(canvas: Canvas, frame: seq<Byte>): (out: seq<Byte>)
    requires IsCanvas(canvas) && |frame| / 4 <= WIDTH * HEIGHT
    ensures |out| == |frame|
  {
    seq(|frame|, k requires 0 <= k < |frame| =>
      if k < |frame| / 4 * 4 then
        (DivBelow(k / 4, WIDTH, HEIGHT);
         ToSlice(canvas[FlipX(k / 4)][FlipY(k / 4)])[k % 4])
      else frame[k])
  }

  /** In a frame of 4 * WIDTH * HEIGHT bytes, canvas cell (x, y) fills the four bytes of OutputIndex(x, y). */
  lemma EmitCell(canvas: Canvas, frame: seq<Byte>, x: nat, y: nat)
    requires IsCanvas(canvas) && |frame| == 4 * (WIDTH * HEIGHT)
    requires x < WIDTH && y < HEIGHT
    ensures var i := OutputIndex(x, y);
      i < WIDTH * HEIGHT && Emit(canvas, frame)[4 * i .. 4 * i + 4] == ToSlice(canvas[x][y])
  {
    var i := OutputIndex(x, y);
    OutputIndexInRange(x, y);
    var out := Emit(canvas, frame);
    forall j | 0 <= j < 4 ensures out[4 * i + j] == ToSlice(canvas[x][y])[j] {
      DivModUnique(4 * i + j, 4, i, j);
    }
  }

  /** Drawing a canvas that holds only the set pixel makes every chunk 0, 0, 0, 255. */
  lemma EmitSetCanvas(frame: seq<Byte>, i: nat)
    requires |frame| / 4 <= WIDTH * HEIGHT && i < |frame| / 4
    ensures Emit(InitialCanvas(), frame)[4 * i .. 4 * i + 4] == [0, 0, 0, 255]
  {
    var out := Emit(InitialCanvas(), frame);
    DivBelow(i, WIDTH, HEIGHT);
    forall j | 0 <= j < 4 ensures out[4 * i + j] == ToSlice(SET_PIXEL)[j] {
      DivModUnique(4 * i + j, 4, i, j);
    }
  }

  /**
   * For a WIDTH x HEIGHT image the one-shot pipeline lays its pixels out with
   * the same flip as the frame emitter: byte group i is the cell (FlipX(i), FlipY(i)).
   */
  lemma OneShotUsesEmitterFlip<F>(
    a: Arith<F>, lowerLeft: Coordinate<F>, upperRight: Coordinate<F>,
    escapeThreshold: U32, loopThreshold: U32, colourFunction: ColourFunction, i: nat)
    requires loopThreshold < U32_MAX && i < WIDTH * HEIGHT
    ensures var bytes := RenderImage(a, lowerLeft, upperRight, WIDTH, HEIGHT, escapeThreshold, loopThreshold, colourFunction);
      4 * i + 4 <= |bytes| &&
      bytes[4 * i .. 4 * i + 4] ==
        ToSlice(ImagePixel(a, lowerLeft, upperRight, WIDTH, HEIGHT, escapeThreshold, loopThreshold, colourFunction,
                           FlipX(i), FlipY(i)))
  {
    var w, h: U32 := WIDTH, HEIGHT;
    RenderImageLayout(a, lowerLeft, upperRight, w, h, escapeThreshold, loopThreshold, colourFunction, i);
    assert w - 1 - i % w == FlipX(i) && i / w == FlipY(i);
  }

  /**
   * The renderer's steps (both extents taken from x) give the one-shot
   * pipeline's pixels whenever the view is as tall as it is wide, and in
   * general differ from it only through step_y.
   */
  lemma RendererMatchesOneShot<F>(
    a: Arith<F>, lowerLeft: Coordinate<F>, upperRight: Coordinate<F>, width: nat, height: nat,
    escapeThreshold: nat, loopThreshold: nat, channel: ChannelPolicy, x: nat, y: nat)
    requires a.sub(upperRight.x, lowerLeft.x) == a.sub(upperRight.y, lowerLeft.y)
    ensures PixelOf(a, MapCoordinate(a, lowerLeft, Step(a, lowerLeft.x, upperRight.x, width),
                                     Step(a, lowerLeft.x, upperRight.x, height), x, y),
                    loopThreshold, escapeThreshold, Colour(channel)) ==
      ImagePixel(a, lowerLeft, upperRight, width, height, escapeThreshold, loopThreshold, Colour(channel), x, y)
  {
  }

  /**
   * Exact real arithmetic for evaluating the view bounds of the program's
   * constants. Only add, sub, mul, div and ofNat are meant; `sqrt` is a
   * placeholder, not a square root.
   */
  function ExactArith(): Arith<real>
  {
    Arith((p: real, q: real) => p + q, (p: real, q: real) => p - q, (p: real, q: real) => p * q,
          (p: real, q: real) => if q == 0.0 then 0.0 else p / q, (p: real) => p,
          (p: real, q: real) => p > q, (n: nat) => n as real, 2.0)
  }

  /**
   * With the program's view (-1.8, -1.2) .. (0.7, 1.2) on a HEIGHT-row image,
   * step_y taken from the x-extent places the top row at imaginary part
   * 1.295, above the view's upper edge 1.2; taken from the y-extent it lands
   * inside the view. Evaluated in exact arithmetic; doubles round both values.
   */
  lemma TopRowLeavesView()
    ensures var a := ExactArith();
      var lowerLeft, upperRight := Coordinate(-1.8, -1.2), Coordinate(0.7, 1.2);
      var top := HEIGHT - 1;
      MapCoordinate(a, lowerLeft, 0.0, Step(a, lowerLeft.x, upperRight.x, HEIGHT), 0, top).y == 1.295 &&
      MapCoordinate(a, lowerLeft, 0.0, Step(a, lowerLeft.y, upperRight.y, HEIGHT), 0, top).y < upperRight.y
  {
  }

  // ---------------------------------------------------------------------------
  // The renderer object
  // ---------------------------------------------------------------------------

  class MandelbrotState<F> {
    /** The floating-point semantics the renderer computes with. */
    const arith: Arith<F>
    /** The floating-point channels of the colour policy. */
    const channel: ChannelPolicy
    const width: U32
    const height: U32
    var pixels: Canvas
    var pointer: U32
    const loopThreshold: U32
    const escapeThreshold: U32
    const lowerLeft: Coordinate<F>
    const stepX: F
    const stepY: F
    /** The pixel each cell (x, y) of the image is to receive. */
    ghost const image: (nat, nat) -> Pixel

    /** The canvas keeps its shape, the cursor stays within the image, and `image` is what the kernel computes. */
    ghost predicate Valid()
      reads this
    {
      IsCanvas(pixels) && pointer <= width * height && Computes()
    }

    /** `image` holds, for every cell, the pixel the kernel computes for it. */
    ghost predicate Computes()
    {
      forall x: nat, y: nat {:trigger PixelAt(x, y)} :: image(x, y) == PixelAt(x, y)
    }

    /**
     * A fresh renderer: cursor 0 and a WIDTH x HEIGHT canvas of set pixels,
     * whatever `width` and `height` are. step_y divides the horizontal extent
     * by the height, as the code does.
     */
    constructor (arith: Arith<F>, channel: ChannelPolicy, width: U32, height: U32,
                 loopThreshold: U32, escapeThreshold: U32,
                 lowerLeft: Coordinate<F>, upperRight: Coordinate<F>)
      ensures Valid()
      ensures pointer == 0 && pixels == InitialCanvas()
      ensures this.arith == arith && this.channel == channel
      ensures this.width == width && this.height == height
      ensures this.loopThreshold == loopThreshold && this.escapeThreshold == escapeThreshold
      ensures this.lowerLeft == lowerLeft
      ensures stepX == Step(arith, lowerLeft.x, upperRight.x, width)
      ensures stepY == Step(arith, lowerLeft.x, upperRight.x, height)
    {
      this.arith := arith;
      this.channel := channel;
      this.width := width;
      this.height := height;
      pixels := InitialCanvas();
      pointer := 0;
      this.loopThreshold := loopThreshold;
      this.escapeThreshold := escapeThreshold;
      this.lowerLeft := lowerLeft;
      var stepX := Step(arith, lowerLeft.x, upperRight.x, width);
      var stepY := Step(arith, lowerLeft.x, upperRight.x, height);
      this.stepX := stepX;
      this.stepY := stepY;
      image := (x: nat, y: nat) => PixelOf(arith, MapCoordinate(arith, lowerLeft, stepX, stepY, x, y),
                                           loopThreshold, escapeThreshold, Colour(channel));
    }

    /** The pixel this renderer computes for column x, row y. */
    function PixelAt(x: nat, y: nat): Pixel
    {
      PixelOf(arith, MapCoordinate(arith, lowerLeft, stepX, stepY, x, y), loopThreshold, escapeThreshold,
              Colour(channel))
    }

    /**
     * Compute the next batch: for each linear index p from the cursor on, move
     * the cursor to p, stop if p has reached width * height, else write the
     * pixel of cell (p % width, p / width). The canvas is WIDTH x HEIGHT, so a
     * larger `width` or `height` would index out of bounds.
     */
    method DrawNextFrame()
      requires Valid()
      requires width <= WIDTH && height <= HEIGHT
      requires loopThreshold < U32_MAX
      modifies this
      ensures Valid()
      ensures Progress(pixels, pointer) == Batch(Progress(old(pixels), old(pointer)), width, width * height, image)
    {
      var total := width * height;
      AreaBound(width, height);
      var start := pointer;
      ghost var before := pixels;
      PaintedNothing(pixels, width, image, start);
      for p := start to start + PIXELS_PER_FRAME
        invariant p <= total
        invariant pointer == if p == start then start else p - 1
        invariant pixels == Painted(before, width, image, start, p)
      {
        pointer := p;
        if pointer >= total {
          BatchStopsAtEnd(before, width, total, image, start, p);
          PaintedIsCanvas(before, width, image, start, p);
          return;
        }
        DrawPixel(before, start);
      }
      BatchFullFrame(before, width, total, image, start);
      PaintedIsCanvas(before, width, image, start, start + PIXELS_PER_FRAME);
    }

    /**
     * One step of DrawNextFrame: write the pixel computed for the cursor's
     * cell (pointer % width, pointer / width). On a canvas that holds the
     * indices start .. pointer - 1 painted over `before`, this paints index
     * pointer as well.
     */
    method DrawPixel(ghost before: Canvas, ghost start: nat)
      requires Computes() && loopThreshold < U32_MAX
      requires IsCanvas(before) && width <= WIDTH && height <= HEIGHT
      requires start <= pointer < width * height
      requires pixels == Painted(before, width, image, start, pointer)
      modifies this
      ensures pointer == old(pointer)
      ensures pixels == Painted(before, width, image, start, pointer + 1)
    {
      PaintNext(before, width, height, image, start, pointer);
      var x := pointer % width;
      var y := pointer / width;
      var pixel := ComputePixel(x, y);
      pixels := pixels[x := pixels[x][y := pixel]];
    }

    /** The body of one step of DrawNextFrame: map the cell to the plane, count, choose the colour. */
    method ComputePixel(x: nat, y: nat) returns (pixel: Pixel)
      requires Computes() && loopThreshold < U32_MAX
      ensures pixel == image(x, y)
    {
      var coordinate := Coordinate(arith.add(arith.mul(arith.ofNat(x), stepX), lowerLeft.x),
                                   arith.add(arith.mul(arith.ofNat(y), stepY), lowerLeft.y));
      var escapeIterations := GetEscapeIterations(arith, coordinate, loopThreshold, escapeThreshold);
      pixel := if escapeIterations > loopThreshold then SET_PIXEL
               else MyColourFunction(channel, escapeIterations, escapeThreshold);
      assert pixel == PixelAt(x, y);
    }

    /**
     * Copy the canvas into `frame`, one 4-byte chunk per output pixel, flipping
     * the horizontal axis. Chunks past WIDTH * HEIGHT would index out of bounds.
     */
    method Draw(frame: array<Byte>)
      requires Valid()
      requires frame.Length / 4 <= WIDTH * HEIGHT
      modifies frame
      ensures frame[..] == Emit(pixels, old(frame[..]))
    {
      var i := 0;
      while i < frame.Length / 4
        invariant 0 <= i <= frame.Length / 4
        invariant forall k :: 0 <= k < frame.Length ==>
          frame[k] == if k < 4 * i then Emit(pixels, old(frame[..]))[k] else old(frame[k])
      {
        var x := (WIDTH - 1) - (i % WIDTH);
        var y := i / WIDTH;
        DivBelow(i, WIDTH, HEIGHT);
        var rgba := ToSlice(pixels[x][y]);
        forall j | 0 <= j < 4 {
          frame[4 * i + j] := rgba[j];
        }
        i := i + 1;
      }
    }
  }
}
