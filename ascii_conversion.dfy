/** The brightness-sampling rasterizer of the image-to-ASCII page: a decoded
    RGBA pixel buffer, a target width in characters and a character ramp
    become a block of text with one glyph per output cell and one newline per
    output row.

    Every division in the page's `convertToASCII` is a floating-point
    division followed by a floor; here each one is the exact integer floor
    of the same rational number, and each function states that floor as a
    pair of inequalities. */
module AsciiConversion {

  import Arithmetic

  /** One element of the canvas pixel buffer (a clamped unsigned byte). */
  type Byte = b: int | 0 <= b < 256

  /** The decoded image the canvas hands over: `data` holds four bytes
      (red, green, blue, alpha) per pixel, row by row from the top. */
  datatype ImageData = ImageData(data: seq<Byte>, width: int, height: int)

  /** What every canvas image guarantees: at least one pixel each way and
      exactly four bytes per pixel. */
  predicate WellFormed(img: ImageData)
  {
    img.width >= 1 && img.height >= 1 && |img.data| == 4 * img.width * img.height
  }

  /** A glyph is about twice as tall as it is wide, so the output height is
      the aspect-correct height divided by this constant (the factor 0.5). */
  const GlyphAspect := 2

  /** The largest value of r + g + b, that is 3 * 255; the brightness
      (r + g + b) / 3 divided by 255 is (r + g + b) / MaxSum. */
  const MaxSum := 765

  /** The number of output rows: floor(outputWidth * (imgHeight / imgWidth) * 0.5).
      Nothing clamps it: it may be zero or negative, and then no row is drawn. */
  function OutputHeight(outputWidth: int, imgWidth: int, imgHeight: int): (h: int)
    requires imgWidth >= 1 && imgHeight >= 1
    ensures h * (GlyphAspect * imgWidth) <= outputWidth * imgHeight < (h + 1) * (GlyphAspect * imgWidth)
    ensures h >= 1 ==> outputWidth >= 1
  {
    var h := (outputWidth * imgHeight) / (GlyphAspect * imgWidth);
    Arithmetic.FloorDiv(outputWidth * imgHeight, GlyphAspect * imgWidth);
    Arithmetic.PositiveQuotient(outputWidth, imgHeight, GlyphAspect * imgWidth);
    h
  }

  /** Nearest-neighbour sampling: cell i of outSize output cells reads source
      coordinate floor(i / outSize * srcSize), which always lies inside the
      source although nothing clamps it. */
  function SourceCoord(i: int, outSize: int, srcSize: int): (s: int)
    requires 0 <= i < outSize && srcSize >= 1
    ensures 0 <= s < srcSize
    ensures s * outSize <= i * srcSize < (s + 1) * outSize
  {
    var s := (i * srcSize) / outSize;
    Arithmetic.ScaledIndex(i, outSize, srcSize);
    s
  }

  /** Offset of the red byte of pixel (srcX, srcY) in the row-major buffer.
      The offset is word-aligned, leaves room for all four channels, and
      determines the pixel it came from. */
  function PixelIndex(srcX: int, srcY: int, imgWidth: int, imgHeight: int): (p: int)
    requires 0 <= srcX < imgWidth && 0 <= srcY < imgHeight
    ensures 0 <= p && p % 4 == 0 && p + 4 <= 4 * imgWidth * imgHeight
    ensures (p / 4) % imgWidth == srcX && (p / 4) / imgWidth == srcY
  {
    var p := (srcY * imgWidth + srcX) * 4;
    Arithmetic.RowMajor(srcX, srcY, imgWidth, imgHeight);
    p
  }

  /** r + g + b of the pixel whose red byte is at offset p; alpha is not read. */
  function RgbSum(img: ImageData, p: int): (s: int)
    requires 0 <= p && p + 2 < |img.data|
    ensures 0 <= s <= MaxSum
  {
    img.data[p] as int + img.data[p + 1] as int + img.data[p + 2] as int
  }

  /** floor(brightness / 255 * (len - 1)) for brightness = sum / 3. */
  function CharIndex(sum: int, len: int): (c: int)
    requires 0 <= sum <= MaxSum && len >= 1
    ensures 0 <= c <= len - 1
    ensures c * MaxSum <= sum * (len - 1) < (c + 1) * MaxSum
  {
    var c := (sum * (len - 1)) / MaxSum;
    Arithmetic.ScaledLevel(sum, MaxSum, len - 1);
    c
  }

  /** The position in the ramp of the glyph drawn for sum: the ramp is read
      from its end, so the darkest sum takes the last glyph. */
  function RampPosition(sum: int, len: int): (k: int)
    requires 0 <= sum <= MaxSum && len >= 1
    ensures 0 <= k < len
  {
    len - 1 - CharIndex(sum, len)
  }

  /** r + g + b of the source pixel that output cell (x, y) samples. */
  function CellSum(img: ImageData, outputWidth: int, outputHeight: int, x: int, y: int): (s: int)
    requires WellFormed(img) && 0 <= x < outputWidth && 0 <= y < outputHeight
    ensures 0 <= s <= MaxSum
  {
    var srcX := SourceCoord(x, outputWidth, img.width);
    var srcY := SourceCoord(y, outputHeight, img.height);
    RgbSum(img, PixelIndex(srcX, srcY, img.width, img.height))
  }

  /** The glyph drawn for output cell (x, y). */
  function Cell(img: ImageData, outputWidth: int, outputHeight: int, chars: string, x: int, y: int): (c: char)
    requires WellFormed(img) && |chars| >= 1
    requires 0 <= x < outputWidth && 0 <= y < outputHeight
    ensures c in chars
  {
    chars[RampPosition(CellSum(img, outputWidth, outputHeight, x, y), |chars|)]
  }

  /** The first x glyphs of output row y, in the order the inner loop emits them. */
  function RowPrefix(img: ImageData, outputWidth: int, outputHeight: int, chars: string, y: int, x: int): (r: string)
    requires WellFormed(img) && |chars| >= 1
    requires 0 <= y < outputHeight && 0 <= x <= outputWidth
    ensures |r| == x
    ensures forall i :: 0 <= i < x ==> r[i] in chars
    decreases x
  {
    if x == 0 then ""
    else RowPrefix(img, outputWidth, outputHeight, chars, y, x - 1) + [Cell(img, outputWidth, outputHeight, chars, x - 1, y)]
  }

  /** The first y output rows, each closed by a newline, in the order the
      outer loop emits them. */
  function Rows(img: ImageData, outputWidth: int, outputHeight: int, chars: string, y: int): (r: string)
    requires WellFormed(img) && |chars| >= 1
    requires 0 <= y <= outputHeight && 0 <= outputWidth
    ensures |r| == y * (outputWidth + 1)
    ensures forall k :: 0 <= k < |r| ==> r[k] == '\n' || r[k] in chars
    decreases y
  {
    if y == 0 then ""
    else
      Arithmetic.MulPred(y, outputWidth + 1);
      Rows(img, outputWidth, outputHeight, chars, y - 1)
      + RowPrefix(img, outputWidth, outputHeight, chars, y - 1, outputWidth) + "\n"
  }

  /** The text the converter returns: OutputHeight rows of outputWidth glyphs,
      each followed by a newline, and the empty text when OutputHeight is not
      positive. */
  function Render(img: ImageData, outputWidth: int, chars: string): (text: string)
    requires WellFormed(img) && |chars| >= 1
    ensures var h := OutputHeight(outputWidth, img.width, img.height);
      |text| == if h >= 1 then h * (outputWidth + 1) else 0
    ensures forall k :: 0 <= k < |text| ==> text[k] == '\n' || text[k] in chars
  {
    var h := OutputHeight(outputWidth, img.width, img.height);
    if h >= 1 then Rows(img, outputWidth, h, chars, h) else ""
  }

  /** The offset the converter computes inline for cell (x, y) is that of
      the sampled pixel, so all three channel reads are in bounds. */
  lemma InlineSample(img: ImageData, outputWidth: int, outputHeight: int, x: int, y: int,
                     srcX: int, srcY: int, pixelIndex: int)
    requires WellFormed(img) && 0 <= x < outputWidth && 0 <= y < outputHeight
    requires srcX == (x * img.width) / outputWidth && srcY == (y * img.height) / outputHeight
    requires pixelIndex == (srcY * img.width + srcX) * 4
    ensures 0 <= pixelIndex && pixelIndex + 2 < |img.data|
    ensures img.data[pixelIndex] as int + img.data[pixelIndex + 1] as int + img.data[pixelIndex + 2] as int
            == CellSum(img, outputWidth, outputHeight, x, y)
  {
    assert srcX == SourceCoord(x, outputWidth, img.width);
    assert srcY == SourceCoord(y, outputHeight, img.height);
    assert pixelIndex == PixelIndex(srcX, srcY, img.width, img.height);
  }

  /** The ramp read the converter computes inline for a pixel sum is in
      bounds and picks the glyph RampPosition names. */
  lemma InlineGlyph(chars: string, sum: int, charIndex: int)
    requires |chars| >= 1 && 0 <= sum <= MaxSum
    requires charIndex == (sum * (|chars| - 1)) / MaxSum
    ensures 0 <= |chars| - 1 - charIndex < |chars|
    ensures |chars| - 1 - charIndex == RampPosition(sum, |chars|)
  {
    assert charIndex == CharIndex(sum, |chars|);
  }

  /** The converter as the page runs it: two nested loops that append one
      glyph per cell and a newline per row to an accumulating string, with
      every index computed as the page's code computes it and never clamped. */
  method ConvertToAscii(img: ImageData, outputWidth: int, chars: string) returns (ascii: string)
    requires WellFormed(img) && |chars| >= 1
    ensures ascii == Render(img, outputWidth, chars)
  {
    var imgWidth, imgHeight := img.width, img.height;
    var outputHeight := (outputWidth * imgHeight) / (GlyphAspect * imgWidth);
    assert outputHeight == OutputHeight(outputWidth, imgWidth, imgHeight);
    ascii := "";
    var y := 0;
    while y < outputHeight
      invariant 0 <= y && (y <= outputHeight || y == 0)
      invariant outputHeight >= 1 ==> ascii == Rows(img, outputWidth, outputHeight, chars, y)
      invariant outputHeight < 1 ==> ascii == ""
    {
      var x := 0;
      while x < outputWidth
        invariant 0 <= x <= outputWidth
        invariant ascii == Rows(img, outputWidth, outputHeight, chars, y)
                           + RowPrefix(img, outputWidth, outputHeight, chars, y, x)
      {
        var srcX := (x * imgWidth) / outputWidth;
        var srcY := (y * imgHeight) / outputHeight;
        var pixelIndex := (srcY * imgWidth + srcX) * 4;
        InlineSample(img, outputWidth, outputHeight, x, y, srcX, srcY, pixelIndex);

        var r: int := img.data[pixelIndex];
        var g: int := img.data[pixelIndex + 1];
        var b: int := img.data[pixelIndex + 2];
        var brightnessSum := r + g + b;
        assert brightnessSum == CellSum(img, outputWidth, outputHeight, x, y);

        var charIndex := (brightnessSum * (|chars| - 1)) / MaxSum;
        InlineGlyph(chars, brightnessSum, charIndex);
        assert chars[|chars| - 1 - charIndex] == Cell(img, outputWidth, outputHeight, chars, x, y);
        ascii := ascii + [chars[|chars| - 1 - charIndex]];
        assert RowPrefix(img, outputWidth, outputHeight, chars, y, x + 1)
            == RowPrefix(img, outputWidth, outputHeight, chars, y, x) + [Cell(img, outputWidth, outputHeight, chars, x, y)];
        x := x + 1;
      }
      ascii := ascii + "\n";
      y := y + 1;
    }
  }
}
