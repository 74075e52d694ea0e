/** What the converter's text says about the image: where each glyph sits,
    which glyph the extremes of brightness take, the order in which
    brightness walks the ramp, and what the text does not depend on. */
module AsciiProperties {

  import opened AsciiConversion
  import Arithmetic

  /** Glyph i of a row prefix is the glyph of cell (i, y). */
  lemma {:induction false} RowPrefixAt(img: ImageData, outputWidth: int, outputHeight: int, chars: string,
                                       y: int, x: int, i: int)
    requires WellFormed(img) && |chars| >= 1
    requires 0 <= y < outputHeight && 0 <= i < x <= outputWidth
    ensures RowPrefix(img, outputWidth, outputHeight, chars, y, x)[i] == Cell(img, outputWidth, outputHeight, chars, i, y)
    decreases x
  {
    if i < x - 1 {
      RowPrefixAt(img, outputWidth, outputHeight, chars, y, x - 1, i);
    }
  }

  /** In the first n rows, character x of row y (counting the newline as
      character outputWidth) is the glyph of cell (x, y) or the newline. */
  lemma {:induction false} RowsAt(img: ImageData, outputWidth: int, outputHeight: int, chars: string,
                                  n: int, y: int, x: int)
    requires WellFormed(img) && |chars| >= 1
    requires 0 <= y < n <= outputHeight && 0 <= x <= outputWidth
    ensures 0 <= y * (outputWidth + 1) + x < |Rows(img, outputWidth, outputHeight, chars, n)|
    ensures Rows(img, outputWidth, outputHeight, chars, n)[y * (outputWidth + 1) + x]
            == if x < outputWidth then Cell(img, outputWidth, outputHeight, chars, x, y) else '\n'
    decreases n
  {
    var w := outputWidth + 1;
    var k := y * w + x;
    var done := Rows(img, outputWidth, outputHeight, chars, n - 1);
    var row := RowPrefix(img, outputWidth, outputHeight, chars, n - 1, outputWidth) + "\n";
    var all := Rows(img, outputWidth, outputHeight, chars, n);
    assert all == done + row;
    assert |done| == (n - 1) * w && |all| == n * w;
    Arithmetic.RowOffset(x, y, w, n);
    if y == n - 1 {
      assert all[k] == row[x];
      if x < outputWidth {
        RowPrefixAt(img, outputWidth, outputHeight, chars, y, outputWidth, x);
      }
    } else {
      assert all[k] == done[k];
      RowsAt(img, outputWidth, outputHeight, chars, n - 1, y, x);
    }
  }

  /** The layout of the converter's text: row y of the OutputHeight rows
      occupies positions y * (outputWidth + 1) up to the next row, holds the
      glyphs of cells (0, y) .. (outputWidth - 1, y) in order, and ends with
      a newline. */
  lemma RenderAt(img: ImageData, outputWidth: int, chars: string, y: int, x: int)
    requires WellFormed(img) && |chars| >= 1
    requires 0 <= y < OutputHeight(outputWidth, img.width, img.height) && 0 <= x <= outputWidth
    ensures var h := OutputHeight(outputWidth, img.width, img.height);
      var text := Render(img, outputWidth, chars);
      0 <= y * (outputWidth + 1) + x < |text| &&
      text[y * (outputWidth + 1) + x] == if x < outputWidth then Cell(img, outputWidth, h, chars, x, y) else '\n'
  {
    var h := OutputHeight(outputWidth, img.width, img.height);
    RowsAt(img, outputWidth, h, chars, h, y, x);
  }

  /** Black (sum 0) takes the last glyph of the ramp, white (sum 765) the first. */
  lemma RampExtremes(len: int)
    requires len >= 1
    ensures RampPosition(0, len) == len - 1
    ensures RampPosition(MaxSum, len) == 0
  {
    Arithmetic.DivModUnique(MaxSum * (len - 1), MaxSum, len - 1, 0);
  }

  /** Every red, green and blue byte of the image equals v (alpha is free). */
  ghost predicate UniformRgb(img: ImageData, v: int)
  {
    forall i :: 0 <= i < |img.data| && i % 4 != 3 ==> img.data[i] == v
  }

  /** The cell sum of an image whose colour bytes all equal v is 3 * v. */
  lemma UniformCellSum(img: ImageData, outputWidth: int, outputHeight: int, v: int, x: int, y: int)
    requires WellFormed(img) && UniformRgb(img, v)
    requires 0 <= x < outputWidth && 0 <= y < outputHeight
    ensures CellSum(img, outputWidth, outputHeight, x, y) == 3 * v
  {
    var p := PixelIndex(SourceCoord(x, outputWidth, img.width), SourceCoord(y, outputHeight, img.height),
                        img.width, img.height);
    assert p % 4 == 0;
    assert img.data[p] == v && img.data[p + 1] == v && img.data[p + 2] == v;
  }

  /** An all-black image renders every cell as the last glyph of the ramp. */
  lemma UniformBlackImage(img: ImageData, outputWidth: int, chars: string, y: int, x: int)
    requires WellFormed(img) && |chars| >= 1 && UniformRgb(img, 0)
    requires 0 <= y < OutputHeight(outputWidth, img.width, img.height) && 0 <= x < outputWidth
    ensures 0 <= y * (outputWidth + 1) + x < |Render(img, outputWidth, chars)|
    ensures Render(img, outputWidth, chars)[y * (outputWidth + 1) + x] == chars[|chars| - 1]
  {
    RenderAt(img, outputWidth, chars, y, x);
    UniformCellSum(img, outputWidth, OutputHeight(outputWidth, img.width, img.height), 0, x, y);
    RampExtremes(|chars|);
  }

  /** An all-white image renders every cell as the first glyph of the ramp. */
  lemma UniformWhiteImage(img: ImageData, outputWidth: int, chars: string, y: int, x: int)
    requires WellFormed(img) && |chars| >= 1 && UniformRgb(img, 255)
    requires 0 <= y < OutputHeight(outputWidth, img.width, img.height) && 0 <= x < outputWidth
    ensures 0 <= y * (outputWidth + 1) + x < |Render(img, outputWidth, chars)|
    ensures Render(img, outputWidth, chars)[y * (outputWidth + 1) + x] == chars[0]
  {
    RenderAt(img, outputWidth, chars, y, x);
    UniformCellSum(img, outputWidth, OutputHeight(outputWidth, img.width, img.height), 255, x, y);
    RampExtremes(|chars|);
  }

  /** A brighter pixel never takes a later glyph of the ramp than a darker one. */
  lemma RampPositionMonotone(brighter: int, darker: int, len: int)
    requires 0 <= darker <= brighter <= MaxSum && len >= 1
    ensures RampPosition(brighter, len) <= RampPosition(darker, len)
  {
    var cb, cd := CharIndex(brighter, len), CharIndex(darker, len);
    Arithmetic.MulMono(darker, brighter, len - 1);
    assert cd * MaxSum < (cb + 1) * MaxSum;
    Arithmetic.BelowProduct(cd, cb + 1, MaxSum);
  }

  /** Nearest-neighbour sampling keeps the order of the cells. */
  lemma SourceCoordMonotone(i: int, j: int, outSize: int, srcSize: int)
    requires 0 <= i <= j < outSize && srcSize >= 1
    ensures SourceCoord(i, outSize, srcSize) <= SourceCoord(j, outSize, srcSize)
  {
    var si, sj := SourceCoord(i, outSize, srcSize), SourceCoord(j, outSize, srcSize);
    Arithmetic.MulMono(i, j, srcSize);
    assert si * outSize < (sj + 1) * outSize;
    Arithmetic.BelowProduct(si, sj + 1, outSize);
  }

  /** Within every source row, r + g + b does not decrease from left to right. */
  ghost predicate BrightensRightward(img: ImageData)
    requires WellFormed(img)
  {
    forall sy, a, b :: 0 <= sy < img.height && 0 <= a <= b < img.width ==>
      RgbSum(img, PixelIndex(a, sy, img.width, img.height)) <= RgbSum(img, PixelIndex(b, sy, img.width, img.height))
  }

  /** For an image that brightens from left to right, the ramp positions of
      the glyphs of any output row do not increase from left to right. */
  lemma GradientRow(img: ImageData, outputWidth: int, outputHeight: int, y: int, x1: int, x2: int, len: int)
    requires WellFormed(img) && BrightensRightward(img) && len >= 1
    requires 0 <= y < outputHeight && 0 <= x1 <= x2 < outputWidth
    ensures RampPosition(CellSum(img, outputWidth, outputHeight, x2, y), len)
            <= RampPosition(CellSum(img, outputWidth, outputHeight, x1, y), len)
  {
    var sy := SourceCoord(y, outputHeight, img.height);
    var a, b := SourceCoord(x1, outputWidth, img.width), SourceCoord(x2, outputWidth, img.width);
    SourceCoordMonotone(x1, x2, outputWidth, img.width);
    assert RgbSum(img, PixelIndex(a, sy, img.width, img.height)) <= RgbSum(img, PixelIndex(b, sy, img.width, img.height));
    RampPositionMonotone(CellSum(img, outputWidth, outputHeight, x2, y), CellSum(img, outputWidth, outputHeight, x1, y), len);
  }

  /** Two images that differ at most in their alpha bytes. */
  ghost predicate SameRgb(a: ImageData, b: ImageData)
  {
    a.width == b.width && a.height == b.height && |a.data| == |b.data| &&
    forall i :: 0 <= i < |a.data| && i % 4 != 3 ==> a.data[i] == b.data[i]
  }

  /** Two images that differ only in alpha draw the same glyph in every cell. */
  lemma CellIgnoresAlpha(a: ImageData, b: ImageData, outputWidth: int, outputHeight: int, chars: string, x: int, y: int)
    requires WellFormed(a) && WellFormed(b) && SameRgb(a, b) && |chars| >= 1
    requires 0 <= x < outputWidth && 0 <= y < outputHeight
    ensures Cell(a, outputWidth, outputHeight, chars, x, y) == Cell(b, outputWidth, outputHeight, chars, x, y)
  {
    var p := PixelIndex(SourceCoord(x, outputWidth, a.width), SourceCoord(y, outputHeight, a.height), a.width, a.height);
    assert p % 4 == 0;
    assert a.data[p] == b.data[p] && a.data[p + 1] == b.data[p + 1] && a.data[p + 2] == b.data[p + 2];
  }

  /** Character k of the text is the same for two images that differ only in alpha. */
  lemma RenderAtIgnoresAlpha(a: ImageData, b: ImageData, outputWidth: int, chars: string, k: int)
    requires WellFormed(a) && WellFormed(b) && SameRgb(a, b) && |chars| >= 1
    requires 0 <= k < |Render(a, outputWidth, chars)|
    ensures k < |Render(b, outputWidth, chars)| && Render(a, outputWidth, chars)[k] == Render(b, outputWidth, chars)[k]
  {
    var h := OutputHeight(outputWidth, a.width, a.height);
    var w := outputWidth + 1;
    Arithmetic.RowColumn(k, w, h);
    var y, x := k / w, k % w;
    RenderAt(a, outputWidth, chars, y, x);
    RenderAt(b, outputWidth, chars, y, x);
    if x < outputWidth {
      CellIgnoresAlpha(a, b, outputWidth, h, chars, x, y);
    }
  }

  /** The text depends on the red, green and blue bytes only. */
  lemma RenderIgnoresAlpha(a: ImageData, b: ImageData, outputWidth: int, chars: string)
    requires WellFormed(a) && WellFormed(b) && SameRgb(a, b) && |chars| >= 1
    ensures Render(a, outputWidth, chars) == Render(b, outputWidth, chars)
  {
    forall k | 0 <= k < |Render(a, outputWidth, chars)|
      ensures Render(a, outputWidth, chars)[k] == Render(b, outputWidth, chars)[k]
    {
      RenderAtIgnoresAlpha(a, b, outputWidth, chars, k);
    }
  }

  /** Overwriting one alpha byte (an offset 4k + 3) leaves the text unchanged. */
  lemma AlphaByteIgnored(img: ImageData, outputWidth: int, chars: string, k: int, v: Byte)
    requires WellFormed(img) && |chars| >= 1 && 0 <= k < img.width * img.height
    ensures Render(img.(data := img.data[4 * k + 3 := v]), outputWidth, chars) == Render(img, outputWidth, chars)
  {
    var changed := img.(data := img.data[4 * k + 3 := v]);
    assert forall i :: 0 <= i < |img.data| && i % 4 != 3 ==> i != 4 * k + 3;
    RenderIgnoresAlpha(changed, img, outputWidth, chars);
  }

  /** A 2 x 2 image: black and white on the top row, white and black below. */
  const Checkerboard := ImageData([0, 0, 0, 255, 255, 255, 255, 255,
                                   255, 255, 255, 255, 0, 0, 0, 255], 2, 2)

  lemma CheckerboardTopLeft()
    ensures WellFormed(Checkerboard) && Cell(Checkerboard, 2, 1, "@ ", 0, 0) == ' '
  {
    assert CellSum(Checkerboard, 2, 1, 0, 0) == 0;
    RampExtremes(2);
  }

  lemma CheckerboardTopRight()
    ensures WellFormed(Checkerboard) && Cell(Checkerboard, 2, 1, "@ ", 1, 0) == '@'
  {
    assert SourceCoord(1, 2, 2) == 1;
    assert PixelIndex(1, 0, 2, 2) == 4;
    assert CellSum(Checkerboard, 2, 1, 1, 0) == MaxSum;
    RampExtremes(2);
  }

  /** The checkerboard rendered 2 glyphs wide with the ramp "@ " is one row:
      black takes the ramp's last glyph (the space), white its first ("@"). */
  lemma CheckerboardExample()
    ensures OutputHeight(2, Checkerboard.width, Checkerboard.height) == 1
    ensures Render(Checkerboard, 2, "@ ") == " @\n"
  {
    assert OutputHeight(2, 2, 2) == 1;
    var text := Render(Checkerboard, 2, "@ ");
    CheckerboardTopLeft();
    CheckerboardTopRight();
    RenderAt(Checkerboard, 2, "@ ", 0, 0);
    RenderAt(Checkerboard, 2, "@ ", 0, 1);
    RenderAt(Checkerboard, 2, "@ ", 0, 2);
    assert |text| == 3 && text[0] == ' ' && text[1] == '@' && text[2] == '\n';
  }
}
