# Image to ASCII: the brightness-sampling converter

This project models the core of a web page that turns an uploaded picture
into ASCII art. The core is the function `convertToASCII` and the table of
character ramps `CHARACTER_SETS`. The function gets a decoded RGBA pixel
buffer (four bytes per pixel, row by row), a target width in characters and
a ramp of glyphs. It computes an output
height that corrects for glyphs being about twice as tall as they are wide.
For each output cell it samples the nearest source pixel, averages its red,
green and blue bytes, and picks a glyph from the ramp. The ramp is read from
its end, so black takes the last glyph and white the first. Each output row
ends with a newline. The text depends only on its inputs: `Render` is a
function, so equal inputs give equal text.

The Dafny project has four modules:

- `Arithmetic` (`arithmetic.dfy`): small facts about integer floors and
  products that the other modules use.
- `AsciiConversion` (`ascii_conversion.dfy`):
  - the image and byte types;
  - one function per formula of the converter: output height, source
    coordinate, pixel offset, channel sum, glyph index;
  - the specification of the whole text, `Render`, built row by row as the
    loops build it;
  - the converter itself, `ConvertToAscii`, an imperative method with the
    page's two nested loops. It is proved to return `Render`.
- `AsciiProperties` (`ascii_properties.dfy`): what the text says about the
  image:
  - where each glyph sits;
  - which glyph black and white take;
  - that a brighter pixel never takes a later glyph of the ramp than a darker one;
  - that alpha is never read;
  - a worked 2 x 2 example.
- `CharacterSets` (`character_sets.dfy`): the six preset ramps, and the
  page's call of the converter with the preset the user picked.

Every `Math.floor` of a floating-point quotient in the page's
`convertToASCII` is modelled as the exact integer floor of the same rational
number. Dafny's `/` on `int` with a positive divisor is that floor, also for
a negative dividend. Each such function states its floor as a pair of
inequalities.

The converter has no guards:

- The output height is never raised to one row. A zero or negative height
  gives the empty text.
- Source coordinates and the glyph index are never clamped. The model proves
  they are always in range.
- No error is reported for a non-positive width; the loops just do not run.

The 2 x 2 checkerboard at width 2 with the ramp `"@ "` renders as `" @\n"`,
because black takes the ramp's last glyph.

## Model

| member | source | states |
|---|---|---|
| AsciiConversion.OutputHeight | app/page.tsx:34-36 | The row count is the floor of outputWidth times height over width, halved. It is characterised exactly by h·2W ≤ outputWidth·H < (h+1)·2W. No minimum is imposed, and a positive height implies a positive width. |
| AsciiConversion.SourceCoord | app/page.tsx:42-43 | The sampled coordinate is floor(i / outSize · srcSize), stated as inequalities. It always lies in [0, srcSize), even without a clamp. |
| AsciiConversion.PixelIndex | app/page.tsx:44 | The offset (srcY·W + srcX)·4 is a multiple of 4. All four channels fit in the buffer. (offset/4) mod W and (offset/4) div W give back srcX and srcY. |
| AsciiConversion.RgbSum | app/page.tsx:46-49 | The sum of the red, green and blue bytes of a pixel lies in [0, 765]. |
| AsciiConversion.CharIndex | app/page.tsx:51 | The glyph index is floor(sum/765 · (len − 1)), stated as inequalities. It lies in [0, len − 1], even without a clamp. |
| AsciiConversion.RampPosition | app/page.tsx:52 | The ramp is read at len − 1 − charIndex, which always lies inside the ramp. |
| AsciiConversion.CellSum | app/page.tsx:42-49 | The channel sum of the pixel that a cell samples lies in [0, 765]. |
| AsciiConversion.Cell | app/page.tsx:42-52 | The glyph drawn for a cell is a glyph of the ramp. |
| AsciiConversion.RowPrefix | app/page.tsx:41-53 | After x steps, the inner loop has emitted exactly x characters, all from the ramp. |
| AsciiConversion.Rows | app/page.tsx:40-55 | After y rows, the text has y·(outputWidth + 1) characters. Each is a newline or a ramp glyph. |
| AsciiConversion.Render | app/page.tsx:33-58 | The text has OutputHeight·(outputWidth + 1) characters, or is empty when OutputHeight ≤ 0. Every character is a newline or a ramp glyph. |
| AsciiConversion.InlineSample | app/page.tsx:42-48 | The offset computed inline is in bounds for all three channel reads. The sum of those reads is the cell's sampled sum. |
| AsciiConversion.InlineGlyph | app/page.tsx:51-52 | The ramp read computed inline is in bounds, and it is the position RampPosition names. |
| AsciiConversion.ConvertToAscii | app/page.tsx:33-58 | The nested loops return exactly Render: the same rows, cells, glyphs and newlines. |
| AsciiProperties.RowPrefixAt | app/page.tsx:41-53 | Glyph i of a row's prefix is the glyph of cell (i, y). |
| AsciiProperties.RowsAt | app/page.tsx:40-55 | In the first n rows, position y·(outputWidth + 1) + x holds the glyph of cell (x, y) for x < outputWidth. For x = outputWidth it holds the newline. |
| AsciiProperties.RenderAt | app/page.tsx:38-57 | The layout of the full text: row y holds the glyphs of cells (0, y), …, (outputWidth − 1, y) in order, then a newline, at offset y·(outputWidth + 1). |
| AsciiProperties.RampExtremes | app/page.tsx:49-52 | Sum 0 (black) selects the last glyph of the ramp. Sum 765 (white) selects the first. |
| AsciiProperties.UniformCellSum | app/page.tsx:44-49 | In an image whose colour bytes all equal v, every cell samples the sum 3v. |
| AsciiProperties.UniformBlackImage | app/page.tsx:40-55 | An all-black image renders every cell as the ramp's last glyph. |
| AsciiProperties.UniformWhiteImage | app/page.tsx:40-55 | An all-white image renders every cell as the ramp's first glyph. |
| AsciiProperties.RampPositionMonotone | app/page.tsx:49-52 | A brighter pixel never takes a later position in the ramp than a darker one. |
| AsciiProperties.SourceCoordMonotone | app/page.tsx:42-43 | Nearest-neighbour sampling preserves the order of cells. |
| AsciiProperties.GradientRow | app/page.tsx:41-52 | If an image brightens left to right within each row, then in every output row the ramp positions do not increase left to right. |
| AsciiProperties.CellIgnoresAlpha | app/page.tsx:44-49 | Two images that differ only in alpha bytes draw the same glyph in every cell. |
| AsciiProperties.RenderAtIgnoresAlpha | app/page.tsx:33-58 | Two images that differ only in alpha bytes give texts of the same length that agree at every position. |
| AsciiProperties.RenderIgnoresAlpha | app/page.tsx:33-58 | The text depends only on the red, green and blue bytes. |
| AsciiProperties.AlphaByteIgnored | app/page.tsx:44-49 | Overwriting the alpha byte 4k + 3 of any pixel k leaves the text unchanged. |
| AsciiProperties.CheckerboardTopLeft | app/page.tsx:46-52 | In the 2 x 2 checkerboard, the black top-left cell takes the space of the ramp `"@ "`. |
| AsciiProperties.CheckerboardTopRight | app/page.tsx:42-52 | In the 2 x 2 checkerboard, the white top-right cell takes the `@` of the ramp `"@ "`. |
| AsciiProperties.CheckerboardExample | app/page.tsx:33-58 | The 2 x 2 checkerboard at width 2 has one output row, and its text is `" @\n"`. |
| CharacterSets.PresetLengths | app/page.tsx:14-21 | The six presets have 10, 9, 5, 7, 5 and 8 glyphs, so every preset has at least two. |
| CharacterSets.ProcessImage | app/page.tsx:86-87 | The page's call converts with the preset named by the selector. The text is Render of that preset, and every character is a newline or a glyph of that preset. |

## Left out

- Floating point: the model computes every floor exactly. JavaScript rounds each quotient and product to a double before the floor, and this can land one below an exact integer. For example, (1 / 49) · 49 is 0.9999999999999999 in double precision. So for some widths and image sizes the page may sample a neighbouring pixel or glyph, where the model samples the exact one. The row count is a floor too, so the page can also draw fewer rows. For a 500 x 2300 image at width 50, the page computes 50 · (2300 / 500) · 0.5 as 114.99999999999999 and draws 114 rows. The model draws 115, so the page's text is one row shorter than `Render`. Widths 90, 100 and 110 do the same for this image. A floor can only come out lower this way, never higher. Every exact quotient here is a fraction with a small denominator: 2 · image width, the output width, the output height, or 765. If it is not an integer, it lies at least one over that denominator below the next integer, far more than the rounding error. So rounding can lower a floor only where the exact value is an integer, and by one at most.
- Non-integer widths: `outputWidth` is an integer here, because the page passes a slider value, a whole number from 40 to 120 in steps of 10. The slider, its range and its step are user-interface state and are not modelled; the converter takes any integer.
- Empty ramp: the converter requires a ramp of at least one glyph. With an empty ramp, JavaScript would index outside the string and append the text "undefined" for every cell. Every caller on the page passes one of the presets, and PresetLengths proves each has at least two glyphs.
- Image data: the converter requires a well-formed image, meaning a positive width and height and exactly four bytes per pixel, each from 0 to 255. The canvas always delivers such an image. Decoding the file, drawing it on a canvas and reading back the pixels are browser I/O and are not modelled; the decoded buffer is a parameter.
- Glyphs: strings are sequences of Unicode code points. The preset ramps contain only characters of the Basic Multilingual Plane, so code points and JavaScript's UTF-16 units coincide for them.
- React state and event handling: the upload handler, the processing flag, the completion notice, copy to clipboard, download as a file and the rendered markup are not modelled. They are I/O around the converter and do not change its result.
