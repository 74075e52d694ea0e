/** The preset character ramps the page offers, and the page's call of the
    converter with the ramp the user picked. The converter reads a ramp from
    its end, so the last glyph is the one drawn for black. */
module CharacterSets {

  import opened AsciiConversion

  const Standard: string := "@%#*+=-:. "
  const Dense: string := "█▉▊▋▌▍▎▏ "
  const Simple: string := "█▓▒░ "
  const Blocks: string := "██▓▒░  "
  const Dots: string := "●◐○◯ "
  const Custom: string := "♥♦♣♠◆◇○●"

  /** The ramps by the names the style selector uses. */
  const Presets: map<string, string> := map[
    "standard" := Standard,
    "dense" := Dense,
    "simple" := Simple,
    "blocks" := Blocks,
    "dots" := Dots,
    "custom" := Custom
  ]

  /** Every preset ramp has at least two glyphs, so the ramp always spans
      more than one brightness level; the lengths are 10, 9, 5, 7, 5 and 8. */
  lemma PresetLengths()
    ensures |Standard| == 10 && |Dense| == 9 && |Simple| == 5
    ensures |Blocks| == 7 && |Dots| == 5 && |Custom| == 8
    ensures forall name :: name in Presets ==> |Presets[name]| >= 2
  {
  }

  /** The conversion the page runs once the picked image is decoded: the
      width from the slider and the preset ramp named by the selector. */
  method ProcessImage(img: ImageData, width: int, characterSet: string) returns (ascii: string)
    requires WellFormed(img) && characterSet in Presets
    ensures ascii == Render(img, width, Presets[characterSet])
    ensures forall k :: 0 <= k < |ascii| ==> ascii[k] == '\n' || ascii[k] in Presets[characterSet]
  {
    PresetLengths();
    ascii := ConvertToAscii(img, width, Presets[characterSet]);
  }
}
