/**
 * The render decision of src/Home.js: the mosaic is `perLine` patterns of
 * `patternSize` pixels wide, and it is centred in the window only when that
 * width fits the window.
 */
module Layout {
  import opened Chunking

  /** patterns_per_line * pattern_size: a whole number of tiles of that size. */
  function CanvasWidth(perLine: int, patternSize: int): (width: int)
    ensures patternSize > 0 ==> width % patternSize == 0 && width / patternSize == perLine
  {
    var width := perLine * patternSize;
    if patternSize > 0 then
      DivUnique(width, patternSize, perLine);
      width
    else width
  }

  /** The mosaic is wider than the window. */
  predicate IsOversized(perLine: int, patternSize: int, windowWidth: int)
    ensures IsOversized(perLine, patternSize, windowWidth) <==> windowWidth < CanvasWidth(perLine, patternSize)
  {
    CanvasWidth(perLine, patternSize) > windowWidth
  }

  /**
   * Both centring flags of the render container: set exactly when the
   * mosaic's pixel width fits the window.
   */
  predicate IsCentred(perLine: int, patternSize: int, windowWidth: int)
    ensures IsCentred(perLine, patternSize, windowWidth) <==> perLine * patternSize <= windowWidth
  {
    !IsOversized(perLine, patternSize, windowWidth)
  }

  /** Larger patterns never bring an oversized mosaic back into the window. */
  lemma OversizedGrowsWithSize(perLine: nat, small: nat, large: nat, windowWidth: int)
    requires small <= large
    ensures IsOversized(perLine, small, windowWidth) ==> IsOversized(perLine, large, windowWidth)
  {
  }

  /** More patterns per line never bring an oversized mosaic back into the window. */
  lemma OversizedGrowsWithCount(few: nat, many: nat, patternSize: nat, windowWidth: int)
    requires few <= many
    ensures IsOversized(few, patternSize, windowWidth) ==> IsOversized(many, patternSize, windowWidth)
  {
  }

  /**
   * Every rendered line fits the canvas width, and every line but the last
   * fills it exactly.
   */
  lemma LineWidth<T>(s: seq<T>, perLine: nat, patternSize: nat, j: nat)
    requires perLine > 0
    requires j < |Lines(s, perLine)|
    ensures |Lines(s, perLine)[j]| * patternSize <= CanvasWidth(perLine, patternSize)
    ensures j < |Lines(s, perLine)| - 1 ==> |Lines(s, perLine)[j]| * patternSize == CanvasWidth(perLine, patternSize)
  {
    var lines := Lines(s, perLine);
    LinesShape(s, perLine);
    var width := |lines[j]|;
    ScaleMonotone(width, perLine, patternSize);
  }

  lemma ScaleMonotone(small: nat, large: nat, factor: nat)
    requires small <= large
    ensures small * factor <= large * factor
  {
  }
}
