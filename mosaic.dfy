/**
 * The image load handler of src/Home.js as a whole: the canvas is sized to
 * `perLine` columns and as many rows as keep the image's aspect ratio, the
 * browser resamples the image into it, and the buffer it reads back becomes
 * lines of patterns.
 */
module Mosaic {
  import opened Wrappers
  import opened Bucketing
  import opened Chunking

  /** Math.floor(perLine * (height / width)), taken over exact rationals. */
  function TargetHeight(perLine: int, imgWidth: nat, imgHeight: nat): (height: int)
    requires imgWidth > 0
    ensures height * imgWidth <= perLine * imgHeight < height * imgWidth + imgWidth
    ensures perLine >= 0 ==> height >= 0
  {
    perLine * imgHeight / imgWidth
  }

  /**
   * The load handler. The canvas is sized first; `pixels` is what
   * getImageData then returns once drawImage has resampled the image onto it:
   * four bytes per canvas pixel, row by row. On a canvas with no columns or
   * no rows getImageData throws, the handler stops there and the lines that
   * were shown before, `previous`, stay.
   */
  method OnLoad(imgWidth: nat, imgHeight: nat, perLine: nat, pixels: seq<Byte>, previous: seq<seq<Option<int>>>)
    returns (canvasWidth: nat, canvasHeight: nat, lines: seq<seq<Option<int>>>)
    requires imgWidth > 0
    requires |pixels| == 4 * (perLine * TargetHeight(perLine, imgWidth, imgHeight))
    ensures canvasWidth == perLine
    ensures canvasHeight == TargetHeight(perLine, imgWidth, imgHeight)
    ensures canvasWidth == 0 || canvasHeight == 0 ==> lines == previous
    ensures canvasWidth > 0 && canvasHeight > 0 ==>
              && lines == Lines(Patterns(pixels), perLine)
              && |lines| == canvasHeight
              && forall row :: 0 <= row < |lines| ==> |lines[row]| == canvasWidth
  {
    canvasWidth := perLine;
    canvasHeight := TargetHeight(perLine, imgWidth, imgHeight);
    if canvasWidth == 0 || canvasHeight == 0 {
      lines := previous;
      return;
    }
    var patterns := ToPatterns(pixels);
    assert |patterns| == perLine * canvasHeight;
    lines := ChunkLines(patterns, perLine);
    FullLines(patterns, perLine, canvasHeight);
  }

  /**
   * On a buffer of `perLine * height` pixels the pattern in row `row`,
   * column `col` comes from canvas pixel `row * perLine + col`.
   */
  lemma MosaicCell(pixels: seq<Byte>, perLine: nat, height: nat, row: nat, col: nat)
    requires perLine > 0
    requires |pixels| == 4 * (perLine * height)
    requires row < height && col < perLine
    ensures |Lines(Patterns(pixels), perLine)| == height
    ensures |Lines(Patterns(pixels), perLine)[row]| == perLine
    ensures row * perLine + col < perLine * height
    ensures var k := row * perLine + col;
            Lines(Patterns(pixels), perLine)[row][col]
            == PatternOf(pixels[4 * k], pixels[4 * k + 1], pixels[4 * k + 2])
  {
    var patterns := Patterns(pixels);
    assert |patterns| == perLine * height;
    FullLines(patterns, perLine, height);
    LinesAt(patterns, perLine, row);
    MultipleAtLeast(height - row, perLine);
    assert (height - row) * perLine == height * perLine - row * perLine;
    var k := row * perLine + col;
    assert Lines(patterns, perLine)[row][col] == patterns[k];
    PatternsAt(pixels, k);
  }

  /** A buffer of one colour gives one pattern everywhere, whatever its alpha. */
  lemma SolidColour(pixels: seq<Byte>, red: Byte, green: Byte, blue: Byte)
    requires |pixels| % 4 == 0
    requires forall i :: 0 <= i < |pixels| && i % 4 == 0 ==> pixels[i] == red
    requires forall i :: 0 <= i < |pixels| && i % 4 == 1 ==> pixels[i] == green
    requires forall i :: 0 <= i < |pixels| && i % 4 == 2 ==> pixels[i] == blue
    ensures forall k :: 0 <= k < |Patterns(pixels)| ==> Patterns(pixels)[k] == PatternOf(red, green, blue)
  {
    forall k | 0 <= k < |Patterns(pixels)|
      ensures Patterns(pixels)[k] == PatternOf(red, green, blue)
    {
      PatternsAt(pixels, k);
      assert (4 * k) % 4 == 0 && (4 * k + 1) % 4 == 1 && (4 * k + 2) % 4 == 2;
    }
  }

  /** A black image maps every pixel to the first pattern. */
  lemma BlackImage(pixels: seq<Byte>)
    requires |pixels| % 4 == 0
    requires forall i :: 0 <= i < |pixels| && i % 4 != 3 ==> pixels[i] == 0
    ensures forall k :: 0 <= k < |Patterns(pixels)| ==> Patterns(pixels)[k] == Some(1)
  {
    SolidColour(pixels, 0, 0, 0);
  }

  /** A white image maps every pixel to no pattern at all. */
  lemma WhiteImage(pixels: seq<Byte>)
    requires |pixels| % 4 == 0
    requires forall i :: 0 <= i < |pixels| && i % 4 != 3 ==> pixels[i] == 255
    ensures forall k :: 0 <= k < |Patterns(pixels)| ==> Patterns(pixels)[k] == None
  {
    SolidColour(pixels, 255, 255, 255);
  }
}
