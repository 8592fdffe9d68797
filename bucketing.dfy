/**
 * The pixel-to-pattern mapping of the image load handler in src/Home.js:
 * every 4-byte RGBA chunk of the downsampled buffer becomes a truncated
 * average grey, the grey becomes a bucket index, and the index is looked up
 * in the list of pattern identifiers 1..48.
 */
module Bucketing {
  import opened Wrappers

  /**
   * One channel of a canvas ImageData buffer (a Uint8ClampedArray entry). The
   * buffer holds four of them per pixel, red, green, blue and alpha: the
   * `chunk_size` of the load handler.
   */
  type Byte = x: int | 0 <= x < 256

  /** Number of pattern images. */
  const PatternCount: nat := 48

  /** The pattern identifiers 1..48, in bucket order. */
  function PatternIds(): seq<int>
  {
    seq(PatternCount, index => index + 1)
  }

  /** The identifiers are exactly 1..48, each once, in increasing order. */
  lemma PatternIdsAreOneToCount()
    ensures |PatternIds()| == PatternCount
    ensures forall id :: id in PatternIds() <==> 1 <= id <= PatternCount
    ensures forall j, k :: 0 <= j < k < |PatternIds()| ==> PatternIds()[j] < PatternIds()[k]
  {
    var ids := PatternIds();
    forall id | 1 <= id <= PatternCount
      ensures id in ids
    {
      assert ids[id - 1] == id;
    }
  }

  /**
   * Array.prototype.at on an integer index: a negative index counts from the
   * end, and an index outside the array gives `undefined`.
   */
  function At(s: seq<int>, index: int): (r: Option<int>)
    ensures r.Some? <==> -|s| <= index < |s|
    ensures 0 <= index < |s| ==> r == Some(s[index])
    ensures -|s| <= index < 0 ==> r == Some(s[|s| + index])
  {
    if 0 <= index < |s| then Some(s[index])
    else if -|s| <= index < 0 then Some(s[|s| + index])
    else None
  }

  /** Math.floor((red + green + blue) / 3): the unweighted average, truncated. */
  function Grey(red: Byte, green: Byte, blue: Byte): (grey: Byte)
    ensures 3 * grey <= red + green + blue < 3 * grey + 3
  {
    (red + green + blue) / 3
  }

  /**
   * Math.floor(grey / (255 / 48)). Since 255 / 48 is exactly 5.3125 = 85 / 16,
   * the quotient is grey * 16 / 85 and its floor is integer division.
   */
  function BucketIndex(grey: Byte): (index: nat)
    ensures index * 85 <= grey * 16 < index * 85 + 85
    ensures index <= PatternCount
    ensures index == PatternCount <==> grey == 255
  {
    grey * 16 / 85
  }

  /** The pattern chosen for one pixel; the alpha byte takes no part. */
  function PatternOf(red: Byte, green: Byte, blue: Byte): (pattern: Option<int>)
    ensures pattern.None? <==> red == 255 && green == 255 && blue == 255
    ensures pattern.Some? ==> pattern.value == BucketIndex(Grey(red, green, blue)) + 1
    ensures pattern.Some? ==> 1 <= pattern.value <= PatternCount
  {
    At(PatternIds(), BucketIndex(Grey(red, green, blue)))
  }

  /** The pattern list of a buffer, chunk by chunk, in buffer order. */
  function Patterns(pixels: seq<Byte>): (patterns: seq<Option<int>>)
    requires |pixels| % 4 == 0
    ensures |patterns| == |pixels| / 4
    decreases |pixels|
  {
    if |pixels| == 0 then []
    else [PatternOf(pixels[0], pixels[1], pixels[2])] + Patterns(pixels[4..])
  }

  /** A brighter grey never selects an earlier bucket. */
  lemma BucketMonotone(dark: Byte, bright: Byte)
    requires dark <= bright
    ensures BucketIndex(dark) <= BucketIndex(bright)
  {
  }

  /**
   * Lookup of a bucket index follows the buckets: every index below 48 gives
   * pattern index + 1, and a brighter grey never gives an earlier pattern
   * unless it gives none at all.
   */
  lemma PatternMonotone(dark: Byte, bright: Byte)
    requires dark <= bright
    requires At(PatternIds(), BucketIndex(bright)).Some?
    ensures At(PatternIds(), BucketIndex(dark)).Some?
    ensures At(PatternIds(), BucketIndex(dark)).value <= At(PatternIds(), BucketIndex(bright)).value
  {
    BucketMonotone(dark, bright);
  }

  /** Only a grey of 255 selects index 48, past the end of the identifiers. */
  lemma WhiteHasNoPattern(grey: Byte)
    ensures At(PatternIds(), BucketIndex(grey)).None? <==> grey == 255
    ensures grey < 255 ==> At(PatternIds(), BucketIndex(grey)) == Some(BucketIndex(grey) + 1)
  {
  }

  /** The darkest grey of bucket `index`: the least g with g * 16 >= index * 85. */
  function BucketStart(index: nat): (grey: int)
    requires index < PatternCount
    ensures 0 <= grey < 255
    ensures grey * 16 >= index * 85 && (grey - 1) * 16 < index * 85
  {
    (85 * index + 15) / 16
  }

  /** The darkest grey of a bucket falls in that bucket. */
  lemma BucketStartInBucket(index: nat)
    requires index < PatternCount
    ensures BucketIndex(BucketStart(index)) == index
  {
  }

  /** A pixel whose three channels agree has that value as its grey. */
  lemma GreyOfUniform(value: Byte)
    ensures Grey(value, value, value) == value
  {
  }

  /** Every one of the 48 patterns is chosen by some grey pixel. */
  lemma EveryPatternReachable(index: nat)
    requires index < PatternCount
    ensures PatternOf(BucketStart(index), BucketStart(index), BucketStart(index)) == Some(index + 1)
  {
    var grey: Byte := BucketStart(index);
    BucketStartInBucket(index);
    GreyOfUniform(grey);
    WhiteHasNoPattern(grey);
  }

  /** Entry k of the pattern list comes from bytes 4k, 4k+1 and 4k+2 only. */
  lemma {:induction false} PatternsAt(pixels: seq<Byte>, k: int)
    requires |pixels| % 4 == 0
    requires 0 <= k < |pixels| / 4
    ensures Patterns(pixels)[k] == PatternOf(pixels[4 * k], pixels[4 * k + 1], pixels[4 * k + 2])
    decreases k
  {
    if k > 0 {
      var rest := pixels[4..];
      var start := 4 * (k - 1);
      assert |rest| == |pixels| - 4 && |rest| % 4 == 0 && k - 1 < |rest| / 4;
      assert Patterns(pixels) == [PatternOf(pixels[0], pixels[1], pixels[2])] + Patterns(rest);
      PatternsAt(rest, k - 1);
      assert rest[start] == pixels[4 * k] && rest[start + 1] == pixels[4 * k + 1] && rest[start + 2] == pixels[4 * k + 2];
    }
  }

  /** Two buffers that differ only in their alpha bytes give the same patterns. */
  lemma {:induction false} AlphaIgnored(pixels: seq<Byte>, other: seq<Byte>)
    requires |pixels| % 4 == 0 && |other| == |pixels|
    requires forall i :: 0 <= i < |pixels| && i % 4 != 3 ==> pixels[i] == other[i]
    ensures Patterns(pixels) == Patterns(other)
    decreases |pixels|
  {
    if |pixels| > 0 {
      assert pixels[0] == other[0] && pixels[1] == other[1] && pixels[2] == other[2];
      var p, q := pixels[4..], other[4..];
      forall i | 0 <= i < |p| && i % 4 != 3
        ensures p[i] == q[i]
      {
        assert (i + 4) % 4 == i % 4;
        assert p[i] == pixels[i + 4] && q[i] == other[i + 4];
      }
      AlphaIgnored(p, q);
    }
  }

  /** Patterns of consecutive regions of the buffer follow one another. */
  lemma {:induction false} PatternsAppend(first: seq<Byte>, second: seq<Byte>)
    requires |first| % 4 == 0 && |second| % 4 == 0
    ensures Patterns(first + second) == Patterns(first) + Patterns(second)
    decreases |first|
  {
    if |first| > 0 {
      assert (first + second)[4..] == first[4..] + second;
      PatternsAppend(first[4..], second);
    } else {
      assert first + second == second;
    }
  }

  /**
   * The loop of the load handler: walk the buffer in steps of four bytes,
   * take red, green and blue, and push the pattern of their grey.
   */
  method ToPatterns(pixels: seq<Byte>) returns (patterns: seq<Option<int>>)
    requires |pixels| % 4 == 0
    ensures patterns == Patterns(pixels)
  {
    patterns := [];
    var i := 0;
    while i < |pixels|
      invariant 0 <= i <= |pixels| && i % 4 == 0
      invariant patterns + Patterns(pixels[i..]) == Patterns(pixels)
    {
      var red, green, blue := pixels[i], pixels[i + 1], pixels[i + 2];
      var grey := Grey(red, green, blue);
      var index := BucketIndex(grey);
      var pattern := At(PatternIds(), index);
      assert pixels[i..][4..] == pixels[i + 4..];
      patterns := patterns + [pattern];
      i := i + 4;
    }
    assert pixels[i..] == [];
  }
}
