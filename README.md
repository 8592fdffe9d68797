# mise-en-abyme: the pixel-to-pattern mosaic, in Dafny

mise-en-abyme turns a photograph into a mosaic of 48 small pattern images.
When the image has loaded, `src/Home.js` sizes a hidden canvas to
`patterns_per_line` columns and as many rows as keep the image's aspect
ratio, lets the browser resample the image onto it, and reads the RGBA bytes
back. Every pixel's red, green and blue are averaged (truncated) into a grey,
the grey picks one of 48 brightness buckets, and the bucket's pattern
identifier (1..48) is pushed onto a list. That list is then cut into lines of
`patterns_per_line` entries, which the page renders as rows of
`pattern_size`-pixel tiles, centred in the window when the mosaic fits it.
Two numeric settings drive this; each is guarded by an upper bound and is
committed from its text input by Enter or by an OK button.

The model is split by stage:

- `wrappers.dfy`, module `Wrappers`: `Option`, standing for `undefined`.
- `bucketing.dfy`, module `Bucketing`: bytes, grey, bucket index, the lookup
  with `Array.prototype.at`, the pattern list of a buffer as a function, and
  the first loop of the load handler as the method `ToPatterns`.
- `chunking.dfy`, module `Chunking`: the lines of a list as a function, its
  shape lemmas, and the second loop as the method `ChunkLines`.
- `mosaic.dfy`, module `Mosaic`: the target height and the whole load handler
  `OnLoad`, with what a cell of the mosaic is.
- `layout.dfy`, module `Layout`: the mosaic's pixel width and the centring
  decision.
- `settings.dfy`, module `Settings`: the range guards and the commit rule,
  with `Number(text)` and `toString` for integer text.

The grey 255 (only a pure white pixel, all three channels 255) gives bucket
index 48, one past the end of the 48 identifiers; `at(48)` then yields
`undefined`, and the model yields `None` there, as the code does. Nothing is
clamped.

The bucket of a grey is `floor(grey / (255 / 48))`, with no clamp, and the
identifiers run from 1 to 48. Each setting is bounded only from above, and
strictly: patterns per line below 300, pattern size below 100. Neither has a
lower bound, so 0 and negative numbers are accepted.

## Model

| member | source | states |
|---|---|---|
| Bucketing.PatternIdsAreOneToCount | src/Home.js:5 | the pattern identifiers `patterns_ids` are exactly 1..48, 48 of them, in increasing order |
| Bucketing.At | src/Home.js:47 | `Array.prototype.at`: an index in range gives that element, a negative index counts from the end, anything else gives `undefined` (None) |
| Bucketing.Grey | src/Home.js:44-45 | the grey is the floor of the average of red, green and blue: `3 * grey <= r + g + b < 3 * grey + 3`, and lies in 0..255 |
| Bucketing.BucketIndex | src/Home.js:46 | the index is the floor of `grey / (255 / 48)`: `index * 85 <= grey * 16 < index * 85 + 85`; it is at most 48, and 48 exactly when the grey is 255 |
| Bucketing.PatternOf | src/Home.js:44-47 | a pixel has no pattern exactly when red, green and blue are all 255; otherwise its pattern is its bucket index + 1, within 1..48 (the identifiers of line 5) |
| Bucketing.Patterns | src/Home.js:41-49 | the pattern list has exactly one entry per 4-byte chunk: its length is the buffer length / 4 |
| Bucketing.BucketMonotone | src/Home.js:46 | a brighter grey never selects an earlier bucket |
| Bucketing.PatternMonotone | src/Home.js:46-47 | if a brighter grey has a pattern, a darker one has one too, and it is not a later one |
| Bucketing.WhiteHasNoPattern | src/Home.js:46-47 | the lookup yields nothing exactly for grey 255; every grey below 255 yields its bucket index + 1 |
| Bucketing.BucketStart | src/Home.js:46 | the least grey of bucket `index` (index < 48), which lies below 255 |
| Bucketing.BucketStartInBucket | src/Home.js:46 | the least grey of a bucket is mapped to that bucket |
| Bucketing.GreyOfUniform | src/Home.js:45 | a pixel with three equal channels has that value as its grey |
| Bucketing.EveryPatternReachable | src/Home.js:44-47 | each of the 48 patterns is produced by some grey pixel |
| Bucketing.PatternsAt | src/Home.js:41-49 | entry k of the pattern list is the pattern of bytes 4k, 4k+1, 4k+2, in buffer order |
| Bucketing.AlphaIgnored | src/Home.js:44 | two buffers that differ only in alpha bytes give the same pattern list |
| Bucketing.PatternsAppend | src/Home.js:43-49 | the pattern list of two consecutive regions of the buffer is the concatenation of theirs |
| Bucketing.ToPatterns | src/Home.js:41-49 | the loop stepping four bytes at a time and pushing each pattern builds exactly the pattern list of the buffer |
| Chunking.SliceBound | src/Home.js:53 | where a `slice` bound lands: a negative bound counts from the end, and every bound is clamped to 0..length |
| Chunking.Slice | src/Home.js:53 | `Array.prototype.slice`: for bounds `0 <= start <= end` it is the part of the list from `start` to `end`, both clamped to the length |
| Chunking.Lines | src/Home.js:51-54 | the lines of the pattern list: laid end to end, they give back the list exactly |
| Chunking.LinesShape | src/Home.js:51-54 | every line but the last has `perLine` entries, the last has 1..`perLine`, and `len <= lines * perLine < len + perLine` |
| Chunking.LinesCount | src/Home.js:52 | the number of lines is `ceil(len / perLine)` |
| Chunking.LinesAt | src/Home.js:53 | line j is the slice of the list from `j * perLine` to `j * perLine + perLine`, clamped to the end |
| Chunking.FullLines | src/Home.js:51-54 | a list of `perLine * height` entries gives exactly `height` lines, all full |
| Chunking.LinesStep | src/Home.js:52-53 | the lines of the list from position i are `slice(i, i + perLine)` followed by the lines from `i + perLine` |
| Chunking.ChunkLines | src/Home.js:51-54 | the loop pushing `slice(i, i + perLine)` for i = 0, perLine, ... builds exactly those lines |
| Chunking.NonPositiveStepNeverEnds | src/Home.js:52-53 | with a step of 0 or less and a non-empty list, the index stays below the length after any number of rounds, so the loop never ends; every slice after the first is empty |
| Mosaic.TargetHeight | src/Home.js:29-31 | the height is `floor(perLine * imgHeight / imgWidth)`: `height * imgWidth <= perLine * imgHeight < (height + 1) * imgWidth`, and is not negative for a non-negative `perLine` |
| Mosaic.OnLoad | src/Home.js:28-56 | the canvas is `perLine` by the target height; when either is 0, `getImageData` throws and the lines shown before stay; otherwise the lines are the chunked pattern list of the buffer read back from it, exactly target-height lines of `perLine` entries each |
| Mosaic.MosaicCell | src/Home.js:35-54 | on a `perLine` by `height` buffer, the entry in row r, column c is the pattern of canvas pixel `r * perLine + c` |
| Mosaic.SolidColour | src/Home.js:41-49 | a buffer of one colour gives that colour's pattern everywhere, whatever its alpha |
| Mosaic.BlackImage | src/Home.js:43-48 | a black image gives pattern 1 everywhere |
| Mosaic.WhiteImage | src/Home.js:43-48 | a white image gives no pattern anywhere |
| Layout.CanvasWidth | src/Home.js:68 | `canvas_width` is a whole number of tiles: for a positive pattern size it divides exactly, and the quotient is `patterns_per_line` |
| Layout.IsOversized | src/Home.js:69 | `is_oversized` holds exactly when the window is narrower than `canvas_width` |
| Layout.IsCentred | src/Home.js:84 | the render container is centred exactly when `patterns_per_line * pattern_size` does not exceed the window width |
| Layout.OversizedGrowsWithSize | src/Home.js:68-69 | a larger pattern size never turns an oversized mosaic into one that fits |
| Layout.OversizedGrowsWithCount | src/Home.js:68-69 | more patterns per line never turn an oversized mosaic into one that fits |
| Layout.LineWidth | src/Home.js:68 | every rendered line of tiles fits the canvas width, and every line but the last fills it exactly |
| Settings.DigitChar | src/Home.js:168 | the decimal digit character of 0..9 |
| Settings.ParseNumber | src/Home.js:132 | `Number(text)` on integer text: the empty text is 0, digits are their value |
| Settings.Digits | src/Home.js:168 | the decimal digits of n (as `toString` writes them) are a non-empty string of digits that reads back as n |
| Settings.Text | src/Home.js:168 | `value.toString()` on an integer: `Number` reads it back as `value`, negatives included |
| Settings.Accept | src/Home.js:131-140 | a proposed text is stored only as a number below the limit; otherwise the stored value is unchanged |
| Settings.SetPatternsPerLine | src/Home.js:131-133 | a new patterns-per-line value is taken only if it is below 300, else the old one stays |
| Settings.SetPatternSize | src/Home.js:138-140 | a new pattern size is taken only if it is below 100, else the old one stays |
| Settings.AcceptKeepsBound | src/Home.js:131-140 | a stored value below the limit stays below it whatever is proposed |
| Settings.AcceptIdempotent | src/Home.js:131-140 | proposing the same text twice has the effect of proposing it once |
| Settings.AcceptCurrentText | src/Home.js:131-140 | proposing the text of the current value changes nothing |
| Settings.HasTyped | src/Home.js:168 | `has_typed` is false when the input holds the stored value's own text, and true whenever the input does not read as the stored value |
| Settings.Submitted | src/Home.js:168-171 | Enter always commits the typed text, any other key never does, and OK commits only when the typed text differs from the stored value's text |
| Settings.Interact | src/Home.js:131-171 | one key press or OK click on a setting either leaves the value alone or stores a number read from the input that is below the limit; Enter stores any such number; OK with the stored value in the input changes nothing |
| Settings.ClickCommitsOnlyChanges | src/Home.js:168-171 | OK commits a typed integer exactly when it differs from the stored value |
| Settings.UntypedKeepsValue | src/Home.js:167-171 | before anything is typed, neither Enter nor OK changes the stored value |
| Settings.InteractKeepsBound | src/Home.js:131-171 | every key press or click keeps a stored value below its limit below it |

## Left out

- The React component tree, `useState`/`useEffect` re-rendering and the JSX output (src/Home.js:7-106, 109-185): `Settings.Interact` stands for one state update of a setting, and the load handler is modelled as a method called with the current settings.
- Loading the image, the `FileReader` upload and data URLs (src/Home.js:26-28, 62, 151-156): asynchronous browser I/O.
- `drawImage` and `getImageData` (src/Home.js:17-21, 35-39): the resampled byte buffer is a parameter of `Mosaic.OnLoad`; which resampling the browser uses is not modelled.
- Mosaic.OnLoad: requires a buffer of `4 * perLine * height` bytes, the size of a canvas of `perLine` by `height` pixels; the bytes themselves are a parameter, as above.
- Bucketing.ToPatterns: requires a length divisible by 4, which every ImageData buffer has; a trailing partial chunk is not modelled.
- Mosaic.OnLoad: takes a patterns-per-line value of 0 or more. For a negative value the canvas and `getImageData` are browser behaviour; if the handler got as far as the loop of src/Home.js:52 with a non-empty list, it would never end (`Chunking.NonPositiveStepNeverEnds`). A value of 0 is modelled: `getImageData` throws and the lines stay as they were.
- Mosaic.OnLoad: requires an image width above 0; a loaded image with no width is not modelled.
- Mosaic.TargetHeight: computed over exact rationals; the source computes `floor(perLine * (height / width))` in doubles, whose rounding of the ratio can differ from the exact floor when the product is at or just below an integer. (The bucket division needs no such note: 255 / 48 = 5.3125 is exact in binary and `grey / 5.3125` never rounds across an integer for grey in 0..255.)
- Settings.ParseNumber: covers the empty text and optionally signed decimal integers; fractions, exponents, surrounding whitespace, `Infinity` and hexadecimal text, which JavaScript's `Number` also reads, are treated as not a number.
- Settings: the settings are integers; a fractional value committed through the input is not modelled.
- Settings.Text: written for every integer; JavaScript's `toString` switches to exponent form for magnitudes of 1e21 and more, and `Number` rounds integers beyond 2^53, so those values do not read back exactly in the source.
- The per-tile CSS brightness `(pattern / 48) * 150 + 20`, the `saturate(200%)` filter and the image URL of each tile (src/Home.js:85, 94-97): floating-point presentation strings; in particular what an `undefined` pattern renders as.
- The styled component definitions (src/Home.js:187-210) and src/flags.js: styling configuration with no logic.
