# ASCII art generator — a verified model of its core

The ASCII art generator turns a picture, or every k-th frame of a video, into a mosaic of
character glyphs. This project models its core in Dafny:

- **Glyph index.** Each glyph image in a directory is eroded and measured, by mean
  brightness or by non-zero coverage. The results form an insertion-ordered dict keyed
  by file name. The current indexer keeps only `.png`/`.jpg` names and fails on the
  first glyph it cannot read. The older indexer keeps every name and skips a name it
  cannot read.
- **Glyph cache.** `preload_ascii_images` reads each glyph of the index once more and
  scales it to the tile size.
- **Tiling engine.** `generate_ascii_art` works in five steps:
  - It computes the tile grid. The tile width is `width // n`. The tile height is the
    truncated `tile width / aspect ratio`. The row and column counts are ceilings.
  - It measures every tile's mean.
  - It picks the glyph whose score is nearest to that mean. The sorted index is stable,
    and the leftmost minimum wins.
  - It crops the cached glyph from its top-left corner to the tile.
  - It writes the crop into a zero canvas of the image's shape.
- **Video sampling.** `convert_video_to_ascii` exists in two generations. Both have:
  - the parameter assertions, in source order;
  - the frame window taken from the start and end times;
  - the loop that reads frames, converts every `int(speed)`-th one and stops at the
    first failed read or the first conversion that raises.

  The newer generation adds a success flag and optional compression afterwards.
- **ASCII conversion.** `get_ascii_char` and `get_ascii_code` return their refusals as
  message strings. The model also covers the `ascii_NNN[_c].png` file-name scheme and
  the name-generating loop of `generate_ascii_images`.

Python dicts are insertion-ordered association lists (`Dicts`). Rasters are rectangular
`uint8` matrices (`Rasters`), and means are exact reals. Python's `//`, `int()` and
`np.ceil(a / b)` are written out in `PyArith`.

The environment enters as parameters:

- `listing` is what `os.listdir` returns.
- `readable` maps each name that `cv2.imread` can load to its raster.
- `erode` is `cv2.erode` and `resize` is `cv2.resize`. For `resize` the model assumes
  only its shape promise, `GlyphCache.ResizesTo`.
- A `Capture` stands for the video capture. It gives whether the capture opened, its
  integer fps and frame count, and how many frames can be read after the seek.
- `converts(f)` says whether converting frame `f` returns normally.

The older copy of the image generator calls `generate_ascii_images()` unconditionally at
the top of `generate_ascii_art` (`ascii_art_generator/ascii_art_generator_image.py:24`);
the newer one calls it only when `generate_ascii_images_flag` is set. Glyph rendering
is not part of this model, so the call is left out in both. From there on, the older
copy repeats the newer one line for line:

- `ascii_art_generator/ascii_art_generator_image.py:27-81` matches
  `src/ascii_art_generator/ascii_art_generator_image.py:30-81`.
- Lines 113-122 of the older copy match lines 116-134 of the newer one.

So `GlyphCache` and `Tiling` model both copies. The cells below cite the newer lines.

## Model

| member | source | states |
|---|---|---|
| PyArith.Trunc | src/ascii_art_generator/ascii_art_generator_image.py:46 | `int(x)` truncates toward zero: for x ≥ 0 the result is the floor, for x < 0 the ceiling, within one of x |
| PyArith.FloorDiv | src/ascii_art_generator/ascii_art_generator_image.py:45 | `a // b` is the integer q with q ≤ a/b < q+1, for either sign of the divisor |
| PyArith.CeilDiv | src/ascii_art_generator/ascii_art_generator_image.py:47-48 | `int(np.ceil(a / b))` is the least count c with c·b ≥ a |
| PyArith.TruncQuotient | src/ascii_art_generator/ascii_art_generator_image.py:46 | for non-negative operands, truncating the real quotient equals integer division |
| Rasters.RectMean | src/ascii_art_generator/ascii_art_generator_image.py:66-67 | the mean of a non-empty sub-rectangle of a `uint8` image lies in [0, 255] |
| Rasters.Mean | src/ascii_art_generator/utils_compute_stats.py:25 | `np.mean` of a glyph lies in [0, 255] |
| Rasters.Coverage | src/ascii_art_generator/utils_compute_stats.py:49-51 | the non-zero count divided by the pixel count lies in [0, 1] |
| Dicts.SetItem | src/ascii_art_generator/utils_compute_stats.py:26 | `d[k] = v` keeps keys distinct; an existing key is updated in place with its position unchanged; a new key is appended at the end; nothing else changes |
| Dicts.Unique | src/ascii_art_generator/utils_compute_stats.py:20-26 | the keys a dict keeps from a name sequence are its distinct elements in order of first occurrence, and they equal the sequence when it has no repeats |
| GlyphIndex.Filter | src/ascii_art_generator/utils_compute_stats.py:19 | the list comprehension keeps exactly the elements that pass the test, preserves distinctness and is never longer than its input |
| GlyphIndex.HasImageExtension | src/ascii_art_generator/utils_compute_stats.py:19 | an image name ends in `.png` or `.jpg`, case-sensitively, so it has at least four characters with a dot fourth from the end |
| GlyphIndex.MeasuredIndex | src/ascii_art_generator/utils_compute_stats.py:20-26 | the dict built over distinct readable names has exactly those keys, in that order, each valued at the measure of its eroded glyph |
| GlyphIndex.MeasuredIndexUnique | src/ascii_art_generator/utils_compute_stats.py:20-26 | a dict is determined by its key order and its measured values |
| GlyphIndex.IndexFiles | src/ascii_art_generator/utils_compute_stats.py:20-26 | the loop succeeds iff every filtered file is readable; a failure names an unreadable file of the list; on success the result is the measured dict over the distinct files |
| GlyphIndex.IndexGlyphs | src/ascii_art_generator/utils_compute_stats.py:18-26 | extension filter then indexing: succeeds iff every `.png`/`.jpg` of the listing is readable; otherwise it names a listed, unreadable image file |
| GlyphIndex.ComputeAverageBrightness | src/ascii_art_generator/utils_compute_stats.py:6-28 | succeeds iff all listed image files can be read; keys are the image files in listing order; each value is the mean of the eroded glyph, in [0, 255]; equals `BrightnessIndex` |
| GlyphIndex.ComputeCoverage | src/ascii_art_generator/utils_compute_stats.py:30-52 | same success condition and keys; each value is the coverage of the eroded glyph, in [0, 1] |
| GlyphIndex.BrightnessIndex | src/ascii_art_generator/utils_compute_stats.py:6-28 | the index of a directory whose image files are readable: keys are the distinct image files in listing order, each valued at its eroded glyph's mean in [0, 255] |
| GlyphIndex.LegacyComputeAverageBrightness | ascii_art_generator/utils_compute_stats.py:7-31 | never fails; a name is a key iff it is listed and readable, so unreadable names are skipped; keys keep listing order; values are means in [0, 255] |
| GlyphCache.ScaledGlyphs | src/ascii_art_generator/ascii_art_generator_image.py:127-134 | the cache built over the given names has exactly those keys |
| GlyphCache.ScaledGlyphsShape | src/ascii_art_generator/ascii_art_generator_image.py:127-134 | the cache has exactly the index's keys, each holding its own glyph resized to tile height × tile width |
| GlyphCache.PreloadGlyphs | src/ascii_art_generator/ascii_art_generator_image.py:116-134 | succeeds iff every key of the index is readable; a failure names an unreadable key; on success the cache maps every key of the index to its resized glyph |
| Matching.InsertByScore | src/ascii_art_generator/ascii_art_generator_image.py:31 | inserting into a score-sorted list keeps it sorted and adds exactly the inserted entry |
| Matching.InsertWithScore | src/ascii_art_generator/ascii_art_generator_image.py:31 | insertion places the new entry before those with an equal score and reorders no other entries |
| Matching.SortByScore | src/ascii_art_generator/ascii_art_generator_image.py:31 | `sorted(items, key=score)` is ascending by score and a permutation of the items |
| Matching.SortIsStable | src/ascii_art_generator/ascii_art_generator_image.py:31 | the sort is stable: entries sharing a score keep their dict order |
| Matching.Dist | src/ascii_art_generator/ascii_art_generator_image.py:70 | `abs(score - mean)` is non-negative and equals one of the two differences |
| Matching.Nearest | src/ascii_art_generator/ascii_art_generator_image.py:70 | `min` by distance returns a position at minimal distance, and every earlier position is strictly farther, so the first minimum wins |
| Matching.MatchKey | src/ascii_art_generator/ascii_art_generator_image.py:70-73 | the looked-up key belongs to an entry of the sorted list that is nearest to the mean |
| Matching.FirstWithScore | src/ascii_art_generator/ascii_art_generator_image.py:31 | the first entry with a given score heads the group of entries with that score |
| Matching.NearestOfSorted | src/ascii_art_generator/ascii_art_generator_image.py:70 | on a sorted permutation of the dict, the chosen entry is in the dict, is nearest to the mean, and has the lowest score among the nearest |
| Matching.NearestFirstOfItsScore | src/ascii_art_generator/ascii_art_generator_image.py:70 | no entry before the choice has the same score |
| Matching.ChosenEntry | src/ascii_art_generator/ascii_art_generator_image.py:31-70 | the tie-break of sort then `min`, stated on the dict: the chosen entry is nearest to the mean; among the nearest it has the lowest score; among those with that score it was inserted first |
| TileGrid.ComputeGrid | src/ascii_art_generator/ascii_art_generator_image.py:45-48 | succeeds iff n ≥ 1, `width // n` ≥ 1 and the truncated tile height ≥ 1; a zero divisor (n = 0 or a tile height of 0) is `DivisionByZero`; a negative n whose tile height is negative is `NegativeTileSize`, with both sizes negative; on success the tile sizes are the integer quotients, rows and columns are the least counts covering the image, and there are at least n columns |
| TileGrid.TileSizes | src/ascii_art_generator/ascii_art_generator_image.py:45-46 | the float expressions for the tile width and height equal `width / n` and `tileW·glyphH / glyphW` as integer quotients; a non-positive width gives a non-positive height |
| TileGrid.TileHeight | src/ascii_art_generator/ascii_art_generator_image.py:46 | `int(tile_w / aspect)` is `tile_w·glyphH div glyphW` for a non-negative tile width, and the same quotient negated for a negative one (truncation toward zero) |
| TileGrid.SpanStart | src/ascii_art_generator/ascii_art_generator_image.py:60-62 | the start of span k lies in span k: dividing it by the tile size gives k |
| TileGrid.SpanEnd | src/ascii_art_generator/ascii_art_generator_image.py:61-63 | the end of span k is the smaller of the next span's start and the image edge |
| TileGrid.SpanWithin | src/ascii_art_generator/ascii_art_generator_image.py:60-63 | every visited row/column span is a non-empty part of the image |
| TileGrid.SpanOf | src/ascii_art_generator/ascii_art_generator_image.py:57-63 | pixel p lies in span p / size, and the loop visits that span |
| TileGrid.SpanUnique | src/ascii_art_generator/ascii_art_generator_image.py:60-63 | a pixel lies in no other span |
| TileGrid.LastSpan | src/ascii_art_generator/ascii_art_generator_image.py:61-63 | every span but the last is full; the last ends at the image edge and holds between 1 and size pixels |
| TileGrid.PixelInOneTile | src/ascii_art_generator/ascii_art_generator_image.py:57-63 | every pixel lies in exactly one visited tile: row y / tileH, column x / tileW |
| TileGrid.TileWithin | src/ascii_art_generator/ascii_art_generator_image.py:57-63 | every visited tile is a non-empty rectangle inside the image |
| TileGrid.TilesDisjoint | src/ascii_art_generator/ascii_art_generator_image.py:57-63 | two different tiles share no pixel |
| TileGrid.ColumnCount | src/ascii_art_generator/ascii_art_generator_image.py:48 | the realised column count is n plus the ceiling of (width mod n) / tile width, so it is never below n |
| TileGrid.ColumnsAtMostOneExtra | src/ascii_art_generator/ascii_art_generator_image.py:48 | the column count exceeds n by at most one iff width mod n ≤ tile width |
| TileGrid.ColumnOvershootExample | src/ascii_art_generator/ascii_art_generator_image.py:48 | an 11-pixel width cut into 4 columns gives 2-pixel tiles and 6 columns |
| TileGrid.NegativeColumnsExample | src/ascii_art_generator/ascii_art_generator_image.py:45-48 | 10 pixels cut for −1 columns with glyphs twice as high as wide give tiles of −10 × −20 pixels, reported as `NegativeTileSize` |
| Tiling.TileMean | src/ascii_art_generator/ascii_art_generator_image.py:66-67 | the mean of any visited tile lies in [0, 255] |
| Tiling.TileGlyph | src/ascii_art_generator/ascii_art_generator_image.py:70-73 | the glyph chosen for a tile is the key of an entry of the sorted index |
| Tiling.ExpectedPixel | src/ascii_art_generator/ascii_art_generator_image.py:57-81 | the pixel the finished canvas holds: the pixel at the same offset in the glyph matched to the one tile containing it (its properties are stated by `Tiling.ExpectedInTile`) |
| Tiling.ExpectedInTile | src/ascii_art_generator/ascii_art_generator_image.py:73-81 | inside tile (i, j), the expected pixel is the pixel at the same offset from the tile's corner in the cached glyph matched to that tile, and that glyph is cached |
| Tiling.Crop | src/ascii_art_generator/ascii_art_generator_image.py:76-78 | `glyph[:h, :w]` has h rows of w pixels |
| Tiling.CropKeepsPixels | src/ascii_art_generator/ascii_art_generator_image.py:78 | the crop keeps each pixel at its place and never rescales |
| Tiling.ZeroCanvas | src/ascii_art_generator/ascii_art_generator_image.py:54 | `np.zeros` gives a new canvas of the image's shape holding only zeros |
| Tiling.Blit | src/ascii_art_generator/ascii_art_generator_image.py:81 | slice assignment: the target rectangle holds the patch and every other canvas pixel keeps its old value |
| Tiling.RenderTile | src/ascii_art_generator/ascii_art_generator_image.py:60-81 | one inner-loop iteration sets every pixel of tile (i, j) to its expected glyph pixel and leaves all other pixels unchanged |
| Tiling.RenderRow | src/ascii_art_generator/ascii_art_generator_image.py:58-81 | the inner loop sets every pixel of row span i to its expected glyph pixel and leaves all other pixels unchanged |
| Tiling.RenderTiles | src/ascii_art_generator/ascii_art_generator_image.py:54-81 | a new canvas of the image's shape in which every pixel holds the glyph pixel of the one tile containing it |
| Tiling.SortedCacheFits | src/ascii_art_generator/ascii_art_generator_image.py:51-73 | every entry the sorted list can yield has a cached glyph of exactly tile size, so the cache lookup never misses |
| Tiling.CacheFor | src/ascii_art_generator/ascii_art_generator_image.py:51 | the preloaded cache covers the sorted index at tile size |
| Tiling.GenerateAsciiArt | src/ascii_art_generator/ascii_art_generator_image.py:30-81 | outcomes in source order: an unreadable listed glyph; then an unreadable input; then a grid division by zero; then negative tile sizes, which fail only when the index has a glyph for the preload to resize (with an empty index the blank canvas is returned); then an empty glyph set, which fails in the first tile; otherwise a new canvas rendered from the brightness index, its stable sort, the grid and the preloaded cache |
| Video.Lower | src/ascii_art_generator/ascii_art_generator_video.py:73-74 | `str.lower()` on ASCII letters keeps the length and maps A-Z to a-z |
| Video.SupportedInput | src/ascii_art_generator/ascii_art_generator_video.py:73 | the lowered input path ends in `.mp4`, `.avi`, `.mov` or `.mkv`, so it has a dot fourth from the end |
| Video.SupportedOutput | src/ascii_art_generator/ascii_art_generator_video.py:74 | the lowered output path ends in `.mp4` or `.avi`; every supported output format is also a supported input format |
| Video.CheckParameters | src/ascii_art_generator/ascii_art_generator_video.py:69-76 | `None` iff every assertion holds; otherwise the reported assertion fails and all assertions before it hold |
| Video.StepAtLeastOne | src/ascii_art_generator/ascii_art_generator_video.py:127 | once the checks pass, the frame step `int(speed_multiplier)` is at least 1, so the modulo never divides by zero |
| Video.FrameWindow | src/ascii_art_generator/ascii_art_generator_video.py:92-101 | fails iff no end time is given and fps is 0; the start frame is floor(start·fps); the end frame is min(floor(end·fps), total−1), and total−1 without an end time |
| Video.TakeWhile | src/ascii_art_generator/ascii_art_generator_video.py:118-153 | the frames written before a conversion raises form a prefix of the frames to be converted |
| Video.Sampled | src/ascii_art_generator/ascii_art_generator_video.py:119-146 | every frame the loop converts lies in the window, and its offset from the start frame is a multiple of the step |
| Video.LastFrame | src/ascii_art_generator/ascii_art_generator_video.py:119-123 | the last frame reached is the smaller of the window's end frame and the last readable frame |
| Video.SampledMembers | src/ascii_art_generator/ascii_art_generator_video.py:127 | a frame is converted iff it lies in the window and its offset from the start frame is a multiple of the step |
| Video.SampledIncreasing | src/ascii_art_generator/ascii_art_generator_video.py:119-146 | converted frames are written in strictly increasing order |
| Video.SampledCount | src/ascii_art_generator/ascii_art_generator_video.py:143 | a window read to its end writes (last − start) div step + 1 frames |
| Video.SampledPrefix | src/ascii_art_generator/ascii_art_generator_video.py:119-123 | ending the loop earlier writes a prefix of what a later end would write |
| Video.TakeWhileAll | src/ascii_art_generator/ascii_art_generator_video.py:119-149 | when every frame converts, all of them are written |
| Video.TakeWhileStops | src/ascii_art_generator/ascii_art_generator_video.py:133-153 | the first conversion that raises ends what is written |
| Video.ConversionRaises | src/ascii_art_generator/ascii_art_generator_video.py:133-153 | a raising sampled frame leaves exactly the earlier sampled frames written and marks the run unsuccessful |
| Video.SampleFrames | src/ascii_art_generator/ascii_art_generator_video.py:111-153 | the frames written are the sampled frames of the window, cut at the last readable frame and at the first conversion that raises; the run raised iff some sampled frame does not convert; `frames_written` counts the written frames |
| Video.WindowScenario | src/ascii_art_generator/ascii_art_generator_video.py:100-101 | 2.0 s to 5.0 s of a 30 fps, 300-frame video gives frames 60..150, which is 91 frames at normal speed |
| Video.ConvertVideo | src/ascii_art_generator/ascii_art_generator_video.py:69-197 | a run happens iff every assertion holds and no zero fps meets a missing end time; a failed assertion is reported first; a capture that does not open returns False; otherwise the written frames are the sampled frames up to the first raising conversion, and success iff every sampled frame converts; compression happens iff the run succeeded, it was requested, the output exists and compression produced a file, and it never changes the success flag |
| Video.LegacyConvertVideo | ascii_art_generator/ascii_art_generator_video.py:51-133 | the same checks, window and loop, and a run iff the checks pass and no zero fps meets a missing end time; True iff every sampled frame converts (an early break on a failed read included); False when the capture does not open; no compression |
| AsciiCodes.GetAsciiChar | ascii_art_generator/utils_ascii.py:4-17 | returns a character iff the argument is an `int` (or `bool`) in 0..127, and that character's code is the argument; otherwise it refuses with the range message |
| AsciiCodes.GetAsciiCode | ascii_art_generator/utils_ascii.py:19-36 | returns a code iff the argument is a one-character string whose code is at most 127, and the code is that character's; a non-string or wrong length gets the single-character message; a non-ASCII character gets the ASCII message |
| AsciiCodes.CodeRoundTrip | ascii_art_generator/utils_ascii.py:4-36 | every code 0..127 converts to a character and back to itself |
| AsciiCodes.CharRoundTrip | ascii_art_generator/utils_ascii.py:4-36 | every ASCII character converts to its code and back to itself |
| AsciiCodes.TestCalls | test/test_utils_ascii.py:6-22 | the tested calls give 'A', 'a', '0', ' ', '~' and 65, 126; 200 and the test's three-character non-ASCII string are refused (returned, not raised) |
| AsciiCodes.Decimal | ascii_art_generator/utils_ascii.py:201 | `str(n)` is a non-empty digit string with the right number of digits for n |
| AsciiCodes.DecimalValue | ascii_art_generator/utils_ascii.py:201 | reading the digits of `str(n)` back gives n |
| AsciiCodes.LeadingZero | ascii_art_generator/utils_ascii.py:201 | a leading zero does not change a digit string's value |
| AsciiCodes.Pad3 | ascii_art_generator/utils_ascii.py:201 | `f"{code:03d}"` is all digits, exactly three of them below 1000 |
| AsciiCodes.Pad3Value | ascii_art_generator/utils_ascii.py:201 | the padded digits still denote the code |
| AsciiCodes.SpecialFileNames | ascii_art_generator/utils_ascii.py:200-203 | the space is named `ascii_032_space.png`; a reserved character such as `/` gets no suffix (`ascii_047.png`) |
| AsciiCodes.PlainFileNames | ascii_art_generator/utils_ascii.py:204-205 | other characters are appended after an underscore (`ascii_065_A.png`, `ascii_126_~.png`) |
| AsciiCodes.Suffix | ascii_art_generator/utils_ascii.py:200-205 | the part after the code never holds a character reserved in file names |
| AsciiCodes.GlyphFileName | ascii_art_generator/utils_ascii.py:198-205 | the glyph file name starts with `ascii_`, ends in `.png` (so the current indexer picks it up) and holds no reserved character |
| AsciiCodes.GlyphFileNameInjective | ascii_art_generator/utils_ascii.py:198-205 | codes below 1000 get pairwise distinct file names |
| AsciiCodes.GenerateGlyphNames | ascii_art_generator/utils_ascii.py:197-209 | one name per code of start..end, in order, each the file name of its code and an image name; `chr` of a negative code fails; with end < 1000 the names are distinct |

## Notes on the source

- **Tile height.** The tile height is truncated by `int(...)`, not rounded
  (`TileGrid.TileHeight`).
- **Unreadable glyphs.** The current statistics do not skip an unreadable glyph:
  `cv2.erode` of `None` raises. `GlyphIndex.IndexFiles` therefore fails on the first
  unreadable image file. Only the older indexer skips
  (`GlyphIndex.LegacyComputeAverageBrightness`).
- **Frame count.** A window of 2.0 s to 5.0 s at 30 fps covers frames 60..150
  inclusive. That is 91 frames, not 89 (`Video.WindowScenario`).
- **Refusals.** The unit tests expect `ValueError` from `get_ascii_char(200)` and from
  `get_ascii_code` of a non-ASCII string. Both functions return an error string instead
  (`AsciiCodes.TestCalls`). The test's argument is the three-character mis-decoding of
  the euro sign, so it is refused for its length and not for being non-ASCII.
- **Column count.** The comment on line 48 says the realised column count "might be 1
  more" than requested. It can be more than one extra: 11 pixels in 4 columns gives 6
  (`TileGrid.ColumnsAtMostOneExtra`, `TileGrid.ColumnOvershootExample`).

## Left out

- File and display I/O are not modelled: `cv2.imwrite`, the matplotlib plots, the
  progress bar, the temporary frame files, `cv2.VideoWriter` and the printed messages.
- Colour conversion (`cv2.cvtColor`) is not modelled; the image enters already in
  grayscale.
- The internals of `cv2.erode` and `cv2.resize` are parameters. Only resize's output
  shape is assumed (`GlyphCache.ResizesTo`).
- Floating-point rounding is not modelled. Means, aspect ratios and times are exact
  reals, so a float `int(x)` that differs from the exact truncation by rounding is not
  captured.
- `get_aspect_ratio_of_ascii_image` is not modelled. It reads the second listed glyph;
  here its width and height are parameters of `Tiling.GenerateAsciiArt`.
- `generate_ascii_images_flag` and the glyph rendering of `generate_ascii_images` are
  not modelled: `monospace_char_image`, font selection and the random font. Only the
  file names are modelled.
- `convert_frame_to_ascii` is a predicate `converts`. The frame it writes is not
  modelled.
- The capture's seek and read semantics are reduced to a count of readable frames after
  the start frame. Exceptions raised by `cap.read` or `out.write` are not modelled.
- The internals of `utils_compression.compress_video` are reduced to its outcome
  (`Video.CompressionOutcome`). Only the gate in front of it and its effect on the
  returned flag are modelled.
- The formatted argument at the end of each error message is not modelled. The message
  prefix and the argument are kept apart in `AsciiCodes.Refusal`.
- Video.Lower: lowers ASCII letters only. Other case mappings of `str.lower()` are not
  modelled.
- AsciiCodes.GenerateGlyphNames: requires `end_code < 0xD800`. Dafny's `char` cannot
  hold surrogate code points, and larger codes are not modelled. The names are only
  shown distinct below code 1000, where the padding is exactly three digits.
- AsciiCodes.GetAsciiChar: a Python `int` subclass other than `bool` is not modelled.
- Two wiring errors of the older copy are not modelled:
  - its image generator passes three arguments to a one-parameter
    `compute_average_brightness`;
  - its video module calls the image generator with two keywords the image generator
    does not declare: `num_sub_images_width` and `generate_ascii_images_flag`.

  The older image engine is modelled as if it received the index the call intends.
- Tiling.GenerateAsciiArt: does not model the `ValueError` text for an unreadable
  input image; it is the outcome `ImageUnreadable`.
