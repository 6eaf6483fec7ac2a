/**
  The tile loop of `generate_ascii_art`: the output canvas starts as zeros of the input's
  shape; every tile of the grid is measured, matched to the nearest glyph of the sorted
  index, and that glyph's pre-scaled copy is written over the tile, cropped from its
  top-left corner where the tile is cut short by the right or bottom edge.
 */
module Tiling {
  import opened Wrappers
  import opened Rasters
  import opened Dicts
  import opened GlyphIndex
  import opened Matching
  import opened TileGrid
  import opened GlyphCache

  /** Every glyph the sorted index can choose is cached at exactly one tile's size. */
  predicate CacheFits(cache: map<string, Raster>, sorted: seq<Entry>, g: Grid) {
    forall e :: e in sorted ==> e.0 in cache && HasShape(cache[e.0], g.tileH, g.tileW)
  }

  /** `np.mean(gray_image[start_y:end_y, start_x:end_x])` of tile (i, j). */
  function TileMean(img: Raster, g: Grid, i: nat, j: nat): (m: real)
    requires ValidGrid(g, Width(img), Height(img)) && i < g.rows && j < g.cols
    ensures 0.0 <= m <= 255.0
  {
    TileWithin(g, Width(img), Height(img), i, j);
    RectMean(img, SpanStart(i, g.tileH), SpanEnd(i, g.tileH, Height(img)),
             SpanStart(j, g.tileW), SpanEnd(j, g.tileW, Width(img)))
  }

  /** `closest_match[0]` for tile (i, j). */
  function TileGlyph(img: Raster, g: Grid, sorted: seq<Entry>, i: nat, j: nat): (name: string)
    requires ValidGrid(g, Width(img), Height(img)) && i < g.rows && j < g.cols && |sorted| >= 1
    ensures exists e :: e in sorted && e.0 == name
  {
    MatchKey(sorted, TileMean(img, g, i, j))
  }

  /**
    The pixel the finished canvas holds at (y, x): the pixel at the same offset from the
    tile's top-left corner in the cached glyph matched to the tile that contains (y, x).
   */
  function ExpectedPixel(img: Raster, g: Grid, sorted: seq<Entry>, cache: map<string, Raster>,
                         y: nat, x: nat): byte
    requires ValidGrid(g, Width(img), Height(img)) && |sorted| >= 1 && CacheFits(cache, sorted, g)
    requires y < Height(img) && x < Width(img)
  {
    PixelInOneTile(g, Width(img), Height(img), y, x);
    var i := y / g.tileH;
    var j := x / g.tileW;
    var glyph := cache[TileGlyph(img, g, sorted, i, j)];
    glyph[y - SpanStart(i, g.tileH)][x - SpanStart(j, g.tileW)]
  }

  /**
    Stated tile by tile: every pixel of tile (i, j) shows the glyph matched to that tile,
    at the pixel's offset within the tile (a top-left crop, never a rescaling).
   */
  lemma {:induction false} ExpectedInTile(img: Raster, g: Grid, sorted: seq<Entry>, cache: map<string, Raster>,
                                          i: nat, j: nat, y: nat, x: nat)
    requires ValidGrid(g, Width(img), Height(img)) && |sorted| >= 1 && CacheFits(cache, sorted, g)
    requires i < g.rows && j < g.cols && InTile(g, Width(img), Height(img), i, j, y, x)
    ensures y < Height(img) && x < Width(img)
    ensures TileGlyph(img, g, sorted, i, j) in cache
    ensures y - SpanStart(i, g.tileH) < g.tileH && x - SpanStart(j, g.tileW) < g.tileW
    ensures ExpectedPixel(img, g, sorted, cache, y, x)
            == cache[TileGlyph(img, g, sorted, i, j)][y - SpanStart(i, g.tileH)][x - SpanStart(j, g.tileW)]
  {
    TileWithin(g, Width(img), Height(img), i, j);
    SpanUnique(i, y, g.tileH, Height(img));
    SpanUnique(j, x, g.tileW, Width(img));
    var k := Nearest(sorted, TileMean(img, g, i, j));
    assert sorted[k] in sorted;
  }

  /** `ascii_image_resized[:h, :w]`: the top-left h x w corner of a glyph. */
  function Crop(glyph: Raster, h: nat, w: nat): (c: seq<seq<byte>>)
    requires h <= Height(glyph) && w <= Width(glyph)
    ensures |c| == h && forall r :: 0 <= r < h ==> |c[r]| == w
  {
    seq(h, r requires 0 <= r < h => glyph[r][..w])
  }

  /** A crop keeps every pixel where it was: nothing is moved or rescaled. */
  lemma CropKeepsPixels(glyph: Raster, h: nat, w: nat)
    requires h <= Height(glyph) && w <= Width(glyph)
    ensures forall r, c :: 0 <= r < h && 0 <= c < w ==> Crop(glyph, h, w)[r][c] == glyph[r][c]
  {
  }

  /** A canvas of the image's shape holding only zeros. */
  predicate Blank(canvas: array2<byte>, img: Raster)
    reads canvas
  {
    && canvas.Length0 == Height(img) && canvas.Length1 == Width(img)
    && forall y, x :: 0 <= y < Height(img) && 0 <= x < Width(img) ==> canvas[y, x] == 0
  }

  /** `np.zeros((height, width), dtype=np.uint8)`. */
  method ZeroCanvas(img: Raster) returns (canvas: array2<byte>)
    ensures fresh(canvas)
    ensures Blank(canvas, img)
  {
    canvas := new byte[Height(img), Width(img)]((y, x) => 0);
  }

  /**
    `canvas[sy:sy+h, sx:sx+w] = patch`: the rectangle takes the patch, every other pixel
    keeps its value.
   */
  method Blit(canvas: array2<byte>, patch: seq<seq<byte>>, sy: nat, sx: nat, h: nat, w: nat)
    requires |patch| == h && forall r :: 0 <= r < h ==> |patch[r]| == w
    requires sy + h <= canvas.Length0 && sx + w <= canvas.Length1
    modifies canvas
    ensures forall y, x :: 0 <= y < canvas.Length0 && 0 <= x < canvas.Length1 ==>
              canvas[y, x] == if sy <= y < sy + h && sx <= x < sx + w then patch[y - sy][x - sx] else old(canvas[y, x])
  {
    for r := 0 to h
      invariant forall y, x :: 0 <= y < canvas.Length0 && 0 <= x < canvas.Length1 ==>
                  canvas[y, x] == if sy <= y < sy + r && sx <= x < sx + w then patch[y - sy][x - sx] else old(canvas[y, x])
    {
      for c := 0 to w
        invariant forall y, x :: 0 <= y < canvas.Length0 && 0 <= x < canvas.Length1 ==>
                    canvas[y, x] == if (sy <= y < sy + r && sx <= x < sx + w) || (y == sy + r && sx <= x < sx + c)
                                    then patch[y - sy][x - sx] else old(canvas[y, x])
      {
        canvas[sy + r, sx + c] := patch[r][c];
      }
    }
  }

  /** The finished canvas: the image's shape, and at every pixel the expected glyph pixel. */
  ghost predicate Renders(canvas: array2<byte>, img: Raster, g: Grid, sorted: seq<Entry>, cache: map<string, Raster>)
    requires ValidGrid(g, Width(img), Height(img)) && |sorted| >= 1 && CacheFits(cache, sorted, g)
    reads canvas
  {
    && canvas.Length0 == Height(img) && canvas.Length1 == Width(img)
    && forall y, x :: 0 <= y < Height(img) && 0 <= x < Width(img) ==>
         canvas[y, x] == ExpectedPixel(img, g, sorted, cache, y, x)
  }

  /**
    The body of the inner loop for tile (i, j): look the matched glyph up, crop it to the
    tile and write it over the tile; the canvas outside the tile is unchanged.
   */
  method RenderTile(canvas: array2<byte>, img: Raster, g: Grid, sorted: seq<Entry>,
                    cache: map<string, Raster>, i: nat, j: nat)
    requires ValidGrid(g, Width(img), Height(img)) && |sorted| >= 1 && CacheFits(cache, sorted, g)
    requires canvas.Length0 == Height(img) && canvas.Length1 == Width(img) && i < g.rows && j < g.cols
    modifies canvas
    ensures forall y, x :: 0 <= y < Height(img) && 0 <= x < Width(img) ==>
              canvas[y, x] == if InTile(g, Width(img), Height(img), i, j, y, x)
                              then ExpectedPixel(img, g, sorted, cache, y, x) else old(canvas[y, x])
  {
    var height, width := Height(img), Width(img);
    TileWithin(g, width, height, i, j);
    var sy, ey := SpanStart(i, g.tileH), SpanEnd(i, g.tileH, height);
    var sx, ex := SpanStart(j, g.tileW), SpanEnd(j, g.tileW, width);
    var glyph := cache[TileGlyph(img, g, sorted, i, j)] by {
      var k := Nearest(sorted, TileMean(img, g, i, j));
      assert sorted[k] in sorted;
    }
    var patch := Crop(glyph, ey - sy, ex - sx);
    Blit(canvas, patch, sy, sx, ey - sy, ex - sx);
    forall y, x | sy <= y < ey && sx <= x < ex
      ensures canvas[y, x] == ExpectedPixel(img, g, sorted, cache, y, x)
    {
      ExpectedInTile(img, g, sorted, cache, i, j, y, x);
    }
  }

  /**
    One pass of the inner loop (`for j in range(...)`): every tile of row `i` written,
    the canvas outside the row unchanged.
   */
  method RenderRow(canvas: array2<byte>, img: Raster, g: Grid, sorted: seq<Entry>,
                   cache: map<string, Raster>, i: nat)
    requires ValidGrid(g, Width(img), Height(img)) && |sorted| >= 1 && CacheFits(cache, sorted, g)
    requires canvas.Length0 == Height(img) && canvas.Length1 == Width(img) && i < g.rows
    modifies canvas
    ensures forall y, x :: 0 <= y < Height(img) && 0 <= x < Width(img) ==>
              canvas[y, x] == if SpanStart(i, g.tileH) <= y < SpanEnd(i, g.tileH, Height(img))
                              then ExpectedPixel(img, g, sorted, cache, y, x) else old(canvas[y, x])
  {
    var height, width := Height(img), Width(img);
    var sy, ey := SpanStart(i, g.tileH), SpanEnd(i, g.tileH, height);
    for j := 0 to g.cols
      invariant forall y, x :: 0 <= y < height && 0 <= x < width ==>
                  canvas[y, x] == if sy <= y < ey && x < SpanStart(j, g.tileW)
                                  then ExpectedPixel(img, g, sorted, cache, y, x) else old(canvas[y, x])
    {
      RenderTile(canvas, img, g, sorted, cache, i, j);
      assert SpanStart(j + 1, g.tileW) == SpanEnd(j, g.tileW, width) || SpanEnd(j, g.tileW, width) == width;
    }
    assert SpanStart(g.cols, g.tileW) >= width;
  }

  /**
    Lines 54-81: a zero canvas of the image's shape, then for every row `i` and column `j`
    of the grid the matched glyph cropped to the tile and written over it. Each pixel ends
    up with the glyph of the one tile that contains it.
   */
  method RenderTiles(img: Raster, g: Grid, sorted: seq<Entry>, cache: map<string, Raster>)
    returns (canvas: array2<byte>)
    requires ValidGrid(g, Width(img), Height(img)) && |sorted| >= 1 && CacheFits(cache, sorted, g)
    ensures fresh(canvas)
    ensures Renders(canvas, img, g, sorted, cache)
  {
    var height, width := Height(img), Width(img);
    canvas := ZeroCanvas(img);
    for i := 0 to g.rows
      invariant forall y, x :: 0 <= y < height && 0 <= x < width && y < SpanStart(i, g.tileH) ==>
                  canvas[y, x] == ExpectedPixel(img, g, sorted, cache, y, x)
    {
      RenderRow(canvas, img, g, sorted, cache, i);
      assert SpanStart(i + 1, g.tileH) == SpanEnd(i, g.tileH, height) || SpanEnd(i, g.tileH, height) == height;
    }
    assert SpanStart(g.rows, g.tileH) >= height;
  }

  // ---- the whole of `generate_ascii_art` ----

  /** The sorted index only lists keys of the index, so their scaled glyphs fit the tiles. */
  lemma SortedCacheFits(index: Dict<string, real>, readable: map<string, Raster>, resize: Resizer, g: Grid)
    requires forall k :: k in Keys(index) ==> k in readable
    requires ResizesTo(resize) && g.tileW >= 1 && g.tileH >= 1
    ensures CacheFits(ScaledGlyphs(Keys(index), readable, resize, g.tileW, g.tileH), SortByScore(index), g)
  {
    ScaledGlyphsShape(Keys(index), readable, resize, g.tileW, g.tileH);
    forall e | e in SortByScore(index)
      ensures e.0 in Keys(index)
    {
      assert e in multiset(SortByScore(index));
      var p :| 0 <= p < |index| && index[p] == e;
    }
  }

  /** `ascii_images_cache` as the preload builds it for the index and the grid. */
  function CacheFor(index: Dict<string, real>, readable: map<string, Raster>, resize: Resizer, g: Grid)
    : (c: map<string, Raster>)
    requires forall k :: k in Keys(index) ==> k in readable
    requires ResizesTo(resize) && g.tileW >= 1 && g.tileH >= 1
    ensures CacheFits(c, SortByScore(index), g)
  {
    SortedCacheFits(index, readable, resize, g);
    ScaledGlyphs(Keys(index), readable, resize, g.tileW, g.tileH)
  }

  /**
    Why `generate_ascii_art` stops, in the order it can stop: reading an index glyph
    fails; `cv2.imread` of the input returns `None`; the grid arithmetic divides by zero,
    or its negative tile sizes reach `cv2.resize` in the preload; `min` of an empty
    sorted index raises in the first tile.
   */
  datatype ArtError = IndexFailed(loadError: IndexError) | ImageUnreadable | GridFailed(gridError: GridError) | EmptyGlyphSet

  /**
    `generate_ascii_art` (lines 30-81) without its file output and plotting. `listing`,
    `readable` and `erode` describe the glyph directory as for the index; `image` is the
    grayscale input, `None` when it cannot be read; the glyph size comes from the sample
    glyph that `get_aspect_ratio_of_ascii_image` reads.
   */
  method GenerateAsciiArt(listing: seq<string>, readable: map<string, Raster>, erode: Raster -> Raster,
                          image: Option<Raster>, n: int, glyphW: nat, glyphH: nat, resize: Resizer)
    returns (r: Result<array2<byte>, ArtError>)
    requires glyphW >= 1 && glyphH >= 1 && ResizesTo(resize)
    ensures (r.Err? && r.error.IndexFailed?) <==> !ImagesReadable(listing, readable)
    ensures r.Err? && r.error.IndexFailed? ==>
              var name := r.error.loadError.name; HasImageExtension(name) && name in listing && name !in readable
    ensures ImagesReadable(listing, readable) && image.None? ==> r == Err(ImageUnreadable)
    ensures ImagesReadable(listing, readable) && image.Some? ==>
              var grid := ComputeGrid(Width(image.value), Height(image.value), n, glyphW, glyphH);
              var index := BrightnessIndex(listing, readable, erode);
              && (grid == Err(DivisionByZero) ==> r == Err(GridFailed(DivisionByZero)))
              && (grid == Err(NegativeTileSize) && index != [] ==> r == Err(GridFailed(NegativeTileSize)))
              && (grid == Err(NegativeTileSize) && index == [] ==> r.Ok?)
              && (grid.Ok? && index == [] ==> r == Err(EmptyGlyphSet))
              && (grid.Ok? && index != [] ==> r.Ok?)
    ensures r.Ok? ==>
              && ImagesReadable(listing, readable)
              && image.Some?
              && fresh(r.value)
              && var img := image.value;
                 var index := BrightnessIndex(listing, readable, erode);
                 var grid := ComputeGrid(Width(img), Height(img), n, glyphW, glyphH);
                 && (grid.Err? ==> Blank(r.value, img))
                 && (grid.Ok? ==> |index| >= 1)
                 && (grid.Ok? && |index| >= 1 ==>
                       Renders(r.value, img, grid.value, SortByScore(index), CacheFor(index, readable, resize, grid.value)))
  {
    var indexed := ComputeAverageBrightness(listing, readable, erode);
    if indexed.Err? {
      return Err(IndexFailed(indexed.error));
    }
    var index := indexed.value;
    var sorted := SortByScore(index);
    if image.None? {
      return Err(ImageUnreadable);
    }
    var img := image.value;
    var grid := ComputeGrid(Width(img), Height(img), n, glyphW, glyphH);
    if grid.Err? {
      if grid.error.DivisionByZero? || |index| >= 1 {
        return Err(GridFailed(grid.error));
      }
      // Negative tile sizes and an empty index: the preload resizes nothing, and the
      // row and column counts are at most 0, so the zero canvas is returned as it is.
      var blank := ZeroCanvas(img);
      return Ok(blank);
    }
    var g := grid.value;
    var cached := PreloadGlyphs(index, readable, resize, g.tileW, g.tileH);
    assert cached.Ok?;
    var cache := cached.value;
    if |sorted| == 0 {
      assert |multiset(sorted)| == |multiset(index)|;
      return Err(EmptyGlyphSet);
    }
    assert |multiset(sorted)| == |multiset(index)|;
    assert cache == CacheFor(index, readable, resize, g);
    var canvas := RenderTiles(img, g, sorted, cache);
    r := Ok(canvas);
  }
}
