/**
  The tile grid of `generate_ascii_art`: tile width `width // n`, tile height the
  truncation of `tile_width / aspect_ratio` (aspect ratio = glyph width / glyph height),
  and ceiling-divided row and column counts, so that ragged tiles at the right and
  bottom edges are kept. Rows and columns obey the same one-dimensional rule, stated once
  on "spans" of `size` pixels cut from an `extent`.
 */
module TileGrid {
  import opened Wrappers
  import opened PyArith

  datatype Grid = Grid(tileW: nat, tileH: nat, rows: nat, cols: nat)

  /**
    `DivisionByZero`: `width // 0`, or `height / 0` when the tile height truncates to 0.
    `NegativeTileSize`: a negative column count leaves both tile sizes negative. The
    ceilings of lines 47-48 are then at most 0, so neither tile loop runs, but
    `cv2.resize` rejects the negative size as soon as one glyph is pre-scaled.
   */
  datatype GridError = DivisionByZero | NegativeTileSize

  /** `ascii_aspect_ratio = ascii_image_width / ascii_image_height`. */
  function AspectRatio(glyphW: nat, glyphH: nat): real
    requires glyphW >= 1 && glyphH >= 1
  {
    glyphW as real / glyphH as real
  }

  /**
    `int(size_sub_image_width / ascii_aspect_ratio)`: the integer quotient of
    `tileW * glyphH` by `glyphW`, truncated toward zero for either sign.
   */
  function TileHeight(tileW: int, glyphW: nat, glyphH: nat): (h: int)
    requires glyphW >= 1 && glyphH >= 1
    ensures tileW >= 0 ==> h == tileW * glyphH / glyphW
    ensures tileW < 0 ==> h == -((-tileW) * glyphH / glyphW)
  {
    var x := tileW as real / AspectRatio(glyphW, glyphH);
    assert x == (tileW * glyphH) as real / glyphW as real;
    if tileW >= 0 then
      TruncQuotient(tileW * glyphH, glyphW);
      Trunc(x)
    else
      assert -x == ((-tileW) * glyphH) as real / glyphW as real;
      TruncQuotient((-tileW) * glyphH, glyphW);
      Trunc(x)
  }

  /** A grid whose counts are the ceiling quotients of the image by non-empty tiles. */
  predicate ValidGrid(g: Grid, width: nat, height: nat) {
    && g.tileW >= 1 && g.tileH >= 1
    && g.rows == CeilDiv(height, g.tileH)
    && g.cols == CeilDiv(width, g.tileW)
  }

  /**
    Lines 45-48 of the image generator: the grid, a division by zero, or the negative
    tile sizes of a negative column count.
   */
  function ComputeGrid(width: nat, height: nat, n: int, glyphW: nat, glyphH: nat): (r: Result<Grid, GridError>)
    requires glyphW >= 1 && glyphH >= 1
    ensures r.Ok? <==> n >= 1 && width / n >= 1 && (width / n) * glyphH / glyphW >= 1
    ensures r.Ok? ==> r.value.tileW == width / n && r.value.tileH == (width / n) * glyphH / glyphW
    ensures r.Ok? ==> ValidGrid(r.value, width, height)
    ensures r.Ok? ==> r.value.rows * r.value.tileH >= height > (r.value.rows - 1) * r.value.tileH
    ensures r.Ok? ==> r.value.cols * r.value.tileW >= width > (r.value.cols - 1) * r.value.tileW
    ensures r.Ok? ==> r.value.cols >= n
    ensures r == Err(DivisionByZero) <==> n == 0 || TileHeight(FloorDiv(width, n), glyphW, glyphH) == 0
    ensures n == 0 || (n >= 1 && width / n == 0) ==> r == Err(DivisionByZero)
    ensures r == Err(NegativeTileSize) <==> n < 0 && (-FloorDiv(width, n)) * glyphH >= glyphW
    ensures r == Err(NegativeTileSize) ==> FloorDiv(width, n) < 0 && TileHeight(FloorDiv(width, n), glyphW, glyphH) < 0
  {
    if n == 0 then Err(DivisionByZero)
    else
      var tw := FloorDiv(width, n);
      var th := TileHeight(tw, glyphW, glyphH);
      TileSizes(width, n, glyphW, glyphH);
      if th == 0 then Err(DivisionByZero)
      else if th < 0 then Err(NegativeTileSize)
      else
        ColumnCount(width, n);
        Ok(Grid(tw, th, CeilDiv(height, th), CeilDiv(width, tw)))
  }

  /** The tile sizes the float expressions produce, as integer quotients. */
  lemma TileSizes(width: nat, n: int, glyphW: nat, glyphH: nat)
    requires n != 0 && glyphW >= 1 && glyphH >= 1
    ensures n >= 1 ==> FloorDiv(width, n) == width / n
    ensures n < 0 ==> FloorDiv(width, n) <= 0
    ensures FloorDiv(width, n) <= 0 ==> TileHeight(FloorDiv(width, n), glyphW, glyphH) <= 0
  {
    if n >= 1 {
      TruncQuotient(width, n);
    }
  }

  // ---- one dimension: spans of `size` pixels cut from [0, extent) ----

  /** `start_y = i * size_sub_image_height` (and the same for x). */
  function SpanStart(k: nat, size: nat): (s: nat)
    ensures size >= 1 ==> s / size == k
  {
    if size >= 1 then
      assert (k + 1) * size == k * size + size;
      DivUnique(k * size, size, k);
      k * size
    else k * size
  }

  /** `end_y = min((i + 1) * size_sub_image_height, height)` (and the same for x). */
  function SpanEnd(k: nat, size: nat, extent: nat): (e: nat)
    ensures e <= extent && e <= (k + 1) * size
    ensures e == extent || e == (k + 1) * size
  {
    if (k + 1) * size < extent then (k + 1) * size else extent
  }

  /** Every span the loop visits is a non-empty part of the image. */
  lemma SpanWithin(k: nat, size: nat, extent: nat)
    requires size >= 1 && k < CeilDiv(extent, size)
    ensures 0 <= SpanStart(k, size) < SpanEnd(k, size, extent) <= extent
  {
    MulMono(k, CeilDiv(extent, size) - 1, size);
    assert (k + 1) * size == k * size + size;
  }

  /** Pixel `p` lies in span `p / size`, which the loop visits. */
  lemma SpanOf(p: nat, size: nat, extent: nat)
    requires size >= 1 && p < extent
    ensures p / size < CeilDiv(extent, size)
    ensures SpanStart(p / size, size) <= p < SpanEnd(p / size, size, extent)
  {
    DivMod(p, size);
    assert (p / size + 1) * size == (p / size) * size + size;
    if p / size >= CeilDiv(extent, size) {
      MulMono(CeilDiv(extent, size), p / size, size);
    }
  }

  /** No other span contains `p`: the spans are pairwise disjoint. */
  lemma SpanUnique(k: nat, p: nat, size: nat, extent: nat)
    requires size >= 1 && SpanStart(k, size) <= p < SpanEnd(k, size, extent)
    ensures k == p / size
  {
    DivUnique(p, size, k);
  }

  /** Every span but the last is full; the last one is what is left, at most a full span. */
  lemma LastSpan(k: nat, size: nat, extent: nat)
    requires size >= 1 && k < CeilDiv(extent, size)
    ensures k < CeilDiv(extent, size) - 1 ==> SpanEnd(k, size, extent) - SpanStart(k, size) == size
    ensures k == CeilDiv(extent, size) - 1 ==>
              && SpanEnd(k, size, extent) == extent
              && SpanEnd(k, size, extent) - SpanStart(k, size) == extent - k * size
              && 1 <= extent - k * size <= size
  {
    var count := CeilDiv(extent, size);
    assert (k + 1) * size == k * size + size;
    if k < count - 1 {
      MulMono(k + 1, count - 1, size);
    } else {
      SpanWithin(k, size, extent);
    }
  }

  // ---- two dimensions ----

  /** Pixel (y, x) lies in the tile of row `i` and column `j`. */
  predicate InTile(g: Grid, width: nat, height: nat, i: nat, j: nat, y: nat, x: nat) {
    && SpanStart(i, g.tileH) <= y < SpanEnd(i, g.tileH, height)
    && SpanStart(j, g.tileW) <= x < SpanEnd(j, g.tileW, width)
  }

  /** Every pixel of the image lies in exactly one visited tile: row `y / tileH`, column `x / tileW`. */
  lemma {:induction false} PixelInOneTile(g: Grid, width: nat, height: nat, y: nat, x: nat)
    requires ValidGrid(g, width, height) && y < height && x < width
    ensures y / g.tileH < g.rows && x / g.tileW < g.cols
    ensures InTile(g, width, height, y / g.tileH, x / g.tileW, y, x)
    ensures forall i: nat, j: nat :: InTile(g, width, height, i, j, y, x) ==> i == y / g.tileH && j == x / g.tileW
  {
    SpanOf(y, g.tileH, height);
    SpanOf(x, g.tileW, width);
    forall i: nat, j: nat | InTile(g, width, height, i, j, y, x)
      ensures i == y / g.tileH && j == x / g.tileW
    {
      SpanUnique(i, y, g.tileH, height);
      SpanUnique(j, x, g.tileW, width);
    }
  }

  /** Every visited tile is a non-empty rectangle inside the image. */
  lemma TileWithin(g: Grid, width: nat, height: nat, i: nat, j: nat)
    requires ValidGrid(g, width, height) && i < g.rows && j < g.cols
    ensures 0 <= SpanStart(i, g.tileH) < SpanEnd(i, g.tileH, height) <= height
    ensures 0 <= SpanStart(j, g.tileW) < SpanEnd(j, g.tileW, width) <= width
  {
    SpanWithin(i, g.tileH, height);
    SpanWithin(j, g.tileW, width);
  }

  /** Two different tiles share no pixel. */
  lemma {:induction false} TilesDisjoint(g: Grid, width: nat, height: nat, i: nat, j: nat, i': nat, j': nat, y: nat, x: nat)
    requires ValidGrid(g, width, height) && (i, j) != (i', j')
    ensures !(InTile(g, width, height, i, j, y, x) && InTile(g, width, height, i', j', y, x))
  {
    if InTile(g, width, height, i, j, y, x) && InTile(g, width, height, i', j', y, x) {
      SpanUnique(i, y, g.tileH, height);
      SpanUnique(i', y, g.tileH, height);
      SpanUnique(j, x, g.tileW, width);
      SpanUnique(j', x, g.tileW, width);
    }
  }

  // ---- the column count ----

  lemma DivAddMultiple(k: nat, m: nat, b: nat)
    requires b >= 1
    ensures (k * b + m) / b == k + m / b
  {
    DivMod(m, b);
    assert (k + m / b) * b == k * b + (m / b) * b;
    assert (k + m / b + 1) * b == k * b + (m / b) * b + b;
    DivUnique(k * b + m, b, k + m / b);
  }

  /**
    `col_count = n + ceil((width mod n) / tile_w)`: the ceiling never drops a partial column,
    so there are at least `n` columns.
   */
  lemma ColumnCount(width: nat, n: nat)
    requires n >= 1 && width / n >= 1
    ensures CeilDiv(width, width / n) == n + CeilDiv(width % n, width / n)
    ensures CeilDiv(width, width / n) >= n
  {
    var tw := width / n;
    DivMod(width, n);
    assert width + tw - 1 == n * tw + (width % n + tw - 1);
    DivAddMultiple(n, width % n + tw - 1, tw);
  }

  /**
    The source's remark that the realised column count "might be 1 more" than `n` holds
    exactly when the remainder `width mod n` fits into one tile; otherwise it exceeds `n`
    by more than one.
   */
  lemma ColumnsAtMostOneExtra(width: nat, n: nat)
    requires n >= 1 && width / n >= 1
    ensures CeilDiv(width, width / n) <= n + 1 <==> width % n <= width / n
  {
    ColumnCount(width, n);
    var tw := width / n;
    var rem := width % n;
    if rem <= tw {
      DivUnique(rem + tw - 1, tw, if rem == 0 then 0 else 1);
    } else {
      DivMod(rem + tw - 1, tw);
      if (rem + tw - 1) / tw <= 1 {
        MulMono((rem + tw - 1) / tw, 1, tw);
      }
    }
  }

  /**
    A negative column count: 10 pixels cut for -1 columns with glyphs twice as high as
    wide give tiles of -10 x -20 pixels.
   */
  lemma NegativeColumnsExample()
    ensures ComputeGrid(10, 5, -1, 1, 2) == Err(NegativeTileSize)
    ensures FloorDiv(10, -1) == -10 && TileHeight(-10, 1, 2) == -20
  {
    assert FloorDiv(10, -1) == -10;
  }

  /** 11 pixels cut for 4 columns: tiles of 2 pixels and 6 columns, two more than asked for. */
  lemma ColumnOvershootExample()
    ensures var r := ComputeGrid(11, 5, 4, 1, 1); r.Ok? && r.value.tileW == 2 && r.value.cols == 6
  {
  }
}
