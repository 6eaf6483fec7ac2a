/**
  Grayscale 8-bit rasters (NumPy `uint8` arrays of shape height x width) and the two
  statistics the glyph index takes of them: the mean intensity (`np.mean`) and the
  fraction of non-zero pixels (`np.count_nonzero(a) / a.size`). Means are exact reals.
 */
module Rasters {

  /** One `uint8` pixel. */
  type byte = x: int | 0 <= x < 256

  /** Every row has the same length and the raster is not empty. */
  predicate Rectangular(r: seq<seq<byte>>) {
    |r| >= 1 && |r[0]| >= 1 && forall y :: 0 <= y < |r| ==> |r[y]| == |r[0]|
  }

  /** What `cv2.imread(..., IMREAD_GRAYSCALE)` returns when it succeeds. */
  type Raster = r: seq<seq<byte>> | Rectangular(r) witness [[0]]

  function Height(r: Raster): (h: nat)
    ensures h >= 1
  {
    |r|
  }

  function Width(r: Raster): (w: nat)
    ensures w >= 1
    ensures forall y :: 0 <= y < |r| ==> |r[y]| == w
  {
    |r[0]|
  }

  /** `r` has exactly `h` rows of exactly `w` pixels. */
  predicate HasShape(r: Raster, h: nat, w: nat) {
    Height(r) == h && Width(r) == w
  }

  /** The sub-rectangle rows [sy, ey) x columns [sx, ex) lies inside `img`. */
  predicate InBounds(img: seq<seq<byte>>, sy: nat, ey: nat, sx: nat, ex: nat) {
    sy <= ey <= |img| && sx <= ex && forall y :: sy <= y < ey ==> ex <= |img[y]|
  }

  /** Sum of `row[lo..hi]`. */
  function RowSum(row: seq<byte>, lo: nat, hi: nat): (s: nat)
    requires lo <= hi <= |row|
    ensures s <= 255 * (hi - lo)
    decreases hi - lo
  {
    if lo == hi then 0 else RowSum(row, lo, hi - 1) + row[hi - 1]
  }

  /** Sum of the pixels of rows [sy, ey) x columns [sx, ex). */
  function RectSum(img: seq<seq<byte>>, sy: nat, ey: nat, sx: nat, ex: nat): (s: nat)
    requires InBounds(img, sy, ey, sx, ex)
    ensures s <= 255 * ((ey - sy) * (ex - sx))
    decreases ey - sy
  {
    if sy == ey then 0
    else
      var rest := RectSum(img, sy, ey - 1, sx, ex);
      assert (ey - sy) * (ex - sx) == (ey - 1 - sy) * (ex - sx) + (ex - sx);
      rest + RowSum(img[ey - 1], sx, ex)
  }

  /** `np.mean` of the (non-empty) sub-rectangle, as an exact real. */
  function RectMean(img: seq<seq<byte>>, sy: nat, ey: nat, sx: nat, ex: nat): (m: real)
    requires InBounds(img, sy, ey, sx, ex) && sy < ey && sx < ex
    ensures 0.0 <= m <= 255.0
  {
    var count := (ey - sy) * (ex - sx);
    var s := RectSum(img, sy, ey, sx, ex);
    QuotientBound(s, count, 255);
    s as real / count as real
  }

  /** `np.mean` of a whole raster. */
  function Mean(r: Raster): (m: real)
    ensures 0.0 <= m <= 255.0
  {
    RectMean(r, 0, Height(r), 0, Width(r))
  }

  /** Number of non-zero pixels of `row[lo..hi]`. */
  function RowNonZero(row: seq<byte>, lo: nat, hi: nat): (c: nat)
    requires lo <= hi <= |row|
    ensures c <= hi - lo
    decreases hi - lo
  {
    if lo == hi then 0 else RowNonZero(row, lo, hi - 1) + (if row[hi - 1] != 0 then 1 else 0)
  }

  /** `np.count_nonzero` of a whole raster. */
  function NonZeroCount(r: Raster): (c: nat)
    ensures c <= Height(r) * Width(r)
  {
    RowsNonZero(r, |r|)
  }

  function RowsNonZero(r: Raster, rows: nat): (c: nat)
    requires rows <= |r|
    ensures c <= rows * Width(r)
  {
    if rows == 0 then 0
    else
      assert rows * Width(r) == (rows - 1) * Width(r) + Width(r);
      RowsNonZero(r, rows - 1) + RowNonZero(r[rows - 1], 0, Width(r))
  }

  /** `np.count_nonzero(a) / a.size`. */
  function Coverage(r: Raster): (c: real)
    ensures 0.0 <= c <= 1.0
  {
    var size := Height(r) * Width(r);
    QuotientBound(NonZeroCount(r), size, 1);
    NonZeroCount(r) as real / size as real
  }

  /** A sum of `count` values, each at most `bound`, has a mean of at most `bound`. */
  lemma QuotientBound(s: nat, count: nat, bound: nat)
    requires count >= 1 && s <= bound * count
    ensures 0.0 <= s as real / count as real <= bound as real
  {
    var q := s as real / count as real;
    assert q * count as real == s as real;
    assert s as real <= bound as real * count as real;
  }
}
