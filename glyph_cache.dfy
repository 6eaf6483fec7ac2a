/**
  `preload_ascii_images`: every glyph named in the brightness index is read again and
  scaled once to the tile size, so that the tile loop only looks glyphs up.

  `cv2.resize(img, (w, h))` is the parameter `resize`; all the model relies on is the
  library's promise that its result has `h` rows of `w` pixels (`ResizesTo`).
 */
module GlyphCache {
  import opened Wrappers
  import opened Rasters
  import opened Dicts
  import opened GlyphIndex

  /** `cv2.resize(glyph, (width, height))`. */
  type Resizer = (Raster, nat, nat) -> Raster

  /** The shape promise of `cv2.resize` for a non-empty target size. */
  ghost predicate ResizesTo(resize: Resizer) {
    forall g: Raster, w: nat, h: nat :: w >= 1 && h >= 1 ==> HasShape(resize(g, w, h), h, w)
  }

  /** The cache the loop builds for the readable glyphs `names`. */
  function ScaledGlyphs(names: seq<string>, readable: map<string, Raster>, resize: Resizer,
                        tileW: nat, tileH: nat): (c: map<string, Raster>)
    requires forall k :: k in names ==> k in readable
    ensures forall k :: k in c <==> k in names
  {
    map k | k in names :: resize(readable[k], tileW, tileH)
  }

  /**
    The cache has exactly the given keys, and each of them holds its own glyph scaled to
    `tileH` rows of `tileW` pixels.
   */
  lemma ScaledGlyphsShape(names: seq<string>, readable: map<string, Raster>, resize: Resizer,
                          tileW: nat, tileH: nat)
    requires forall k :: k in names ==> k in readable
    requires ResizesTo(resize) && tileW >= 1 && tileH >= 1
    ensures var c := ScaledGlyphs(names, readable, resize, tileW, tileH);
            && (forall k :: k in c <==> k in names)
            && (forall k :: k in c ==> HasShape(c[k], tileH, tileW) && c[k] == resize(readable[k], tileW, tileH))
  {
  }

  /** One more glyph stored by the loop. */
  lemma ScaledGlyphsSnoc(names: seq<string>, name: string, readable: map<string, Raster>,
                         resize: Resizer, tileW: nat, tileH: nat)
    requires forall k :: k in names ==> k in readable
    requires name in readable
    ensures ScaledGlyphs(names + [name], readable, resize, tileW, tileH)
            == ScaledGlyphs(names, readable, resize, tileW, tileH)[name := resize(readable[name], tileW, tileH)]
  {
  }

  /**
    `preload_ascii_images`: for each key of the index in insertion order, read the glyph
    and store its scaled copy. Scaling the `None` of a failed read raises, which ends the
    preload with that name.
   */
  method PreloadGlyphs(index: Dict<string, real>, readable: map<string, Raster>, resize: Resizer,
                       tileW: nat, tileH: nat)
    returns (r: Result<map<string, Raster>, IndexError>)
    ensures r.Ok? <==> forall k :: k in Keys(index) ==> k in readable
    ensures r.Err? ==> r.error.name in Keys(index) && r.error.name !in readable
    ensures r.Ok? ==> r.value == ScaledGlyphs(Keys(index), readable, resize, tileW, tileH)
  {
    var names := Keys(index);
    var cache: map<string, Raster> := map[];
    for idx := 0 to |index|
      invariant forall k :: k in names[..idx] ==> k in readable
      invariant cache == ScaledGlyphs(names[..idx], readable, resize, tileW, tileH)
    {
      var name := index[idx].0;
      assert names[..idx + 1] == names[..idx] + [name];
      if name !in readable {
        return Err(LoadFailed(name));
      }
      ScaledGlyphsSnoc(names[..idx], name, readable, resize, tileW, tileH);
      cache := cache[name := resize(readable[name], tileW, tileH)];
    }
    assert names[..|index|] == names;
    r := Ok(cache);
  }
}
