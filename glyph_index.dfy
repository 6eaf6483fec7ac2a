/**
  The glyph brightness index: for every glyph file of a directory listing, the mean
  intensity of the eroded glyph raster (or, alternatively, its non-zero coverage),
  collected in an insertion-ordered dict keyed by file name.

  `os.listdir` is the parameter `listing`; `readable` maps exactly the names whose
  `cv2.imread(..., IMREAD_GRAYSCALE)` succeeds to the raster read; `erode` stands for
  `cv2.erode` with the square all-ones kernel and the iteration count fixed by the caller.
 */
module GlyphIndex {
  import opened Wrappers
  import opened Rasters
  import opened Dicts

  predicate EndsWith(s: string, suffix: string) {
    |suffix| <= |s| && s[|s| - |suffix|..] == suffix
  }

  /** `f.endswith('.png') or f.endswith('.jpg')`: case-sensitive. */
  predicate HasImageExtension(name: string)
    ensures HasImageExtension(name) ==> |name| >= 4 && name[|name| - 4] == '.'
  {
    EndsWith(name, ".png") || EndsWith(name, ".jpg")
  }

  /** `[f for f in s if keep(f)]`. */
  function Filter<T(==, !new)>(s: seq<T>, keep: T -> bool): (r: seq<T>)
    ensures |r| <= |s|
    ensures forall x :: x in r <==> x in s && keep(x)
    ensures Distinct(s) ==> Distinct(r)
  {
    if s == [] then []
    else
      var init := Filter(s[..|s| - 1], keep);
      var last := s[|s| - 1];
      assert s == s[..|s| - 1] + [last];
      assert Distinct(s) ==> Distinct(s[..|s| - 1]) && last !in s[..|s| - 1];
      if keep(last) then init + [last] else init
  }

  /** How `Filter` grows by one element. */
  lemma FilterSnoc<T(!new)>(s: seq<T>, x: T, keep: T -> bool)
    ensures Filter(s + [x], keep) == if keep(x) then Filter(s, keep) + [x] else Filter(s, keep)
  {
    assert (s + [x])[..|s|] == s;
  }

  /** `cv2.imread(f) is not None`. */
  function Loadable(readable: map<string, Raster>): string -> bool {
    f => f in readable
  }

  /** The names the current indexer considers. */
  function ImageFiles(listing: seq<string>): seq<string> {
    Filter(listing, HasImageExtension)
  }

  /** Every image file of the listing can be read. */
  predicate ImagesReadable(listing: seq<string>, readable: map<string, Raster>) {
    forall f :: f in ImageFiles(listing) ==> f in readable
  }

  /** `cv2.erode(None, ...)` raises once `imread` has failed on a listed glyph. */
  datatype IndexError = LoadFailed(name: string)

  /** Every entry of `d` is a readable glyph whose value is `measure` of its eroded raster. */
  predicate MeasuredEntries(d: Dict<string, real>, readable: map<string, Raster>,
                            erode: Raster -> Raster, measure: Raster -> real)
  {
    forall i :: 0 <= i < |d| ==> d[i].0 in readable && d[i].1 == measure(erode(readable[d[i].0]))
  }

  /** The dict `{f: measure(erode(load(f))) for f in names}` for distinct readable `names`. */
  function MeasuredIndex(names: seq<string>, readable: map<string, Raster>,
                         erode: Raster -> Raster, measure: Raster -> real): (d: Dict<string, real>)
    requires forall f :: f in names ==> f in readable
    ensures Keys(d) == names
    ensures MeasuredEntries(d, readable, erode, measure)
  {
    seq(|names|, i requires 0 <= i < |names| => (names[i], measure(erode(readable[names[i]]))))
  }

  /** The brightness index of a directory whose listed image files are all readable. */
  function BrightnessIndex(listing: seq<string>, readable: map<string, Raster>,
                           erode: Raster -> Raster): (d: Dict<string, real>)
    requires ImagesReadable(listing, readable)
    ensures Keys(d) == Unique(ImageFiles(listing))
    ensures MeasuredEntries(d, readable, erode, Mean)
    ensures forall i :: 0 <= i < |d| ==> 0.0 <= d[i].1 <= 255.0
  {
    MeasuredIndex(Unique(ImageFiles(listing)), readable, erode, Mean)
  }

  /** A dict is determined by its keys and its measured values. */
  lemma MeasuredIndexUnique(d: Dict<string, real>, names: seq<string>, readable: map<string, Raster>,
                            erode: Raster -> Raster, measure: Raster -> real)
    requires forall f :: f in names ==> f in readable
    requires Keys(d) == names && MeasuredEntries(d, readable, erode, measure)
    ensures d == MeasuredIndex(names, readable, erode, measure)
  {
    var m := MeasuredIndex(names, readable, erode, measure);
    assert |d| == |m|;
    forall i | 0 <= i < |d|
      ensures d[i] == m[i]
    {
      assert d[i].0 == Keys(d)[i] == names[i];
    }
  }

  /**
    One step of the indexing loops: `d[name] = measure(erode(load(name)))` on a dict built
    from the names `done` keeps its keys those of `done + [name]` and every entry measured.
   */
  lemma IndexStep(d: Dict<string, real>, done: seq<string>, readable: map<string, Raster>,
                  erode: Raster -> Raster, measure: Raster -> real, name: string)
    requires Distinct(Keys(d)) && Keys(d) == Unique(done)
    requires MeasuredEntries(d, readable, erode, measure) && name in readable
    ensures var d' := SetItem(d, name, measure(erode(readable[name])));
            && Distinct(Keys(d'))
            && Keys(d') == Unique(done + [name])
            && MeasuredEntries(d', readable, erode, measure)
  {
    UniqueSnoc(done, name);
  }

  /**
    The loop shared by `compute_average_brightness` and `compute_coverage` over the
    filtered names: read, erode and measure each file in turn, with no skip for a file
    that cannot be read (the first such file ends the run).
   */
  method IndexFiles(files: seq<string>, readable: map<string, Raster>,
                    erode: Raster -> Raster, measure: Raster -> real)
    returns (r: Result<Dict<string, real>, IndexError>)
    ensures r.Ok? <==> forall f :: f in files ==> f in readable
    ensures r.Err? ==> r.error.name in files && r.error.name !in readable
    ensures r.Ok? ==> r.value == MeasuredIndex(Unique(files), readable, erode, measure)
  {
    var d: Dict<string, real> := [];
    for idx := 0 to |files|
      invariant Distinct(Keys(d))
      invariant Keys(d) == Unique(files[..idx])
      invariant forall f :: f in files[..idx] ==> f in readable
      invariant MeasuredEntries(d, readable, erode, measure)
    {
      var name := files[idx];
      assert files[..idx + 1] == files[..idx] + [name];
      if name !in readable {
        return Err(LoadFailed(name));
      }
      IndexStep(d, files[..idx], readable, erode, measure, name);
      d := SetItem(d, name, measure(erode(readable[name])));
    }
    assert files[..|files|] == files;
    MeasuredIndexUnique(d, Unique(files), readable, erode, measure);
    r := Ok(d);
  }

  /** Both current indexers: keep the image files of the listing, then index them. */
  method IndexGlyphs(listing: seq<string>, readable: map<string, Raster>,
                     erode: Raster -> Raster, measure: Raster -> real)
    returns (r: Result<Dict<string, real>, IndexError>)
    ensures r.Ok? <==> ImagesReadable(listing, readable)
    ensures r.Err? ==> HasImageExtension(r.error.name) && r.error.name in listing && r.error.name !in readable
    ensures r.Ok? ==> r.value == MeasuredIndex(Unique(ImageFiles(listing)), readable, erode, measure)
  {
    var files := ImageFiles(listing);
    r := IndexFiles(files, readable, erode, measure);
  }

  /** `compute_average_brightness`: values are means of `uint8` rasters. */
  method ComputeAverageBrightness(listing: seq<string>, readable: map<string, Raster>,
                                  erode: Raster -> Raster)
    returns (r: Result<Dict<string, real>, IndexError>)
    ensures r.Ok? <==> ImagesReadable(listing, readable)
    ensures r.Err? ==> HasImageExtension(r.error.name) && r.error.name in listing && r.error.name !in readable
    ensures r.Ok? ==> Keys(r.value) == Unique(ImageFiles(listing))
    ensures r.Ok? ==> MeasuredEntries(r.value, readable, erode, Mean)
    ensures r.Ok? ==> r.value == BrightnessIndex(listing, readable, erode)
    ensures r.Ok? ==> forall i :: 0 <= i < |r.value| ==> 0.0 <= r.value[i].1 <= 255.0
    ensures r.Ok? && Distinct(listing) ==> Keys(r.value) == ImageFiles(listing)
  {
    r := IndexGlyphs(listing, readable, erode, Mean);
  }

  /** `compute_coverage`: values are fractions of non-zero pixels. */
  method ComputeCoverage(listing: seq<string>, readable: map<string, Raster>,
                         erode: Raster -> Raster)
    returns (r: Result<Dict<string, real>, IndexError>)
    ensures r.Ok? <==> ImagesReadable(listing, readable)
    ensures r.Ok? ==> Keys(r.value) == Unique(ImageFiles(listing))
    ensures r.Ok? ==> MeasuredEntries(r.value, readable, erode, Coverage)
    ensures r.Ok? ==> forall i :: 0 <= i < |r.value| ==> 0.0 <= r.value[i].1 <= 1.0
  {
    r := IndexGlyphs(listing, readable, erode, Coverage);
  }

  /**
    The older `compute_average_brightness`: no extension filter, and a file whose read
    fails is skipped; `erode` is the fixed 3x3 kernel applied once.
   */
  method LegacyComputeAverageBrightness(listing: seq<string>, readable: map<string, Raster>,
                                        erode: Raster -> Raster)
    returns (d: Dict<string, real>)
    ensures Keys(d) == Unique(Filter(listing, Loadable(readable)))
    ensures forall f :: f in Keys(d) <==> f in listing && f in readable
    ensures MeasuredEntries(d, readable, erode, Mean)
    ensures forall i :: 0 <= i < |d| ==> 0.0 <= d[i].1 <= 255.0
    ensures Distinct(listing) ==> Keys(d) == Filter(listing, Loadable(readable))
  {
    d := [];
    for idx := 0 to |listing|
      invariant Distinct(Keys(d))
      invariant Keys(d) == Unique(Filter(listing[..idx], Loadable(readable)))
      invariant MeasuredEntries(d, readable, erode, Mean)
    {
      var name := listing[idx];
      assert listing[..idx + 1] == listing[..idx] + [name];
      FilterSnoc(listing[..idx], name, Loadable(readable));
      var kept := Filter(listing[..idx], Loadable(readable));
      if name !in readable {
        continue;
      }
      IndexStep(d, kept, readable, erode, Mean, name);
      d := SetItem(d, name, Mean(erode(readable[name])));
    }
    assert listing[..|listing|] == listing;
  }
}
