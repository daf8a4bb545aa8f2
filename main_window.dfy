/**
 * The session logic of the viewer's main window, without its widgets:
 * the one-slot cache of the rendered preview, the colour count shown in the
 * information panel, the rate-limited wheel zoom, the filter offered when
 * importing, and the export flow from the chosen filter to the write call.
 *
 * What the user picks in a file dialog, what the codec library reads, the
 * time of a wheel event and the scale Qt chooses to fit the preview are
 * parameters.
 */
module MainWindow {
  import opened Wrappers
  import opened Text
  import opened Pattern
  import opened Raster
  import opened Geometry
  import opened RenderEngine
  import FileHandler
  import ExportNames

  // ------------------------------------------------------------ cache key

  /** What `get_pattern_hash` digests: stitch count, reported bounds, thread count. */
  datatype CacheKey = CacheKey(stitchCount: nat, bounds: Extent, threadCount: nat)

  /**
   * The key of a pattern; `None` when the digest cannot be computed because
   * the pattern reports no bounds. The digest itself is taken to be
   * injective on the text it hashes.
   */
  function PatternKey(p: Pattern): (r: Option<CacheKey>)
    ensures r.None? <==> p.bounds.None?
  {
    match p.bounds
    case Some(b) => Some(CacheKey(|p.stitches|, b, |p.threads|))
    case None => None
  }

  /** Two patterns share a present key exactly when they agree on the three digested attributes. */
  lemma {:induction false} PatternKeysAgree(p: Pattern, q: Pattern)
    ensures (PatternKey(p).Some? && PatternKey(p) == PatternKey(q))
      <==> (p.bounds.Some? && p.bounds == q.bounds && |p.stitches| == |q.stitches| && |p.threads| == |q.threads|)
  {
  }

  /** Moving stitches or recolouring threads, without changing the counts or bounds, keeps the key. */
  lemma {:induction false} PatternKeyIgnoresContents(p: Pattern, stitches: seq<StitchCommand>, threads: seq<Thread>)
    requires |stitches| == |p.stitches| && |threads| == |p.threads|
    ensures PatternKey(Pattern(stitches, threads, p.bounds)) == PatternKey(p)
  {
  }

  // --------------------------------------------------------- colour count

  /** The stitch records whose command is exactly `COLOR_CHANGE`. */
  function ColorChangeIndices(s: seq<StitchCommand>): set<int> {
    set i | 0 <= i < |s| && s[i].command == ColorChange
  }

  /** `sum(1 for s in stitches if s[2] == COLOR_CHANGE)`. */
  function ColorChanges(s: seq<StitchCommand>): (r: nat)
    ensures r <= |s|
  {
    if |s| == 0 then 0
    else ColorChanges(s[..|s| - 1]) + (if s[|s| - 1].command == ColorChange then 1 else 0)
  }

  lemma {:induction false} ColorChangesCountsIndices(s: seq<StitchCommand>)
    ensures ColorChanges(s) == |ColorChangeIndices(s)|
  {
    if |s| > 0 {
      var n := |s| - 1;
      ColorChangesCountsIndices(s[..n]);
      assert ColorChangeIndices(s) == ColorChangeIndices(s[..n]) + (if s[n].command == ColorChange then {n} else {});
    }
  }

  lemma {:induction false} ColorChangesAppend(a: seq<StitchCommand>, b: seq<StitchCommand>)
    ensures ColorChanges(a + b) == ColorChanges(a) + ColorChanges(b)
    decreases |b|
  {
    if |b| == 0 {
      assert a + b == a;
    } else {
      assert (a + b)[..|a + b| - 1] == a + b[..|b| - 1];
      ColorChangesAppend(a, b[..|b| - 1]);
    }
  }

  /**
   * The colour count of the information panel: the palette size when there
   * is a palette, otherwise 0 for no stitches and one more than the number
   * of colour changes for some.
   */
  function ColorCount(p: Pattern): (r: nat)
    ensures |p.threads| > 0 ==> r == |p.threads|
    ensures |p.threads| == 0 ==> (r == 0 <==> |p.stitches| == 0)
    ensures |p.threads| == 0 && |p.stitches| > 0 ==> r == |ColorChangeIndices(p.stitches)| + 1
  {
    ColorChangesCountsIndices(p.stitches);
    if |p.threads| > 0 then |p.threads|
    else if |p.stitches| == 0 then 0
    else ColorChanges(p.stitches) + 1
  }

  /** Without a palette, appending stitches never lowers the count. */
  lemma {:induction false} ColorCountGrows(s: seq<StitchCommand>, more: seq<StitchCommand>, b: Option<Extent>)
    requires |s| > 0
    ensures ColorCount(Pattern(s + more, [], b)) == ColorCount(Pattern(s, [], b)) + ColorChanges(more)
  {
    ColorChangesAppend(s, more);
    ColorChangesCountsIndices(s);
    ColorChangesCountsIndices(s + more);
  }

  // ------------------------------------------------------------ zoom gate

  /** Wheel events closer together than this many milliseconds are dropped. */
  const ZoomIntervalMs: int := 50
  const MinZoomScale: real := 0.05
  const MaxZoomScale: real := 20.0
  const ZoomInFactor: real := 1.15
  const ZoomOutFactor: real := 1.0 / ZoomInFactor

  /** Zoom in for a wheel turned away from the user, out otherwise. */
  function ZoomFactor(angleDeltaY: int): (f: real)
    ensures f > 0.0
    ensures f > 1.0 <==> angleDeltaY > 0
  {
    if angleDeltaY > 0 then ZoomInFactor else ZoomOutFactor
  }

  /** The event comes less than the interval after the last recorded one. */
  predicate Throttled(last: Option<int>, now: int) {
    last.Some? && now - last.value < ZoomIntervalMs
  }

  predicate InZoomRange(s: real) {
    MinZoomScale <= s <= MaxZoomScale
  }

  /** The view scale after one accepted wheel event: multiplied when that stays in range, kept otherwise. */
  function Zoomed(current: real, f: real): (r: real)
    ensures InZoomRange(r) || r == current
    ensures InZoomRange(current) ==> InZoomRange(r)
    ensures r != current ==> r == current * f
    ensures InZoomRange(current * f) ==> r == current * f
    ensures !InZoomRange(current * f) ==> r == current
  {
    var next := current * f;
    if next < MinZoomScale || next > MaxZoomScale then current else next
  }

  /** One step in and one step out return to the starting scale. */
  lemma {:induction false} ZoomInThenOut(c: real)
    requires InZoomRange(c) && InZoomRange(c * ZoomInFactor)
    ensures Zoomed(Zoomed(c, ZoomInFactor), ZoomOutFactor) == c
  {
    assert (c * ZoomInFactor) * ZoomOutFactor == c * (ZoomInFactor * ZoomOutFactor);
  }

  /** At the top of the range a further zoom in is refused. */
  lemma {:induction false} ZoomInRefusedAtMaximum()
    ensures Zoomed(MaxZoomScale, ZoomInFactor) == MaxZoomScale
    ensures Zoomed(MinZoomScale, ZoomOutFactor) == MinZoomScale
  {
  }

  // ------------------------------------------------------ import filter

  /** `['*.' + ext.lower() for ext in exts]`. */
  function LowerGlobs(exts: seq<string>): (r: seq<string>)
    ensures |r| == |exts|
    ensures forall i :: 0 <= i < |exts| ==> r[i] == FileHandler.Glob(Lower(exts[i]))
  {
    seq(|exts|, i requires 0 <= i < |exts| => FileHandler.Glob(Lower(exts[i])))
  }

  /** The read list only holds lower-cased extensions. */
  lemma {:induction false} ReadListLowered(fs: seq<FileHandler.FormatInfo>, e: string)
    requires e in FileHandler.ReadExtensionList(fs)
    ensures Lower(e) == e
  {
    FileHandler.ReadListSound(fs, |fs|, e);
    var d :| e in FileHandler.ExtensionsFor(fs, |fs|, d);
    FileHandler.ExtensionsForMeaning(fs, |fs|, d, e);
    var i :| 0 <= i < |fs| && FileHandler.Contributes(fs[i]) && FileHandler.ReadDescription(fs[i]) == d
      && e in FileHandler.ValidExtensionsOf(fs[i]);
    FileHandler.ValidExtensionsMeaning(FileHandler.ExtensionList(fs[i].extension), e);
    var x :| x in FileHandler.ExtensionList(fs[i].extension) && NonBlank(x) && e == Lower(x);
    LowerIdempotent(x);
  }

  /** Sorting the extensions and then adding `*.` orders the patterns as sorting them does. */
  lemma {:induction false} GlobsAgree(fs: seq<FileHandler.FormatInfo>, unique: seq<string>)
    requires Sorted(unique)
    requires forall e :: e in unique <==> e in FileHandler.ReadExtensionList(fs)
    ensures LowerGlobs(unique) == FileHandler.FilterPatterns(FileHandler.ReadExtensionList(fs))
  {
    var all := FileHandler.ReadExtensionList(fs);
    var g := LowerGlobs(unique);
    var p := FileHandler.FilterPatterns(all);
    forall i | 0 <= i < |unique| ensures g[i] == FileHandler.Glob(unique[i]) {
      ReadListLowered(fs, unique[i]);
    }
    forall i, j | 0 <= i < j < |g| ensures Less(g[i], g[j]) {
      LessPrefix("*.", unique[i], unique[j]);
    }
    forall x | x in g ensures x in p {
      var i :| 0 <= i < |g| && g[i] == x;
      assert unique[i] in all;
    }
    forall x | x in p ensures x in g {
      var e :| e in all && x == FileHandler.Glob(e);
      var i :| 0 <= i < |unique| && unique[i] == e;
      assert g[i] == x;
    }
    assert Elems(g) == Elems(p);
    SortedUnique(g, p);
  }

  /**
   * The filter `import_file` offers: gathered from the values of the
   * description dictionary, made unique and sorted, each as `*.ext`.
   * It is the filter the file handler builds itself.
   */
  method ImportDialogFilter(formats: seq<FileHandler.FormatInfo>) returns (r: string)
    ensures r == FileHandler.ReadFilterString(FileHandler.ReadExtensionList(formats))
  {
    var res := FileHandler.GetSupportedReadFormats(formats, true);
    var d := res.formats;
    var all: seq<string> := [];
    var rest := d.Keys;
    while rest != {}
      invariant rest <= d.Keys
      invariant forall e :: e in all <==> exists k :: k in d && k !in rest && e in d[k]
      decreases |rest|
    {
      var k :| k in rest;
      all := all + d[k];
      rest := rest - {k};
    }
    var unique := SortedDistinct(all);
    if |unique| == 0 {
      r := FileHandler.AllFilesFilter;
    } else {
      r := FileHandler.AllSupportedPrefix + Join(" ", LowerGlobs(unique)) + ");;" + FileHandler.AllFilesFilter;
    }
    var list := FileHandler.ReadExtensionList(formats);
    assert forall e :: e in all <==> exists k :: k in d && e in d[k];
    forall e | e in unique ensures e in list {
      assert e in Elems(unique);
      assert e in Elems(all);
      var k :| k in d && e in d[k];
      assert e in Elems(d[k]);
      assert e in FileHandler.ExtensionsFor(formats, |formats|, k);
      FileHandler.ReadListMatchesDict(formats, e);
    }
    forall e | e in list ensures e in unique {
      FileHandler.ReadListMatchesDict(formats, e);
      var k :| e in FileHandler.ExtensionsFor(formats, |formats|, k);
      FileHandler.ExtensionsForDescribed(formats, |formats|, k);
      assert k in d;
      assert e in Elems(d[k]);
      assert e in d[k];
      assert e in all;
      assert e in Elems(all);
      assert e in Elems(unique);
    }
    GlobsAgree(formats, unique);
    if |unique| > 0 {
      assert unique[0] in list;
    }
  }

  // ----------------------------------------------------------- paths

  /** `os.path.basename`: what follows the last separator. */
  function Basename(path: string): string {
    path[ExportNames.SepIndex(path) + 1..]
  }

  /** The base name is the part of `path` after its last separator, and holds no separator itself. */
  lemma {:induction false} BasenameMeaning(path: string)
    ensures var r := Basename(path);
      && |r| <= |path| && r == path[|path| - |r|..]
      && (|r| < |path| ==> ExportNames.IsSep(path[|path| - |r| - 1]))
      && (forall i :: 0 <= i < |r| ==> !ExportNames.IsSep(r[i]))
  {
    var s := ExportNames.SepIndex(path);
    var r := path[s + 1..];
    forall i | 0 <= i < |r| ensures !ExportNames.IsSep(r[i]) {
      assert r[i] == path[s + 1 + i];
    }
  }

  /** `os.path.splitext(os.path.basename(path))[0]`: the stem remembered for exports. */
  function FileStem(path: string): string {
    ExportNames.SplitExt(Basename(path)).0
  }

  /**
   * The stem is a prefix of the base name without separators, and is the
   * whole base name unless that has an extension.
   */
  lemma {:induction false} FileStemMeaning(path: string)
    ensures var r := FileStem(path);
      && r <= Basename(path)
      && (forall i :: 0 <= i < |r| ==> !ExportNames.IsSep(r[i]))
      && (r == Basename(path) || ExportNames.SplitExt(Basename(path)).1 != "")
  {
    BasenameMeaning(path);
    var b := Basename(path);
    ExportNames.SplitExtMeaning(b);
    var split := ExportNames.SplitExt(b);
    forall i | 0 <= i < |split.0| ensures !ExportNames.IsSep(split.0[i]) {
      assert split.0[i] == b[i];
    }
  }

  // ----------------------------------------------------------- export

  datatype ExportOutcome =
    | NoPattern
    | NoFormats
    | Cancelled
    | UnknownFormat
    /** The path written to, the target extension, and whether the write succeeded. */
    | Exported(path: string, target: string, written: bool)

  /** A rendered image that can be shown and cached. */
  predicate Displayable(img: Option<Image>) {
    img.Some? && !img.value.IsNull()
  }

  /**
   * The outcome of `export_file` for the loaded pattern `p`, once the save
   * dialog returned `dialog` (the chosen path and the chosen filter, `None`
   * when cancelled); `write` stands for the codec library's writer, true
   * when it does not raise.
   */
  function ExportResult(p: Option<Pattern>, formats: seq<FileHandler.FormatInfo>,
                        dialog: Option<(string, string)>, write: (Pattern, string) -> bool): ExportOutcome
    requires forall i :: 0 <= i < |formats| ==> formats[i].extension.Single?
  {
    if p.None? then NoPattern
    else
      var m := FileHandler.WriteTable(formats, |formats|);
      if |m| == 0 then NoFormats
      else if dialog.None? || dialog.value.0 == "" then Cancelled
      else ExportChosen(p.value, formats, m, dialog.value.0, dialog.value.1, write)
  }

  /** The outcome once a path and a filter were chosen and the write table `m` is not empty. */
  function ExportChosen(p: Pattern, formats: seq<FileHandler.FormatInfo>, m: FileHandler.FormatMap,
                        path: string, selected: string, write: (Pattern, string) -> bool): ExportOutcome
    requires forall i :: 0 <= i < |formats| ==> formats[i].extension.Single?
  {
    match ExportNames.ExportTarget(m, selected)
    case None => UnknownFormat
    case Some(t) =>
      var out := ExportNames.ForceExtension(path, t);
      Exported(out, t, FileHandler.IsSupportedWriter(formats, t) && write(p, out))
  }

  /** With a pattern loaded, an export is refused for want of formats exactly when no record is a writer. */
  lemma {:induction false} NoFormatsWithoutWriters(p: Option<Pattern>, formats: seq<FileHandler.FormatInfo>,
                                dialog: Option<(string, string)>, write: (Pattern, string) -> bool)
    requires forall i :: 0 <= i < |formats| ==> formats[i].extension.Single?
    requires p.Some?
    ensures ExportResult(p, formats, dialog, write) == NoFormats
            <==> forall i :: 0 <= i < |formats| ==> !formats[i].writer
  {
    FileHandler.WriteTableEmpty(formats, |formats|);
  }

  /**
   * A filter picked from the dialog's list always yields an export whose
   * write passes the writer guard: it succeeds exactly when the writer does.
   */
  lemma {:induction false} ListedFilterExported(p: Option<Pattern>, formats: seq<FileHandler.FormatInfo>,
                             path: string, selected: string, write: (Pattern, string) -> bool)
    requires forall i :: 0 <= i < |formats| ==> formats[i].extension.Single?
    requires p.Some? && path != ""
    requires ExportNames.PlainExtensions(FileHandler.WriteTable(formats, |formats|))
    requires selected in ExportNames.FilterList(FileHandler.WriteTable(formats, |formats|))
    ensures var r := ExportResult(p, formats, Some((path, selected)), write);
      r.Exported? && (r.written <==> write(p.value, r.path))
  {
    var m := FileHandler.WriteTable(formats, |formats|);
    FileHandler.WriteTableMeaning(formats, |formats|);
    ChosenListedFilter(p.value, formats, m, path, selected, write);
    assert ExportResult(p, formats, Some((path, selected)), write) == ExportChosen(p.value, formats, m, path, selected, write);
  }

  /** `ListedFilterExported` over any write table the records build. */
  lemma {:induction false} ChosenListedFilter(p: Pattern, formats: seq<FileHandler.FormatInfo>, m: FileHandler.FormatMap,
                                              path: string, selected: string, write: (Pattern, string) -> bool)
    requires forall i :: 0 <= i < |formats| ==> formats[i].extension.Single?
    requires FileHandler.IsWriteFormats(formats, |formats|, m) && ExportNames.PlainExtensions(m)
    requires selected in ExportNames.FilterList(m)
    ensures |m| > 0
    ensures var r := ExportChosen(p, formats, m, path, selected, write);
      r.Exported? && (r.written <==> write(p, r.path))
  {
    var j :| 0 <= j < |m| && ExportNames.FilterList(m)[j] == selected;
    ExportNames.ListedFilterWritable(formats, m, j);
    ChosenExported(p, formats, m, path, selected, write);
  }

  /** A target that passes the writer guard is exported, and the write decides the outcome. */
  lemma {:induction false} ChosenExported(p: Pattern, formats: seq<FileHandler.FormatInfo>, m: FileHandler.FormatMap,
                                          path: string, selected: string, write: (Pattern, string) -> bool)
    requires forall i :: 0 <= i < |formats| ==> formats[i].extension.Single?
    requires ExportNames.ExportTarget(m, selected).Some?
    requires FileHandler.IsSupportedWriter(formats, ExportNames.ExportTarget(m, selected).value)
    ensures var r := ExportChosen(p, formats, m, path, selected, write);
      r.Exported? && r.target == ExportNames.ExportTarget(m, selected).value && (r.written <==> write(p, r.path))
  {
  }

  /**
   * The file written carries the target's extension whenever the chosen
   * path's last component has a stem and the target is a plain extension.
   */
  lemma {:induction false} ExportedPathHasTarget(p: Option<Pattern>, formats: seq<FileHandler.FormatInfo>,
                              dialog: Option<(string, string)>, write: (Pattern, string) -> bool)
    requires forall i :: 0 <= i < |formats| ==> formats[i].extension.Single?
    ensures var r := ExportResult(p, formats, dialog, write);
      r.Exported? && ExportNames.HasStem(dialog.value.0) && ExportNames.NoDotOrSep(r.target) ==>
        Lower(ExportNames.SplitExt(r.path).1) == "." + Lower(r.target)
  {
    var r := ExportResult(p, formats, dialog, write);
    if r.Exported? {
      var m := FileHandler.WriteTable(formats, |formats|);
      var (path, selected) := dialog.value;
      assert r == ExportChosen(p.value, formats, m, path, selected, write);
      ChosenPath(p.value, formats, m, path, selected, write);
      if ExportNames.HasStem(path) && ExportNames.NoDotOrSep(r.target) {
        ExportNames.ForceExtensionSets(path, r.target);
      }
    }
  }

  /** An export writes to the chosen path with the target's extension forced onto it. */
  lemma {:induction false} ChosenPath(p: Pattern, formats: seq<FileHandler.FormatInfo>, m: FileHandler.FormatMap,
                                      path: string, selected: string, write: (Pattern, string) -> bool)
    requires forall i :: 0 <= i < |formats| ==> formats[i].extension.Single?
    ensures var r := ExportChosen(p, formats, m, path, selected, write);
      r.Exported? ==> r.path == ExportNames.ForceExtension(path, r.target)
  {
  }

  class MainWindow {
    var currentPattern: Option<Pattern>
    /** `cached_png_image` and `cached_png_pattern_hash`: the single cache slot. */
    var cachedImage: Option<Image>
    var cachedKey: Option<CacheKey>
    /** `original_file_name_stem`. */
    var fileStem: Option<string>
    /** `_last_zoom_time`, in milliseconds; `None` before the first accepted wheel event. */
    var lastZoomTime: Option<int>
    /** The horizontal scale of the preview's view transform. */
    var viewScale: real
    /** Whether the preview holds a pixmap item. */
    var hasPixmap: bool
    const engine: Engine

    /**
     * The cache slot holds a key only together with an image (the key
     * itself may be None), never a null image, and while a pattern is
     * loaded the key is that pattern's.
     */
    ghost predicate Valid()
      reads this
    {
      (cachedImage.None? ==> cachedKey.None?)
      && (cachedImage.Some? ==> !cachedImage.value.IsNull())
      && (currentPattern.Some? && cachedImage.Some? ==> cachedKey == PatternKey(currentPattern.value))
    }

    /** The condition under which `render_png_with_cache` reuses the slot. */
    predicate IsHit()
      reads this
    {
      currentPattern.Some? && cachedImage.Some? && cachedKey == PatternKey(currentPattern.value)
      && cachedKey.Some?
    }

    constructor (hasPngWriter: bool)
      ensures Valid() && fresh(engine)
      ensures currentPattern == None && cachedImage == None && cachedKey == None && fileStem == None
      ensures lastZoomTime == None && viewScale == 1.0 && !hasPixmap
      ensures engine.hasPngWriter == hasPngWriter && engine.baseImage == None
      ensures engine.backgroundColor == DefaultBackground && engine.patternBoundsMm10 == NullRect
      ensures engine.backendCalls == 0
    {
      currentPattern := None;
      cachedImage := None;
      cachedKey := None;
      fileStem := None;
      lastZoomTime := None;
      viewScale := 1.0;
      hasPixmap := false;
      var e := new Engine(hasPngWriter);
      e.SetBackgroundColor(DefaultBackground);
      engine := e;
    }

    /** `display_rendered_image`: a pixmap item exists exactly when the base image can be shown. */
    method DisplayRenderedImage()
      modifies this
      ensures hasPixmap == Displayable(engine.baseImage)
      ensures currentPattern == old(currentPattern) && cachedImage == old(cachedImage) && cachedKey == old(cachedKey)
      ensures fileStem == old(fileStem) && lastZoomTime == old(lastZoomTime) && viewScale == old(viewScale)
    {
      hasPixmap := engine.baseImage.Some? && !engine.baseImage.value.IsNull();
    }

    /**
     * The step `render_png_with_cache` and `import_file` share: render the
     * current pattern, then store a copy of a displayable result together
     * with the current key.
     */
    method RenderAndStore(vw: int, vh: int, backend: Backend)
      requires Valid() && currentPattern.Some?
      modifies this, engine
      ensures Valid()
      ensures currentPattern == old(currentPattern) && fileStem == old(fileStem)
      ensures lastZoomTime == old(lastZoomTime) && viewScale == old(viewScale) && hasPixmap == old(hasPixmap)
      ensures engine.backgroundColor == old(engine.backgroundColor)
      ensures RenderState(engine.baseImage, engine.patternBoundsMm10)
        == Render(currentPattern, vw, vh, engine.hasPngWriter, backend, engine.backgroundColor, old(engine.baseImage))
      ensures engine.backendCalls == old(engine.backendCalls) + (if InvokesBackend(currentPattern, engine.hasPngWriter) then 1 else 0)
      ensures if Displayable(engine.baseImage)
              then cachedImage == engine.baseImage && cachedKey == PatternKey(currentPattern.value)
              else cachedImage == old(cachedImage) && cachedKey == old(cachedKey)
    {
      engine.CreateBaseImage(currentPattern, vw, vh, backend);
      if engine.baseImage.Some? && !engine.baseImage.value.IsNull() {
        var currentKey := PatternKey(currentPattern.value);
        cachedImage := engine.baseImage;
        cachedKey := currentKey;
      }
    }

    /** `render_png_with_cache`. */
    method RenderPngWithCache(vw: int, vh: int, backend: Backend)
      requires Valid()
      modifies this, engine
      ensures Valid()
      ensures currentPattern == old(currentPattern) && fileStem == old(fileStem)
      ensures lastZoomTime == old(lastZoomTime) && viewScale == old(viewScale)
      ensures engine.backgroundColor == old(engine.backgroundColor)
      // no pattern: nothing at all changes
      ensures old(currentPattern).None? ==> unchanged(this) && unchanged(engine)
      // a hit shows the cached image and renders nothing
      ensures old(IsHit()) ==>
        engine.baseImage == old(cachedImage) && engine.patternBoundsMm10 == old(engine.patternBoundsMm10)
        && engine.backendCalls == old(engine.backendCalls)
        && cachedImage == old(cachedImage) && cachedKey == old(cachedKey)
      // a miss renders once and stores a displayable result under the current key
      ensures old(currentPattern).Some? && !old(IsHit()) ==>
        RenderState(engine.baseImage, engine.patternBoundsMm10)
          == Render(currentPattern, vw, vh, engine.hasPngWriter, backend, engine.backgroundColor, old(engine.baseImage))
        && engine.backendCalls == old(engine.backendCalls) + (if InvokesBackend(currentPattern, engine.hasPngWriter) then 1 else 0)
        && if Displayable(engine.baseImage)
           then cachedImage == engine.baseImage && cachedKey == PatternKey(currentPattern.value)
           else cachedImage == old(cachedImage) && cachedKey == old(cachedKey)
      ensures old(currentPattern).Some? ==> hasPixmap == Displayable(engine.baseImage)
      // once something displayable was stored under a present key, the next call is a hit
      ensures currentPattern.Some? && PatternKey(currentPattern.value).Some? && Displayable(engine.baseImage) ==> IsHit()
    {
      if currentPattern.None? {
        return;
      }
      var currentKey := PatternKey(currentPattern.value);
      if cachedImage.Some? && cachedKey == currentKey && currentKey.Some? {
        engine.baseImage := cachedImage;
      } else {
        RenderAndStore(vw, vh, backend);
      }
      DisplayRenderedImage();
    }

    /**
     * The part of `import_file` after a path was chosen and the codec
     * library has read it as `read`: keep the new pattern, empty the cache,
     * render, show the result and refit the view at `fitScale`, or clear
     * the preview when the read failed. (Remembering the file's stem, which
     * nothing here reads, is left to `ImportFile`.)
     */
    method LoadPattern(read: Option<Pattern>, vw: int, vh: int, backend: Backend, fitScale: real)
      requires Valid()
      modifies this, engine
      ensures Valid()
      ensures currentPattern == read && fileStem == old(fileStem) && lastZoomTime == old(lastZoomTime)
      ensures engine.backgroundColor == old(engine.backgroundColor)
      ensures read.None? ==>
        !hasPixmap && cachedImage == old(cachedImage) && cachedKey == old(cachedKey)
        && viewScale == old(viewScale) && unchanged(engine)
      ensures read.Some? ==>
        RenderState(engine.baseImage, engine.patternBoundsMm10)
          == Render(read, vw, vh, engine.hasPngWriter, backend, engine.backgroundColor, old(engine.baseImage))
        && engine.backendCalls == old(engine.backendCalls) + (if InvokesBackend(read, engine.hasPngWriter) then 1 else 0)
        && (if Displayable(engine.baseImage)
            then cachedImage == engine.baseImage && cachedKey == PatternKey(read.value)
            else cachedImage == None && cachedKey == None)
        && hasPixmap == Displayable(engine.baseImage)
        && viewScale == (if hasPixmap then fitScale else 1.0)
    {
      currentPattern := read;
      if currentPattern.Some? {
        cachedImage := None;
        cachedKey := None;
        RenderAndStore(vw, vh, backend);
        DisplayRenderedImage();
        // reset_preview: identity transform, then fit the item into the view
        viewScale := if hasPixmap then fitScale else 1.0;
      } else {
        hasPixmap := false;
      }
    }

    /**
     * `import_file` once the dialog has returned `path` (`""` when
     * cancelled) and the codec library has read it as `read`; `fitScale`
     * is the scale at which the preview fits the view.
     */
    method ImportFile(path: string, read: Option<Pattern>, vw: int, vh: int, backend: Backend, fitScale: real)
      requires Valid()
      modifies this, engine
      ensures Valid()
      ensures lastZoomTime == old(lastZoomTime)
      ensures engine.backgroundColor == old(engine.backgroundColor)
      // a cancelled dialog changes nothing
      ensures path == "" ==> unchanged(this) && unchanged(engine)
      ensures path != "" ==> currentPattern == read
      // a failed read clears the preview and leaves the cache and the engine alone
      ensures path != "" && read.None? ==>
        !hasPixmap && cachedImage == old(cachedImage) && cachedKey == old(cachedKey)
        && fileStem == old(fileStem) && viewScale == old(viewScale) && unchanged(engine)
      // a successful read empties the cache, renders, and refills the cache only with a displayable image
      ensures path != "" && read.Some? ==>
        RenderState(engine.baseImage, engine.patternBoundsMm10)
          == Render(read, vw, vh, engine.hasPngWriter, backend, engine.backgroundColor, old(engine.baseImage))
        && engine.backendCalls == old(engine.backendCalls) + (if InvokesBackend(read, engine.hasPngWriter) then 1 else 0)
        && (if Displayable(engine.baseImage)
            then cachedImage == engine.baseImage && cachedKey == PatternKey(read.value)
            else cachedImage == None && cachedKey == None)
        && fileStem == Some(FileStem(path))
        && hasPixmap == Displayable(engine.baseImage)
        && viewScale == (if hasPixmap then fitScale else 1.0)
    {
      if path == "" {
        return;
      }
      LoadPattern(read, vw, vh, backend, fitScale);
      if read.Some? {
        fileStem := Some(FileStem(path));
      }
    }

    /** `zoom_preview_at_mouse` for a wheel event at time `now` (milliseconds). */
    method ZoomPreviewAtMouse(now: int, angleDeltaY: int)
      modifies this
      ensures currentPattern == old(currentPattern) && cachedImage == old(cachedImage) && cachedKey == old(cachedKey)
      ensures fileStem == old(fileStem) && hasPixmap == old(hasPixmap)
      // no preview, or too soon after the last event: ignored
      ensures !old(hasPixmap) || Throttled(old(lastZoomTime), now) ==> unchanged(this)
      // otherwise the time is recorded even when the zoom itself is refused
      ensures old(hasPixmap) && !Throttled(old(lastZoomTime), now) ==>
        lastZoomTime == Some(now) && viewScale == Zoomed(old(viewScale), ZoomFactor(angleDeltaY))
      ensures InZoomRange(old(viewScale)) ==> InZoomRange(viewScale)
    {
      if !hasPixmap {
        return;
      }
      if lastZoomTime.Some? && now - lastZoomTime.value < ZoomIntervalMs {
        return;
      }
      lastZoomTime := Some(now);
      var factor := if angleDeltaY > 0 then ZoomInFactor else ZoomOutFactor;
      var newScale := viewScale * factor;
      if newScale < MinZoomScale || newScale > MaxZoomScale {
        return;
      }
      viewScale := newScale;
    }

    /** `export_file`, proved against `ExportResult`. */
    method ExportFile(formats: seq<FileHandler.FormatInfo>, dialog: Option<(string, string)>,
                      write: (Pattern, string) -> bool)
      returns (outcome: ExportOutcome)
      requires forall i :: 0 <= i < |formats| ==> formats[i].extension.Single?
      ensures outcome == ExportResult(currentPattern, formats, dialog, write)
    {
      if currentPattern.None? {
        return NoPattern;
      }
      var writeFormats := FileHandler.GetSupportedWriteFormats(formats);
      if |writeFormats| == 0 {
        return NoFormats;
      }
      if dialog.None? || dialog.value.0 == "" {
        return Cancelled;
      }
      var (path, selected) := dialog.value;
      var target := ExportNames.ExportTarget(writeFormats, selected);
      if target.None? {
        return UnknownFormat;
      }
      var t := target.value;
      var finalPath := ExportNames.ForceExtension(path, t);
      var ok, attempted := FileHandler.WritePattern(currentPattern, formats, finalPath, t, write);
      outcome := Exported(finalPath, t, ok);
    }
  }
}
