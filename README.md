# Embroidery viewer core in Dafny

This project models the core of a desktop embroidery-pattern viewer built
on PyQt6 and the `pyembroidery` codec library, and proves properties of
that model. It covers:

- **The render engine.** The rendering scale and stroke width, the
  placeholder image for patterns with nothing to draw, and the
  white-to-transparent keying pass over the decoded PNG. The PNG writer and
  decoder are a function parameter.
- **The unit converter.** Tenths of a millimetre to centimetres, and the
  size of a pattern's bounding rectangle.
- **The file handler.** The import dialog's filter string and the
  description-to-extensions table built from the library's format records,
  the export dialog's insertion-ordered filter-to-extension table, and the
  writer guard of `write_pattern`.
- **The main window's session logic:**
  - the pattern cache key;
  - the render cache of `render_png_with_cache` and `import_file`. No
    caller of `render_png_with_cache` appears in main_window.py, so in the
    program as shown only `import_file` fills the slot and the cache-hit path
    is modelled without ever being reached;
  - the colour count of the information panel;
  - the throttled and range-limited wheel zoom;
  - the whole decision chain of `export_file`. This covers the filter list,
    the suggested file names, the default suffix, the direct lookup and the
    fallback parse of the chosen filter, the forced extension, and the call
    to the writer.

Modules follow the program's files:

| module | contents |
|---|---|
| `RenderEngine` | render_engine.py, with the class `Engine` |
| `UnitConverter` | unit_converter.py |
| `FileHandler` | file_handler.py |
| `ExportNames` | the name and filter handling inside `export_file` |
| `MainWindow` | the modelled parts of main_window.py, with the class `MainWindow` |

`Text`, `Geometry`, `Pattern`, `Raster` and `Wrappers` hold the
string, rectangle, pattern, image and option types they share.

The state the program updates in place is kept in two classes:

- **`RenderEngine.Engine`** holds `base_image`, `pattern_bounds_mm10` and
  `background_color`. `CreateBaseImage` is proved against the function
  `RenderEngine.Render`, and `RenderEngine.RenderMeaning` states what each of
  its paths leaves behind.
- **`MainWindow.MainWindow`** holds:
  - the current pattern;
  - the cache slot (image and key);
  - the remembered file stem;
  - the last zoom time;
  - the view scale;
  - whether a pixmap is shown.

  Its invariant `Valid()` says that the slot holds a key only together with
  an image (the key may be None), never holds a null image, and while a
  pattern is loaded is keyed by that pattern.

The keying pass (render_engine.py:130-139) is an imperative method,
`Raster.AlphaKey`. It fills an `array2` buffer row by row and is proved to
produce `Raster.Keyed` of its input. The write-format table is built by a
loop in `FileHandler.GetSupportedWriteFormats`. It is proved equal to
`FileHandler.WriteTable`, and `FileHandler.IsWriteFormats` characterises that
table: one entry per distinct key, in order of each key's first writer,
holding the extension of its last writer.

Points where the model makes the code's behaviour explicit:

- **The rendering scale** is `min(target/w, target/h)`, raised to 2 and
  capped at 60. So when that ratio is already in range, the longer side of
  the scaled pattern is exactly `target_pixels`. When the cap or the floor
  applies, the pattern either fits inside the target or reaches it on one
  axis (`RenderEngine.ScaleFitsTarget`).
- **The `INITIAL_RENDER_SCALE` fallback branch** (render_engine.py:63-64) can
  never be taken. Any render that gets past the bounds test has positive width
  and height (`RenderEngine.FallbackScaleUnreachable`).
- **When `PngWriter` could not be imported:**
  - `create_base_image` updates the bounds but leaves the previous base image
    in place (render_engine.py:96-98);
  - `import_file` (and `render_png_with_cache`, were it called) then caches
    that earlier image under the new pattern's key;
  - the model keeps both behaviours.
- **Forcing the extension** (main_window.py:696-699) is idempotent only for
  paths whose last component has a stem and for a target extension without
  `.`, `/` or `\`. `ExportNames.ForceExtensionNotIdempotent` exhibits `"a/"`,
  which becomes `"a/.pes"` and then `"a/.pes.pes"`;
  `ExportNames.ForceExtensionDottedTarget` exhibits the target `"a.b"`, which
  turns `"x"` into `"x.a.b"` and then `"x.a.a.b"`. The fallback parse of a
  typed filter such as `(*.tar.gz)` can produce such a target.
- **The keying map itself is not idempotent.** A transparent output pixel
  would be made opaque black by a second pass. The compositing stage is still
  idempotent, because the output always has an alpha channel and such an
  image passes through unchanged (`Raster.KeyPixelNotIdempotent`,
  `Raster.CompositeIdempotent`).

## Model

| member | source | states |
|---|---|---|
| Text.Lower | embroidery_app/file_handler.py:26 | `str.lower` on ASCII: same length, each character mapped by its lower-case counterpart |
| Text.Upper | embroidery_app/file_handler.py:57 | `str.upper` on ASCII: same length, each character mapped to upper case |
| Text.LowerIdempotent | embroidery_app/main_window.py:289 | lower-casing an already lower-cased extension changes nothing |
| Text.LowerAppend | embroidery_app/main_window.py:697-698 | lower-casing distributes over concatenation |
| Text.LastIndexOf | embroidery_app/main_window.py:687 | the position `split('(*.')[-1]` starts after: an occurrence with none later, and None exactly when the marker does not occur |
| Text.Contains | embroidery_app/main_window.py:686 | Python's `pat in s`: some position where the pattern occurs (used by `Text.LastIndexOf`'s None case) |
| Text.BeforeFirst | embroidery_app/main_window.py:687 | `split(')')[0]`: a prefix without `)`, stopping at the first `)` |
| Text.BeforeFirstStop | embroidery_app/main_window.py:687 | for `s + ")" + t` with no `)` in `s` the result is exactly `s` |
| Text.NonBlank | embroidery_app/file_handler.py:26 | `ext and ext.strip()` is truthy: some character that is not ASCII whitespace |
| Text.SortedDistinct | embroidery_app/file_handler.py:45 | `sorted(list(set(xs)))`: strictly sorted and holding exactly the elements of `xs` |
| Text.SortedUnique | embroidery_app/main_window.py:284 | two strictly sorted lists with the same elements are equal, so every `sorted(set(...))` of the same extensions agrees |
| Text.Join | embroidery_app/file_handler.py:46 | `sep.join(xs)`: a single element stands alone (the general case is `Text.JoinAppend`) |
| Text.JoinAppend | embroidery_app/main_window.py:622 | joining one more element appends the separator and then that element |
| Text.LessTotal | embroidery_app/file_handler.py:45 | Python's string order is total |
| Text.LessTransitive | embroidery_app/file_handler.py:45 | Python's string order is transitive |
| Geometry.FromCorners | embroidery_app/render_engine.py:164 | `QRectF(QPointF(min), QPointF(max))` starts at the minimum corner and ends at the maximum corner |
| Geometry.ValidIsNotEmpty | embroidery_app/render_engine.py:40 | `isValid()` is exactly `not isEmpty()`, and the null rectangle is not valid |
| Geometry.NullRectIsInvalid | embroidery_app/render_engine.py:27 | `QRectF()` is null and not valid |
| Raster.Filled | embroidery_app/render_engine.py:34-35 | an image of the given size with every pixel the fill colour |
| Raster.NearWhite | embroidery_app/render_engine.py:135 | red, green and blue all above 240 |
| Raster.KeyPixel | embroidery_app/render_engine.py:132-139 | the output pixel for one source pixel: transparent when near-white, else its colour made opaque (its meaning is stated by `Raster.KeyedPixels`) |
| Raster.Keyed | embroidery_app/render_engine.py:123-142 | the keyed image has the source's size and an alpha channel |
| Raster.KeyedPixels | embroidery_app/render_engine.py:130-139 | a near-white source pixel (all of red, green and blue above 240) becomes fully transparent; any other keeps its colour and becomes opaque |
| Raster.KeyPixelExamples | embroidery_app/render_engine.py:135 | white is keyed out; black and a pixel with one channel at 240 are kept |
| Raster.Composite | embroidery_app/render_engine.py:113-142 | an image with an alpha channel is kept as it is, any other becomes exactly `Raster.Keyed` of it; the result has the source's size and an alpha channel |
| Raster.CompositeIdempotent | embroidery_app/render_engine.py:117-142 | applying the compositing stage twice gives the same image as applying it once |
| Raster.KeyPixelNotIdempotent | embroidery_app/render_engine.py:130-139 | keying a keyed pixel again can change it |
| Raster.RowsOf | embroidery_app/render_engine.py:142 | the snapshot of a pixel buffer has its dimensions and its pixels |
| Raster.AlphaKey | embroidery_app/render_engine.py:123-142 | the imperative pass over a transparent buffer produces exactly `Keyed(src)` |
| UnitConverter.Mm10ToCm | embroidery_app/unit_converter.py:2-7 | the result times 100 is the input |
| UnitConverter.Mm10ToCmOfHundred | embroidery_app/unit_converter.py:2 | 100 tenths of a millimetre are one centimetre |
| UnitConverter.Mm10ToCmLinear | embroidery_app/unit_converter.py:5-7 | the conversion is additive and homogeneous |
| UnitConverter.GetPatternSizeCm | embroidery_app/unit_converter.py:10-21 | None exactly when the bounds are absent or invalid; otherwise the width and height in centimetres, both positive |
| RenderEngine.Trunc | embroidery_app/render_engine.py:80 | `int()` truncates toward zero, for both signs |
| RenderEngine.TargetPixels | embroidery_app/render_engine.py:51 | `max(2000, 2*vw, 2*vh)`: at least each of the three, and equal to one of them |
| RenderEngine.FitScale | embroidery_app/render_engine.py:56-58 | `min(target/w, target/h)` for positive sides (its consequences are stated by `RenderEngine.ScaleFitsTarget`) |
| RenderEngine.Clamped | embroidery_app/render_engine.py:60-62 | raised to at least 2, then capped at 60 (`RenderEngine.ClampedBounds` states the range) |
| RenderEngine.RenderScale | embroidery_app/render_engine.py:52-64 | for a positive size the scale lies in [2, 60]; otherwise it is the initial render scale 8 |
| RenderEngine.ScaleFitsTarget | embroidery_app/render_engine.py:51-62 | unless raised to the minimum, the scaled pattern fits the target on both axes; unless capped, it reaches it on one; in range, the longer side equals the target |
| RenderEngine.ClampedFit | embroidery_app/render_engine.py:56-62 | the same three facts for any positive target, given both axis ratios |
| RenderEngine.ScaleExample | embroidery_app/render_engine.py:51-80 | a 1000 x 1000 pattern in a 500 x 400 view gets target 2000, scale 2 and stroke 2 |
| RenderEngine.LineWidth | embroidery_app/render_engine.py:80 | `max(2, int(0.8 * s))`: at least 2, at least the truncation of `0.8 * s`, and either 2 or the floor of `0.8 * s` |
| RenderEngine.LineWidthUnique | embroidery_app/render_engine.py:80 | those three facts fix the stroke width: any whole number meeting them is `LineWidth(s)` |
| RenderEngine.LineWidthRange | embroidery_app/render_engine.py:52-53 | for scales in [2, 60] the stroke width lies in [2, 48] |
| RenderEngine.PatternBoundsMm10 | embroidery_app/render_engine.py:157-164 | the null rectangle without pattern, `bounds` or stitches; otherwise the rectangle spanned by the reported corners |
| RenderEngine.Placeholder | embroidery_app/render_engine.py:34-35 | a `max(1, vw)` x `max(1, vh)` image filled with the background colour |
| RenderEngine.IsDegenerate | embroidery_app/render_engine.py:33 | nothing to draw: no pattern, or neither stitches nor threads |
| RenderEngine.Render | embroidery_app/render_engine.py:31-155 | the engine's `(base_image, pattern_bounds_mm10)` after `create_base_image`, given the writer, the decoder, the background and the previous image; what each path yields is stated by `RenderEngine.RenderMeaning` |
| RenderEngine.RenderMeaning | embroidery_app/render_engine.py:31-155 | for each path of `create_base_image`: the placeholder and null bounds for an empty pattern; the placeholder with the bounds kept for invalid bounds; the previous image without a PNG writer; after a call with an in-range scale and stroke of at least 2, the composited image or, on decode failure or exception, the placeholder with null bounds |
| RenderEngine.FallbackScaleUnreachable | embroidery_app/render_engine.py:55-64 | any render that reaches the writer has positive width and height, so the `INITIAL_RENDER_SCALE` branch is dead |
| RenderEngine.RenderDisplayable | embroidery_app/render_engine.py:31-155 | with a PNG writer, or with nothing to draw, the base image afterwards is present and not null |
| RenderEngine.Engine.constructor | embroidery_app/render_engine.py:25-29 | no base image, null bounds, the default background `#E0E0E0` |
| RenderEngine.Engine.SetBackgroundColor | embroidery_app/render_engine.py:166-167 | sets the colour and changes nothing else |
| RenderEngine.Engine.CreateBaseImage | embroidery_app/render_engine.py:31-155 | the new base image and bounds are `Render` of the arguments and the old image; the writer is called exactly once when it is reached and never otherwise |
| FileHandler.ValidExtensions | embroidery_app/file_handler.py:26 | never longer than its input |
| FileHandler.ExtensionList | embroidery_app/file_handler.py:22-24 | a string extension becomes a one-element list, a list is kept |
| FileHandler.ReadDescription | embroidery_app/file_handler.py:21 | the record's description, or "Embroidery File" without one |
| FileHandler.Contributes | embroidery_app/file_handler.py:20-28 | a record adds to the read formats exactly when it is a reader with some valid extension |
| FileHandler.ValidExtensionsMeaning | embroidery_app/file_handler.py:22-26 | an extension is valid exactly when it is the lower-cased form of a non-blank entry |
| FileHandler.ReadDescriptionsMeaning | embroidery_app/file_handler.py:19-34 | a description is a key exactly when some reader with a valid extension carries it (`"Embroidery File"` when absent) |
| FileHandler.ExtensionsForMeaning | embroidery_app/file_handler.py:19-36 | the extensions gathered for a description are the valid extensions of the readers that carry it |
| FileHandler.ExtensionsForDescribed | embroidery_app/file_handler.py:32-34 | a description with gathered extensions is a key |
| FileHandler.Asterisked | embroidery_app/file_handler.py:45 | `'*.' + ext` for each extension, position by position |
| FileHandler.AsteriskedElems | embroidery_app/file_handler.py:45 | every glob comes from an extension and every extension gives a glob |
| FileHandler.FilterPatterns | embroidery_app/file_handler.py:45 | the globs are sorted, without duplicates, and exactly `*.e` for the gathered extensions |
| FileHandler.ReadFilterString | embroidery_app/file_handler.py:42-49 | `"All Files (*)"` exactly when no extension was gathered; the filter always ends with `"All Files (*)"` |
| FileHandler.ReadExtensionList | embroidery_app/file_handler.py:19-30 | the flat list `all_read_extensions_list`: the valid extensions of every reader in record order (`FileHandler.ReadListSound` and `FileHandler.ReadListComplete` relate it to the dictionary) |
| FileHandler.ReadTable | embroidery_app/file_handler.py:16-36 | the `as_dict` dictionary from description to extensions (`FileHandler.ReadTableKeys` and `FileHandler.ReadTableValues` state its keys and values) |
| FileHandler.ReadTableKeys | embroidery_app/file_handler.py:32-36 | the dictionary's keys are exactly the contributing descriptions |
| FileHandler.ReadTableValues | embroidery_app/file_handler.py:34-36 | each value is sorted, unique, and holds exactly the extensions gathered for its description |
| FileHandler.GetSupportedReadFormats | embroidery_app/file_handler.py:12-49 | with `as_dict` the table with those keys and values; otherwise the filter string over the gathered extensions |
| FileHandler.ReadExtensionsEmpty | embroidery_app/file_handler.py:19-43 | nothing is gathered exactly when no record is a reader with a valid extension |
| FileHandler.OnlyAllFiles | embroidery_app/file_handler.py:42-43 | with no readers the filter is `"All Files (*)"` |
| FileHandler.ReadListSound | embroidery_app/file_handler.py:30-34 | every gathered extension is in some description's list |
| FileHandler.ReadListComplete | embroidery_app/file_handler.py:30-34 | every extension in a description's list was gathered |
| FileHandler.ReadListMatchesDict | embroidery_app/file_handler.py:30-36 | the flat list and the dictionary hold the same extensions |
| FileHandler.WriteKey | embroidery_app/file_handler.py:56-58 | `f"{description} (*.{ext})"`, the description defaulting to `f"{ext.upper()} Format"` |
| FileHandler.LastWriterIndex | embroidery_app/file_handler.py:54-58 | the last record writing a key, or -1 when none does |
| FileHandler.FirstWriterIndex | embroidery_app/file_handler.py:54-58 | the first record writing a key, or -1 when none does |
| FileHandler.FirstLastAgree | embroidery_app/file_handler.py:54-58 | a key has a first writer exactly when it has a last one |
| FileHandler.Put | embroidery_app/file_handler.py:58 | dict assignment: an existing key keeps its place and takes the new value, a new key goes last, keys stay distinct |
| FileHandler.WriteStepUpdate | embroidery_app/file_handler.py:55-58 | a writer whose key is already present keeps the table characterised |
| FileHandler.WriteStepAppend | embroidery_app/file_handler.py:55-58 | a writer with a new key keeps the table characterised |
| FileHandler.WriteTable | embroidery_app/file_handler.py:51-59 | the table built from the records has distinct keys |
| FileHandler.WriteTableMeaning | embroidery_app/file_handler.py:51-59 | the table has one entry per writer key `"description (*.ext)"` (description defaulting to `"EXT Format"`), in order of first writer, holding the last writer's extension |
| FileHandler.WriteTableEmpty | embroidery_app/file_handler.py:51-59 | the table is empty exactly when no record is a writer |
| FileHandler.GetSupportedWriteFormats | embroidery_app/file_handler.py:51-59 | the loop builds exactly `WriteTable`, which has the characterisation above |
| FileHandler.IsSupportedWriter | embroidery_app/file_handler.py:117-120 | some writer record's extension equals the target up to case |
| FileHandler.WritePattern | embroidery_app/file_handler.py:110-140 | the library's `write` is called exactly when there is a pattern and some writer's extension equals the target up to case; the result is true exactly when that call completes |
| FileHandler.WriteFormatsAreWritable | embroidery_app/file_handler.py:117-120 | every extension in the write table, in any letter case, passes the writer guard |
| ExportNames.FilterEntry | embroidery_app/main_window.py:621 | `f"{desc} (*.{ext.lower()})"` (`ExportNames.ExtensionFromFilterEntry` and `ExportNames.FilterEntryInjective` state what it preserves) |
| ExportNames.FilterList | embroidery_app/main_window.py:619-621 | one `"desc (*.ext)"` entry per table item, in table order, extension lower-cased |
| ExportNames.FilterString | embroidery_app/main_window.py:622 | the entries joined with `" ;; "` |
| ExportNames.InitialFileName | embroidery_app/main_window.py:625 | the remembered stem, or `"pattern"` when there is none |
| ExportNames.MarkerNoOverlap | embroidery_app/main_window.py:664 | two occurrences of `(*.` never overlap, so `split('(*.')` cuts at every occurrence |
| ExportNames.AfterMarker | embroidery_app/main_window.py:664 | `split('(*.')[-1]`: all of the string without a marker, else the text after its last occurrence |
| ExportNames.AfterMarkerMeaning | embroidery_app/main_window.py:687 | that piece is a suffix free of the marker, shorter than the string exactly when the string contains the marker, and then directly preceded by it |
| ExportNames.ExtensionFromFilter | embroidery_app/main_window.py:685-691 | the fallback parse returns only a non-empty extension other than `*` without `)`, and only for a filter containing `(*.` and `)` |
| ExportNames.EntryMarker | embroidery_app/main_window.py:687 | in `"key (*.ext)"` the last `(*.` is the one before the extension |
| ExportNames.ExtensionFromFilterEntry | embroidery_app/main_window.py:685-691 | the fallback parse of a listed entry gives back its lower-cased extension |
| ExportNames.FilterEntryInjective | embroidery_app/main_window.py:619-621 | distinct table items give distinct filter entries |
| ExportNames.NoMarkerBeforeWildcard | embroidery_app/main_window.py:686 | a filter ending in `(*)` with no other `(` contains no `(*.` |
| ExportNames.AllFilesHasNoExtension | embroidery_app/main_window.py:686-689 | `"All Files (*)"` yields no extension |
| ExportNames.WildcardHasNoExtension | embroidery_app/main_window.py:688 | `"(*.*)"` yields no extension |
| ExportNames.FallbackKeepsCase | embroidery_app/main_window.py:687-689 | the fallback keeps the letter case of the filter text |
| ExportNames.DefaultSuffix | embroidery_app/main_window.py:661-668 | a default suffix is non-empty, not `*`, and lower case |
| ExportNames.DefaultSuffixOfEntry | embroidery_app/main_window.py:661-668 | the default suffix of a listed entry is its lower-cased extension |
| ExportNames.ExportDefaultSuffix | embroidery_app/main_window.py:661-668 | the default suffix of the first filter entry, none without entries (`ExportNames.DefaultSuffixOfEntry` gives its value) |
| ExportNames.FirstMatch | embroidery_app/main_window.py:678-681 | the first table item whose entry equals the selected filter, or -1 with none matching |
| ExportNames.DirectLookup | embroidery_app/main_window.py:677-681 | the extension of the first item whose entry equals the selected filter (`ExportNames.FirstMatch` states the match) |
| ExportNames.ExportTarget | embroidery_app/main_window.py:675-691 | the first matching item's extension when it is non-empty; the fallback parse when no item matches or the matching item's extension is empty; never empty |
| ExportNames.ListedFilterTarget | embroidery_app/main_window.py:675-681 | choosing the j-th listed filter selects the j-th item and its extension |
| ExportNames.ListedFilterWritable | embroidery_app/main_window.py:675-701 | the target of any listed filter passes the writer guard |
| ExportNames.SuggestedName | embroidery_app/main_window.py:644-645 | `f"{stem}_{ext.upper()}.{ext.lower()}"` (`ExportNames.SuggestedNameKept` states how it splits) |
| ExportNames.Suggestion | embroidery_app/main_window.py:630-646 | the name proposed for a selected filter: none without filter or stem, else the suggested name for the directly looked-up, non-empty extension |
| ExportNames.InitialSuggestion | embroidery_app/main_window.py:651-658 | the name proposed for the first item when there is a stem and a non-empty first key |
| ExportNames.InitialSuggestionIsFirstFilter | embroidery_app/main_window.py:630-658 | the initial name is the one the first filter would suggest, and exists |
| ExportNames.SplitExt | embroidery_app/main_window.py:696 | `ntpath.splitext`: split at the last dot of the last component unless only dots precede it (`ExportNames.SplitExtMeaning` and `ExportNames.SplitExtDotted` state its meaning) |
| ExportNames.SplitExtMeaning | embroidery_app/main_window.py:696 | `os.path.splitext`: the two parts make the path; a non-empty extension starts with its only dot, contains no separator, and follows a stem |
| ExportNames.SplitExtDotted | embroidery_app/main_window.py:696 | a stem followed by `"." + b`, where `b` has no dot or separator, splits at that dot |
| ExportNames.LowerPlain | embroidery_app/main_window.py:697 | lower-casing keeps an extension free of dots and separators |
| ExportNames.ForceExtension | embroidery_app/main_window.py:696-699 | the path is kept exactly when its extension equals the target up to case; otherwise its stem gets `"." + lower(target)` |
| ExportNames.ForceExtensionSets | embroidery_app/main_window.py:696-699 | for a path with a stem and a target without `.`, `/` or `\`, the result keeps the stem and carries the target extension |
| ExportNames.ForceExtensionIdempotent | embroidery_app/main_window.py:696-699 | for a path with a stem and a target without `.`, `/` or `\`, forcing twice is forcing once |
| ExportNames.ForceExtensionNotIdempotent | embroidery_app/main_window.py:696-699 | `"a/"` becomes `"a/.pes"` and then `"a/.pes.pes"` |
| ExportNames.ForceExtensionDottedTarget | embroidery_app/main_window.py:696-699 | with the target `"a.b"`, `"x"` becomes `"x.a.b"` and then `"x.a.a.b"` |
| ExportNames.SuggestedNameKept | embroidery_app/main_window.py:644-699 | for an extension without `.`, `/` or `\`, a suggested `stem_EXT.ext` splits into `stem_EXT` and `.ext` and is not changed by the forced extension |
| MainWindow.PatternKey | embroidery_app/main_window.py:550-559 | no key exactly when the pattern has no `bounds` |
| MainWindow.PatternKeysAgree | embroidery_app/main_window.py:555-556 | two patterns share a present key exactly when their stitch counts, bounds and thread counts agree and bounds are present |
| MainWindow.PatternKeyIgnoresContents | embroidery_app/main_window.py:555 | patterns with the same counts and bounds but different stitches share a key |
| MainWindow.ColorChanges | embroidery_app/main_window.py:411 | at most one colour change per stitch |
| MainWindow.ColorChangesCountsIndices | embroidery_app/main_window.py:411 | the sum counts exactly the stitches whose command is `COLOR_CHANGE` |
| MainWindow.ColorChangesAppend | embroidery_app/main_window.py:411 | the count is additive over concatenation |
| MainWindow.ColorCount | embroidery_app/main_window.py:391-414 | the thread count when there are threads; otherwise 0 for no stitches, and one more than the number of colour changes |
| MainWindow.ColorCountGrows | embroidery_app/main_window.py:411-412 | appending stitches to a thread-less pattern adds their colour changes |
| MainWindow.ZoomFactor | embroidery_app/main_window.py:487 | positive, and above 1 exactly for a positive wheel delta |
| MainWindow.Zoomed | embroidery_app/main_window.py:488-494 | the scale is multiplied by the factor exactly when the product lies in [0.05, 20], and kept as it was otherwise |
| MainWindow.Throttled | embroidery_app/main_window.py:479-481 | a zoom time was recorded and the event comes less than 50 ms after it |
| MainWindow.ZoomInThenOut | embroidery_app/main_window.py:487-494 | in exact arithmetic, one step in and one step out return to the same scale when both are allowed |
| MainWindow.ZoomInRefusedAtMaximum | embroidery_app/main_window.py:491-492 | no zoom in at the maximum and no zoom out at the minimum |
| MainWindow.LowerGlobs | embroidery_app/main_window.py:289 | `'*.' + ext.lower()` for each extension, position by position |
| MainWindow.ReadListLowered | embroidery_app/file_handler.py:26 | every gathered read extension is already lower case |
| MainWindow.GlobsAgree | embroidery_app/main_window.py:278-289 | the globs rebuilt from the dictionary are exactly those of the file handler's own filter |
| MainWindow.ImportDialogFilter | embroidery_app/main_window.py:278-289 | the import dialog's filter equals `get_supported_read_formats()`'s filter string |
| MainWindow.Basename | embroidery_app/main_window.py:354 | `os.path.basename`: the text after the last `/` or `\` (`MainWindow.BasenameMeaning` states it) |
| MainWindow.FileStem | embroidery_app/main_window.py:354 | `os.path.splitext(os.path.basename(path))[0]` (`MainWindow.FileStemMeaning` states it) |
| MainWindow.BasenameMeaning | embroidery_app/main_window.py:354 | `os.path.basename`: the suffix after the last separator, with no separator in it |
| MainWindow.FileStemMeaning | embroidery_app/main_window.py:354 | the stem is a separator-free prefix of the base name, and the whole base name unless that has an extension |
| MainWindow.ExportResult | embroidery_app/main_window.py:609-701 | the outcome of `export_file` for a pattern, the records, the dialog's answer and the writer; the lemmas below state its properties |
| MainWindow.ExportChosen | embroidery_app/main_window.py:675-701 | the outcome once a path and a filter were chosen: unknown format without a target, else an export to the forced path, written only past the writer guard |
| MainWindow.NoFormatsWithoutWriters | embroidery_app/main_window.py:614-617 | with a pattern and no writer records, the export stops with no formats |
| MainWindow.ListedFilterExported | embroidery_app/main_window.py:619-701 | choosing any listed filter with a path exports, and it succeeds exactly when the library's write does |
| MainWindow.ChosenListedFilter | embroidery_app/main_window.py:675-701 | the same for any table the records characterise |
| MainWindow.ChosenExported | embroidery_app/main_window.py:693-701 | a target that passes the writer guard is exported, and the write decides success |
| MainWindow.ExportedPathHasTarget | embroidery_app/main_window.py:693-701 | the written path carries the target extension whenever the chosen path has a stem and the target has no `.`, `/` or `\` |
| MainWindow.ChosenPath | embroidery_app/main_window.py:693-699 | an export writes to the chosen path with the target extension forced onto it |
| MainWindow.MainWindow.constructor | embroidery_app/main_window.py:83-149 | an empty cache, no pattern, no pixmap, view scale 1, and a fresh engine with no image, null bounds, no writer calls and the default background `#E0E0E0` set at line 89 |
| MainWindow.MainWindow.DisplayRenderedImage | embroidery_app/main_window.py:437-470 | a pixmap is shown exactly when the base image is present and not null; nothing else changes |
| MainWindow.MainWindow.IsHit | embroidery_app/main_window.py:571-573 | the cache is reused exactly when an image is stored under the current pattern's key and that key is not None |
| MainWindow.MainWindow.RenderAndStore | embroidery_app/main_window.py:578-591 | renders once and stores a displayable result under the current key; a non-displayable result leaves the cache as it was |
| MainWindow.MainWindow.RenderPngWithCache | embroidery_app/main_window.py:561-591 | no pattern, no change; on a hit the cached image is shown and nothing is rendered; on a miss one render, cached if displayable; afterwards a displayable image under a present key makes the next call a hit |
| MainWindow.MainWindow.LoadPattern | embroidery_app/main_window.py:336-369 | a read pattern empties the cache, renders, refills the cache only with a displayable image and fits the view; a failed read clears the preview |
| MainWindow.MainWindow.ImportFile | embroidery_app/main_window.py:276-369 | a cancelled dialog changes nothing; otherwise as `LoadPattern`, remembering the file's stem after a successful read |
| MainWindow.MainWindow.ZoomPreviewAtMouse | embroidery_app/main_window.py:472-494 | ignored without a pixmap or within 50 ms of the last event; otherwise the time is recorded and the scale zoomed as `Zoomed` says; a scale in range stays in range |
| MainWindow.MainWindow.ExportFile | embroidery_app/main_window.py:609-724 | the outcome is `ExportResult`: no pattern, no formats, cancelled, unknown format, or exported to a path with a target and a write result |

## Left out

- The Qt user interface is left out: widgets, layout, dialogs, message boxes, the loading animation, rotation, reset and resize handling, the background colour dialog, the labels of `update_file_info` other than the colour count, and every `print`.
- `read_pattern` (file_handler.py:61-108) and the library's `write` and `supported_formats` are calls into code outside the model. They become parameters: the pattern read, a `write` predicate that is true when writing completes without raising, and the list of format records.
- `PngWriter.write` and `QImage.loadFromData` are one function parameter of the render. It returns a decoded image, a load failure or a raised exception, given the pattern, the scale applied to its copy and the settings. The matrix transform of the pattern copy (render_engine.py:66-77) is represented only by the scale handed to it.
- The `background: None` entry of the PNG settings is a constant and is not represented.
- MD5 in `get_pattern_hash` is not modelled. The cache key is the tuple `(stitch count, bounds, thread count)` the digest is taken of, so distinct tuples are assumed to give distinct digests. The `except` branch of `get_pattern_hash` is taken as the case of a pattern without `bounds`.
- The `except` fallback of `render_png_with_cache` (main_window.py:593-599) is left out, because nothing in the modelled body raises.
- `QTime` is integer milliseconds, and the wrap of `msecsTo` at midnight is left out.
- The scale `fitInView` chooses in `reset_preview` is a parameter of `ImportFile` and `LoadPattern`.
- Only the view's horizontal scale `m11()` is modelled, as a single number that zoom multiplies.
- String case mapping and `strip` are ASCII only. Unicode case folding is not modelled.
- `os.path.splitext` and `basename` follow Windows path rules with `/` and `\` as separators. Drive letters are not modelled.
- Python string order is modelled as lexicographic order on characters.
- The read dictionary's key order is not modelled: it is a `map`. The write table is an insertion-ordered list, as a Python `dict` keeps it.
- Any present pattern counts as true in the `if not pattern` and `if self.current_pattern` tests.
- `dialog.selectFile` and `setDefaultSuffix` are shown only as the names they would set (`InitialSuggestion`, `Suggestion`, `ExportDefaultSuffix`). How the Qt dialog then edits the typed path is left out.
- FileHandler.GetSupportedWriteFormats: requires every writer record's extension to be a single string. This excludes exactly the records on which the source raises: a writer record with a list extension raises `AttributeError` at file_handler.py:57, because the default argument `ext.upper()` is evaluated for every record, and one without `'extension'` raises `KeyError` at line 56. The model does not represent those exceptions.
- FileHandler.WritePattern: requires every record's extension to be a single string. This is stronger than the source needs: `any(...)` at file_handler.py:117-120 stops at the first matching writer, so only a list or missing extension in a record before it raises. The model represents neither that exception nor success past such records.
- MainWindow.ExportResult: requires every record's extension to be a single string. Like `WritePattern`, this is stronger than the cases where the source raises.
- MainWindow.MainWindow.ExportFile: requires every record's extension to be a single string. Like `WritePattern`, this is stronger than the cases where the source raises.
- ExportNames.ForceExtensionIdempotent: holds only for paths whose last component has a stem and for a target extension without `.`, `/` or `\`; `ForceExtensionNotIdempotent` and `ForceExtensionDottedTarget` show the other cases.
- ExportNames.ForceExtensionSets: holds only for paths with a stem and for a target extension without `.`, `/` or `\`. A dotted target, which the fallback parse can return, is split at its own last dot.
- ExportNames.SuggestedNameKept: holds only for an extension without `.`, `/` or `\`.
- MainWindow.ExportedPathHasTarget: holds only when the chosen path has a stem and the target extension has no `.`, `/` or `\`; `MainWindow.ChosenPath` states the written path for every target.
- Python floats are modelled as exact Dafny `real`s, with no rounding. The exact target equality of `RenderEngine.ScaleFitsTarget`, the truncation in `RenderEngine.LineWidth`, the range checks of `MainWindow.Zoomed` and the round trip of `MainWindow.ZoomInThenOut` hold in exact arithmetic; in IEEE doubles `c * 1.15 * (1 / 1.15)` can differ from `c` in the last bit.
