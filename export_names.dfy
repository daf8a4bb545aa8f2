/**
 * The file-name rules of the export dialog: the filter list shown to the
 * user, the `stem_EXT.ext` suggestion, recovering the chosen extension from
 * a filter string, the dialog's default suffix, and forcing the saved path
 * to carry the chosen extension.
 *
 * Paths are split as Python's `ntpath.splitext` splits them: both `/` and
 * `\` separate directories, and leading dots of the last component do not
 * start an extension.
 */
module ExportNames {
  import opened Wrappers
  import opened Text
  import FileHandler

  // ------------------------------------------------------ the filter list

  /** What opens the extension part of a filter entry, as in `Tajima (*.dst)`. */
  const FilterMarker := "(*."

  /** Separator between the entries of the dialog's filter string. */
  const FilterSeparator := " ;; "

  /** Initial name used when the imported file left no stem. */
  const DefaultFileName := "pattern"

  /** One filter entry: the write-map key, then `(*.ext)` with `ext` lower-cased. */
  function FilterEntry(key: string, ext: string): string {
    key + " " + FilterMarker + Lower(ext) + ")"
  }

  function FilterList(m: FileHandler.FormatMap): (r: seq<string>)
    ensures |r| == |m|
    ensures forall j :: 0 <= j < |m| ==> r[j] == FilterEntry(m[j].0, m[j].1)
  {
    seq(|m|, j requires 0 <= j < |m| => FilterEntry(m[j].0, m[j].1))
  }

  function FilterString(m: FileHandler.FormatMap): string {
    Join(FilterSeparator, FilterList(m))
  }

  function InitialFileName(stem: string): string {
    if stem != "" then stem else DefaultFileName
  }

  /**
   * An extension that survives the trip through a filter entry: non-empty,
   * not the wildcard, without `)` and without the marker inside it.
   */
  predicate PlainExtension(e: string) {
    e != "" && e != "*" && ')' !in e && !Contains(e, FilterMarker)
  }

  // ---------------------------------------------------- reading a filter

  /** Two occurrences of the marker never overlap: its `(` appears in it only once. */
  lemma {:induction false} MarkerNoOverlap(s: string, i: int, j: int)
    requires OccursAt(s, FilterMarker, i) && OccursAt(s, FilterMarker, j) && i < j
    ensures i + |FilterMarker| <= j
  {
    assert s[i + 1] == s[i..i + 3][1] && s[i + 2] == s[i..i + 3][2];
    assert s[j] == s[j..j + 3][0];
  }

  /**
   * `s.split('(*.')[-1]`: the text after the last `(*.`, or all of `s`
   * without one. Because occurrences of the marker never overlap
   * (`MarkerNoOverlap`), the last piece of the split is the text after the
   * last occurrence.
   */
  function AfterMarker(s: string): (r: string)
    ensures LastIndexOf(s, FilterMarker).None? ==> r == s
    ensures LastIndexOf(s, FilterMarker).Some? ==> r == s[LastIndexOf(s, FilterMarker).value + |FilterMarker|..]
  {
    match LastIndexOf(s, FilterMarker)
    case Some(i) => s[i + |FilterMarker|..]
    case None => s
  }

  /**
   * The piece after the marker is a suffix of `s` free of the marker; it
   * is shorter than `s` exactly when `s` contains the marker, and then the
   * marker stands right before it.
   */
  lemma {:induction false} AfterMarkerMeaning(s: string)
    ensures var r := AfterMarker(s);
      && r == s[|s| - |r|..]
      && !Contains(r, FilterMarker)
      && (|r| < |s| <==> Contains(s, FilterMarker))
      && (|r| < |s| ==> OccursAt(s, FilterMarker, |s| - |r| - |FilterMarker|))
  {
    var r := AfterMarker(s);
    match LastIndexOf(s, FilterMarker)
    case None =>
    case Some(i) =>
      var o := i + |FilterMarker|;
      assert r == s[o..];
      forall k | 0 <= k <= |r| - |FilterMarker| ensures !OccursAt(r, FilterMarker, k) {
        assert r[k..k + 3] == s[o + k..o + k + 3];
        assert !OccursAt(s, FilterMarker, o + k);
      }
  }

  /**
   * The fallback parse of a selected filter: when it contains `(*.` and `)`,
   * the text after the last `(*.` up to the next `)`, unless that is empty
   * or `*`. The case of the text is kept.
   */
  function ExtensionFromFilter(f: string): (r: Option<string>)
    ensures r.Some? ==> r.value != "" && r.value != "*" && ')' !in r.value
    ensures r.Some? ==> Contains(f, FilterMarker) && ')' in f
    ensures !Contains(f, FilterMarker) ==> r.None?
  {
    if Contains(f, FilterMarker) && ')' in f then
      var e := BeforeFirst(AfterMarker(f), ')');
      if e != "" && e != "*" then Some(e) else None
    else None
  }

  /** In a filter entry the marker the entry itself adds is the last one. */
  lemma {:induction false} EntryMarker(key: string, l: string)
    requires ')' !in l && !Contains(l, FilterMarker)
    ensures LastIndexOf(key + " " + FilterMarker + l + ")", FilterMarker) == Some(|key| + 1)
  {
    var f := key + " " + FilterMarker + l + ")";
    var i0 := |key| + 1;
    assert f[i0..i0 + 3] == FilterMarker;
    assert f[|f| - 1] == ')';
    var lo := |key| + 4;
    assert f[i0 + 1] == '*' && f[i0 + 2] == '.';
    assert f[lo..lo + |l|] == l;
    forall j | i0 < j ensures !OccursAt(f, FilterMarker, j) {
      if j + 3 <= |f| {
        var w := f[j..j + 3];
        if j <= i0 + 2 {
          assert w[0] == f[j];
        } else if j + 3 <= lo + |l| {
          var o := j - lo;
          assert w == f[lo..lo + |l|][o..o + 3];
          assert !OccursAt(l, FilterMarker, o);
        } else {
          assert w[|f| - 1 - j] == ')';
        }
      }
    }
    assert OccursAt(f, FilterMarker, i0);
  }

  /** An entry built from a plain extension parses back to that extension. */
  lemma {:induction false} ExtensionFromFilterEntry(key: string, ext: string)
    requires PlainExtension(Lower(ext))
    ensures ExtensionFromFilter(FilterEntry(key, ext)) == Some(Lower(ext))
  {
    var l := Lower(ext);
    var f := FilterEntry(key, ext);
    EntryMarker(key, l);
    assert OccursAt(f, FilterMarker, |key| + 1);
    assert f[|f| - 1] == ')';
    assert AfterMarker(f) == l + [')'] + "";
    BeforeFirstStop(l, ')', "");
  }

  /** Two entries built from plain extensions are equal only for equal keys and extensions. */
  lemma {:induction false} FilterEntryInjective(k1: string, e1: string, k2: string, e2: string)
    requires PlainExtension(Lower(e1)) && PlainExtension(Lower(e2))
    requires FilterEntry(k1, e1) == FilterEntry(k2, e2)
    ensures k1 == k2 && Lower(e1) == Lower(e2)
  {
    ExtensionFromFilterEntry(k1, e1);
    ExtensionFromFilterEntry(k2, e2);
    var f := FilterEntry(k1, e1);
    assert k1 == f[..|k1|] && k2 == f[..|k2|];
  }

  /** A text without `(` followed by the bare wildcard holds no marker. */
  lemma {:induction false} NoMarkerBeforeWildcard(x: string)
    requires '(' !in x
    ensures !Contains(x + "(*)", FilterMarker)
  {
    var a := x + "(*)";
    forall i | 0 <= i <= |a| - 3 ensures !OccursAt(a, FilterMarker, i) {
      var w := a[i..i + 3];
      if i < |x| {
        assert w[0] == a[i] == x[i];
      } else {
        assert a[i..] == "(*)";
        assert w[2] == ')';
      }
    }
  }

  /** The "all files" pattern names no extension. */
  lemma {:induction false} AllFilesHasNoExtension()
    ensures ExtensionFromFilter("All Files (*)") == None
  {
    NoMarkerBeforeWildcard("All Files ");
    assert "All Files " + "(*)" == "All Files (*)";
  }

  /** The wildcard is rejected. */
  lemma {:induction false} WildcardHasNoExtension()
    ensures ExtensionFromFilter("Any (*.*)") == None
  {
    EntryMarker("Any", "*");
    assert "Any" + " " + FilterMarker + "*" + ")" == "Any (*.*)";
  }

  /** The fallback keeps the case of what it parses. */
  lemma {:induction false} FallbackKeepsCase()
    ensures ExtensionFromFilter("Custom (*.XYZ)") == Some("XYZ")
  {
    var c := "Custom (*.XYZ)";
    assert "XYZ"[0] != '(';
    EntryMarker("Custom", "XYZ");
    assert "Custom" + " " + FilterMarker + "XYZ" + ")" == c;
    assert c[10..] == "XYZ" + [')'] + "";
    BeforeFirstStop("XYZ", ')', "");
  }

  /**
   * The dialog's default suffix from the first filter entry:
   * `entry.split('(*.')[-1][:-1]`, rejected when empty or `*`, lower-cased.
   */
  function DefaultSuffix(entry: string): (r: Option<string>)
    ensures r.Some? ==> r.value != "" && r.value != "*" && Lower(r.value) == r.value
  {
    var tail := AfterMarker(entry);
    var candidate := if |tail| > 0 then tail[..|tail| - 1] else "";
    LowerIdempotent(candidate);
    if candidate != "" && candidate != "*" then Some(Lower(candidate)) else None
  }

  /** The default suffix of an entry is the extension the entry names. */
  lemma {:induction false} DefaultSuffixOfEntry(key: string, ext: string)
    requires PlainExtension(Lower(ext))
    ensures DefaultSuffix(FilterEntry(key, ext)) == Some(Lower(ext))
  {
    var l := Lower(ext);
    EntryMarker(key, l);
    var f := FilterEntry(key, ext);
    assert AfterMarker(f) == l + ")";
    assert (l + ")")[..|l|] == l;
    LowerIdempotent(ext);
  }

  function ExportDefaultSuffix(m: FileHandler.FormatMap): Option<string> {
    if |m| > 0 then DefaultSuffix(FilterList(m)[0]) else None
  }

  // ------------------------------------------------- choosing the target

  /** Index of the first entry whose filter string is `selected`, or -1. */
  function FirstMatch(m: FileHandler.FormatMap, selected: string): (r: int)
    ensures -1 <= r < |m|
    ensures r >= 0 ==> FilterEntry(m[r].0, m[r].1) == selected
    ensures forall j :: 0 <= j < |m| && (r < 0 || j < r) ==> FilterEntry(m[j].0, m[j].1) != selected
  {
    if |m| == 0 then -1
    else if FilterEntry(m[0].0, m[0].1) == selected then 0
    else
      var k := FirstMatch(m[1..], selected);
      if k < 0 then -1 else k + 1
  }

  /** The direct lookup: the extension of the first entry whose filter is `selected`. */
  function DirectLookup(m: FileHandler.FormatMap, selected: string): Option<string> {
    var k := FirstMatch(m, selected);
    if k >= 0 then Some(m[k].1) else None
  }

  /**
   * The target extension of an export: the direct lookup when it yields a
   * non-empty extension, else the fallback parse of the selected filter.
   */
  function ExportTarget(m: FileHandler.FormatMap, selected: string): (r: Option<string>)
    ensures r.Some? ==> r.value != ""
    ensures FirstMatch(m, selected) >= 0 && m[FirstMatch(m, selected)].1 != "" ==> r == Some(m[FirstMatch(m, selected)].1)
    ensures FirstMatch(m, selected) < 0 ==> r == ExtensionFromFilter(selected)
    ensures FirstMatch(m, selected) >= 0 && m[FirstMatch(m, selected)].1 == "" ==> r == ExtensionFromFilter(selected)
  {
    var direct := DirectLookup(m, selected);
    if direct.Some? && direct.value != "" then direct else ExtensionFromFilter(selected)
  }

  /** Every extension of the map survives a filter entry. */
  predicate PlainExtensions(m: FileHandler.FormatMap) {
    forall k :: 0 <= k < |m| ==> PlainExtension(Lower(m[k].1))
  }

  /** Choosing the `j`-th filter of the list exports to the `j`-th entry's extension. */
  lemma {:induction false} ListedFilterTarget(m: FileHandler.FormatMap, j: nat)
    requires FileHandler.DistinctKeys(m) && PlainExtensions(m) && j < |m|
    ensures FirstMatch(m, FilterList(m)[j]) == j
    ensures ExportTarget(m, FilterList(m)[j]) == Some(m[j].1)
  {
    var sel := FilterList(m)[j];
    var k := FirstMatch(m, sel);
    if k != j {
      assert 0 <= k < j;
      FilterEntryInjective(m[k].0, m[k].1, m[j].0, m[j].1);
    }
  }

  /** The extension chosen through a listed filter passes the writer guard. */
  lemma {:induction false} ListedFilterWritable(formats: seq<FileHandler.FormatInfo>, m: FileHandler.FormatMap, j: nat)
    requires forall i :: 0 <= i < |formats| ==> formats[i].extension.Single?
    requires FileHandler.IsWriteFormats(formats, |formats|, m) && PlainExtensions(m) && j < |m|
    ensures ExportTarget(m, FilterList(m)[j]).Some?
    ensures FileHandler.IsSupportedWriter(formats, ExportTarget(m, FilterList(m)[j]).value)
  {
    ListedFilterTarget(m, j);
    FileHandler.WriteFormatsAreWritable(formats, m, j, m[j].1);
  }

  // ----------------------------------------------------- suggested names

  /** `stem_EXT.ext`: the name proposed for a stem and a target extension. */
  function SuggestedName(stem: string, ext: string): string {
    stem + "_" + Upper(ext) + "." + Lower(ext)
  }

  /** The name proposed when the user picks `selected`: only for a known, non-empty extension. */
  function Suggestion(m: FileHandler.FormatMap, selected: string, stem: string): Option<string> {
    var direct := DirectLookup(m, selected);
    if selected == "" || stem == "" then None
    else if direct.Some? && direct.value != "" then Some(SuggestedName(stem, direct.value))
    else None
  }

  /** The name proposed before the user picks anything: from the first entry. */
  function InitialSuggestion(m: FileHandler.FormatMap, stem: string): Option<string> {
    if |m| > 0 && stem != "" && m[0].0 != "" then Some(SuggestedName(stem, m[0].1)) else None
  }

  /** The initial proposal is the one the first filter would give. */
  lemma {:induction false} InitialSuggestionIsFirstFilter(m: FileHandler.FormatMap, stem: string)
    requires |m| > 0 && stem != "" && m[0].0 != "" && m[0].1 != ""
    ensures InitialSuggestion(m, stem) == Suggestion(m, FilterList(m)[0], stem)
    ensures InitialSuggestion(m, stem).Some?
  {
    assert FirstMatch(m, FilterList(m)[0]) == 0;
  }

  // ------------------------------------------------------- splitting paths

  /** The directory separators `ntpath` accepts. */
  const Separators: set<char> := {'/', '\\'}
  const Dots: set<char> := {'.'}

  predicate IsSep(c: char) {
    c in Separators
  }

  /** Index of the last directory separator, or -1. */
  function SepIndex(p: string): int {
    LastWhere(p, Separators)
  }

  /** The last path component has a character other than `.`. */
  predicate HasStem(p: string) {
    exists k :: SepIndex(p) < k < |p| && p[k] != '.'
  }

  predicate NoDotOrSep(e: string) {
    forall i :: 0 <= i < |e| ==> e[i] != '.' && !IsSep(e[i])
  }

  /** `ntpath.splitext`: the path before its extension, and the extension with its dot. */
  function SplitExt(p: string): (string, string) {
    var s := SepIndex(p);
    var d := LastWhere(p, Dots);
    if s < d && exists k :: s < k < d && p[k] != '.' then (p[..d], p[d..]) else (p, "")
  }

  /**
   * The two parts make up the path; a non-empty extension is a dot and
   * then neither dots nor separators, and the part before it has a stem.
   */
  lemma {:induction false} SplitExtMeaning(p: string)
    ensures SplitExt(p).0 + SplitExt(p).1 == p
    ensures SplitExt(p).1 != "" ==> SplitExt(p).1[0] == '.' && NoDotOrSep(SplitExt(p).1[1..])
    ensures SplitExt(p).1 != "" ==> HasStem(SplitExt(p).0)
  {
    var s := SepIndex(p);
    var d := LastWhere(p, Dots);
    if s < d && exists k :: s < k < d && p[k] != '.' {
      assert p == p[..d] + p[d..];
      LastWhereAppend(p[..d], p[d..], Separators);
      assert LastWhere(p[d..], Separators) < 0;
      forall i | 1 <= i < |p[d..]| ensures p[d..][i] != '.' && !IsSep(p[d..][i]) {
        assert p[d..][i] == p[d + i];
      }
    }
  }

  /** A path ending in a dot and a plain extension splits right before that dot. */
  lemma {:induction false} SplitExtDotted(a: string, b: string)
    requires HasStem(a) && NoDotOrSep(b)
    ensures SplitExt(a + "." + b) == (a, "." + b)
  {
    var p := a + "." + b;
    var q := "." + b;
    assert p == (a + ".") + b;
    assert p == a + q;
    assert LastWhere(b, Separators) < 0 && LastWhere(b, Dots) < 0;
    LastWhereAppend(a + ".", b, Separators);
    LastWhereAppend(a + ".", b, Dots);
    LastWhereAppend(a, ".", Separators);
    LastWhereAppend(a, ".", Dots);
    assert LastWhere(".", Separators) == -1;
    assert LastWhere(".", Dots) == 0;
    assert SepIndex(p) == SepIndex(a);
    var k :| SepIndex(a) < k < |a| && a[k] != '.';
    assert p[k] != '.';
    assert p[..|a|] == a && p[|a|..] == q;
  }

  lemma {:induction false} LowerPlain(e: string)
    requires NoDotOrSep(e)
    ensures NoDotOrSep(Lower(e))
  {
  }

  /**
   * The saved path gets the target's extension: a path whose extension
   * differs from `.ext` case-insensitively becomes its name plus `.ext`;
   * any other path is kept.
   */
  function ForceExtension(path: string, ext: string): (r: string)
    ensures r == path <==> Lower(SplitExt(path).1) == "." + Lower(ext)
    ensures r != path ==> r == SplitExt(path).0 + "." + Lower(ext)
  {
    var (name, current) := SplitExt(path);
    var expected := "." + Lower(ext);
    if Lower(current) != expected then ForcedDiffers(path, ext); name + expected else path
  }

  /** A path whose extension does not match gets a different name. */
  lemma {:induction false} ForcedDiffers(path: string, ext: string)
    requires Lower(SplitExt(path).1) != "." + Lower(ext)
    ensures SplitExt(path).0 + "." + Lower(ext) != path
  {
    SplitExtMeaning(path);
    var (name, current) := SplitExt(path);
    var expected := "." + Lower(ext);
    LowerAppend(".", Lower(ext));
    LowerIdempotent(ext);
    assert Lower(expected) == expected;
    assert path[|name|..] == current;
    assert (name + expected)[|name|..] == expected;
  }

  /** When the last component has a stem, forcing keeps the name and sets the extension. */
  lemma {:induction false} ForceExtensionSets(path: string, ext: string)
    requires HasStem(path) && NoDotOrSep(ext)
    ensures SplitExt(ForceExtension(path, ext)).0 == SplitExt(path).0
    ensures Lower(SplitExt(ForceExtension(path, ext)).1) == "." + Lower(ext)
  {
    SplitExtMeaning(path);
    var split := SplitExt(path);
    var e := Lower(ext);
    var r := ForceExtension(path, ext);
    if r != path {
      assert r == split.0 + "." + e;
      assert HasStem(split.0) by {
        if split.1 == "" {
          assert split.0 == path;
        }
      }
      LowerPlain(ext);
      SplitExtDotted(split.0, e);
      LowerAppend(".", e);
      LowerIdempotent(ext);
    }
  }

  lemma {:induction false} ForceExtensionIdempotent(path: string, ext: string)
    requires HasStem(path) && NoDotOrSep(ext)
    ensures ForceExtension(ForceExtension(path, ext), ext) == ForceExtension(path, ext)
  {
    ForceExtensionSets(path, ext);
  }

  /** Without a stem the forced extension is not recognised, and forcing again appends it twice. */
  lemma {:induction false} ForceExtensionNotIdempotent()
    ensures ForceExtension("a/", "pes") == "a/.pes"
    ensures ForceExtension("a/.pes", "pes") == "a/.pes.pes"
  {
    assert LastWhere("a/", Dots) == -1;
    assert SplitExt("a/") == ("a/", "");
    assert LastWhere("a/.pes", Separators) == 1 by {
      assert "a/.pes"[..5] == "a/.pe" && "a/.pe"[..4] == "a/.p" && "a/.p"[..3] == "a/.";
      assert "a/."[..2] == "a/";
    }
    assert LastWhere("a/.pes", Dots) == 2 by {
      assert "a/.pes"[..5] == "a/.pe" && "a/.pe"[..4] == "a/.p" && "a/.p"[..3] == "a/.";
    }
    assert SplitExt("a/.pes") == ("a/.pes", "");
  }

  /**
   * A target with a dot is not recognised on a second pass either: the
   * path's extension is only what follows its last dot.
   */
  lemma {:induction false} ForceExtensionDottedTarget()
    ensures ForceExtension("x", "a.b") == "x.a.b"
    ensures ForceExtension("x.a.b", "a.b") == "x.a.a.b"
  {
    assert LastWhere("x", Dots) == -1;
    assert SplitExt("x") == ("x", "");
    assert LastWhere("x.a.b", Separators) == -1 by {
      assert "x.a.b"[..4] == "x.a." && "x.a."[..3] == "x.a" && "x.a"[..2] == "x." && "x."[..1] == "x";
    }
    assert LastWhere("x.a.b", Dots) == 3 by {
      assert "x.a.b"[..4] == "x.a.";
    }
    assert "x.a.b"[0] != '.';
    assert "x.a.b"[..3] == "x.a" && "x.a.b"[3..] == ".b";
    assert SplitExt("x.a.b") == ("x.a", ".b");
  }

  /** A suggested name already carries its extension, so the export keeps it. */
  lemma {:induction false} SuggestedNameKept(stem: string, ext: string)
    requires NoDotOrSep(ext)
    ensures SplitExt(SuggestedName(stem, ext)) == (stem + "_" + Upper(ext), "." + Lower(ext))
    ensures ForceExtension(SuggestedName(stem, ext), ext) == SuggestedName(stem, ext)
  {
    var a := stem + "_" + Upper(ext);
    assert NoDotOrSep(Upper(ext));
    LowerPlain(ext);
    assert a == (stem + "_") + Upper(ext);
    LastWhereAppend(stem + "_", Upper(ext), Separators);
    LastWhereAppend(stem, "_", Separators);
    assert LastWhere("_", Separators) == -1;
    assert LastWhere(Upper(ext), Separators) < 0;
    assert a[|stem|] == '_';
    assert HasStem(a);
    SplitExtDotted(a, Lower(ext));
    assert SuggestedName(stem, ext) == a + "." + Lower(ext);
    LowerAppend(".", Lower(ext));
    LowerIdempotent(ext);
  }
}
