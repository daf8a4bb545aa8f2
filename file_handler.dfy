/**
 * `FileHandler` of file_handler.py: turns the codec library's format
 * records into the import dialog's filters and the export dialog's
 * filter-to-extension table, and guards `write_pattern` against formats
 * the library cannot write.
 */
module FileHandler {
  import opened Wrappers
  import opened Text
  import opened Pattern

  // -------------------------------------------------------- format records

  /** The `"extension"` entry of a record: one string or a list of them (absent reads as `[]`). */
  datatype Extensions = Single(ext: string) | Many(exts: seq<string>)

  /** One record of `supported_formats()`; `description` is `None` when the key is absent. */
  datatype FormatInfo = FormatInfo(extension: Extensions, description: Option<string>, reader: bool, writer: bool)

  /** A string extension is treated as a one-element list. */
  function ExtensionList(e: Extensions): seq<string> {
    match e
    case Single(x) => [x]
    case Many(xs) => xs
  }

  /** `[ext.lower() for ext in extensions if ext and ext.strip()]`. */
  function ValidExtensions(exts: seq<string>): (r: seq<string>)
    ensures |r| <= |exts|
  {
    if exts == [] then []
    else (if NonBlank(exts[0]) then [Lower(exts[0])] else []) + ValidExtensions(exts[1..])
  }

  /** The valid extensions are the lower-cased non-blank entries. */
  lemma {:induction false} ValidExtensionsMeaning(exts: seq<string>, e: string)
    ensures e in ValidExtensions(exts) <==> exists x :: x in exts && NonBlank(x) && e == Lower(x)
  {
    if exts != [] {
      ValidExtensionsMeaning(exts[1..], e);
      assert forall x :: x in exts <==> x == exts[0] || x in exts[1..];
    }
  }

  const DefaultReadDescription := "Embroidery File"

  function ReadDescription(f: FormatInfo): string {
    f.description.GetOr(DefaultReadDescription)
  }

  function ValidExtensionsOf(f: FormatInfo): seq<string> {
    ValidExtensions(ExtensionList(f.extension))
  }

  /** A record that adds to the read formats: it has a reader and some valid extension. */
  predicate Contributes(f: FormatInfo) {
    f.reader && |ValidExtensionsOf(f)| > 0
  }

  // ------------------------------------------------- read-format spec

  /** The descriptions of the contributing records among the first `n`. */
  function ReadDescriptions(fs: seq<FormatInfo>, n: nat): set<string>
    requires n <= |fs|
  {
    if n == 0 then {}
    else ReadDescriptions(fs, n - 1) + (if Contributes(fs[n - 1]) then {ReadDescription(fs[n - 1])} else {})
  }

  /** The valid extensions of the contributing records among the first `n` that have description `d`. */
  function ExtensionsFor(fs: seq<FormatInfo>, n: nat, d: string): set<string>
    requires n <= |fs|
  {
    if n == 0 then {}
    else
      ExtensionsFor(fs, n - 1, d)
      + (if Contributes(fs[n - 1]) && ReadDescription(fs[n - 1]) == d then Elems(ValidExtensionsOf(fs[n - 1])) else {})
  }

  /** The valid extensions of the contributing records among the first `n`, in record order. */
  function ReadExtensionsUpTo(fs: seq<FormatInfo>, n: nat): seq<string>
    requires n <= |fs|
  {
    if n == 0 then []
    else ReadExtensionsUpTo(fs, n - 1) + (if Contributes(fs[n - 1]) then ValidExtensionsOf(fs[n - 1]) else [])
  }

  /** `all_read_extensions_list` after the whole loop. */
  function ReadExtensionList(fs: seq<FormatInfo>): seq<string> {
    ReadExtensionsUpTo(fs, |fs|)
  }

  /** A description is listed exactly when some contributing record carries it. */
  lemma {:induction false} ReadDescriptionsMeaning(fs: seq<FormatInfo>, n: nat, d: string)
    requires n <= |fs|
    ensures d in ReadDescriptions(fs, n) <==> exists i :: 0 <= i < n && Contributes(fs[i]) && ReadDescription(fs[i]) == d
  {
    if n > 0 {
      ReadDescriptionsMeaning(fs, n - 1, d);
    }
  }

  /** An extension is listed for `d` exactly when a contributing record with description `d` offers it. */
  lemma {:induction false} ExtensionsForMeaning(fs: seq<FormatInfo>, n: nat, d: string, e: string)
    requires n <= |fs|
    ensures e in ExtensionsFor(fs, n, d)
      <==> exists i :: 0 <= i < n && Contributes(fs[i]) && ReadDescription(fs[i]) == d && e in ValidExtensionsOf(fs[i])
  {
    if n > 0 {
      ExtensionsForMeaning(fs, n - 1, d, e);
      assert e in Elems(ValidExtensionsOf(fs[n - 1])) <==> e in ValidExtensionsOf(fs[n - 1]);
    }
  }

  /** A description that has some extension is one of the descriptions. */
  lemma {:induction false} ExtensionsForDescribed(fs: seq<FormatInfo>, n: nat, d: string)
    requires n <= |fs|
    ensures ExtensionsFor(fs, n, d) != {} ==> d in ReadDescriptions(fs, n)
  {
    if n > 0 {
      ExtensionsForDescribed(fs, n - 1, d);
    }
  }

  // ---------------------------------------------------- read formats

  const AllFilesFilter := "All Files (*)"
  const AllSupportedPrefix := "All Supported Embroidery Files ("

  /** The file-dialog pattern for one extension. */
  function Glob(ext: string): string {
    "*." + ext
  }

  /** `['*.' + ext for ext in exts]`. */
  function Asterisked(exts: seq<string>): (r: seq<string>)
    ensures |r| == |exts|
    ensures forall i :: 0 <= i < |exts| ==> r[i] == Glob(exts[i])
  {
    seq(|exts|, i requires 0 <= i < |exts| => Glob(exts[i]))
  }

  /** The asterisked patterns are exactly `Glob(e)` for the extensions `e` of the list. */
  lemma {:induction false} AsteriskedElems(all: seq<string>)
    ensures forall x :: x in Asterisked(all) ==> exists e :: e in all && x == Glob(e)
    ensures forall e :: e in all ==> Glob(e) in Asterisked(all)
  {
    forall x | x in Asterisked(all) ensures exists e :: e in all && x == Glob(e) {
      var k :| 0 <= k < |all| && Asterisked(all)[k] == x;
      assert all[k] in all;
    }
    forall e | e in all ensures Glob(e) in Asterisked(all) {
      var k :| 0 <= k < |all| && all[k] == e;
      assert Asterisked(all)[k] == Glob(e);
    }
  }

  /** `sorted(set(['*.' + ext for ext in all]))`: each extension's pattern once, in order. */
  function FilterPatterns(all: seq<string>): (r: seq<string>)
    ensures Sorted(r)
    ensures forall x :: x in r ==> exists e :: e in all && x == Glob(e)
    ensures forall e :: e in all ==> Glob(e) in r
  {
    AsteriskedElems(all);
    var r := SortedDistinct(Asterisked(all));
    assert forall x :: x in r <==> x in Elems(r);
    assert forall x :: x in Asterisked(all) <==> x in Elems(Asterisked(all));
    r
  }

  /** The combined filter string built from `all_read_extensions_list`. */
  function ReadFilterString(all: seq<string>): (r: string)
    ensures r == AllFilesFilter <==> |all| == 0
    ensures |r| >= |AllFilesFilter| && r[|r| - |AllFilesFilter|..] == AllFilesFilter
  {
    if |all| == 0 then AllFilesFilter
    else
      var r := AllSupportedPrefix + Join(" ", FilterPatterns(all)) + ");;" + AllFilesFilter;
      assert |r| > |AllFilesFilter|;
      assert r[|r| - |AllFilesFilter|..] == AllFilesFilter;
      r
  }

  /** The two shapes `get_supported_read_formats` returns, chosen by `as_dict`. */
  datatype ReadFormats = FormatsDict(formats: map<string, seq<string>>) | Filter(filter: string)

  /** The table `get_supported_read_formats` has built after the first `n` records. */
  function ReadTable(fs: seq<FormatInfo>, n: nat): map<string, seq<string>>
    requires n <= |fs|
  {
    if n == 0 then map[]
    else
      var t := ReadTable(fs, n - 1);
      var f := fs[n - 1];
      if Contributes(f) then
        var d := ReadDescription(f);
        var current := if d in t then t[d] else [];
        t[d := SortedDistinct(current + ValidExtensionsOf(f))]
      else t
  }

  /** The table's keys are the descriptions of the contributing records. */
  lemma {:induction false} ReadTableKeys(fs: seq<FormatInfo>, n: nat)
    requires n <= |fs|
    ensures ReadTable(fs, n).Keys == ReadDescriptions(fs, n)
  {
    if n > 0 {
      ReadTableKeys(fs, n - 1);
    }
  }

  /** Merging record `n - 1` into its description's gathered list. */
  lemma {:induction false} ReadTableMerge(fs: seq<FormatInfo>, n: nat, d: string, current: seq<string>)
    requires 0 < n <= |fs| && Contributes(fs[n - 1]) && ReadDescription(fs[n - 1]) == d
    requires Elems(current) == ExtensionsFor(fs, n - 1, d)
    ensures Sorted(SortedDistinct(current + ValidExtensionsOf(fs[n - 1])))
    ensures Elems(SortedDistinct(current + ValidExtensionsOf(fs[n - 1]))) == ExtensionsFor(fs, n, d)
  {
    assert Elems(current + ValidExtensionsOf(fs[n - 1])) == Elems(current) + Elems(ValidExtensionsOf(fs[n - 1]));
  }

  /** Each description maps to the sorted, duplicate-free list of all its records' extensions. */
  lemma {:induction false} ReadTableValues(fs: seq<FormatInfo>, n: nat, d: string)
    requires n <= |fs| && d in ReadTable(fs, n)
    ensures Sorted(ReadTable(fs, n)[d])
    ensures Elems(ReadTable(fs, n)[d]) == ExtensionsFor(fs, n, d)
  {
    if n > 0 {
      var t := ReadTable(fs, n - 1);
      var f := fs[n - 1];
      if Contributes(f) && ReadDescription(f) == d {
        var current := if d in t then t[d] else [];
        if d in t {
          ReadTableValues(fs, n - 1, d);
        } else {
          ReadTableKeys(fs, n - 1);
          ExtensionsForDescribed(fs, n - 1, d);
        }
        ReadTableMerge(fs, n, d, current);
      } else {
        ReadTableValues(fs, n - 1, d);
      }
    }
  }

  /**
   * `get_supported_read_formats(as_dict)` over the records `formats`
   * returned by `supported_formats()`.
   */
  method GetSupportedReadFormats(formats: seq<FormatInfo>, asDict: bool) returns (r: ReadFormats)
    ensures asDict ==> r.FormatsDict? && r.formats.Keys == ReadDescriptions(formats, |formats|)
    ensures asDict ==> forall d :: d in r.formats ==>
      Sorted(r.formats[d]) && Elems(r.formats[d]) == ExtensionsFor(formats, |formats|, d)
    ensures !asDict ==> r == Filter(ReadFilterString(ReadExtensionList(formats)))
  {
    var dict: map<string, seq<string>> := map[];
    var all: seq<string> := [];
    var i := 0;
    while i < |formats|
      invariant 0 <= i <= |formats|
      invariant dict == ReadTable(formats, i)
      invariant all == ReadExtensionsUpTo(formats, i)
    {
      var f := formats[i];
      if f.reader {
        var description := f.description.GetOr(DefaultReadDescription);
        var valid := ValidExtensions(ExtensionList(f.extension));
        if |valid| > 0 {
          all := all + valid;
          if description !in dict {
            dict := dict[description := []];
          }
          dict := dict[description := SortedDistinct(dict[description] + valid)];
        }
      }
      i := i + 1;
    }
    if asDict {
      ReadTableKeys(formats, |formats|);
      forall d | d in dict ensures Sorted(dict[d]) && Elems(dict[d]) == ExtensionsFor(formats, |formats|, d) {
        ReadTableValues(formats, |formats|, d);
      }
      r := FormatsDict(dict);
    } else {
      r := Filter(ReadFilterString(all));
    }
  }

  /** The combined list is empty exactly when no record among the first `n` contributes. */
  lemma {:induction false} ReadExtensionsEmpty(fs: seq<FormatInfo>, n: nat)
    requires n <= |fs|
    ensures ReadExtensionsUpTo(fs, n) == [] <==> forall i :: 0 <= i < n ==> !Contributes(fs[i])
  {
    if n > 0 {
      ReadExtensionsEmpty(fs, n - 1);
    }
  }

  /** The filter is the bare `"All Files (*)"` exactly when no record has a reader and a valid extension. */
  lemma {:induction false} OnlyAllFiles(fs: seq<FormatInfo>)
    ensures ReadFilterString(ReadExtensionList(fs)) == AllFilesFilter
      <==> forall i :: 0 <= i < |fs| ==> !Contributes(fs[i])
  {
    ReadExtensionsEmpty(fs, |fs|);
  }

  /** Every extension in the combined list is in the table under some description. */
  lemma {:induction false} ReadListSound(fs: seq<FormatInfo>, n: nat, e: string)
    requires n <= |fs| && e in ReadExtensionsUpTo(fs, n)
    ensures exists d :: e in ExtensionsFor(fs, n, d)
  {
    var f := fs[n - 1];
    if e in ReadExtensionsUpTo(fs, n - 1) {
      ReadListSound(fs, n - 1, e);
      var d :| e in ExtensionsFor(fs, n - 1, d);
      assert e in ExtensionsFor(fs, n, d);
    } else {
      assert e in Elems(ValidExtensionsOf(f));
      assert e in ExtensionsFor(fs, n, ReadDescription(f));
    }
  }

  /** Every extension in the table is in the combined list. */
  lemma {:induction false} ReadListComplete(fs: seq<FormatInfo>, n: nat, d: string, e: string)
    requires n <= |fs| && e in ExtensionsFor(fs, n, d)
    ensures e in ReadExtensionsUpTo(fs, n)
  {
    if e in ExtensionsFor(fs, n - 1, d) {
      ReadListComplete(fs, n - 1, d, e);
    } else {
      assert e in Elems(ValidExtensionsOf(fs[n - 1]));
    }
  }

  /** The combined list holds exactly the extensions the per-description table holds. */
  lemma {:induction false} ReadListMatchesDict(fs: seq<FormatInfo>, e: string)
    ensures e in ReadExtensionList(fs) <==> exists d :: e in ExtensionsFor(fs, |fs|, d)
  {
    if e in ReadExtensionList(fs) {
      ReadListSound(fs, |fs|, e);
    }
    if exists d :: e in ExtensionsFor(fs, |fs|, d) {
      var d :| e in ExtensionsFor(fs, |fs|, d);
      ReadListComplete(fs, |fs|, d, e);
    }
  }

  // --------------------------------------------------- write formats

  /** A writer record's string extension (`fmt_info['extension']`). */
  function WriteExtension(f: FormatInfo): string
    requires f.extension.Single?
  {
    f.extension.ext
  }

  /** `"description (*.ext)"`, the description defaulting to `"EXT Format"`. */
  function WriteKey(f: FormatInfo): string
    requires f.extension.Single?
  {
    var ext := WriteExtension(f);
    f.description.GetOr(Upper(ext) + " Format") + " (*." + ext + ")"
  }

  /** Record `f` is a writer whose filter key is `k`. */
  predicate WritesKey(f: FormatInfo, k: string) {
    f.writer && f.extension.Single? && WriteKey(f) == k
  }

  /** Index of the last writer for key `k` among the first `n` records, or -1. */
  function LastWriterIndex(fs: seq<FormatInfo>, n: nat, k: string): (r: int)
    requires n <= |fs|
    ensures -1 <= r < n
    ensures r >= 0 ==> WritesKey(fs[r], k)
    ensures forall i :: r < i < n ==> !WritesKey(fs[i], k)
  {
    if n == 0 then -1
    else if WritesKey(fs[n - 1], k) then n - 1
    else LastWriterIndex(fs, n - 1, k)
  }

  /** Index of the first writer for key `k` among the first `n` records, or -1. */
  function FirstWriterIndex(fs: seq<FormatInfo>, n: nat, k: string): (r: int)
    requires n <= |fs|
    ensures -1 <= r < n
    ensures r >= 0 ==> WritesKey(fs[r], k)
    ensures forall i :: 0 <= i < n && (r < 0 || i < r) ==> !WritesKey(fs[i], k)
  {
    if n == 0 then -1
    else
      var r := FirstWriterIndex(fs, n - 1, k);
      if r >= 0 then r
      else if WritesKey(fs[n - 1], k) then n - 1
      else -1
  }

  /** An insertion-ordered dictionary, as a Python `dict` keeps its items. */
  type FormatMap = seq<(string, string)>

  predicate DistinctKeys(m: FormatMap) {
    forall i, j :: 0 <= i < j < |m| ==> m[i].0 != m[j].0
  }

  predicate HasKey(m: FormatMap, k: string) {
    exists j :: 0 <= j < |m| && m[j].0 == k
  }

  /** `m[k] = v`: an existing key keeps its place, a new one goes last. */
  function Put(m: FormatMap, k: string, v: string): (r: FormatMap)
    requires DistinctKeys(m)
    ensures DistinctKeys(r)
    ensures HasKey(m, k) ==> |r| == |m| && forall j :: 0 <= j < |m| ==> r[j] == if m[j].0 == k then (k, v) else m[j]
    ensures !HasKey(m, k) ==> r == m + [(k, v)]
    ensures forall k' :: HasKey(r, k') <==> HasKey(m, k') || k' == k
  {
    if HasKey(m, k) then
      var r := seq(|m|, j requires 0 <= j < |m| => if m[j].0 == k then (k, v) else m[j]);
      assert forall j :: 0 <= j < |m| ==> r[j].0 == m[j].0;
      r
    else
      var r := m + [(k, v)];
      assert r[|m|].0 == k;
      assert forall j :: 0 <= j < |m| ==> r[j] == m[j];
      r
  }

  /**
   * The table `get_supported_write_formats` has built after the first `n`
   * records: one entry per distinct writer key, in order of each key's
   * first writer, holding the extension of its last writer.
   */
  ghost predicate IsWriteFormats(fs: seq<FormatInfo>, n: nat, m: FormatMap)
    requires n <= |fs|
  {
    && DistinctKeys(m)
    && (forall k :: HasKey(m, k) <==> LastWriterIndex(fs, n, k) >= 0)
    && (forall j :: 0 <= j < |m| ==>
          LastWriterIndex(fs, n, m[j].0) >= 0 && m[j].1 == WriteExtension(fs[LastWriterIndex(fs, n, m[j].0)]))
    && (forall j1, j2 :: 0 <= j1 < j2 < |m| ==> FirstWriterIndex(fs, n, m[j1].0) < FirstWriterIndex(fs, n, m[j2].0))
  }

  lemma {:induction false} FirstLastAgree(fs: seq<FormatInfo>, n: nat, k: string)
    requires n <= |fs|
    ensures (FirstWriterIndex(fs, n, k) >= 0) <==> (LastWriterIndex(fs, n, k) >= 0)
  {
  }

  /** A record that is not a writer leaves the table as it is. */
  lemma {:induction false} WriteStepSkip(fs: seq<FormatInfo>, n: nat, m: FormatMap)
    requires n < |fs| && !fs[n].writer && IsWriteFormats(fs, n, m)
    ensures IsWriteFormats(fs, n + 1, m)
  {
    assert forall k :: LastWriterIndex(fs, n + 1, k) == LastWriterIndex(fs, n, k);
    assert forall k :: FirstWriterIndex(fs, n + 1, k) == FirstWriterIndex(fs, n, k);
  }

  /** How the indices of the first and last writers move when writer record `n` has key `key`. */
  lemma {:induction false} WriterIndexStep(fs: seq<FormatInfo>, n: nat, key: string)
    requires n < |fs| && WritesKey(fs[n], key)
    ensures forall k :: LastWriterIndex(fs, n + 1, k) == (if k == key then n else LastWriterIndex(fs, n, k))
    ensures forall k :: FirstWriterIndex(fs, n + 1, k)
                        == (if FirstWriterIndex(fs, n, k) >= 0 then FirstWriterIndex(fs, n, k) else if k == key then n else -1)
    ensures forall k :: FirstWriterIndex(fs, n, k) >= 0 <==> LastWriterIndex(fs, n, k) >= 0
  {
    assert WritesKey(fs[n], key);
    forall k ensures LastWriterIndex(fs, n + 1, k) == (if k == key then n else LastWriterIndex(fs, n, k)) {
      if k == key {
        assert LastWriterIndex(fs, n + 1, k) == n;
      } else {
        assert !WritesKey(fs[n], k);
      }
    }
    forall k ensures FirstWriterIndex(fs, n + 1, k)
                     == (if FirstWriterIndex(fs, n, k) >= 0 then FirstWriterIndex(fs, n, k) else if k == key then n else -1)
    {
      if k != key {
        assert !WritesKey(fs[n], k);
      }
    }
    forall k ensures FirstWriterIndex(fs, n, k) >= 0 <==> LastWriterIndex(fs, n, k) >= 0 {
      FirstLastAgree(fs, n, k);
    }
  }

  /** A writer whose key is already in the table replaces that entry's extension in place. */
  lemma {:induction false} WriteStepUpdate(fs: seq<FormatInfo>, n: nat, m: FormatMap)
    requires n < |fs| && fs[n].writer && fs[n].extension.Single? && IsWriteFormats(fs, n, m)
    requires HasKey(m, WriteKey(fs[n]))
    ensures IsWriteFormats(fs, n + 1, Put(m, WriteKey(fs[n]), WriteExtension(fs[n])))
  {
    var key := WriteKey(fs[n]);
    var r := Put(m, key, WriteExtension(fs[n]));
    WriterIndexStep(fs, n, key);
    assert forall k :: HasKey(r, k) <==> LastWriterIndex(fs, n + 1, k) >= 0;
    forall j | 0 <= j < |r|
      ensures LastWriterIndex(fs, n + 1, r[j].0) >= 0 && r[j].1 == WriteExtension(fs[LastWriterIndex(fs, n + 1, r[j].0)])
    {
      assert r[j].0 == m[j].0;
    }
    forall j | 0 <= j < |r| ensures FirstWriterIndex(fs, n + 1, r[j].0) == FirstWriterIndex(fs, n, m[j].0) {
      assert r[j].0 == m[j].0;
      assert HasKey(m, m[j].0);
    }
  }

  /** A writer with a new key adds an entry at the end. */
  lemma {:induction false} WriteStepAppend(fs: seq<FormatInfo>, n: nat, m: FormatMap)
    requires n < |fs| && fs[n].writer && fs[n].extension.Single? && IsWriteFormats(fs, n, m)
    requires !HasKey(m, WriteKey(fs[n]))
    ensures IsWriteFormats(fs, n + 1, Put(m, WriteKey(fs[n]), WriteExtension(fs[n])))
  {
    var key, v := WriteKey(fs[n]), WriteExtension(fs[n]);
    var r := Put(m, key, v);
    assert r == m + [(key, v)];
    WriterIndexStep(fs, n, key);
    assert LastWriterIndex(fs, n, key) < 0 && FirstWriterIndex(fs, n, key) < 0;
    assert FirstWriterIndex(fs, n + 1, key) == n;
    forall j | 0 <= j < |m|
      ensures m[j].0 != key && LastWriterIndex(fs, n + 1, m[j].0) == LastWriterIndex(fs, n, m[j].0)
      ensures FirstWriterIndex(fs, n + 1, m[j].0) == FirstWriterIndex(fs, n, m[j].0) < n
    {
      assert HasKey(m, m[j].0);
    }
    forall j | 0 <= j < |r|
      ensures LastWriterIndex(fs, n + 1, r[j].0) >= 0 && r[j].1 == WriteExtension(fs[LastWriterIndex(fs, n + 1, r[j].0)])
    {
      if j < |m| {
        assert r[j] == m[j];
      }
    }
    forall j1, j2 | 0 <= j1 < j2 < |r|
      ensures FirstWriterIndex(fs, n + 1, r[j1].0) < FirstWriterIndex(fs, n + 1, r[j2].0)
    {
      assert r[j1] == m[j1];
      if j2 < |m| {
        assert r[j2] == m[j2];
      }
    }
  }


  /** The loop invariant of `GetSupportedWriteFormats`: the table built so far. */
  ghost predicate WriteLoop(fs: seq<FormatInfo>, n: nat, m: FormatMap) {
    n <= |fs| && IsWriteFormats(fs, n, m)
  }

  /** One pass of the loop over record `fs[n]`: a writer puts its key and extension. */
  function WriteNext(fs: seq<FormatInfo>, n: nat, m: FormatMap): (r: FormatMap)
    requires n < |fs| && DistinctKeys(m)
    requires fs[n].writer ==> fs[n].extension.Single?
    ensures DistinctKeys(r)
  {
    if fs[n].writer then Put(m, WriteKey(fs[n]), WriteExtension(fs[n])) else m
  }

  /** One record of the loop keeps the invariant: a writer either overwrites its key's entry or appends one. */
  lemma {:induction false} WriteStep(fs: seq<FormatInfo>, n: nat, m: FormatMap)
    requires 0 < n <= |fs| && WriteLoop(fs, n - 1, m)
    requires fs[n - 1].writer ==> fs[n - 1].extension.Single?
    ensures WriteLoop(fs, n, WriteNext(fs, n - 1, m))
  {
    if !fs[n - 1].writer {
      WriteStepSkip(fs, n - 1, m);
    } else if HasKey(m, WriteKey(fs[n - 1])) {
      WriteStepUpdate(fs, n - 1, m);
    } else {
      WriteStepAppend(fs, n - 1, m);
    }
  }

  lemma {:induction false} WriteInit(fs: seq<FormatInfo>)
    ensures IsWriteFormats(fs, 0, [])
  {
  }

  /** The table the first `n` records build, one `put` per writer. */
  function WriteTable(fs: seq<FormatInfo>, n: nat): (m: FormatMap)
    requires n <= |fs|
    requires forall i :: 0 <= i < n && fs[i].writer ==> fs[i].extension.Single?
    ensures DistinctKeys(m)
  {
    if n == 0 then [] else WriteNext(fs, n - 1, WriteTable(fs, n - 1))
  }

  /** The table of the first `n` records is the write table of those records. */
  lemma {:induction false} WriteTableMeaning(fs: seq<FormatInfo>, n: nat)
    requires n <= |fs|
    requires forall i :: 0 <= i < n && fs[i].writer ==> fs[i].extension.Single?
    ensures WriteLoop(fs, n, WriteTable(fs, n))
  {
    if n == 0 {
      WriteInit(fs);
    } else {
      WriteTableMeaning(fs, n - 1);
      WriteStep(fs, n, WriteTable(fs, n - 1));
    }
  }

  /** The table is empty exactly when none of the records is a writer. */
  lemma {:induction false} WriteTableEmpty(fs: seq<FormatInfo>, n: nat)
    requires n <= |fs|
    requires forall i :: 0 <= i < n && fs[i].writer ==> fs[i].extension.Single?
    ensures |WriteTable(fs, n)| == 0 <==> forall i :: 0 <= i < n ==> !fs[i].writer
  {
    if n > 0 {
      WriteTableEmpty(fs, n - 1);
      if fs[n - 1].writer {
        var m := WriteTable(fs, n - 1);
        var key := WriteKey(fs[n - 1]);
        assert HasKey(Put(m, key, WriteExtension(fs[n - 1])), key);
      }
    }
  }

  /** `get_supported_write_formats()` over the records `formats`. */
  method GetSupportedWriteFormats(formats: seq<FormatInfo>) returns (m: FormatMap)
    requires forall i :: 0 <= i < |formats| && formats[i].writer ==> formats[i].extension.Single?
    ensures m == WriteTable(formats, |formats|)
    ensures IsWriteFormats(formats, |formats|, m)
  {
    m := [];
    var i := 0;
    while i < |formats|
      invariant 0 <= i <= |formats|
      invariant m == WriteTable(formats, i)
    {
      var f := formats[i];
      if f.writer {
        var ext := WriteExtension(f);
        var key := WriteKey(f);
        m := Put(m, key, ext);
      }
      i := i + 1;
    }
    WriteTableMeaning(formats, |formats|);
  }

  /** The case-insensitive writer check of `write_pattern` (total because every extension is a string). */
  predicate IsSupportedWriter(formats: seq<FormatInfo>, target: string)
    requires forall i :: 0 <= i < |formats| ==> formats[i].extension.Single?
  {
    exists i | 0 <= i < |formats| :: Lower(formats[i].extension.ext) == Lower(target) && formats[i].writer
  }

  /**
   * `write_pattern(pattern, file_path, target_format_extension)`.
   * `write(p, path)` says whether the library's `write` completes without
   * raising; `attempted` records whether it is called at all.
   */
  method WritePattern(pattern: Option<Pattern>, formats: seq<FormatInfo>, filePath: string, target: string,
                      write: (Pattern, string) -> bool)
    returns (ok: bool, ghost attempted: bool)
    requires forall i :: 0 <= i < |formats| ==> formats[i].extension.Single?
    ensures attempted <==> pattern.Some? && IsSupportedWriter(formats, target)
    ensures ok <==> attempted && write(pattern.value, filePath)
  {
    attempted := false;
    if pattern.None? {
      return false, attempted;
    }
    var supported := exists i | 0 <= i < |formats| ::
      Lower(formats[i].extension.ext) == Lower(target) && formats[i].writer;
    if !supported {
      return false, attempted;
    }
    attempted := true;
    ok := write(pattern.value, filePath);
  }

  /** Every extension the write table offers passes the guard of `write_pattern`, in any letter case. */
  lemma {:induction false} WriteFormatsAreWritable(formats: seq<FormatInfo>, m: FormatMap, j: nat, target: string)
    requires forall i :: 0 <= i < |formats| ==> formats[i].extension.Single?
    requires IsWriteFormats(formats, |formats|, m) && j < |m|
    requires Lower(target) == Lower(m[j].1)
    ensures IsSupportedWriter(formats, target)
  {
    var i := LastWriterIndex(formats, |formats|, m[j].0);
    assert Lower(formats[i].extension.ext) == Lower(target) && formats[i].writer;
  }
}
