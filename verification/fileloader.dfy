/**
 * The slice store (`FileLoader`): indexes the files of the chosen directory by the slice
 * number in their names and serves slice contents with a fixed fallback chain. A file is a
 * value (its relative path, its name, its text); reading it is reading that text.
 */
module FileLoader {
  import opened Wrappers
  import opened Text
  import opened Sorting

  /** One directory entry: `webkitRelativePath`, `name`, and the text `entry.text()` yields. */
  datatype Entry = Entry(path: string, name: string, text: string)

  /**
   * The loader's state: the directory entries, the edge files found by `getEdgeFiles`, the
   * slice map, and the cached text of the zero template.
   */
  datatype Loader = Loader(
    entries: seq<Entry>,
    edgeFiles: seq<Entry>,
    bySlice: map<int, Entry>,
    zeroCache: Option<string>)

  const DirEdges: string := "edge_prefix_sum/"
  const ZeroTemplateName: string := "-1.json"

  /** The constructor: nothing indexed, nothing cached. */
  function NewLoader(entries: seq<Entry>): Loader {
    Loader(entries, [], map[], None)
  }

  /** An entry lies under the edge directory and is not the directory itself. */
  predicate IsEdgeFile(e: Entry) {
    Contains(e.path, DirEdges) && !EndsWith(e.path, DirEdges)
  }

  /** `getFilenameIndex`: `parseInt` of the name up to its first dot; None is NaN. */
  function FilenameIndex(name: string): Option<int> {
    ParseInt(BeforeFirstDot(name))
  }

  /** The comparator of the `edgeFiles` sort, `getFilenameIndex(a) - getFilenameIndex(b)`. */
  function EdgeFileKey(e: Entry): SortKey {
    SortKey(FilenameIndex(e.name).GetOr(0), "")
  }

  /** The scan loop of `getEdgeFiles`: appends each edge file and enters it under its index.
      The loop does both in one pass; they are independent, so each is its own fold. */
  function Scan(es: seq<Entry>, files: seq<Entry>, bySlice: map<int, Entry>): (seq<Entry>, map<int, Entry>)
  {
    (ScanAppend(es, files), ScanIndex(es, bySlice))
  }

  /** `edgeFiles.push(file)` for each edge file. */
  function ScanAppend(es: seq<Entry>, files: seq<Entry>): seq<Entry> {
    if |es| == 0 then files
    else ScanAppend(es[1..], if IsEdgeFile(es[0]) then files + [es[0]] else files)
  }

  /** `edgeFilesBySlice[getFilenameIndex(file.name)] = file` for each edge file; a NaN index
      is not a valid key. */
  function ScanIndex(es: seq<Entry>, bySlice: map<int, Entry>): map<int, Entry> {
    if |es| == 0 then bySlice
    else
      var e := es[0];
      var idx := FilenameIndex(e.name);
      ScanIndex(es[1..], if IsEdgeFile(e) && idx.Some? then bySlice[idx.value := e] else bySlice)
  }

  /**
   * `getEdgeFiles`: a no-op once `edgeFiles` is non-empty; otherwise scans every entry and
   * sorts `edgeFiles` by index.
   */
  function GetEdgeFiles(l: Loader): Loader {
    if |l.edgeFiles| > 0 then l
    else
      var (files, bySlice) := Scan(l.entries, l.edgeFiles, l.bySlice);
      l.(edgeFiles := Sort(files, EdgeFileKey), bySlice := bySlice)
  }

  /** The edge files among `es`, in directory order. */
  function EdgeFilesOf(es: seq<Entry>): seq<Entry> {
    if |es| == 0 then []
    else (if IsEdgeFile(es[0]) then [es[0]] else []) + EdgeFilesOf(es[1..])
  }

  /** `e` is an edge file whose name parses to slice `k`. */
  predicate IndexedAs(e: Entry, k: int) {
    IsEdgeFile(e) && FilenameIndex(e.name) == Some(k)
  }

  /** The last edge file of `es` whose name parses to `k`, if any. */
  function LastWithIndex(es: seq<Entry>, k: int): Option<Entry> {
    if |es| == 0 then None
    else
      var later := LastWithIndex(es[1..], k);
      if later.Some? then later
      else if IndexedAs(es[0], k) then Some(es[0])
      else None
  }

  /** `LastWithIndex` by position: it finds an entry iff some entry is indexed `k`, and then
      it is the one at the last such position. */
  lemma {:induction false} LastWithIndexAt(es: seq<Entry>, k: int)
    ensures LastWithIndex(es, k).Some? <==> exists j :: 0 <= j < |es| && IndexedAs(es[j], k)
    ensures LastWithIndex(es, k).Some? ==>
      exists j :: (0 <= j < |es| && IndexedAs(es[j], k) && LastWithIndex(es, k).value == es[j]
        && forall i :: j < i < |es| ==> !IndexedAs(es[i], k))
  {
    if |es| > 0 {
      var rest := es[1..];
      LastWithIndexAt(rest, k);
      assert forall j :: 0 <= j < |rest| ==> rest[j] == es[j + 1];
      if LastWithIndex(rest, k).Some? {
        var j :| 0 <= j < |rest| && IndexedAs(rest[j], k) && LastWithIndex(rest, k).value == rest[j]
          && forall i :: j < i < |rest| ==> !IndexedAs(rest[i], k);
        assert IndexedAs(es[j + 1], k);
        assert forall i :: j + 1 < i < |es| ==> !IndexedAs(es[i], k) by {
          forall i | j + 1 < i < |es| ensures !IndexedAs(es[i], k) {
            assert es[i] == rest[i - 1];
          }
        }
      } else {
        assert forall i :: 0 < i < |es| ==> !IndexedAs(es[i], k) by {
          forall i | 0 < i < |es| ensures !IndexedAs(es[i], k) {
            assert es[i] == rest[i - 1];
          }
        }
      }
    }
  }

  lemma {:induction false} ScanFiles(es: seq<Entry>, files: seq<Entry>, bySlice: map<int, Entry>)
    ensures Scan(es, files, bySlice).0 == files + EdgeFilesOf(es)
  {
    AppendFiles(es, files);
  }

  lemma {:induction false} AppendFiles(es: seq<Entry>, files: seq<Entry>)
    ensures ScanAppend(es, files) == files + EdgeFilesOf(es)
  {
    if |es| > 0 {
      var e, rest := es[0], EdgeFilesOf(es[1..]);
      if IsEdgeFile(e) {
        AppendFiles(es[1..], files + [e]);
        assert EdgeFilesOf(es) == [e] + rest;
        assert (files + [e]) + rest == files + ([e] + rest);
      } else {
        AppendFiles(es[1..], files);
        assert EdgeFilesOf(es) == rest;
      }
    }
  }

  /** Slice `k` ends mapped to the last edge file indexed `k`, or keeps its earlier entry. */
  lemma {:induction false} ScanSlice(es: seq<Entry>, files: seq<Entry>, bySlice: map<int, Entry>, k: int)
    ensures var m := Scan(es, files, bySlice).1;
      && (k in m <==> k in bySlice || LastWithIndex(es, k).Some?)
      && (LastWithIndex(es, k).Some? ==> m[k] == LastWithIndex(es, k).value)
      && (LastWithIndex(es, k).None? && k in bySlice ==> m[k] == bySlice[k])
  {
    if |es| > 0 {
      var e := es[0];
      var idx := FilenameIndex(e.name);
      var files' := if IsEdgeFile(e) then files + [e] else files;
      var bySlice' := if IsEdgeFile(e) && idx.Some? then bySlice[idx.value := e] else bySlice;
      ScanSlice(es[1..], files', bySlice', k);
    }
  }

  /**
   * What `getEdgeFiles` builds on a fresh loader: `edgeFiles` holds exactly the edge files,
   * sorted by index; slice `k` is mapped to the LAST edge file whose name parses to `k`, and
   * names that parse to NaN are not mapped.
   */
  lemma GetEdgeFilesSpec(entries: seq<Entry>)
    ensures var l := GetEdgeFiles(NewLoader(entries));
      && multiset(l.edgeFiles) == multiset(EdgeFilesOf(entries))
      && SortedBy(l.edgeFiles, EdgeFileKey)
      && (forall k :: k in l.bySlice <==> LastWithIndex(entries, k).Some?)
      && (forall k :: k in l.bySlice ==> l.bySlice[k] == LastWithIndex(entries, k).value)
  {
    ScanFiles(entries, [], map[]);
    forall k
      ensures var m := Scan(entries, [], map[]).1;
        (k in m <==> LastWithIndex(entries, k).Some?)
        && (k in m ==> m[k] == LastWithIndex(entries, k).value)
    {
      ScanSlice(entries, [], map[], k);
    }
    var files := Scan(entries, [], map[]).0;
    if |files| > 0 {
      SortIsSortedPermutation(files, EdgeFileKey);
    }
  }

  /** A second `getEdgeFiles` changes nothing. */
  lemma GetEdgeFilesIdempotent(l: Loader)
    ensures GetEdgeFiles(GetEdgeFiles(l)) == GetEdgeFiles(l)
  {
    if |l.edgeFiles| == 0 {
      ScanFiles(l.entries, l.edgeFiles, l.bySlice);
      var (files, bySlice) := Scan(l.entries, l.edgeFiles, l.bySlice);
      SortIsSortedPermutation(files, EdgeFileKey);
      if |files| == 0 {
        assert EdgeFilesOf(l.entries) == [];
        NoEdgeFilesNoIndex(l.entries);
        forall k
          ensures k in bySlice <==> k in l.bySlice
          ensures k in bySlice ==> bySlice[k] == l.bySlice[k]
        {
          ScanSlice(l.entries, l.edgeFiles, l.bySlice, k);
        }
        assert bySlice == l.bySlice;
      }
    }
  }

  lemma {:induction false} NoEdgeFilesNoIndex(es: seq<Entry>)
    requires EdgeFilesOf(es) == []
    ensures forall k :: LastWithIndex(es, k).None?
  {
    if |es| > 0 {
      assert !IsEdgeFile(es[0]);
      NoEdgeFilesNoIndex(es[1..]);
    }
  }

  /** A slice file `{k}.json` is indexed under `k`. */
  lemma SliceFileIndex(k: nat)
    ensures FilenameIndex(NatToString(k) + ".json") == Some(k)
  {
    var d := NatToString(k);
    var p := BeforeFirstDot(d + ".json");
    assert (d + ".json")[|d|] == '.';
    assert p == d;
    ParseIntOfNatToString(k);
  }

  /** The zero template is itself indexed: `parseInt("-1")` is -1. */
  lemma ZeroTemplateIndex()
    ensures FilenameIndex(ZeroTemplateName) == Some(-1)
  {
    assert BeforeFirstDot(".json") == "";
    assert BeforeFirstDot("1.json") == "1";
    assert BeforeFirstDot(ZeroTemplateName) == "-1";
    assert !IsJsWhiteSpace('-');
    assert TrimStart("-1") == "-1";
    assert "-1"[1..] == "1";
    assert DigitPrefix("", 10) == "";
    assert DigitPrefix("1", 10) == "1";
    assert DigitsValue("1", 10) == 1 by {
      assert "1"[..0] == "";
    }
  }

  /** The position of the first entry named `needle`, if any. */
  function FirstNamed(es: seq<Entry>, needle: string): (r: Option<nat>)
    ensures r.Some? ==> (r.value < |es| && es[r.value].name == needle
      && forall j :: 0 <= j < r.value ==> es[j].name != needle)
    ensures r.None? ==> forall j :: 0 <= j < |es| ==> es[j].name != needle
  {
    if |es| == 0 then None
    else if es[0].name == needle then Some(0)
    else
      var r := FirstNamed(es[1..], needle);
      if r.Some? then Some(r.value + 1) else None
  }

  /** `getFileContent`: the text of the first entry named `filename + ".json"`, or "". */
  function GetFileContent(l: Loader, filename: string): (text: string)
    ensures (exists j :: 0 <= j < |l.entries| && l.entries[j].name == filename + ".json")
      ==> exists j :: (0 <= j < |l.entries| && l.entries[j].name == filename + ".json"
        && text == l.entries[j].text && forall i :: 0 <= i < j ==> l.entries[i].name != filename + ".json")
    ensures (forall j :: 0 <= j < |l.entries| ==> l.entries[j].name != filename + ".json") ==> text == ""
  {
    var r := FirstNamed(l.entries, filename + ".json");
    if r.Some? then l.entries[r.value].text else ""
  }

  /** `getEdgeFileContentBySlice`: the text of `{slice}.json`, or `undefined`. */
  function GetEdgeFileContentBySlice(l: Loader, slice: int): (r: Option<string>)
    ensures r.Some? <==> HasEdgeSlice(l, slice)
    ensures r.Some? ==> r.value == l.bySlice[slice].text
  {
    if slice in l.bySlice then Some(l.bySlice[slice].text) else None
  }

  /**
   * After `getEdgeFiles` on a fresh loader, `{slice}.json` is answered iff some edge file's
   * name parses to `slice`, and the answer is the text of the last such file in directory
   * order.
   */
  lemma EdgeFileContentBySliceSpec(entries: seq<Entry>, slice: int)
    ensures var r := GetEdgeFileContentBySlice(GetEdgeFiles(NewLoader(entries)), slice);
      && (r.Some? <==> exists j :: 0 <= j < |entries| && IndexedAs(entries[j], slice))
      && (r.Some? ==>
            exists j :: (0 <= j < |entries| && IndexedAs(entries[j], slice)
              && r.value == entries[j].text
              && forall i :: j < i < |entries| ==> !IndexedAs(entries[i], slice)))
  {
    GetEdgeFilesSpec(entries);
    LastWithIndexAt(entries, slice);
  }

  /** `hasEdgeSlice`: whether `slice` is a key of the slice map. */
  predicate HasEdgeSlice(l: Loader, slice: int) {
    slice in l.bySlice
  }

  /** An entry that `getZeroEdgeFileContent` accepts as the zero template. */
  predicate IsZeroTemplate(e: Entry) {
    Contains(e.path, DirEdges) && e.name == ZeroTemplateName
  }

  /** The text of the first zero-template entry of `es`, if any: the cache-free answer. */
  function ZeroTemplate(es: seq<Entry>): (r: Option<string>)
    ensures r.Some? <==> exists j :: 0 <= j < |es| && IsZeroTemplate(es[j])
    ensures r.Some? ==> exists j :: (0 <= j < |es| && IsZeroTemplate(es[j]) && r.value == es[j].text
      && forall i :: 0 <= i < j ==> !IsZeroTemplate(es[i]))
  {
    if |es| == 0 then None
    else if IsZeroTemplate(es[0]) then Some(es[0].text)
    else
      var r := ZeroTemplate(es[1..]);
      assert forall j :: 0 <= j < |es| - 1 ==> es[1..][j] == es[j + 1];
      if r.Some? then
        ghost var j :| 0 <= j < |es[1..]| && IsZeroTemplate(es[1..][j]) && r.value == es[1..][j].text
          && forall i :: 0 <= i < j ==> !IsZeroTemplate(es[1..][i]);
        assert IsZeroTemplate(es[j + 1]);
        r
      else r
  }

  /**
   * `getZeroEdgeFileContent`: the cached template if there is one; otherwise the first
   * zero-template entry's text, which is then cached.
   */
  function GetZeroEdgeFileContent(l: Loader): (Option<string>, Loader) {
    if l.zeroCache.Some? then (l.zeroCache, l)
    else
      var z := ZeroTemplate(l.entries);
      if z.Some? then (z, l.(zeroCache := z)) else (None, l)
  }

  /** The cache never disagrees with the directory. */
  ghost predicate CacheValid(l: Loader) {
    l.zeroCache.None? || l.zeroCache == ZeroTemplate(l.entries)
  }

  /** `getEdgeFileContentBySliceOrZero`: `{slice}.json`, else `-1.json`, else "". */
  function GetEdgeFileContentBySliceOrZero(l: Loader, slice: int): (string, Loader) {
    var txt := GetEdgeFileContentBySlice(l, slice);
    if txt.Some? then (txt.value, l)
    else
      var (zero, l') := GetZeroEdgeFileContent(l);
      if zero.Some? then (zero.value, l') else ("", l')
  }

  /** `getEdgeFileContent`: the legacy name, now an alias of the slice-aware getter. */
  function GetEdgeFileContent(l: Loader, idx: int): (string, Loader) {
    GetEdgeFileContentBySliceOrZero(l, idx)
  }

  /** The fallback chain without the cache: what every read of a slice resolves to. */
  function ContentOrZero(l: Loader, slice: int): (text: string)
    ensures HasEdgeSlice(l, slice) ==> text == l.bySlice[slice].text
    ensures !HasEdgeSlice(l, slice) && ZeroTemplate(l.entries).Some? ==> text == ZeroTemplate(l.entries).value
    ensures !HasEdgeSlice(l, slice) && ZeroTemplate(l.entries).None? ==> text == ""
  {
    if slice in l.bySlice then l.bySlice[slice].text
    else ZeroTemplate(l.entries).GetOr("")
  }

  /**
   * The cached getter answers exactly as the cache-free fallback chain, and leaves a valid
   * cache behind: the entries, the edge files and the slice map are untouched.
   */
  lemma SliceOrZeroIsCacheFree(l: Loader, slice: int)
    requires CacheValid(l)
    ensures GetEdgeFileContentBySliceOrZero(l, slice).0 == ContentOrZero(l, slice)
    ensures var l' := GetEdgeFileContentBySliceOrZero(l, slice).1;
      CacheValid(l') && l'.entries == l.entries && l'.edgeFiles == l.edgeFiles && l'.bySlice == l.bySlice
  {
  }

  /** Once the template has been read it is cached: the next read returns the same text. */
  lemma ZeroTemplateCached(l: Loader)
    requires GetZeroEdgeFileContent(l).0.Some?
    ensures var (z, l') := GetZeroEdgeFileContent(l);
      l'.zeroCache == z && GetZeroEdgeFileContent(l') == (z, l')
  {
  }
}
