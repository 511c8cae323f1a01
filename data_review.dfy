/**
 * `data_review.py`: the CSV and Parquet files of the project are scanned,
 * only the first file of each grouped name pattern is kept, and every kept
 * file is summarised by its columns and types, or by the error reading it
 * raised.
 */
module DataReview {
  import opened Wrappers
  import opened Text
  import opened Seqs
  import opened Ordering

  // ---------------------------------------------------------------------------
  // Paths

  /** A path relative to the project root, as its parts; the last part is the file name. */
  datatype FilePath = FilePath(parts: seq<string>)

  /** `PurePath.name`. */
  function Name(p: FilePath): string {
    if p.parts == [] then "" else p.parts[|p.parts| - 1]
  }

  /** `str(path)`: the parts joined by "/". */
  function PathText(p: FilePath): string {
    Join(p.parts, "/")
  }

  function Join(items: seq<string>, sep: string): string {
    if items == [] then ""
    else if |items| == 1 then items[0]
    else items[0] + sep + Join(items[1..], sep)
  }

  /** `str.rfind`. */
  function LastIndexOf(s: string, c: char): (r: Option<nat>)
    ensures r.None? <==> c !in s
    ensures r.Some? ==> r.value < |s| && s[r.value] == c && forall j :: r.value < j < |s| ==> s[j] != c
  {
    if s == [] then None
    else if s[|s| - 1] == c then Some(|s| - 1)
    else
      assert s == s[..|s| - 1] + [s[|s| - 1]];
      LastIndexOf(s[..|s| - 1], c)
  }

  /** The position of the dot that starts the suffix: the last dot, unless it opens or ends the name. */
  function SuffixDot(name: string): Option<nat> {
    match LastIndexOf(name, '.')
    case None => None
    case Some(i) => if 0 < i < |name| - 1 then Some(i) else None
  }

  /** `PurePath.suffix`. */
  function Suffix(name: string): string {
    match SuffixDot(name)
    case None => ""
    case Some(i) => name[i..]
  }

  /** `PurePath.stem`. */
  function Stem(name: string): string {
    match SuffixDot(name)
    case None => name
    case Some(i) => name[..i]
  }

  /** A suffix is a dot and at least one more character, with no further dot, ending a longer name; the stem is the rest. */
  lemma SuffixShape(name: string)
    ensures var r := Suffix(name);
            && Stem(name) + r == name
            && (r != "" ==> EndsWith(name, r) && 2 <= |r| < |name| && r[0] == '.' && '.' !in r[1..])
  {
    match SuffixDot(name)
    case None =>
    case Some(i) =>
      assert name[..i] + name[i..] == name;
      assert forall j :: 1 <= j < |name| - i ==> name[i..][j] == name[i + j];
  }

  /** A name made of a nonempty stem and a one-dot extension has that extension as suffix. */
  lemma SuffixOfExtension(stem: string, ext: string)
    requires stem != [] && 2 <= |ext| && ext[0] == '.' && '.' !in ext[1..]
    ensures Suffix(stem + ext) == ext && Stem(stem + ext) == stem
  {
    var name := stem + ext;
    assert name[|stem|] == '.';
    var i := LastIndexOf(name, '.').value;
    assert name[i..] == ext;
  }

  /** A hidden file such as ".csv" has no suffix. */
  lemma HiddenNameHasNoSuffix(rest: string)
    requires '.' !in rest
    ensures Suffix("." + rest) == ""
  {
    var name := "." + rest;
    assert name[0] == '.';
  }

  /** `Path` ordering: part by part, a prefix first. */
  predicate PartsLe(a: seq<string>, b: seq<string>)
    decreases |a|
  {
    a == [] || (b != [] && ((a[0] != b[0] && StrLe(a[0], b[0])) || (a[0] == b[0] && PartsLe(a[1..], b[1..]))))
  }

  lemma {:induction false} PartsLeTotal(a: seq<string>, b: seq<string>)
    ensures PartsLe(a, b) || PartsLe(b, a)
    decreases |a|
  {
    if a != [] && b != [] {
      if a[0] == b[0] { PartsLeTotal(a[1..], b[1..]); } else { StrLeTotal(a[0], b[0]); }
    }
  }

  lemma {:induction false} PartsLeTrans(a: seq<string>, b: seq<string>, c: seq<string>)
    requires PartsLe(a, b) && PartsLe(b, c)
    ensures PartsLe(a, c)
    decreases |a|
  {
    if a != [] {
      if a[0] == b[0] && b[0] == c[0] {
        PartsLeTrans(a[1..], b[1..], c[1..]);
      } else if a[0] != b[0] && b[0] != c[0] {
        StrLeTrans(a[0], b[0], c[0]);
        if a[0] == c[0] { StrLeAntisymmetric(a[0], b[0]); }
      }
    }
  }

  // ---------------------------------------------------------------------------
  // Files and `get_file_info`

  datatype Column = Column(name: string, dtype: string)

  /** What reading a file yields: its columns with their dtypes, or the message of the exception raised. */
  datatype Contents = Frame(columns: seq<Column>) | Unreadable(message: string)

  /** A file found by `rglob`, with what reading it would give. */
  datatype ProjectFile = ProjectFile(path: FilePath, contents: Contents)

  predicate FileLe(a: ProjectFile, b: ProjectFile) {
    PartsLe(a.path.parts, b.path.parts)
  }

  lemma FileLeTotalPreorder()
    ensures TotalPreorder(FileLe)
  {
    forall a: ProjectFile, b: ProjectFile ensures FileLe(a, b) || FileLe(b, a) {
      PartsLeTotal(a.path.parts, b.path.parts);
    }
    forall a: ProjectFile, b: ProjectFile, c: ProjectFile | FileLe(a, b) && FileLe(b, c) ensures FileLe(a, c) {
      PartsLeTrans(a.path.parts, b.path.parts, c.path.parts);
    }
  }

  /** The record `get_file_info` returns. */
  datatype Info =
    | Info(file: string, path: string, columns: seq<Column>, shape: string)
    | ErrorInfo(file: string, path: string, error: string)

  predicate ReadableSuffix(name: string) {
    Suffix(name) == ".csv" || Suffix(name) == ".parquet"
  }

  /** `get_file_info`: nothing for other suffixes, an error record where reading raises. */
  function GetFileInfo(f: ProjectFile): (r: Option<Info>)
    ensures r.None? <==> !ReadableSuffix(Name(f.path))
    ensures r.Some? ==> r.value.file == Name(f.path) && r.value.path == PathText(f.path)
    ensures r.Some? ==> (r.value.ErrorInfo? <==> f.contents.Unreadable?)
    ensures r.Some? && r.value.ErrorInfo? ==> r.value.error == f.contents.message
    ensures r.Some? && r.value.Info? ==>
              && r.value.columns == f.contents.columns
              && exists d :: && r.value.shape == "(" + d + " columns)"
                             && AllDigits(d) && DigitsValue(d) == |f.contents.columns|
  {
    if !ReadableSuffix(Name(f.path)) then None
    else match f.contents
      case Unreadable(message) => Some(ErrorInfo(Name(f.path), PathText(f.path), message))
      case Frame(columns) =>
        var count := NatToString(|columns|);
        Some(Info(Name(f.path), PathText(f.path), columns, "(" + count + " columns)"))
  }

  // ---------------------------------------------------------------------------
  // `should_skip_file`

  /** The name patterns whose files are grouped, in the order they are tried. */
  const Patterns: seq<string> := ["crime_parquet_chunk_", "map_", "school_closures_2013_"]

  /** The first of `patterns` that `stem` starts with. */
  function FirstPattern(patterns: seq<string>, stem: string): (r: Option<string>)
    ensures r.Some? ==> r.value in patterns && StartsWith(stem, r.value)
  {
    if patterns == [] then None
    else if StartsWith(stem, patterns[0]) then Some(patterns[0])
    else FirstPattern(patterns[1..], stem)
  }

  /** The first pattern the stem starts with is the one found, whatever the later patterns are. */
  lemma {:induction false} FirstPatternIs(patterns: seq<string>, stem: string, i: nat)
    requires i < |patterns| && StartsWith(stem, patterns[i])
    requires forall j :: 0 <= j < i ==> !StartsWith(stem, patterns[j])
    ensures FirstPattern(patterns, stem) == Some(patterns[i])
  {
    if i > 0 {
      FirstPatternIs(patterns[1..], stem, i - 1);
    }
  }

  /** No pattern is found only for a stem that starts with none of them. */
  lemma {:induction false} FirstPatternNoneMatches(patterns: seq<string>, stem: string)
    requires FirstPattern(patterns, stem).None?
    ensures forall j :: 0 <= j < |patterns| ==> !StartsWith(stem, patterns[j])
  {
    if patterns != [] {
      FirstPatternNoneMatches(patterns[1..], stem);
      assert forall j :: 1 <= j < |patterns| ==> patterns[j] == patterns[1..][j - 1];
    }
  }

  /** A stem that starts with none of the patterns has no pattern. */
  lemma {:induction false} FirstPatternNone(patterns: seq<string>, stem: string)
    requires forall j :: 0 <= j < |patterns| ==> !StartsWith(stem, patterns[j])
    ensures FirstPattern(patterns, stem) == None
  {
    if patterns != [] {
      FirstPatternNone(patterns[1..], stem);
    }
  }

  /** The pattern a file is grouped under: the first one its stem starts with. */
  function PatternOf(p: FilePath): Option<string> {
    FirstPattern(Patterns, Stem(Name(p)))
  }

  /** The `seen_patterns` set that `should_skip_file` updates. */
  class SeenPatterns {
    var seen: set<string>

    constructor()
      ensures seen == {}
    {
      seen := {};
    }

    /**
     * `should_skip_file`: a file grouped under a pattern already seen is
     * skipped; the first file of a pattern records it; a file of no pattern
     * is kept and changes nothing.
     */
    method ShouldSkip(p: FilePath) returns (skip: bool)
      modifies this
      ensures PatternOf(p).None? ==> !skip && seen == old(seen)
      ensures PatternOf(p).Some? ==> skip == (PatternOf(p).value in old(seen)) && seen == old(seen) + {PatternOf(p).value}
    {
      var name := Stem(Name(p));
      for i := 0 to |Patterns|
        invariant forall j :: 0 <= j < i ==> !StartsWith(name, Patterns[j])
        invariant seen == old(seen)
      {
        if StartsWith(name, Patterns[i]) {
          FirstPatternIs(Patterns, name, i);
          if Patterns[i] in seen {
            return true;
          }
          seen := seen + {Patterns[i]};
          return false;
        }
      }
      FirstPatternNone(Patterns, name);
      return false;
    }
  }

  // ---------------------------------------------------------------------------
  // The scan

  /** The pattern of each file, in scan order. */
  function Groups(files: seq<ProjectFile>): (g: seq<Option<string>>)
    ensures |g| == |files|
  {
    if files == [] then [] else Groups(files[..|files| - 1]) + [PatternOf(files[|files| - 1].path)]
  }

  lemma {:induction false} GroupsAt(files: seq<ProjectFile>, k: nat)
    requires k < |files|
    ensures Groups(files)[k] == PatternOf(files[k].path)
  {
    if k < |files| - 1 {
      GroupsAt(files[..|files| - 1], k);
    }
  }

  /** `seen_patterns` after files of the patterns `groups`: the patterns that occur. */
  function Seen(groups: seq<Option<string>>): (s: set<string>)
    ensures forall x :: x in s <==> Some(x) in groups
  {
    if groups == [] then {}
    else
      var init := groups[..|groups| - 1];
      var last := groups[|groups| - 1];
      assert groups == init + [last];
      Seen(init) + (if last.Some? then {last.value} else {})
  }

  /** Whether the `k`-th file is skipped, given the patterns of all files: its pattern occurred before. */
  predicate Skipped(groups: seq<Option<string>>, k: nat)
    requires k < |groups|
  {
    groups[k].Some? && groups[k] in groups[..k]
  }

  lemma SkippedOccursBefore(groups: seq<Option<string>>, k: nat)
    requires k < |groups|
    ensures Skipped(groups, k) <==> groups[k].Some? && exists j :: 0 <= j < k && groups[j] == groups[k]
  {
    if groups[k] in groups[..k] {
      var j :| 0 <= j < k && groups[..k][j] == groups[k];
    }
    if exists j :: 0 <= j < k && groups[j] == groups[k] {
      var j :| 0 <= j < k && groups[j] == groups[k];
      assert groups[..k][j] == groups[k];
    }
  }

  /**
   * A file is skipped exactly when it is grouped under a pattern and an
   * earlier file was grouped under the same one: a file of no pattern and
   * the first file of each pattern are kept.
   */
  lemma SkippedIff(files: seq<ProjectFile>, k: nat)
    requires k < |files|
    ensures Skipped(Groups(files), k) <==>
              PatternOf(files[k].path).Some? && exists j :: 0 <= j < k && PatternOf(files[j].path) == PatternOf(files[k].path)
  {
    var g := Groups(files);
    SkippedOccursBefore(g, k);
    forall j | 0 <= j <= k ensures g[j] == PatternOf(files[j].path) {
      GroupsAt(files, j);
    }
  }

  /** The files not skipped, in order. */
  function KeptFiles(files: seq<ProjectFile>, groups: seq<Option<string>>): (t: seq<ProjectFile>)
    requires |groups| == |files|
    ensures Subsequence(t, files)
  {
    if files == [] then []
    else
      var n := |files| - 1;
      var t := KeptFiles(files[..n], groups[..n]);
      assert files == files[..n] + [files[n]];
      assert forall k :: 0 <= k < n ==> groups[..n][..k] == groups[..k];
      if Skipped(groups, n) then
        SubsequenceAppendRight(t, files[..n], files[n]);
        t
      else
        SubsequenceExtend(t, files[..n], files[n]);
        t + [files[n]]
  }

  /** A file is kept exactly when it occurs at a position that is not skipped. */
  lemma {:induction false} KeptFilesMembers(files: seq<ProjectFile>, groups: seq<Option<string>>, f: ProjectFile)
    requires |groups| == |files|
    ensures f in KeptFiles(files, groups) <==> exists k :: 0 <= k < |files| && files[k] == f && !Skipped(groups, k)
  {
    if files != [] {
      var n := |files| - 1;
      KeptFilesMembers(files[..n], groups[..n], f);
      assert forall k :: 0 <= k < n ==> files[..n][k] == files[k] && groups[..n][..k] == groups[..k] && groups[..n][k] == groups[k];
    }
  }

  /** `files_to_scan`. */
  function ToScan(files: seq<ProjectFile>): (t: seq<ProjectFile>)
    ensures Subsequence(t, files)
  {
    KeptFiles(files, Groups(files))
  }

  /**
   * One step of the scan: given what `should_skip_file` did with the `k`-th
   * file, the patterns seen and the files kept are those after `k + 1` files.
   */
  lemma ScanStep(files: seq<ProjectFile>, k: nat, seenBefore: set<string>, seenAfter: set<string>, skip: bool,
                 kept: seq<ProjectFile>, keptAfter: seq<ProjectFile>)
    requires k < |files|
    requires seenBefore == Seen(Groups(files[..k])) && kept == KeptFiles(files[..k], Groups(files[..k]))
    requires PatternOf(files[k].path).None? ==> !skip && seenAfter == seenBefore
    requires PatternOf(files[k].path).Some? ==>
               skip == (PatternOf(files[k].path).value in seenBefore) && seenAfter == seenBefore + {PatternOf(files[k].path).value}
    requires keptAfter == if skip then kept else kept + [files[k]]
    ensures seenAfter == Seen(Groups(files[..k + 1])) && keptAfter == KeptFiles(files[..k + 1], Groups(files[..k + 1]))
  {
    var pre := files[..k + 1];
    assert pre[..k] == files[..k] && pre[k] == files[k];
    var after := Groups(pre);
    var g := PatternOf(files[k].path);
    assert after == Groups(files[..k]) + [g];
    assert after[..k] == Groups(files[..k]);
    assert Seen(after) == Seen(Groups(files[..k])) + (if g.Some? then {g.value} else {});
  }

  /** Lines 55-58: the `*.csv` matches, then the `*.parquet` ones, through one `seen_patterns`. */
  method ScanProject(csvFiles: seq<ProjectFile>, parquetFiles: seq<ProjectFile>) returns (filesToScan: seq<ProjectFile>)
    ensures filesToScan == ToScan(csvFiles + parquetFiles)
  {
    var seen := new SeenPatterns();
    var all := csvFiles + parquetFiles;
    filesToScan := [];
    for k := 0 to |all|
      invariant seen.seen == Seen(Groups(all[..k]))
      invariant filesToScan == KeptFiles(all[..k], Groups(all[..k]))
    {
      ghost var seenBefore := seen.seen;
      ghost var kept := filesToScan;
      var skip := seen.ShouldSkip(all[k].path);
      if !skip {
        filesToScan := filesToScan + [all[k]];
      }
      ScanStep(all, k, seenBefore, seen.seen, skip, kept, filesToScan);
    }
    assert all[..|all|] == all;
  }

  // ---------------------------------------------------------------------------
  // Infos and the summary

  /** `file_infos`: the records of the files with a readable suffix, in order. */
  function Infos(files: seq<ProjectFile>): (infos: seq<Info>)
    ensures forall i :: i in infos <==> exists f :: f in files && GetFileInfo(f) == Some(i)
    ensures |infos| <= |files|
  {
    if files == [] then []
    else
      var init := files[..|files| - 1];
      var last := files[|files| - 1];
      assert files == init + [last];
      var rest := Infos(init);
      match GetFileInfo(last)
      case None => rest
      case Some(i) => rest + [i]
  }

  /** A row of `summary_df`. */
  datatype SummaryRow = SummaryRow(file: string, path: string, columns: string, types: string, shape: string)

  function ColumnNames(columns: seq<Column>): (names: seq<string>)
    ensures |names| == |columns| && forall k :: 0 <= k < |columns| ==> names[k] == columns[k].name
  {
    seq(|columns|, k requires 0 <= k < |columns| => columns[k].name)
  }

  /**
   * The `"{col} ({dtype})"` entries: each reads back as its column's name,
   * the two characters " (", its dtype and a closing parenthesis.
   */
  function ColumnTypes(columns: seq<Column>): (types: seq<string>)
    ensures |types| == |columns|
    ensures forall k :: 0 <= k < |columns| ==>
              var n := |columns[k].name|;
              && |types[k]| == n + |columns[k].dtype| + 3
              && types[k][..n] == columns[k].name && types[k][n..n + 2] == " ("
              && types[k][n + 2..|types[k]| - 1] == columns[k].dtype && types[k][|types[k]| - 1] == ')'
  {
    seq(|columns|, k requires 0 <= k < |columns| => columns[k].name + " (" + columns[k].dtype + ")")
  }

  /** The row of one record; an error record shows its message and leaves Types and Shape empty. */
  function Summarize(info: Info): (row: SummaryRow)
    ensures row.file == info.file && row.path == info.path
    ensures info.ErrorInfo? ==> StartsWith(row.columns, "ERROR: ") && row.columns[7..] == info.error && row.types == "" && row.shape == ""
    ensures info.Info? ==> && row.columns == Join(ColumnNames(info.columns), ", ")
                           && row.types == Join(ColumnTypes(info.columns), ", ")
                           && row.shape == info.shape
  {
    match info
    case ErrorInfo(file, path, error) => SummaryRow(file, path, "ERROR: " + error, "", "")
    case Info(file, path, columns, shape) =>
      SummaryRow(file, path, Join(ColumnNames(columns), ", "), Join(ColumnTypes(columns), ", "), shape)
  }

  /** The whole script: scan, sort the kept files by path, summarise each readable one. */
  function Overview(csvFiles: seq<ProjectFile>, parquetFiles: seq<ProjectFile>): (rows: seq<SummaryRow>)
    ensures |rows| <= |ToScan(csvFiles + parquetFiles)|
    ensures forall k :: 0 <= k < |rows| ==> ReadableSuffix(rows[k].file)
  {
    FileLeTotalPreorder();
    var infos := Infos(SortBy(ToScan(csvFiles + parquetFiles), FileLe));
    assert forall k :: 0 <= k < |infos| ==> ReadableSuffix(infos[k].file) by {
      forall k | 0 <= k < |infos| ensures ReadableSuffix(infos[k].file) {
        assert infos[k] in infos;
      }
    }
    seq(|infos|, k requires 0 <= k < |infos| => Summarize(infos[k]))
  }

  /** Lines 61-65: the record of every file with a readable suffix, in order. */
  method CollectInfos(files: seq<ProjectFile>) returns (fileInfos: seq<Info>)
    ensures fileInfos == Infos(files)
  {
    fileInfos := [];
    for k := 0 to |files|
      invariant fileInfos == Infos(files[..k])
    {
      assert files[..k + 1][..k] == files[..k];
      var info := GetFileInfo(files[k]);
      if info.Some? {
        fileInfos := fileInfos + [info.value];
      }
    }
    assert files[..|files|] == files;
  }

  /** Lines 68-91: one summary row per record. */
  method SummaryData(fileInfos: seq<Info>) returns (summary: seq<SummaryRow>)
    ensures |summary| == |fileInfos| && forall k :: 0 <= k < |fileInfos| ==> summary[k] == Summarize(fileInfos[k])
  {
    summary := [];
    for k := 0 to |fileInfos|
      invariant |summary| == k
      invariant forall j :: 0 <= j < k ==> summary[j] == Summarize(fileInfos[j])
    {
      summary := summary + [Summarize(fileInfos[k])];
    }
  }

  /** Lines 51-93: the scan, the sorted record loop and the summary loop. */
  method BuildOverview(csvFiles: seq<ProjectFile>, parquetFiles: seq<ProjectFile>) returns (summary: seq<SummaryRow>)
    ensures summary == Overview(csvFiles, parquetFiles)
  {
    var filesToScan := ScanProject(csvFiles, parquetFiles);
    FileLeTotalPreorder();
    var sorted := SortBy(filesToScan, FileLe);
    var fileInfos := CollectInfos(sorted);
    summary := SummaryData(fileInfos);
  }

  /**
   * Every kept file with a readable suffix has its row in the overview, and
   * every row of the overview is the row of such a file.
   */
  lemma OverviewRows(csvFiles: seq<ProjectFile>, parquetFiles: seq<ProjectFile>, row: SummaryRow)
    ensures row in Overview(csvFiles, parquetFiles) <==>
              exists f :: f in ToScan(csvFiles + parquetFiles) && GetFileInfo(f).Some? && row == Summarize(GetFileInfo(f).value)
  {
    FileLeTotalPreorder();
    var scanned := ToScan(csvFiles + parquetFiles);
    var sorted := SortBy(scanned, FileLe);
    var infos := Infos(sorted);
    var rows := Overview(csvFiles, parquetFiles);
    assert forall f :: f in sorted <==> f in scanned by {
      forall f ensures f in sorted <==> f in scanned {
        assert f in sorted <==> f in multiset(sorted);
        assert f in scanned <==> f in multiset(scanned);
      }
    }
    if row in rows {
      var k :| 0 <= k < |rows| && rows[k] == row;
      assert infos[k] in infos;
    } else {
      forall f | f in scanned && GetFileInfo(f).Some? ensures row != Summarize(GetFileInfo(f).value) {
        var i := GetFileInfo(f).value;
        assert i in infos;
        var k :| 0 <= k < |infos| && infos[k] == i;
        assert rows[k] == Summarize(i);
      }
    }
  }
}
