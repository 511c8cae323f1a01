/**
 * The yearly boundary-file normalisation shared by
 * `03_yearly_school_data_join.py` and its near-copy
 * `yearly_school_data_join.py`: which files are read, how their columns are
 * renamed, which school year a file is for, and how crimes matched to
 * boundaries are grouped per grade category.
 */
module BoundaryJoin {
  import opened Wrappers
  import opened Text
  import opened Seqs

  // ---------------------------------------------------------------------------
  // File selection

  const CsvFolder := "Data/temp"
  const Keywords := ["Attendance", "Boundaries"]

  /**
   * `glob("*{keyword}*.csv")` on one directory entry: not a hidden name, ends
   * in ".csv", and the keyword occurs before that suffix.
   */
  predicate GlobMatches(name: string, keyword: string) {
    && EndsWith(name, ".csv")
    && !StartsWith(name, ".")
    && Contains(name[..|name| - 4], keyword)
  }

  predicate ExcludedName(name: string) {
    ContainsIgnoreCase(name, "network") || ContainsIgnoreCase(name, "charter")
  }

  predicate Selected(name: string) {
    (exists k :: 0 <= k < |Keywords| && GlobMatches(name, Keywords[k])) && !ExcludedName(name)
  }

  /**
   * `matching_files`: the paths of the folder's entries matching either
   * keyword, each once, without network or charter files. Only the set is
   * modelled: `list(set(...))` fixes no order.
   */
  function SelectFiles(entries: seq<string>): (files: set<string>)
    ensures forall f :: f in files <==> exists n :: n in entries && f == CsvFolder + "/" + n && Selected(n)
  {
    set n | n in entries && Selected(n) :: CsvFolder + "/" + n
  }

  /** The exclusion reads the basename, which for a folder entry is the entry's own name. */
  lemma SelectedBasename(entries: seq<string>, f: string)
    requires forall n :: n in entries ==> '/' !in n
    requires f in SelectFiles(entries)
    ensures Selected(Basename(f)) && !ContainsIgnoreCase(Basename(f), "network") && !ContainsIgnoreCase(Basename(f), "charter")
  {
    var n :| n in entries && f == CsvFolder + "/" + n && Selected(n);
    BasenameOfJoin(CsvFolder, n);
  }

  // ---------------------------------------------------------------------------
  // Column renaming

  const RenameMap: map<string, string> := map[
    "BoundaryGr" := "BOUNDARYGR",
    "School_NM" := "SCHOOL_NM",
    "SchoolID" := "SCHOOL_ID",
    "Grade_Cat" := "GRADE_CAT",
    "SchoolAddr" := "SCHOOL_ADD",
    "SchoolName" := "SCHOOL_NM",
    "SCHOOLID" := "SCHOOL_ID",
    "SCHOOL_Nam" := "SCHOOL_NM"]

  function RenameColumn(c: string): string {
    if c in RenameMap then RenameMap[c] else c
  }

  /** `df.rename(columns=rename_map)`: mapped names replaced, all others passed through. */
  function Rename(columns: seq<string>): (r: seq<string>)
    ensures |r| == |columns|
    ensures forall i :: 0 <= i < |columns| ==> (columns[i] in RenameMap ==> r[i] == RenameMap[columns[i]])
    ensures forall i :: 0 <= i < |columns| ==> (columns[i] !in RenameMap ==> r[i] == columns[i])
  {
    seq(|columns|, i requires 0 <= i < |columns| => RenameColumn(columns[i]))
  }

  /** No target name is a source name, so renaming twice is renaming once. */
  lemma RenameIdempotent(columns: seq<string>)
    ensures Rename(Rename(columns)) == Rename(columns)
  {
    forall c | c in RenameMap ensures RenameMap[c] !in RenameMap {
      assert c in RenameMap.Keys;
      assert c == "BoundaryGr" || c == "School_NM" || c == "SchoolID" || c == "Grade_Cat"
          || c == "SchoolAddr" || c == "SchoolName" || c == "SCHOOLID" || c == "SCHOOL_Nam";
    }
  }

  // ---------------------------------------------------------------------------
  // The year code in a file name

  /** The first index from `from` on where `p` holds, below `n`. */
  function FirstWhere(n: nat, p: int -> bool, from: nat): (r: Option<nat>)
    ensures r.None? ==> forall i :: from <= i < n ==> !p(i)
    ensures r.Some? ==> from <= r.value < n && p(r.value) && forall i :: from <= i < r.value ==> !p(i)
    decreases n - from
  {
    if from >= n then None
    else if p(from) then Some(from)
    else FirstWhere(n, p, from + 1)
  }

  /** `SY` followed by four digits starts at `i`. */
  predicate SchoolYearAt(s: string, i: int) {
    0 <= i && i + 6 <= |s| && s[i..i + 2] == "SY" && AllDigits(s[i + 2..i + 6])
  }

  /** Four digits start at `i`. */
  predicate FourDigitsAt(s: string, i: int) {
    0 <= i && i + 4 <= |s| && AllDigits(s[i..i + 4])
  }

  function SchoolYearStart(s: string): int -> bool { i => SchoolYearAt(s, i) }

  function FourDigitsStart(s: string): int -> bool { i => FourDigitsAt(s, i) }

  /**
   * `file_year`: the digits of the leftmost `SY` + 4 digits, else the
   * leftmost 4-digit run, else missing.
   */
  function FileYear(basename: string): (code: Option<string>)
    ensures code.Some? ==> |code.value| == 4 && AllDigits(code.value)
  {
    match FirstWhere(|basename|, SchoolYearStart(basename), 0)
    case Some(k) => Some(basename[k + 2..k + 6])
    case None =>
      match FirstWhere(|basename|, FourDigitsStart(basename), 0)
      case Some(k) => Some(basename[k..k + 4])
      case None => None
  }

  /** What each step of the fallback yields. */
  lemma FileYearCases(basename: string)
    ensures (exists i :: SchoolYearAt(basename, i)) ==>
              exists k :: SchoolYearAt(basename, k) && FileYear(basename) == Some(basename[k + 2..k + 6])
                       && forall j :: 0 <= j < k ==> !SchoolYearAt(basename, j)
    ensures (forall i :: !SchoolYearAt(basename, i)) && (exists i :: FourDigitsAt(basename, i)) ==>
              exists k :: FourDigitsAt(basename, k) && FileYear(basename) == Some(basename[k..k + 4])
                       && forall j :: 0 <= j < k ==> !FourDigitsAt(basename, j)
    ensures (forall i :: !FourDigitsAt(basename, i)) ==> FileYear(basename) == None
  {
    var sy := FirstWhere(|basename|, SchoolYearStart(basename), 0);
    var dg := FirstWhere(|basename|, FourDigitsStart(basename), 0);
    if i :| SchoolYearAt(basename, i) {
      assert SchoolYearStart(basename)(i);
      assert FourDigitsAt(basename, i + 2);
      assert sy.Some?;
      assert SchoolYearAt(basename, sy.value);
      forall j | 0 <= j < sy.value ensures !SchoolYearAt(basename, j) {
        assert !SchoolYearStart(basename)(j);
      }
    } else if i :| FourDigitsAt(basename, i) {
      assert FourDigitsStart(basename)(i);
      assert sy.None?;
      assert dg.Some?;
      assert FourDigitsAt(basename, dg.value);
      forall j | 0 <= j < dg.value ensures !FourDigitsAt(basename, j) {
        assert !FourDigitsStart(basename)(j);
      }
    } else {
      assert sy.None? && dg.None?;
    }
  }

  /** A code after "SY" wins over an earlier run of digits. */
  lemma FileYearPrefersSchoolYear()
    ensures FileYear("2012_SY1314.csv") == Some("1314")
  {
    var b := "2012_SY1314.csv";
    assert b[0..2] == "20" && b[1..3] == "01" && b[2..4] == "12" && b[3..5] == "2_" && b[4..6] == "_S";
    assert b[5..7] == "SY" && b[7..11] == "1314";
    var p := SchoolYearStart(b);
    assert !p(0) && !p(1) && !p(2) && !p(3) && !p(4) && p(5);
    assert FirstWhere(|b|, p, 4) == Some(5);
    assert FirstWhere(|b|, p, 2) == FirstWhere(|b|, p, 4);
    assert FirstWhere(|b|, p, 0) == FirstWhere(|b|, p, 2);
  }

  /** A name with no run of four digits has no year code. */
  lemma FileYearNone()
    ensures FileYear("Boundaries.csv") == None
  {
    var b := "Boundaries.csv";
    forall i | 0 <= i && i + 4 <= |b| ensures !FourDigitsAt(b, i) {
      assert b[i..i + 4][0] == b[i];
      assert b[i] in b;
    }
    FileYearCases(b);
  }

  // ---------------------------------------------------------------------------
  // Reading and concatenating the files

  /** A table read from CSV: its header and its rows, cells as text. */
  datatype Frame = Frame(columns: seq<string>, rows: seq<seq<Option<string>>>)

  /** A selected file with the outcome of `pd.read_csv` on it. */
  datatype FileRead = FileRead(path: string, content: Result<Frame>)

  /** A processed file: the renamed frame and the year code given to every row. */
  datatype Loaded = Loaded(frame: Frame, fileYear: Option<string>)

  function Process(path: string, f: Frame): Loaded {
    Loaded(Frame(Rename(f.columns), f.rows), FileYear(Basename(path)))
  }

  /** The frames `dfs` ends with: one per file that could be read, in file order. */
  function LoadedFrames(files: seq<FileRead>): (dfs: seq<Loaded>)
    ensures |dfs| <= |files|
  {
    if files == [] then []
    else
      var last := files[|files| - 1];
      LoadedFrames(files[..|files| - 1]) + (if last.content.Ok? then [Process(last.path, last.content.value)] else [])
  }

  lemma {:induction false} LoadedFramesAppend(a: seq<FileRead>, b: seq<FileRead>)
    ensures LoadedFrames(a + b) == LoadedFrames(a) + LoadedFrames(b)
    decreases |b|
  {
    if b == [] {
      assert a + b == a;
    } else {
      assert (a + b)[..|a + b| - 1] == a + b[..|b| - 1];
      LoadedFramesAppend(a, b[..|b| - 1]);
    }
  }

  /** A file that fails to read is skipped and the files after it are still processed. */
  lemma LoadedFramesSkipsFailure(before: seq<FileRead>, bad: FileRead, after: seq<FileRead>)
    requires bad.content.Err?
    ensures LoadedFrames(before + [bad] + after) == LoadedFrames(before) + LoadedFrames(after)
  {
    assert LoadedFrames([bad]) == [] by {
      assert [bad][..0] == [];
    }
    LoadedFramesAppend(before, [bad]);
    LoadedFramesAppend(before + [bad], after);
  }

  /** Every readable file contributes its renamed frame and its year code. */
  lemma {:induction false} LoadedFramesComplete(files: seq<FileRead>, i: nat)
    requires i < |files| && files[i].content.Ok?
    ensures Process(files[i].path, files[i].content.value) in LoadedFrames(files)
  {
    assert files == files[..i] + [files[i]] + files[i + 1..];
    LoadedFramesAppend(files[..i] + [files[i]], files[i + 1..]);
    LoadedFramesAppend(files[..i], [files[i]]);
    assert [files[i]][..0] == [];
  }

  /** The file loop of step 2. */
  method LoadBoundaryFiles(files: seq<FileRead>) returns (dfs: seq<Loaded>)
    ensures dfs == LoadedFrames(files)
  {
    dfs := [];
    var i := 0;
    while i < |files|
      invariant 0 <= i <= |files|
      invariant dfs == LoadedFrames(files[..i])
    {
      var f := files[i];
      assert files[..i + 1][..i] == files[..i];
      match f.content {
        case Err(_) =>
        case Ok(df) =>
          dfs := dfs + [Process(f.path, df)];
      }
      i := i + 1;
    }
    assert files[..i] == files;
  }

  const ShapeColumns := ["SCHOOL_ID", "SCHOOL_NM", "the_geom", "SCHOOL_ADD", "GRADE_CAT", "BOUNDARYGR", "file_year"]

  /** The cell under `column`, missing where the frame has no such column (as `concat` fills it). */
  function CellOf(columns: seq<string>, row: seq<Option<string>>, column: string): (c: Option<string>)
    ensures column !in columns ==> c.None?
    ensures forall j :: 0 <= j < |columns| && columns[j] == column && (forall i :: 0 <= i < j ==> columns[i] != column) ==>
              c == (if j < |row| then row[j] else None)
  {
    var isColumn := (j: int) => 0 <= j < |columns| && columns[j] == column;
    match FirstWhere(|columns|, isColumn, 0)
    case Some(f) =>
      assert columns[f] == column && forall i :: 0 <= i < f ==> !isColumn(i);
      assert forall j :: 0 <= j < f ==> columns[j] != column by {
        forall j | 0 <= j < f ensures columns[j] != column {
          assert !isColumn(j);
        }
      }
      if f < |row| then row[f] else None
    case None =>
      assert forall j :: 0 <= j < |columns| ==> !isColumn(j);
      assert forall j :: 0 <= j < |columns| ==> columns[j] != column by {
        forall j | 0 <= j < |columns| ensures columns[j] != column {
          assert !isColumn(j);
        }
      }
      None
  }

  /** A row of `school_shapes`, in the order of `ShapeColumns`. */
  function ProjectRow(l: Loaded, row: seq<Option<string>>): (r: seq<Option<string>>)
    ensures |r| == |ShapeColumns|
    ensures r[6] == l.fileYear
    ensures forall j :: 0 <= j < 6 && ShapeColumns[j] !in l.frame.columns ==> r[j].None?
    ensures forall j, i :: && 0 <= j < 6 && 0 <= i < |l.frame.columns| && i < |row| && l.frame.columns[i] == ShapeColumns[j]
                           && (forall h :: 0 <= h < i ==> l.frame.columns[h] != ShapeColumns[j])
                           ==> r[j] == row[i]
  {
    seq(6, j requires 0 <= j < 6 => CellOf(l.frame.columns, row, ShapeColumns[j])) + [l.fileYear]
  }

  function ProjectFrames(dfs: seq<Loaded>): (rows: seq<seq<Option<string>>>)
    ensures forall r :: r in rows ==> |r| == |ShapeColumns|
  {
    if dfs == [] then []
    else
      var l := dfs[0];
      seq(|l.frame.rows|, i requires 0 <= i < |l.frame.rows| => ProjectRow(l, l.frame.rows[i])) + ProjectFrames(dfs[1..])
  }

  /** Concatenation works frame by frame: the rows of `a + b` are those of `a`, then those of `b`. */
  lemma {:induction false} ProjectFramesAppend(a: seq<Loaded>, b: seq<Loaded>)
    ensures ProjectFrames(a + b) == ProjectFrames(a) + ProjectFrames(b)
  {
    if a == [] {
      assert a + b == b;
    } else {
      assert (a + b)[0] == a[0];
      assert (a + b)[1..] == a[1..] + b;
      ProjectFramesAppend(a[1..], b);
    }
  }

  /** One frame gives one projected row per row, in row order. */
  lemma ProjectFramesOne(l: Loaded)
    ensures |ProjectFrames([l])| == |l.frame.rows|
    ensures forall i :: 0 <= i < |l.frame.rows| ==> ProjectFrames([l])[i] == ProjectRow(l, l.frame.rows[i])
  {
    assert [l][1..] == [];
  }

  predicate SomeFrameHas(dfs: seq<Loaded>, column: string) {
    exists k :: 0 <= k < |dfs| && column in dfs[k].frame.columns
  }

  /**
   * `pd.concat(dfs)[ShapeColumns]`: `concat` raises on an empty list, and the
   * selection raises a `KeyError` for a column no frame has (`file_year`
   * every frame has).
   */
  function SchoolShapes(dfs: seq<Loaded>): (r: Result<seq<seq<Option<string>>>>)
    ensures r.Ok? <==> dfs != [] && forall j :: 0 <= j < 6 ==> SomeFrameHas(dfs, ShapeColumns[j])
    ensures r.Ok? ==> r.value == ProjectFrames(dfs)
  {
    if dfs == [] then Err("ValueError: No objects to concatenate")
    else if exists j :: 0 <= j < 6 && !SomeFrameHas(dfs, ShapeColumns[j]) then Err("KeyError: column not in index")
    else Ok(ProjectFrames(dfs))
  }

  // ---------------------------------------------------------------------------
  // `collect_by_grade`

  /** A crime after the left spatial join: its group key and the matched boundary's grade and ID. */
  datatype JoinedRow = JoinedRow(crimeId: Option<string>, date: Option<string>, primaryType: Option<string>,
                                 grade: Option<string>, schoolId: Option<int>)

  type CrimeKey = (string, string, string)

  /** Rows missing any key are in no group (`groupby` drops them). */
  function KeyOf(r: JoinedRow): Option<CrimeKey> {
    if r.crimeId.Some? && r.date.Some? && r.primaryType.Some? then Some((r.crimeId.value, r.date.value, r.primaryType.value))
    else None
  }

  /** Row `r` belongs to the group `key`, has grade `grade` and the non-missing ID `id`. */
  predicate Gives(r: JoinedRow, key: CrimeKey, grade: string, id: int) {
    KeyOf(r) == Some(key) && r.grade == Some(grade) && r.schoolId == Some(id)
  }

  /** Some row of the group gives `a` at or before the first row that gives `b`. */
  ghost predicate GivenFirst(rows: seq<JoinedRow>, key: CrimeKey, grade: string, a: int, b: int) {
    exists m :: 0 <= m < |rows| && Gives(rows[m], key, grade, a) && forall n :: 0 <= n <= m ==> !Gives(rows[n], key, grade, b)
  }

  /** `df.loc[df.GRADE_CAT == grade, "SCHOOL_ID"].dropna()` over the group. */
  function GradeIds(rows: seq<JoinedRow>, key: CrimeKey, grade: string): (ids: seq<int>)
    ensures forall id :: id in ids <==> exists r :: r in rows && KeyOf(r) == Some(key) && r.grade == Some(grade) && r.schoolId == Some(id)
  {
    if rows == [] then []
    else
      var r := rows[0];
      assert forall x :: x in rows <==> x == r || x in rows[1..];
      (if KeyOf(r) == Some(key) && r.grade == Some(grade) && r.schoolId.Some? then [r.schoolId.value] else [])
        + GradeIds(rows[1..], key, grade)
  }

  /** The selection keeps row order: an ID listed before another is given by an earlier row. */
  lemma {:induction false} GradeIdsOrder(rows: seq<JoinedRow>, key: CrimeKey, grade: string, a: int, b: int)
    requires OccursBefore(GradeIds(rows, key, grade), a, b)
    ensures GivenFirst(rows, key, grade, a, b)
  {
    var ids := GradeIds(rows, key, grade);
    var k :| 0 <= k < |ids| && ids[k] == a && b !in ids[..k + 1];
    var rest := GradeIds(rows[1..], key, grade);
    if KeyOf(rows[0]) == Some(key) && rows[0].grade == Some(grade) && rows[0].schoolId.Some? {
      var h := rows[0].schoolId.value;
      assert ids == [h] + rest;
      assert ids[..1] == [h];
      if k == 0 {
        assert Gives(rows[0], key, grade, a) && !Gives(rows[0], key, grade, b);
        assert forall n :: 0 <= n <= 0 ==> !Gives(rows[n], key, grade, b);
      } else {
        assert ids[..k + 1] == [h] + rest[..k];
        assert rest[k - 1] == a && b !in rest[..k];
        assert OccursBefore(rest, a, b);
        GradeIdsOrder(rows[1..], key, grade, a, b);
        GivenFirstShift(rows, key, grade, a, b);
      }
    } else {
      assert ids == rest;
      GradeIdsOrder(rows[1..], key, grade, a, b);
      GivenFirstShift(rows, key, grade, a, b);
    }
  }

  lemma GivenFirstShift(rows: seq<JoinedRow>, key: CrimeKey, grade: string, a: int, b: int)
    requires rows != [] && GivenFirst(rows[1..], key, grade, a, b) && !Gives(rows[0], key, grade, b)
    ensures GivenFirst(rows, key, grade, a, b)
  {
    var m :| 0 <= m < |rows[1..]| && Gives(rows[1..][m], key, grade, a)
             && forall n :: 0 <= n <= m ==> !Gives(rows[1..][n], key, grade, b);
    assert Gives(rows[m + 1], key, grade, a);
    forall n | 0 <= n <= m + 1 ensures !Gives(rows[n], key, grade, b) {
      if n > 0 {
        assert rows[n] == rows[1..][n - 1];
      }
    }
  }

  /** `.unique()` of the selection: each ID once, in the order the group's rows first give them. */
  lemma GradeListOrder(rows: seq<JoinedRow>, key: CrimeKey, grade: string)
    ensures forall i, j :: 0 <= i < j < |Distinct(GradeIds(rows, key, grade))| ==>
              GivenFirst(rows, key, grade, Distinct(GradeIds(rows, key, grade))[i], Distinct(GradeIds(rows, key, grade))[j])
  {
    var ids := GradeIds(rows, key, grade);
    DistinctFirstAppearance(ids);
    forall i, j | 0 <= i < j < |Distinct(ids)| ensures GivenFirst(rows, key, grade, Distinct(ids)[i], Distinct(ids)[j]) {
      GradeIdsOrder(rows, key, grade, Distinct(ids)[i], Distinct(ids)[j]);
    }
  }

  /** One row of `crime_with_grades`. */
  datatype GradeLists = GradeLists(key: CrimeKey, es: seq<int>, ms: seq<int>, hs: seq<int>)

  function Keys(rows: seq<JoinedRow>): (keys: seq<CrimeKey>)
    ensures forall k :: k in keys <==> exists r :: r in rows && KeyOf(r) == Some(k)
  {
    if rows == [] then []
    else
      assert forall x :: x in rows <==> x == rows[0] || x in rows[1..];
      (if KeyOf(rows[0]).Some? then [KeyOf(rows[0]).value] else []) + Keys(rows[1..])
  }

  /**
   * `collect_by_grade` on one group: for each grade, the group's non-missing
   * `SCHOOL_ID`s of that grade, each once.
   */
  function Collect(rows: seq<JoinedRow>, key: CrimeKey): GradeLists {
    GradeLists(key, Distinct(GradeIds(rows, key, "ES")), Distinct(GradeIds(rows, key, "MS")), Distinct(GradeIds(rows, key, "HS")))
  }

  /**
   * Each list holds every non-missing `SCHOOL_ID` of its grade in the group
   * exactly once, in the order the group's rows first give them; rows of any
   * other grade contribute nothing.
   */
  lemma CollectLists(rows: seq<JoinedRow>, key: CrimeKey)
    ensures NoDuplicates(Collect(rows, key).es) && NoDuplicates(Collect(rows, key).ms) && NoDuplicates(Collect(rows, key).hs)
    ensures forall id :: id in Collect(rows, key).es <==> exists r :: r in rows && KeyOf(r) == Some(key) && r.grade == Some("ES") && r.schoolId == Some(id)
    ensures forall id :: id in Collect(rows, key).ms <==> exists r :: r in rows && KeyOf(r) == Some(key) && r.grade == Some("MS") && r.schoolId == Some(id)
    ensures forall id :: id in Collect(rows, key).hs <==> exists r :: r in rows && KeyOf(r) == Some(key) && r.grade == Some("HS") && r.schoolId == Some(id)
    ensures forall i, j :: 0 <= i < j < |Collect(rows, key).es| ==> GivenFirst(rows, key, "ES", Collect(rows, key).es[i], Collect(rows, key).es[j])
    ensures forall i, j :: 0 <= i < j < |Collect(rows, key).ms| ==> GivenFirst(rows, key, "MS", Collect(rows, key).ms[i], Collect(rows, key).ms[j])
    ensures forall i, j :: 0 <= i < j < |Collect(rows, key).hs| ==> GivenFirst(rows, key, "HS", Collect(rows, key).hs[i], Collect(rows, key).hs[j])
  {
    GradeListOrder(rows, key, "ES");
    GradeListOrder(rows, key, "MS");
    GradeListOrder(rows, key, "HS");
  }

  /** The grouped table: one row per crime key, in order of first appearance. */
  function CrimeWithGrades(rows: seq<JoinedRow>): (t: seq<GradeLists>)
    ensures forall i, j :: 0 <= i < j < |t| ==> t[i].key != t[j].key
    ensures forall k :: (exists g :: g in t && g.key == k) <==> exists r :: r in rows && KeyOf(r) == Some(k)
    ensures forall g :: g in t ==> g == Collect(rows, g.key)
  {
    var keys := Distinct(Keys(rows));
    var t := CollectAll(rows, keys);
    CollectAllKeys(rows, keys);
    CollectAllCovers(rows, keys);
    t
  }

  /** The groups of `CollectAll` carry the keys in order, each collected by its own key. */
  lemma CollectAllKeys(rows: seq<JoinedRow>, keys: seq<CrimeKey>)
    requires NoDuplicates(keys)
    ensures var t := CollectAll(rows, keys);
            && (forall i, j :: 0 <= i < j < |t| ==> t[i].key != t[j].key)
            && (forall g :: g in t ==> g == Collect(rows, g.key))
  {
    var t := CollectAll(rows, keys);
    assert forall i :: 0 <= i < |t| ==> t[i].key == keys[i];
  }

  lemma CollectAllCovers(rows: seq<JoinedRow>, keys: seq<CrimeKey>)
    requires forall k :: k in keys <==> exists r :: r in rows && KeyOf(r) == Some(k)
    ensures var t := CollectAll(rows, keys);
            forall k :: (exists g :: g in t && g.key == k) <==> exists r :: r in rows && KeyOf(r) == Some(k)
  {
    var t := CollectAll(rows, keys);
    assert forall i :: 0 <= i < |t| ==> t[i].key == keys[i];
    forall k | k in keys ensures exists g :: g in t && g.key == k {
      var i :| 0 <= i < |keys| && keys[i] == k;
      assert t[i] in t;
    }
    forall g | g in t ensures g.key in keys {
      var i :| 0 <= i < |t| && t[i] == g;
    }
  }

  function CollectAll(rows: seq<JoinedRow>, keys: seq<CrimeKey>): (t: seq<GradeLists>)
    ensures |t| == |keys| && forall i :: 0 <= i < |keys| ==> t[i] == Collect(rows, keys[i])
  {
    seq(|keys|, i requires 0 <= i < |keys| => Collect(rows, keys[i]))
  }

}
