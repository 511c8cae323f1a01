/**
 * The open-year table and the computed closure years of
 * `school_opening_map.py`, and the two review tables it writes for the raw
 * 2013 closure list (by name and by address).
 */
module OpeningMap {
  import opened Wrappers
  import opened Text
  import opened Seqs
  import opened Ordering
  import opened Fuzzy
  import opened SchoolYears
  import opened Schools

  /** Closures in this year or later are beyond the data and are dropped. */
  const ClosureCutoff := 2019

  type SchoolGrade = (int, string)

  /** A row belongs to the group of `(SCHOOL_ID, GRADE_CAT)` = `p`; rows missing either key are in no group. */
  predicate HasPair(y: Yeared, p: SchoolGrade) {
    y.row.id == Some(p.0) && y.row.grade == Some(p.1)
  }

  /** The group keys in the order `groupby` lists them: by ID, then by grade text. */
  predicate PairLe(p: SchoolGrade, q: SchoolGrade) {
    p.0 < q.0 || (p.0 == q.0 && StrLe(p.1, q.1))
  }

  lemma PairLeTotalPreorder()
    ensures TotalPreorder(PairLe)
  {
    forall p: SchoolGrade, q: SchoolGrade ensures PairLe(p, q) || PairLe(q, p) {
      StrLeTotal(p.1, q.1);
    }
    forall p: SchoolGrade, q: SchoolGrade, r: SchoolGrade | PairLe(p, q) && PairLe(q, r)
      ensures PairLe(p, r)
    {
      if p.0 == q.0 == r.0 { StrLeTrans(p.1, q.1, r.1); }
    }
  }

  /** Some row of the input is in the group `p`. */
  predicate InGroup(ys: seq<Yeared>, p: SchoolGrade) {
    exists i :: 0 <= i < |ys| && HasPair(ys[i], p)
  }

  lemma InGroupCons(ys: seq<Yeared>, p: SchoolGrade)
    requires ys != []
    ensures InGroup(ys, p) <==> HasPair(ys[0], p) || InGroup(ys[1..], p)
  {
    if InGroup(ys[1..], p) {
      var i :| 0 <= i < |ys[1..]| && HasPair(ys[1..][i], p);
      assert HasPair(ys[i + 1], p);
    }
    if InGroup(ys, p) && !HasPair(ys[0], p) {
      var i :| 0 <= i < |ys| && HasPair(ys[i], p);
      assert HasPair(ys[1..][i - 1], p);
    }
  }

  /** The key of every row that has both keys, in row order. */
  function PairsColumn(ys: seq<Yeared>): (ps: seq<SchoolGrade>)
    ensures forall p :: p in ps <==> InGroup(ys, p)
  {
    if ys == [] then []
    else
      var rest := PairsColumn(ys[1..]);
      assert forall p :: InGroup(ys, p) <==> HasPair(ys[0], p) || InGroup(ys[1..], p) by {
        forall p ensures InGroup(ys, p) <==> HasPair(ys[0], p) || InGroup(ys[1..], p) { InGroupCons(ys, p); }
      }
      match (ys[0].row.id, ys[0].row.grade)
      case (Some(id), Some(g)) => [(id, g)] + rest
      case _ => rest
  }

  /** The groups of the pivot and of `last_open`: every key pair once, in sorted order. */
  function SchoolGradePairs(ys: seq<Yeared>): (ps: seq<SchoolGrade>)
    ensures NoDuplicates(ps)
    ensures Sorted(ps, PairLe)
    ensures forall p :: p in ps <==> InGroup(ys, p)
  {
    PairLeTotalPreorder();
    var column := PairsColumn(ys);
    var sorted := SortBy(column, PairLe);
    assert forall p :: p in sorted <==> p in column by {
      forall p ensures p in sorted <==> p in column {
        assert p in sorted <==> p in multiset(sorted);
        assert p in column <==> p in multiset(column);
      }
    }
    DistinctIsSubsequence(sorted);
    SubsequenceSorted(Distinct(sorted), sorted, PairLe);
    Distinct(sorted)
  }

  // ---------------------------------------------------------------------------
  // Representative names: `sort_values("file_year").drop_duplicates("SCHOOL_ID")`

  /** `sort_values("file_year")` order: year codes as text, missing codes last. */
  predicate FileYearLe(a: ShapeRow, b: ShapeRow) {
    match (a.fileYear, b.fileYear)
    case (Some(x), Some(y)) => StrLe(x, y)
    case (Some(_), None) => true
    case (None, Some(_)) => false
    case (None, None) => true
  }

  lemma FileYearLeTotalPreorder()
    ensures TotalPreorder(FileYearLe)
  {
    forall a: ShapeRow, b: ShapeRow ensures FileYearLe(a, b) || FileYearLe(b, a) {
      if a.fileYear.Some? && b.fileYear.Some? { StrLeTotal(a.fileYear.value, b.fileYear.value); }
    }
    forall a: ShapeRow, b: ShapeRow, c: ShapeRow | FileYearLe(a, b) && FileYearLe(b, c)
      ensures FileYearLe(a, c)
    {
      if a.fileYear.Some? && b.fileYear.Some? && c.fileYear.Some? {
        StrLeTrans(a.fileYear.value, b.fileYear.value, c.fileYear.value);
      }
    }
  }

  /** `rep_names`: one row per `SCHOOL_ID`, the first after sorting by `file_year`. */
  function RepresentativeRows(rows: seq<ShapeRow>): (reps: seq<ShapeRow>)
    ensures forall i, j :: 0 <= i < j < |reps| ==> reps[i].id != reps[j].id
    ensures forall r :: r in reps ==> r in rows
  {
    FileYearLeTotalPreorder();
    var sorted := SortBy(rows, FileYearLe);
    assert forall r :: r in sorted ==> r in multiset(rows);
    KeepFirstBy(sorted, RowId, {})
  }

  /** The row a left merge on `SCHOOL_ID` finds for `id`. */
  function FindById(reps: seq<ShapeRow>, id: int): (r: Option<ShapeRow>)
    ensures r.None? <==> forall x :: x in reps ==> x.id != Some(id)
    ensures r.Some? ==> r.value in reps && r.value.id == Some(id)
  {
    if reps == [] then None
    else if reps[0].id == Some(id) then Some(reps[0])
    else FindById(reps[1..], id)
  }

  /** `SCHOOL_NM` after the merge with `rep_names`: missing when no row has the ID. */
  function RepresentativeName(rows: seq<ShapeRow>, id: int): Option<string> {
    match FindById(RepresentativeRows(rows), id)
    case Some(r) => r.name
    case None => None
  }

  /** Every kept row is, among the rows of its ID, one with the smallest `file_year`. */
  lemma {:induction false} RepresentativeRowEarliest(rows: seq<ShapeRow>, x: ShapeRow, z: ShapeRow)
    requires x in RepresentativeRows(rows) && z in rows && z.id == x.id
    ensures FileYearLe(x, z)
  {
    FileYearLeTotalPreorder();
    var sorted := SortBy(rows, FileYearLe);
    assert z in multiset(sorted);
    KeepFirstOfSortedIsLeast(sorted, FileYearLe, RowId, x, z);
  }

  /** Every ID of the input keeps a row. */
  lemma RepresentativeRowsCover(rows: seq<ShapeRow>, z: ShapeRow)
    requires z in rows
    ensures exists x :: x in RepresentativeRows(rows) && x.id == z.id
  {
    FileYearLeTotalPreorder();
    var sorted := SortBy(rows, FileYearLe);
    assert z in multiset(sorted);
    KeepFirstCovers(sorted, RowId, {}, z);
  }

  /**
   * The merged name is missing when no row has the ID, and otherwise comes from
   * a row of that ID with the smallest `file_year`.
   */
  lemma RepresentativeNameEarliest(rows: seq<ShapeRow>, id: int, z: ShapeRow)
    requires z in rows && z.id == Some(id)
    ensures exists x :: x in rows && x.id == Some(id) && RepresentativeName(rows, id) == x.name
                     && forall w :: w in rows && w.id == Some(id) ==> FileYearLe(x, w)
  {
    RepresentativeRowsCover(rows, z);
    var found := FindById(RepresentativeRows(rows), id);
    var x := found.value;
    forall w | w in rows && w.id == Some(id) ensures FileYearLe(x, w) {
      RepresentativeRowEarliest(rows, x, w);
    }
  }

  lemma RepresentativeNameMissing(rows: seq<ShapeRow>, id: int)
    requires forall x :: x in rows ==> x.id != Some(id)
    ensures RepresentativeName(rows, id) == None
  {
    assert FindById(RepresentativeRows(rows), id).None?;
  }

  // ---------------------------------------------------------------------------
  // The wide open-year table

  /** One row of `school_open_years.csv`; `open_Y` of the row is `OpenFlag(row, Y)`. */
  datatype OpenRow = OpenRow(id: int, name: Option<string>, grade: string, openYears: set<int>)

  predicate HasKeys(y: Yeared) { y.row.id.Some? && y.row.grade.Some? }

  /** The `open_Y` columns: every start year of a row that has both keys. */
  function YearColumns(ys: seq<Yeared>): set<int> {
    set i | 0 <= i < |ys| && HasKeys(ys[i]) :: ys[i].start
  }

  function OpenYearsOf(ys: seq<Yeared>, p: SchoolGrade): set<int> {
    set i | 0 <= i < |ys| && HasPair(ys[i], p) :: ys[i].start
  }

  /** The pivot's `max` of the dummy 1, filled with 0 where the pair has no row that year. */
  function OpenFlag(row: OpenRow, year: int): (flag: int)
    ensures flag == 0 || flag == 1
  {
    if year in row.openYears then 1 else 0
  }

  function OpenRowsFor(rows: seq<ShapeRow>, ys: seq<Yeared>, ps: seq<SchoolGrade>): (t: seq<OpenRow>)
    ensures |t| == |ps|
    ensures forall k :: 0 <= k < |ps| ==>
              t[k] == OpenRow(ps[k].0, RepresentativeName(rows, ps[k].0), ps[k].1, OpenYearsOf(ys, ps[k]))
  {
    seq(|ps|, k requires 0 <= k < |ps| => OpenRow(ps[k].0, RepresentativeName(rows, ps[k].0), ps[k].1, OpenYearsOf(ys, ps[k])))
  }

  /** `school_open_wide`, rows sorted by `(SCHOOL_ID, GRADE_CAT)`. */
  function OpenWide(ys: seq<Yeared>): seq<OpenRow> {
    OpenRowsFor(Rows(ys), ys, SchoolGradePairs(ys))
  }

  function KeyOf(r: OpenRow): SchoolGrade { (r.id, r.grade) }

  /**
   * The wide table has exactly one row per `(SCHOOL_ID, GRADE_CAT)` pair of the
   * input, in sorted order.
   */
  lemma OpenWideRowPerPair(ys: seq<Yeared>)
    ensures var t := OpenWide(ys);
            && (forall k, l :: 0 <= k < l < |t| ==> KeyOf(t[k]) != KeyOf(t[l]) && PairLe(KeyOf(t[k]), KeyOf(t[l])))
            && (forall p :: InGroup(ys, p) <==> exists k :: 0 <= k < |t| && KeyOf(t[k]) == p)
  {
    var ps := SchoolGradePairs(ys);
    var t := OpenWide(ys);
    assert forall k :: 0 <= k < |t| ==> KeyOf(t[k]) == ps[k];
    forall p | InGroup(ys, p) ensures exists k :: 0 <= k < |t| && KeyOf(t[k]) == p {
      var k :| 0 <= k < |ps| && ps[k] == p;
      assert KeyOf(t[k]) == p;
    }
  }

  /** `open_Y` of a row is 1 iff some input row has the row's pair and start year `Y`. */
  lemma OpenFlagIff(ys: seq<Yeared>, k: nat, year: int)
    requires k < |OpenWide(ys)|
    ensures var row := OpenWide(ys)[k];
            OpenFlag(row, year) == 1 <==> exists i :: 0 <= i < |ys| && HasPair(ys[i], KeyOf(row)) && ys[i].start == year
  {
    var ps := SchoolGradePairs(ys);
    assert KeyOf(OpenWide(ys)[k]) == ps[k];
  }

  /** Every row of the wide table is open in at least one of the year columns. */
  lemma OpenWideRowsOpenSomeYear(ys: seq<Yeared>, k: nat)
    requires k < |OpenWide(ys)|
    ensures exists year :: year in YearColumns(ys) && OpenFlag(OpenWide(ys)[k], year) == 1
  {
    var ps := SchoolGradePairs(ys);
    var p := ps[k];
    assert p in ps;
    var i :| 0 <= i < |ys| && HasPair(ys[i], p);
    assert HasKeys(ys[i]);
    assert ys[i].start in YearColumns(ys);
    assert ys[i].start in OpenWide(ys)[k].openYears;
  }

  // ---------------------------------------------------------------------------
  // `last_open` and `closure_year`

  /** `groupby(...).agg(last_open_year=("academic_year_start", "max"))` for one group. */
  function MaxStart(ys: seq<Yeared>, p: SchoolGrade): (m: int)
    requires InGroup(ys, p)
    ensures exists i :: 0 <= i < |ys| && HasPair(ys[i], p) && ys[i].start == m
    ensures forall i :: 0 <= i < |ys| && HasPair(ys[i], p) ==> ys[i].start <= m
    decreases |ys|
  {
    var n := |ys| - 1;
    var init := ys[..n];
    assert forall i :: 0 <= i < n ==> init[i] == ys[i];
    if !InGroup(init, p) then
      assert forall i :: 0 <= i < n ==> !HasPair(ys[i], p) by {
        forall i | 0 <= i < n ensures !HasPair(ys[i], p) { assert init[i] == ys[i]; }
      }
      ys[n].start
    else
      var m0 := MaxStart(init, p);
      if HasPair(ys[n], p) && ys[n].start > m0 then ys[n].start else m0
  }

  function ClosureOf(rows: seq<ShapeRow>, ys: seq<Yeared>, p: SchoolGrade): (c: Closure)
    requires InGroup(ys, p)
  {
    var last := MaxStart(ys, p);
    Closure(Some(p.0), RepresentativeName(rows, p.0), Some(p.1), last, last + 1)
  }

  function ClosuresFor(rows: seq<ShapeRow>, ys: seq<Yeared>, ps: seq<SchoolGrade>): (t: seq<Closure>)
    requires forall p :: p in ps ==> InGroup(ys, p)
    ensures |t| <= |ps|
    ensures forall c :: c in t ==> YearsConsistent(c) && c.closureYear < ClosureCutoff && c.id.Some? && c.grade.Some?
  {
    if ps == [] then []
    else
      assert ps[0] in ps;
      var c := ClosureOf(rows, ys, ps[0]);
      (if c.closureYear < ClosureCutoff then [c] else []) + ClosuresFor(rows, ys, ps[1..])
  }

  /** `school_closure_years.csv`: the grouped maxima, the representative names, the cutoff. */
  function ComputedClosures(ys: seq<Yeared>): (t: seq<Closure>)
    ensures |t| <= |SchoolGradePairs(ys)|
    ensures forall c :: c in t ==> YearsConsistent(c) && c.closureYear < ClosureCutoff && c.id.Some? && c.grade.Some?
  {
    ClosuresFor(Rows(ys), ys, SchoolGradePairs(ys))
  }

  function IdGrade(c: Closure): (Option<int>, Option<string>) { (c.id, c.grade) }

  function SomeKey(p: SchoolGrade): (Option<int>, Option<string>) { (Some(p.0), Some(p.1)) }

  function IdGrades(t: seq<Closure>): (r: seq<(Option<int>, Option<string>)>)
    ensures |r| == |t| && forall k :: 0 <= k < |t| ==> r[k] == IdGrade(t[k])
  {
    if t == [] then [] else [IdGrade(t[0])] + IdGrades(t[1..])
  }

  function SomeKeys(ps: seq<SchoolGrade>): (r: seq<(Option<int>, Option<string>)>)
    ensures |r| == |ps| && forall k :: 0 <= k < |ps| ==> r[k] == SomeKey(ps[k])
  {
    if ps == [] then [] else [SomeKey(ps[0])] + SomeKeys(ps[1..])
  }

  /** The closures of a list of groups: those groups' closures that are before the cutoff. */
  lemma {:induction false} ClosuresForMembers(rows: seq<ShapeRow>, ys: seq<Yeared>, ps: seq<SchoolGrade>)
    requires forall p :: p in ps ==> InGroup(ys, p)
    ensures forall c :: c in ClosuresFor(rows, ys, ps) <==>
              exists p :: p in ps && c == ClosureOf(rows, ys, p) && c.closureYear < ClosureCutoff
  {
    if ps != [] {
      ClosuresForMembers(rows, ys, ps[1..]);
      assert forall p :: p in ps <==> p == ps[0] || p in ps[1..];
    }
  }

  /** The closures keep the order of the groups, leaving some out. */
  lemma {:induction false} ClosuresForOrder(rows: seq<ShapeRow>, ys: seq<Yeared>, ps: seq<SchoolGrade>)
    requires forall p :: p in ps ==> InGroup(ys, p)
    ensures Subsequence(IdGrades(ClosuresFor(rows, ys, ps)), SomeKeys(ps))
  {
    if ps != [] {
      ClosuresForOrder(rows, ys, ps[1..]);
      var rest := ClosuresFor(rows, ys, ps[1..]);
      assert ps[0] in ps;
      var c := ClosureOf(rows, ys, ps[0]);
      var keys := SomeKeys(ps);
      assert keys == [SomeKey(ps[0])] + SomeKeys(ps[1..]);
      SubsequenceCons(IdGrades(rest), SomeKeys(ps[1..]), SomeKey(ps[0]));
      if c.closureYear < ClosureCutoff {
        assert ClosuresFor(rows, ys, ps) == [c] + rest;
        assert ([c] + rest)[1..] == rest;
        assert IdGrades([c] + rest) == [SomeKey(ps[0])] + IdGrades(rest);
      } else {
        assert ClosuresFor(rows, ys, ps) == rest;
      }
    }
  }

  /**
   * Each computed closure belongs to an input `(SCHOOL_ID, GRADE_CAT)` group,
   * has `last_open_year` equal to the group's largest start year and
   * `closure_year` one more, is before the cutoff, and carries the ID's
   * representative name.
   */
  lemma ComputedClosuresSound(ys: seq<Yeared>, c: Closure)
    requires c in ComputedClosures(ys)
    ensures YearsConsistent(c) && c.closureYear < ClosureCutoff
    ensures c.id.Some? && c.grade.Some?
    ensures exists i :: 0 <= i < |ys| && HasPair(ys[i], (c.id.value, c.grade.value)) && ys[i].start == c.lastOpenYear
    ensures forall i :: 0 <= i < |ys| && HasPair(ys[i], (c.id.value, c.grade.value)) ==> ys[i].start <= c.lastOpenYear
    ensures c.name == RepresentativeName(Rows(ys), c.id.value)
  {
    ClosuresForMembers(Rows(ys), ys, SchoolGradePairs(ys));
  }

  /** Every group whose closure year is before the cutoff has its closure row. */
  lemma ComputedClosuresComplete(ys: seq<Yeared>, p: SchoolGrade)
    requires InGroup(ys, p) && MaxStart(ys, p) + 1 < ClosureCutoff
    ensures ClosureOf(Rows(ys), ys, p) in ComputedClosures(ys)
  {
    ClosuresForMembers(Rows(ys), ys, SchoolGradePairs(ys));
  }

  /** The closure table has at most one row per `(SCHOOL_ID, GRADE_CAT)`, in sorted order of the groups. */
  lemma ComputedClosuresUnique(ys: seq<Yeared>)
    ensures NoDuplicates(IdGrades(ComputedClosures(ys)))
  {
    var ps := SchoolGradePairs(ys);
    ClosuresForOrder(Rows(ys), ys, ps);
    var keys := SomeKeys(ps);
    assert NoDuplicates(keys) by {
      forall k, l | 0 <= k < l < |keys| ensures keys[k] != keys[l] {
        assert ps[k] != ps[l];
      }
    }
    SubsequenceNoDuplicates(IdGrades(ComputedClosures(ys)), keys);
  }

  /** Both tables of the script, or the error the `astype(int)` cast raises. */
  function OpeningTables(rows: seq<ShapeRow>): (r: Result<(seq<OpenRow>, seq<Closure>)>)
    ensures r.Ok? <==> forall i :: 0 <= i < |rows| ==> AcademicYearStart(rows[i].fileYear).Ok?
  {
    match WithStartYears(rows)
    case Err(e) => Err(e)
    case Ok(ys) => Ok((OpenWide(ys), ComputedClosures(ys)))
  }

  // ---------------------------------------------------------------------------
  // Review of the raw 2013 closure list

  /** A table read from CSV: column names in file order, cells as optional text. */
  datatype RawTable = RawTable(columns: seq<string>, rows: seq<map<string, Option<string>>>)

  /** A column after `astype(str)`: each row's cell as text, "nan" where the cell is missing or the row lacks it. */
  function ColumnText(t: RawTable, column: string): (texts: seq<string>)
    ensures |texts| == |t.rows|
    ensures forall i :: 0 <= i < |t.rows| && column in t.rows[i] && t.rows[i][column].Some? ==> texts[i] == t.rows[i][column].value
    ensures forall i :: 0 <= i < |t.rows| && (column !in t.rows[i] || t.rows[i][column].None?) ==> texts[i] == "nan"
  {
    seq(|t.rows|, i requires 0 <= i < |t.rows| => AsText(if column in t.rows[i] then t.rows[i][column] else None))
  }

  /** `raw_name_col`: "School" when present, else the first column (an `IndexError` on a table with none). */
  function NameColumn(columns: seq<string>): (r: Result<string>)
    ensures r.Err? <==> columns == []
    ensures r.Ok? ==> r.value in columns
    ensures r.Ok? && r.value != "School" ==> "School" !in columns && r.value == columns[0]
  {
    if "School" in columns then Ok("School")
    else if columns == [] then Err("IndexError: index 0 is out of bounds")
    else Ok(columns[0])
  }

  predicate IsAddressColumn(column: string) { Contains(ToLower(column), "addr") }

  /** `raw_addr_col`: the first column whose lower-cased name contains "addr"; a `KeyError` when none does. */
  function AddressColumn(columns: seq<string>): (r: Result<string>)
    ensures r.Err? <==> forall k :: 0 <= k < |columns| ==> !IsAddressColumn(columns[k])
    ensures r.Ok? ==> exists k :: && 0 <= k < |columns| && columns[k] == r.value && IsAddressColumn(r.value)
                                  && forall j :: 0 <= j < k ==> !IsAddressColumn(columns[j])
  {
    if columns == [] then Err("KeyError: Could not find an address column in raw_closures")
    else if IsAddressColumn(columns[0]) then Ok(columns[0])
    else
      match AddressColumn(columns[1..])
      case Err(e) => Err(e)
      case Ok(c) =>
        assert forall j :: 1 <= j < |columns| ==> columns[j] == columns[1..][j - 1];
        Ok(c)
  }

  /** `ref_names`: the computed closures' names, missing ones dropped, each once. */
  function ReferenceNames(closures: seq<Closure>): (names: seq<string>)
    ensures NoDuplicates(names)
    ensures forall n :: n in names <==> exists c :: c in closures && c.name == Some(n)
  {
    Distinct(PresentNames(closures))
  }

  function PresentNames(closures: seq<Closure>): (names: seq<string>)
    ensures forall n :: n in names <==> exists c :: c in closures && c.name == Some(n)
  {
    if closures == [] then []
    else
      assert forall c :: c in closures <==> c == closures[0] || c in closures[1..];
      (if closures[0].name.Some? then [closures[0].name.value] else []) + PresentNames(closures[1..])
  }

  datatype NameMatch = NameMatch(rawName: string, matchedName: string, score: Score)

  /** `matched_name` and `match_score` for each raw name. */
  function MatchNames(rawNames: seq<string>, candidates: seq<string>, extract: ExtractOne): (ms: seq<NameMatch>)
    ensures |ms| == |rawNames|
    ensures forall i :: 0 <= i < |ms| ==> ms[i].rawName == rawNames[i]
    ensures forall i :: 0 <= i < |ms| ==> ms[i].matchedName == BestOrBlank(extract, rawNames[i], candidates).name
                                          && ms[i].score == BestOrBlank(extract, rawNames[i], candidates).score
  {
    seq(|rawNames|, i requires 0 <= i < |rawNames| =>
      var c := BestOrBlank(extract, rawNames[i], candidates);
      NameMatch(rawNames[i], c.name, c.score))
  }

  /**
   * With a scorer that answers whenever it has choices, every matched name is a
   * reference name; with no reference names every row is `("", 0)`.
   */
  lemma MatchNamesFromCandidates(rawNames: seq<string>, candidates: seq<string>, extract: ExtractOne)
    requires WellBehaved(extract)
    ensures candidates != [] ==> forall m :: m in MatchNames(rawNames, candidates, extract) ==> m.matchedName in candidates
    ensures candidates == [] ==> forall m :: m in MatchNames(rawNames, candidates, extract) ==> m.matchedName == "" && m.score == 0
  {
    var ms := MatchNames(rawNames, candidates, extract);
    forall m | m in ms ensures candidates != [] ==> m.matchedName in candidates {
      var i :| 0 <= i < |ms| && ms[i] == m;
      BestOrBlankIsChoice(extract, rawNames[i], candidates);
    }
  }

  function NeedsReview(m: NameMatch): bool { m.score < 100 }

  /** `unmatched`: exactly the rows whose score is below 100, in order. */
  function ReviewRows(ms: seq<NameMatch>): (r: seq<NameMatch>)
    ensures forall m :: m in r <==> m in ms && m.score < 100
    ensures Subsequence(r, ms)
  {
    FilterIsSubsequence(ms, NeedsReview);
    Filter(ms, NeedsReview)
  }

  /**
   * The name review of the raw list against the computed closures: row `i`
   * carries raw row `i`'s name cell as text and its best reference name and score.
   * A table without rows fails: the empty frame of matches has no columns to
   * assign to `matched_name` and `match_score`.
   */
  function NameReview(raw: RawTable, closures: seq<Closure>, extract: ExtractOne): (r: Result<seq<NameMatch>>)
    ensures r.Err? <==> raw.columns == [] || raw.rows == []
    ensures r.Ok? ==> |r.value| == |raw.rows|
    ensures r.Ok? ==> forall i :: 0 <= i < |raw.rows| ==>
              && r.value[i].rawName == ColumnText(raw, NameColumn(raw.columns).value)[i]
              && r.value[i].matchedName == BestOrBlank(extract, ColumnText(raw, NameColumn(raw.columns).value)[i], ReferenceNames(closures)).name
              && r.value[i].score == BestOrBlank(extract, ColumnText(raw, NameColumn(raw.columns).value)[i], ReferenceNames(closures)).score
  {
    match NameColumn(raw.columns)
    case Err(e) => Err(e)
    case Ok(col) =>
      if raw.rows == [] then Err("ValueError: Columns must be same length as key")
      else Ok(MatchNames(ColumnText(raw, col), ReferenceNames(closures), extract))
  }

  /** One row of `school_closures_2013_address_review.csv`. */
  datatype AddressMatch = AddressMatch(
    rawName: string,
    rawAddress: string,
    matchedAddress: string,
    matchedId: Option<int>,
    matchedName: Option<string>,
    matchedGrade: Option<string>,
    score: Score)

  function RowAddress(r: ShapeRow): Option<string> { r.address }

  function HasAddress(r: ShapeRow): bool { r.address.Some? }

  /** `addr_map`: the first shapes row for each address. */
  function AddressMap(shapes: seq<ShapeRow>): (m: seq<ShapeRow>)
    ensures forall i, j :: 0 <= i < j < |m| ==> m[i].address != m[j].address
    ensures forall r :: r in m ==> r in shapes && r.address.Some?
  {
    KeepFirstBy(Filter(shapes, HasAddress), RowAddress, {})
  }

  /** `addr_candidates`: the addresses present, each once. */
  function AddressCandidates(shapes: seq<ShapeRow>): (a: seq<string>)
    ensures forall s :: s in a <==> exists r :: r in shapes && r.address == Some(s)
  {
    Distinct(PresentAddresses(shapes))
  }

  function PresentAddresses(shapes: seq<ShapeRow>): (a: seq<string>)
    ensures forall s :: s in a <==> exists r :: r in shapes && r.address == Some(s)
  {
    if shapes == [] then []
    else
      assert forall r :: r in shapes <==> r == shapes[0] || r in shapes[1..];
      (if shapes[0].address.Some? then [shapes[0].address.value] else []) + PresentAddresses(shapes[1..])
  }

  /** The row the left merge on `matched_address` finds. */
  function FindByAddress(m: seq<ShapeRow>, address: string): (r: Option<ShapeRow>)
    ensures r.None? <==> forall x :: x in m ==> x.address != Some(address)
    ensures r.Some? ==> r.value in m && r.value.address == Some(address)
  {
    if m == [] then None
    else if m[0].address == Some(address) then Some(m[0])
    else FindByAddress(m[1..], address)
  }

  /**
   * One row of the address review: the best shapes address and its score, and
   * the ID, name and grade of the `addr_map` row with that address (all missing
   * when the merge finds none).
   */
  function MatchAddress(rawName: string, rawAddress: string, shapes: seq<ShapeRow>, extract: ExtractOne): (m: AddressMatch)
    ensures m.rawName == rawName && m.rawAddress == rawAddress
    ensures m.matchedAddress == BestOrBlank(extract, rawAddress, AddressCandidates(shapes)).name
    ensures m.score == BestOrBlank(extract, rawAddress, AddressCandidates(shapes)).score
    ensures FindByAddress(AddressMap(shapes), m.matchedAddress).Some? ==>
              var s := FindByAddress(AddressMap(shapes), m.matchedAddress).value;
              (m.matchedId, m.matchedName, m.matchedGrade) == (s.id, s.name, s.grade)
    ensures FindByAddress(AddressMap(shapes), m.matchedAddress).None? ==>
              m.matchedId.None? && m.matchedName.None? && m.matchedGrade.None?
  {
    var c := BestOrBlank(extract, rawAddress, AddressCandidates(shapes));
    match FindByAddress(AddressMap(shapes), c.name)
    case Some(s) => AddressMatch(rawName, rawAddress, c.name, s.id, s.name, s.grade, c.score)
    case None => AddressMatch(rawName, rawAddress, c.name, None, None, None, c.score)
  }

  /**
   * The address review; a `KeyError` when the raw list has no address column,
   * and a `ValueError` when it has no rows (no columns to assign the matches to).
   */
  function AddressReview(raw: RawTable, shapes: seq<ShapeRow>, extract: ExtractOne): (r: Result<seq<AddressMatch>>)
    ensures r.Err? <==> (forall k :: 0 <= k < |raw.columns| ==> !IsAddressColumn(raw.columns[k])) || raw.rows == []
    ensures r.Ok? ==> |r.value| == |raw.rows|
    ensures r.Ok? ==> forall i :: 0 <= i < |raw.rows| ==>
              r.value[i] == MatchAddress(ColumnText(raw, if "School" in raw.columns then "School" else raw.columns[0])[i],
                                         ColumnText(raw, AddressColumn(raw.columns).value)[i], shapes, extract)
  {
    match AddressColumn(raw.columns)
    case Err(e) => Err(e)
    case Ok(col) =>
      if raw.rows == [] then Err("ValueError: Columns must be same length as key")
      else
        // `raw_school_name` reads the name column, which exists once an address column does.
        var names := ColumnText(raw, if "School" in raw.columns then "School" else raw.columns[0]);
        var addresses := ColumnText(raw, col);
        Ok(seq(|raw.rows|, i requires 0 <= i < |raw.rows| => MatchAddress(names[i], addresses[i], shapes, extract)))
  }

  /** A shapes row that `dropna()` on `SCHOOL_NM` and `SCHOOL_ID` keeps. */
  function HasNameAndId(r: ShapeRow): bool { r.name.Some? && r.id.Some? }

  /**
   * Steps 11 to 13 on the raw closure list: the name review, the top-3
   * expansion, and the address review, which the script reaches only when
   * the expansion succeeds. `process.extract(..., limit=3)` answers as many
   * candidates as there are shapes names up to three, so the three-column
   * frame of the candidates raises `ValueError` when fewer than three names
   * remain after `dropna()` and some row needs review; with no row to review,
   * unpacking `zip(*top3["m1"])` into two columns raises `ValueError`.
   */
  function ClosureListReviews(raw: RawTable, closures: seq<Closure>, shapes: seq<ShapeRow>, extract: ExtractOne)
    : (r: Result<(seq<NameMatch>, seq<AddressMatch>)>)
    ensures r.Ok? <==> && NameReview(raw, closures, extract).Ok?
                       && ReviewRows(NameReview(raw, closures, extract).value) != []
                       && |Filter(shapes, HasNameAndId)| >= 3
                       && AddressReview(raw, shapes, extract).Ok?
    ensures r.Ok? ==> r.value == (NameReview(raw, closures, extract).value, AddressReview(raw, shapes, extract).value)
  {
    match NameReview(raw, closures, extract)
    case Err(e) => Err(e)
    case Ok(ms) =>
      if ReviewRows(ms) == [] then Err("ValueError: not enough values to unpack (expected 2, got 0)")
      else if |Filter(shapes, HasNameAndId)| < 3 then Err("ValueError: 3 columns passed, passed data had fewer columns")
      else
        match AddressReview(raw, shapes, extract)
        case Err(e) => Err(e)
        case Ok(a) => Ok((ms, a))
  }

  /**
   * With a scorer that answers whenever it has choices, every review row found
   * a shapes row: the matched ID, name and grade are those of the first shapes
   * row with the matched address.
   */
  lemma {:induction false} AddressReviewFindsShape(rawName: string, rawAddress: string, shapes: seq<ShapeRow>, extract: ExtractOne)
    requires WellBehaved(extract) && exists r :: r in shapes && r.address.Some?
    ensures var m := MatchAddress(rawName, rawAddress, shapes, extract);
            exists i :: && 0 <= i < |shapes| && shapes[i].address == Some(m.matchedAddress)
                        && (m.matchedId, m.matchedName, m.matchedGrade) == (shapes[i].id, shapes[i].name, shapes[i].grade)
                        && forall j :: 0 <= j < i ==> shapes[j].address != Some(m.matchedAddress)
  {
    var cands := AddressCandidates(shapes);
    var r0 :| r0 in shapes && r0.address.Some?;
    assert r0.address.value in cands;
    BestOrBlankIsChoice(extract, rawAddress, cands);
    var c := BestOrBlank(extract, rawAddress, cands);
    assert c.name in cands;
    FindByAddressIsFirst(shapes, c.name);
  }

  /** An address some shapes row has is found, in the first row that has it. */
  lemma FindByAddressIsFirst(shapes: seq<ShapeRow>, address: string)
    requires exists r :: r in shapes && r.address == Some(address)
    ensures var s := FindByAddress(AddressMap(shapes), address);
            s.Some? && exists i :: && 0 <= i < |shapes| && shapes[i] == s.value
                                   && forall j :: 0 <= j < i ==> shapes[j].address != Some(address)
  {
    var r1 :| r1 in shapes && r1.address == Some(address);
    var present := Filter(shapes, HasAddress);
    assert r1 in present;
    KeepFirstCovers(present, RowAddress, {}, r1);
    var s := FindByAddress(AddressMap(shapes), address);
    assert s.Some?;
    assert s.value.address == Some(address);
    KeepFirstIsFirst(present, RowAddress, {}, s.value);
    FirstInFilter(shapes, HasAddress, RowAddress, s.value);
    var i :| 0 <= i < |shapes| && shapes[i] == s.value
             && forall j :: 0 <= j < i ==> HasAddress(shapes[j]) ==> RowAddress(shapes[j]) != RowAddress(s.value);
    forall j | 0 <= j < i ensures shapes[j].address != Some(address) {
      assert HasAddress(shapes[j]) ==> RowAddress(shapes[j]) != RowAddress(s.value);
    }
  }
}
