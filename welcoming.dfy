/**
 * `welcoming_school_additions.py`: the raw 2013 closure list is matched by
 * name, in place, to the 2012-13 and 2013-14 school shapes, and the schools
 * still missing from the closure list are appended as closures of 2014.
 */
module Welcoming {
  import opened Wrappers
  import opened Seqs
  import opened Fuzzy
  import opened Schools

  /** The `threshold` the script passes. */
  const WelcomingThreshold := 90

  /** Only the shapes of the two school years around the 2013 closures are candidates. */
  predicate InClosureWave(r: ShapeRow) {
    r.fileYear == Some("1213") || r.fileYear == Some("1314")
  }

  function IsWaveYear(r: ShapeRow): bool { InClosureWave(r) }

  /** `query("file_year in ['1213','1314']")`. */
  function WaveShapes(shapes: seq<ShapeRow>): (w: seq<ShapeRow>)
    ensures forall r :: r in w <==> r in shapes && InClosureWave(r)
    ensures Subsequence(w, shapes)
  {
    FilterIsSubsequence(shapes, IsWaveYear);
    Filter(shapes, IsWaveYear)
  }

  /**
   * A row of the raw closure list: the "School" and `SCHOOL_NM` columns, the
   * four columns the matcher writes, and every other column by name.
   */
  datatype RawRow = RawRow(
    school: Option<string>,
    schoolNm: Option<string>,
    matchedName: Option<string>,
    matchScore: int,
    id: Option<int>,
    grade: Option<string>,
    others: map<string, Option<string>>)

  /** The four columns as the matcher first sets them. */
  function Reset(r: RawRow): RawRow {
    r.(matchedName := None, matchScore := 0, id := None, grade := None)
  }

  /** `shapes_df["SCHOOL_NM"].tolist()` as the scorer reads it: a present name as itself, a missing one as "nan". */
  function ShapeNames(shapes: seq<ShapeRow>): (names: seq<string>)
    ensures |names| == |shapes|
    ensures forall k :: 0 <= k < |shapes| ==> (shapes[k].name.Some? ==> names[k] == shapes[k].name.value)
    ensures forall k :: 0 <= k < |shapes| ==> (shapes[k].name.None? ==> names[k] == "nan")
  {
    seq(|shapes|, k requires 0 <= k < |shapes| => AsText(shapes[k].name))
  }

  function BestFor(r: RawRow, shapes: seq<ShapeRow>, extract: ExtractOne): Candidate {
    BestOrBlank(extract, AsText(r.school), ShapeNames(shapes))
  }

  /** `shapes_df[shapes_df["SCHOOL_NM"] == name].iloc[0]`, missing where `iloc[0]` raises. */
  function FirstNamed(shapes: seq<ShapeRow>, name: string): (r: Option<nat>)
    ensures r.None? <==> forall k :: 0 <= k < |shapes| ==> shapes[k].name != Some(name)
    ensures r.Some? ==> r.value < |shapes| && shapes[r.value].name == Some(name)
                        && forall k :: 0 <= k < r.value ==> shapes[k].name != Some(name)
  {
    if shapes == [] then None
    else if shapes[0].name == Some(name) then Some(0)
    else match FirstNamed(shapes[1..], name)
      case None => None
      case Some(k) => Some(k + 1)
  }

  /** A row after its `matched_name` and `match_score` are written. */
  function Scored(r: RawRow, shapes: seq<ShapeRow>, extract: ExtractOne): RawRow {
    var best := BestFor(r, shapes, extract);
    Reset(r).(matchedName := Some(best.name), matchScore := best.score)
  }

  /** Whether the row's step of the loop completes: below the threshold, or a shapes row has the name. */
  predicate Completes(r: RawRow, shapes: seq<ShapeRow>, threshold: int, extract: ExtractOne) {
    var best := BestFor(r, shapes, extract);
    best.score < threshold || FirstNamed(shapes, best.name).Some?
  }

  /** A row after its step of the loop completed. */
  function Matched(r: RawRow, shapes: seq<ShapeRow>, threshold: int, extract: ExtractOne): (m: RawRow)
    requires Completes(r, shapes, threshold, extract)
  {
    var best := BestFor(r, shapes, extract);
    var s := Scored(r, shapes, extract);
    if best.score < threshold then s
    else
      var k := FirstNamed(shapes, best.name).value;
      s.(id := shapes[k].id, grade := shapes[k].grade)
  }

  /**
   * Every row gets its best name and score; `SCHOOL_ID` and `GRADE_CAT` are
   * set only at or above the threshold, from the first shapes row bearing the
   * matched name; no other column changes.
   */
  lemma MatchedRow(r: RawRow, shapes: seq<ShapeRow>, threshold: int, extract: ExtractOne)
    requires Completes(r, shapes, threshold, extract)
    ensures var m := Matched(r, shapes, threshold, extract);
            var best := BestFor(r, shapes, extract);
            && m.matchedName == Some(best.name) && m.matchScore == best.score
            && m.school == r.school && m.schoolNm == r.schoolNm && m.others == r.others
            && (best.score < threshold ==> m.id == None && m.grade == None)
            && (best.score >= threshold ==>
                  exists k :: && 0 <= k < |shapes| && shapes[k].name == Some(best.name)
                              && m.id == shapes[k].id && m.grade == shapes[k].grade
                              && forall j :: 0 <= j < k ==> shapes[j].name != Some(best.name))
  {
  }

  /** A scorer that answers whenever it has choices, over shapes that all have names, never makes the loop raise. */
  lemma WellBehavedCompletes(r: RawRow, shapes: seq<ShapeRow>, threshold: int, extract: ExtractOne)
    requires WellBehaved(extract) && 0 < threshold
    requires forall k :: 0 <= k < |shapes| ==> shapes[k].name.Some?
    ensures Completes(r, shapes, threshold, extract)
  {
    var best := BestFor(r, shapes, extract);
    if best.score >= threshold {
      BestOrBlankIsChoice(extract, AsText(r.school), ShapeNames(shapes));
      var k :| 0 <= k < |shapes| && ShapeNames(shapes)[k] == best.name;
      assert shapes[k].name == Some(best.name);
    }
  }

  /** The four column assignments over the whole table: the matcher's columns cleared, every other cell kept. */
  function Resets(rs: seq<RawRow>): (t: seq<RawRow>)
    ensures |t| == |rs|
    ensures forall k :: 0 <= k < |rs| ==>
              t[k].matchedName.None? && t[k].matchScore == 0 && t[k].id.None? && t[k].grade.None?
    ensures forall k :: 0 <= k < |rs| ==>
              t[k].school == rs[k].school && t[k].schoolNm == rs[k].schoolNm && t[k].others == rs[k].others
  {
    seq(|rs|, k requires 0 <= k < |rs| => Reset(rs[k]))
  }

  /** The raw closure list, which `match_school_names` updates in place. */
  class RawClosureTable {
    var rows: seq<RawRow>

    constructor(initial: seq<RawRow>)
      ensures rows == initial
    {
      rows := initial;
    }

    /**
     * `match_school_names`. It returns false where the lookup of a matched
     * name raises: the rows before it are matched, the failing row has its
     * name and score written, and the rows after it are only reset.
     */
    method MatchSchoolNames(shapes: seq<ShapeRow>, threshold: int, extract: ExtractOne) returns (ok: bool)
      modifies this
      ensures |rows| == |old(rows)|
      ensures ok <==> forall k :: 0 <= k < |rows| ==> Completes(old(rows)[k], shapes, threshold, extract)
      ensures ok ==> forall k :: 0 <= k < |rows| ==> rows[k] == Matched(old(rows)[k], shapes, threshold, extract)
      ensures !ok ==> exists f :: && 0 <= f < |rows| && !Completes(old(rows)[f], shapes, threshold, extract)
                                  && (forall k :: 0 <= k < f ==>
                                        Completes(old(rows)[k], shapes, threshold, extract)
                                        && rows[k] == Matched(old(rows)[k], shapes, threshold, extract))
                                  && rows[f] == Scored(old(rows)[f], shapes, extract)
                                  && forall k :: f < k < |rows| ==> rows[k] == Reset(old(rows)[k])
    {
      var initial := rows;
      rows := Resets(rows);
      var i := 0;
      while i < |rows|
        invariant 0 <= i <= |rows| == |initial|
        invariant forall k :: 0 <= k < i ==>
                    Completes(initial[k], shapes, threshold, extract)
                    && rows[k] == Matched(initial[k], shapes, threshold, extract)
        invariant forall k :: i <= k < |rows| ==> rows[k] == Reset(initial[k])
      {
        var best := BestOrBlank(extract, AsText(rows[i].school), ShapeNames(shapes));
        assert Reset(initial[i]).school == initial[i].school;
        rows := rows[i := rows[i].(matchedName := Some(best.name), matchScore := best.score)];
        if best.score >= threshold {
          var found := FirstNamed(shapes, best.name);
          if found.None? {
            return false;
          }
          var k := found.value;
          rows := rows[i := rows[i].(id := shapes[k].id, grade := shapes[k].grade)];
        }
        i := i + 1;
      }
      return true;
    }
  }

  // ---------------------------------------------------------------------------
  // Missing schools and the appended closures

  /** `~SCHOOL_ID.isin(closure_df.SCHOOL_ID)`: a row left with `pd.NA` never matches, so it is missing too. */
  predicate IsMissing(r: RawRow, closures: seq<Closure>) {
    r.id.None? || r.id !in IdColumn(closures)
  }

  function MissingFrom(closures: seq<Closure>): RawRow -> bool {
    (r: RawRow) => IsMissing(r, closures)
  }

  /** `missing`. */
  function Missing(rows: seq<RawRow>, closures: seq<Closure>): (m: seq<RawRow>)
    ensures forall r :: r in m <==> r in rows && IsMissing(r, closures)
    ensures Subsequence(m, rows)
  {
    FilterIsSubsequence(rows, MissingFrom(closures));
    Filter(rows, MissingFrom(closures))
  }

  function NewClosure(r: RawRow): Closure {
    Closure(r.id, r.schoolNm, r.grade, 2013, 2014)
  }

  /** `updated`: the existing closures unchanged, then one 2013/2014 row per missing raw row. */
  function Updated(closures: seq<Closure>, rows: seq<RawRow>): (u: seq<Closure>)
    ensures |u| == |closures| + |Missing(rows, closures)|
    ensures u[..|closures|] == closures
    ensures forall k :: |closures| <= k < |u| ==>
              && u[k].lastOpenYear == 2013 && u[k].closureYear == 2014
              && (u[k].id.None? || u[k].id !in IdColumn(closures))
    ensures forall k :: |closures| <= k < |u| ==> u[k] == NewClosure(Missing(rows, closures)[k - |closures|])
  {
    var m := Missing(rows, closures);
    assert forall k :: 0 <= k < |m| ==> m[k] in m;
    closures + seq(|m|, k requires 0 <= k < |m| => NewClosure(m[k]))
  }

  /** Every raw row that is missing has its 2014 closure in the updated list. */
  lemma UpdatedAddsEveryMissing(closures: seq<Closure>, rows: seq<RawRow>, r: RawRow)
    requires r in rows && IsMissing(r, closures)
    ensures NewClosure(r) in Updated(closures, rows)[|closures|..]
  {
    var m := Missing(rows, closures);
    var k :| 0 <= k < |m| && m[k] == r;
    assert Updated(closures, rows)[|closures| + k] == NewClosure(r);
  }

  /** The script's steps 4 to 5: match in place, then append; the loop's `IndexError` ends the script. */
  method AddWelcomingClosures(closures: seq<Closure>, raw: seq<RawRow>, shapes: seq<ShapeRow>, extract: ExtractOne)
    returns (updated: Result<seq<Closure>>)
    ensures updated.Ok? <==> forall k :: 0 <= k < |raw| ==> Completes(raw[k], WaveShapes(shapes), WelcomingThreshold, extract)
    ensures updated.Ok? ==>
              updated.value == Updated(closures, seq(|raw|, k requires 0 <= k < |raw| =>
                                 Matched(raw[k], WaveShapes(shapes), WelcomingThreshold, extract)))
  {
    var table := new RawClosureTable(raw);
    var ok := table.MatchSchoolNames(WaveShapes(shapes), WelcomingThreshold, extract);
    if !ok {
      return Err("IndexError: single positional indexer is out-of-bounds");
    }
    assert table.rows == seq(|raw|, k requires 0 <= k < |raw| => Matched(raw[k], WaveShapes(shapes), WelcomingThreshold, extract));
    return Ok(Updated(closures, table.rows));
  }
}
