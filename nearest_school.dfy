/**
 * `crime_nearest_school.py` around its geometry: crimes without coordinates
 * are dropped, and a crime assigned to its nearest school is kept only when
 * one of the boundary year codes containing it ends with the crime's
 * two-digit calendar year.
 */
module NearestSchool {
  import opened Wrappers
  import opened Text
  import opened Seqs
  import opened SchoolYears

  /** A crime point; only whether its coordinates are present matters here. */
  datatype CrimePoint = CrimePoint(id: Option<string>, year: nat, month: nat, latitude: Option<real>, longitude: Option<real>)

  predicate HasCoordinates(c: CrimePoint) {
    c.latitude.Some? && c.longitude.Some?
  }

  function Located(c: CrimePoint): bool { HasCoordinates(c) }

  /** `dropna(subset=["latitude", "longitude"])`. */
  function DropMissingCoordinates(crimes: seq<CrimePoint>): (kept: seq<CrimePoint>)
    ensures forall c :: c in kept <==> c in crimes && HasCoordinates(c)
    ensures Subsequence(kept, crimes)
  {
    FilterIsSubsequence(crimes, Located);
    Filter(crimes, Located)
  }

  /**
   * A row of `review_df`: the crime's date, its nearest school and the
   * `file_year` of every boundary of that school containing the point (the
   * containment test is outside the model; its outcome is this list).
   */
  datatype ReviewRow = ReviewRow(crime: CrimePoint, schoolId: Option<int>, yearsInBoundary: seq<Option<string>>)

  /**
   * `any(yr.endswith(suffix) for yr in years)`: the generator stops at the
   * first code that ends with the suffix; a missing code reached before that
   * raises `AttributeError`.
   */
  function AnyEndsWith(years: seq<Option<string>>, suffix: string): (r: Result<bool>)
    ensures r.Err? ==> exists i :: 0 <= i < |years| && years[i].None?
    ensures r == Ok(true) ==> exists i :: 0 <= i < |years| && years[i].Some? && EndsWith(years[i].value, suffix)
    ensures r == Ok(false) ==> forall i :: 0 <= i < |years| ==> years[i].Some? && !EndsWith(years[i].value, suffix)
  {
    if years == [] then Ok(false)
    else if years[0].None? then Err("AttributeError: 'NoneType' object has no attribute 'endswith'")
    else if EndsWith(years[0].value, suffix) then Ok(true)
    else
      assert forall i :: 1 <= i < |years| ==> years[i] == years[1..][i - 1];
      AnyEndsWith(years[1..], suffix)
  }

  /** The test is true exactly when some code ends with the suffix and every code before it is present. */
  lemma {:induction false} AnyEndsWithTrue(years: seq<Option<string>>, suffix: string)
    ensures AnyEndsWith(years, suffix) == Ok(true) <==> FirstEndingAt(years, suffix) < |years|
  {
    if years != [] && years[0].Some? && !EndsWith(years[0].value, suffix) {
      AnyEndsWithTrue(years[1..], suffix);
    }
  }

  /**
   * The position of the first code that ends with the suffix, when every code
   * before it is present: `|years|` when there is none, or when a missing
   * code comes first.
   */
  function FirstEndingAt(years: seq<Option<string>>, suffix: string): (i: nat)
    ensures i <= |years|
    ensures i < |years| ==> years[i].Some? && EndsWith(years[i].value, suffix)
                            && forall j :: 0 <= j < i ==> years[j].Some? && !EndsWith(years[j].value, suffix)
  {
    if years == [] || years[0].None? then |years|
    else if EndsWith(years[0].value, suffix) then 0
    else
      var rest := years[1..];
      var k := FirstEndingAt(rest, suffix);
      assert forall j :: 1 <= j < |years| ==> years[j] == rest[j - 1];
      if k < |rest| then k + 1 else |years|
  }

  /** The test is false exactly when every code is present and none ends with the suffix. */
  lemma {:induction false} AnyEndsWithFalse(years: seq<Option<string>>, suffix: string)
    ensures AnyEndsWith(years, suffix) == Ok(false) <==>
              forall i :: 0 <= i < |years| ==> years[i].Some? && !EndsWith(years[i].value, suffix)
  {
    if years != [] && years[0].Some? && !EndsWith(years[0].value, suffix) {
      var rest := years[1..];
      AnyEndsWithFalse(rest, suffix);
      assert forall i :: 1 <= i < |years| ==> years[i] == rest[i - 1];
    }
  }

  /** With every code present, the test is plain existence. */
  lemma {:induction false} AnyEndsWithPresent(years: seq<Option<string>>, suffix: string)
    requires forall i :: 0 <= i < |years| ==> years[i].Some?
    ensures AnyEndsWith(years, suffix) == Ok(exists i :: 0 <= i < |years| && EndsWith(years[i].value, suffix))
  {
    if years == [] {
    } else if !EndsWith(years[0].value, suffix) {
      AnyEndsWithPresent(years[1..], suffix);
      assert forall i :: 1 <= i < |years| ==> years[i] == years[1..][i - 1];
    }
  }

  function Suffix(r: ReviewRow): string {
    YearSuffix(r.crime.year)
  }

  /** The test of one row: its boundary years against its crime's year suffix. */
  function RowTest(r: ReviewRow): Result<bool> {
    AnyEndsWith(r.yearsInBoundary, Suffix(r))
  }

  /** `mask`, in row order; the first raising row ends the script. */
  function Mask(rows: seq<ReviewRow>): (r: Result<seq<bool>>)
    ensures r.Ok? ==> |r.value| == |rows|
    ensures r.Err? ==> exists i :: 0 <= i < |rows| && RowTest(rows[i]).Err?
  {
    if rows == [] then Ok([])
    else
      assert forall i :: 1 <= i < |rows| ==> rows[i] == rows[1..][i - 1];
      match RowTest(rows[0])
      case Err(e) => Err(e)
      case Ok(b) =>
        match Mask(rows[1..])
        case Err(e) => Err(e)
        case Ok(m) => Ok([b] + m)
  }

  /** The mask is computed exactly when no row's test raises. */
  lemma {:induction false} MaskOk(rows: seq<ReviewRow>)
    ensures Mask(rows).Ok? <==> forall i :: 0 <= i < |rows| ==> RowTest(rows[i]).Ok?
  {
    if rows != [] {
      var rest := rows[1..];
      if Mask(rows).Ok? {
        MaskOk(rest);
        forall i | 1 <= i < |rows| ensures RowTest(rows[i]).Ok? {
          assert rows[i] == rest[i - 1];
        }
      }
    }
  }

  /** A computed mask holds each row's test outcome. */
  lemma {:induction false} MaskValues(rows: seq<ReviewRow>)
    requires Mask(rows).Ok?
    ensures |Mask(rows).value| == |rows| && forall i :: 0 <= i < |rows| ==> RowTest(rows[i]).Ok? && Mask(rows).value[i] == RowTest(rows[i]).value
  {
    if rows != [] {
      var rest := rows[1..];
      MaskValues(rest);
      var m := Mask(rest).value;
      assert Mask(rows).value == [RowTest(rows[0]).value] + m;
      assert forall i :: 1 <= i < |rows| ==> rows[i] == rest[i - 1];
    }
  }

  /** `review_df[mask]`. */
  function Select(rows: seq<ReviewRow>, mask: seq<bool>): (kept: seq<ReviewRow>)
    requires |mask| == |rows|
    ensures forall r :: r in kept ==> exists i :: 0 <= i < |rows| && rows[i] == r && mask[i]
    ensures forall i :: 0 <= i < |rows| && mask[i] ==> rows[i] in kept
    ensures Subsequence(kept, rows)
  {
    if rows == [] then []
    else
      var rest := Select(rows[1..], mask[1..]);
      assert forall i :: 1 <= i < |rows| ==> rows[i] == rows[1..][i - 1] && mask[i] == mask[1..][i - 1];
      SubsequenceCons(rest, rows[1..], rows[0]);
      assert [rows[0]] + rows[1..] == rows;
      if mask[0] then [rows[0]] + rest else rest
  }

  /** True when the row's boundary years contain a code ending with its year suffix, before any missing code. */
  predicate ConsistentYear(r: ReviewRow) {
    RowTest(r) == Ok(true)
  }

  /** `filtered_df`: the rows whose year suffix matches one of their boundary years, in order. */
  function FilteredReview(rows: seq<ReviewRow>): (r: Result<seq<ReviewRow>>)
    ensures r.Ok? <==> Mask(rows).Ok?
    ensures r.Ok? ==> Subsequence(r.value, rows)
    ensures r.Ok? ==> forall x :: x in r.value <==> x in rows && ConsistentYear(x)
  {
    MaskOk(rows);
    match Mask(rows)
    case Err(e) => Err(e)
    case Ok(m) =>
      MaskValues(rows);
      var kept := Select(rows, m);
      assert forall x :: x in kept ==> ConsistentYear(x) by {
        forall x | x in kept ensures ConsistentYear(x) {
          var i :| 0 <= i < |rows| && rows[i] == x && m[i];
        }
      }
      assert forall x :: x in rows && ConsistentYear(x) ==> x in kept by {
        forall x | x in rows && ConsistentYear(x) ensures x in kept {
          var i :| 0 <= i < |rows| && rows[i] == x;
        }
      }
      Ok(kept)
  }

  /**
   * A boundary coded for academic year `y - 1` keeps a crime dated in
   * calendar year `y`: the suffix test matches the second half of the code,
   * which covers the crimes of January to June.
   */
  lemma SpringCrimeKept(r: ReviewRow)
    requires 1 <= r.crime.year
    requires r.yearsInBoundary == [Some(YearCode(r.crime.year - 1))]
    ensures ConsistentYear(r)
  {
    CodeEndsWithNextYearSuffix(r.crime.year - 1);
  }
}
