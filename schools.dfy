/**
 * The tables the closure scripts pass along: rows of the school shapes table
 * (geometry left out) and closure records.
 */
module Schools {
  import opened Wrappers
  import opened SchoolYears

  /** One row of the school shapes table: one school's boundary in one year's file. */
  datatype ShapeRow = ShapeRow(
    id: Option<int>,
    name: Option<string>,
    grade: Option<string>,
    address: Option<string>,
    fileYear: Option<string>)

  function RowId(r: ShapeRow): Option<int> { r.id }

  /** A shapes row with its derived `academic_year_start`. */
  datatype Yeared = Yeared(row: ShapeRow, start: int)

  /**
   * Adding `academic_year_start` to every row. The conversion is one
   * vectorised cast, so one unreadable year code makes the whole step raise.
   */
  function WithStartYears(rows: seq<ShapeRow>): (r: Result<seq<Yeared>>)
    ensures r.Ok? <==> forall i :: 0 <= i < |rows| ==> AcademicYearStart(rows[i].fileYear).Ok?
    ensures r.Ok? ==> |r.value| == |rows|
    ensures r.Ok? ==> forall i :: 0 <= i < |rows| ==>
              r.value[i].row == rows[i] && Ok(r.value[i].start) == AcademicYearStart(rows[i].fileYear)
  {
    if rows == [] then Ok([])
    else
      match AcademicYearStart(rows[0].fileYear)
      case Err(e) => Err(e)
      case Ok(start) =>
        match WithStartYears(rows[1..])
        case Err(e) => Err(e)
        case Ok(rest) => Ok([Yeared(rows[0], start)] + rest)
  }

  function Rows(ys: seq<Yeared>): (rows: seq<ShapeRow>)
    ensures |rows| == |ys| && forall i :: 0 <= i < |ys| ==> rows[i] == ys[i].row
  {
    seq(|ys|, i requires 0 <= i < |ys| => ys[i].row)
  }

  /** A row of `school_closure_years.csv`. */
  datatype Closure = Closure(
    id: Option<int>,
    name: Option<string>,
    grade: Option<string>,
    lastOpenYear: int,
    closureYear: int)

  predicate YearsConsistent(c: Closure) {
    c.closureYear == c.lastOpenYear + 1
  }

  /** The `SCHOOL_ID` column of a closure table. */
  function IdColumn(t: seq<Closure>): (ids: seq<Option<int>>)
    ensures |ids| == |t| && forall i :: 0 <= i < |t| ==> ids[i] == t[i].id
  {
    seq(|t|, i requires 0 <= i < |t| => t[i].id)
  }

  /** A cell after `astype(str)`: a missing value becomes the text "nan". */
  function AsText(cell: Option<string>): string {
    match cell
    case Some(s) => s
    case None => "nan"
  }

  /** A row of `school_closure_reference.csv` (`year_closed` read as `closure_year`). */
  datatype RefRow = RefRow(name: Option<string>, grade: Option<string>, closureYear: int)
}
