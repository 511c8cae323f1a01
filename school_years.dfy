/**
 * Academic-year rules shared by the boundary, closure and map scripts: the
 * start year of a boundary file's year code, the academic year of a crime
 * date, the two-digit calendar-year suffix and the "Y–(Y+1)" labels.
 */
module SchoolYears {
  import opened Wrappers
  import opened Text

  /**
   * `file_year.str[:2].astype(int) + 2000`: the first two characters of the
   * year code read as an integer, plus 2000. A missing code or a prefix that
   * Python's int() rejects raises.
   */
  function AcademicYearStart(fileYear: Option<string>): (r: Result<int>)
    ensures fileYear.None? ==> r.Err?
    ensures fileYear.Some? && |fileYear.value| >= 2 && AllDigits(fileYear.value[..2]) ==>
              r == Ok(2000 + DigitsValue(fileYear.value[..2]))
  {
    match fileYear
    case None => Err("ValueError: cannot convert NA to integer")
    case Some(code) =>
      var prefix := if |code| < 2 then code else code[..2];
      match ParseInt(prefix)
      case Ok(v) => Ok(v + 2000)
      case Err(e) => Err(e)
  }

  /** The two-digit, zero-padded form of `n % 100` (strftime's "%y"). */
  function TwoDigits(n: nat): (r: string)
    ensures |r| == 2 && AllDigits(r) && DigitsValue(r) == n % 100
  {
    var m := n % 100;
    assert |NatToString(m)| <= 2 by {
      if m >= 10 { assert NatToString(m) == NatToString(m / 10) + [DigitChar(m % 10)]; }
    }
    ZeroPad(m, 2)
  }

  /** The year code of the academic year starting in `start`, e.g. 2012 gives "1213". */
  function YearCode(start: nat): (code: string)
    ensures |code| == 4 && AllDigits(code)
  {
    TwoDigits(start) + TwoDigits(start + 1)
  }

  /** Reading a year code back gives the year it was written for (the 2000s). */
  lemma YearCodeRoundTrip(start: nat)
    requires 2000 <= start <= 2099
    ensures AcademicYearStart(Some(YearCode(start))) == Ok(start)
  {
    var code := YearCode(start);
    assert code[..2] == TwoDigits(start);
    assert start % 100 == start - 2000;
    assert DigitsValue(code[..2]) == start - 2000;
  }

  /** Every four-digit code starts an academic year of the 2000s. */
  lemma FourDigitCodeStart(code: string)
    requires |code| == 4 && AllDigits(code)
    ensures AcademicYearStart(Some(code)).Ok?
    ensures AcademicYearStart(Some(code)).value == 2000 + 10 * DigitValue(code[0]) + DigitValue(code[1])
    ensures 2000 <= AcademicYearStart(Some(code)).value <= 2099
  {
    var p := code[..2];
    assert AllDigits(p);
    assert p[..1] == [code[0]] && p[1] == code[1];
    assert DigitsValue(p[..1]) == DigitsValue([code[0]]) == DigitValue(code[0]) by {
      assert [code[0]][..0] == [];
    }
    assert DigitsValue(p) == DigitsValue(p[..1]) * 10 + DigitValue(p[1]);
  }

  lemma ExampleCode1213()
    ensures AcademicYearStart(Some("1213")) == Ok(2012)
  {
    FourDigitCodeStart("1213");
  }

  /** A boundary's academic year is dated July 1 of its start year. */
  function SchoolYearDate(start: int): (int, int, int) {
    (start, 7, 1)
  }

  /** A crime's academic start year: its calendar year from July on, else the previous year. */
  function CrimeAcademicYear(year: int, month: int): (a: int)
    ensures a == year || a == year - 1
  {
    if month >= 7 then year else year - 1
  }

  /**
   * The academic year of a date is the unique year `a` such that the date lies
   * between July of `a` and June of `a + 1`; in particular a school year's own
   * date, July 1, falls in that same year.
   */
  lemma {:induction false} CrimeAcademicYearSpan(year: int, month: int, a: int)
    requires 1 <= month <= 12
    ensures ((year == a && month >= 7) || (year == a + 1 && month < 7)) <==> a == CrimeAcademicYear(year, month)
    ensures CrimeAcademicYear(SchoolYearDate(a).0, SchoolYearDate(a).1) == a
  {
  }

  /** `date.strftime("%y")`: the crime's two-digit calendar year. */
  function YearSuffix(year: nat): (suffix: string)
    ensures |suffix| == 2 && AllDigits(suffix) && DigitsValue(suffix) == year % 100
  {
    TwoDigits(year)
  }

  /** A year code written for academic year `start` ends with the suffix of its second calendar year. */
  lemma CodeEndsWithNextYearSuffix(start: nat)
    ensures EndsWith(YearCode(start), YearSuffix(start + 1))
    ensures StartsWith(YearCode(start), YearSuffix(start))
  {
    var code := YearCode(start);
    assert code[2..] == TwoDigits(start + 1);
    assert code[..2] == TwoDigits(start);
  }

  /** The "Y–(Y+1)" label of the popups and status lines (an en dash, U+2013). */
  function YearLabel(start: int): (caption: string)
    ensures |caption| == |IntToString(start)| + 1 + |IntToString(start + 1)|
    ensures StartsWith(caption, IntToString(start))
    ensures EndsWith(caption, IntToString(start + 1))
    ensures caption[|IntToString(start)|] == '–'
  {
    var first := IntToString(start);
    var second := IntToString(start + 1);
    var caption := first + "–" + second;
    assert caption[..|first|] == first;
    assert caption[|caption| - |second|..] == second;
    assert caption[|first|] == '–';
    caption
  }
}
