/**
 * `chicago_schools_dashboard.py`: the school shapes table filtered by the
 * selected grade categories and by a text query that is either part of a
 * school ID (all digits) or part of a school name, counted and listed by
 * name.
 */
module Dashboard {
  import opened Wrappers
  import opened Text
  import opened Seqs
  import opened Ordering
  import opened Schools

  // ---------------------------------------------------------------------------
  // The grade multiselect

  /** `GRADE_CAT` of every school, in table order. */
  function GradesOf(schools: seq<ShapeRow>): (g: seq<Option<string>>)
    ensures |g| == |schools| && forall k :: 0 <= k < |g| ==> g[k] == schools[k].grade
  {
    if schools == [] then [] else GradesOf(schools[..|schools| - 1]) + [schools[|schools| - 1].grade]
  }

  /** Lines 20-22: the multiselect offers each category of the table once, a missing one included. */
  function GradeOptions(schools: seq<ShapeRow>): (options: seq<Option<string>>)
    ensures NoDuplicates(options)
    ensures forall g :: g in options <==> exists r :: r in schools && r.grade == g
    ensures forall i, j :: 0 <= i < j < |options| ==> OccursBefore(GradesOf(schools), options[i], options[j])
  {
    var grades := GradesOf(schools);
    DistinctFirstAppearance(grades);
    assert forall g :: g in grades <==> exists r :: r in schools && r.grade == g by {
      forall g | g in grades ensures exists r :: r in schools && r.grade == g {
        var k :| 0 <= k < |grades| && grades[k] == g;
        assert schools[k] in schools;
      }
    }
    Distinct(grades)
  }

  predicate GradeSelected(r: ShapeRow, selected: seq<Option<string>>) {
    r.grade in selected
  }

  function InGrades(selected: seq<Option<string>>): ShapeRow -> bool {
    r => GradeSelected(r, selected)
  }

  /** Lines 25-27: no selection keeps every school; otherwise `GRADE_CAT.isin(grade_filter)`, where a missing category matches a selected missing one. */
  function ByGrade(schools: seq<ShapeRow>, selected: seq<Option<string>>): (df: seq<ShapeRow>)
    ensures selected == [] ==> df == schools
    ensures selected != [] ==> forall r :: r in df <==> r in schools && r.grade in selected
    ensures forall x :: multiset(df)[x] == if selected == [] || x.grade in selected then multiset(schools)[x] else 0
    ensures Subsequence(df, schools)
  {
    if selected == [] then
      SubsequenceRefl(schools);
      schools
    else
      FilterIsSubsequence(schools, InGrades(selected));
      FilterMultiset(schools, InGrades(selected));
      Filter(schools, InGrades(selected))
  }

  // ---------------------------------------------------------------------------
  // The text query

  /** `str.isdigit()` on a query that is not empty. */
  predicate IsIdQuery(query: string) {
    query != "" && AllDigits(query)
  }

  /** `SCHOOL_ID.astype(str)`. */
  function IdText(id: Option<int>): string {
    match id
    case Some(n) => IntToString(n)
    case None => "nan"
  }

  /** What the query asks of one school. */
  predicate MatchesQuery(r: ShapeRow, query: string) {
    if query == "" then true
    else if AllDigits(query) then Contains(IdText(r.id), query)
    else r.name.Some? && ContainsIgnoreCase(r.name.value, query)
  }

  function Matching(query: string): ShapeRow -> bool {
    r => MatchesQuery(r, query)
  }

  /** Lines 30-34: the query filter; an empty query keeps every school. */
  function ByQuery(df: seq<ShapeRow>, query: string): (t: seq<ShapeRow>)
    ensures query == "" ==> t == df
    ensures IsIdQuery(query) ==> forall r :: r in t <==> r in df && Contains(IdText(r.id), query)
    ensures query != "" && !IsIdQuery(query) ==>
              forall r :: r in t <==> r in df && r.name.Some? && ContainsIgnoreCase(r.name.value, query)
    ensures forall x :: multiset(t)[x] == if MatchesQuery(x, query) then multiset(df)[x] else 0
    ensures Subsequence(t, df)
  {
    if query == "" then
      SubsequenceRefl(df);
      df
    else
      FilterIsSubsequence(df, Matching(query));
      FilterMultiset(df, Matching(query));
      Filter(df, Matching(query))
  }

  /** A school without a name is never found by a name query. */
  lemma UnnamedNotFoundByName(df: seq<ShapeRow>, query: string, r: ShapeRow)
    requires query != "" && !IsIdQuery(query) && r.name.None?
    ensures r !in ByQuery(df, query)
  {
  }

  /** Lines 25-34: the schools that match, each copy of a matching row kept. */
  function Lookup(schools: seq<ShapeRow>, query: string, selected: seq<Option<string>>): (df: seq<ShapeRow>)
    ensures |df| <= |schools|
    ensures selected == [] && query == "" ==> df == schools
  {
    ByQuery(ByGrade(schools, selected), query)
  }

  /**
   * A school is listed exactly when it is in the table, its category is
   * selected (or nothing is), and it matches the query (or the query is
   * empty); the listed schools keep their order in the table.
   */
  lemma LookupMembers(schools: seq<ShapeRow>, query: string, selected: seq<Option<string>>, r: ShapeRow)
    ensures r in Lookup(schools, query, selected) <==>
              r in schools && (selected == [] || r.grade in selected) && MatchesQuery(r, query)
    ensures Subsequence(Lookup(schools, query, selected), schools)
    ensures multiset(Lookup(schools, query, selected))[r] ==
              if (selected == [] || r.grade in selected) && MatchesQuery(r, query) then multiset(schools)[r] else 0
  {
    var df := ByGrade(schools, selected);
    SubsequenceTrans(Lookup(schools, query, selected), df, schools);
  }

  // ---------------------------------------------------------------------------
  // The heading and the listing

  function DropCommas(s: string): string {
    if s == [] then [] else (if s[0] == ',' then [] else [s[0]]) + DropCommas(s[1..])
  }

  /** `f"{n:,}"`: the decimal digits of `n` in groups of three, separated by commas. */
  function WithCommas(n: nat): (r: string)
    ensures 1 <= |r| && CommaGrouped(r)
    ensures (',' in r) <==> n >= 1000
  {
    assert Pow10(3) == 1000;
    if n < 1000 then
      NatToStringLength(n, 3);
      var r := NatToString(n);
      assert |r| <= 3;
      r
    else
      var head := WithCommas(n / 1000);
      var group := ZeroPad(n % 1000, 3);
      NatToStringLength(n % 1000, 3);
      CommaGroupedAppend(head, group);
      head + "," + group
  }

  /**
   * The shape of `f"{n:,}"`: digits with a comma before every group of three
   * counted from the right, and a leading group of one to three digits.
   */
  predicate CommaGrouped(s: string) {
    && |s| % 4 != 0
    && (forall k :: 0 <= k < |s| ==> (s[k] == ',' <==> (|s| - k) % 4 == 0))
    && (forall k :: 0 <= k < |s| && s[k] != ',' ==> IsDigit(s[k]))
  }

  lemma CommaGroupedAppend(head: string, group: string)
    requires 1 <= |head| && CommaGrouped(head) && |group| == 3 && AllDigits(group)
    ensures CommaGrouped(head + "," + group) && ',' in head + "," + group
  {
    var r := head + "," + group;
    assert |r| == |head| + 4;
    assert r[|head|] == ',';
    forall k | 0 <= k < |head|
      ensures r[k] == head[k] && (|r| - k) % 4 == (|head| - k) % 4
    {
    }
    forall k | |head| < k < |r|
      ensures r[k] == group[k - |head| - 1] && 0 < |r| - k < 4
    {
    }
  }

  /** Line 36: the heading over the listing. */
  function Heading(schools: seq<ShapeRow>, query: string, selected: seq<Option<string>>): (h: string)
    ensures StartsWith(h, "## ") && EndsWith(h, " schools matched")
    ensures |h| >= 20 && h[3..|h| - 16] == WithCommas(|Lookup(schools, query, selected)|)
  {
    "## " + WithCommas(|Lookup(schools, query, selected)|) + " schools matched"
  }

  function Pow10(k: nat): nat {
    if k == 0 then 1 else 10 * Pow10(k - 1)
  }

  lemma DigitsValueSnoc(s: string, c: char)
    requires AllDigits(s) && IsDigit(c)
    ensures AllDigits(s + [c]) && DigitsValue(s + [c]) == DigitsValue(s) * 10 + DigitValue(c)
  {
    assert (s + [c])[..|s|] == s;
  }

  /** Appending a group of three digits multiplies the value by a thousand and adds the group's. */
  lemma DigitsValueAppendGroup(a: string, g: string)
    requires AllDigits(a) && AllDigits(g) && |g| == 3
    ensures AllDigits(a + g) && DigitsValue(a + g) == DigitsValue(a) * 1000 + DigitsValue(g)
  {
    assert g == [g[0]] + [g[1]] + [g[2]];
    assert a + g == a + [g[0]] + [g[1]] + [g[2]];
    DigitsValueSnoc(a, g[0]);
    DigitsValueSnoc(a + [g[0]], g[1]);
    DigitsValueSnoc(a + [g[0]] + [g[1]], g[2]);
    DigitsValueSnoc([], g[0]);
    assert [] + [g[0]] == [g[0]];
    DigitsValueSnoc([g[0]], g[1]);
    DigitsValueSnoc([g[0]] + [g[1]], g[2]);
  }

  lemma {:induction false} DropCommasAppend(a: string, b: string)
    ensures DropCommas(a + b) == DropCommas(a) + DropCommas(b)
  {
    if a != [] {
      assert (a + b)[1..] == a[1..] + b;
      DropCommasAppend(a[1..], b);
    } else {
      assert a + b == b;
    }
  }

  lemma {:induction false} DropCommasDigits(s: string)
    requires AllDigits(s)
    ensures DropCommas(s) == s
  {
    if s != [] {
      DropCommasDigits(s[1..]);
      assert s == [s[0]] + s[1..];
    }
  }

  lemma {:induction false} NatToStringLength(m: nat, k: nat)
    requires 1 <= k && m < Pow10(k)
    ensures |NatToString(m)| <= k
  {
    if m >= 10 {
      assert k >= 2;
      NatToStringLength(m / 10, k - 1);
    }
  }

  /** The count in the heading, read without its commas, is the number of schools listed. */
  lemma {:induction false} WithCommasDigits(n: nat)
    ensures AllDigits(DropCommas(WithCommas(n))) && DigitsValue(DropCommas(WithCommas(n))) == n
  {
    if n < 1000 {
      DropCommasDigits(NatToString(n));
    } else {
      var q, m := n / 1000, n % 1000;
      WithCommasDigits(q);
      var head := WithCommas(q);
      var group := ZeroPad(m, 3);
      assert WithCommas(n) == head + "," + group;
      assert Pow10(3) == 1000;
      NatToStringLength(m, 3);
      assert |group| == 3;
      DropCommasAppend(head + ",", group);
      DropCommasAppend(head, ",");
      DropCommasDigits(group);
      var h := DropCommas(head);
      assert DropCommas(",") == [] + DropCommas("");
      assert DropCommas(head + ",") == h;
      assert DropCommas(WithCommas(n)) == h + group;
      DigitsValueAppendGroup(h, group);
      assert DigitsValue(h + group) == q * 1000 + m;
    }
  }

  /** The heading's count, read without its commas, is the number of schools that match. */
  lemma HeadingCount(schools: seq<ShapeRow>, query: string, selected: seq<Option<string>>)
    ensures var count := WithCommas(|Lookup(schools, query, selected)|);
            && Heading(schools, query, selected) == "## " + count + " schools matched"
            && AllDigits(DropCommas(count)) && DigitsValue(DropCommas(count)) == |Lookup(schools, query, selected)|
  {
    WithCommasDigits(|Lookup(schools, query, selected)|);
  }

  /** `sort_values("SCHOOL_NM")` order: names as text, missing names last. */
  predicate NameLe(a: ShapeRow, b: ShapeRow) {
    match (a.name, b.name)
    case (Some(x), Some(y)) => StrLe(x, y)
    case (Some(_), None) => true
    case (None, Some(_)) => false
    case (None, None) => true
  }

  lemma NameLeTotalPreorder()
    ensures TotalPreorder(NameLe)
  {
    forall a: ShapeRow, b: ShapeRow ensures NameLe(a, b) || NameLe(b, a) {
      if a.name.Some? && b.name.Some? { StrLeTotal(a.name.value, b.name.value); }
    }
    forall a: ShapeRow, b: ShapeRow, c: ShapeRow | NameLe(a, b) && NameLe(b, c) ensures NameLe(a, c) {
      if a.name.Some? && b.name.Some? && c.name.Some? {
        StrLeTrans(a.name.value, b.name.value, c.name.value);
      }
    }
  }

  /** Lines 37-40: the matched schools listed by name; the order among equal names is not fixed. */
  function Listing(schools: seq<ShapeRow>, query: string, selected: seq<Option<string>>): (shown: seq<ShapeRow>)
    ensures Sorted(shown, NameLe)
    ensures multiset(shown) == multiset(Lookup(schools, query, selected))
    ensures |shown| == |Lookup(schools, query, selected)|
  {
    NameLeTotalPreorder();
    SortBy(Lookup(schools, query, selected), NameLe)
  }
}
