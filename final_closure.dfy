/**
 * `final_school_closure.py`: address-matched schools are appended to the
 * closure list, and the closure years of the schools named in the reference
 * list are compared with the reference's years.
 */
module FinalSchoolClosure {
  import opened Wrappers
  import opened Seqs
  import opened Ordering
  import opened Fuzzy
  import opened Schools
  import OpeningMap

  function MatchedId(a: OpeningMap.AddressMatch): Option<int> { a.matchedId }

  function HasMatchedId(a: OpeningMap.AddressMatch): bool { a.matchedId.Some? }

  /** `addr_unique`: rows with a matched ID, the first per ID; the score plays no part. */
  function AddressUnique(review: seq<OpeningMap.AddressMatch>): (u: seq<OpeningMap.AddressMatch>)
    ensures forall i, j :: 0 <= i < j < |u| ==> u[i].matchedId != u[j].matchedId
    ensures forall a :: a in u ==> a in review && a.matchedId.Some?
  {
    KeepFirstBy(Filter(review, HasMatchedId), MatchedId, {})
  }

  /** Every matched ID of the review, whatever its score, keeps a row. */
  lemma AddressUniqueCovers(review: seq<OpeningMap.AddressMatch>, a: OpeningMap.AddressMatch)
    requires a in review && a.matchedId.Some?
    ensures exists u :: u in AddressUnique(review) && u.matchedId == a.matchedId
  {
    KeepFirstCovers(Filter(review, HasMatchedId), MatchedId, {}, a);
  }

  /** A new closure of 2013. */
  function Closure2013(a: OpeningMap.AddressMatch): Closure {
    Closure(a.matchedId, a.matchedName, a.matchedGrade, 2012, 2013)
  }

  function NewAddressRows(closures: seq<Closure>, review: seq<OpeningMap.AddressMatch>): (toAdd: seq<OpeningMap.AddressMatch>)
    ensures forall a :: a in toAdd <==> a in AddressUnique(review) && a.matchedId !in IdColumn(closures)
  {
    Filter(AddressUnique(review), NotListed(closures))
  }

  function NotListed(closures: seq<Closure>): OpeningMap.AddressMatch -> bool {
    (a: OpeningMap.AddressMatch) => a.matchedId !in IdColumn(closures)
  }

  /**
   * `closure_df` after step 5: unchanged when nothing is new; otherwise the
   * existing rows in order, then one 2012/2013 row per new matched ID.
   */
  function AppendAddressClosures(closures: seq<Closure>, review: seq<OpeningMap.AddressMatch>): (t: seq<Closure>)
    ensures NewAddressRows(closures, review) == [] ==> t == closures
    ensures |t| == |closures| + |NewAddressRows(closures, review)| && t[..|closures|] == closures
    ensures forall k :: |closures| <= k < |t| ==> t[k] == Closure2013(NewAddressRows(closures, review)[k - |closures|])
    ensures forall k :: |closures| <= k < |t| ==>
              t[k].id.Some? && t[k].id !in IdColumn(closures) && t[k].lastOpenYear == 2012 && t[k].closureYear == 2013
    ensures forall k, l :: |closures| <= k < l < |t| ==> t[k].id != t[l].id
  {
    var toAdd := NewAddressRows(closures, review);
    if toAdd == [] then closures
    else
      var added := Closures2013(toAdd);
      assert forall i, j :: 0 <= i < j < |toAdd| ==> toAdd[i].matchedId != toAdd[j].matchedId by {
        FilterIsSubsequence(AddressUnique(review), NotListed(closures));
        SubsequenceDistinctKeys(toAdd, AddressUnique(review), MatchedId);
      }
      assert forall k :: 0 <= k < |added| ==>
               added[k].id.Some? && added[k].id !in IdColumn(closures) && added[k].lastOpenYear == 2012 && added[k].closureYear == 2013 by {
        forall k | 0 <= k < |added|
          ensures added[k].id.Some? && added[k].id !in IdColumn(closures) && added[k].lastOpenYear == 2012 && added[k].closureYear == 2013
        {
          assert toAdd[k] in toAdd;
        }
      }
      var t := closures + added;
      assert forall k :: |closures| <= k < |t| ==> t[k] == added[k - |closures|];
      assert t[..|closures|] == closures;
      t
  }

  /**
   * The rows of `to_add` after the `assign`: row by row they keep the matched
   * ID, name and grade, and every one of them was last open in 2012 and
   * closed in 2013, one year later.
   */
  function Closures2013(toAdd: seq<OpeningMap.AddressMatch>): (added: seq<Closure>)
    ensures |added| == |toAdd|
    ensures forall i :: 0 <= i < |toAdd| ==>
              added[i].id == toAdd[i].matchedId && added[i].name == toAdd[i].matchedName && added[i].grade == toAdd[i].matchedGrade
    ensures forall c :: c in added ==> c.lastOpenYear == 2012 && c.closureYear == 2013 && YearsConsistent(c)
  {
    seq(|toAdd|, i requires 0 <= i < |toAdd| => Closure2013(toAdd[i]))
  }

  /**
   * After the append, every matched ID of the review is in the closure list,
   * and the rows already there are unchanged.
   */
  lemma AppendCoversMatchedIds(closures: seq<Closure>, review: seq<OpeningMap.AddressMatch>, a: OpeningMap.AddressMatch)
    requires a in review && a.matchedId.Some?
    ensures a.matchedId in IdColumn(AppendAddressClosures(closures, review))
  {
    var t := AppendAddressClosures(closures, review);
    AddressUniqueCovers(review, a);
    var u :| u in AddressUnique(review) && u.matchedId == a.matchedId;
    if a.matchedId in IdColumn(closures) {
      var k :| 0 <= k < |closures| && IdColumn(closures)[k] == a.matchedId;
      assert t[k] == closures[k];
      assert IdColumn(t)[k] == a.matchedId;
    } else {
      var toAdd := NewAddressRows(closures, review);
      assert u in toAdd;
      var i :| 0 <= i < |toAdd| && toAdd[i] == u;
      assert t[|closures| + i] == Closure2013(u);
      assert IdColumn(t)[|closures| + i] == a.matchedId;
    }
  }

  // ---------------------------------------------------------------------------
  // Comparison with the reference list

  /** `shapes`: the distinct (name, ID) pairs of the rows with a name. */
  function NamedShapes(shapes: seq<ShapeRow>): (pairs: seq<(string, Option<int>)>)
    ensures NoDuplicates(pairs)
    ensures forall p :: p in pairs <==> exists r :: r in shapes && r.name == Some(p.0) && r.id == p.1
  {
    Distinct(NamePairs(shapes))
  }

  function NamePairs(shapes: seq<ShapeRow>): (pairs: seq<(string, Option<int>)>)
    ensures forall p :: p in pairs <==> exists r :: r in shapes && r.name == Some(p.0) && r.id == p.1
  {
    if shapes == [] then []
    else
      assert forall r :: r in shapes <==> r == shapes[0] || r in shapes[1..];
      (if shapes[0].name.Some? then [(shapes[0].name.value, shapes[0].id)] else []) + NamePairs(shapes[1..])
  }

  function Names(pairs: seq<(string, Option<int>)>): (names: seq<string>)
    ensures |names| == |pairs| && forall i :: 0 <= i < |pairs| ==> names[i] == pairs[i].0
  {
    seq(|pairs|, i requires 0 <= i < |pairs| => pairs[i].0)
  }

  /** `name_to_id[name]`: a name listed more than once maps to the ID of its last pair. */
  function NameToId(pairs: seq<(string, Option<int>)>, name: string): (id: Option<int>)
    ensures id.Some? ==> exists i :: 0 <= i < |pairs| && pairs[i] == (name, id)
                                     && forall j :: i < j < |pairs| ==> pairs[j].0 != name
    ensures forall i :: 0 <= i < |pairs| && pairs[i].0 == name && (forall j :: i < j < |pairs| ==> pairs[j].0 != name) ==> id == pairs[i].1
    ensures (forall i :: 0 <= i < |pairs| ==> pairs[i].0 != name) ==> id.None?
  {
    DictLookupLast(pairs, name);
    assert forall i :: 0 <= i < |pairs| && pairs[i].0 == name && (forall j :: i < j < |pairs| ==> pairs[j].0 != name) ==>
             DictLookup(pairs, name) == Some(pairs[i].1) by {
      forall i | 0 <= i < |pairs| && pairs[i].0 == name && (forall j :: i < j < |pairs| ==> pairs[j].0 != name) {
        DictLookupAtLast(pairs, name, i);
      }
    }
    match DictLookup(pairs, name)
    case Some(v) => v
    case None => None
  }

  /** A reference row with its best shapes name, score and mapped ID. */
  datatype RefMatch = RefMatch(closureYear: int, matchedName: string, score: Score, matchedId: Option<int>)

  /**
   * Steps 8 and 9: no threshold; the ID is whatever the best name maps to. An
   * empty reference list fails: the empty frame of matches has no columns to
   * assign to `matched_name` and `match_score`.
   */
  function MatchReference(refs: seq<RefRow>, shapes: seq<ShapeRow>, extract: ExtractOne): (r: Result<seq<RefMatch>>)
    ensures r.Err? <==> refs == []
    ensures r.Ok? ==> |r.value| == |refs|
    ensures r.Ok? ==> forall i :: 0 <= i < |refs| ==>
              var best := BestOrBlank(extract, AsText(refs[i].name), Names(NamedShapes(shapes)));
              r.value[i] == RefMatch(refs[i].closureYear, best.name, best.score, NameToId(NamedShapes(shapes), best.name))
  {
    if refs == [] then Err("ValueError: Columns must be same length as key")
    else
      var pairs := NamedShapes(shapes);
      var names := Names(pairs);
      Ok(seq(|refs|, i requires 0 <= i < |refs| =>
        var best := BestOrBlank(extract, AsText(refs[i].name), names);
        RefMatch(refs[i].closureYear, best.name, best.score, NameToId(pairs, best.name))))
  }

  /** A closure row next to one reference row with the same ID. */
  datatype YearCheck = YearCheck(closure: Closure, refYear: int)

  /** `ref_df["matched_SCHOOL_ID"].dropna().unique()`. */
  function MatchedIds(ms: seq<RefMatch>): (ids: set<int>)
    ensures forall id :: id in ids <==> exists m :: m in ms && m.matchedId == Some(id)
  {
    set m | m in ms && m.matchedId.Some? :: m.matchedId.value
  }

  function SameMatchedId(c: Closure): RefMatch -> bool {
    (m: RefMatch) => m.matchedId == c.id
  }

  /**
   * The left merge of one closure row: one row per reference row matched to
   * its ID, in reference order.
   */
  function ChecksFor(c: Closure, ms: seq<RefMatch>): (rows: seq<YearCheck>)
    ensures forall r :: r in rows <==> exists m :: m in ms && m.matchedId == c.id && r == YearCheck(c, m.closureYear)
    ensures |rows| == |Filter(ms, SameMatchedId(c))|
    ensures forall k :: 0 <= k < |rows| ==> rows[k] == YearCheck(c, Filter(ms, SameMatchedId(c))[k].closureYear)
  {
    var same := Filter(ms, SameMatchedId(c));
    var rows := seq(|same|, k requires 0 <= k < |same| => YearCheck(c, same[k].closureYear));
    forall r | r in rows ensures exists m :: m in ms && m.matchedId == c.id && r == YearCheck(c, m.closureYear) {
      var k :| 0 <= k < |same| && rows[k] == r;
      assert same[k] in same;
    }
    forall m | m in ms && m.matchedId == c.id ensures YearCheck(c, m.closureYear) in rows {
      assert m in same;
      var k :| 0 <= k < |same| && same[k] == m;
      assert rows[k] == YearCheck(c, m.closureYear);
    }
    rows
  }

  /**
   * `closure_ref_df`: the closure rows whose ID some reference name matched,
   * each next to every reference row matched to that ID.
   */
  function ClosureRef(closures: seq<Closure>, ms: seq<RefMatch>): (t: seq<YearCheck>)
    ensures forall r :: r in t ==> r.closure in closures && r.closure.id.Some? && r.closure.id.value in MatchedIds(ms)
    ensures forall r :: r in t <==>
              && r.closure in closures
              && exists m :: m in ms && m.matchedId.Some? && m.matchedId == r.closure.id && r == YearCheck(r.closure, m.closureYear)
  {
    if closures == [] then []
    else
      var c := closures[0];
      var rest := ClosureRef(closures[1..], ms);
      assert forall x :: x in closures <==> x == c || x in closures[1..];
      if c.id.Some? && c.id.value in MatchedIds(ms) then ChecksFor(c, ms) + rest else rest
  }

  /**
   * The filter and the left merge work row by row: the rows of `a + b` give
   * the rows of `a` followed by those of `b`.
   */
  lemma {:induction false} ClosureRefAppend(a: seq<Closure>, b: seq<Closure>, ms: seq<RefMatch>)
    ensures ClosureRef(a + b, ms) == ClosureRef(a, ms) + ClosureRef(b, ms)
  {
    if a == [] {
      assert a + b == b;
    } else {
      assert (a + b)[0] == a[0];
      assert (a + b)[1..] == a[1..] + b;
      ClosureRefAppend(a[1..], b, ms);
    }
  }

  /**
   * One closure row gives nothing when no reference name matched its ID, and
   * otherwise one row per reference row matched to it, in reference order.
   */
  lemma ClosureRefOne(c: Closure, ms: seq<RefMatch>)
    ensures c.id.None? || c.id.value !in MatchedIds(ms) ==> ClosureRef([c], ms) == []
    ensures c.id.Some? && c.id.value in MatchedIds(ms) ==>
              && |ClosureRef([c], ms)| == |Filter(ms, SameMatchedId(c))|
              && forall k :: 0 <= k < |ClosureRef([c], ms)| ==>
                   ClosureRef([c], ms)[k] == YearCheck(c, Filter(ms, SameMatchedId(c))[k].closureYear)
  {
    assert [c][1..] == [];
    assert ChecksFor(c, ms) + [] == ChecksFor(c, ms);
  }

  /** Every closure row whose ID was matched from a reference name is in `closure_ref_df`. */
  lemma ClosureRefCovers(closures: seq<Closure>, ms: seq<RefMatch>, c: Closure)
    requires c in closures && c.id.Some? && c.id.value in MatchedIds(ms)
    ensures exists r :: r in ClosureRef(closures, ms) && r.closure == c
  {
    var m :| m in ms && m.matchedId == c.id;
    assert YearCheck(c, m.closureYear) in ClosureRef(closures, ms);
  }

  function YearsDiffer(r: YearCheck): bool { r.closure.closureYear != r.refYear }

  /** `closure_err_df`: exactly the rows whose closure year and reference year differ. */
  function ClosureErr(t: seq<YearCheck>): (e: seq<YearCheck>)
    ensures forall r :: r in e <==> r in t && r.closure.closureYear != r.refYear
    ensures Subsequence(e, t)
  {
    FilterIsSubsequence(t, YearsDiffer);
    Filter(t, YearsDiffer)
  }
}
