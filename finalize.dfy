/**
 * `04a_finalize_closures.py`: the computed closures are checked against the
 * address review and an external reference list, new IDs are added, and the
 * final table keeps the earliest closure per school.
 */
module FinalizeClosures {
  import opened Wrappers
  import opened Seqs
  import opened Ordering
  import opened Fuzzy
  import opened Schools
  import OpeningMap

  /** `threshold=80` of the reference-name matching. */
  const NameThreshold := 80
  /** Only address matches scoring at least this are trusted. */
  const AddressThreshold := 90

  // ---------------------------------------------------------------------------
  // `fuzzy_match_ids`

  /** One row of the frame `fuzzy_match_ids` returns. */
  datatype IdMatch = IdMatch(name: Option<string>, id: Option<int>, score: Score)

  /** `dict(zip(ref_names, ref_ids))[name]`, missing when absent (a missing ID stays missing). */
  function NameToId(refNames: seq<string>, refIds: seq<Option<int>>, name: string): (id: Option<int>)
    ensures id.Some? ==> exists i :: 0 <= i < |refNames| && i < |refIds| && refNames[i] == name && refIds[i] == id
    ensures forall i :: (0 <= i < |refNames| && i < |refIds| && refNames[i] == name
                         && forall j :: i < j < |refNames| && j < |refIds| ==> refNames[j] != name) ==> id == refIds[i]
    ensures (forall i :: 0 <= i < |refNames| && i < |refIds| ==> refNames[i] != name) ==> id.None?
  {
    var pairs := Zip(refNames, refIds);
    DictLookupLast(pairs, name);
    assert forall i :: 0 <= i < |pairs| && pairs[i].0 == name && (forall j :: i < j < |pairs| ==> pairs[j].0 != name) ==>
             DictLookup(pairs, name) == Some(pairs[i].1) by {
      forall i | 0 <= i < |pairs| && pairs[i].0 == name && (forall j :: i < j < |pairs| ==> pairs[j].0 != name) {
        DictLookupAtLast(pairs, name, i);
      }
    }
    match DictLookup(pairs, name)
    case Some(v) => assert exists i :: 0 <= i < |pairs| && pairs[i] == (name, v); v
    case None => None
  }

  /**
   * The match of one raw name: the score is always kept; the name and its ID
   * only when the score reaches the threshold.
   */
  function MatchId(rawName: string, refNames: seq<string>, refIds: seq<Option<int>>, threshold: int, extract: ExtractOne): (m: IdMatch)
    ensures m.score == BestOrBlank(extract, rawName, refNames).score
    ensures m.name.Some? <==> Accepted(m.score, threshold)
    ensures m.name.Some? ==> m.name.value == BestOrBlank(extract, rawName, refNames).name
                             && m.id == NameToId(refNames, refIds, m.name.value)
    ensures m.id.Some? ==> Accepted(m.score, threshold)
  {
    var c := BestOrBlank(extract, rawName, refNames);
    if c.score < threshold then IdMatch(None, None, c.score)
    else IdMatch(Some(c.name), NameToId(refNames, refIds, c.name), c.score)
  }

  function FuzzyMatchIds(rawNames: seq<string>, refNames: seq<string>, refIds: seq<Option<int>>, threshold: int, extract: ExtractOne): (ms: seq<IdMatch>)
    ensures |ms| == |rawNames|
    ensures forall i :: 0 <= i < |ms| ==> ms[i] == MatchId(rawNames[i], refNames, refIds, threshold, extract)
  {
    seq(|rawNames|, i requires 0 <= i < |rawNames| => MatchId(rawNames[i], refNames, refIds, threshold, extract))
  }

  /** How many rows got a `matched_id`. */
  function MatchedIdCount(ms: seq<IdMatch>): nat {
    CountTrue(seq(|ms|, i requires 0 <= i < |ms| => ms[i].id.Some?))
  }

  /** Raising the threshold never gives more rows a `matched_id`. */
  lemma MatchedIdCountMonotone(rawNames: seq<string>, refNames: seq<string>, refIds: seq<Option<int>>,
                               low: int, high: int, extract: ExtractOne)
    requires low <= high
    ensures MatchedIdCount(FuzzyMatchIds(rawNames, refNames, refIds, high, extract))
            <= MatchedIdCount(FuzzyMatchIds(rawNames, refNames, refIds, low, extract))
  {
    var hi := FuzzyMatchIds(rawNames, refNames, refIds, high, extract);
    var lo := FuzzyMatchIds(rawNames, refNames, refIds, low, extract);
    var a := seq(|hi| , i requires 0 <= i < |hi| => hi[i].id.Some?);
    var b := seq(|lo| , i requires 0 <= i < |lo| => lo[i].id.Some?);
    forall i | 0 <= i < |a| && a[i] ensures b[i] {
      assert hi[i].id.Some?;
      assert hi[i].name.Some?;
    }
    CountTrueMonotone(a, b);
  }

  // ---------------------------------------------------------------------------
  // Address-based 2013 closures

  function MatchedId(a: OpeningMap.AddressMatch): Option<int> { a.matchedId }

  function Trusted(a: OpeningMap.AddressMatch): bool { a.score >= AddressThreshold }

  /** An address match as a closure of 2013. */
  function AddressClosure(a: OpeningMap.AddressMatch): Closure {
    Closure(a.matchedId, a.matchedName, a.matchedGrade, 2012, 2013)
  }

  /** `addr`: the trusted matches, the first per matched ID, stamped with 2012 and 2013. */
  function AddressClosures(review: seq<OpeningMap.AddressMatch>): (t: seq<Closure>)
    ensures forall k, l :: 0 <= k < l < |t| ==> t[k].id != t[l].id
    ensures forall c :: c in t ==> c.lastOpenYear == 2012 && c.closureYear == 2013 && YearsConsistent(c)
    ensures forall c :: c in t ==> exists a :: a in review && Trusted(a) && c == AddressClosure(a)
  {
    var kept := KeepFirstBy(Filter(review, Trusted), MatchedId, {});
    seq(|kept|, i requires 0 <= i < |kept| => AddressClosure(kept[i]))
  }

  /** Every trusted matched ID gets a closure, taken from its first trusted row. */
  lemma AddressClosuresCover(review: seq<OpeningMap.AddressMatch>, a: OpeningMap.AddressMatch)
    requires a in review && Trusted(a)
    ensures exists c :: c in AddressClosures(review) && c.id == a.matchedId
  {
    var high := Filter(review, Trusted);
    KeepFirstCovers(high, MatchedId, {}, a);
    var kept := KeepFirstBy(high, MatchedId, {});
    var y :| y in kept && MatchedId(y) == MatchedId(a);
    var k :| 0 <= k < |kept| && kept[k] == y;
    assert AddressClosures(review)[k] == AddressClosure(y);
  }

  /** The closure of a matched ID comes from its first trusted row (`drop_duplicates` keeps the first). */
  lemma AddressClosuresFirst(review: seq<OpeningMap.AddressMatch>, c: Closure)
    requires c in AddressClosures(review)
    ensures exists i :: 0 <= i < |review| && Trusted(review[i]) && c == AddressClosure(review[i])
              && forall j :: 0 <= j < i ==> Trusted(review[j]) ==> review[j].matchedId != review[i].matchedId
  {
    var high := Filter(review, Trusted);
    var kept := KeepFirstBy(high, MatchedId, {});
    var k :| 0 <= k < |kept| && AddressClosures(review)[k] == c;
    var y := kept[k];
    assert c == AddressClosure(y);
    KeepFirstIsFirst(high, MatchedId, {}, y);
    FirstInFilter(review, Trusted, MatchedId, y);
    var i :| 0 <= i < |review| && review[i] == y && forall j :: 0 <= j < i ==> Trusted(review[j]) ==> MatchedId(review[j]) != MatchedId(y);
    assert Trusted(review[i]);
  }

  // ---------------------------------------------------------------------------
  // Reference closures

  /** `shapes`: the first shapes row per `SCHOOL_ID`. */
  function IdShapes(shapes: seq<ShapeRow>): (d: seq<ShapeRow>)
    ensures forall i, j :: 0 <= i < j < |d| ==> d[i].id != d[j].id
    ensures forall r :: r in d ==> r in shapes
  {
    KeepFirstBy(shapes, RowId, {})
  }

  /** Every `SCHOOL_ID` of the shapes keeps a row. */
  lemma IdShapesCover(shapes: seq<ShapeRow>, r: ShapeRow)
    requires r in shapes
    ensures exists y :: y in IdShapes(shapes) && y.id == r.id
  {
    KeepFirstCovers(shapes, RowId, {}, r);
  }

  /** The row kept for an ID is the first shapes row with that ID. */
  lemma IdShapesFirst(shapes: seq<ShapeRow>, y: ShapeRow)
    requires y in IdShapes(shapes)
    ensures exists i :: 0 <= i < |shapes| && shapes[i] == y && forall j :: 0 <= j < i ==> shapes[j].id != y.id
  {
    KeepFirstIsFirst(shapes, RowId, {}, y);
  }

  function NameTexts(rows: seq<ShapeRow>): (names: seq<string>)
    ensures |names| == |rows| && forall i :: 0 <= i < |rows| ==> names[i] == AsText(rows[i].name)
  {
    seq(|rows|, i requires 0 <= i < |rows| => AsText(rows[i].name))
  }

  function Ids(rows: seq<ShapeRow>): (ids: seq<Option<int>>)
    ensures |ids| == |rows| && forall i :: 0 <= i < |rows| ==> ids[i] == rows[i].id
  {
    seq(|rows|, i requires 0 <= i < |rows| => rows[i].id)
  }

  function RefNameTexts(refs: seq<RefRow>): (names: seq<string>)
    ensures |names| == |refs| && forall i :: 0 <= i < |refs| ==> names[i] == AsText(refs[i].name)
  {
    seq(|refs|, i requires 0 <= i < |refs| => AsText(refs[i].name))
  }

  /** The reference row's closure, once its name matched an ID. */
  function RefClosure(r: RefRow, m: IdMatch): Closure {
    Closure(m.id, r.name, r.grade, r.closureYear - 1, r.closureYear)
  }

  /** `ref` after `dropna(subset=["matched_id"])`, with `last_open_year = closure_year - 1`. */
  function RefClosuresFrom(refs: seq<RefRow>, ms: seq<IdMatch>): (t: seq<Closure>)
    requires |refs| == |ms|
    ensures forall c :: c in t ==> c.id.Some? && YearsConsistent(c)
  {
    if refs == [] then []
    else if ms[0].id.Some? then [RefClosure(refs[0], ms[0])] + RefClosuresFrom(refs[1..], ms[1..])
    else RefClosuresFrom(refs[1..], ms[1..])
  }

  /** A reference row is kept iff its name got an ID. */
  lemma {:induction false} RefClosuresFromExact(refs: seq<RefRow>, ms: seq<IdMatch>)
    requires |refs| == |ms|
    ensures forall i :: 0 <= i < |refs| && ms[i].id.Some? ==> RefClosure(refs[i], ms[i]) in RefClosuresFrom(refs, ms)
    ensures forall c :: c in RefClosuresFrom(refs, ms) ==>
              exists i :: 0 <= i < |refs| && ms[i].id.Some? && c == RefClosure(refs[i], ms[i])
  {
    if refs != [] {
      RefClosuresFromExact(refs[1..], ms[1..]);
      var t := RefClosuresFrom(refs, ms);
      var rest := RefClosuresFrom(refs[1..], ms[1..]);
      assert forall c :: c in rest ==> c in t;
      forall i | 1 <= i < |refs| && ms[i].id.Some? ensures RefClosure(refs[i], ms[i]) in t {
        assert refs[1..][i - 1] == refs[i] && ms[1..][i - 1] == ms[i];
      }
      forall c | c in t ensures exists i :: 0 <= i < |refs| && ms[i].id.Some? && c == RefClosure(refs[i], ms[i]) {
        if c in rest {
          var i :| 0 <= i < |refs[1..]| && ms[1..][i].id.Some? && c == RefClosure(refs[1..][i], ms[1..][i]);
          assert refs[1..][i] == refs[i + 1] && ms[1..][i] == ms[i + 1];
        }
      }
    }
  }

  /**
   * The reference closures. The name kept is the reference file's own
   * `SCHOOL_NM`: the renamed `matched_name` becomes a second column of that
   * name, which the re-read of the saved file renames to `SCHOOL_NM.1`.
   */
  function RefClosures(refs: seq<RefRow>, shapes: seq<ShapeRow>, extract: ExtractOne): (t: seq<Closure>)
    ensures forall c :: c in t ==> c.id.Some? && YearsConsistent(c)
  {
    var d := IdShapes(shapes);
    RefClosuresFrom(refs, FuzzyMatchIds(RefNameTexts(refs), NameTexts(d), Ids(d), NameThreshold, extract))
  }

  /**
   * A reference row yields a closure iff its name matched a shapes name with
   * score at least 80 that maps to an ID; the closure carries that ID.
   */
  lemma RefClosuresExact(refs: seq<RefRow>, shapes: seq<ShapeRow>, extract: ExtractOne, i: nat)
    requires i < |refs|
    ensures var d := IdShapes(shapes);
            var best := BestOrBlank(extract, AsText(refs[i].name), NameTexts(d));
            var id := NameToId(NameTexts(d), Ids(d), best.name);
            best.score >= NameThreshold && id.Some? ==>
              Closure(id, refs[i].name, refs[i].grade, refs[i].closureYear - 1, refs[i].closureYear)
                in RefClosures(refs, shapes, extract)
  {
    var d := IdShapes(shapes);
    var ms := FuzzyMatchIds(RefNameTexts(refs), NameTexts(d), Ids(d), NameThreshold, extract);
    RefClosuresFromExact(refs, ms);
    var best := BestOrBlank(extract, AsText(refs[i].name), NameTexts(d));
    var id := NameToId(NameTexts(d), Ids(d), best.name);
    assert ms[i] == MatchId(AsText(refs[i].name), NameTexts(d), Ids(d), NameThreshold, extract);
    if best.score >= NameThreshold && id.Some? {
      assert ms[i].id == id;
      assert RefClosure(refs[i], ms[i]) == Closure(id, refs[i].name, refs[i].grade, refs[i].closureYear - 1, refs[i].closureYear);
    }
  }

  /** Every reference closure comes from a reference row whose name was accepted. */
  lemma RefClosuresSound(refs: seq<RefRow>, shapes: seq<ShapeRow>, extract: ExtractOne, c: Closure)
    requires c in RefClosures(refs, shapes, extract)
    ensures exists i :: && 0 <= i < |refs| && c.name == refs[i].name && c.grade == refs[i].grade
                        && c.closureYear == refs[i].closureYear
                        && c.id == NameToId(NameTexts(IdShapes(shapes)), Ids(IdShapes(shapes)),
                                            BestOrBlank(extract, AsText(refs[i].name), NameTexts(IdShapes(shapes))).name)
                        && BestOrBlank(extract, AsText(refs[i].name), NameTexts(IdShapes(shapes))).score >= NameThreshold
  {
    var d := IdShapes(shapes);
    var ms := FuzzyMatchIds(RefNameTexts(refs), NameTexts(d), Ids(d), NameThreshold, extract);
    RefClosuresFromExact(refs, ms);
    var i :| 0 <= i < |refs| && ms[i].id.Some? && c == RefClosure(refs[i], ms[i]);
    assert ms[i].name.Some?;
  }

  // ---------------------------------------------------------------------------
  // `closure_review` and its split

  /** A computed closure next to the reference's year for its ID (missing when there is none). */
  datatype ReviewRow = ReviewRow(closure: Closure, refYear: Option<int>)

  function YearOf(c: Closure): int { c.closureYear }

  /** The rows a left merge on `SCHOOL_ID` produces for one computed closure. */
  function MergeOne(c: Closure, refs: seq<Closure>): (rows: seq<ReviewRow>)
    ensures rows != []
    ensures forall r :: r in rows ==> r.closure == c
    ensures forall r :: r in rows && r.refYear.Some? ==> exists x :: x in refs && x.id == c.id && x.closureYear == r.refYear.value
    ensures forall r :: r in rows && r.refYear.None? ==> forall x :: x in refs ==> x.id != c.id
    ensures (forall x :: x in refs ==> x.id != c.id) <==> rows == [ReviewRow(c, None)]
    ensures forall x :: x in refs && x.id == c.id ==> ReviewRow(c, Some(x.closureYear)) in rows
    ensures |rows| == MergeCount(c, refs)
  {
    var same := Filter(refs, SameId(c));
    if same == [] then
      assert forall x :: x in refs ==> x.id != c.id by {
        forall x | x in refs ensures x.id != c.id { assert SameId(c)(x) ==> x in same; }
      }
      [ReviewRow(c, None)]
    else
      var rows := seq(|same|, k requires 0 <= k < |same| => ReviewRow(c, Some(same[k].closureYear)));
      assert rows[0].refYear.Some?;
      assert same[0] in refs && same[0].id == c.id by { assert SameId(c)(same[0]); }
      forall r | r in rows ensures exists x :: x in refs && x.id == c.id && x.closureYear == r.refYear.value {
        var k :| 0 <= k < |rows| && rows[k] == r;
        assert same[k] in same;
        assert SameId(c)(same[k]);
      }
      forall x | x in refs && x.id == c.id ensures ReviewRow(c, Some(x.closureYear)) in rows {
        assert SameId(c)(x) && x in same;
        var k :| 0 <= k < |same| && same[k] == x;
        assert rows[k] == ReviewRow(c, Some(x.closureYear));
      }
      rows
  }

  function SameId(c: Closure): Closure -> bool {
    (x: Closure) => x.id == c.id
  }

  /** The rows a left merge gives one closure: one per reference row with its ID, or one when there is none. */
  function MergeCount(c: Closure, refs: seq<Closure>): nat {
    var n := |Filter(refs, SameId(c))|;
    if n == 0 then 1 else n
  }

  /** The size of the left merge: the merge counts of the computed closures, added up. */
  function ReviewCount(computed: seq<Closure>, refs: seq<Closure>): nat {
    if computed == [] then 0 else MergeCount(computed[0], refs) + ReviewCount(computed[1..], refs)
  }

  /** `computed.merge(ref[["SCHOOL_ID", "closure_year"]], on="SCHOOL_ID", how="left")`. */
  function ClosureReview(computed: seq<Closure>, refs: seq<Closure>): (review: seq<ReviewRow>)
    ensures forall r :: r in review ==> r.closure in computed
    ensures forall c :: c in computed ==> exists r :: r in review && r.closure == c
    ensures forall r :: r in review && r.refYear.Some? ==>
              exists x :: x in refs && x.id == r.closure.id && x.closureYear == r.refYear.value
    ensures forall r :: r in review && r.refYear.None? ==> forall x :: x in refs ==> x.id != r.closure.id
    ensures forall c, x :: c in computed && x in refs && x.id == c.id ==> ReviewRow(c, Some(x.closureYear)) in review
    ensures |review| == ReviewCount(computed, refs)
  {
    if computed == [] then []
    else
      var head := MergeOne(computed[0], refs);
      var rest := ClosureReview(computed[1..], refs);
      assert head[0] in head;
      assert forall c :: c in computed <==> c == computed[0] || c in computed[1..];
      assert forall r :: r in head + rest <==> r in head || r in rest;
      head + rest
  }

  predicate Differs(r: ReviewRow) { r.refYear.Some? && r.refYear.value != r.closure.closureYear }

  predicate Agrees(r: ReviewRow) { r.refYear.None? || r.refYear.value == r.closure.closureYear }

  function IsDiff(r: ReviewRow): bool { Differs(r) }

  function IsAgreed(r: ReviewRow): bool { Agrees(r) }

  /** `closure_diff`: a reference exists and its year differs. */
  function ClosureDiff(review: seq<ReviewRow>): (d: seq<ReviewRow>)
    ensures forall r :: r in d <==> r in review && Differs(r)
  {
    Filter(review, IsDiff)
  }

  /** `closure_matched`: the years agree, or there is no reference. */
  function ClosureMatched(review: seq<ReviewRow>): (m: seq<ReviewRow>)
    ensures forall r :: r in m <==> r in review && Agrees(r)
  {
    Filter(review, IsAgreed)
  }

  /** Every review row lands in exactly one of the two outputs. */
  lemma ReviewSplitPartition(review: seq<ReviewRow>)
    ensures |ClosureDiff(review)| + |ClosureMatched(review)| == |review|
    ensures multiset(ClosureDiff(review)) + multiset(ClosureMatched(review)) == multiset(review)
    ensures forall r :: r in review ==> (r in ClosureDiff(review) <==> r !in ClosureMatched(review))
  {
    FilterPartition(review, IsDiff, IsAgreed);
  }

  // ---------------------------------------------------------------------------
  // New IDs and the final table

  /** `rows[~rows["SCHOOL_ID"].isin(existing["SCHOOL_ID"])]`. */
  function AbsentFrom(existing: seq<Closure>, rows: seq<Closure>): (t: seq<Closure>)
    ensures forall c :: c in t <==> c in rows && c.id !in IdColumn(existing)
    ensures Subsequence(t, rows)
  {
    var isNew := (c: Closure) => c.id !in IdColumn(existing);
    FilterIsSubsequence(rows, isNew);
    Filter(rows, isNew)
  }

  predicate ClosureYearLe(a: Closure, b: Closure) { a.closureYear <= b.closureYear }

  lemma ClosureYearLeTotalPreorder()
    ensures TotalPreorder(ClosureYearLe)
  {
  }

  function ClosureId(c: Closure): Option<int> { c.id }

  /** `concat([computed, to_add_ref]).sort_values("closure_year").drop_duplicates("SCHOOL_ID")`. */
  function FinalTable(computed: seq<Closure>, toAddRef: seq<Closure>): (t: seq<Closure>)
    ensures forall k, l :: 0 <= k < l < |t| ==> t[k].id != t[l].id
    ensures forall c :: c in t ==> c in computed || c in toAddRef
    ensures Sorted(t, ClosureYearLe)
  {
    ClosureYearLeTotalPreorder();
    var sorted := SortBy(computed + toAddRef, ClosureYearLe);
    assert forall c :: c in sorted ==> c in multiset(computed + toAddRef);
    KeepFirstIsSubsequence(sorted, ClosureId, {});
    SubsequenceSorted(KeepFirstBy(sorted, ClosureId, {}), sorted, ClosureYearLe);
    KeepFirstBy(sorted, ClosureId, {})
  }

  /** The row kept for an ID has the smallest `closure_year` among that ID's candidates. */
  lemma FinalTableEarliest(computed: seq<Closure>, toAddRef: seq<Closure>, c: Closure, z: Closure)
    requires c in FinalTable(computed, toAddRef)
    requires (z in computed || z in toAddRef) && z.id == c.id
    ensures c.closureYear <= z.closureYear
  {
    ClosureYearLeTotalPreorder();
    var sorted := SortBy(computed + toAddRef, ClosureYearLe);
    assert z in multiset(sorted);
    KeepFirstOfSortedIsLeast(sorted, ClosureYearLe, ClosureId, c, z);
  }

  /** Every candidate ID is in the final table. */
  lemma FinalTableCovers(computed: seq<Closure>, toAddRef: seq<Closure>, z: Closure)
    requires z in computed || z in toAddRef
    ensures exists c :: c in FinalTable(computed, toAddRef) && c.id == z.id
  {
    ClosureYearLeTotalPreorder();
    var sorted := SortBy(computed + toAddRef, ClosureYearLe);
    assert z in multiset(sorted);
    KeepFirstCovers(sorted, ClosureId, {}, z);
  }

  /** All outputs of the script. */
  datatype Outputs = Outputs(
    toAddAddr: seq<Closure>,
    review: seq<ReviewRow>,
    diff: seq<ReviewRow>,
    matched: seq<ReviewRow>,
    toAddRef: seq<Closure>,
    final: seq<Closure>)

  /**
   * The script end to end. The reviewed reference file is read back as it
   * was saved; `to_add_addr` is computed but does not reach the final table.
   */
  function Finalize(computed: seq<Closure>, addressReview: seq<OpeningMap.AddressMatch>, refs: seq<RefRow>,
                    shapes: seq<ShapeRow>, extract: ExtractOne): (out: Outputs)
    ensures forall c :: c in out.toAddAddr ==> c.id !in IdColumn(computed) && c.closureYear == 2013
    ensures forall c :: c in out.toAddRef ==> c.id !in IdColumn(computed) && c.id.Some? && YearsConsistent(c)
    ensures forall c :: c in out.final ==> c in computed || c in out.toAddRef
  {
    var refClosures := RefClosures(refs, shapes, extract);
    var review := ClosureReview(computed, refClosures);
    var toAddRef := AbsentFrom(computed, refClosures);
    Outputs(
      AbsentFrom(computed, AddressClosures(addressReview)),
      review,
      ClosureDiff(review),
      ClosureMatched(review),
      toAddRef,
      FinalTable(computed, toAddRef))
  }

  /** The final table keeps every computed ID, and keeps the closure-year arithmetic when the computed rows do. */
  lemma FinalizeKeepsComputed(computed: seq<Closure>, addressReview: seq<OpeningMap.AddressMatch>, refs: seq<RefRow>,
                               shapes: seq<ShapeRow>, extract: ExtractOne)
    ensures var out := Finalize(computed, addressReview, refs, shapes, extract);
            forall z :: z in computed ==> exists c :: c in out.final && c.id == z.id
    ensures (forall z :: z in computed ==> YearsConsistent(z)) ==>
              forall c :: c in Finalize(computed, addressReview, refs, shapes, extract).final ==> YearsConsistent(c)
  {
    var out := Finalize(computed, addressReview, refs, shapes, extract);
    forall z | z in computed ensures exists c :: c in out.final && c.id == z.id {
      FinalTableCovers(computed, out.toAddRef, z);
    }
  }
}
