/**
 * The table logic of the three map scripts, `05a_crime_boundary_map.py`,
 * `05b_crime_boundary_map_test.py` and `crime_boundary_map_test.py`: crimes
 * get their coordinates and academic year, and each school year from 2008 to
 * 2018 gets a map with the boundaries and the crimes of exactly that year.
 * The maps themselves are described by what they show, not drawn.
 */
module BoundaryMaps {
  import opened Wrappers
  import opened Text
  import opened Seqs
  import opened SchoolYears
  import opened Schools

  // ---------------------------------------------------------------------------
  // Crimes with coordinates and academic years

  /** A row of `crime_with_school_match.parquet`, its date given as year and month. */
  datatype MatchRow = MatchRow(id: Option<string>, year: int, month: int, primaryType: Option<string>)

  /** A row of `crime_at_schools.parquet[["id", "latitude", "longitude"]]`. */
  datatype PointRow = PointRow(id: Option<string>, latitude: Option<real>, longitude: Option<real>)

  /** A crime after the merge. */
  datatype MapCrime = MapCrime(id: Option<string>, year: int, month: int, primaryType: Option<string>,
                               latitude: Option<real>, longitude: Option<real>)

  function MatchIds(ms: seq<MatchRow>): (ids: seq<Option<string>>)
    ensures |ids| == |ms| && forall i :: 0 <= i < |ms| ==> ids[i] == ms[i].id
  {
    seq(|ms|, i requires 0 <= i < |ms| => ms[i].id)
  }

  function PointIds(ps: seq<PointRow>): (ids: seq<Option<string>>)
    ensures |ids| == |ps| && forall i :: 0 <= i < |ps| ==> ids[i] == ps[i].id
  {
    seq(|ps|, i requires 0 <= i < |ps| => ps[i].id)
  }

  /** The point row with the given `id`, if any (the first; under the merge's validation it is the only one). */
  function FindPoint(ps: seq<PointRow>, id: Option<string>): (r: Option<PointRow>)
    ensures r.None? <==> forall p :: p in ps ==> p.id != id
    ensures r.Some? ==> r.value in ps && r.value.id == id
  {
    if ps == [] then None
    else if ps[0].id == id then Some(ps[0])
    else FindPoint(ps[1..], id)
  }

  function Attach(m: MatchRow, ps: seq<PointRow>): MapCrime {
    match FindPoint(ps, m.id)
    case Some(p) => MapCrime(m.id, m.year, m.month, m.primaryType, p.latitude, p.longitude)
    case None => MapCrime(m.id, m.year, m.month, m.primaryType, None, None)
  }

  /**
   * The left merge on `id` with `validate="one_to_one"`: it raises when either
   * side repeats an `id` (missing ids included, which pandas matches to each
   * other); otherwise every crime keeps its row and takes the coordinates of
   * the point with its `id`, or none.
   */
  function MergePoints(ms: seq<MatchRow>, ps: seq<PointRow>): (r: Result<seq<MapCrime>>)
    ensures r.Ok? <==> NoDuplicates(MatchIds(ms)) && NoDuplicates(PointIds(ps))
    ensures r.Ok? ==> |r.value| == |ms|
    ensures r.Ok? ==> forall i :: 0 <= i < |ms| ==>
              var c := r.value[i];
              && c.id == ms[i].id && c.year == ms[i].year && c.month == ms[i].month && c.primaryType == ms[i].primaryType
              && ((exists p :: p in ps && p.id == c.id && p.latitude == c.latitude && p.longitude == c.longitude)
                  || ((forall p :: p in ps ==> p.id != c.id) && c.latitude.None? && c.longitude.None?))
  {
    if !NoDuplicates(MatchIds(ms)) || !NoDuplicates(PointIds(ps)) then Err("MergeError: merge keys are not unique")
    else Ok(seq(|ms|, i requires 0 <= i < |ms| => Attach(ms[i], ps)))
  }

  predicate Located(c: MapCrime) {
    c.latitude.Some? && c.longitude.Some?
  }

  function IsLocated(c: MapCrime): bool { Located(c) }

  /** `dropna(subset=["latitude", "longitude"])`. */
  function DropUnlocated(cs: seq<MapCrime>): (kept: seq<MapCrime>)
    ensures forall c :: c in kept <==> c in cs && Located(c)
    ensures Subsequence(kept, cs)
  {
    FilterIsSubsequence(cs, IsLocated);
    Filter(cs, IsLocated)
  }

  /** A located crime tagged with its `academic_year_start`. */
  datatype DatedCrime = DatedCrime(crime: MapCrime, start: int)

  /** The crimes shown on the maps: located ones, each dated to its academic year. */
  function MapCrimes(cs: seq<MapCrime>): (ds: seq<DatedCrime>)
    ensures |ds| == |DropUnlocated(cs)|
    ensures forall i :: 0 <= i < |ds| ==>
              && ds[i].crime == DropUnlocated(cs)[i] && Located(ds[i].crime)
              && ds[i].start == CrimeAcademicYear(ds[i].crime.year, ds[i].crime.month)
  {
    var kept := DropUnlocated(cs);
    assert forall i :: 0 <= i < |kept| ==> kept[i] in kept;
    seq(|kept|, i requires 0 <= i < |kept| => DatedCrime(kept[i], CrimeAcademicYear(kept[i].year, kept[i].month)))
  }

  // ---------------------------------------------------------------------------
  // Grade colours

  const Elementary := "#1f78b4"
  const Middle := "#33a02c"
  const High := "#e31a1c"

  predicate KnownGrade(grade: Option<string>) {
    grade == Some("ES") || grade == Some("MS") || grade == Some("HS")
  }

  /** The colour dictionary of the boundary styles: a grade other than ES, MS or HS is a `KeyError`. */
  function Colour(grade: Option<string>): (r: Result<string>)
    ensures r.Ok? <==> KnownGrade(grade)
    ensures grade == Some("ES") ==> r == Ok(Elementary)
    ensures grade == Some("MS") ==> r == Ok(Middle)
    ensures grade == Some("HS") ==> r == Ok(High)
  {
    if grade == Some("ES") then Ok(Elementary)
    else if grade == Some("MS") then Ok(Middle)
    else if grade == Some("HS") then Ok(High)
    else Err("KeyError: " + AsText(grade))
  }

  /**
   * A boundary feature of the time-slider map: its colour and the start year
   * its popup labels with `YearLabel`.
   */
  datatype SchoolFeature = SchoolFeature(colour: string, start: int)

  /**
   * The loop building `school_features` over every school: each feature is
   * coloured by its grade; the first school of another grade raises.
   */
  method BuildSchoolFeatures(schools: seq<Yeared>) returns (r: Result<seq<SchoolFeature>>)
    ensures r.Ok? <==> forall i :: 0 <= i < |schools| ==> KnownGrade(schools[i].row.grade)
    ensures r.Ok? ==> |r.value| == |schools| && forall i :: 0 <= i < |schools| ==>
              && Ok(r.value[i].colour) == Colour(schools[i].row.grade)
              && r.value[i].start == schools[i].start
  {
    var features: seq<SchoolFeature> := [];
    for i := 0 to |schools|
      invariant |features| == i
      invariant forall k :: 0 <= k < i ==> KnownGrade(schools[k].row.grade)
      invariant forall k :: 0 <= k < i ==>
                  Ok(features[k].colour) == Colour(schools[k].row.grade)
                  && features[k].start == schools[k].start
    {
      var colour := Colour(schools[i].row.grade);
      if colour.Err? {
        return Err(colour.error);
      }
      features := features + [SchoolFeature(colour.value, schools[i].start)];
    }
    return Ok(features);
  }

  // ---------------------------------------------------------------------------
  // One year's map

  function SameStart(year: int): Yeared -> bool { (y: Yeared) => y.start == year }

  function CrimeIn(year: int): DatedCrime -> bool { (d: DatedCrime) => d.start == year }

  /** `schools_gdf[academic_year_start == year]`. */
  function SchoolsOf(schools: seq<Yeared>, year: int): (shown: seq<Yeared>)
    ensures forall y :: y in shown <==> y in schools && y.start == year
    ensures Subsequence(shown, schools)
  {
    FilterIsSubsequence(schools, SameStart(year));
    Filter(schools, SameStart(year))
  }

  /** `crime_gdf[academic_year_start == year]`. */
  function CrimesOf(crimes: seq<DatedCrime>, year: int): (shown: seq<DatedCrime>)
    ensures forall d :: d in shown <==> d in crimes && d.start == year
    ensures Subsequence(shown, crimes)
  {
    FilterIsSubsequence(crimes, CrimeIn(year));
    Filter(crimes, CrimeIn(year))
  }

  /** A boundary layer of one grade category. */
  datatype GradeLayer = GradeLayer(grade: string, caption: string, colour: string, schools: seq<Yeared>)

  const GradeStyles: seq<(string, string, string)> := [
    ("ES", "Elementary Schools", Elementary),
    ("MS", "Middle Schools", Middle),
    ("HS", "High Schools", High)]

  function OfGrade(grade: string): Yeared -> bool { (y: Yeared) => y.row.grade == Some(grade) }

  function LayersFrom(schools: seq<Yeared>, styles: seq<(string, string, string)>): (layers: seq<GradeLayer>)
    ensures forall l :: l in layers ==> l.schools != [] && l.schools == Filter(schools, OfGrade(l.grade))
    ensures forall l :: l in layers ==> exists k :: 0 <= k < |styles| && (l.grade, l.caption, l.colour) == styles[k]
    ensures forall k :: 0 <= k < |styles| && Filter(schools, OfGrade(styles[k].0)) != [] ==>
              exists l :: l in layers && (l.grade, l.caption, l.colour) == styles[k]
  {
    if styles == [] then []
    else
      var (grade, caption, colour) := styles[0];
      var subset := Filter(schools, OfGrade(grade));
      var rest := LayersFrom(schools, styles[1..]);
      assert forall k :: 1 <= k < |styles| ==> styles[k] == styles[1..][k - 1];
      if subset == [] then rest
      else [GradeLayer(grade, caption, colour, subset)] + rest
  }

  lemma OfGradeMembers(schools: seq<Yeared>, grade: string)
    ensures forall y :: y in Filter(schools, OfGrade(grade)) <==> y in schools && y.row.grade == Some(grade)
  {
  }

  /** The position of a known grade in `GradeStyles`. */
  function StyleIndex(g: string): (k: nat)
    requires KnownGrade(Some(g))
    ensures k < |GradeStyles| && GradeStyles[k].0 == g
  {
    if g == "ES" then 0 else if g == "MS" then 1 else 2
  }

  lemma GradeStyleColour(k: nat)
    requires k < |GradeStyles|
    ensures Ok(GradeStyles[k].2) == Colour(Some(GradeStyles[k].0))
  {
  }

  /**
   * The grade loop: one layer per grade category with schools that year, in
   * ES, MS, HS order, holding exactly that grade's schools and drawn in the
   * grade's colour; an empty category is skipped.
   */
  function GradeLayers(shown: seq<Yeared>): (layers: seq<GradeLayer>)
    ensures forall l :: l in layers ==> l.schools != [] && Ok(l.colour) == Colour(Some(l.grade))
    ensures forall l :: l in layers ==> forall y :: y in l.schools <==> y in shown && y.row.grade == Some(l.grade)
    ensures forall g :: KnownGrade(Some(g)) ==>
              ((exists y :: y in shown && y.row.grade == Some(g)) <==> exists l :: l in layers && l.grade == g)
  {
    var layers := LayersFrom(shown, GradeStyles);
    forall g | KnownGrade(Some(g)) && (exists y :: y in shown && y.row.grade == Some(g))
      ensures exists l :: l in layers && l.grade == g
    {
      var y :| y in shown && y.row.grade == Some(g);
      OfGradeMembers(shown, g);
      var k := StyleIndex(g);
      assert y in Filter(shown, OfGrade(GradeStyles[k].0));
    }
    forall l | l in layers ensures Ok(l.colour) == Colour(Some(l.grade)) {
      var k :| 0 <= k < |GradeStyles| && (l.grade, l.caption, l.colour) == GradeStyles[k];
      GradeStyleColour(k);
    }
    forall l | l in layers ensures forall y :: y in l.schools <==> y in shown && y.row.grade == Some(l.grade) {
      OfGradeMembers(shown, l.grade);
    }
    forall l | l in layers ensures exists y :: y in shown && y.row.grade == Some(l.grade) {
      OfGradeMembers(shown, l.grade);
      assert l.schools[0] in l.schools;
    }
    layers
  }

  /** A heat layer of one crime type. */
  datatype HeatLayer = HeatLayer(name: string, primaryType: Option<string>, points: seq<MapCrime>)

  function Crimes(ds: seq<DatedCrime>): (cs: seq<MapCrime>)
    ensures |cs| == |ds| && forall i :: 0 <= i < |ds| ==> cs[i] == ds[i].crime
  {
    seq(|ds|, i requires 0 <= i < |ds| => ds[i].crime)
  }

  function PrimaryTypes(ds: seq<DatedCrime>): (ts: seq<Option<string>>)
    ensures |ts| == |ds| && forall i :: 0 <= i < |ds| ==> ts[i] == ds[i].crime.primaryType
  {
    seq(|ds|, i requires 0 <= i < |ds| => ds[i].crime.primaryType)
  }

  /** `crime_year.primary_type == ctype`: a missing type equals nothing, not even itself. */
  function OfType(t: Option<string>): MapCrime -> bool {
    (c: MapCrime) => t.Some? && c.primaryType == t
  }

  function HeatLayerFor(cs: seq<MapCrime>, t: Option<string>): (l: HeatLayer)
    ensures l.name == "Heat: " + AsText(t) && l.primaryType == t
    ensures forall c :: c in l.points <==> c in cs && t.Some? && c.primaryType == t
  {
    HeatLayer("Heat: " + AsText(t), t, Filter(cs, OfType(t)))
  }

  function LayersForTypes(cs: seq<MapCrime>, types: seq<Option<string>>): (layers: seq<HeatLayer>)
    ensures |layers| == |types| && forall i :: 0 <= i < |types| ==> layers[i] == HeatLayerFor(cs, types[i])
  {
    if types == [] then [] else [HeatLayerFor(cs, types[0])] + LayersForTypes(cs, types[1..])
  }

  function LayerTypes(layers: seq<HeatLayer>): (ts: seq<Option<string>>)
    ensures |ts| == |layers| && forall i :: 0 <= i < |layers| ==> ts[i] == layers[i].primaryType
  {
    seq(|layers|, i requires 0 <= i < |layers| => layers[i].primaryType)
  }

  /**
   * The crime-type loop: one layer per distinct `primary_type` (so each type
   * once, every type that occurs, in order of appearance); a layer holds the
   * year's crimes of its type, and the layer of a missing type exists but
   * holds no points (its heat map is not added).
   */
  function HeatLayers(shown: seq<DatedCrime>): (layers: seq<HeatLayer>)
    ensures LayerTypes(layers) == Distinct(PrimaryTypes(shown))
    ensures forall l :: l in layers ==> forall c :: c in l.points <==> c in Crimes(shown) && l.primaryType.Some? && c.primaryType == l.primaryType
    ensures forall i, j :: 0 <= i < j < |layers| ==> OccursBefore(PrimaryTypes(shown), LayerTypes(layers)[i], LayerTypes(layers)[j])
  {
    var types := Distinct(PrimaryTypes(shown));
    var cs := Crimes(shown);
    var layers := LayersForTypes(cs, types);
    assert forall i :: 0 <= i < |layers| ==> layers[i].primaryType == types[i];
    assert LayerTypes(layers) == types;
    DistinctFirstAppearance(PrimaryTypes(shown));
    assert forall l :: l in layers ==> forall c :: c in l.points <==> c in cs && l.primaryType.Some? && c.primaryType == l.primaryType by {
      forall l | l in layers ensures forall c :: c in l.points <==> c in cs && l.primaryType.Some? && c.primaryType == l.primaryType {
        var i :| 0 <= i < |layers| && layers[i] == l;
        assert l == HeatLayerFor(cs, types[i]);
      }
    }
    layers
  }

  /** `Data/processed/map_{year}_{year+1}.html`. */
  function OutPath(year: int): (path: string)
    ensures StartsWith(path, "Data/processed/map_" + IntToString(year) + "_")
    ensures EndsWith(path, IntToString(year + 1) + ".html")
    ensures |path| == |"Data/processed/map_" + IntToString(year) + "_"| + |IntToString(year + 1) + ".html"|
  {
    var head := "Data/processed/map_" + IntToString(year) + "_";
    var tail := IntToString(year + 1) + ".html";
    assert (head + tail)[..|head|] == head;
    assert (head + tail)[|head + tail| - |tail|..] == tail;
    head + tail
  }

  /**
   * One iteration of the year loop: the year and the schools and crimes it
   * selects. What the saved map draws is computed from these by the functions
   * below: its file name, its boundary layers, and either its heat layers
   * (`05b_crime_boundary_map_test.py`) or one marker per crime
   * (`crime_boundary_map_test.py`), with the "All Crimes" layer of the former
   * holding the same crimes as the markers of the latter.
   */
  datatype YearMap = YearMap(year: int, schools: seq<Yeared>, crimes: seq<DatedCrime>)

  function YearMapFor(schools: seq<Yeared>, crimes: seq<DatedCrime>, year: int): YearMap {
    YearMap(year, SchoolsOf(schools, year), CrimesOf(crimes, year))
  }

  function MapPath(m: YearMap): string { OutPath(m.year) }

  function MapGrades(m: YearMap): seq<GradeLayer> { GradeLayers(m.schools) }

  function MapHeat(m: YearMap): seq<HeatLayer> { HeatLayers(m.crimes) }

  function MapCrimesShown(m: YearMap): seq<MapCrime> { Crimes(m.crimes) }

  const FirstYear := 2008
  const LastYear := 2018

  /**
   * The loop `for year in range(2008, 2019)` of both test scripts: one map
   * per year, in year order.
   */
  method BuildYearMaps(schools: seq<Yeared>, crimes: seq<DatedCrime>) returns (maps: seq<YearMap>)
    ensures |maps| == LastYear - FirstYear + 1
    ensures forall k :: 0 <= k < |maps| ==> maps[k] == YearMapFor(schools, crimes, FirstYear + k)
  {
    maps := [];
    for year := FirstYear to LastYear + 1
      invariant |maps| == year - FirstYear
      invariant forall k :: 0 <= k < |maps| ==> maps[k] == YearMapFor(schools, crimes, FirstYear + k)
    {
      var shownSchools := SchoolsOf(schools, year);
      var shownCrimes := CrimesOf(crimes, year);
      maps := maps + [YearMap(year, shownSchools, shownCrimes)];
    }
  }

  /**
   * A school is drawn on a year's map iff its start year is that year and its
   * grade is one of the three categories.
   */
  lemma MapGradesOfYear(schools: seq<Yeared>, crimes: seq<DatedCrime>, year: int, y: Yeared)
    ensures var m := YearMapFor(schools, crimes, year);
            (exists l :: l in MapGrades(m) && y in l.schools) <==> y in schools && y.start == year && KnownGrade(y.row.grade)
  {
    var m := YearMapFor(schools, crimes, year);
    var layers := MapGrades(m);
    if y in schools && y.start == year && KnownGrade(y.row.grade) {
      var g := y.row.grade.value;
      assert KnownGrade(Some(g));
      assert y in m.schools;
      var l :| l in layers && l.grade == g;
      assert y in l.schools;
    }
    if l :| l in layers && y in l.schools {
      assert Colour(Some(l.grade)).Ok?;
    }
  }

  /** The crimes a year's map draws are exactly the crimes of that academic year. */
  lemma MapCrimesOfYear(schools: seq<Yeared>, crimes: seq<DatedCrime>, year: int, c: MapCrime)
    ensures c in MapCrimesShown(YearMapFor(schools, crimes, year)) <==> exists d :: d in crimes && d.start == year && d.crime == c
  {
    var ds := CrimesOf(crimes, year);
    if c in Crimes(ds) {
      var i :| 0 <= i < |ds| && Crimes(ds)[i] == c;
      assert ds[i] in ds;
    }
    if d :| d in crimes && d.start == year && d.crime == c {
      var i :| 0 <= i < |ds| && ds[i] == d;
      assert Crimes(ds)[i] == c;
    }
  }
}
