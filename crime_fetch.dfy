/**
 * The two crime download scripts, `01_crime_data_cleaning.py` and
 * `crime_data_cleaning.py`: the offset-paginated download loop with its
 * stopping rules, the per-chunk column cleaning and chunk naming of the former,
 * and the accumulate-then-filter steps of the latter. The portal is not
 * modelled: `pages[k]` is its answer to the `k`-th request, at offset
 * `k * BatchSize`, and a request past the end of `pages` is answered with
 * nothing.
 */
module CrimeFetch {
  import opened Wrappers
  import opened Text
  import opened Seqs

  const BatchSize := 100000

  /** One record of the portal's JSON answer: field name to text. */
  type Record = map<string, string>

  type Page = seq<Record>

  // ---------------------------------------------------------------------------
  // Cleaning one chunk

  const DesiredColumns := ["id", "case_number", "date", "location_description",
    "arrest", "primary_type", "description", "fbi_code", "iucr",
    "beat", "ward", "year", "latitude", "longitude"]

  const IntColumns := ["ward", "community_area", "year", "beat"]

  /** A column of `DataFrame.from_records(page)`: some record has the field. */
  predicate HasColumn(page: Page, c: string) {
    exists k :: 0 <= k < |page| && c in page[k]
  }

  function KeepFrom(cols: seq<string>, page: Page): (kept: seq<string>)
    ensures forall c :: c in kept <==> c in cols && HasColumn(page, c)
    ensures Subsequence(kept, cols)
    ensures NoDuplicates(cols) ==> NoDuplicates(kept)
  {
    if cols == [] then []
    else
      var rest := KeepFrom(cols[1..], page);
      assert forall c :: c in cols <==> c == cols[0] || c in cols[1..];
      SubsequenceCons(rest, cols[1..], cols[0]);
      assert [cols[0]] + cols[1..] == cols;
      if HasColumn(page, cols[0]) then
        assert NoDuplicates(cols) ==> cols[0] !in rest;
        [cols[0]] + rest
      else rest
  }

  /**
   * `keep_cols`: the desired columns the chunk has, in the desired order, each
   * once. Since "domestic" is not desired, the later conversion of a
   * "domestic" column never applies.
   */
  function KeepCols(page: Page): (kept: seq<string>)
    ensures forall c :: c in kept <==> c in DesiredColumns && HasColumn(page, c)
    ensures Subsequence(kept, DesiredColumns) && NoDuplicates(kept)
    ensures "domestic" !in kept
  {
    DesiredColumnsDistinct();
    KeepFrom(DesiredColumns, page)
  }

  lemma DesiredColumnsDistinct()
    ensures NoDuplicates(DesiredColumns) && "domestic" !in DesiredColumns
  {
  }

  /** A cleaned cell. */
  datatype Cell = Text(text: string) | Flag(flag: bool) | Int(value: int) | Missing

  /** `map({"true": True, "false": False})`: any other text, or none, becomes missing. */
  function ArrestFlag(raw: Option<string>): (c: Cell)
    ensures c == Flag(true) <==> raw == Some("true")
    ensures c == Flag(false) <==> raw == Some("false")
    ensures c.Flag? || c.Missing?
  {
    if raw == Some("true") then Flag(true)
    else if raw == Some("false") then Flag(false)
    else Missing
  }

  /** `pd.to_numeric(errors="coerce").astype("Int32")`: an unreadable value becomes missing. */
  function IntCell(raw: Option<string>): (c: Cell)
    ensures c.Int? || c.Missing?
    ensures c.Int? <==> raw.Some? && ParseInt(raw.value).Ok?
    ensures c.Int? ==> Ok(c.value) == ParseInt(raw.value)
  {
    if raw.Some? && ParseInt(raw.value).Ok? then Int(ParseInt(raw.value).value) else Missing
  }

  /** The cell of column `c` after the conversions; other columns keep their text. */
  function CleanCell(c: string, raw: Option<string>): (cell: Cell)
    ensures c == "arrest" ==> cell == ArrestFlag(raw)
    ensures c in IntColumns ==> cell == IntCell(raw)
    ensures c != "arrest" && c !in IntColumns ==> (cell == Missing <==> raw.None?) && (raw.Some? ==> cell == Text(raw.value))
  {
    if c == "arrest" then ArrestFlag(raw)
    else if c in IntColumns then IntCell(raw)
    else if raw.Some? then Text(raw.value)
    else Missing
  }

  function Field(r: Record, c: string): Option<string> {
    if c in r then Some(r[c]) else None
  }

  /** A cleaned chunk: its columns and one row of cells per record. */
  datatype Chunk = Chunk(columns: seq<string>, rows: seq<seq<Cell>>)

  function CleanRecord(cols: seq<string>, r: Record): (row: seq<Cell>)
    ensures |row| == |cols| && forall j :: 0 <= j < |cols| ==> row[j] == CleanCell(cols[j], Field(r, cols[j]))
  {
    seq(|cols|, j requires 0 <= j < |cols| => CleanCell(cols[j], Field(r, cols[j])))
  }

  /** Steps 4b to 4c of the loop: projection to `keep_cols`, then the conversions. */
  function CleanChunk(page: Page): (ch: Chunk)
    ensures ch.columns == KeepCols(page)
    ensures |ch.rows| == |page|
    ensures forall i :: 0 <= i < |page| ==> ch.rows[i] == CleanRecord(ch.columns, page[i])
  {
    var cols := KeepCols(page);
    Chunk(cols, seq(|page|, i requires 0 <= i < |page| => CleanRecord(cols, page[i])))
  }

  const ChunkPrefix := "Data/processed/crime_parquet/chunk_"

  /** `chunk_{chunk_index:04d}.parquet` in the output folder. */
  function ChunkPath(k: nat): (path: string)
    ensures StartsWith(path, ChunkPrefix) && EndsWith(path, ".parquet")
  {
    ChunkPrefix + ZeroPad(k, 4) + ".parquet"
  }

  /**
   * Between the prefix and the suffix of a chunk's file name stand the decimal
   * digits of its index, as many as the index needs but at least four.
   */
  lemma ChunkPathDigits(k: nat)
    ensures |ChunkPrefix| + 4 + 8 <= |ChunkPath(k)|
    ensures var path := ChunkPath(k);
            AllDigits(path[|ChunkPrefix|..|path| - 8]) && DigitsValue(path[|ChunkPrefix|..|path| - 8]) == k
    ensures |ChunkPath(k)| - 8 - |ChunkPrefix| == if |NatToString(k)| < 4 then 4 else |NatToString(k)|
  {
    var path := ChunkPath(k);
    assert path[|ChunkPrefix|..|path| - 8] == ZeroPad(k, 4);
  }

  /** Different chunks never share a file. */
  lemma ChunkPathInjective(i: nat, j: nat)
    requires ChunkPath(i) == ChunkPath(j)
    ensures i == j
  {
    var prefix := "Data/processed/crime_parquet/chunk_";
    var a := ZeroPad(i, 4);
    var b := ZeroPad(j, 4);
    assert |a| == |b|;
    assert a == ChunkPath(i)[|prefix|..|prefix| + |a|];
    assert b == ChunkPath(j)[|prefix|..|prefix| + |b|];
  }

  /** What one iteration writes: the chunk's file, the offset it was requested at, and its cleaned contents. */
  datatype Written = Written(path: string, offset: nat, chunk: Chunk)

  function WrittenAt(pages: seq<Page>, k: nat): Written
    requires k < |pages|
  {
    Written(ChunkPath(k), k * BatchSize, CleanChunk(pages[k]))
  }

  /** The chunks of the first `n` requests, in request order. */
  function WrittenBefore(pages: seq<Page>, n: nat): (ws: seq<Written>)
    requires n <= |pages|
    ensures |ws| == n && forall k :: 0 <= k < n ==> ws[k] == WrittenAt(pages, k)
  {
    if n == 0 then [] else WrittenBefore(pages, n - 1) + [WrittenAt(pages, n - 1)]
  }

  /**
   * How many chunks the loop writes from request `k` on: none on an empty
   * answer; otherwise this page, and then the next requests only if it was
   * full.
   */
  function ChunksFrom(pages: seq<Page>, k: nat): (n: nat)
    ensures k + n <= |pages| || n == 0
    ensures forall i :: k <= i < k + n ==> pages[i] != []
    ensures forall i :: k <= i < k + n - 1 ==> |pages[i]| >= BatchSize
    ensures n == 0 <==> k >= |pages| || pages[k] == []
    ensures n > 0 && |pages[k + n - 1]| >= BatchSize ==> k + n >= |pages| || pages[k + n] == []
    decreases |pages| - k
  {
    if k >= |pages| || pages[k] == [] then 0
    else if |pages[k]| < BatchSize then 1
    else 1 + ChunksFrom(pages, k + 1)
  }

  /**
   * The `while True` loop of `01_crime_data_cleaning.py`: chunk `k` is
   * requested at offset `k * BatchSize`, cleaned and written to its own file;
   * the loop ends on an empty answer, or after writing a short one. After
   * the loop the script prints the dtypes of `df_chunk`, the last cleaned
   * chunk; when the very first answer is empty the loop never assigned it,
   * and that print raises a `NameError`.
   */
  method StreamChunks(pages: seq<Page>) returns (written: seq<Written>, lastColumns: Result<seq<string>>)
    ensures ChunksFrom(pages, 0) <= |pages| && written == WrittenBefore(pages, ChunksFrom(pages, 0))
    ensures lastColumns.Err? <==> ChunksFrom(pages, 0) == 0
    ensures lastColumns.Ok? ==> lastColumns.value == written[|written| - 1].chunk.columns
  {
    written := [];
    var last: Option<Chunk> := None;
    var offset: nat := 0;
    var chunkIndex: nat := 0;
    while chunkIndex < |pages|
      invariant chunkIndex <= |pages|
      invariant written == WrittenBefore(pages, chunkIndex) && offset == chunkIndex * BatchSize
      invariant ChunksFrom(pages, 0) == chunkIndex + ChunksFrom(pages, chunkIndex)
      invariant last.None? <==> chunkIndex == 0
      invariant last.Some? ==> last.value == written[chunkIndex - 1].chunk
      decreases |pages| - chunkIndex
    {
      var results := pages[chunkIndex];
      StreamStep(pages, chunkIndex);
      if results == [] {
        break;
      }
      var chunk := CleanChunk(results);
      var w := Written(ChunkPath(chunkIndex), offset, chunk);
      assert w == WrittenAt(pages, chunkIndex);
      written := written + [w];
      last := Some(chunk);
      offset := offset + BatchSize;
      chunkIndex := chunkIndex + 1;
      if |results| < BatchSize {
        break;
      }
    }
    lastColumns := if last.Some? then Ok(last.value.columns) else Err("NameError: name 'df_chunk' is not defined");
  }

  /** One request of the stream: an empty answer writes nothing, a short one is the last chunk, a full one goes on. */
  lemma StreamStep(pages: seq<Page>, k: nat)
    requires k < |pages|
    ensures pages[k] == [] ==> ChunksFrom(pages, k) == 0
    ensures pages[k] != [] && |pages[k]| < BatchSize ==> ChunksFrom(pages, k) == 1
    ensures |pages[k]| >= BatchSize ==> ChunksFrom(pages, k) == 1 + ChunksFrom(pages, k + 1)
  {
  }

  /** A page shorter than the batch after full ones is written and ends the stream. */
  lemma {:induction false} ShortPageEndsStream(pages: seq<Page>, j: nat, k: nat)
    requires j <= k < |pages| && forall i :: j <= i < k ==> |pages[i]| >= BatchSize
    requires 0 < |pages[k]| < BatchSize
    ensures ChunksFrom(pages, j) == k + 1 - j
    decreases k - j
  {
    if j < k {
      ShortPageEndsStream(pages, j + 1, k);
    }
  }

  // ---------------------------------------------------------------------------
  // `crime_data_cleaning.py`

  /**
   * The loop of `crime_data_cleaning.py` as written: it stops at an empty or
   * short answer and extends `all_data` only with full pages, so the short
   * final page is never kept.
   */
  function CollectFullPages(pages: seq<Page>, k: nat): (all: seq<Record>)
    ensures |all| >= BatchSize * FullPages(pages, k)
    ensures all == [] <==> FullPages(pages, k) == 0
    decreases |pages| - k
  {
    if k >= |pages| || pages[k] == [] || |pages[k]| < BatchSize then []
    else pages[k] + CollectFullPages(pages, k + 1)
  }

  /** `all_data` as written is the full pages before the first empty or short answer, extended one after another. */
  lemma {:induction false} CollectFullPagesConcat(pages: seq<Page>, k: nat)
    requires k <= |pages|
    ensures CollectFullPages(pages, k) == Concat(pages[k..k + FullPages(pages, k)])
    decreases |pages| - k
  {
    var n := FullPages(pages, k);
    if k < |pages| && pages[k] != [] && |pages[k]| >= BatchSize {
      CollectFullPagesConcat(pages, k + 1);
      assert pages[k..k + n][0] == pages[k] && pages[k..k + n][1..] == pages[k + 1..k + n];
    } else {
      assert pages[k..k + n] == [];
    }
  }

  /** `all_data` after the loop, with `offset` advanced once per full page. */
  method CollectCrimes(pages: seq<Page>) returns (allData: seq<Record>, offset: nat)
    ensures allData == CollectFullPages(pages, 0)
    ensures offset == BatchSize * FullPages(pages, 0)
  {
    allData := [];
    offset := 0;
    var k: nat := 0;
    while k < |pages|
      invariant allData + CollectFullPages(pages, k) == CollectFullPages(pages, 0)
      invariant offset + BatchSize * FullPages(pages, k) == BatchSize * FullPages(pages, 0)
      decreases |pages| - k
    {
      var results := pages[k];
      if results == [] || |results| < BatchSize {
        break;
      }
      allData := allData + results;
      offset := offset + BatchSize;
      k := k + 1;
    }
  }

  /** The number of full pages before the first empty or short answer. */
  function FullPages(pages: seq<Page>, k: nat): (n: nat)
    ensures n > 0 ==> k + n <= |pages| && forall i :: k <= i < k + n ==> |pages[i]| >= BatchSize
    ensures k + n < |pages| ==> |pages[k + n]| < BatchSize
    decreases |pages| - k
  {
    if k >= |pages| || pages[k] == [] || |pages[k]| < BatchSize then 0 else 1 + FullPages(pages, k + 1)
  }

  /** With the portal answering exactly `BatchSize` records per full page, `all_data` has `BatchSize` records per full page. */
  lemma {:induction false} CollectFullPagesSize(pages: seq<Page>, k: nat)
    requires forall i :: 0 <= i < |pages| ==> |pages[i]| <= BatchSize
    ensures |CollectFullPages(pages, k)| == BatchSize * FullPages(pages, k)
    decreases |pages| - k
  {
    if k < |pages| && pages[k] != [] && |pages[k]| >= BatchSize {
      CollectFullPagesSize(pages, k + 1);
    }
  }

  /**
   * The records of one short page are lost: the script prints that it
   * retrieved them, and `all_data` stays empty.
   */
  lemma ShortPageLost(r: Record)
    ensures CollectFullPages([[r]], 0) == []
  {
  }

  /** The loop as evidently intended: the short final page is kept too. */
  function CollectAllPages(pages: seq<Page>, k: nat): (all: seq<Record>)
    ensures |all| >= BatchSize * FullPages(pages, k)
    ensures all == [] <==> k >= |pages| || pages[k] == []
    decreases |pages| - k
  {
    if k >= |pages| || pages[k] == [] then []
    else if |pages[k]| < BatchSize then pages[k]
    else pages[k] + CollectAllPages(pages, k + 1)
  }

  /** The records of the pages, page after page. */
  function Concat(ps: seq<Page>): (r: seq<Record>)
    ensures forall x :: x in r <==> exists i :: 0 <= i < |ps| && x in ps[i]
  {
    if ps == [] then []
    else
      assert forall i :: 0 <= i < |ps| - 1 ==> ps[1..][i] == ps[i + 1];
      ps[0] + Concat(ps[1..])
  }

  /**
   * The corrected download holds exactly the records of the pages the
   * streaming script writes as chunks, in the same order.
   */
  lemma {:induction false} CollectAllPagesMatchesStream(pages: seq<Page>, k: nat)
    requires k <= |pages|
    ensures CollectAllPages(pages, k) == Concat(pages[k..k + ChunksFrom(pages, k)])
    decreases |pages| - k
  {
    var n := ChunksFrom(pages, k);
    if k < |pages| && pages[k] != [] && |pages[k]| >= BatchSize {
      CollectAllPagesMatchesStream(pages, k + 1);
      assert pages[k..k + n][1..] == pages[k + 1..k + n];
    } else if k < |pages| && pages[k] != [] {
      assert pages[k..k + n] == [pages[k]];
      assert Concat([pages[k]]) == pages[k] + Concat([]);
    } else {
      assert pages[k..k + n] == [];
    }
  }

  /** A short answer after full ones: the corrected loop keeps its records, the loop as written drops them. */
  lemma CorrectedKeepsShortPage(pages: seq<Page>, k: nat)
    requires k < |pages| && forall i :: 0 <= i < k ==> |pages[i]| >= BatchSize
    requires 0 < |pages[k]| < BatchSize
    ensures CollectAllPages(pages, 0) == CollectFullPages(pages, 0) + pages[k]
  {
    CorrectedKeepsShortPageFrom(pages, 0, k);
  }

  lemma {:induction false} CorrectedKeepsShortPageFrom(pages: seq<Page>, j: nat, k: nat)
    requires j <= k < |pages| && forall i :: j <= i < k ==> |pages[i]| >= BatchSize
    requires 0 < |pages[k]| < BatchSize
    ensures CollectAllPages(pages, j) == CollectFullPages(pages, j) + pages[k]
    decreases k - j
  {
    if j < k {
      CorrectedKeepsShortPageFrom(pages, j + 1, k);
      var full := CollectFullPages(pages, j + 1);
      assert pages[j] != [] && |pages[j]| >= BatchSize;
      assert CollectAllPages(pages, j) == pages[j] + CollectAllPages(pages, j + 1);
      assert CollectFullPages(pages, j) == pages[j] + full;
      assert pages[j] + (full + pages[k]) == (pages[j] + full) + pages[k];
    }
  }

  /** The `case_number` cell of a record, missing where the record lacks it. */
  function CaseNumber(r: Record): Option<string> { Field(r, "case_number") }

  /**
   * `others.case_number`, one cell per record: present exactly where the
   * record has the field, and as a set the case numbers of the records.
   */
  function CaseNumbers(t: seq<Record>): (ns: seq<Option<string>>)
    ensures |ns| == |t|
    ensures forall i :: 0 <= i < |t| ==> (ns[i].Some? <==> "case_number" in t[i])
    ensures forall i :: 0 <= i < |t| && ns[i].Some? ==> ns[i].value == t[i]["case_number"]
    ensures forall x :: x in ns <==> exists y :: y in t && CaseNumber(y) == x
  {
    var ns := seq(|t|, i requires 0 <= i < |t| => CaseNumber(t[i]));
    assert forall x :: x in ns <==> exists y :: y in t && CaseNumber(y) == x by {
      forall x ensures x in ns <==> exists y :: y in t && CaseNumber(y) == x {
        if x in ns {
          var i :| 0 <= i < |ns| && ns[i] == x;
          assert t[i] in t;
        }
        if y :| y in t && CaseNumber(y) == x {
          var i :| 0 <= i < |t| && t[i] == y;
          assert ns[i] == x;
        }
      }
    }
    ns
  }

  function CaseIn(others: seq<Record>): Record -> bool {
    (r: Record) => CaseNumber(r) in CaseNumbers(others)
  }

  /**
   * `t[t.case_number.isin(others.case_number)]`: missing case numbers match
   * each other; either table without a `case_number` column (an empty table
   * included) raises `KeyError`.
   */
  function MatchingCases(t: seq<Record>, others: seq<Record>): (r: Result<seq<Record>>)
    ensures r.Ok? <==> HasColumn(t, "case_number") && HasColumn(others, "case_number")
    ensures r.Ok? ==> Subsequence(r.value, t)
    ensures r.Ok? ==> forall x :: x in r.value <==> x in t && exists y :: y in others && CaseNumber(y) == CaseNumber(x)
  {
    if !HasColumn(t, "case_number") || !HasColumn(others, "case_number") then Err("KeyError: 'case_number'")
    else
      FilterIsSubsequence(t, CaseIn(others));
      Ok(Filter(t, CaseIn(others)))
  }

  /** `matching_arrests` and `matching_crime` are the two directions of the same case-number test. */
  lemma MatchingSymmetric(crimes: seq<Record>, arrests: seq<Record>, x: Record, y: Record)
    requires MatchingCases(arrests, crimes).Ok? && x in arrests && y in crimes && CaseNumber(x) == CaseNumber(y)
    ensures x in MatchingCases(arrests, crimes).value
    ensures y in MatchingCases(crimes, arrests).value
  {
  }

  /**
   * Lines 55-71 with the corrected download: the arrests whose case number
   * is among the crimes', and the crimes whose case number is among the
   * arrests'.
   */
  function MatchedCases(crimePages: seq<Page>, arrests: seq<Record>): (r: Result<(seq<Record>, seq<Record>)>)
    ensures r.Ok? <==> HasColumn(arrests, "case_number") && HasColumn(CollectAllPages(crimePages, 0), "case_number")
    ensures r.Ok? ==> Ok(r.value.0) == MatchingCases(arrests, CollectAllPages(crimePages, 0))
    ensures r.Ok? ==> Ok(r.value.1) == MatchingCases(CollectAllPages(crimePages, 0), arrests)
  {
    var crimes := CollectAllPages(crimePages, 0);
    match MatchingCases(arrests, crimes)
    case Err(e) => Err(e)
    case Ok(matchingArrests) =>
      match MatchingCases(crimes, arrests)
      case Err(e) => Err(e)
      case Ok(matchingCrime) => Ok((matchingArrests, matchingCrime))
  }

  /** A crime of the short final page that has an arrest is among the matching crimes. */
  lemma ShortPageCrimeMatched(crimePages: seq<Page>, k: nat, arrests: seq<Record>, x: Record, y: Record)
    requires k < |crimePages| && forall i :: 0 <= i < k ==> |crimePages[i]| >= BatchSize
    requires 0 < |crimePages[k]| < BatchSize
    requires MatchedCases(crimePages, arrests).Ok?
    requires x in crimePages[k] && y in arrests && CaseNumber(y) == CaseNumber(x)
    ensures x in MatchedCases(crimePages, arrests).value.1
  {
    CorrectedKeepsShortPage(crimePages, k);
    assert x in CollectAllPages(crimePages, 0);
  }
}
