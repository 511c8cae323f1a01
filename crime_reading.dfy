/**
 * `crime_data_reading.py`: every parquet chunk written by the download is
 * read with the wanted columns it has, its rows at a school are kept, the
 * chunks that keep any row are collected in file order and concatenated.
 */
module CrimeReading {
  import opened Wrappers
  import opened Text
  import opened Seqs

  /** `usecols`. */
  const UseCols: seq<string> := ["id", "date", "primary_type", "location_description", "ward", "latitude", "longitude"]

  const LocationColumn := "location_description"

  const TypeColumn := "primary_type"

  lemma UseColsDistinct()
    ensures NoDuplicates(UseCols) && LocationColumn in UseCols && TypeColumn in UseCols
  {
    assert UseCols[3] == LocationColumn && UseCols[2] == TypeColumn;
  }

  /** A crime row by column name; a column the row lacks reads as NaN. */
  type Row = map<string, Option<string>>

  /** A chunk file as it is on disk: its columns and its rows. */
  datatype ChunkFile = ChunkFile(columns: seq<string>, rows: seq<Row>)

  /**
   * A frame in memory: its columns, and its rows as they are on disk. Only
   * the cells of the frame's columns are visible; that is how reading a
   * chunk with `columns=` is modelled.
   */
  datatype Table = Table(columns: seq<string>, rows: seq<Row>)

  function AvailableIn(available: seq<string>): string -> bool {
    c => c in available
  }

  /** `[c for c in usecols if c in available_cols]`. */
  function ReadColumns(available: seq<string>): (cols: seq<string>)
    ensures forall c :: c in cols <==> c in UseCols && c in available
    ensures Subsequence(cols, UseCols) && NoDuplicates(cols)
  {
    UseColsDistinct();
    FilterIsSubsequence(UseCols, AvailableIn(available));
    SubsequenceNoDuplicates(Filter(UseCols, AvailableIn(available)), UseCols);
    Filter(UseCols, AvailableIn(available))
  }

  /** `str.contains("School", case=False, na=False)` on one cell. */
  predicate MentionsSchool(v: Option<string>) {
    v.Some? && ContainsIgnoreCase(v.value, "School")
  }

  /** The row's `location_description` is present and mentions a school. */
  predicate AtSchool(r: Row) {
    LocationColumn in r && MentionsSchool(r[LocationColumn])
  }

  function IsAtSchool(r: Row): bool { AtSchool(r) }

  /** `df.loc[mask]`: the chunk's rows at a school, in order. */
  function SchoolRows(f: ChunkFile): (kept: seq<Row>)
    ensures forall r :: r in kept <==> r in f.rows && AtSchool(r)
    ensures Subsequence(kept, f.rows)
  {
    FilterIsSubsequence(f.rows, IsAtSchool);
    Filter(f.rows, IsAtSchool)
  }

  /**
   * Reading and filtering one chunk. `location_description` is one of the
   * wanted columns, so `df["location_description"]` raises exactly when the
   * chunk does not have it.
   */
  function ReadChunk(f: ChunkFile): (r: Result<Table>)
    ensures r.Ok? <==> LocationColumn in f.columns
    ensures r.Ok? ==> r.value == Table(ReadColumns(f.columns), SchoolRows(f))
  {
    if LocationColumn !in f.columns then Err("KeyError: 'location_description'")
    else Ok(Table(ReadColumns(f.columns), SchoolRows(f)))
  }

  /** A chunk that reads has `location_description` among the columns read. */
  lemma ReadChunkHasLocation(f: ChunkFile)
    requires ReadChunk(f).Ok?
    ensures LocationColumn in ReadChunk(f).value.columns
  {
    assert LocationColumn in UseCols;
  }

  /** `filtered_chunks` after the files `files`, in order; the first raising file ends the script. */
  function Kept(files: seq<ChunkFile>): (r: Result<seq<Table>>)
    ensures r.Ok? <==> forall k :: 0 <= k < |files| ==> LocationColumn in files[k].columns
  {
    if files == [] then Ok([])
    else
      var prev := Kept(files[..|files| - 1]);
      assert forall k :: 0 <= k < |files| - 1 ==> files[..|files| - 1][k] == files[k];
      match prev
      case Err(e) => Err(e)
      case Ok(chunks) =>
        match ReadChunk(files[|files| - 1])
        case Err(e) => Err(e)
        case Ok(t) => if t.rows == [] then Ok(chunks) else Ok(chunks + [t])
  }

  /** Once a file raises, the files after it are never read. */
  lemma {:induction false} KeptStopsAtError(files: seq<ChunkFile>, i: nat)
    requires i <= |files| && Kept(files[..i]).Err?
    ensures Kept(files) == Kept(files[..i])
  {
    if i < |files| {
      assert files[..|files| - 1][..i] == files[..i];
      KeptStopsAtError(files[..|files| - 1], i);
    } else {
      assert files[..i] == files;
    }
  }

  /** The loop of steps 3 and 4: each chunk is read, filtered, and collected when rows remain. */
  method CollectSchoolChunks(files: seq<ChunkFile>) returns (filtered: Result<seq<Table>>)
    ensures filtered == Kept(files)
  {
    var chunks: seq<Table> := [];
    for i := 0 to |files|
      invariant Kept(files[..i]) == Ok(chunks)
    {
      assert files[..i + 1][..i] == files[..i];
      var df := ReadChunk(files[i]);
      if df.Err? {
        KeptStopsAtError(files, i + 1);
        return Err(df.error);
      }
      if df.value.rows != [] {
        chunks := chunks + [df.value];
      }
    }
    assert files[..|files|] == files;
    return Ok(chunks);
  }

  function RowsOf(chunks: seq<Table>): seq<Row> {
    if chunks == [] then [] else RowsOf(chunks[..|chunks| - 1]) + chunks[|chunks| - 1].rows
  }

  function ColumnsOf(chunks: seq<Table>): seq<string> {
    if chunks == [] then [] else ColumnsOf(chunks[..|chunks| - 1]) + chunks[|chunks| - 1].columns
  }

  /** Step 5: `pd.concat(filtered_chunks, ignore_index=True)`, or an empty frame with the `usecols` columns. */
  function CrimeAtSchools(chunks: seq<Table>): (t: Table)
    ensures NoDuplicates(t.columns)
    ensures chunks == [] ==> t.columns == UseCols && t.rows == []
    ensures chunks != [] ==> forall c :: c in t.columns <==> exists k :: 0 <= k < |chunks| && c in chunks[k].columns
  {
    if chunks == [] then
      UseColsDistinct();
      Table(UseCols, [])
    else
      ColumnsOfMembers(chunks);
      Table(Distinct(ColumnsOf(chunks)), RowsOf(chunks))
  }

  lemma {:induction false} ColumnsOfMembers(chunks: seq<Table>)
    ensures forall c :: c in ColumnsOf(chunks) <==> exists k :: 0 <= k < |chunks| && c in chunks[k].columns
  {
    if chunks != [] {
      var init := chunks[..|chunks| - 1];
      ColumnsOfMembers(init);
      assert forall k :: 0 <= k < |init| ==> init[k] == chunks[k];
    }
  }

  /**
   * The whole script on the chunk files found, up to the saved frame.
   * `usecols` is first assigned inside the loop, so with no chunk file at
   * all the fallback frame of step 5 raises `NameError` instead of being
   * built; and the `primary_type` counts of step 6 raise `KeyError` when no
   * collected chunk has that column.
   */
  function ReadCrimesAtSchools(files: seq<ChunkFile>): (r: Result<Table>)
    ensures r.Ok? <==> && files != []
                       && (forall k :: 0 <= k < |files| ==> LocationColumn in files[k].columns)
                       && (Kept(files).value == [] ||
                           exists k :: 0 <= k < |Kept(files).value| && TypeColumn in Kept(files).value[k].columns)
    ensures r.Ok? ==> r.value == CrimeAtSchools(Kept(files).value)
  {
    if files == [] then Err("NameError: name 'usecols' is not defined")
    else
      match Kept(files)
      case Err(e) => Err(e)
      case Ok(chunks) =>
        var t := CrimeAtSchools(chunks);
        if TypeColumn !in t.columns then Err("KeyError: 'primary_type'") else Ok(t)
  }

  /** The school rows of every file, empty ones included, in file order. */
  function AllSchoolRows(files: seq<ChunkFile>): seq<Row> {
    if files == [] then [] else AllSchoolRows(files[..|files| - 1]) + SchoolRows(files[|files| - 1])
  }

  /** Leaving out the chunks without school rows loses no row and reorders none. */
  lemma {:induction false} KeptRows(files: seq<ChunkFile>)
    requires Kept(files).Ok?
    ensures RowsOf(Kept(files).value) == AllSchoolRows(files)
  {
    if files != [] {
      var init := files[..|files| - 1];
      KeptRows(init);
      var chunks := Kept(init).value;
      var t := ReadChunk(files[|files| - 1]).value;
      if t.rows != [] {
        assert (chunks + [t])[..|chunks + [t]| - 1] == chunks;
      }
    }
  }

  lemma {:induction false} AllSchoolRowsMembers(files: seq<ChunkFile>, r: Row)
    ensures r in AllSchoolRows(files) <==> exists k :: 0 <= k < |files| && r in SchoolRows(files[k])
  {
    if files != [] {
      var init := files[..|files| - 1];
      var last := |files| - 1;
      AllSchoolRowsMembers(init, r);
      assert AllSchoolRows(files) == AllSchoolRows(init) + SchoolRows(files[last]);
      if r in AllSchoolRows(init) {
        var k :| 0 <= k < |init| && r in SchoolRows(init[k]);
        assert init[k] == files[k];
      } else if r in SchoolRows(files[last]) {
      } else {
        forall k | 0 <= k < |files| ensures r !in SchoolRows(files[k]) {
          if k < last { assert init[k] == files[k]; }
        }
      }
    }
  }

  /**
   * The result holds exactly the school rows of all chunks: a row is in it
   * iff some chunk has it and its `location_description` mentions a school.
   */
  lemma ResultRows(files: seq<ChunkFile>, r: Row)
    requires ReadCrimesAtSchools(files).Ok?
    ensures r in ReadCrimesAtSchools(files).value.rows <==>
              AtSchool(r) && exists k :: 0 <= k < |files| && r in files[k].rows
  {
    var chunks := Kept(files).value;
    KeptRows(files);
    AllSchoolRowsMembers(files, r);
    assert CrimeAtSchools(chunks).rows == RowsOf(chunks);
  }

  lemma {:induction false} ColumnsOfWanted(files: seq<ChunkFile>)
    requires Kept(files).Ok?
    ensures forall c :: c in ColumnsOf(Kept(files).value) ==> c in UseCols
    ensures Kept(files).value != [] ==> LocationColumn in ColumnsOf(Kept(files).value)
  {
    if files != [] {
      var init := files[..|files| - 1];
      ColumnsOfWanted(init);
      var chunks := Kept(init).value;
      var t := ReadChunk(files[|files| - 1]).value;
      if t.rows != [] {
        assert (chunks + [t])[..|chunks + [t]| - 1] == chunks;
        assert ColumnsOf(chunks + [t]) == ColumnsOf(chunks) + t.columns;
        assert LocationColumn in UseCols;
      }
    }
  }

  /**
   * The result's columns are wanted columns, each once, always including
   * `location_description`; with no school row anywhere it is the empty
   * frame with exactly the `usecols` columns.
   */
  lemma ResultColumns(files: seq<ChunkFile>)
    requires ReadCrimesAtSchools(files).Ok?
    ensures var t := ReadCrimesAtSchools(files).value;
            && NoDuplicates(t.columns) && LocationColumn in t.columns
            && (forall c :: c in t.columns ==> c in UseCols)
            && (AllSchoolRows(files) == [] ==> t == Table(UseCols, []))
  {
    ColumnsOfWanted(files);
    KeptRows(files);
    var chunks := Kept(files).value;
    UseColsDistinct();
    if chunks != [] {
      var t := chunks[|chunks| - 1];
      assert t in chunks;
      assert RowsOf(chunks) == RowsOf(chunks[..|chunks| - 1]) + t.rows;
    }
  }
}
