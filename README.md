# Chicago school closures and crime: a verified model of the table logic

Crime_Estimation is a chain of pandas batch scripts about Chicago public
schools and crime. The scripts do the following:

- download the city's crime records page by page and store them in Parquet chunks;
- keep the crimes at schools;
- normalise the yearly attendance-boundary files;
- work out for each school and grade category the years it was open and the year it closed;
- reconcile those closures with two reference sources, using address and name matches;
- assign crimes to academic years and boundary years, and draw per-year maps;
- summarise the project's data files;
- back a small lookup dashboard.

This project models the table logic between the I/O, geometry and rendering
calls. Each table is a sequence of records whose cells are optional values.
Each script is one Dafny module, and near-copies of a script share a module.
A script that works by filter, merge and concat expressions becomes
datatypes, functions and lemmas. A loop that builds a list or updates a set
becomes a method with its loop invariants, proved against a function that
states what it computes. The in-place matcher of the welcoming-school script
is a class with the mutated table as a field.

The fuzzy scorer of `fuzzywuzzy` is a function parameter of the model. It
returns a candidate with a score between 0 and 100, or nothing. The portal
answers, the file contents, the file listings and the outcome of reading a
file are all inputs.

The modules and the scripts they model:

- `Wrappers`, `Text`, `Seqs`, `Ordering` in wrappers.dfy, text.dfy, seqs.dfy: results, text helpers (digits, case folding, padding), filters, de-duplication and the sort used for `sort_values`.
- `Fuzzy` in fuzzy.dfy: the `process.extractOne` interface and its threshold.
- `Schools`, `SchoolYears` in schools.dfy, school_years.dfy: the school shapes table; year codes and academic years.
- `BoundaryJoin` in boundary_join.dfy: code/03_yearly_school_data_join.py, code/yearly_school_data_join.py.
- `BoundaryMaps` in boundary_maps.dfy: code/05a_crime_boundary_map.py, code/05b_crime_boundary_map_test.py, code/crime_boundary_map_test.py.
- `OpeningMap` in opening_map.dfy: code/school_opening_map.py.
- `FinalizeClosures` in finalize.dfy: code/04a_finalize_closures.py.
- `FinalSchoolClosure` in final_closure.dfy: code/final_school_closure.py.
- `Welcoming` in welcoming.dfy: code/welcoming_school_additions.py.
- `NearestSchool` in nearest_school.dfy: code/crime_nearest_school.py.
- `CrimeFetch` in crime_fetch.dfy: code/01_crime_data_cleaning.py, code/crime_data_cleaning.py.
- `CrimeReading` in crime_reading.dfy: code/crime_data_reading.py.
- `DataReview` in data_review.dfy: code/data_review.py.
- `Dashboard` in dashboard.dfy: Dashboards/chicago_schools_dashboard.py.

## Model

| member | source | states |
|---|---|---|
| FinalizeClosures.NameToId | code/04a_finalize_closures.py:12 | a name maps to the ID at its last position among the zipped pairs (later pairs overwrite earlier ones, and `zip` stops at the shorter list); a name at no position maps to missing |
| FinalizeClosures.MatchId | code/04a_finalize_closures.py:10-16 | the score of the best candidate (or 0) is always kept; the name is kept iff the score reaches the threshold (a score equal to it is accepted), and an ID is present only then, looked up by that name |
| FinalizeClosures.FuzzyMatchIds | code/04a_finalize_closures.py:5-18 | one match row per raw name, in the same order, each as `MatchId` describes |
| FinalizeClosures.MatchedIdCountMonotone | code/04a_finalize_closures.py:10-16 | a higher threshold never gives more rows a matched ID |
| FinalizeClosures.AddressClosures | code/04a_finalize_closures.py:29-40 | address closures come only from matches scoring at least 90, at most one per matched ID, each with last open year 2012 and closure year 2013 |
| FinalizeClosures.AddressClosuresFirst | code/04a_finalize_closures.py:29-40 | each address closure is built from the first trusted review row of its matched ID, as `drop_duplicates` keeps the first |
| FinalizeClosures.AddressClosuresCover | code/04a_finalize_closures.py:29-32 | every trusted matched ID gets an address closure |
| FinalizeClosures.IdShapes | code/04a_finalize_closures.py:52-56 | the shapes kept have pairwise distinct IDs and all come from the shapes table |
| FinalizeClosures.IdShapesCover | code/04a_finalize_closures.py:52-56 | every `SCHOOL_ID` of the shapes keeps a row |
| FinalizeClosures.IdShapesFirst | code/04a_finalize_closures.py:52-56 | the row kept for an ID is the first shapes row with that ID, so its name is the one offered to the reference matching |
| FinalizeClosures.RefClosuresFrom | code/04a_finalize_closures.py:65-71 | every kept reference closure has an ID and satisfies `last_open_year = closure_year - 1` |
| FinalizeClosures.RefClosuresFromExact | code/04a_finalize_closures.py:65-71 | a reference row is kept iff its match has an ID, and every kept row comes from such a row |
| FinalizeClosures.RefClosures | code/04a_finalize_closures.py:57-71 | every reference closure has an ID and consistent years |
| FinalizeClosures.RefClosuresExact | code/04a_finalize_closures.py:57-71 | a reference row whose best shapes name scores at least 80 and maps to an ID yields the closure with that ID and its own name, grade and years |
| FinalizeClosures.RefClosuresSound | code/04a_finalize_closures.py:57-71 | every reference closure comes from a reference row whose best name scored at least 80, and carries that name's ID |
| FinalizeClosures.MergeOne | code/04a_finalize_closures.py:81-86 | a left merge gives a closure at least one row; a reference year comes from a reference row of the same ID; every reference row of that ID yields its own row with its year, and the closure gets as many rows as there are such reference rows; with none, exactly one row without a reference year |
| FinalizeClosures.ClosureReview | code/04a_finalize_closures.py:81-86 | every review row holds a computed closure, every computed closure has a review row, and each row's reference year is present iff a reference row of that ID exists; every pair of a computed closure and a reference row of its ID appears with that reference year, and the table has as many rows as the closures' merge counts add up to |
| FinalizeClosures.ClosureDiff | code/04a_finalize_closures.py:88-89 | a review row is in `closure_diff` iff a reference year exists and differs |
| FinalizeClosures.ClosureMatched | code/04a_finalize_closures.py:93-96 | a review row is in `closure_matched` iff the years agree or there is no reference year |
| FinalizeClosures.ReviewSplitPartition | code/04a_finalize_closures.py:88-96 | every review row falls into exactly one of the two outputs; as multisets they add up to the review |
| FinalizeClosures.AbsentFrom | code/04a_finalize_closures.py:43 | a row is kept iff its ID is not among the existing IDs; order is kept (the same filter is used at line 111) |
| FinalizeClosures.FinalTable | code/04a_finalize_closures.py:131-143 | the final table has at most one row per ID, is sorted by closure year, and holds only rows of `computed` and `to_add_ref` |
| FinalizeClosures.FinalTableEarliest | code/04a_finalize_closures.py:137-143 | the row kept for an ID has the smallest closure year among that ID's candidate rows |
| FinalizeClosures.FinalTableCovers | code/04a_finalize_closures.py:137-143 | every candidate ID has a row in the final table |
| FinalizeClosures.Finalize | code/04a_finalize_closures.py:110-135 | `to_add_addr` and `to_add_ref` hold only IDs absent from `computed`; the final table is built from `computed` and `to_add_ref` alone, so `to_add_addr` never reaches it |
| FinalizeClosures.FinalizeKeepsComputed | code/04a_finalize_closures.py:131-143 | every computed ID survives into the final table, and the closure-year arithmetic holds there whenever it holds for the computed rows |
| Schools.WithStartYears | code/school_opening_map.py:36-38 | every row gets `academic_year_start` from its year code; the cast succeeds iff every row's code converts, and then rows and order are kept |
| Fuzzy.BestOrBlank | code/school_opening_map.py:124-126 | the scorer's best candidate when it returns one, else `("", 0)` |
| Fuzzy.BestOrBlankIsChoice | code/school_opening_map.py:124-126 | with a scorer that returns one of its choices, the best name is a choice whenever there are choices, and `("", 0)` when there are none |
| OpeningMap.PairsColumn | code/school_opening_map.py:41-44 | a `(SCHOOL_ID, GRADE_CAT)` pair is listed iff some row has both keys with those values |
| OpeningMap.SchoolGradePairs | code/school_opening_map.py:50-60 | the pivot's groups: every pair of the input once, sorted by ID then grade |
| OpeningMap.RepresentativeRows | code/school_opening_map.py:63-67 | at most one row per `SCHOOL_ID`, each taken from the input |
| OpeningMap.FindById | code/school_opening_map.py:68 | the left merge finds a row with the ID iff one exists |
| OpeningMap.RepresentativeRowEarliest | code/school_opening_map.py:96-99 | the row kept for an ID has the smallest `file_year` among that ID's rows, missing codes last |
| OpeningMap.RepresentativeRowsCover | code/school_opening_map.py:96-99 | every ID of the input keeps a row |
| OpeningMap.RepresentativeNameEarliest | code/school_opening_map.py:96-100 | the merged name of an ID that occurs comes from a row of that ID with the smallest `file_year` |
| OpeningMap.RepresentativeNameMissing | code/school_opening_map.py:100 | the merged name of an ID no row has is missing |
| OpeningMap.OpenFlag | code/school_opening_map.py:47-57 | every `open_Y` cell is 0 or 1 |
| OpeningMap.OpenRowsFor | code/school_opening_map.py:50-68 | one wide row per group, in group order, with the group's keys, the representative name and the group's start years |
| OpeningMap.OpenWideRowPerPair | code/school_opening_map.py:41-80 | the wide table has exactly one row per `(SCHOOL_ID, GRADE_CAT)` pair of the input, sorted by ID then grade |
| OpeningMap.OpenFlagIff | code/school_opening_map.py:47-75 | `open_Y` of a row is 1 iff some input row has the row's pair and start year `Y` |
| OpeningMap.OpenWideRowsOpenSomeYear | code/school_opening_map.py:50-75 | every wide row is open in at least one of the year columns |
| OpeningMap.MaxStart | code/school_opening_map.py:90-94 | `last_open_year` is the largest start year among the group's rows, and some row has it |
| OpeningMap.IdGrades | code/school_opening_map.py:90-94 | the `(SCHOOL_ID, GRADE_CAT)` key of every closure, in order |
| OpeningMap.SomeKeys | code/school_opening_map.py:90-94 | the group keys as present key pairs, in order |
| OpeningMap.ClosuresFor | code/school_opening_map.py:90-101 | at most one closure per group; every closure listed has `closure_year` one more than `last_open_year`, before 2019, with ID and grade present |
| OpeningMap.ComputedClosures | code/school_opening_map.py:86-101 | at most one closure row per `(SCHOOL_ID, GRADE_CAT)` group; every row has `closure_year` equal to `last_open_year` plus one and before 2019, with ID and grade present |
| OpeningMap.ClosuresForMembers | code/school_opening_map.py:90-101 | a closure is listed iff it is the closure of one of the groups and its closure year is before 2019 |
| OpeningMap.ClosuresForOrder | code/school_opening_map.py:90-101 | the closure rows keep the order of their groups |
| OpeningMap.ComputedClosuresSound | code/school_opening_map.py:90-101 | every computed closure belongs to an input group, has `last_open_year` equal to the group's largest start year, `closure_year` one more, below 2019, and the ID's representative name |
| OpeningMap.ComputedClosuresComplete | code/school_opening_map.py:90-101 | every group whose closure year is before 2019 has its closure row |
| OpeningMap.ComputedClosuresUnique | code/school_opening_map.py:90-101 | at most one closure row per `(SCHOOL_ID, GRADE_CAT)` |
| OpeningMap.OpeningTables | code/school_opening_map.py:36-101 | both tables are produced iff every year code converts |
| OpeningMap.ColumnText | code/school_opening_map.py:118 | a column as text has one cell per row: the row's cell, or "nan" where the cell is missing or the row lacks the column |
| OpeningMap.NameColumn | code/school_opening_map.py:117 | "School" when present, else the first column; raises only on a table with no columns |
| OpeningMap.AddressColumn | code/school_opening_map.py:237-240 | the first column whose lower-cased name contains "addr"; a `KeyError` iff there is none |
| OpeningMap.ReferenceNames | code/school_opening_map.py:121 | the computed closures' present names, each once |
| OpeningMap.PresentNames | code/school_opening_map.py:121 | a name is listed iff some closure has it |
| OpeningMap.MatchNames | code/school_opening_map.py:124-129 | one match per raw name, in order, carrying that raw name and the best candidate with its score, or `("", 0)` when the scorer gives none |
| OpeningMap.MatchNamesFromCandidates | code/school_opening_map.py:124-126 | with a scorer that returns one of its choices, every matched name is a reference name; with no reference names every row is `("", 0)` |
| OpeningMap.ReviewRows | code/school_opening_map.py:146 | the rows to review are exactly those scoring below 100, order kept |
| OpeningMap.NameReview | code/school_opening_map.py:114-129 | the name review fails iff the raw table has no column (an `IndexError`) or no row (a `ValueError`: the empty frame of matches has no columns to assign); otherwise it has one row per raw row, and row `i` carries raw row `i`'s name cell as text with its best reference name and score |
| OpeningMap.AddressMap | code/school_opening_map.py:254-264 | one shapes row per address, all with an address, taken from the shapes table |
| OpeningMap.AddressCandidates | code/school_opening_map.py:233 | the candidates are exactly the addresses present in the shapes table |
| OpeningMap.PresentAddresses | code/school_opening_map.py:233 | an address is listed iff some shapes row has it |
| OpeningMap.FindByAddress | code/school_opening_map.py:265 | the merge finds a row with the address iff one exists |
| OpeningMap.MatchAddress | code/school_opening_map.py:244-265 | one address review row: the raw name and address, the best shapes address with its score, and the ID, name and grade of the `addr_map` row with that address, all missing when the merge finds none |
| OpeningMap.AddressReview | code/school_opening_map.py:236-276 | a `KeyError` iff no column name contains "addr", and a `ValueError` iff the table has no row; otherwise one review row per raw row, row `i` being the address match of raw row `i`'s name and address cells |
| OpeningMap.ClosureListReviews | code/school_opening_map.py:113-280 | the name review, the top-3 expansion and the address review all go through iff the name review does, some row scores below 100 (otherwise unpacking `zip(*top3[...])` raises `ValueError`), at least three shapes rows have both a name and an ID (otherwise the three-column candidate frame raises `ValueError`), and the address review does; the results are then those of the two reviews |
| OpeningMap.AddressReviewFindsShape | code/school_opening_map.py:244-265 | with a scorer that returns one of its choices over a table that has addresses, the matched ID, name and grade are those of the first shapes row with the matched address |
| OpeningMap.FindByAddressIsFirst | code/school_opening_map.py:254-265 | an address that some shapes row has is found, and the row found is the first shapes row with that address |
| FinalSchoolClosure.AddressUnique | code/final_school_closure.py:11-20 | the rows kept all have a matched ID and come from the review, one row per ID, whatever their score |
| FinalSchoolClosure.AddressUniqueCovers | code/final_school_closure.py:11-14 | every matched ID of the review keeps a row, so no score threshold applies |
| FinalSchoolClosure.NewAddressRows | code/final_school_closure.py:29 | a unique address row is new iff its ID is not in `closure_df` |
| FinalSchoolClosure.AppendAddressClosures | code/final_school_closure.py:33-44 | with nothing new the closure list is unchanged; otherwise the existing rows stay first and in order, followed by one row per new ID with a present ID absent from the list, last open year 2012 and closure year 2013, no ID twice |
| FinalSchoolClosure.Closures2013 | code/final_school_closure.py:35-38 | one closure per new row, in order, keeping its matched ID, name and grade; every one was last open in 2012 and closed in 2013, so its years are consistent |
| FinalSchoolClosure.AppendCoversMatchedIds | code/final_school_closure.py:11-44 | after the append, every matched ID of the address review is in the closure list |
| FinalSchoolClosure.NamedShapes | code/final_school_closure.py:58-63 | the (name, ID) pairs are distinct and are exactly those of the shapes rows that have a name |
| FinalSchoolClosure.NamePairs | code/final_school_closure.py:58-61 | the pairs are exactly those of the rows with a name |
| FinalSchoolClosure.NameToId | code/final_school_closure.py:64 | a name listed more than once maps to the ID of its last pair; a name no pair carries maps to missing |
| FinalSchoolClosure.MatchReference | code/final_school_closure.py:67-72 | an empty reference list raises the `ValueError` of the two-column assignment; otherwise each reference row gets its best shapes name and score (or `("", 0)`) and the ID that name maps to, with no threshold |
| FinalSchoolClosure.MatchedIds | code/final_school_closure.py:76 | an ID is listed iff some reference row matched it |
| FinalSchoolClosure.ChecksFor | code/final_school_closure.py:80-85 | a closure row gives one row per reference row matched to its ID, in reference order, each carrying that reference row's year, and nothing else |
| FinalSchoolClosure.ClosureRef | code/final_school_closure.py:74-85 | `closure_ref_df` holds only closure rows whose ID was matched from some reference name, each paired with exactly the years of the reference rows matched to that ID |
| FinalSchoolClosure.ClosureRefAppend | code/final_school_closure.py:74-85 | the filter and the left merge work row by row: the rows of `a + b` are those of `a` followed by those of `b` |
| FinalSchoolClosure.ClosureRefOne | code/final_school_closure.py:74-85 | a closure row whose ID no reference name matched gives no row; otherwise it gives exactly its `ChecksFor` rows, one per matched reference row, in reference order |
| FinalSchoolClosure.ClosureRefCovers | code/final_school_closure.py:74-77 | every closure row whose ID was matched from a reference name is in `closure_ref_df` |
| FinalSchoolClosure.ClosureErr | code/final_school_closure.py:88-90 | `closure_err_df` is exactly the rows whose closure year and reference year differ, order kept |
| Welcoming.WaveShapes | code/welcoming_school_additions.py:16-20 | candidate shapes are exactly the rows with `file_year` "1213" or "1314", order kept |
| Welcoming.ShapeNames | code/welcoming_school_additions.py:40 | one candidate per shapes row, in order: a present `SCHOOL_NM` as itself, a missing one as the text "nan" |
| Welcoming.FirstNamed | code/welcoming_school_additions.py:55 | the index of the first shapes row bearing the name; missing iff no row bears it, which is where `iloc[0]` raises |
| Welcoming.MatchedRow | code/welcoming_school_additions.py:48-57 | a matched row has its best name and score written whatever the score; `SCHOOL_ID` and `GRADE_CAT` stay missing below the threshold and are copied from the first shapes row with that name at or above it; no other column changes |
| Welcoming.WellBehavedCompletes | code/welcoming_school_additions.py:50-55 | a scorer that returns one of its choices, over shapes that all have names, never makes the lookup raise |
| Welcoming.Resets | code/welcoming_school_additions.py:43-46 | every row has `matched_name` None, `match_score` 0 and missing `SCHOOL_ID` and `GRADE_CAT`, while its school name and every other column keep their values |
| Welcoming.RawClosureTable.constructor | code/welcoming_school_additions.py:13-14 | the table holds the raw rows it was given |
| Welcoming.RawClosureTable.MatchSchoolNames | code/welcoming_school_additions.py:32-58 | updates the raw table in place: the row count is kept; it succeeds iff no row's lookup raises, and then every row is its matched form; on the first raising row, the earlier rows are matched, that row has only its name and score, and the later rows are only reset |
| Welcoming.Missing | code/welcoming_school_additions.py:65 | a raw row is missing iff its ID is missing or not in the closure list, order kept |
| Welcoming.Updated | code/welcoming_school_additions.py:71-77 | the existing closure rows stay first and unchanged, followed by one row per missing raw row, in raw order, carrying that row's ID, name and grade with years 2013 and 2014 and an ID that is missing or new |
| Welcoming.UpdatedAddsEveryMissing | code/welcoming_school_additions.py:65-77 | every missing raw row has its 2014 closure among the appended rows |
| Welcoming.AddWelcomingClosures | code/welcoming_school_additions.py:61-77 | the script succeeds iff no matched name fails its lookup among the candidate shapes, and then yields the closure list with the missing matched rows appended |
| BoundaryJoin.SelectFiles | code/03_yearly_school_data_join.py:31-38 | a path is selected iff it is the folder entry of a `.csv` whose name contains "Attendance" or "Boundaries" and neither "network" nor "charter" in any case; each path once; the same in code/yearly_school_data_join.py:17-28 |
| BoundaryJoin.SelectedBasename | code/03_yearly_school_data_join.py:38 | the exclusion tests the basename of a selected path, which is the entry's own name; the same in code/yearly_school_data_join.py:28 |
| BoundaryJoin.Rename | code/03_yearly_school_data_join.py:70-80 | renaming keeps the number of columns, replaces exactly the mapped names and passes the others through; the same in code/yearly_school_data_join.py:63-73 |
| BoundaryJoin.RenameIdempotent | code/03_yearly_school_data_join.py:70-80 | no target name is a source key, so renaming twice equals renaming once; the same in code/yearly_school_data_join.py:63-73 |
| BoundaryJoin.FirstWhere | code/03_yearly_school_data_join.py:82-87 | `re.search` finds the leftmost position where the pattern starts, or none |
| BoundaryJoin.FileYear | code/03_yearly_school_data_join.py:81-91 | a year code, when found, is four digits; the same in code/yearly_school_data_join.py:75-88 |
| BoundaryJoin.FileYearCases | code/03_yearly_school_data_join.py:82-91 | the code is the four digits after the leftmost "SY" + 4 digits; else the leftmost run of four digits; else missing; the same in code/yearly_school_data_join.py:78-88 |
| BoundaryJoin.FileYearPrefersSchoolYear | code/03_yearly_school_data_join.py:82-86 | an example of the rule `FileYearCases` states, on one name: a code after "SY" wins over an earlier run of four digits; the same in code/yearly_school_data_join.py:78-81 |
| BoundaryJoin.FileYearNone | code/03_yearly_school_data_join.py:87-91 | an example of the last case of `FileYearCases`, on one name: a name without four digits in a row gets no year code; the same in code/yearly_school_data_join.py:84-88 |
| BoundaryJoin.LoadedFrames | code/03_yearly_school_data_join.py:66-94 | at most one frame per file |
| BoundaryJoin.LoadedFramesAppend | code/03_yearly_school_data_join.py:66-94 | the frames of two runs of files are those of each run, in order |
| BoundaryJoin.LoadedFramesSkipsFailure | code/03_yearly_school_data_join.py:93-94 | a file that raises contributes nothing and the files after it are still processed; the same in code/yearly_school_data_join.py:92-93 |
| BoundaryJoin.LoadedFramesComplete | code/03_yearly_school_data_join.py:66-92 | every readable file contributes its renamed frame with its year code; the same in code/yearly_school_data_join.py:57-90 |
| BoundaryJoin.LoadBoundaryFiles | code/03_yearly_school_data_join.py:66-94 | the file loop ends with exactly the frames of the readable files, in file order; the same in code/yearly_school_data_join.py:57-93 |
| BoundaryJoin.CellOf | code/03_yearly_school_data_join.py:96 | a column the frame lacks gives a missing cell; otherwise the cell is the row's value under the first column of that name |
| BoundaryJoin.ProjectRow | code/03_yearly_school_data_join.py:96 | seven cells in the fixed column order: each of the first six is the row's value under the first frame column of that name, or missing where the frame lacks it; `file_year` is the file's code |
| BoundaryJoin.ProjectFrames | code/03_yearly_school_data_join.py:96 | every output row has the seven columns |
| BoundaryJoin.ProjectFramesAppend | code/03_yearly_school_data_join.py:96 | the concatenation of `a + b` is the concatenation of `a` followed by that of `b` |
| BoundaryJoin.ProjectFramesOne | code/03_yearly_school_data_join.py:96 | one frame gives one projected row per row, in row order, each holding the frame's cells of the seven columns and the file's year code |
| BoundaryJoin.SchoolShapes | code/03_yearly_school_data_join.py:96 | for headers without a repeated column, the concatenation succeeds iff some file was read and each of the seven columns is in some frame, and then it is the projected rows of all frames in order; the same in code/yearly_school_data_join.py:96 |
| BoundaryJoin.GradeIds | code/03_yearly_school_data_join.py:126-131 | an ID is listed iff some row of the group has that grade and that non-missing ID |
| BoundaryJoin.GradeIdsOrder | code/03_yearly_school_data_join.py:127-129 | the selection keeps row order: an ID listed before another is given by a row of the group no later than the first row that gives the other |
| BoundaryJoin.GradeListOrder | code/03_yearly_school_data_join.py:127-129 | after `.unique()`, the IDs of a grade are in the order the group's rows first give them |
| Seqs.DistinctFirstAppearance | code/03_yearly_school_data_join.py:127 | `unique()` keeps first-appearance order: each value it lists occurs at some position before any occurrence of the values listed after it |
| Seqs.FilterMultiset | Dashboards/chicago_schools_dashboard.py:27 | a boolean-mask selection keeps every copy of a selected value and no copy of the others |
| BoundaryJoin.Keys | code/03_yearly_school_data_join.py:133-137 | a key is listed iff some row has all three group keys with those values |
| BoundaryJoin.CollectLists | code/03_yearly_school_data_join.py:126-131 | each of the ES, MS and HS lists holds every non-missing ID of its grade in the group exactly once, in the order the group's rows first give them; other grades contribute nothing; the same in code/yearly_school_data_join.py:148-156 |
| BoundaryJoin.CrimeWithGrades | code/03_yearly_school_data_join.py:133-140 | one row per `(id, date, primary_type)` group that occurs, each holding that group's grade lists, ordered and de-duplicated as `CollectLists` states; the same in code/yearly_school_data_join.py:158-166 |
| BoundaryJoin.CollectAllKeys | code/03_yearly_school_data_join.py:133-140 | distinct keys give distinct group rows, each collected by its own key |
| BoundaryJoin.CollectAllCovers | code/03_yearly_school_data_join.py:133-140 | a key has a group row iff some row carries it |
| BoundaryJoin.CollectAll | code/03_yearly_school_data_join.py:133-140 | one group row per key, in key order |
| NearestSchool.DropMissingCoordinates | code/crime_nearest_school.py:8 | a crime is kept iff it has both a latitude and a longitude, order kept |
| NearestSchool.AnyEndsWithTrue | code/crime_nearest_school.py:96-99 | the test is true iff some code ends with the crime's suffix and every code before it is present |
| NearestSchool.FirstEndingAt | code/crime_nearest_school.py:97 | the position where `any` stops with true: a code ending with the suffix after only present codes that do not; the length when there is none |
| NearestSchool.AnyEndsWithFalse | code/crime_nearest_school.py:96-99 | the test is false iff every code is present and none ends with the suffix; an empty list is always false |
| NearestSchool.AnyEndsWithPresent | code/crime_nearest_school.py:97 | with every code present, the test is plain existence of a code ending with the suffix |
| NearestSchool.AnyEndsWith | code/crime_nearest_school.py:97 | the test raises only when some code is missing; it is true only when some present code ends with the suffix, and false only when every code is present and none ends with it |
| NearestSchool.MaskOk | code/crime_nearest_school.py:96-99 | the mask is computed iff no row's test raises |
| NearestSchool.Mask | code/crime_nearest_school.py:96-99 | a computed mask has one entry per row, and the mask fails only when some row's test raises |
| NearestSchool.MaskValues | code/crime_nearest_school.py:96-99 | a computed mask has one entry per row, holding that row's test |
| NearestSchool.Select | code/crime_nearest_school.py:101 | boolean selection keeps exactly the rows whose mask entry is true, in order |
| NearestSchool.FilteredReview | code/crime_nearest_school.py:94-101 | `filtered_df` exists iff the mask does, and is then an order-preserving selection of `review_df` holding exactly the rows whose boundary years contain a code ending with the crime's two-digit year |
| NearestSchool.SpringCrimeKept | code/crime_nearest_school.py:92-99 | a crime dated in calendar year `y` is kept by a boundary coded for the school year that starts in `y - 1` |
| SchoolYears.AcademicYearStart | code/05a_crime_boundary_map.py:35-37 | a school's start year is the integer value of the first two characters of `file_year` plus 2000; a missing code raises; the same rule in code/05b_crime_boundary_map_test.py:36-38 and code/crime_boundary_map_test.py:24-26 |
| SchoolYears.TwoDigits | code/crime_nearest_school.py:94 | `%y` is two digits whose value is the year modulo 100 |
| SchoolYears.YearCode | code/school_opening_map.py:20 | the four-digit code of a school year |
| SchoolYears.YearCodeRoundTrip | code/school_opening_map.py:36-38 | reading back the code written for a start year of the 2000s gives that year |
| SchoolYears.FourDigitCodeStart | code/school_opening_map.py:36-38 | every four-digit code converts, to 2000 plus the value of its first two digits, which lies in 2000..2099 |
| SchoolYears.ExampleCode1213 | code/school_opening_map.py:36-38 | an example of the rule `FourDigitCodeStart` states: "1213" gives 2012 |
| SchoolYears.CrimeAcademicYear | code/05a_crime_boundary_map.py:58-62 | a crime's academic year is its calendar year or the one before; the same rule in code/05b_crime_boundary_map_test.py:59-63 and code/crime_boundary_map_test.py:56-60 |
| SchoolYears.CrimeAcademicYearSpan | code/05a_crime_boundary_map.py:38-62 | the academic year of a date is the unique `a` with the date between July of `a` and June of `a + 1`; a school's July 1 date falls in its own start year |
| SchoolYears.YearSuffix | code/crime_nearest_school.py:94 | `yr_suffix` is two digits whose value is the calendar year modulo 100 |
| SchoolYears.CodeEndsWithNextYearSuffix | code/crime_nearest_school.py:92-97 | the code of the school year starting in `y` starts with the suffix of `y` and ends with that of `y + 1` |
| SchoolYears.YearLabel | code/05a_crime_boundary_map.py:100 | the label is `Y`, an en dash, then `Y + 1` |
| BoundaryMaps.FindPoint | code/05a_crime_boundary_map.py:49-55 | the merge finds a point row with the crime's `id` iff one exists |
| BoundaryMaps.MergePoints | code/05a_crime_boundary_map.py:49-55 | the one-to-one merge raises iff either side repeats an `id`; otherwise every crime keeps its row and takes the coordinates of the point with its `id`, or none; the same rule in code/05b_crime_boundary_map_test.py:50-56 and code/crime_boundary_map_test.py:41-47 |
| BoundaryMaps.DropUnlocated | code/05a_crime_boundary_map.py:56 | a crime is kept iff both coordinates are present, order kept; the same rule in code/05b_crime_boundary_map_test.py:57 and code/crime_boundary_map_test.py:50 |
| BoundaryMaps.MapCrimes | code/05a_crime_boundary_map.py:56-62 | the crimes shown are the located ones, in order, each with its academic start year |
| BoundaryMaps.Colour | code/05a_crime_boundary_map.py:92-94 | ES, MS and HS have their fixed colours; any other grade is a `KeyError` |
| BoundaryMaps.BuildSchoolFeatures | code/05a_crime_boundary_map.py:84-103 | the feature loop succeeds iff every school's grade is ES, MS or HS, and then yields one feature per school, in order, with its grade's colour and its start year |
| BoundaryMaps.SchoolsOf | code/05a_crime_boundary_map.py:74 | the schools of a year are exactly those whose start year equals it, order kept; the same rule in code/05b_crime_boundary_map_test.py:75 and code/crime_boundary_map_test.py:72 |
| BoundaryMaps.CrimesOf | code/05a_crime_boundary_map.py:75 | the crimes of a year are exactly those whose academic start year equals it, order kept; the same rule in code/05b_crime_boundary_map_test.py:76 and code/crime_boundary_map_test.py:73 |
| BoundaryMaps.LayersFrom | code/05b_crime_boundary_map_test.py:81-111 | every layer is a non-empty grade subset drawn with one of the listed styles, and every style whose subset is non-empty gets a layer |
| BoundaryMaps.OfGradeMembers | code/05b_crime_boundary_map_test.py:86 | a school is in a grade's subset iff it has that grade |
| BoundaryMaps.StyleIndex | code/05b_crime_boundary_map_test.py:81-85 | each of ES, MS and HS has its place in the style list |
| BoundaryMaps.GradeStyleColour | code/05b_crime_boundary_map_test.py:81-85 | the style list's colours agree with the colour dictionary of the time-slider map |
| BoundaryMaps.GradeLayers | code/05b_crime_boundary_map_test.py:81-111 | each layer is non-empty, drawn in its grade's colour, and holds exactly that year's schools of its grade; a grade category has a layer iff it has schools that year, so an empty one is skipped; the same in code/crime_boundary_map_test.py:79-109 |
| BoundaryMaps.HeatLayerFor | code/05b_crime_boundary_map_test.py:122-126 | the layer of a type is named "Heat: " and the type, and holds exactly the crimes of that type (none for a missing type) |
| BoundaryMaps.LayersForTypes | code/05b_crime_boundary_map_test.py:121-134 | one heat layer per type, in order |
| BoundaryMaps.HeatLayers | code/05b_crime_boundary_map_test.py:120-134 | one heat layer per distinct `primary_type` of the year, each type occurring at some position before any occurrence of the types of later layers, each layer holding exactly the crimes of its type |
| BoundaryMaps.OutPath | code/05b_crime_boundary_map_test.py:150 | the file of year `Y` starts `Data/processed/map_Y_`, ends `(Y+1).html` and is exactly as long as the two together, so it is `Data/processed/map_Y_(Y+1).html`; the same in code/crime_boundary_map_test.py:132 |
| BoundaryMaps.BuildYearMaps | code/05b_crime_boundary_map_test.py:74-76 | one map per year from 2008 to 2018, in order, each with exactly the schools and crimes of that year; the same in code/crime_boundary_map_test.py:70-73 |
| BoundaryMaps.MapGradesOfYear | code/05b_crime_boundary_map_test.py:74-111 | a school is drawn on a year's map iff its start year is that year and its grade is ES, MS or HS |
| BoundaryMaps.MapCrimesOfYear | code/crime_boundary_map_test.py:70-128 | the crimes a year's map draws are exactly the crimes of that academic year |
| CrimeFetch.KeepFrom | code/01_crime_data_cleaning.py:75 | the columns kept are exactly the listed ones the chunk has, in list order, each once |
| CrimeFetch.KeepCols | code/01_crime_data_cleaning.py:70-76 | the chunk keeps exactly the desired columns it has, in the desired order, without repeats; "domestic" is never among them |
| CrimeFetch.DesiredColumnsDistinct | code/01_crime_data_cleaning.py:70-74 | the desired columns are distinct and do not include "domestic", so the conversion at lines 81-82 never applies |
| CrimeFetch.ArrestFlag | code/01_crime_data_cleaning.py:79-80 | "true" becomes true, "false" becomes false, anything else or nothing becomes missing |
| CrimeFetch.IntCell | code/01_crime_data_cleaning.py:94-96 | a cell becomes an integer iff it is present and reads as one, and then it is that integer; otherwise missing |
| CrimeFetch.CleanCell | code/01_crime_data_cleaning.py:78-96 | `arrest` takes the flag conversion, `ward`/`community_area`/`year`/`beat` the integer one, and any other column keeps its text, missing only where absent |
| CrimeFetch.CleanRecord | code/01_crime_data_cleaning.py:76-96 | one cleaned cell per kept column, each the conversion of the record's field |
| CrimeFetch.CleanChunk | code/01_crime_data_cleaning.py:62-96 | the cleaned chunk has the kept columns and one cleaned row per record, in order |
| CrimeFetch.ChunkPath | code/01_crime_data_cleaning.py:104 | the file of a chunk lies in `Data/processed/crime_parquet/`, its name starts with `chunk_` and ends in `.parquet` |
| CrimeFetch.ChunkPathDigits | code/01_crime_data_cleaning.py:104 | the file of chunk `k` is `Data/processed/crime_parquet/chunk_`, then decimal digits whose value is `k`, as many as `k` needs but at least four, then `.parquet` |
| CrimeFetch.ChunkPathInjective | code/01_crime_data_cleaning.py:104-109 | two chunk indices share a file name only if they are equal, so no chunk overwrites another |
| CrimeFetch.WrittenBefore | code/01_crime_data_cleaning.py:104-109 | the first `n` writes are, in order, chunk `k` at offset `k` times the batch size in its own file |
| CrimeFetch.ChunksFrom | code/01_crime_data_cleaning.py:54-114 | the pages written are all non-empty, all but the last full; none are written iff the first answer is empty; after a full last page the next answer is empty or missing |
| CrimeFetch.StreamChunks | code/01_crime_data_cleaning.py:47-118 | the loop writes exactly the chunks counted by `ChunksFrom`, chunk `k` requested at offset `k` times 100 000, cleaned, to its own file; the final dtypes print fails with a `NameError` exactly when the first answer is empty (no chunk was ever assigned), and otherwise shows the last written chunk's columns |
| CrimeFetch.StreamStep | code/01_crime_data_cleaning.py:57-114 | an empty answer writes nothing, a short one is the last write, and a full one is followed by the writes of the next request |
| CrimeFetch.ShortPageEndsStream | code/01_crime_data_cleaning.py:111-114 | a short page after full ones is written and is the last chunk |
| CrimeFetch.CollectCrimes | code/crime_data_cleaning.py:36-49 | `all_data` after the loop holds the full pages up to the first empty or short answer, and `offset` grows by the batch size once per full page |
| CrimeFetch.FullPages | code/crime_data_cleaning.py:40-48 | the number of answers that extend `all_data`: every page counted is full, and the answer after them, if any, is empty or short |
| CrimeFetch.CollectFullPages | code/crime_data_cleaning.py:40-48 | `all_data` as written holds at least one batch of records per full page before the first empty or short answer, and is empty iff there is no such page |
| CrimeFetch.CollectFullPagesConcat | code/crime_data_cleaning.py:40-48 | `all_data` as written is the full pages before the first empty or short answer, extended one after another |
| CrimeFetch.CollectFullPagesSize | code/crime_data_cleaning.py:47-48 | with pages of at most the batch size, `all_data` has one batch of records per full page, which is the final `offset` |
| CrimeFetch.ShortPageLost | code/crime_data_cleaning.py:44-46 | a single short page leaves `all_data` empty |
| CrimeFetch.CollectAllPages | code/crime_data_cleaning.py:40-48 | the corrected loop keeps at least one batch of records per full page before the first empty or short answer, and keeps nothing iff the first answer is empty |
| CrimeFetch.Concat | code/crime_data_cleaning.py:47 | a record is in the pages extended one after another iff it is in one of them |
| CrimeFetch.CollectAllPagesMatchesStream | code/crime_data_cleaning.py:40-49 | with the short final page kept, the download holds exactly the records of the chunks the streaming script writes (01_crime_data_cleaning.py:54-114), in order |
| CrimeFetch.CorrectedKeepsShortPage | code/crime_data_cleaning.py:44-46 | for a short page after full ones, the corrected loop keeps what the loop as written keeps plus that page |
| CrimeFetch.CorrectedKeepsShortPageFrom | code/crime_data_cleaning.py:40-49 | the same, from any request on |
| CrimeFetch.CaseNumbers | code/crime_data_cleaning.py:66 | one cell per record, present exactly where the record has `case_number` and then equal to it; as a set, the case numbers of the records |
| CrimeFetch.MatchingCases | code/crime_data_cleaning.py:66 | selecting by `isin` raises iff either table lacks a `case_number` column; otherwise it keeps, in order, exactly the rows whose case number some row of the other table shares |
| CrimeFetch.MatchingSymmetric | code/crime_data_cleaning.py:66-70 | an arrest and a crime with the same case number are each kept by their own selection |
| CrimeFetch.MatchedCases | code/crime_data_cleaning.py:55-71 | with the corrected download, the two selections fail together iff either table lacks `case_number`, and otherwise are the matching arrests and the matching crimes |
| CrimeFetch.ShortPageCrimeMatched | code/crime_data_cleaning.py:44-70 | a crime of the short final page whose case number has an arrest is among the matching crimes |
| CrimeReading.UseColsDistinct | code/crime_data_reading.py:20 | the wanted columns are distinct and include `location_description` and `primary_type` |
| CrimeReading.ReadColumns | code/crime_data_reading.py:20-24 | the columns read are exactly the wanted columns the file has, in wanted order, each once |
| CrimeReading.SchoolRows | code/crime_data_reading.py:28-29 | the rows kept are exactly the rows whose `location_description` is present and mentions "School" in any case, in file order |
| CrimeReading.ReadChunk | code/crime_data_reading.py:23-29 | a chunk reads iff it has `location_description` (otherwise `KeyError`), and then gives the columns read and its school rows |
| CrimeReading.ReadChunkHasLocation | code/crime_data_reading.py:24-28 | a chunk that reads has `location_description` among the columns read |
| CrimeReading.Kept | code/crime_data_reading.py:17-33 | collecting succeeds iff every file has `location_description` |
| CrimeReading.KeptStopsAtError | code/crime_data_reading.py:17-33 | once a file raises, the files after it change nothing |
| CrimeReading.CollectSchoolChunks | code/crime_data_reading.py:14-33 | the loop reads the files in order, keeps each chunk with rows left, and stops at the first raising file |
| CrimeReading.KeptRows | code/crime_data_reading.py:32-33 | leaving out the chunks without school rows loses no row and reorders none |
| CrimeReading.AllSchoolRowsMembers | code/crime_data_reading.py:17-33 | a row is among the school rows of all files iff it is among those of some file |
| CrimeReading.ResultRows | code/crime_data_reading.py:36-39 | a row is in the result iff some chunk has it and its `location_description` mentions a school |
| CrimeReading.ColumnsOfWanted | code/crime_data_reading.py:24-37 | every column of a collected chunk is wanted, and `location_description` is among them when any chunk is collected |
| CrimeReading.ColumnsOfMembers | code/crime_data_reading.py:36-37 | a column is among the chunks' columns iff some chunk has it |
| CrimeReading.CrimeAtSchools | code/crime_data_reading.py:36-39 | the frame's columns are each listed once: with no chunk collected it is the empty frame with exactly the `usecols` columns; otherwise its columns are those some chunk has |
| CrimeReading.ReadCrimesAtSchools | code/crime_data_reading.py:11-50 | the script gets through iff some chunk file exists (otherwise step 5 raises `NameError`, `usecols` being assigned only inside the loop), every file has `location_description` (otherwise `KeyError`), and some collected chunk has `primary_type` or none is collected (otherwise step 6 raises `KeyError`); the frame is then the one step 5 builds |
| CrimeReading.ResultColumns | code/crime_data_reading.py:36-39 | when the script gets through, the result's columns are wanted ones, each once, always with `location_description`; when the chunk files hold no school row it is the empty frame with exactly the wanted columns |
| DataReview.SuffixShape | code/data_review.py:8-10 | a file's suffix is empty, or a dot and at least one more character, with no further dot, ending a longer name; stem and suffix make up the name |
| DataReview.SuffixOfExtension | code/data_review.py:8-10 | a name made of a non-empty stem and a one-dot extension has that extension as its suffix and that stem |
| DataReview.HiddenNameHasNoSuffix | code/data_review.py:13-14 | a hidden name such as ".csv" has no suffix, so it is not read |
| DataReview.PartsLeTotal | code/data_review.py:62 | any two paths are ordered one way or the other |
| DataReview.PartsLeTrans | code/data_review.py:62 | the path order is transitive |
| DataReview.FileLeTotalPreorder | code/data_review.py:62 | `sorted(files_to_scan)` sorts by a total preorder |
| DataReview.GetFileInfo | code/data_review.py:5-28 | no record iff the suffix is neither `.csv` nor `.parquet`; otherwise name and path of the file, and an error record iff reading raises, with its message, else the columns with their types and a shape naming their count |
| DataReview.FirstPatternIs | code/data_review.py:41-46 | the first pattern the stem starts with is the one the loop stops at |
| DataReview.FirstPatternNone | code/data_review.py:41-48 | a stem that starts with no pattern gets none |
| DataReview.FirstPattern | code/data_review.py:35-46 | a pattern found is one of the list and the stem starts with it |
| DataReview.FirstPatternNoneMatches | code/data_review.py:41-48 | when no pattern is found, the stem starts with none of them |
| DataReview.SeenPatterns.constructor | code/data_review.py:53 | `seen_patterns` starts empty |
| DataReview.SeenPatterns.ShouldSkip | code/data_review.py:30-48 | a file of no pattern is kept and changes nothing; otherwise it is skipped iff its pattern was seen, and its pattern is then seen |
| DataReview.GroupsAt | code/data_review.py:32-46 | the `k`-th entry is the pattern of the `k`-th file |
| DataReview.Seen | code/data_review.py:43-45 | after a run of files, `seen_patterns` holds exactly the patterns that occurred |
| DataReview.SkippedOccursBefore | code/data_review.py:43-44 | a file is skipped iff its pattern occurred at an earlier position |
| DataReview.SkippedIff | code/data_review.py:55-58 | a file is skipped iff it has a pattern and an earlier file had the same one, so a file of no pattern and the first of each pattern are kept |
| DataReview.KeptFiles | code/data_review.py:57-58 | the kept files keep their scan order |
| DataReview.KeptFilesMembers | code/data_review.py:57-58 | a file is kept iff it occurs at a position that is not skipped |
| DataReview.ToScan | code/data_review.py:52-58 | `files_to_scan` is an in-order selection of the files found |
| DataReview.ScanStep | code/data_review.py:56-58 | one call of `should_skip_file` takes the seen patterns and the kept files from those after `k` files to those after `k + 1` |
| DataReview.ScanProject | code/data_review.py:51-58 | the scan keeps exactly the `ToScan` selection of the CSV files followed by the Parquet files, through one `seen_patterns` |
| DataReview.Infos | code/data_review.py:61-65 | a record is collected iff it is the record of one of the files; at most one record per file |
| DataReview.ColumnTypes | code/data_review.py:80-83 | one entry per column, in order, from which the column's name and dtype read back: the name, " (", the dtype, ")" |
| DataReview.Summarize | code/data_review.py:69-91 | a row keeps file and path; an error record shows "ERROR: " and its message with empty types and shape; any other lists its columns, its typed columns and its shape |
| DataReview.CollectInfos | code/data_review.py:61-65 | the loop collects the records `Infos` describes, in order |
| DataReview.SummaryData | code/data_review.py:68-91 | one summary row per record, in order |
| DataReview.BuildOverview | code/data_review.py:51-93 | the whole script computes the scan, sorts by path, collects records and summarises them |
| DataReview.OverviewRows | code/data_review.py:51-93 | a row is in the overview iff it is the summary of a kept file with a readable suffix |
| DataReview.Overview | code/data_review.py:51-93 | the overview has at most one row per kept file, and every row is for a file whose suffix is `.csv` or `.parquet` |
| Dashboard.GradeOptions | Dashboards/chicago_schools_dashboard.py:20-22 | the options are the categories that occur in the table, missing included, each once, in order of first appearance |
| Dashboard.ByGrade | Dashboards/chicago_schools_dashboard.py:25-27 | no selection keeps every school; otherwise every copy of a school whose category is selected and none of the others, in order |
| Dashboard.ByQuery | Dashboards/chicago_schools_dashboard.py:30-34 | an empty query keeps every school; an all-digit query keeps exactly the schools whose ID text contains it; any other keeps exactly the named schools whose name contains it ignoring case; order is kept; every copy of a matching row is kept and none of the others |
| Dashboard.UnnamedNotFoundByName | Dashboards/chicago_schools_dashboard.py:33-34 | a school without a name is never found by a name query |
| Dashboard.LookupMembers | Dashboards/chicago_schools_dashboard.py:25-34 | a school is listed iff it is in the table, its category is selected or nothing is, and it matches the query; each such school is listed as many times as the table has it; the matches keep table order |
| Dashboard.Lookup | Dashboards/chicago_schools_dashboard.py:25-34 | never more schools than the table; with no selection and an empty query the table is listed as it is |
| Dashboard.WithCommasDigits | Dashboards/chicago_schools_dashboard.py:36 | the comma-grouped count, read without its commas, is all digits and equals the number |
| Dashboard.WithCommas | Dashboards/chicago_schools_dashboard.py:36 | the count is digits with a comma before every group of three counted from the right and a first group of one to three digits; it has a comma iff the number is at least 1000 |
| Dashboard.CommaGroupedAppend | Dashboards/chicago_schools_dashboard.py:36 | a grouped count followed by a comma and three digits is a grouped count with a comma |
| Dashboard.Heading | Dashboards/chicago_schools_dashboard.py:36 | the heading starts with "## ", ends with " schools matched", and holds the grouped count of matches between them |
| Dashboard.HeadingCount | Dashboards/chicago_schools_dashboard.py:36 | the heading is "## ", the grouped count of matches, then " schools matched", and that count is the number of matches |
| Dashboard.Listing | Dashboards/chicago_schools_dashboard.py:37-40 | the listing is the matches sorted by name, missing names last, and is a permutation of them |

## Left out

- Network I/O: the Socrata client and its `get` calls. The answer to each request is an input page.
- File reads and writes, directory listings (`glob`, `rglob`, `Path`) and `os.makedirs`. What each file holds, whether reading it raises, and the listing order are inputs.
- Geometry: WKT parsing, `sjoin`, `sjoin_nearest`, `overlay`, centroids, areas, containment and CRS reprojection. Where a result depends on it, the spatial join's output is an input table (the crimes matched to boundaries, the review table of the nearest-school script).
- Map and UI rendering: folium maps, markers, clusters, heat maps, popups, tooltips and the time slider, and streamlit widgets, caching and the map view of the dashboard (Dashboards/chicago_schools_dashboard.py:42-44). The maps are modelled only as the data each layer receives.
- code/school_transfer_map.py is not part of this model. It is rendering only, and it refers to an undefined `schools_map_gdf`.
- The welcoming-school transfer geometry and its year loop (code/welcoming_school_additions.py:81-140): geometry.
- Fuzzy scoring internals: `fuzzywuzzy` is a function parameter. Only the threshold logic around it is modelled, together with the candidate lists it is given.
- The contents of the top-3 `process.extract` review columns of code/school_opening_map.py:148-173 and their repetition at 182-218: the candidate names, scores and IDs are for manual reading. `ClosureListReviews` models only the two `ValueError`s that step raises.
- OpeningMap.AddressReview: the script reaches it only when the top-3 step before it goes through; `AddressReview` states the address step on its own and `ClosureListReviews` the condition for reaching it.
- Floating point and dates: float32 casts, `pd.to_datetime` and `category` dtypes. Dates are given as a calendar year and month, and coordinates as optional reals that are never computed with.
- Float rendering of IDs: IDs are integers. A missing cell printed as text is "nan" (`Schools.AsText`), and floats printed with ".0" are not modelled.
- Dashboard.ByQuery: `str.contains` runs a non-numeric query as a regular expression (pandas' default `regex=True`), so "a.c" also matches "ABC", "." matches every name, "Lane|Kelly" matches either name and "(" raises an error. The model searches for the query as literal text, ignoring case. An all-digit query holds no special character, so the ID search is exact.
- Regular expressions elsewhere: the only other pattern, "School" in code/crime_data_reading.py:28, holds no special character, so `str.contains` is substring search.
- Welcoming.RawClosureTable.MatchSchoolNames: each raw row is given a "School" cell, present or missing. A raw list without a "School" column raises a `KeyError` at code/welcoming_school_additions.py:49, which the model does not capture.
- Welcoming.AddWelcomingClosures: the model assumes the raw list has "School" and `SCHOOL_NM` columns. Without "School" the script raises at code/welcoming_school_additions.py:49, and without `SCHOOL_NM` it raises at line 74 even when nothing is missing; the model succeeds in both cases.
- FinalizeClosures.RefClosures: a reference row's `year_closed` is an integer. An empty cell, read as NaN (code/04a_finalize_closures.py:47-49), is not represented. Such a row would give a closure without years, a review row counted as agreeing through `isna` (lines 88-96), and a year placed last by the sort. FinalizeClosures.ClosureReview and FinalSchoolClosure.ClosureErr inherit this: there the NaN year compares unequal and its row would land in `closure_err_df` (code/final_school_closure.py:88-90).
- Unicode case folding and `str.isdigit`: only ASCII letters are lower-cased and only ASCII digits count as digits.
- CrimeFetch.IntCell: `pd.to_numeric` is modelled by `int()` on text (an optional sign and ASCII digits, surrounding white space allowed). Decimal and exponent forms, and the `Int32` range, are not modelled.
- Ordering.SortBy: `sort_values` is modelled by a stable insertion sort. pandas' default sort is not stable, so where keys tie the model fixes one order that pandas does not promise.
- Dashboard.Listing: rows with equal names may be listed in any order. The contract states only sortedness and permutation.
- OpeningMap: the groups of `groupby`, `pivot_table` and `drop_duplicates` are listed in sorted key order.
- BoundaryJoin.SchoolShapes: a file whose renamed header repeats a column is not modelled. `rename_map` sends "School_NM", "SchoolName" and "SCHOOL_Nam" to `SCHOOL_NM` and "SchoolID" and "SCHOOLID" to `SCHOOL_ID`, so a header holding two of them has that column twice. Depending on the other frames' headers, the concat at code/03_yearly_school_data_join.py:96 then raises or the selection returns the column twice. The model reads the first of the repeated columns and succeeds.
- BoundaryJoin.CollectAll: the crime groups are listed in order of first appearance, whereas `groupby` sorts its keys by default. The contents of each group are exact.
- Printed diagnostics, dtype printing, `head()` and value counts (code/crime_data_reading.py:41-47): output only. The one way they can fail, the `KeyError` of line 45 when no collected chunk has `primary_type`, is part of `ReadCrimesAtSchools`.
- The duplicate-column diagnostic of code/04a_finalize_closures.py:120-128: it only prints.
- The manual review round trip of code/04a_finalize_closures.py:101-108: the reviewed CSV is written, edited by hand and read back, and the concat with `closure_diff_reviewed` only feeds the saved `school_closure_years_final.csv`. Both files are I/O, so the final table is modelled from `computed` and `to_add_ref` as the script builds it.
- The elementary, middle and high school file lists and `file_columns_df` of the join scripts: diagnostics only.
- The raw CSV read and the arrests request of code/crime_data_cleaning.py:19-23 and 60: I/O. The arrests table is an input.

## Findings

| source | as written | input that shows it | evidently intended | confidence | as-written member | corrected member |
|---|---|---|---|---|---|---|
| code/crime_data_cleaning.py:44-46 | when an answer has fewer than `batch_size` records, the loop stops before `all_data.extend(results)`, so the last, short page of the dataset is dropped | a dataset of one page with a single record: the script reports it retrieved 1 record and `all_data` stays empty | the short final page is appended before stopping, as code/01_crime_data_cleaning.py:105-114 writes it | not executed | CrimeFetch.CollectFullPages, CrimeFetch.ShortPageLost | CrimeFetch.CollectAllPages, CrimeFetch.CorrectedKeepsShortPage, CrimeFetch.CollectAllPagesMatchesStream, CrimeFetch.MatchedCases, CrimeFetch.ShortPageCrimeMatched |
