# Singapore higher-education data: normalisation pipeline model

This project models the batch cleaning script `data/process_and_clean_data.py`
of a Singapore higher-education dashboard. The script reads three CSV tables:

- the Graduate Employment Survey (GES), one row per (year, university, degree);
- enrolment and graduates counts, in wide form: one row per (year, sex) and one
  column per institution, headed by a short alias such as `nus` or `ite`.

It gives every school a dense integer identifier, attaches that identifier to
the GES rows, reshapes the two wide tables into long (year, sex, school) records,
removes records with missing values and repeated keys, and builds a schools
lookup table and an alias reference table.

The model works on parsed tables. A table is a `Frames.Frame`: a list of column
names and a list of rows. Each cell is an `Option<Value>`, with `None` standing
for pandas' NA. A Python dict is an insertion-ordered list of
(key, value) pairs, `Dicts.Dict`. Python's string order is `Lexicographic.Less`,
code-point by code-point.

Modules, in dependency order:

- `Wrappers`: `Option` and `Result`.
- `Tables`: `dropna` as `Filter`; first-occurrence deduplication as `Dedup`,
  with the loop `DropDuplicates` that uses a set of seen keys.
- `Lexicographic`: string order, insertion sort `SortNames` (`sorted`).
- `Dicts`: dict lookup `Get`.
- `Frames`: tables, column reads, NA counting, column assignment (`df[name] = ...`) and the
  `pop`/`insert` column move.
- `SchoolMappings`: `COLUMN_NAME_MAPPING` and `create_school_mappings`.
- `GesCleaning`: `process_ges_data`.
- `Reshape`: `process_enrolment_data` and `process_graduates_data`, one
  definition with the value column's name as a parameter.
- `Output`: the tables built by `save_output_files`.
- `Pipeline`: `main`, and the consistency of the five outputs.

Behaviour of the script worth noting:

- An enrolment or graduates header that is not an alias raises no error. Its
  records get NA `school_id` and `school_name` and are removed by `dropna`
  (`Reshape.ResolvedComplete`).
- `melt` is column-major. It emits every row of the first institution column,
  then every row of the next (`Reshape.MeltShape`).
- The fact tables are written in the order the cleaning leaves them. Only the
  schools lookup is sorted.
- `school_id` is moved to index 2 of the GES columns, which is right after
  `university` when `university` is the second column. Python's `list.insert`
  appends when the index is past the end, and `Frames.MoveTo` does the same.
- `create_school_mappings` reads the enrolment file but never uses it, so the
  model does not take it.
- The `KeyError` that `school_id_mapping[full_name]` could raise never happens.
  Every full name is in the set being numbered. `SchoolMappings.CreateSchoolMappings`
  fails only for a missing `university` column or a non-string university.

## Model

| member | source | states |
|---|---|---|
| SchoolMappings.ColumnNameMappingIsDict | data/process_and_clean_data.py:43-61 | the 17 aliases of the constant are distinct |
| SchoolMappings.ColumnNameMappingDistinctFullNames | data/process_and_clean_data.py:43-61 | no two aliases denote the same school |
| SchoolMappings.ListSet | data/process_and_clean_data.py:92 | `list(set)` lists every element of the set exactly once, in no promised order |
| SchoolMappings.NumberSchools | data/process_and_clean_data.py:93 | the dict's keys are the listing in order; for a strictly ascending listing (no repeats) it is a dict numbering exactly the listed names 1..N by position |
| SchoolMappings.NumberSortedListing | data/process_and_clean_data.py:92-93 | numbering the sorted listing gives keys ascending by name, exactly the name set, name `i` numbered `i + 1` |
| SchoolMappings.ColumnToId | data/process_and_clean_data.py:96-97 | succeeds iff every full name has an id; then alias `i` maps to its full name's id, in the same order; else a `KeyError` for the first missing name |
| SchoolMappings.CreateSchoolMappings | data/process_and_clean_data.py:66-101 | `KeyError` without a `university` column; `TypeError` exactly when a university cell is not a string (NA included); otherwise the ids number GES universities ∪ full names in sorted order and `column_to_id` is built from them |
| SchoolMappings.SchoolIdsDense | data/process_and_clean_data.py:93 | there are N ids for N names, and they are exactly 1..N |
| SchoolMappings.SchoolIdMappingIsDict | data/process_and_clean_data.py:93 | the numbering lists no school twice: it is a dict |
| SchoolMappings.StrictlySortedDistinct | data/process_and_clean_data.py:92 | a strictly ascending name list has no repeats |
| SchoolMappings.SchoolIdIsRank | data/process_and_clean_data.py:92-93 | a name's id is one more than the number of names before it |
| SchoolMappings.BelowIsPrefix | data/process_and_clean_data.py:92 | the names sorting before the name at position p of the sorted list are exactly the first p names |
| SchoolMappings.BelowCount | data/process_and_clean_data.py:92-93 | in the sorted listing exactly p names sort before the p-th name |
| SchoolMappings.SchoolIdsMonotonic | data/process_and_clean_data.py:92-93 | name x sorts before name y iff x's id is smaller, so distinct names get distinct ids |
| SchoolMappings.SchoolIdsDeterministic | data/process_and_clean_data.py:92-93 | two numberings of the same name set are equal: the ids do not depend on set iteration order |
| SchoolMappings.ColumnToIdSound | data/process_and_clean_data.py:96-97 | every alias has an id, equal to its full name's id and within 1..N |
| SchoolMappings.ColumnToIdIsDict | data/process_and_clean_data.py:96-97 | `column_to_id` has the aliases as keys, in order, each once |
| SchoolMappings.ColumnToIdInjective | data/process_and_clean_data.py:96-97 | distinct aliases get distinct ids |
| SchoolMappings.IdIsPosition | data/process_and_clean_data.py:93 | the school with id `k` is entry `k - 1` of the mapping |
| Lexicographic.Less | data/process_and_clean_data.py:92 | Python's `<` on strings: a strict order that agrees with code-point lexicographic order, a proper prefix sorting first |
| Lexicographic.LessIrreflexive | data/process_and_clean_data.py:92 | no string sorts before itself |
| Lexicographic.LessTransitive | data/process_and_clean_data.py:92 | the string order is transitive |
| Lexicographic.LessTotal | data/process_and_clean_data.py:92 | of two distinct strings one sorts first |
| Lexicographic.LessAsymmetric | data/process_and_clean_data.py:92 | two strings never sort before each other |
| Lexicographic.LessEqTransitive | data/process_and_clean_data.py:92 | the non-strict order is transitive |
| Lexicographic.Insert | data/process_and_clean_data.py:92 | insertion adds exactly one element |
| Lexicographic.InsertSorted | data/process_and_clean_data.py:92 | inserting into an ascending list keeps it ascending |
| Lexicographic.InsertStrictlySorted | data/process_and_clean_data.py:92 | inserting a new name into a strictly ascending list keeps it strictly ascending |
| Lexicographic.SortNames | data/process_and_clean_data.py:92 | `sorted` returns a permutation of its input, ascending, strictly so for distinct input |
| Lexicographic.StrictlySortedUnique | data/process_and_clean_data.py:92 | two strictly ascending lists with the same elements are equal |
| Dicts.Get | data/process_and_clean_data.py:172-173 | lookup is NA iff the key is absent, and otherwise returns a value stored under that key |
| Dicts.GetAt | data/process_and_clean_data.py:96 | in a dict, the key at position i looks up the value at position i |
| Dicts.GetAbsent | data/process_and_clean_data.py:276 | `get` falls back exactly when the key is not among the dict's keys |
| Frames.IndexOf | data/process_and_clean_data.py:122 | `cols.index(name)` is the first position holding the name |
| Frames.RowNaCount | data/process_and_clean_data.py:126 | a row's NA count is at most its length, and 0 iff the row has no NA |
| Frames.NaCount | data/process_and_clean_data.py:126 | `isna().sum().sum()` is 0 iff `dropna` would reject no row |
| Frames.MoveTo | data/process_and_clean_data.py:122 | `insert(to, pop(from))` keeps the length and the elements, only reordering them |
| Frames.MoveToAt | data/process_and_clean_data.py:122 | after `insert(to, pop(from))` every position holds the element of its source position |
| Frames.MoveToTarget | data/process_and_clean_data.py:122 | the moved element lands at `to`, or at the end when `to` is past it |
| Frames.MoveToKeepsOthers | data/process_and_clean_data.py:122 | after `insert(to, pop(from))` the moved element is at `to` (or last) and the other elements keep their order |
| Frames.MoveLastTo | data/process_and_clean_data.py:122 | moving the last element to `to` inserts it in front of the element that was at `to` |
| Frames.AssignThenMove | data/process_and_clean_data.py:118-122 | assigning a column and moving it to `to` inserts a new name at `to` (or last) or moves an existing one there; the other names keep their order |
| Frames.MoveColumn | data/process_and_clean_data.py:121-123 | reordering the columns keeps the row count, the column names as a multiset and each row's cells as a multiset |
| Frames.MoveColumnSound | data/process_and_clean_data.py:121-123 | reordering the columns keeps the table well formed, keeps the same column names and leaves every cell read by name unchanged |
| Frames.MoveColumnShape | data/process_and_clean_data.py:121-123 | the reordered table is well formed and has the same column names |
| Frames.MoveColumnCell | data/process_and_clean_data.py:121-123 | a row's cell under a given column name is the same after the reorder |
| Frames.AssignColumnSound | data/process_and_clean_data.py:118 | after the assignment the table is well formed, its column names are the old ones plus `name`, `name` holds the values and every other cell read by name is unchanged |
| Frames.AssignColumn | data/process_and_clean_data.py:118 | `df[name] = values` keeps the row count; the column list is unchanged when `name` exists and gains `name` last otherwise |
| Tables.Filter | data/process_and_clean_data.py:129 | `dropna` never adds rows |
| Tables.FilterSound | data/process_and_clean_data.py:129 | a row survives iff it was in the input and has no NA; survivors keep their order |
| Tables.FilterCount | data/process_and_clean_data.py:180 | input length = survivors + rows removed |
| Tables.FilterNothingRejected | data/process_and_clean_data.py:127-132 | when no row is rejected, the filter returns the input unchanged |
| Tables.Dedup | data/process_and_clean_data.py:191 | deduplication never adds rows |
| Tables.DedupKeys | data/process_and_clean_data.py:186-191 | the output has the same key set as the input and no key twice |
| Tables.DedupLength | data/process_and_clean_data.py:186-191 | the output has one row per distinct input key |
| Tables.DedupSubsequence | data/process_and_clean_data.py:191 | the output is an order-preserving subsequence of the input |
| Tables.DedupKeepsFirst | data/process_and_clean_data.py:191 | each output row is the first occurrence of its key, and every first occurrence is kept |
| Tables.DedupUniqueIdentity | data/process_and_clean_data.py:189-193 | with no repeated key the output is the input, so skipping `drop_duplicates` changes nothing |
| Tables.DropDuplicates | data/process_and_clean_data.py:186-191 | the loop with a seen-key set returns exactly the first-occurrence deduplication, and `duplicate_count` = input length − output length |
| Tables.SubsequenceSameLength | data/process_and_clean_data.py:189-193 | a subsequence as long as its source is the source |
| Tables.DistinctCardinality | data/process_and_clean_data.py:92-93 | a list without repeats has as many elements as its set |
| GesCleaning.SchoolIdCell | data/process_and_clean_data.py:118 | the `school_id` of a row is present iff its university is a string with an id, and then it is that id |
| GesCleaning.WithSchoolId | data/process_and_clean_data.py:118-123 | the GES table with `school_id` is well formed, keeps the row count, and its columns are the old ones plus `school_id` |
| GesCleaning.WithSchoolIdShape | data/process_and_clean_data.py:118-123 | the GES table gains one `school_id` column at index 2 (last when there are fewer than three columns): a new one is inserted there, an existing one moved there, and every other column keeps its order |
| GesCleaning.SchoolIdAfterUniversity | data/process_and_clean_data.py:118-123 | with `university` second and no `school_id` yet, `school_id` comes right after `university`, the first two columns stay and the rest shift by one |
| GesCleaning.WithSchoolIdCells | data/process_and_clean_data.py:118 | each row's `school_id` is the id of its `university` (NA when unknown); other cells unchanged |
| GesCleaning.CleanRows | data/process_and_clean_data.py:125-140 | the cleaned rows are no more than the input rows and no two share (year, school_id, degree) |
| GesCleaning.CleanRowsSound | data/process_and_clean_data.py:125-140 | cleaned rows have no NA, no two share (year, school_id, degree), one per distinct key of the complete rows |
| GesCleaning.SkipDropNa | data/process_and_clean_data.py:126-132 | when the NA count is 0, skipping `dropna` gives the same rows |
| GesCleaning.SkipDropDuplicates | data/process_and_clean_data.py:135-142 | when `drop_duplicates` would remove nothing, skipping it gives the same rows |
| GesCleaning.DropNaAndDuplicates | data/process_and_clean_data.py:125-145 | `KeyError` naming the missing ones of `year`/`degree`; otherwise the cleaned table and its counts, with initial − final = NA rows removed + duplicates |
| GesCleaning.ProcessGesData | data/process_and_clean_data.py:106-147 | `KeyError` for a missing `university`, or missing `year`/`degree` naming them; otherwise the cleaned table and the counts it reports, with initial − final = NA rows removed + duplicates |
| GesCleaning.CleanRowsResolved | data/process_and_clean_data.py:118-140 | every surviving row has a string university that has an id, and its `school_id` is that id |
| GesCleaning.CleanRowOrigin | data/process_and_clean_data.py:125-140 | every cleaned row is a row of the table with the new `school_id`, with no NA |
| Reshape.ValueColumns | data/process_and_clean_data.py:164-168 | melt unpivots exactly the columns other than `year` and `sex`, left to right |
| Reshape.MeltColumnsAt | data/process_and_clean_data.py:164-169 | record `k * rows + i` comes from value column k and row i |
| Reshape.MeltColumnsLength | data/process_and_clean_data.py:164-169 | melt has (value columns) × (rows) records |
| Reshape.Melt | data/process_and_clean_data.py:164-169 | melt succeeds iff `year` and `sex` are columns, then with (value columns) × (rows) records; otherwise a `KeyError` naming exactly the missing ones |
| Reshape.MeltShape | data/process_and_clean_data.py:164-169 | melt is complete and column-major: record `k * rows + i` carries row i's year and sex, column k's name and the cell unchanged, NA included |
| Reshape.MeltAt | data/process_and_clean_data.py:164-169 | melt succeeds when `year` and `sex` exist, and record `k * rows + i` holds row i's year and sex, value column k's name and the row's cell there |
| Reshape.Resolve | data/process_and_clean_data.py:172-173 | `school_id` / `school_name` are NA iff the column is not a key of `column_to_id` / the alias mapping, and otherwise a value stored under it; year, sex and value pass through |
| Reshape.ResolvedComplete | data/process_and_clean_data.py:172-180 | a record survives `dropna` iff its column is an alias and year, sex and value are present; it has NA `school_id` iff its column is not an alias |
| Reshape.CleanRecords | data/process_and_clean_data.py:179-191 | the cleaned records are no more than the melted ones and no two share (year, sex, school_id) |
| Reshape.CleanRecordsSound | data/process_and_clean_data.py:179-191 | cleaned records have no NA, no two share (year, sex, school_id), keep input order, one per distinct key |
| Reshape.CleanRecordsFromAliases | data/process_and_clean_data.py:172-176 | each cleaned record comes from a melted record, and its (school_id, school_name) is the pair of one alias |
| Reshape.SameKeySameColumn | data/process_and_clean_data.py:186-191 | two complete records with the same (year, sex, school_id) come from the same column |
| Reshape.ProcessWideData | data/process_and_clean_data.py:152-199 | `KeyError` for a missing `year`/`sex`; otherwise the five output columns, the cleaned records and the counts, with melted = wide rows × value columns and total removed = melted − final = NA removed + duplicates |
| Output.InsertById | data/process_and_clean_data.py:266 | insertion adds exactly one row |
| Output.InsertByIdAscending | data/process_and_clean_data.py:266 | inserting into id-ascending rows keeps them ascending |
| Output.SortById | data/process_and_clean_data.py:266 | `sort_values('school_id')` returns as many rows, the same rows as a multiset, in ascending id order |
| Output.SortByIdIdentity | data/process_and_clean_data.py:266 | sorting rows whose ids already ascend leaves them unchanged |
| Output.SchoolsLookup | data/process_and_clean_data.py:263-266 | the lookup holds one row per mapping entry, as a multiset, in ascending id order |
| Output.SchoolsLookupRows | data/process_and_clean_data.py:263-266 | the lookup has one row per school, row i is (i + 1, i-th name in sorted order), names are exactly the school set and distinct |
| Output.InLookup | data/process_and_clean_data.py:263-266 | every (id, name) pair of the mapping is a lookup row |
| Output.ColumnReferenceComplete | data/process_and_clean_data.py:273-277 | row i pairs alias i with its full name and that name's id in 1..N, never the blank fallback |
| Pipeline.WideTableClean | data/process_and_clean_data.py:172-191 | a cleaned enrolment or graduates table has no NA, no repeated key, and every (school_id, school_name) is a lookup row |
| Pipeline.GesTableIsClean | data/process_and_clean_data.py:118-140 | the cleaned GES table has no NA, no repeated key, and every (school_id, university) is a lookup row |
| Pipeline.CleanTableInLookup | data/process_and_clean_data.py:125-140 | when every cleaned row's `school_id` is the id of its string university, the cleaned table has no NA, no repeated key, and each (school_id, university) is a lookup row |
| Pipeline.RunPipeline | data/process_and_clean_data.py:301-336 | a run fails iff a step raises, with the first step's error (`FirstError`); a successful run's outputs are the mappings, lookup, reference and cleaned tables computed from the inputs and `COLUMN_NAME_MAPPING` (`IsRunOf`) |
| Pipeline.ReferenceTablesConsistent | data/process_and_clean_data.py:263-277 | for a school-id mapping, the lookup has one row per school with ids 1..N in order and names exactly the school set, and every reference row has an id |
| Pipeline.RunLookupConsistent | data/process_and_clean_data.py:301-336 | when the mappings, lookup and reference are those of a run (the reference half of `IsRunOf`), the lookup numbers every GES university and full name 1..N, and no reference row has a blank id |
| Pipeline.RunFactTablesClean | data/process_and_clean_data.py:301-336 | a successful run writes fact tables free of NA and repeated keys whose (school_id, name) pairs are all lookup rows |

## Left out

- Reading and writing CSV files, the check that the input files exist, and all
  progress printing. The model takes the three tables as parsed values and
  returns the five output tables and the counts the script prints.
- `pandas.read_csv` itself: tokenising and recognising NA strings. Cells arrive
  already parsed, with NA as `None`.
- `main` catches any exception and prints it. `Pipeline.RunPipeline` returns the
  first error instead.
- The DataFrames are updated in place in the script (`df['school_id'] = ...`,
  `cols.insert(2, cols.pop(...))`). The model rebuilds a new table value
  instead, so it does not capture aliasing between DataFrame objects.
- Value equality is by constructor: `Int(1)` and `Real(1.0)` are different keys
  here, while pandas compares them as equal. The model also keeps `school_id`
  as an integer. pandas stores it as a float column when `map` produced any NA.
- `melt` raises a `ValueError` when the wide table already has a column named
  like the value column. The model does not include that case.
- Pipeline.RunPipeline: the counts each step prints are not restated in
  `IsRunOf`. `ProcessGesData` and `ProcessWideData` state them.
- SchoolMappings.NumberSchools: a listing with repeats keeps them as separate
  entries, where the dict comprehension would keep one key per name at its last
  index. Only the sorted listing of a set is ever numbered, so no repeat arises.
- SchoolMappings.CreateSchoolMappings: `sorted()` on a mixture of numbers only
  (no string anywhere) would succeed in Python. This needs an empty alias table
  and a university column with no string in it. The model reports it as a
  `TypeError`. With the fixed 17-alias constant this case cannot arise.
- The analytics, database loading, ingestion, web and verification scripts of
  the repository are not part of this model.
