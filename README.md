# Disease–symptom pipeline: a Dafny model

This project models the data-handling core of the PRI2025 disease and symptom search pipeline.
- **Preparation.** Source tables are cleaned and given the seven canonical columns (`name`, `symptoms`, `description`, `treatments`, `contagious`, `chronic`, `url`). Disease names are normalised, and `|`-separated symptom lists become `, `-separated ones.
- **Merge.** The prepared tables are aligned to one column order, unioned, deduplicated and sorted by name.
- **Index build.** `generate_jsons` folds the merged rows into two indices:
  - a symptom index: symptom key → one entry per disease, where the first row wins and later rows only fill empty fields;
  - a disease index: disease → sorted symptom union, treatments, sources, and the first row's flags.
- **Smaller transforms:**
  - word-piece merging for the named-entity extractor;
  - the summary's symptom parsing and per-disease counts;
  - two converters from a binary disease × symptom matrix to disease records.

## Modules
- **Text**: Python's and polars' `strip`, ASCII `lower`, `replace`, `split` and `join`, written over `seq<char>`.
- **Cells**: table cells (`Null` or a string) and their sort order.
- **Seqs**: duplicate-free sequences, sorting by a key, and last-write-wins maps.
- **Frame**: tables, `add_col_to_df`, name normalisation and the pipe rewrite.
- **Cleaning**: `clean_datasets_task`.
- **Attributes**: `create_disease_contagious_chronic_map`.
- **Unique**: polars' `unique()` followed by `sort('name')`. The specification is a predicate, because the tie order is not fixed.
- **Merge**: `merge_datasets_task`.
- **Patient**: `prepare_patient_reports_task`. The symptom extractor is a parameter.
- **Fields**: `convert_to_bool`, `clean_and_strip`, and the reading of a CSV row.
- **Index**: the pure fold of `generate_jsons`. Its state holds:
  - a sequence of per-row info objects, each numbered by its row;
  - for each symptom key, the numbers of the objects stored under it;
  - the disease aggregates.
- **IndexFacts** and **DiseaseFacts**: what that fold computes.
- **Builder**: the imperative `generate_jsons`.
  - One heap object `Info` per row is shared by every symptom entry the row creates, so a backfill through one entry is seen by all of them.
  - The builder keeps a ghost copy of the `Index` state, and every method is proved against it.
- **Subwords**: `merge_subwords` and `extract_symptoms`. The recognition pipeline's results are an input.
- **Summary**: `parse_symptoms`, and the global and per-disease counts of `summary_analysis.py`.
- **Binary**: Python's `int()` on text, `str()` of a count, and the active-symptom decoding of one matrix row.
- **Converters**:
  - `convert_binary_to_symptoms_simple`;
  - `convert_binary_to_symptom_names`;
  - `create_summary_analysis` in `Data/scripts/convert_binary_symptoms.py`, as far as its symptom tokens, with the KeyError it raises on an empty result.

Some members only define a polars or Python operation, and the lemmas in the table state their properties:
- `Frame.WithColumn`, `Frame.MapColumn`: `with_columns`;
- `Cleaning.Project`, `Cleaning.SelectAt`: `select`;
- `Cleaning.RenameColumns`: `rename`;
- `Attributes.NamedRows`, `Attributes.RowMap`: `iter_rows(named=True)`;
- `Index.Entries`: `list(v.values())`, whose insertion order `IndexFacts.SlotsAreFirstIds` and `IndexFacts.SymptomSearchSpec` state;
- `Seqs.Built`: the invariant of a dictionary-filling loop; `Seqs.BuiltAll` reads it off at the loop's end.

Both copies of `add_col_to_df`, of the pipe rewrite, of the merge, of the attribute map and of each binary converter run the same logic. Each is modelled once, and the table below cites both copies.

I/O is modelled as parameters:
- the CSV files are sequences of rows;
- the DuckDB views are a map from view name to rows;
- the named-entity model is a function parameter, or its list of results.

## Model

| member | source | states |
|---|---|---|
| Text.TrimSpec | milestone1/src/convert_to_json.py:14 | `strip` removes exactly a prefix and a suffix of whitespace; the result starts and ends with non-whitespace |
| Text.TrimOfTrimmed | milestone1/src/convert_to_json.py:14 | stripping a string without whitespace at either end returns it unchanged |
| Text.TrimIdempotent | milestone1/src/data_preparation_and_cleaning.py:247 | stripping twice is stripping once |
| Text.PyStripIsPolarsStrip | milestone1/src/data_preparation_and_cleaning.py:72 | Python's `strip()` and polars' `strip_chars()` agree unless the text has the separators U+001C..U+001F at an end |
| Text.StripsDifferOnSeparators | milestone1/src/data_preparation_and_cleaning.py:247 | a concrete string ("\x1c") on which the two strips differ |
| Text.LowerIsLower | milestone1/src/convert_to_json.py:23 | `lower()` leaves no ASCII upper-case letter |
| Text.LowerOfLower | milestone1/src/convert_to_json.py:23-24 | lowering a string that has no ASCII upper-case letter changes nothing |
| Text.EqualIgnoringCaseIsLowerEqual | milestone1/src/convert_to_json.py:10-11 | comparing after `lower()` is comparing ignoring ASCII case |
| Text.ReplaceCharLength | milestone1/src/data_preparation_and_cleaning.py:251 | `replace_all` of a character by a string adds `|rep|-1` characters per occurrence |
| Text.ReplaceCharRemoves | milestone1/src/data_preparation_and_cleaning.py:251 | after replacing `c` by a text without `c`, no `c` is left |
| Text.ReplaceCharAbsent | milestone1/src/data_preparation_and_cleaning.py:247 | replacing a character that does not occur changes nothing |
| Text.ReplaceCharAt | milestone1/src/data_preparation_and_cleaning.py:247 | replacing by a one-character string changes each occurrence in place and no other position |
| Text.JoinSplit | milestone1/src/convert_to_json.py:31 | `sep.join(s.split(sep)) == s` |
| Text.ReplaceIsJoinSplit | milestone1/src/data_preparation_and_cleaning.py:251 | replacing `c` by `rep` is splitting on `c` and joining with `rep` |
| Text.SplitLength | Data/scripts/convert_binary_symptoms.py:114 | `split(c)` gives one more piece than there are `c` in the text |
| Text.SplitCommaSpace | milestone1/src/simple_binary_converter.py:41 | Python's `split(", ")` is never empty |
| Text.SplitJoinCommaSpace | milestone1/src/simple_binary_converter.py:41 | `", ".join(names).split(", ") == names` when no name holds ", " |
| Text.ConcatAppend | milestone1/src/nlp_processor.py:12 | concatenation distributes over `+` |
| Cells.ValueLeTotal | milestone1/src/data_preparation_and_cleaning.py:314 | the name order is total (nulls first) |
| Cells.ValueLeAntisymmetric | milestone1/src/data_preparation_and_cleaning.py:314 | the name order is antisymmetric |
| Cells.ValueLeTransitive | milestone1/src/data_preparation_and_cleaning.py:314 | the name order is transitive |
| Cells.ValueLeReflexive | milestone1/src/data_preparation_and_cleaning.py:314 | the name order is reflexive |
| Seqs.Distinct | milestone1/src/convert_to_json.py:74 | `list(set(xs))`: duplicate-free, with the same members as `xs` |
| Seqs.Sort | milestone1/src/convert_to_json.py:74 | `sorted`: a permutation of its input, sorted by the key |
| Seqs.SortNoDups | milestone1/src/convert_to_json.py:74 | sorting a duplicate-free list keeps it duplicate-free |
| Seqs.SortedPermutationEqual | milestone1/src/convert_to_json.py:74 | two sorted permutations of one list of cells are equal |
| Seqs.SortedDistinctDetermined | milestone1/src/data_preparation_and_cleaning.py:311-314 | two duplicate-free lists with the same members, both sorted by a key, are permutations of each other with the same key sequence |
| Seqs.AssignSpec | milestone1/src/data_preparation_and_cleaning.py:335-340 | a dictionary filled by `d[k] = v` in order, one write after another, has exactly the keys written and, for each, the value of its last write |
| Seqs.AssignBuilt | milestone1/src/data_preparation_and_cleaning.py:335-340 | the write-by-write dictionary meets the loop invariant `Built` that the attribute-map and view-registration loops keep |
| Frame.Find | milestone1/src/data_preparation_and_cleaning.py:354 | the first position of a column name, or the length when absent |
| Frame.FindPresent | milestone1/src/data_preparation_and_cleaning.py:354 | a column is found exactly when it is `in df.columns` |
| Frame.WithColumnSpec | milestone1/src/data_preparation_and_cleaning.py:355 | `with_columns(pl.lit(v).alias(c))` for a new `c` keeps the frame well formed; `c` is found after the old columns and holds `v` in every row; every old column is found where it was, with the same cells |
| Frame.MissingFrom | milestone1/src/data_preparation_and_cleaning.py:353-354 | the canonical columns to add are exactly those not already present |
| Frame.AddCanonicalColumns | milestone1/src/data_preparation_and_cleaning.py:343-356 | `add_col_to_df`: all seven canonical columns exist; existing columns and cells are unchanged; the added columns are appended in canonical order with "" or, for `contagious`/`chronic`, null; the table stays well formed |
| Frame.AppendMissingNoDups | milestone1/dags/data_preparation_and_clean.py:404-420 | the copy in the DAG adds no column twice |
| Frame.NormalizeShape | milestone1/src/data_preparation_and_cleaning.py:245-248 | a normalised name has no space, no upper-case ASCII letter, and nothing left to strip |
| Frame.NormalizeIdempotent | milestone1/src/data_preparation_and_cleaning.py:307-310 | normalising a name twice is normalising once, for both whitespace sets |
| Frame.NormalizeCellIdempotent | milestone1/dags/data_preparation_and_clean.py:349-356 | normalising a name cell twice is normalising once; null stays null |
| Frame.NormalizeNamesAgree | milestone1/src/data_preparation_and_cleaning.py:336 | the Python and the polars normalisations agree on names without U+001C..U+001F |
| Frame.NormalizeNamesDiffer | milestone1/src/data_preparation_and_cleaning.py:336 | a name on which the Python and polars normalisations disagree |
| Frame.PipesToCommasShape | milestone1/src/data_preparation_and_cleaning.py:250-251 | after the rewrite no `|` is left, and each `|` added one character |
| Frame.PipesToCommasRoundTrip | milestone1/dags/data_preparation_and_clean.py:273-277 | without commas in the input, splitting the rewritten text on ", " gives the `|`-separated pieces |
| Frame.MapNameIdempotent | milestone1/src/data_preparation_and_cleaning.py:245-248 | normalising the name column through `with_columns` a second time changes nothing |
| Unique.MapNameIsNormalizeRows | milestone1/src/data_preparation_and_cleaning.py:245-248 | the `with_columns` normalisation of the name column equals normalising, row by row, the cell at the name column's position, the form the merge and report tasks are specified in |
| Cleaning.NullCountBelowHeight | milestone1/src/data_preparation_and_cleaning.py:62 | `null_count() < height` exactly when some cell of the column is not null |
| Cleaning.KeptFrom | milestone1/src/data_preparation_and_cleaning.py:62 | the kept positions are increasing and are exactly the columns with a non-null cell |
| Cleaning.KeptColumnsSpec | milestone1/dags/data_preparation_and_clean.py:90 | a column is kept exactly when one of its cells is not null |
| Cleaning.SelectAtWellFormed | milestone1/src/data_preparation_and_cleaning.py:62 | selecting columns in increasing position order keeps the frame well formed: distinct names, every row as wide as the header |
| Cleaning.DropNulls | milestone1/src/data_preparation_and_cleaning.py:63 | `drop_nulls` keeps exactly the rows without a null, and no more rows than given |
| Cleaning.RenameFind | milestone1/src/data_preparation_and_cleaning.py:72 | after a successful rename every old column is found under its normalised name at its old position, so its cells are unchanged, and the frame stays well formed |
| Cleaning.CleanSpec | milestone1/src/data_preparation_and_cleaning.py:62-72 | a cleaned table is well formed, has the renamed kept columns, and has no null and no duplicate row; its rows are exactly the input rows, restricted to the kept columns, that hold no null |
| Cleaning.SelectedRows | milestone1/dags/data_preparation_and_clean.py:90-93 | the selected rows are the input rows restricted to the kept columns |
| Cleaning.CleanColumnNames | milestone1/dags/data_preparation_and_clean.py:107-108 | cleaned column names have no space, no upper-case ASCII letter and nothing to strip |
| Cleaning.CleanRejectsCollision | milestone1/src/data_preparation_and_cleaning.py:72 | two kept columns whose names normalise alike make the rename fail |
| Attributes.NamedRowGet | milestone1/src/data_preparation_and_cleaning.py:335-339 | `row.get(c, None)` on a row of `iter_rows(named=True)` gives the row's cell in column `c`, or None when the frame has no column `c` |
| Attributes.KeyOfShape | milestone1/src/data_preparation_and_cleaning.py:336 | every key of the attribute map is a normalised name |
| Attributes.BuildAttributeMap | milestone1/src/data_preparation_and_cleaning.py:332-341 | the map fails, as `row['name']` does, exactly when some row has no string name; otherwise its keys are the rows' normalised names, and each key maps to the contagious/chronic/treatments of the last row with that key |
| Attributes.ScannedAll | milestone1/dags/data_preparation_and_clean.py:391-400 | after the loop, keys are the normalised names, and the last row with each name wins |
| Unique.NormalizeRows | milestone1/src/data_preparation_and_cleaning.py:307-310 | normalising the name column changes that cell of every row and nothing else |
| Unique.FinishIsUniqueSorted | milestone1/src/data_preparation_and_cleaning.py:311-314 | the concrete dedup-and-sort gives a duplicate-free, name-sorted list with exactly the normalised rows as members |
| Unique.UniqueSortedDetermined | milestone1/dags/data_preparation_and_clean.py:358-363 | any two results polars may give have the same rows, the same length and the same name sequence |
| Unique.UniqueSortedRows | milestone1/src/data_preparation_and_cleaning.py:304-314 | every merged row comes from an input row and carries a normalised name |
| Unique.RenormalizeUnchanged | milestone1/src/data_preparation_and_cleaning.py:212-216 | normalising the names again after `unique` and `sort` changes nothing |
| Unique.UniqueSortedWidth | milestone1/src/data_preparation_and_cleaning.py:311 | deduplicating keeps the row width |
| Merge.BuildSelectList | milestone1/dags/data_preparation_and_clean.py:331-337 | the loop builds that select list, one entry per column of `column_order` |
| Merge.ViewAligned | milestone1/src/data_preparation_and_cleaning.py:298-301 | a view row has the seven columns, holding the source cell when the source has the column and NULL otherwise |
| Merge.TableNamesAt | milestone1/src/data_preparation_and_cleaning.py:281 | a table is named by its file stem, lower-cased, with `-` turned into `_` |
| Merge.RegisterViews | milestone1/src/data_preparation_and_cleaning.py:280-302 | the view names are the table names, and every name holds the view of the last file with that name (`CREATE OR REPLACE`) |
| Merge.UnionIsMergeInput | milestone1/src/data_preparation_and_cleaning.py:304-305 | the `UNION ALL` over the registered names is the concatenation of the surviving views |
| Merge.DistinctNamesMergeInput | milestone1/dags/data_preparation_and_clean.py:345-346 | with distinct table names the union is every file's view, in order |
| Merge.CollidingStems | milestone1/src/data_preparation_and_cleaning.py:281-301 | two files whose stems collide give the second file's rows twice |
| Merge.MergeInputWidth | milestone1/src/data_preparation_and_cleaning.py:316 | every union row has the seven columns |
| Merge.MergeDatasets | milestone1/src/data_preparation_and_cleaning.py:266-318 | no file gives an error (an empty union query); otherwise the columns are exactly `column_order`, and the rows are a result `unique()` and `sort('name')` may give on the normalised union |
| Patient.FilledSpec | milestone1/src/data_preparation_and_cleaning.py:182-197 | every row keeps all cells except `symptoms`, which becomes the extractor's output joined by ", " for a non-blank string description and "" otherwise |
| Patient.FillSymptoms | milestone1/src/data_preparation_and_cleaning.py:182-202 | the loop over `iter_rows` builds exactly those filled rows |
| Patient.SymptomsRoundTrip | milestone1/src/data_preparation_and_cleaning.py:187-188 | splitting the written symptoms on ", " gives the extractor's output when no symptom holds ", " |
| Patient.SymptomsEmpty | milestone1/src/data_preparation_and_cleaning.py:186-191 | a null or blank description, or an empty extraction, gives "" |
| Patient.PreparePatientReports | milestone1/src/data_preparation_and_cleaning.py:182-216 | with no input row the result has no columns and no rows (`pl.DataFrame([])`); otherwise the columns are kept; in both cases every row has all the columns and the rows are a result of normalising, deduplicating and sorting the filled rows by name; the second normalisation changes nothing |
| Fields.ToBoolSpec | milestone1/src/convert_to_json.py:9-11 | `convert_to_bool` is true exactly when the stripped text equals, ignoring case, one of "1", "1.0", "true", "yes"; "" is false |
| Fields.CleanAndStripSpec | milestone1/src/convert_to_json.py:13-14 | the result neither starts nor ends with `"` |
| Fields.CleanAndStripNotIdempotent | milestone1/src/convert_to_json.py:14 | a value ("\" a\"") that a second `clean_and_strip` changes |
| Fields.TokensSpec | milestone1/src/convert_to_json.py:31 | every symptom token of a lower-case field is non-empty, stripped, comma-free and lower-case |
| Fields.TokensOfJoin | milestone1/src/convert_to_json.py:31 | reading the symptom list of comma-free, stripped, non-empty names joined by "," gives the names back |
| Fields.SplitJoin | milestone1/src/convert_to_json.py:31 | splitting a join on its separator gives the pieces back when none holds it |
| Fields.RowTokens | milestone1/src/convert_to_json.py:22-31 | every token of a row as read is non-empty, stripped and lower-case |
| Index.FindEntry | milestone1/src/convert_to_json.py:44 | the position of the entry for a disease, or the length when there is none |
| Index.TokenStep | milestone1/src/convert_to_json.py:42-54 | one pass of the symptom loop keeps the state well formed and touches neither object count nor disease map |
| Index.RowStep | milestone1/src/convert_to_json.py:22-70 | one row adds exactly one info object |
| Index.Run | milestone1/src/convert_to_json.py:22-70 | after the rows, the state has one object per row |
| IndexFacts.TokensStepFills | milestone1/src/convert_to_json.py:46-54 | the symptom loop only fills empty `text`, `source_url` and `treatment` fields with the row's non-empty ones; it never changes the disease or the flags |
| IndexFacts.TokensStepSlots | milestone1/src/convert_to_json.py:42-45 | after a row's symptom loop, a key gains the row's object at the end exactly when some token has the key and no entry for the row's disease was there |
| IndexFacts.RunKeys | milestone1/src/convert_to_json.py:42-45 | the keys of the symptom index are exactly the keys of the rows' tokens |
| IndexFacts.RunFirst | milestone1/src/convert_to_json.py:42-45 | an object is stored under a key exactly when its row is the first to name its disease with that key, and each key's objects are in row order |
| IndexFacts.RunOnePerDisease | milestone1/src/convert_to_json.py:44-45 | each key holds at most one entry per disease |
| IndexFacts.RunBackfilled | milestone1/src/convert_to_json.py:33-54 | every object is its row's values, backfilled in row order by each later row of the same disease with a symptom under which the object is stored; one object is shared by all the entries its row created |
| IndexFacts.NewUnfilled | milestone1/src/convert_to_json.py:33-40 | the last row's object holds that row's values |
| IndexFacts.SlotsAreFirstIds | milestone1/src/convert_to_json.py:42-45 | the objects under a key are the first rows for that key, in row order |
| IndexFacts.SymptomSearchSpec | milestone1/src/convert_to_json.py:42-78 | a key is in the symptom index exactly when some row has it; its list is, in row order, the backfilled objects of the first rows for each disease |
| DiseaseFacts.SymptomsOfSpec | milestone1/src/convert_to_json.py:66 | the extended symptom list holds exactly the tokens of the disease's rows |
| DiseaseFacts.RunDiseaseKeys | milestone1/src/convert_to_json.py:57-64 | every row's disease gets an entry, even with no symptoms, and no other disease does |
| DiseaseFacts.RunDiseaseFields | milestone1/src/convert_to_json.py:66-70 | a disease's symptoms, treatments and sources are those of its rows; the empty ones are left out |
| DiseaseFacts.RunDiseaseFlags | milestone1/src/convert_to_json.py:57-64 | a disease's `contagious`/`chronic` are those of its first row |
| DiseaseFacts.FinalizeSpec | milestone1/src/convert_to_json.py:73-76 | finalisation makes the symptoms sorted and duplicate-free with the same members, and keeps treatments, sources and flags |
| DiseaseFacts.FinalizeUnique | milestone1/src/convert_to_json.py:74 | the sorted duplicate-free list with those members is unique |
| DiseaseFacts.DiseaseSearchKeys | milestone1/src/convert_to_json.py:57-64 | the disease index has exactly the diseases that some row names |
| DiseaseFacts.DiseaseSearchSymptoms | milestone1/src/convert_to_json.py:66-74 | a disease's final symptoms are sorted, duplicate-free, and exactly the tokens of its rows |
| DiseaseFacts.DiseaseSearchRest | milestone1/src/convert_to_json.py:57-76 | a disease's final treatments and sources are the distinct non-empty values of its rows, and its flags are its first row's |
| Builder.Info.constructor | milestone1/src/convert_to_json.py:33-40 | a new `disease_info` object holds the row's disease, description, URL, treatments and flags |
| Builder.IndexBuilder.constructor | milestone1/src/convert_to_json.py:17-18 | both dictionaries start empty, as does the model's state |
| Builder.IndexBuilder.AddInfo | milestone1/src/convert_to_json.py:33-40 | the row's object becomes the next numbered object of the model, and nothing is stored yet |
| Builder.IndexBuilder.Store | milestone1/src/convert_to_json.py:45 | `symptom_dict[key][disease] = disease_info` appends that object to the key's list in the model |
| Builder.IndexBuilder.Fill | milestone1/src/convert_to_json.py:47-54 | backfilling the existing entry changes that one object in the model and no other |
| IndexFacts.TokenStepSlots | milestone1/src/convert_to_json.py:43-45 | one symptom adds the row's object to its key exactly when the key has no entry for the row's disease yet; other keys are untouched |
| Builder.Info.FillFrom | milestone1/src/convert_to_json.py:48-54 | the in-place backfill of one shared object |
| Builder.FindInfoIsFindEntry | milestone1/src/convert_to_json.py:44 | the membership test on the heap finds the entry that the model's lookup finds |
| Builder.IndexBuilder.AddToken | milestone1/src/convert_to_json.py:43-54 | one pass of the symptom loop on the heap is the model's symptom step; the disease map is untouched |
| Builder.IndexBuilder.AddTokens | milestone1/src/convert_to_json.py:42-54 | the symptom loop of a row is the model's symptom-loop step |
| Builder.IndexBuilder.AddDisease | milestone1/src/convert_to_json.py:57-70 | the disease-map update of a row is the model's aggregate step |
| Builder.IndexBuilder.AddRow | milestone1/src/convert_to_json.py:22-70 | one row on the heap is the model's row step |
| Builder.FinalizeAll | milestone1/src/convert_to_json.py:73-76 | the loop over `disease_dict.items()` gives an entry for exactly the keys of `disease_dict`, each one finalised |
| Builder.IndexBuilder.FinalizeDiseases | milestone1/src/convert_to_json.py:73-76 | the finalised disease map is the model's disease index |
| Builder.IndexBuilder.Snapshot | milestone1/src/convert_to_json.py:78 | `final_symptom_dict` is the model's symptom index |
| Builder.BuildIndex | milestone1/src/convert_to_json.py:22-70 | the row loop over the heap reaches the model's state after all rows |
| Builder.GenerateJsons | milestone1/src/convert_to_json.py:16-78 | `generate_jsons` returns the model's two indices; the symptom index's keys are the rows' token keys, and the disease index's keys are the rows' diseases |
| Subwords.MergeSubwords | milestone1/src/nlp_processor.py:7-19 | `merge_subwords` is the "##"-gluing fold over the first `min(len(tokens), len(labels))` tokens; the labels' values are never read |
| Subwords.ExtractSymptoms | milestone1/src/nlp_processor.py:21-26 | `extract_symptoms` merges the words of the `Sign_symptom` results |
| Subwords.SymptomWordsSpec | milestone1/src/nlp_processor.py:24 | a word is kept exactly when some result of group `Sign_symptom` carries it |
| Subwords.MergedConcat | milestone1/src/nlp_processor.py:9-18 | the words glued together are the tokens glued together, each "##" removed |
| Subwords.FoldConcat | milestone1/src/nlp_processor.py:10-16 | the loop invariant behind the previous line: finished words plus the current word glue to the pieces so far |
| Subwords.MergedNonEmpty | milestone1/src/nlp_processor.py:14-18 | no output word is empty |
| Subwords.MergedLength | milestone1/src/nlp_processor.py:8-19 | no more words than tokens, and no tokens give no words |
| Subwords.MergedNoSubwords | milestone1/src/nlp_processor.py:15-18 | without "##" tokens the output is the input with empty strings removed |
| Subwords.GluedExample | milestone1/src/nlp_processor.py:11-12 | ["head", "##ache"] gives ["headache"] |
| Subwords.SeparateExample | milestone1/src/nlp_processor.py:13-16 | ["head", "ache"] gives ["head", "ache"] |
| Summary.ParseSymptomsSpec | milestone1/src/summary_analysis.py:5-12 | a missing or blank cell gives []; every token is non-empty, stripped and lower-case |
| Summary.ParseIsTokens | milestone1/src/summary_analysis.py:8-12 | `parse_symptoms` reads a cell as the index reads the symptom field once lower-cased: the same tokens in the same order |
| Summary.PyStripLower | milestone1/src/summary_analysis.py:11 | stripping and lower-casing commute |
| Summary.SplitLower | milestone1/src/summary_analysis.py:11 | splitting on "," and lower-casing commute |
| Summary.AllSymptoms | milestone1/src/summary_analysis.py:15-17 | the global token list is the concatenation of the per-row parses |
| Summary.ParseAllLength | milestone1/src/summary_analysis.py:15-18 | its length is the sum of the per-row parse lengths |
| Summary.UniqueSymptoms | milestone1/src/summary_analysis.py:20-24 | `unique_symptoms_for_series` is the union of the parses of its cells |
| Summary.UnionOfSpec | milestone1/src/summary_analysis.py:20-27 | a symptom is in the union exactly when some cell's parse holds it |
| Summary.UnionOfAll | milestone1/src/summary_analysis.py:15-24 | the union has the members of the global token list |
| Summary.TotalMentions | milestone1/src/summary_analysis.py:30-34 | `total_mentions_for_series` is the sum of the parse lengths of its cells |
| Summary.UniqueAtMostTotal | milestone1/src/summary_analysis.py:26-36 | unique count ≤ total mentions |
| Summary.DiseaseCounts | milestone1/src/summary_analysis.py:26-36 | for each disease's group, unique count ≤ total mentions ≤ the global total |
| Summary.SymptomCells | milestone1/src/summary_analysis.py:16 | `df['symptoms']` is the symptoms cell of every row, in order |
| Binary.IsOneTextSpec | milestone1/src/simple_binary_converter.py:35 | `int(value) == 1` holds exactly when the stripped value is an optional `+` and underscore-grouped digits that are zeros followed by one `1` |
| Binary.NotOneExamples | Data/scripts/simple_binary_converter.py:43-47 | "1.0", "" and "-1" are not active: the first two fail to parse and are skipped |
| Binary.DecString | milestone1/src/simple_binary_converter.py:42 | `str(n)` is a non-empty string of digits |
| Binary.ParseDecString | milestone1/src/simple_binary_converter.py:42 | a count written with `str` reads back with `int` |
| Binary.DecValueOne | milestone1/src/simple_binary_converter.py:35 | a digit string has value 1 exactly when it is zeros followed by one `1` |
| Binary.ActiveNamesSpec | milestone1/src/simple_binary_converter.py:14-38 | the active names are, in header order and once each, the names at exactly the positions whose value is on |
| Binary.ActiveNamesBeyond | milestone1/src/convert_binary_symptoms.py:43 | values beyond the names change nothing, as `zip` stops at the shorter list |
| Binary.ActiveSymptomsText | milestone1/src/simple_binary_converter.py:32-38 | the inner loop collects the names whose value `int` reads as 1, skipping values that fail to parse |
| Binary.ActiveSymptomsFrame | milestone1/src/convert_binary_symptoms.py:42-45 | the inner loop collects the column names whose value equals 1 |
| Converters.ConvertSimple | milestone1/src/simple_binary_converter.py:9-44 | no line fails as `next(reader)` does, and an empty header fails at `header[0]`; otherwise the output is the fixed header followed by the rows written for the input rows, and `row_count` is the number of well-formed rows |
| Converters.RowOutputSpec | milestone1/src/simple_binary_converter.py:26-42 | a row is written exactly when its length is the header's and some value reads as 1; it holds the disease, a string that splits on ", " into the active names when no name holds ", ", and a count that reads back as their number, at least 1 |
| Converters.WrittenBounds | Data/scripts/simple_binary_converter.py:34-54 | written rows ≤ `row_count` ≤ input rows: malformed rows are neither written nor counted |
| Converters.WrittenFrom | Data/scripts/simple_binary_converter.py:50-52 | every written row is the output of some input row |
| Converters.WrittenAll | Data/scripts/simple_binary_converter.py:50-52 | every input row with an output has it written |
| Converters.WrittenAppend | milestone1/src/simple_binary_converter.py:25-44 | the output of two parts of a file is the two parts' outputs in turn, and likewise the count |
| Converters.ActiveNamesEmpty | milestone1/src/simple_binary_converter.py:40 | the active list is empty exactly when no value paired with a name is on |
| Converters.ConvertFrame | milestone1/src/convert_binary_symptoms.py:11-56 | an empty header fails; otherwise the records of all rows of all chunks, in order, and `total_rows_processed` equal to the number of rows |
| Converters.ProcessChunk | Data/scripts/convert_binary_symptoms.py:48-67 | the loop over a chunk appends its rows' records and counts every row |
| Converters.RecordsAppend | Data/scripts/convert_binary_symptoms.py:45 | reading in chunks gives the same records as reading in one piece |
| Converters.RecordOfSpec | milestone1/src/convert_binary_symptoms.py:38-53 | a record exists exactly when some symptom equals 1; it holds the row's first cell, the ", " join of the active names and their number, at least 1; the join splits back into the names when no column holds ", " |
| Converters.RecordsBound | Data/scripts/convert_binary_symptoms.py:59-67 | no more records than rows processed |
| Converters.ConvertersAgree | Data/scripts/convert_binary_symptoms.py:53-56 | the two converters pick the same names for a row whose texts `int` reads as 1 exactly where the frame holds 1 |
| Converters.SummaryTokens | Data/scripts/convert_binary_symptoms.py:112-115 | the loop collects, row by row, the stripped pieces of each symptoms string split on ",", empty pieces kept |
| Converters.CreateSummaryAnalysis | Data/scripts/convert_binary_symptoms.py:102-115 | with no record it fails with KeyError at `df['disease']` (the frame of an empty list has no columns), and only then; otherwise the tokens of every record's symptoms, in order, at least one per record |
| Converters.TokenTotal | Data/scripts/convert_binary_symptoms.py:112-117 | the counts of `value_counts` add up to the number of tokens, which is the sum over rows of (commas + 1); there are no more distinct symptoms than tokens |
| Converters.RecordTokens | Data/scripts/convert_binary_symptoms.py:112-115 | the summary reads a record's ", " join back as the stripped names when no name holds "," |

## Left out

- Reading and writing CSV and JSON files, `glob`, folder management, printing, progress bars and `json.dump` layout are not modelled. Files are sequences of rows and the outputs are values.
- DuckDB's `read_csv_auto` type inference and polars' dtype inference are not modelled: every cell is a string or null. The Boolean → Int8 cast in cleaning therefore has no counterpart.
- Lower-casing is ASCII only; Unicode case mapping is out.
- The order of `list(set(...))` for treatments and sources is Python's hash order, so they are modelled as sets. JSON key order is not modelled either.
- polars' `unique()` and `sort()` fix no order among rows with equal names. The cleaning, merge and report tasks are specified by a predicate that any admissible result meets (`Unique.IsUniqueSortedOf` for merge and report, `Cleaning.CleanSpec` for cleaning), and one concrete result is computed; cleaning's `unique()` keeps first occurrences in input order.
- The renames and the `drop("")` before `add_col_to_df` in the preparation tasks are out; modelling starts from the renamed table.
- `csv.DictReader` fills a short row's missing fields with `None`, which `str()` turns into "None". The model reads a missing field as the `get` default instead.
- Builder.GenerateJsons: every CSV row is read (`RowsOf`) before the row loop begins, rather than inside it. Reading is a pure function of the row, so the result is the same.
- Builder.IndexBuilder.FinalizeDiseases: builds a new map of finalised entries rather than updating the dictionaries in place.
- The named-entity model and tokenizer of `nlp_processor.py` are external. `extract_symptoms` takes the recognition results as its input, and the report task takes the extractor as a function parameter.
- Binary.ParsePyInt: Unicode digits, which Python's `int()` also accepts, are not modelled; only ASCII digits are.
- pandas' typing of matrix cells is abstracted as `Cell` (integer, text or missing). A float `1.0` or a boolean `True`, which also equal 1, are out. So are NaN padding of short rows and the parsing of the CSV into chunks; the chunks are an input.
- Converters.ConvertFrame: requires every row to have one cell per column, which a pandas frame guarantees; `read_csv`'s parsing is out.
- The summary averages, maxima and minima, percentages, plots and report files are floating-point or I/O and are out. So are `value_counts` ordering, `head(10)`/`head(20)` and `groupby` keys that are NaN.
- The DAG wiring (`data_prep_dag.py`), the alternative and broken DAG files, the random text generator (`convert_to_text_format.py`) and the data characterization scripts are not part of this model.
