# MultiOmicsData: sample alignment and queries over TCGA multi-omics tables

`MultiOmicsData` (TCGAMultiOmics/multiomics.py) holds one cancer cohort's
omics tables, one per activated modality tag (GE, SNP, CNV, DNA, MIR, LNC,
PRO), plus the clinical patient, drug and per-sample tables. WSI is
accepted as a tag, but its loader is disabled and no table is stored for
it. As written, activating WSI (as the default list does) makes
construction fail at line 128. The class here implements the corrected
sample union described under "## Findings", which skips tags without a
table. Its query layer does three things:

- it intersects the modalities' sample barcodes;
- it builds a target table of clinical fields for the chosen samples,
  filtered by pathologic stage, histologic subtype, predicted subtype and
  tumor/normal type, and keeps only rows that are complete in the target
  columns;
- it slices every requested modality table to exactly the target table's
  barcodes, in the same order.

This project models that layer and proves what it promises.

- `results.dfy`: `Option` and `Result`, the latter usable with `:-`.
- `tables.dfy` (module `Tables`): a table is a set of columns, an ordered
  index of sample barcodes and a map from barcode to record. A record maps a
  field to an optional value, where `None` is a missing value.
  - `Reindex` is pandas `reindex`.
  - `Where` is boolean row selection by a list of first-order criteria.
  - `Project` is `DataFrame.filter`, which skips absent labels.
  - `DropMissing` is `dropna(axis=0)`.
  - `Slice` is `.loc[ids, :]`.
  - It also holds the selection lemmas these need: subsequence, membership,
    distinctness and composition.
- `modalities.dfy` (module `Modalities`): the modality tags, the
  `__getitem__` tag dispatch, and the constructor's default list.
- `query.dfy` (module `Query`): the registry's operations as functions of
  its state, with the lemmas that state their properties.
- `registry.dfy` (module `Registry`): class `MultiOmicsData`. Its fields
  are what the source keeps in `self.data`. Its methods run the source's
  loops:
  - the loading chain and the sample-union loop of `__init__`;
  - the join loop of `match_samples`;
  - the filter chain and the slicing loop of `load_data`;
  - the table replacement of `add_subtypes_to_patients_clinical`.

  Each method is proved to compute exactly the `Query` function that
  specifies it.

Errors are values of `Query.Error`, one constructor per exception the
source can raise:

- the explicit "Need to specify which multi-omics" exception;
- IndexError on an empty modality list;
- KeyError for a modality missing from `self.data`;
- AttributeError for an unassigned modality store;
- KeyError for a missing column;
- KeyError from `.loc` with labels absent from a modality.

Some behaviour of the source is easy to miss.

- `add_subtypes_to_patients_clinical` replaces the PATIENTS table only.
  `load_data` reads the SAMPLES table, which was derived once at
  construction. So a subtype added afterwards is not visible to the
  `predicted_subtypes` filter.
  - In `Registry.MultiOmicsData` the sample table and the modality tables
    are constants, so `AddSubtypesToPatientsClinical` cannot change them.
  - `load_data`'s result is a function of exactly those, plus the modality
    list.
  - The docstring of the method (lines 247-248) suggests otherwise. Whether
    the clinical store shares data between the two tables lies outside the
    shown source, so this is recorded here and not as a finding.
- The `.loc` slice fails only when an explicit barcode list names a sample
  that some requested modality lacks. Without such a list it cannot fail
  (`Query.NoOverrideAlwaysSlices`).

## Model

| member | source | states |
|---|---|---|
| Modalities.TagOf | TCGAMultiOmics/multiomics.py:134-153 | a recognised tag is the name of the modality returned; an unrecognised string names no modality |
| Modalities.TagOfName | TCGAMultiOmics/multiomics.py:134-153 | every modality's own tag dispatches to that modality |
| Tables.Reindex | TCGAMultiOmics/multiomics.py:231 | the index is exactly the requested barcodes in the requested order; a known barcode keeps its row, an unknown one gets a row with every column missing; columns are unchanged; well-formedness is kept |
| Tables.Where | TCGAMultiOmics/multiomics.py:201-208 | selection keeps the columns, yields a subsequence of the index, keeps exactly the rows meeting every criterion, unchanged, and keeps well-formedness and distinctness; how many copies of a repeated barcode it keeps is stated by Tables.WhereCount |
| Tables.SelectIdsCount | TCGAMultiOmics/multiomics.py:201-214 | a selection over a barcode list keeps each passing barcode as often as the list holds it, and drops every copy of a failing one |
| Tables.WhereCount | TCGAMultiOmics/multiomics.py:201-208 | a boolean mask keeps every copy of a passing barcode the index lists, and no copy of any other |
| Tables.WhereNothing | TCGAMultiOmics/multiomics.py:201-208 | selecting with no criteria returns the table itself |
| Tables.WhereTwice | TCGAMultiOmics/multiomics.py:201-208 | two successive selections equal one selection by both criteria lists together |
| Tables.Project | TCGAMultiOmics/multiomics.py:213 | projection keeps index and row keys, keeps exactly the requested labels the table has (absent ones are skipped), and narrows every row to them |
| Tables.ProjectKeepsCompleteRows | TCGAMultiOmics/multiomics.py:213-214 | a row is complete in the projected columns after projection exactly when it was before |
| Tables.DropMissing | TCGAMultiOmics/multiomics.py:214 | keeps exactly the rows with a value in every column, unchanged, as a subsequence of the index; columns unchanged; copies are stated by Tables.DropMissingCount |
| Tables.DropMissingCount | TCGAMultiOmics/multiomics.py:214 | every copy of a complete row's barcode is kept, and no copy of an incomplete one |
| Tables.Slice | TCGAMultiOmics/multiomics.py:221 | for barcodes all present, the slice is indexed by exactly those barcodes in that order with the original rows and columns |
| Query.Resolve | TCGAMultiOmics/multiomics.py:186-191 | 'all' and None give the constructor's modality list, a non-empty list is used as given, and only the empty list is an error (the explicit exception) |
| Query.JoinFacts | TCGAMultiOmics/multiomics.py:166 | an inner join keeps exactly the running barcodes the other index has, as a subsequence, keeping distinctness |
| Query.Join | TCGAMultiOmics/multiomics.py:166 | the inner join of the running barcodes with a modality's index; its contract is stated by Query.JoinFacts |
| Query.MatchFrom | TCGAMultiOmics/multiomics.py:163-166 | the join loop over the modalities still to visit; its contract is stated by Query.MatchFromFacts |
| Query.MatchFromFacts | TCGAMultiOmics/multiomics.py:165-166 | the join loop fails exactly on a modality not loaded, and otherwise keeps exactly the running barcodes present in every visited modality, as a subsequence |
| Query.Match | TCGAMultiOmics/multiomics.py:155-168 | match succeeds exactly when the list is non-empty and every modality is loaded (IndexError on empty, KeyError naming an unloaded one); the result is exactly the first index's barcodes present in every requested modality, a subsequence of the first index, distinct when it is, and may be empty |
| Query.MatchSingle | TCGAMultiOmics/multiomics.py:162-166 | one requested modality yields its full index |
| Query.MatchWithinEachModality | TCGAMultiOmics/multiomics.py:155-168 | the intersection lies within the single-modality match of each requested modality |
| Query.MatchTwoModalities | TCGAMultiOmics/multiomics.py:155-168 | indexes A,B,C and B,C,D match to B,C |
| Query.FilterIn | TCGAMultiOmics/multiomics.py:201-208 | an empty list returns the table unchanged; otherwise it fails exactly when the column is absent and keeps exactly the rows whose field value is in the list, as a subsequence, columns unchanged; copies are stated by Query.FilterInCount |
| Query.FilterInCount | TCGAMultiOmics/multiomics.py:201-208 | a non-empty `isin` filter keeps every copy of a barcode whose value is in the list, and no copy of any other |
| Query.FilterInIsWhere | TCGAMultiOmics/multiomics.py:201-208 | each guarded filter is the selection by its criteria |
| Query.FiltersConjunctive | TCGAMultiOmics/multiomics.py:201-208 | the four filters succeed exactly when every non-empty one names an existing column, and then equal one selection by all active criteria |
| Query.ApplyFilters | TCGAMultiOmics/multiomics.py:201-208 | the four guarded filters in order; its contract is stated by Query.FiltersConjunctive and Query.EmptyFiltersAreNoOps |
| Query.EmptyFiltersAreNoOps | TCGAMultiOmics/multiomics.py:201-208 | with all four lists empty no criterion is active and the table comes back unchanged |
| Query.TargetFor | TCGAMultiOmics/multiomics.py:198-214 | reindex, filter, project and drop incomplete rows; its contract is stated by Query.TargetForIndex and Query.TargetForFacts |
| Query.TargetForIndex | TCGAMultiOmics/multiomics.py:198-214 | the target table fails only on a missing filter column; its columns are the requested target columns present; its index is the candidates passing all filters and complete in those columns |
| Query.TargetForFacts | TCGAMultiOmics/multiomics.py:198-216 | the target's index is an order-preserving subsequence of the candidate barcodes, holding exactly those whose clinical row (all-missing when unknown) passes every filter and is complete; every target cell has a value equal to the clinical value |
| Query.StageFilterOnlyNarrows | TCGAMultiOmics/multiomics.py:201-202 | adding a pathologic-stage restriction only removes samples from the target |
| Query.Prepare | TCGAMultiOmics/multiomics.py:186-216 | an empty modality list is an error; on success the modalities are exactly the resolved selection, non-empty and loaded; the candidates are the explicit barcode list when given and the match otherwise; the target is built from those candidates |
| Query.PrepareFails | TCGAMultiOmics/multiomics.py:186-208 | preparation succeeds exactly when the selection resolves, the match succeeds and every non-empty filter names an existing column; otherwise it raises the explicit exception, the match's error, or a missing-column error, in that order |
| Query.OverrideReplacesMatch | TCGAMultiOmics/multiomics.py:193-195 | with an explicit barcode list, which samples the modalities share does not affect the result |
| Query.SliceFrom | TCGAMultiOmics/multiomics.py:219-221 | the slicing loop over the modalities still to visit; its contract is stated by Query.SliceFromFacts |
| Query.SliceFromFacts | TCGAMultiOmics/multiomics.py:219-221 | the slicing loop succeeds exactly when every requested modality is loaded and holds every barcode, and then maps each requested modality to its slice |
| Query.Assemble | TCGAMultiOmics/multiomics.py:216-223 | slice every prepared modality to the target's index; its contract is stated by Query.AssembleAligned |
| Query.AssembleAligned | TCGAMultiOmics/multiomics.py:216-223 | one table per requested modality, each indexed by exactly the target's index with that modality's rows and columns |
| Query.LoadData | TCGAMultiOmics/multiomics.py:170-223 | preparation followed by slicing; its contract is stated by Query.LoadDataAligned, Query.NoOverrideAlwaysSlices and Query.PrepareFails |
| Query.LoadDataAligned | TCGAMultiOmics/multiomics.py:170-223 | once preparation succeeds, loading fails exactly when a surviving barcode is missing from a requested modality; on success there is one table for each modality of the resolved selection, and every one shares the target's ordered index, with its rows taken from that modality |
| Query.NoOverrideAlwaysSlices | TCGAMultiOmics/multiomics.py:193-221 | without an explicit barcode list, slicing cannot fail |
| Query.SubtypeOf | TCGAMultiOmics/multiomics.py:253 | the subtype is the dictionary's value for the row's patient barcode, and missing when there is none |
| Query.AddSubtypes | TCGAMultiOmics/multiomics.py:240-253 | fails exactly when the patient barcode column is absent; otherwise same index and rows, the existing columns plus predicted_subtype, every other field unchanged, the new field from the dictionary |
| Query.AddSubtypesIdempotent | TCGAMultiOmics/multiomics.py:252-253 | assigning the column twice with one dictionary is the same as once |
| Query.Loaded | TCGAMultiOmics/multiomics.py:67-121 | the stored modality tables are exactly the activated tags except WSI, each from its loader |
| Query.UnionAsWritten | TCGAMultiOmics/multiomics.py:126-128 | the union loop as written, failing on an activated tag without a table; its contract is stated by Query.UnionAsWrittenFailsOnUnloaded |
| Query.UnionOf | TCGAMultiOmics/multiomics.py:126-128 | the corrected union loop, skipping tags without a table; its contract is stated by Query.UnionOfContainsEveryIndex |
| Query.UnionOfContainsEveryIndex | TCGAMultiOmics/multiomics.py:126-129 | the union holds every barcode of every activated loaded modality and nothing else |
| Query.UnionAsWrittenFailsOnUnloaded | TCGAMultiOmics/multiomics.py:126-128 | the loop as written raises KeyError exactly when an activated tag has no table, and otherwise equals the corrected union |
| Query.WsiAbortsUnionAsWritten | TCGAMultiOmics/multiomics.py:126-128 | activating WSI makes the loop as written raise KeyError for WSI |
| Query.DefaultModalitiesAbortConstruction | TCGAMultiOmics/multiomics.py:14 | with the default modality list the loop as written fails |
| Registry.LoadActivated | TCGAMultiOmics/multiomics.py:67-121 | the if-chain stores exactly the loaded tables of the activated tags |
| Registry.SampleUnion | TCGAMultiOmics/multiomics.py:126-128 | the corrected loop of the "## Findings" row: it skips activated tags without a table and leaves exactly the barcodes of the activated loaded modalities |
| Registry.MultiOmicsData.constructor | TCGAMultiOmics/multiomics.py:56-130 | stores the inputs and the loaded tables, derives SAMPLES from the corrected union of all loaded indexes (see "## Findings"; as written the loop fails when WSI is activated), and establishes the class invariant |
| Registry.MultiOmicsData.GetItem | TCGAMultiOmics/multiomics.py:134-153 | an unknown string gives nothing; a known tag gives its loaded table, and AttributeError when none was stored, always for WSI |
| Registry.MultiOmicsData.GetItemByTag | TCGAMultiOmics/multiomics.py:134-153 | looking up a modality by its own tag finds its table exactly when it was loaded |
| Registry.MultiOmicsData.MatchSamples | TCGAMultiOmics/multiomics.py:155-168 | the loop computes the match exactly, and with it the barcodes in every requested modality, without repeats |
| Registry.MultiOmicsData.GetPatientsClinical | TCGAMultiOmics/multiomics.py:226-231 | one row per requested barcode in the requested order, all-missing for unknown barcodes |
| Registry.MultiOmicsData.LoadData | TCGAMultiOmics/multiomics.py:170-223 | the method computes the load exactly; it returns one table per modality of the resolved selection, each sharing the target's index; without an explicit barcode list a successful preparation always loads and the target's barcodes are distinct |
| Registry.MultiOmicsData.AddSubtypesToPatientsClinical | TCGAMultiOmics/multiomics.py:240-253 | replaces the patient table by its subtype-extended version, or fails and leaves it; the invariant is kept (the sample and modality tables are constants of the class) |

## Left out

- File loading (lines 62-123). `ClinicalData` and the genomic classes read files whose formats and code are not part of this model. The constructor takes the loaded patient and drug tables, a loader function per modality, and the clinical store's sample derivation (`build_clinical_samples`) as parameters. The data paths are not modelled.
- The enrichment `try`/`except FileNotFoundError` blocks (lines 75-85, 94-100, 108-111). They only print or call external-database parsers. This includes the MIR block's use of `self.GE`, which raises an AttributeError that the `except` does not catch when MIR is activated without GE.
- The protein interaction network call (lines 122-123). It is not guarded, so a missing HPRD file aborts construction when PRO is activated. It reads external files, like the loaders.
- `print_sample_sizes` and `get_multiomics_interactions`: printing and graph construction over code this model does not have.
- Registry.MultiOmicsData.GetItem: returns the modality's table rather than the store object (`GeneExpression` etc.) that `__getitem__` returns. The store classes are not part of this model.
- Query.Match: keeps the first index's order. pandas `Index.join` may sort the joined index, and that order is not modelled. Modality indexes are assumed free of duplicate barcodes (the class invariant), so join never repeats a row.
- Query.UnionOf: modelled as a set. pandas sorts the union, but it is only used to build SAMPLES, which is then reindexed.
- pandas value semantics: NaN and dtypes are reduced to `Option` over text and integer values. Floats and type coercion are not modelled.
- The `load_data` keyword defaults (the `target` of `['pathologic_stage']`, empty filters, no barcode list): the model takes every argument explicitly.
- Names in a `match_samples` or `load_data` list that are no modality tag are not representable. "PATIENTS", "DRUGS" and "SAMPLES" are keys of `self.data` (lines 63, 65, 130), so the source would join and slice those clinical tables like modalities. Any other such name raises KeyError, as an unloaded tag does.
- The DRUGS table is stored and otherwise unused, as in the source.
- The sample clinical table is required to have distinct barcodes (`Keyed`), because pandas `reindex` (line 231) raises on a duplicate index. That error is not modelled.

## Findings

| source | as written | input that shows it | evidently intended | confidence | as-written member | corrected member |
|---|---|---|---|---|---|---|
| TCGAMultiOmics/multiomics.py:128 | the sample-union loop reads `self.data[modality]` for every activated tag, but the WSI branch (lines 67-70) never stores a WSI table | the default modality list (line 14), or any list containing "WSI" | skip activated tags that have no loaded table | not executed; high | Query.UnionAsWritten, Query.WsiAbortsUnionAsWritten | Query.UnionOf, Query.UnionOfContainsEveryIndex |
