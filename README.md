# Gene Ontology feature construction: a verified model

This project models two pieces of a gene-function prediction pipeline, written in Python 2.

**GO_prediction/GO_utils.py** builds the data behind one prediction problem:

- It maps NCBI Entrez gene ids to Ensembl gene ids, using a biomart table. Field 2 of each
  line is the key and field 0 the value, and a later line overwrites an earlier one.
- It expands GO terms into their descendant closure.
- It collects the Ensembl genes annotated to a term or to any of its descendants.
- It sorts terms by decreasing gene count.
- It reads the positive and negative example rows out of an expression (RPKM) table. A
  positive is the first row of a target gene. A negative is a row whose index was chosen.

**preprocessing/generate_pca_of_log_rpkm.py** turns the expression table into
per-tissue reduced features:

- It reads the tissue list and each tissue's column list.
- It counts the genes, then fills a pre-sized matrix with log expression levels.
- It reduces each tissue's columns to five components.
- It lays the blocks side by side, with one tissue label per column.

## How the model is organised

- **Files are sequences of lines.** A file is the `seq<string>` its iterator yields; a
  line keeps its terminator.
- **Fixed paths become inputs.** A file read at a hard-coded path is a parameter of the
  operation. The tissue metadata files are a `map` from path to lines.
- **Python string built-ins are modelled as written.** `str.split`, `str.rstrip` (ASCII
  whitespace), `str.find` and slicing with Python's clamping are modelled exactly (module
  `Text`). `int()` is Python 2's base-10 reading: whitespace, an optional sign, whitespace
  again, digits and trailing whitespace (module `Decimal`).
- **Exceptions are values.** Every exception the code can raise on bad input is an
  `Err(...)` value of `Outcome.Result`, never a precondition. This covers IndexError on a
  short line, ValueError from `float`/`int`/numpy shapes, IOError for a missing file,
  AssertionError, KeyError and NameError. A loop that stops at its first exception is the
  fold `Outcome.Collect` or a fold of the same shape.
- **Loops are methods checked against a specification function.** Each loop of the source
  is a `method` with invariants, proved equal to a function. The lemmas beside that
  function state what it means.
- **The two numpy arrays are Dafny arrays.** `full_mtx` and `reduced_mtx` are `array2<real>`.
  `gene_ids` and `reduced_cols` are `array<string>`.
- **`GOterm` is a class.** Its fields `descendantIds` and `genes` are updated in place.
- **Floating point is a parameter.** In GO_utils.py, `number` stands for `float`, and
  `None` where `float` raises ValueError. In the script, `level` stands for
  `np.log10(float(x) + 1.0)`, or `None` where `float` raises. `reducer` stands for
  normalisation followed by `PCA(n_components=5)`.
- **The goatools inputs are maps.** `go2entrez` stands for `read_ncbi_gene2go` and is
  looked up as a defaultdict. `search` stands for `GoSearch.add_children_gos`.
- **The whole-script model is the corrected script.** The script means to normalise each
  tissue's columns before PCA (preprocessing/generate_pca_of_log_rpkm.py:132-133), but it
  calls `normalize_columns`, which it never defines. As written it raises NameError at its
  first tissue and never reaches `first_row`: that is `LogRpkmPca.TissueBlockAsWritten` and
  `LogRpkmPca.AsWrittenNeverReduces`. `LogRpkmPca.TissueBlock` is the intended reduction,
  with normalisation folded into `reducer`. `ReduceTissues`, `Generated`, `GeneratedAligned`
  and `GeneratePca` model the script with that correction (see Findings).

## Model

| member | source | states |
|---|---|---|
| Outcome.CollectErrSticks | preprocessing/generate_pca_of_log_rpkm.py:103-116 | once an exception has been raised, later lines change nothing |
| Outcome.CollectMeaning | preprocessing/generate_pca_of_log_rpkm.py:103-116 | the loop completes iff every step succeeds, then keeps every value in order; otherwise it reports the first failing step's error |
| Text.IndexOf | GO_prediction/GO_utils.py:163 | `find` returns -1 or an in-range index holding the character |
| Text.IndexOfIsFirst | GO_prediction/GO_utils.py:163 | no earlier position holds the character |
| Text.IndexOfAbsent | GO_prediction/GO_utils.py:163 | -1 exactly when the character is absent |
| Text.Split | GO_prediction/GO_utils.py:41 | `split` gives at least one piece and no piece contains the separator |
| Text.Find | GO_prediction/GO_utils.py:164 | `find` from a start position: -1 exactly when the character does not occur at or after the start, otherwise the first such index |
| Text.Slice | GO_prediction/GO_utils.py:165 | Python slicing: element k of the result is element `lo + k` of the text, and its length follows from clamping both ends, a negative end counting from the back |
| Text.JoinSplit | GO_prediction/GO_utils.py:41 | joining the pieces of `split` with the separator gives back the line |
| Text.SplitJoin | preprocessing/generate_pca_of_log_rpkm.py:25 | splitting a join of separator-free pieces gives back the pieces |
| Text.SplitHead | GO_prediction/GO_utils.py:41 | the first piece is the text before the first separator; the rest is the split of what follows |
| Text.Fields | preprocessing/generate_pca_of_log_rpkm.py:25 | `rstrip().split('\t')`: at least one field, none holding a tab, and joined by tabs they give back the stripped line |
| Text.RStrip | preprocessing/generate_pca_of_log_rpkm.py:25 | `rstrip()` removes exactly the trailing ASCII whitespace and keeps the prefix |
| Text.StripVersion | GO_prediction/GO_utils.py:167-168 | the id cut before its first '.', unchanged when it has none |
| Text.StripVersionIdempotent | GO_prediction/GO_utils.py:167-168 | cutting the version twice is cutting it once |
| Text.StripVersionIgnoresSuffix | GO_prediction/GO_utils.py:167-168 | any version suffix after a dot-free base is dropped |
| Decimal.DigitChar | GO_prediction/GO_utils.py:78 | a digit below ten prints as a decimal digit character |
| Decimal.NatToDecimal | GO_prediction/GO_utils.py:78 | `str` of a natural number is a non-empty digit string without a leading zero |
| Decimal.LStrip | preprocessing/generate_pca_of_log_rpkm.py:38 | the leading whitespace `int()` ignores is removed and nothing else |
| Decimal.ParseInt | preprocessing/generate_pca_of_log_rpkm.py:38 | `int()` rejects a blank text, and a negative value needs a minus sign in the text |
| Decimal.ParseLevels | GO_prediction/GO_utils.py:179 | the list comprehension over `float` yields values iff every field converts, and then field k gives value k |
| Decimal.DigitsValueOfDecimal | GO_prediction/GO_utils.py:78 | reading back the printed digits gives the number |
| Decimal.RStripOfPadded | preprocessing/generate_pca_of_log_rpkm.py:25 | stripping whitespace padding restores a text that does not end in whitespace |
| Decimal.LStripOfPadded | preprocessing/generate_pca_of_log_rpkm.py:38 | stripping leading whitespace padding restores a text that does not start with it |
| Decimal.ParseIntOfDecimal | preprocessing/generate_pca_of_log_rpkm.py:38 | `int()` of a printed number, with any whitespace around it, is that number |
| Decimal.ParseIntOfSigned | preprocessing/generate_pca_of_log_rpkm.py:38 | whitespace may separate the sign from the digits: `int(" - 5 ")` is -5 |
| Decimal.ParseIntRejects | preprocessing/generate_pca_of_log_rpkm.py:38 | a character that is neither whitespace, a digit nor a sign makes `int()` raise |
| Decimal.NatToDecimalInjective | GO_prediction/GO_utils.py:78 | distinct Entrez ids print differently, so `str(ent_id)` lookups never confuse two genes |
| StableSort.SortDescending | GO_prediction/GO_utils.py:34 | the sorted list has as many terms as the input |
| StableSort.InsertPermutes | GO_prediction/GO_utils.py:34 | inserting one term adds exactly that term |
| StableSort.InsertSorted | GO_prediction/GO_utils.py:34 | inserting into a non-increasing list keeps it non-increasing |
| StableSort.InsertWithKey | GO_prediction/GO_utils.py:34 | insertion keeps the relative order of terms with equal key |
| StableSort.SortDescendingSorted | GO_prediction/GO_utils.py:34 | `sorted(..., reverse=True)` yields non-increasing keys |
| StableSort.SortDescendingPermutes | GO_prediction/GO_utils.py:34 | the sorted list is a permutation of the input |
| StableSort.SortDescendingStable | GO_prediction/GO_utils.py:34 | terms with equal gene counts keep their input order |
| IdentifierMap.EntrezToEnsembl | GO_prediction/GO_utils.py:37-47 | the dictionary has at most one entry per line; a failure names a line without field 2 |
| IdentifierMap.EntrezToEnsemblErrSticks | GO_prediction/GO_utils.py:40-44 | once a short line raises IndexError, later lines change nothing |
| IdentifierMap.MapEntrezToEnsembl | GO_prediction/GO_utils.py:37-47 | the reading loop builds exactly the map the fold specifies, or raises at the same line |
| IdentifierMap.EntrezToEnsemblFails | GO_prediction/GO_utils.py:41-43 | the map is built iff every line has at least three fields; otherwise the error names the first short line |
| IdentifierMap.EntrezToEnsemblKeys | GO_prediction/GO_utils.py:44 | the map's keys are exactly the Entrez fields of the lines, and there are no more keys than lines |
| IdentifierMap.EntrezToEnsemblLastWins | GO_prediction/GO_utils.py:44 | for every Entrez id, the mapped Ensembl id comes from the last line carrying that id |
| IdentifierMap.MapIds | GO_prediction/GO_utils.py:142-144 | never longer than the Entrez list, and every entry is an Ensembl id of the mapping |
| IdentifierMap.EnsemblIds | GO_prediction/GO_utils.py:142-144 | the loop over Entrez ids appends the mapped id of every mapped one, in order |
| IdentifierMap.MapIdsMembers | GO_prediction/GO_utils.py:142-144 | a gene is in the result iff some Entrez id in the input maps to it |
| IdentifierMap.MapIdsConcat | GO_prediction/GO_utils.py:119-121 | mapping a concatenation maps each part |
| IdentifierMap.MapIdsLength | GO_prediction/GO_utils.py:119-121 | ids without a mapping are dropped, never added; when all are mapped the result is the pointwise image |
| GoTerms.GoTerm.constructor | GO_prediction/GO_utils.py:18-21 | a new term has the given id, no descendants and no genes |
| GoTerms.GoTerm.AddDescendants | GO_prediction/GO_utils.py:23-24 | the descendants become the search result for the term's id, and nothing else changes |
| GoTerms.WithGeneCountIsWithKey | GO_prediction/GO_utils.py:34 | selecting terms by gene count is selecting by the sort key |
| GoTerms.SortGoTerms | GO_prediction/GO_utils.py:27-34 | the result is a permutation, ordered by non-increasing gene count, stable among equal counts |
| GoTerms.SortGoTermsCorrect | GO_prediction/GO_utils.py:34 | the key-based stable descending sort has those three properties on the terms' gene counts |
| GoTerms.TermGenes | GO_prediction/GO_utils.py:75-80 | every collected gene is an Ensembl id of the mapping |
| GoTerms.TermGenesMembers | GO_prediction/GO_utils.py:75-80 | a gene is collected iff some listed term has an Entrez id that maps to it |
| GoTerms.TermGenesMonotone | GO_prediction/GO_utils.py:75-80 | more terms never collect fewer genes |
| GoTerms.AddMappedGenes | GO_prediction/GO_utils.py:77-80 | the term's gene set grows by exactly the mapped ids of one term's Entrez ids |
| GoTerms.CollectGenes | GO_prediction/GO_utils.py:75-80 | the term's gene set grows by exactly the mapped genes of the term and all its descendants |
| GoTerms.NewExpandedTerm | GO_prediction/GO_utils.py:71-80 | a fresh term with the line's GO id, its descendants and their genes |
| GoTerms.ExpandTerms | GO_prediction/GO_utils.py:63-83 | one distinct fresh, expanded term per line after the two skipped header lines, in file order |
| GoTerms.GetGoTermsDescendants | GO_prediction/GO_utils.py:50-83 | the biomart error, or the expanded terms of every gene-count line after the header |
| GoTerms.TopCount | GO_prediction/GO_utils.py:103-114 | at most `top` terms (none when `top` is not positive) and at most the data lines; fewer than `top` only when the table runs out |
| GoTerms.GetGoTerms | GO_prediction/GO_utils.py:86-125 | the biomart error, or for each of the first `top` lines after the header the GO id with its mapped Ensembl ids, in order |
| GoTerms.GetEnsemblIds | GO_prediction/GO_utils.py:129-147 | the biomart error, or the mapped Ensembl ids of the process's Entrez ids, in order |
| ExampleSets.BetweenFirstTabs | GO_prediction/GO_utils.py:163-165 | the id read between the first two tabs never contains a tab and is no longer than the line |
| ExampleSets.BetweenFirstTabsIsSecondField | GO_prediction/GO_utils.py:163-165 | with at least two tabs, the text between the first two tabs is field 1 of the split |
| ExampleSets.BetweenFirstTabsWithoutTab | GO_prediction/GO_utils.py:163-165 | on a line without a tab, `find` gives -1 twice and the slice is the line without its last character |
| ExampleSets.PositivesOf | GO_prediction/GO_utils.py:170-181 | the three outputs have one entry each per kept row, at most one per row; a failure is a `float` or width error at an existing row |
| ExampleSets.PositivesErrSticks | GO_prediction/GO_utils.py:179-180 | once `float` or a row of the wrong width raises, later rows change nothing |
| ExampleSets.GetPositiveExamples | GO_prediction/GO_utils.py:150-184 | the loop computes the specified positives, and on success counts every data line |
| ExampleSets.PositivesAligned | GO_prediction/GO_utils.py:170-180 | features, row indices and ids stay aligned; indices increase; ids are distinct targets taken from the rows they came from; each feature row is its own row's fields as `float` converts them, `num_features` wide |
| ExampleSets.PositivesFirstOccurrence | GO_prediction/GO_utils.py:174 | each kept gene is its first occurrence, and every target gene present in the table is kept |
| ExampleSets.PositivesFails | GO_prediction/GO_utils.py:170-181 | success iff every row the pass takes (a target gene's first row) converts to `num_features` numbers; otherwise the error names the first such row that does not, with BadNumber iff some field is not a number and RowWidth iff all are and the width differs |
| ExampleSets.SelectedRowsExactly | GO_prediction/GO_utils.py:199 | the negative rows visited are exactly the chosen indices below the row count, in increasing order |
| ExampleSets.NegativesOf | GO_prediction/GO_utils.py:199-210 | ids and features have one entry each per kept row, at most one per row; a failure is an IndexError, `float` or width error at a chosen row |
| ExampleSets.NegativesErrSticks | GO_prediction/GO_utils.py:199-209 | once a chosen row raises, later rows change nothing |
| ExampleSets.GetNegativeExamples | GO_prediction/GO_utils.py:187-213 | the loop computes the specified negatives |
| ExampleSets.NegativesCorrespond | GO_prediction/GO_utils.py:199-209 | the k-th negative is the k-th selected row's id and its fields as `float` converts them, every row `num_features` wide |
| ExampleSets.NegativesFails | GO_prediction/GO_utils.py:199-209 | success iff every chosen row has field 1 and converts to `num_features` numbers; otherwise the error names the first chosen row that fails, with the first reason the code meets |
| TissueColumns.GetTissueList | preprocessing/generate_pca_of_log_rpkm.py:22-27 | an empty file leaves `tissues` unbound; otherwise the tissues are tab-free and, joined by tabs, give the stripped first line |
| TissueColumns.TissueListOfHeader | preprocessing/generate_pca_of_log_rpkm.py:22-27 | a header written as tab-joined tissue names plus a line ending reads back as those names |
| TissueColumns.ColumnField | preprocessing/generate_pca_of_log_rpkm.py:38 | `int()` of the text before the first tab (the whole line without one); a line that starts with a tab has no column |
| TissueColumns.ColumnsOf | preprocessing/generate_pca_of_log_rpkm.py:35-39 | one column per line after the header; a failure names a later line of that tissue's file whose field 0 `int()` rejects |
| TissueColumns.ColumnsOfErrSticks | preprocessing/generate_pca_of_log_rpkm.py:35-39 | once `int()` raises, later lines change nothing |
| TissueColumns.ReadColumns | preprocessing/generate_pca_of_log_rpkm.py:35-39 | the loop computes the specified column list or the specified error |
| TissueColumns.ColumnsOfMeaning | preprocessing/generate_pca_of_log_rpkm.py:35-39 | success iff every line after the header parses; the columns are those values in order; otherwise the first failing line is named |
| TissueColumns.ColumnFieldOfPrinted | preprocessing/generate_pca_of_log_rpkm.py:38 | a line starting with a printed column index and a tab reads back as that index |
| TissueColumns.ColumnsOfPrinted | preprocessing/generate_pca_of_log_rpkm.py:35-39 | a metadata file written that way reads back as its column list |
| TissueColumns.ColumnsOfAllPresent | preprocessing/generate_pca_of_log_rpkm.py:35-39 | when every line after the header parses, the result is those values |
| TissueColumns.TissuesToCols | preprocessing/generate_pca_of_log_rpkm.py:29-41 | every key is a listed tissue holding its own reading; a failure is the error of some listed tissue |
| TissueColumns.TissuesToColsErrSticks | preprocessing/generate_pca_of_log_rpkm.py:31-40 | once a tissue's metadata fails, later tissues change nothing |
| TissueColumns.ReadTissueColumns | preprocessing/generate_pca_of_log_rpkm.py:32-39 | a missing metadata file, or the columns of that tissue's file |
| TissueColumns.GetTissuesToCols | preprocessing/generate_pca_of_log_rpkm.py:29-41 | the loop computes the specified dictionary or the first tissue's error |
| TissueColumns.TissuesToColsKeys | preprocessing/generate_pca_of_log_rpkm.py:40 | the dictionary's keys are exactly the listed tissues |
| TissueColumns.TissuesToColsEntries | preprocessing/generate_pca_of_log_rpkm.py:40 | each tissue's entry is the column list read for it |
| TissueColumns.TissuesToColsFails | preprocessing/generate_pca_of_log_rpkm.py:31-40 | the dictionary is built iff every tissue's columns can be read |
| TissueColumns.ColumnsForFails | preprocessing/generate_pca_of_log_rpkm.py:33-39 | a tissue's columns can be read iff its metadata file exists and every line after its header parses |
| TissueColumns.ColumnsInRemove | preprocessing/generate_pca_of_log_rpkm.py:79-80 | the feature count is one tissue's column count plus the rest, whichever tissue comes first |
| TissueColumns.CountFeatures | preprocessing/generate_pca_of_log_rpkm.py:78-80 | the loop sums the column counts of every dictionary entry, in any iteration order |
| TissueColumns.ColumnsInIsListSum | preprocessing/generate_pca_of_log_rpkm.py:78-80 | for a list of distinct tissues, that sum is the sum over the list |
| LogRpkmPca.CountGenes | preprocessing/generate_pca_of_log_rpkm.py:87-92 | the number of lines after the header |
| LogRpkmPca.RowOf | preprocessing/generate_pca_of_log_rpkm.py:112-116 | a successful row is exactly `num_features` wide |
| LogRpkmPca.RowOfMeaning | preprocessing/generate_pca_of_log_rpkm.py:112-116 | fails iff a field does not parse (reported first) or the width is neither `num_features` nor 1; a one-field row fills the whole row |
| LogRpkmPca.RowsOfCells | preprocessing/generate_pca_of_log_rpkm.py:116 | a matrix whose cells match a list of rows reads as that list |
| LogRpkmPca.StoreRow | preprocessing/generate_pca_of_log_rpkm.py:116 | row assignment overwrites one row and leaves every other cell |
| LogRpkmPca.FillRow | preprocessing/generate_pca_of_log_rpkm.py:111-116 | the gene id is stored first; the row is stored only if it parses at the right width |
| LogRpkmPca.FillRows | preprocessing/generate_pca_of_log_rpkm.py:103-117 | the loop fails with the first line's error, or fills every row and id from its line |
| LogRpkmPca.FillMatrix | preprocessing/generate_pca_of_log_rpkm.py:102-117 | the first line's fields 0-2 are kept; every data line becomes its matrix row and its gene id, or the first error is raised |
| LogRpkmPca.Gather | preprocessing/generate_pca_of_log_rpkm.py:130 | column selection succeeds iff every index is in range, a negative one counting from the end (otherwise IndexError) |
| LogRpkmPca.GatherSameColumns | preprocessing/generate_pca_of_log_rpkm.py:130 | two index lists naming the same columns, with negative indices or without, select the same block |
| LogRpkmPca.TissueBlock | preprocessing/generate_pca_of_log_rpkm.py:130-137 | a successful reduction is a rows-by-five block |
| LogRpkmPca.TissueBlockMeaning | preprocessing/generate_pca_of_log_rpkm.py:130-137 | KeyError for an unknown tissue, IndexError for an out-of-range column, AssertionError for fewer than five columns, otherwise the reducer's block or its failure |
| LogRpkmPca.BlockLayout | preprocessing/generate_pca_of_log_rpkm.py:129 | column `5*idx + c` belongs to tissue `idx`, component `c` |
| LogRpkmPca.ColumnOwner | preprocessing/generate_pca_of_log_rpkm.py:129 | every reduced column belongs to exactly one tissue block |
| LogRpkmPca.WriteBlock | preprocessing/generate_pca_of_log_rpkm.py:138 | the block lands in columns `5*idx` to `5*idx + 4`, and every other cell keeps its value |
| LogRpkmPca.LabelBlock | preprocessing/generate_pca_of_log_rpkm.py:139-140 | those five labels become the tissue name, and the others keep theirs |
| LogRpkmPca.PlaceBlock | preprocessing/generate_pca_of_log_rpkm.py:138-140 | placing tissue `idx` extends the placed blocks and labels by one, leaving zeros and "NULL" after it |
| LogRpkmPca.PlaceBlocks | preprocessing/generate_pca_of_log_rpkm.py:122-140 | fails with the first tissue's error, or every block sits in its columns and every label names its tissue |
| LogRpkmPca.ReduceTissues | preprocessing/generate_pca_of_log_rpkm.py:122-140 | for the corrected script (a normalising `reducer` in place of the undefined `normalize_columns`): the same for each tissue of the full matrix |
| LogRpkmPca.TissueBlockAsWritten | preprocessing/generate_pca_of_log_rpkm.py:130-133 | the reduction as written never returns a block |
| LogRpkmPca.AsWrittenNeverReduces | preprocessing/generate_pca_of_log_rpkm.py:127-140 | as written, every non-empty tissue list fails; it differs from the intended reduction exactly where that one reaches the reducer |
| LogRpkmPca.ReducedLabels | preprocessing/generate_pca_of_log_rpkm.py:125 | five labels per tissue |
| LogRpkmPca.ReducedLabelsAt | preprocessing/generate_pca_of_log_rpkm.py:139-140 | label `j` is the name of tissue `j / 5` |
| LogRpkmPca.ConcatRow | preprocessing/generate_pca_of_log_rpkm.py:138 | a reduced row is five cells per tissue |
| LogRpkmPca.ConcatRowCell | preprocessing/generate_pca_of_log_rpkm.py:138 | cell `5*k + c` of a reduced row is component `c` of tissue `k`'s block |
| LogRpkmPca.ReducedMatrix | preprocessing/generate_pca_of_log_rpkm.py:123 | one row per gene, five columns per tissue |
| LogRpkmPca.PlacedMatrix | preprocessing/generate_pca_of_log_rpkm.py:123-140 | the filled reduced matrix is the side-by-side concatenation of the blocks |
| LogRpkmPca.PlacedLabels | preprocessing/generate_pca_of_log_rpkm.py:125-140 | the filled label list is each tissue repeated five times |
| LogRpkmPca.MatrixRowsShape | preprocessing/generate_pca_of_log_rpkm.py:97-116 | a read matrix has one row per data line, each `num_features` wide |
| LogRpkmPca.TissueBlocksShape | preprocessing/generate_pca_of_log_rpkm.py:127-140 | the reductions are one rows-by-five block per tissue |
| LogRpkmPca.Generated | preprocessing/generate_pca_of_log_rpkm.py:74-144 | the corrected script as a value: an empty tissue file leaves `tissues` unbound, and a completed run read a tissue line and a non-empty expression table |
| LogRpkmPca.GeneratedAligned | preprocessing/generate_pca_of_log_rpkm.py:97-144 | a completed run of the corrected script has one reduced row and one gene id per data line, each id from its own line, five columns per tissue, and a first row of the table's first fields then the labels |
| LogRpkmPca.ReadMatrix | preprocessing/generate_pca_of_log_rpkm.py:87-117 | counting, allocating and filling give the specified rows and ids, or the first error |
| LogRpkmPca.GeneratePca | preprocessing/generate_pca_of_log_rpkm.py:74-144 | the corrected script, from the tissue list to `first_row`, computes the specified reduction or its first error; the script as written raises NameError at its first tissue and never reaches `first_row` (AsWrittenNeverReduces) |

## Left out

- Reading files, `print`, `open`/`close`, and the goatools downloads: file contents are
  parameters. `read_ncbi_gene2go` and `GoSearch.add_children_gos` are maps supplied by
  the caller.
- Floating point: `float`, `np.log10`, mean, standard deviation and PCA. They are the
  `number`, `level` and `reducer` parameters, and the model does not state numeric
  properties of them.
  This includes the zero-variance column that normalisation leaves unscaled.
- `normalize_column` (preprocessing/generate_pca_of_log_rpkm.py:43-56) is never called. It
  refers to `gene_features` and `col_in`, which it never defines. It is not modelled.
- The matrix produced by `np.empty` (preprocessing/generate_pca_of_log_rpkm.py:97): its
  initial contents are unspecified. The model states the cells only after every row has
  been written.
- LogRpkmPca.ReadMatrix: on an error path the model says nothing about the arrays the script
  leaves partly filled, because nothing reads them afterwards.
- LogRpkmPca.PlaceBlocks and LogRpkmPca.ReduceTissues return freshly allocated arrays.
  Their contracts therefore use `fresh`; the lemmas PlacedMatrix and PlacedLabels carry the
  content.
- `np.append` in the example readers is modelled on sequences of rows, not on arrays.
- GoTerms.GetGoTerms: the default `top=1` of `get_go_terms` is not modelled, because Dafny
  methods have no default arguments; callers pass `top` explicitly.
- LogRpkmPca.GeneratePca: models the script with the undefined `normalize_columns` replaced
  by the `reducer` parameter; the script as written fails at its first tissue
  (LogRpkmPca.AsWrittenNeverReduces).
- The hard-coded `data/gene2go.txt` in `get_ensembl_ids` and the `ev_codes` filter are
  folded into the supplied `go2entrez` map.
- Iteration order of Python dictionaries and sets is unspecified. The feature count is
  proved independent of it, and a term's genes are a `set`.

## Findings

| source | as written | input that shows it | evidently intended | confidence | as-written member | corrected member |
|---|---|---|---|---|---|---|
| preprocessing/generate_pca_of_log_rpkm.py:133 | calls `normalize_columns`, which is never defined (only `normalize_column` exists), so NameError | a tissue list with one tissue whose metadata lists five or more in-range columns | normalise the tissue's columns, then reduce them with PCA to five components | high; not executed | LogRpkmPca.AsWrittenNeverReduces | LogRpkmPca.TissueBlockMeaning |
