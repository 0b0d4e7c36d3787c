# Smith-Waterman local alignment, modelled in Dafny

This project models the core of `smith-waterman`, a small Python engine for
local sequence alignment, and proves properties of the model.

- **The scoring scheme** (`ScoringScheme`) scores a column of two symbols:
  - two gaps fail;
  - a gap costs the gap penalty, plus a gap-start surcharge when the gap opens
    a run after the first column;
  - two symbols score match or mismatch, or are looked up in a substitution
    matrix once one is loaded.

  Its `score` method adds up the columns of two aligned strings.
  `load_matrix` reads such a matrix from the lines of a text file:
  comment lines, then a header of symbols, then one line per row.
- **The engine** (`smith_waterman`) works in two phases:
  - it fills the `(|s1|+1) x (|s2|+1)` dynamic-programming table, keeping the
    best score and the cells that reach it;
  - it runs a breadth-first backtrace from each of those cells, following
    every tie, and emits a path's strings at the first zero cell it reaches.
    The result is one alignment per tie-following path from a best cell back
    to its first zero cell, duplicates included. It is not every alignment
    that reaches the best score: with the default scheme, `"ATA"` against
    `"AGA"` gives `("A", "A")` four times, never `("ATA", "AGA")`, which also
    scores 1.

## Layout

| File | Module | What it holds |
|---|---|---|
| `errors.dfy` | `Errors` | `Option`, `Result` and the exceptions the source raises. |
| `matrix_text.dfy` | `MatrixText` | How a matrix file is read: `str.split`, number parsing, the header index, the row fill. `Load` says what `load_matrix` leaves behind. |
| `scoring_scheme.dfy` | `Scoring` | The column and alignment scores as functions of the scheme's field values (`Params`), with lemmas. Also `class ScoringScheme`, whose methods run the source's loops and are proved against those functions. |
| `smith_waterman.dfy` | `SmithWaterman` | The specification functions of the fill (`Cell`, `TableBest`, `Locations`, `FillError`) and of the backtrace (`Expand`, `Emitted`, `Successors`, `BacktraceFrom`). `Align` is the whole result. Imperative methods over an `array2` table implement both phases and are proved equal to those functions. |
| `alignment_properties.dfy` | `AlignmentProperties` | Lemmas about the specification: extremality of the best score, exactness and order of the best locations, degenerate inputs, branching of the backtrace, and two worked one-symbol cases. |
| `soundness.dfy` | `Soundness` | Every alignment returned is a genuine local alignment, and it re-scores to the best score. |

## Where the model follows the code rather than the description

- **No positive cell.** When no cell is positive, the code returns one empty
  alignment `("", "")` per cell (i, j) with 1 <= i <= |s1| and 1 <= j <= |s2|;
  row 0 and column 0 are never visited. It does not return an empty set
  of alignments. Every cell ties with the initial best score 0 and is emitted
  at once (`AlignmentProperties.NothingPositive`).
- **Gap-start surcharge.** The surcharge for a gap in one row is decided by
  the previous symbol of that same row, not of the other row.
- **Blank lines after the header.** A blank line after the header is not
  ignored. `row.pop(0)` raises an IndexError (`EmptyRow`).
- **Duplicate header symbols.** These are kept the way the dict comprehension
  keeps them: the last occurrence's index wins. The matrix is sized by the
  number of distinct symbols, so a later index can fall outside it. That
  gives an `IndexOutOfRange` error in `score`, in `get_symbols` and during
  the fill.
- **Failed load.** A `load_matrix` that raises part-way leaves the new index
  and the partly filled matrix in the object, as the Python code does.

## Model

| member | source | states |
|---|---|---|
| MatrixText.TokenLength | src/scoring_scheme.py:91 | The token at the front of a string is a maximal run of non-space characters: none of its characters is a separator, and the next one is. |
| MatrixText.Split | src/scoring_scheme.py:85 | `str.split()` yields only non-empty tokens free of separators. |
| MatrixText.SplitSkipsSpaces | src/scoring_scheme.py:85 | Separators in front of a line do not change its tokens. |
| MatrixText.TokenLengthOfToken | src/scoring_scheme.py:85 | A token followed by a separator or by the end of the line is read whole. |
| MatrixText.SplitTakesToken | src/scoring_scheme.py:85 | Such a token becomes the first token, and the rest of the line gives the rest. |
| MatrixText.InterleaveStart | src/scoring_scheme.py:85 | Tokens with a non-empty leading separator form a line that is empty or starts with a separator. |
| MatrixText.SplitInterleave | src/scoring_scheme.py:85 | `str.split()` of tokens joined by non-empty runs of separators, with optional runs at both ends, gives back exactly those tokens, in order. |
| MatrixText.InterleaveLonger | src/scoring_scheme.py:85 | A separator character added in front of the first run is added in front of the line. |
| MatrixText.InterleaveToken | src/scoring_scheme.py:85 | A token added in front, after an empty run, is added in front of the line. |
| MatrixText.SplitDecomposes | src/scoring_scheme.py:85 | Every line is its `str.split()` tokens joined by runs of separators. With `SplitInterleave`, this makes the tokens the line's maximal runs of non-separators, in order. |
| MatrixText.DecomposesAfterSpace | src/scoring_scheme.py:85 | A leading separator joins the first run. |
| MatrixText.DecomposesAfterToken | src/scoring_scheme.py:85 | A leading token becomes the first token, after an empty run. |
| MatrixText.SeparatorsBeforeToken | src/scoring_scheme.py:85 | An empty run in front of a new first token keeps the runs well formed. |
| MatrixText.TokensStartNonSpace | src/scoring_scheme.py:85 | With an empty first run, the line starts with the first token's first character. |
| MatrixText.ParseNumber | src/scoring_scheme.py:95 | Defines `float(val)` on ASCII sign-and-digit tokens: an optional `+` or `-` then ASCII decimal digits; every other token is BadNumber. |
| MatrixText.IndexMap | src/scoring_scheme.py:85 | Defines the dict comprehension over the header's tokens: each token maps to its position, and a later position overwrites an earlier one. |
| MatrixText.IndexMapExact | src/scoring_scheme.py:85 | The header index holds every header token. Each symbol maps to a position that holds it. A repeated symbol keeps its last position. |
| MatrixText.IndexMapInjective | src/scoring_scheme.py:85 | No two symbols of the header index share an index. |
| MatrixText.HeaderIndex | src/scoring_scheme.py:82-84 | The header is the first line that does not start with `#`. Every line before it is a comment. The result is the number of lines when the input runs out first. |
| MatrixText.Zeros | src/scoring_scheme.py:89 | `np.zeros((n, n))` is an n-by-n matrix of zeros. |
| MatrixText.FillValues | src/scoring_scheme.py:94-95 | Defines the value loop: each value is parsed, then stored at its column of the row. It stops at the first malformed number or entry outside the matrix. |
| MatrixText.FillLine | src/scoring_scheme.py:91-95 | Defines one row line: no token raises IndexError from `pop(0)`, a first token missing from the index raises KeyError, and otherwise the values are written into that row. |
| MatrixText.FillLines | src/scoring_scheme.py:90-95 | Defines the `for line in f` loop: the row lines in order, stopping at the first exception. |
| MatrixText.Load | src/scoring_scheme.py:81-95 | Defines the outcome of `load_matrix`: IndexError when the input ends before a header. Otherwise the header's index, the zero matrix filled by the row lines, and the exception that stopped them. |
| MatrixText.FillLinesStep | src/scoring_scheme.py:90-95 | A row line that raises nothing hands its matrix on to the following lines. |
| MatrixText.FillValuesFrame | src/scoring_scheme.py:94-95 | Writing one row line's values keeps the matrix's shape. It changes only that row, and only from the current column on. It fails only on a malformed number or an entry outside the matrix. |
| MatrixText.FillValuesWrites | src/scoring_scheme.py:94-95 | When nothing is raised, every value of the row line lies inside the named row, and the entry it names holds the parsed value. |
| MatrixText.RowTarget | src/scoring_scheme.py:91-93 | A line names a row exactly when its first token is a symbol of the index. |
| MatrixText.FillLinesFrame | src/scoring_scheme.py:90-95 | The row lines keep the matrix's shape, and every entry that no row line writes keeps its value. |
| MatrixText.WrittenFrom | src/scoring_scheme.py:90-95 | An entry written by line k, or by a line after it, is written from line k on. |
| MatrixText.LoadKeepsZeros | src/scoring_scheme.py:81-95 | A loaded matrix is square in the number of header symbols. An entry that no row line writes stays 0. |
| MatrixText.FillLinesWrites | src/scoring_scheme.py:90-95 | When the row lines raise nothing, each entry holds the value given by the last line that writes it. |
| MatrixText.LoadTakesLastValue | src/scoring_scheme.py:81-95 | After a successful load, each written entry lies inside the matrix and holds the value from the last row line that writes it. |
| MatrixText.FirstBadNumber | src/scoring_scheme.py:94-95 | The position of the first value that is not a number, or the number of values: every value before it parses, and the one at it does not. |
| MatrixText.ValuesError | src/scoring_scheme.py:94-95 | Defines, without the matrix, what the value loop raises in an n-by-n matrix: a malformed number at or before the first column past the row's limit, else IndexError when there are more values than the limit. |
| MatrixText.LineError | src/scoring_scheme.py:91-95 | Defines, without the matrix, what one row line raises: IndexError for no token, KeyError for an unknown row symbol, else what its values raise. |
| MatrixText.LineErrorNoneIff | src/scoring_scheme.py:91-95 | A row line raises nothing if and only if its first token is in the index, all its values are numbers, and they fit in that row (none when the row lies outside the matrix). |
| MatrixText.FillValuesError | src/scoring_scheme.py:94-95 | In a square matrix the value loop keeps the matrix square. It raises a malformed number at or before the first column past the row's limit, else IndexError when there are more values than the limit, else nothing. |
| MatrixText.FillLineError | src/scoring_scheme.py:91-95 | One row line keeps the matrix square and raises the line's exception, which depends only on the index and the matrix size. |
| MatrixText.FillLinesError | src/scoring_scheme.py:90-95 | The row-line loop raises the exception of the first row line that raises one. |
| MatrixText.FirstLineErrorAt | src/scoring_scheme.py:90-95 | When the lines before line t raise nothing and line t raises, its exception is the first one. |
| MatrixText.FirstLineErrorNone | src/scoring_scheme.py:90-95 | There is no first exception if and only if no line raises. |
| MatrixText.LoadError | src/scoring_scheme.py:81-95 | A load after a header raises the exception of the first row line that raises one. |
| MatrixText.LoadFailsAtFirstBadLine | src/scoring_scheme.py:90-95 | When line t is the first row line to raise, the load raises its exception. That is IndexError from `pop(0)` for a blank line, KeyError for a row symbol missing from the header, and otherwise a malformed number or an entry outside the matrix. |
| MatrixText.LoadSucceedsIff | src/scoring_scheme.py:81-95 | A load after a header raises nothing if and only if every row line names a header symbol and holds numbers that fit in that row. |
| MatrixText.NoLineErrorIff | src/scoring_scheme.py:90-95 | No line from k on raises if and only if all of them are well-formed row lines. |
| Scoring.PairIsOneColumnScore | src/scoring_scheme.py:38-61 | Scoring two single symbols, as the engine does, is the whole-alignment score of that one column. Column 0 never pays the gap-start surcharge. |
| Scoring.LoadedScoreReadsLastValue | src/scoring_scheme.py:52-57 | After a load that raises nothing, `score` of a column of two header symbols is the number that the last row line for the first symbol gives at the second symbol's column. |
| Scoring.LoadedScoreReadsZero | src/scoring_scheme.py:52-57 | An entry inside the loaded matrix that no row line writes scores 0. |
| Scoring.LoadedScoreOutside | src/scoring_scheme.py:52-57 | After a load, a symbol missing from the header fails the assertion. A header symbol whose index lies past the matrix, as a repeated symbol's can, raises IndexError. |
| Scoring.Lookup | src/scoring_scheme.py:53-57 | Defines the matrix branch of a column: both symbols must be in the index, and both indices inside the matrix. |
| Scoring.PairScore | src/scoring_scheme.py:41-59 | Defines a column's score before the surcharge. Two gaps raise ValueError and one gap costs the gap penalty. Two symbols are looked up in the matrix when one is loaded, and otherwise score match or mismatch. |
| Scoring.GapStart | src/scoring_scheme.py:44-50 | Defines the surcharge of a gap column whose row has a non-gap in the column before. |
| Scoring.ColumnScore | src/scoring_scheme.py:39-59 | Defines one pass of the loop body: the pair score plus the surcharge, or the column's exception. |
| Scoring.ScoreFrom | src/scoring_scheme.py:38-61 | Defines the running total from column i to the end of the shorter string, raising the first column's exception. |
| Scoring.AlignmentScore | src/scoring_scheme.py:28-61 | Defines `score` as the running total from column 0. |
| Scoring.ScoreFromTruncated | src/scoring_scheme.py:39 | The columns scored from any point on are those of the two strings cut to the shorter length. |
| Scoring.ScoreStopsAtShorter | src/scoring_scheme.py:31-39 | `score` quietly stops at the end of the shorter string. Its result equals the score of both strings cut to that length. |
| Scoring.ScoreFromIsPairSum | src/scoring_scheme.py:38-61 | With no gap-start surcharge, the score from column i on is the sum of independent column scores. |
| Scoring.ScoreWithoutGapStartIsPairSum | src/scoring_scheme.py:38-61 | With `gap_start_penalty == 0`, `score` is a plain left-to-right sum of column scores starting at 0. |
| Scoring.ScoreFromSplitsGapStart | src/scoring_scheme.py:44-50 | The score from column i on equals the uncharged score plus `gap_start_penalty` times the number of surcharged gap openings. |
| Scoring.ScoreSplitsGapStart | src/scoring_scheme.py:44-50 | `score` equals the score with the surcharge switched off, plus `gap_start_penalty` once per gap run that opens after a non-gap in its own row. |
| Scoring.ScoreFromFailsAt | src/scoring_scheme.py:39-57 | If column `bad` fails and no column before it does, the score from an earlier column raises column `bad`'s error. |
| Scoring.ScoreFailsAtFirstBadColumn | src/scoring_scheme.py:39-57 | `score` raises the error of the first failing column: ValueError for two gaps, AssertionError for an unknown symbol, IndexError for an index outside the matrix. |
| Scoring.ScoreFromSucceeds | src/scoring_scheme.py:39-57 | If no column from i on fails, the score from i on succeeds. |
| Scoring.ScoreFailsIffSomeColumnFails | src/scoring_scheme.py:39-57 | `score` raises if and only if some column within the shorter length fails. |
| Scoring.OneChar | src/scoring_scheme.py:23-25 | A symbol stored in the `dtype=str` array is cut to its first character: a prefix of length at most 1. |
| Scoring.ScoringScheme.constructor | src/scoring_scheme.py:5-11 | A new scheme holds the given scores, which default to 1, -1, -1 and 0, and no matrix. |
| Scoring.ScoringScheme.Grid | src/scoring_scheme.py:89 | The rows of the loaded matrix have the matrix's dimensions. |
| Scoring.ScoringScheme.Score | src/scoring_scheme.py:28-61 | The column loop returns exactly the whole-alignment score of the current field values, or the error it raises. |
| Scoring.ScoringScheme.Column | src/scoring_scheme.py:39-59 | One pass of the loop body gives the column's pair score plus its gap-start surcharge, or the column's exception. |
| Scoring.ScoringScheme.Call | src/scoring_scheme.py:63-72 | Calling the scheme is `score`. |
| Scoring.ScoringScheme.GetSymbols | src/scoring_scheme.py:13-26 | Returns None exactly when no matrix is loaded. Otherwise it raises IndexError exactly when some index is past the end of the array. On success the list is as long as the index; position `index[s]` holds `s` cut to one character, and every other position holds "". |
| Scoring.ScoringScheme.GridIs | src/scoring_scheme.py:89-95 | A matrix mirroring a sequence of rows reads back as those rows. |
| Scoring.ScoringScheme.FillRowEntries | src/scoring_scheme.py:94-95 | The in-place `for j, val` loop leaves the array holding exactly what the functional row fill computes, and returns the same exception. |
| Scoring.ScoringScheme.FillRowLines | src/scoring_scheme.py:90-95 | The in-place `for line in f` loop leaves the array holding exactly what the functional fill of all row lines computes, and returns the same exception. |
| Scoring.ScoringScheme.NewZeros | src/scoring_scheme.py:88-89 | A fresh n-by-n array of zeros. |
| Scoring.ScoringScheme.SkipComments | src/scoring_scheme.py:82-84 | The comment-skipping loop stops at the header line, or at the end of the input. |
| Scoring.ScoringScheme.LoadMatrix | src/scoring_scheme.py:74-95 | Input that ends before a header raises IndexError and changes nothing. Otherwise the scheme holds a fresh matrix, consistent with its index, and its fields are the old scores with the loaded index and matrix. The error returned is the one the load raises. |
| SmithWaterman.Cell | src/smith_waterman.py:24-34 | Every cell of the table is non-negative. |
| SmithWaterman.RowError | src/smith_waterman.py:30-31 | Defines the first failing pair score of row i among columns 1 to j. |
| SmithWaterman.FillError | src/smith_waterman.py:29-31 | Defines the first failing pair score in row-major order: the exception that stops the fill. |
| SmithWaterman.RowBest | src/smith_waterman.py:35-38 | Defines the best score after columns 1 to j of row i: the maximum of 0 and those cells. |
| SmithWaterman.TableBest | src/smith_waterman.py:28-38 | Defines `best_score` after rows 1 to i. |
| SmithWaterman.RowLocations | src/smith_waterman.py:35-38 | Defines the cells of row i holding a given value, left to right. |
| SmithWaterman.Locations | src/smith_waterman.py:28-38 | Defines `best_locations` for a given value: the cells of rows 1 to i holding it, in row-major order. |
| SmithWaterman.RowLocationsHold | src/smith_waterman.py:35-38 | Every location recorded in a row lies in that row's visited columns and holds the value tracked. |
| SmithWaterman.LocationsHold | src/smith_waterman.py:28-38 | Every recorded location lies in a visited row and column and holds the value tracked. |
| SmithWaterman.Expand | src/smith_waterman.py:49-54 | The successors of a partial all lie inside the table. |
| SmithWaterman.DiagonalStepIs | src/smith_waterman.py:49-50 | The diagonal step is empty or holds the diagonal move. It holds it if and only if `A[i-1, j-1]` plus the pair score equals the cell. |
| SmithWaterman.UpStepIs | src/smith_waterman.py:51-52 | The upper step is empty or holds the upper move. It holds it if and only if `A[i-1, j]` plus the gap penalty equals the cell. |
| SmithWaterman.LeftStepIs | src/smith_waterman.py:53-54 | The left step is empty or holds the left move. It holds it if and only if `A[i, j-1]` plus the gap penalty equals the cell. |
| SmithWaterman.ExpandSplit | src/smith_waterman.py:49-54 | The successors are the tying diagonal, upper and left steps, in that order. |
| SmithWaterman.Height | src/smith_waterman.py:43-55 | The worklist measure bounds `i + j` of every partial. |
| SmithWaterman.HeightLeast | src/smith_waterman.py:43-55 | The measure is the least such bound. |
| SmithWaterman.Successors | src/smith_waterman.py:44-55 | The next worklist lies inside the table. |
| SmithWaterman.SuccessorsBelow | src/smith_waterman.py:44-55 | Every successor lies strictly below the current worklist's measure. |
| SmithWaterman.ExpandBelow | src/smith_waterman.py:49-54 | Each successor steps back by a row, a column or both. |
| SmithWaterman.SuccessorsLower | src/smith_waterman.py:43-55 | Each pass lowers the measure of a non-empty worklist, so the `while` loop terminates. |
| SmithWaterman.BacktraceStep | src/smith_waterman.py:43-55 | The backtrace from a worklist emits what this pass emits, then what its successors emit. |
| SmithWaterman.Starts | src/smith_waterman.py:42 | The initial worklist has one empty partial per best location, in order. |
| SmithWaterman.Emitted | src/smith_waterman.py:45-47 | Defines what one pass appends to `alignments`: the strings of the partials at zero cells, in worklist order. |
| SmithWaterman.BacktraceFrom | src/smith_waterman.py:43-55 | Defines the output of the `while len(partials) > 0` loop: this pass's emitted alignments, then those of the next worklist. |
| SmithWaterman.Align | src/smith_waterman.py:7-57 | Defines the result of `smith_waterman`: the first failing pair's exception, or the best score with the backtrace from the best locations. |
| SmithWaterman.RowErrorPersists | src/smith_waterman.py:30-31 | Once a pair score in a row has failed, later columns report the same error. |
| SmithWaterman.FillErrorPersists | src/smith_waterman.py:29-31 | Once the fill has failed, later rows report the same error. |
| SmithWaterman.FirstFailureStopsFill | src/smith_waterman.py:29-31 | A failing pair score stops the fill with that pair's error, unless an earlier cell has already failed. |
| SmithWaterman.RowLocationsAbove | src/smith_waterman.py:35-38 | A row's locations for a value above every cell of the row are empty. |
| SmithWaterman.LocationsAbove | src/smith_waterman.py:35-38 | Locations for a value above every visited cell are empty. |
| SmithWaterman.CellValue | src/smith_waterman.py:31-34 | The right-hand side of `A[i, j] = max(...)` is the cell's value. It fails exactly when the pair score fails, with the same error. |
| SmithWaterman.RecordCell | src/smith_waterman.py:35-38 | The two `if`s keep `best_score` at the maximum so far. They keep `best_locations` as every visited cell holding it, in row-major order. |
| SmithWaterman.StoreCell | src/smith_waterman.py:31 | Storing a cell keeps the rows above and this row so far filled. |
| SmithWaterman.FilledNextRow | src/smith_waterman.py:29-34 | A completed row extends the filled part of the table by one row. |
| SmithWaterman.VisitCell | src/smith_waterman.py:30-38 | One pass of the inner loop body fills the cell and updates the best score and locations, or returns the first failing pair's error. |
| SmithWaterman.FillRow | src/smith_waterman.py:30-38 | The inner loop fills row i. After it, the best score and locations are those of rows 1 to i, or it returns the row's first error. |
| SmithWaterman.NewTable | src/smith_waterman.py:23-25 | A fresh `(|s1|+1) x (|s2|+1)` table with row 0 and column 0 set to 0. |
| SmithWaterman.FillMatrix | src/smith_waterman.py:22-38 | The nested loops raise the first failing pair's error, or fill the whole table with `Cell`. The best score is then the table's best, and the locations are exactly its best cells. |
| SmithWaterman.PairsSucceed | src/smith_waterman.py:31 | After a successful fill, every pair score of the table succeeds, so the backtrace's re-scoring cannot raise. |
| SmithWaterman.PassStep | src/smith_waterman.py:45-54 | One more partial of a pass adds its emitted alignment or its successors at the end. |
| SmithWaterman.ExpandPartial | src/smith_waterman.py:49-54 | Re-scoring the pair and running the three tests yields exactly the partial's successors. |
| SmithWaterman.Branches | src/smith_waterman.py:49-54 | The three tests against the filled table yield the diagonal, upper and left successors that tie, in that order. |
| SmithWaterman.Pass | src/smith_waterman.py:44-55 | One pass over the worklist emits what the pass emits and builds the next worklist, both in worklist order. |
| SmithWaterman.Backtrace | src/smith_waterman.py:40-55 | The `while len(partials) > 0` loop returns exactly the alignments that the specification of the backtrace lists from the best locations. |
| SmithWaterman.SmithWaterman | src/smith_waterman.py:7-57 | `smith_waterman` returns exactly `Align`: the first pair-score error, or the best score and every alignment the backtrace lists. |
| AlignmentProperties.CellsNonNegative | src/smith_waterman.py:24-34 | Every cell is non-negative, and row 0 and column 0 are 0. |
| AlignmentProperties.RowBestBounds | src/smith_waterman.py:35-38 | The best of a row so far is non-negative and at least every cell visited in that row. |
| AlignmentProperties.RowBestAttained | src/smith_waterman.py:35-38 | The best of a row so far is 0 or the value of one of its visited cells. |
| AlignmentProperties.RowBestIsMax | src/smith_waterman.py:35-38 | The best of a row is non-negative, at least every cell of the row, and either 0 or reached by one of its cells. |
| AlignmentProperties.TableBestIsMax | src/smith_waterman.py:28-38 | `best_score` after i rows is non-negative, at least every visited cell, and either 0 or reached by one of them. |
| AlignmentProperties.BestIsTableMaximum | src/smith_waterman.py:28-38 | The returned best score is the maximum of 0 and every cell of the table. |
| AlignmentProperties.RowLocationsExact | src/smith_waterman.py:35-38 | A row's locations for a value are exactly its cells holding that value, strictly ascending. |
| AlignmentProperties.LocationsExact | src/smith_waterman.py:35-38 | The locations for a value after i rows are exactly the cells of those rows holding it, in strictly increasing row-major order, with no repeats. |
| AlignmentProperties.BestLocationsExact | src/smith_waterman.py:28-42 | The best locations are exactly the cells holding the best score, in row-major order. |
| AlignmentProperties.NoColumns | src/smith_waterman.py:29-38 | With an empty second sequence, no pair is scored, the best stays 0 and nothing is recorded. |
| AlignmentProperties.EmptySequence | src/smith_waterman.py:7-57 | If either sequence is empty, the result is best score 0 with no alignments. |
| AlignmentProperties.ZeroRowLocations | src/smith_waterman.py:35-38 | If every cell of a row is 0, the row records all of its cells for the value 0. |
| AlignmentProperties.ZeroLocations | src/smith_waterman.py:35-38 | If every cell is 0, every cell of the table is recorded for 0. |
| AlignmentProperties.AllAtZero | src/smith_waterman.py:45-47 | A worklist whose partials all sit on zero cells emits each partial's strings, in order, and has no successors. |
| AlignmentProperties.NothingPositive | src/smith_waterman.py:28-57 | If no cell is positive, the result is best score 0 and `|s1| * |s2|` alignments, each `("", "")`. |
| AlignmentProperties.ExpandNonEmpty | src/smith_waterman.py:48-54 | A partial at a non-zero cell has at least one successor. |
| AlignmentProperties.ExpandFollowsTies | src/smith_waterman.py:49-54 | The diagonal, upper and left moves are each among the successors exactly when their term of the maximum ties with the cell. No other partial is a successor. The diagonal move comes first and the left move last. |
| AlignmentProperties.StepTies | src/smith_waterman.py:49-54 | Each of the three steps is empty or holds its own move, and holds it exactly when its term ties with the cell. The three moves are pairwise distinct. |
| AlignmentProperties.TiesMembers | src/smith_waterman.py:49-54 | Joining three pieces, each empty or holding its own distinct candidate, contains a candidate exactly when its piece is non-empty and contains nothing else. The first candidate comes first and the last one last. |
| AlignmentProperties.SelfMatchTable | src/smith_waterman.py:28-38 | Under the default scheme, a non-gap symbol against itself gives a single cell 1, which is the best, found at (1, 1). |
| AlignmentProperties.SelfMatchBacktrace | src/smith_waterman.py:40-55 | From (1, 1), that table's backtrace takes one diagonal step and emits the symbol aligned with itself. |
| AlignmentProperties.SelfMatch | src/smith_waterman.py:7-57 | Under the default scheme, a non-gap symbol against itself scores 1, and its only alignment is that symbol against itself. |
| AlignmentProperties.Mismatch | src/smith_waterman.py:7-57 | Under the default scheme, two different non-gap symbols score 0, and the only alignment is `("", "")`. |
| AlignmentProperties.PairGapMonotone | src/smith_waterman.py:31 | A larger gap penalty raises no pair score, and each pair fails exactly as before, with the same exception. |
| AlignmentProperties.CellGapMonotone | src/smith_waterman.py:24-34 | A larger gap penalty lowers no cell of the table. |
| AlignmentProperties.RowBestGapMonotone | src/smith_waterman.py:30-38 | A larger gap penalty lowers no row's best and keeps its first exception. |
| AlignmentProperties.TableBestGapMonotone | src/smith_waterman.py:28-38 | A larger gap penalty lowers no `best_score` and keeps the fill's exception. |
| AlignmentProperties.GapMonotone | src/smith_waterman.py:7-57 | Making `gap_penalty` less negative never lowers the returned best score, and never causes or removes an exception. |
| AlignmentProperties.RowErrorNone | src/smith_waterman.py:30-31 | When every pair of a row succeeds, the row raises nothing. |
| AlignmentProperties.FillErrorNone | src/smith_waterman.py:29-31 | When every pair of the table succeeds, the fill raises nothing. |
| AlignmentProperties.SelfDiagonalBound | src/smith_waterman.py:31-34 | For a gap-free sequence against itself with no matrix loaded, diagonal cell (k, k) is at least k times the match score. |
| AlignmentProperties.SelfAlignmentBound | src/smith_waterman.py:7-57 | A gap-free sequence against itself, with no matrix loaded, raises nothing and scores at least its length times `match_score`. |
| Soundness.Ungapped | src/smith_waterman.py:50-54 | Deleting the gaps from a string does not make it longer. |
| Soundness.UngappedCons | src/smith_waterman.py:50-54 | Prepending a symbol prepends it to the ungapped string, unless it is a gap. |
| Soundness.PairedIsGapConsistent | src/scoring_scheme.py:41-42 | The column-by-column check holds if and only if the two rows have equal length and no column holds two gaps. |
| Soundness.PairSumIgnoresGapStart | src/scoring_scheme.py:44-50 | The plain column sum does not depend on the gap-start surcharge. |
| Soundness.PrependCovers | src/smith_waterman.py:50-54 | Prepending the symbol before a covered piece, or a gap, covers the longer piece. |
| Soundness.StepCovers | src/smith_waterman.py:50-54 | A backtrace step keeps the start cell and the pieces of the sequences covered. |
| Soundness.StepColumns | src/smith_waterman.py:50-54 | A step keeps the alignment free of double gaps, and adds the new column's score to its sum. |
| Soundness.StepTracks | src/smith_waterman.py:49-54 | If a step's column scores the difference of the two cells, the partial keeps tracking the best score. |
| Soundness.SuccessorTracks | src/smith_waterman.py:49-54 | The same for a step to another cell of the table. |
| Soundness.DiagonalTracks | src/smith_waterman.py:49-50 | The diagonal successor of a tracking partial tracks. |
| Soundness.UpTracks | src/smith_waterman.py:51-52 | The upper successor of a tracking partial (a gap in the second row) tracks. |
| Soundness.LeftTracks | src/smith_waterman.py:53-54 | The left successor of a tracking partial (a gap in the first row) tracks. |
| Soundness.AllTrackConcat | src/smith_waterman.py:44-55 | Two tracking worklists joined together still track. |
| Soundness.ExpandTracks | src/smith_waterman.py:49-54 | Every successor of a tracking partial tracks the same best score. |
| Soundness.SuccessorsTrack | src/smith_waterman.py:44-55 | For gap-free sequences and a successful fill, the next worklist of a tracking worklist tracks. |
| Soundness.ZeroCellSound | src/smith_waterman.py:46-47 | A tracking partial at a zero cell emits a sound alignment. |
| Soundness.EmittedSound | src/smith_waterman.py:45-47 | Everything a pass emits from a tracking worklist is sound. |
| Soundness.BacktraceSound | src/smith_waterman.py:43-55 | Everything the backtrace emits from a tracking worklist is sound. |
| Soundness.StartsTrack | src/smith_waterman.py:42 | The initial worklist lies in the table and tracks the best score. |
| Soundness.AlignmentsSound | src/smith_waterman.py:7-57 | For sequences without `-`, every returned alignment has two rows of equal length and no double-gap column. It runs between a zero cell and a cell holding the best score, over contiguous pieces of the two sequences. With the gap-start surcharge off, it re-scores to exactly the best score. |

## Left out

- File I/O: `load_matrix` takes the file's lines, without their terminators, instead of a file name. Reading past the end of the file is the `EndOfInput` error.
- Floating point: all scores, penalties and matrix entries are integers, so `float` arithmetic and exact float equality in the backtrace are out of scope.
- MatrixText.ParseNumber: accepts only ASCII sign-and-digit tokens (an optional sign followed by ASCII decimal digits). `float()` also accepts decimals, exponents, `inf` and `nan`, surrounding spaces, digit-group underscores (`1_000`, PEP 515) and non-ASCII Unicode decimal digits; the model maps all of these to BadNumber.
- MatrixText.IsSpace: covers only the ASCII separators of `str.split()`, not the other Unicode white-space characters.
- Scoring.ScoringScheme.GetSymbols: iterates the index in an arbitrary order, not in the dict's insertion order. Under `Valid()` no two symbols share a position, so the result does not depend on the order.
- Exceptions are values of `Errors.Error`, not Python exception classes. The two `assert` statements of `score` are modelled as always checked (`UnknownSymbol`).
- Soundness.AlignmentsSound: states the re-score with the gap-start surcharge switched off. The engine's table never charges the surcharge, because it scores every pair as a one-column alignment (`Scoring.PairIsOneColumnScore`). With a non-zero surcharge, `score` of a returned alignment also adds `Scoring.ScoreSplitsGapStart`'s openings term.
- Soundness.AlignmentsSound: requires sequences without `-`. A sequence containing the gap symbol makes the backtrace's strings ambiguous.
- Optimality (no alignment scores more than the best score) and completeness (every optimal alignment is listed) are not stated. Only soundness of what is returned is proved.
- `main` and the command-line interface (src/smith_waterman.py:60-105) are not part of this model.
