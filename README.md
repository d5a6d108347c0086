# Common subsequence and partial matching, modelled in Dafny

This project models the alignment engine of the FMP notebooks' version
identification module (`libfmp/c7/c7s3_version_id.py`). The engine works on a
score matrix `S` (N x M) that compares the elements of two sequences, and it has
four routines:

- **Accumulated score matrix for common subsequence matching.** This covers
  `compute_accumulated_score_matrix_common_subsequence`. `D` has `S`'s shape.
  The cell `D[n, m]` extends the best of its predecessors `(n-1, m-1)`,
  `(n-1, m)` and `(n, m-1)` by `S[n, m]`. Every cell is clamped at 0, so a match
  may restart anywhere.
- **Score-maximising path.** This covers
  `compute_optimal_path_common_subsequence`. The start cell is the first
  maximum of `D` in row-major order (`cellmax`) or a cell the caller gives.
  Backtracking goes to the best predecessor; ties prefer the diagonal, then up,
  then left. It stops at `(0, 0)` or at a zero cell, drops that cell when its
  score is 0, and reverses the list.
- **Induced segments.** This covers `get_induced_segments`: the row indices and
  the column indices that the path spans, both ends included.
- **Partial matching.** This covers `compute_partial_matching`. `D` is
  (N+1) x (M+1), with row 0 and column 0 at zero. Each cell takes the best of a
  left move, an up move, or a match on the diagonal. Backtracking from `(N, M)`
  prefers left, then up, then the diagonal, and records only the diagonal
  matches.

Layout:

- `paths.dfy` (module `Paths`): cells, admissible steps, matchings and the score of a path.
- `common_subsequence.dfy` (module `CommonSubsequence`): the first two routines.
- `segments.dfy` (module `Segments`): the third.
- `partial_matching.dfy` (module `PartialMatching`): the fourth.
- `examples.dfy` (module `Examples`): three small matrices whose results the recurrences and the tie-break orders fix.

Each recurrence is stated once, as a function on the score matrix:

- `CommonSubsequence.Acc` and `PartialMatching.Partial` are the two recurrences.
- `CommonSubsequence.Backtrack` and `PartialMatching.PartialTrace` are what the two backtracking loops yield.

The methods that fill the arrays and run the loops are proved equal to these
functions. The lemmas then prove what the routines promise:

- The accumulated value at a cell equals the score of the backtracked path ending there.
- That path is score-maximising among all admissible paths ending at its start cell, and among all admissible paths when that cell is the first maximum of `D`.
- The recorded partial matches form a matching whose score is `D[N, M]`.
- No matching scores more than `D[N, M]`.

## Model

| member | source | states |
|---|---|---|
| `CommonSubsequence.ComputeAccumulated` | libfmp/c7/c7s3_version_id.py:29-44 | `D` is a newly allocated array of `S`'s N x M shape, every entry is the clamped recurrence `Acc` (first cell, first column, first row, interior), and every entry is >= 0 |
| `CommonSubsequence.FillBorder` | libfmp/c7/c7s3_version_id.py:32-38 | after the first cell, first-column and first-row loops, every cell of row 0 and column 0 holds `Acc`, and every other cell keeps its previous value |
| `CommonSubsequence.FillRow` | libfmp/c7/c7s3_version_id.py:40-42 | one pass of the inner loop extends the filled region by row n, each cell `max(0, best predecessor + S[n, m])`; the rows below n keep their previous values |
| `CommonSubsequence.AccNonNegative` | libfmp/c7/c7s3_version_id.py:32-42 | every accumulated score is >= 0 |
| `CommonSubsequence.ArgMax` | libfmp/c7/c7s3_version_id.py:62-64 | the returned cell holds the maximum of `D`, and every cell before it in row-major order is strictly smaller (first occurrence) |
| `CommonSubsequence.Predecessor` | libfmp/c7/c7s3_version_id.py:68-79 | row 0 steps left, column 0 steps up, elsewhere the step goes to a predecessor of maximal `D`; it is diagonal unless the diagonal is strictly smaller, and left only when both diagonal and up are strictly smaller |
| `CommonSubsequence.BacktrackShape` | libfmp/c7/c7s3_version_id.py:65-84 | the path is in bounds, consecutive cells differ by (1,0), (0,1) or (1,1), it ends at the start cell, it is empty iff `D` is 0 there, all its cells have nonzero `D`, each cell is the tie-broken predecessor of the next, and it begins at (0,0) or right after a zero cell |
| `CommonSubsequence.BacktrackFrom` | libfmp/c7/c7s3_version_id.py:65-84 | the while loop, the removal of a terminal zero cell and the reversal yield exactly `Backtrack(D, (n, m))` |
| `CommonSubsequence.OptimalPath` | libfmp/c7/c7s3_version_id.py:48-86 | with `cellmax`, the result is the backtracked path from a cell that is the first row-major maximum of `D`; without it, the backtracked path from the caller's cell |
| `CommonSubsequence.FirstMaxUnique` | libfmp/c7/c7s3_version_id.py:62-64 | `D` has exactly one first maximum, so with `cellmax` the start cell and the path are determined by `D` |
| `CommonSubsequence.PredecessorScore` | libfmp/c7/c7s3_version_id.py:67-81 | at a cell with nonzero score, `D` equals `D` at the chosen predecessor plus `S` at the cell |
| `CommonSubsequence.BacktrackScore` | libfmp/c7/c7s3_version_id.py:65-84 | when `D` is the accumulated matrix of `S`, the sum of `S` over the backtracked path equals `D` at its start cell (its last cell) |
| `CommonSubsequence.ScoreAtMostAcc` | libfmp/c7/c7s3_version_id.py:32-42 | every admissible path ending at a cell scores at most the accumulated value there |
| `CommonSubsequence.OptimalPathIsOptimal` | libfmp/c7/c7s3_version_id.py:48-86 | no admissible path ending at the start cell, nor (when the start is the maximum of `D`) anywhere, scores more than the returned path |
| `Segments.Arange` | libfmp/c7/c7s3_version_id.py:102-103 | `arange(lo, hi)` lists lo, lo+1, ..., hi-1: its length is `hi - lo` (0 if `hi <= lo`) and it holds exactly the integers in `[lo, hi)` |
| `Segments.InducedSegments` | libfmp/c7/c7s3_version_id.py:90-104 | for a non-empty path, `seg_X` is the consecutive integers from the first cell's row to the last cell's row, of length last - first + 1, and likewise `seg_Y` for columns |
| `Segments.SegmentsCoverPath` | libfmp/c7/c7s3_version_id.py:102-103 | for an admissible path, the first index is at most the last, and each segment holds exactly the indices the path visits in that sequence |
| `PartialMatching.ComputePartialMatching` | libfmp/c7/c7s3_version_id.py:108-140 | `D` is a newly allocated (N+1) x (M+1) array with row 0 and column 0 at zero and every entry equal to `Partial`; `P` is the traced path, in bounds, strictly increasing in both coordinates, and scoring exactly `D[N, M]` |
| `PartialMatching.FillPartialRow` | libfmp/c7/c7s3_version_id.py:122-124 | one pass of the inner loop sets row n to `max(D[n, m-1], D[n-1, m], D[n-1, m-1] + S[n-1, m-1])`; the rows below n keep their previous values |
| `PartialMatching.TraceMatches` | libfmp/c7/c7s3_version_id.py:126-138 | the while loop (left, then up, then diagonal with a recorded match) and the reversal yield exactly `PartialTrace(D, N, M)` |
| `PartialMatching.PartialTraceIsMatching` | libfmp/c7/c7s3_version_id.py:126-138 | every recorded pair lies strictly above and left of the start cell, and the pairs strictly increase in both coordinates |
| `PartialMatching.PartialTraceScore` | libfmp/c7/c7s3_version_id.py:126-138 | the sum of `S` over the recorded matches equals `D` at the start cell |
| `PartialMatching.MatchStep` | libfmp/c7/c7s3_version_id.py:130-137 | when neither the left nor the up test succeeds, `D[n, m] = D[n-1, m-1] + S[n-1, m-1]` |
| `PartialMatching.PartialMonotone` | libfmp/c7/c7s3_version_id.py:124 | `D` never decreases along a row or a column, whatever the signs in `S` |
| `PartialMatching.PartialNonNegative` | libfmp/c7/c7s3_version_id.py:121-124 | every partial matching score is >= 0 |
| `PartialMatching.MatchingScoreAtMostPartial` | libfmp/c7/c7s3_version_id.py:120-124 | no matching inside the first n rows and m columns scores more than `D[n, m]` |
| `Examples.SingleCell` | libfmp/c7/c7s3_version_id.py:17-104 | S = [[1]] gives D = [[1]], path [(0, 0)] and segments [0], [0] |
| `Examples.DiagonalTieBreak` | libfmp/c7/c7s3_version_id.py:67-84 | S = [[-1, -1], [-1, 2]] gives D = [[0, 0], [0, 2]] and path [(1, 1)]: the diagonal wins the three-way tie and, being a zero cell, is dropped |
| `Examples.LeftFirstTieBreak` | libfmp/c7/c7s3_version_id.py:126-138 | S = [[0, 1], [1, 0]] gives D[2, 2] = 1 and matches [(1, 0)], the pair that the left-first order selects |

## Left out

- Floating point: scores are exact integers. Rounding, NaN and infinities are not modelled. With NaN, the `==` tie tests and `argmax` would behave differently.
- `compute_sm_from_wav`: not modelled. It wraps audio decoding, chroma features and similarity matrices from other modules, which are not part of this model.
- `compute_prf_metrics`: not modelled. It is floating-point precision, recall and F-measure statistics over `argsort` results.
- `libfmp/c8/c8s2_salience.py`: not modelled. It is floating-point STFT and harmonic-salience signal processing.
- The `@jit` compilation is not modelled.
- The final conversion of each path to a numpy array is not modelled. Paths are sequences of index pairs.
- In-place list handling: the source appends to a Python list, deletes the last element and reverses in place. Both backtracking methods build the same list by prepending. The list mutation itself is not modelled.
- `CommonSubsequence.ComputeAccumulated`: requires N, M >= 1. The source reads `S[0, 0]` without a check and raises no error for an empty matrix.
- `CommonSubsequence.OptimalPath`: requires the caller's start cell to be in bounds when `cellmax` is false. It also requires a non-empty `D` when `cellmax` is true. numpy's negative-index wrap-around is not modelled.
- `Segments.InducedSegments`: requires a non-empty path. The source indexes `P[0]` without a check and raises no error for an empty path.
- `CommonSubsequence.OptimalPath`: the result can be empty, namely when `D` is 0 at the start cell, as in the source.
- `CommonSubsequence.OptimalPath`: the default arguments `cellmax=True, n=0, m=0` are not modelled. Callers pass all three values, and `true, 0, 0` gives the default behaviour.
