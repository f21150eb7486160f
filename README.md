# levenshteinDistance, modelled and proved in Dafny

`cmd/plant-based-data/main.go` contains one piece of algorithmic code: the
function `levenshteinDistance(s, t string) int`. It is meant to compute the
edit distance of two Go strings with the Wagner–Fischer dynamic program; as
written it panics on every s ≠ t (see "## Findings"). If the strings are
equal it returns 0 straight away. Otherwise it cuts one flat buffer of ints
into row views, zeroes the table, writes row 0 and column 0, and fills the
cells, column by column, as the minimum of deletion, insertion and
substitution-or-match. It returns the bottom-right cell. Nothing in the
repository calls it.

Go indexes strings by byte, so strings are modelled as `seq<bv8>` (`Byte`),
and `s == t` is byte-for-byte equality.

The project has five modules:

- `EditDistance` (EditDistance.dfy) is the specification. `EditDist` is a
  recursive ghost function on the last bytes of the two strings. `Step` is the
  rule for one cell. `Cell(s, t, i, j)` is cell (i, j) of the table as its own
  recurrence fills it, and `CellIsPrefixDistance` proves that it equals
  `EditDist(s[..i], t[..j])`. The lemmas give the recurrence on cells and the
  base cases, and work out the sample distances "kitten"/"sitting" = 3 and
  "flaw"/"lawn" = 2 cell by cell. They also prove that the distance is 0 exactly for equal strings, that it
  is symmetric, and that it lies between the difference of the lengths and
  the larger length.
- `EditScripts` (EditScripts.dfy) is an independent definition of edit
  distance: the cost of an alignment, that is, a script of keeps,
  substitutions, insertions and deletions. It proves that `EditDist` is the
  least cost of any script that turns `s` into `t`. From that it proves the
  triangle inequality.
- `RowViews` (RowViews.dfy) models the allocation pattern. `SliceRows` cuts a
  buffer of `rows * width` cells into consecutive, non-overlapping row views
  of `width` cells.
- `Levenshtein` (Levenshtein.dfy) is the function with corrected bounds. It
  works on an `array2<int>` of (m+1) × (n+1) cells and keeps the source's
  loops and loop order: column `j` outer, row `i` inner. `LevenshteinDistance`
  is proved to return `EditDist(s, t)`.
- `LevenshteinAsWritten` (LevenshteinAsWritten.dfy) is the function as the
  source writes it. Go's run-time index check is made explicit, and the
  contract says at which line each input panics. It also runs the base-case
  loops as written on a table of the corrected shape, and shows that their
  bounds alone give a wrong distance.

## Model

| member | source | states |
|---|---|---|
| `EditDistance.SubstitutionCost` | cmd/plant-based-data/main.go:122-125 | The substitution cost is at most 1, and it is 0 exactly when the two compared bytes are equal. |
| `EditDistance.InteriorCell` | cmd/plant-based-data/main.go:127-129 | If the cell above, the cell to the left and the diagonal cell hold the distances of their prefixes, then so does cell (i, j). |
| `EditDistance.CellIsPrefixDistance` | cmd/plant-based-data/main.go:113-131 | Every cell (i, j) of the table, filled from row 0 and column 0 by the rule of lines 127-129, holds the edit distance of s[..i] and t[..j]. |
| `EditDistance.StepBounds` | cmd/plant-based-data/main.go:127-129 | Each of the three choices bounds the distance from above: deleting the last byte of s, inserting the last byte of t, or aligning the two last bytes at their substitution cost. |
| `EditDistance.LastCell` | cmd/plant-based-data/main.go:132 | The bottom-right cell (m, n) is the distance of the whole strings. |
| `EditDistance.IdentityZero` | cmd/plant-based-data/main.go:94-96 | A string is at distance 0 from itself, so the equal-string shortcut agrees with the table. |
| `EditDistance.ZeroIffEqual` | cmd/plant-based-data/main.go:93-133 | The distance is 0 if and only if the two strings are equal byte for byte. |
| `EditDistance.Symmetric` | cmd/plant-based-data/main.go:93-133 | The distance from s to t equals the distance from t to s. |
| `EditDistance.LengthBounds` | cmd/plant-based-data/main.go:93-133 | The distance is at least the difference of the two lengths and at most the larger length. |
| `EditDistance.KittenSitting` | cmd/plant-based-data/main.go:93-133 | The distance of "kitten" and "sitting" is 3. |
| `EditDistance.FlawLawn` | cmd/plant-based-data/main.go:93-133 | The distance of "flaw" and "lawn" is 2. |
| `EditScripts.Alignment` | cmd/plant-based-data/main.go:127-129 | Following the cheapest choice of the recurrence gives an edit script that turns s into t and costs exactly EditDist(s, t). |
| `EditScripts.LowerBound` | cmd/plant-based-data/main.go:127-129 | No edit script that turns s into t costs less than EditDist(s, t). |
| `EditScripts.MinimalScript` | cmd/plant-based-data/main.go:93-133 | EditDist(s, t) is the minimum number of insertions, deletions and substitutions that turn s into t: some script reaches it and none goes below it. |
| `EditScripts.ComposeBound` | cmd/plant-based-data/main.go:93-133 | A script from s to t followed by a script from t to u costs at least the distance from s to u. |
| `EditScripts.TriangleInequality` | cmd/plant-based-data/main.go:93-133 | The distance from s to u is at most the distance from s to t plus the distance from t to u. |
| `RowViews.SliceRows` | cmd/plant-based-data/main.go:100-106 | Row i of the flat buffer starts at i * width and has width cells. Each row ends where a later row begins or before it, so no two rows overlap. No row reaches past rows * width. |
| `Levenshtein.ZeroTable` | cmd/plant-based-data/main.go:108-112 | Every cell of the table is 0 afterwards. |
| `Levenshtein.SetBaseCases` | cmd/plant-based-data/main.go:113-118 | Column 0 holds its row index, row 0 holds its column index, and the interior cells keep their values. |
| `Levenshtein.FillColumn` | cmd/plant-based-data/main.go:121-130 | Given column j-1 filled and cell (0, j) set, the inner loop leaves every cell of column j equal to its prefix distance and changes no other column. |
| `Levenshtein.FillCells` | cmd/plant-based-data/main.go:120-131 | Given the base cases, the fill loops leave every cell (i, j) equal to the edit distance of s[..i] and t[..j]. The invariant says that only cells already written are read: those above, to the left and on the diagonal. |
| `Levenshtein.LevenshteinDistance` | cmd/plant-based-data/main.go:93-133 | The result is EditDist(s, t). It is 0 exactly when s equals t. When one string is empty, it is the other string's length. |
| `LevenshteinAsWritten.LevenshteinAsWritten` | cmd/plant-based-data/main.go:93-133 | Only equal strings get a result, and it is 0. Every other input panics with index out of range. If t is longer than s, the panic is at line 110. If t is non-empty and no longer than s, it is at line 127. If t is empty, it is at line 132. |
| `LevenshteinAsWritten.SetBaseCasesAsWritten` | cmd/plant-based-data/main.go:113-118 | On a table of n + 1 columns, the loops panic exactly when the table has fewer than n rows. Otherwise column 0 holds its row index only for rows below n, row 0 holds its column index only for columns below n, rows n and up of column 0 and cell (0, n) keep their old values, and the interior is unchanged. |
| `LevenshteinAsWritten.DistanceAbB` | cmd/plant-based-data/main.go:93-133 | The distance of "ab" and "b" is 1. |
| `LevenshteinAsWritten.BaseCasesCounterexample` | cmd/plant-based-data/main.go:113-132 | With the table shape and the fill corrected but the base-case loops as written, s = "ab" and t = "b" give 0, which is not their distance. |

## Departures from the source

`Levenshtein` corrects these bounds. Each is a departure from
cmd/plant-based-data/main.go:

- Lines 100-106 allocate `m` rows of `n` cells. `LevenshteinDistance`
  allocates `m + 1` rows of `n + 1` cells. It uses an `array2<int>` instead
  of row views of a flat buffer. `RowViews.SliceRows` shows that the row
  views never overlap, so each (i, j) is a cell of its own, exactly as in an
  `array2`.
- Lines 108-112 zero an `n × n` corner. `ZeroTable` zeroes all
  `(m + 1) × (n + 1)` cells.
- Lines 113-115 write column 0 for rows `0 .. n-1`. `SetBaseCases` writes it
  for rows `0 .. m`. Lines 116-118 write row 0 for columns `0 .. n-1`.
  `SetBaseCases` writes it for columns `0 .. n`.
- Lines 120-129 run `j` over `0 .. n-1` and `i` over `0 .. m-1`. They compare
  `s[i]` with `t[j]`, write `d[i][j]` and read `d[i-1][j]`, `d[i][j-1]` and
  `d[i-1][j-1]`. The
  fill in `FillCells` and `FillColumn` runs `j` over `1 .. n` and `i` over
  `1 .. m`. It compares `s[i-1]` with `t[j-1]` and writes `d[i][j]`. The loop
  order (column outer, row inner) is the source's.
- Line 132 reads `d[m][n]`. The corrected table has that cell.

## Findings

| source | as written | input that shows it | evidently intended | confidence | as-written member | corrected member |
|---|---|---|---|---|---|---|
| cmd/plant-based-data/main.go:108-112 | the zeroing loop runs its row index up to `n`, but the table has `m` rows | s = "a", t = "ab": index out of range at line 110 | zero all `(m+1) × (n+1)` cells | high (not executed) | `LevenshteinAsWritten.LevenshteinAsWritten` | `Levenshtein.ZeroTable` |
| cmd/plant-based-data/main.go:120-129 | the fill loops start at `i = 0`, `j = 0` and read `d[i-1][j]` | s = "ab", t = "a": index out of range at line 127 on the first iteration | fill rows and columns from 1, comparing `s[i-1]` with `t[j-1]` | high (not executed) | `LevenshteinAsWritten.LevenshteinAsWritten` | `Levenshtein.FillCells` |
| cmd/plant-based-data/main.go:100-106 | the table has `m` rows of `n` cells, so the result cell `d[m][n]` (line 132) does not exist | s = "a", t = "": index out of range at line 132 | an `(m+1) × (n+1)` table whose bottom-right cell is the result | high (not executed) | `LevenshteinAsWritten.LevenshteinAsWritten` | `Levenshtein.LevenshteinDistance` |
| cmd/plant-based-data/main.go:113-118 | the base-case loops stop at `i < n` and `j < n`, so column 0 is written only for rows below `n` and cell (0, n) is never written | s = "ab", t = "b": cells (1, 0), (2, 0) and (0, 1) stay 0, and with every other bound corrected the result is 0 instead of 1 | write column 0 for rows `0 .. m` and row 0 for columns `0 .. n` | high (not executed) | `LevenshteinAsWritten.BaseCasesCounterexample` | `Levenshtein.SetBaseCases` |

The first three rows together mean the function as written panics on every
pair of different strings. `LevenshteinAsWritten` states this in its
contract, and `ZeroIffEqual` shows that the correct answer for those pairs is
a positive distance. The fourth row shows that fixing the first three is not
enough.

## Left out

- `main` (main.go:17-58) is not modelled. It starts the HTTP server, handles
  OS signals and shuts down gracefully, which is I/O and concurrency.
- `service` (main.go:60-91) is not modelled. It wires the router, the
  middleware and the static-file handlers, which wrap a third-party library
  and the filesystem.
- static/index.mjs is not modelled. It is browser UI that loads libraries
  from remote URLs.
- `LevenshteinAsWritten.LevenshteinAsWritten`: the fill loop is modelled by
  its first iteration only, because that iteration always panics. The
  contract says where the call stops, but not what the buffer holds at that
  point.
- `Levenshtein.LevenshteinDistance`: the contract cannot say that the
  equal-string shortcut returns before any table is allocated. The body does
  return before allocating.
- The model uses unbounded integers and assumes a 64-bit Go `int`. Every
  value in the table is at most `max(m, n)`, so the table values cannot wrap.
- `LevenshteinAsWritten.LevenshteinAsWritten`: does not model the wrap of
  `n*m` at main.go:101 where Go's `int` is 32 bits wide. There, for two
  different strings with len(s) = len(t) = 46341, `n*m` is negative and
  `make` panics at line 101. With len(s) = len(t) = 65536, `n*m` is 0, `make`
  succeeds, and `distances[:n]` panics at line 105. For both inputs the
  contract says IndexOutOfRange(127). On a 64-bit `int` the product wraps only
  for lengths above three billion bytes, far beyond any allocation.
- Allocation failure for very large inputs is not modelled.
