# Stock analyst filter — a Dafny model

This project models the two pieces of logic in the stock-analyst-filter
scripts that are more than I/O:

* **Ticker universe and fetch loop** (`fetch_data.py`). Index symbols have
  every `.` turned into `-`. TSX symbols are stripped, dot-replaced and
  suffixed with `.TO`. The five sources are merged without duplicates. Each
  ticker is then looked up with a first-success-wins search over its
  attempts: the ticker itself, plus the `.NE` listing for a `.TO` ticker.
  A row is kept only when both prices are present and non-zero. Missing
  fields take their defaults.
* **Dashboard filter and sort** (`app.py`). The five-test row mask is
  followed by a sort on one of four columns. The sort ascends for P/E and
  descends otherwise, with missing values last.

The finance service is an oracle `Source = string -> Quote`. A `Quote` holds
the info dictionary (or None when reading it raises) and the recommendations
table (or an exception, or None). A dictionary key is a `Field<T>`: `Absent`,
`Null` or `Val(v)`. This matters because `d.get(k, default)` substitutes the
default only for a missing key, not for a None value. A scraped ticker column
is `Option<seq<Cell>>`, with None standing for every way a page or table can
fail to appear.

Modules: `Options` (Option), `Strings` (`endswith`, `replace`, `strip` and
character counts), `Symbols` (normalisation, custom list, master list),
`Quotes` (the row record), `Fetch` (attempts, oracle, scan loop) and
`Dashboard` (filter, sort, page).

Two facts the proofs bring out:

* The `.TO` guard in the TSX normaliser can never skip the suffix. The
  dot-to-dash step runs first, so `RY.TO` becomes `RY-TO.TO`.
* Under the default widgets, rows with a missing sector are always hidden.
  The sector options come from `dropna`. Rows with a missing rating are
  shown, because the rating options keep NaN and `isin` matches NaN.

`d.get(key, default)` returns None for a key that holds None, so currency,
analyst count, rating and sector can be missing in a stored row, as can both
P/E columns.

## Model

| member | source | states |
|---|---|---|
| Symbols.IndexSymbolShape | fetch_data.py:24 | index normalisation keeps the length, rewrites exactly the dots to dashes, and leaves no dot |
| Symbols.IndexTickers | fetch_data.py:47-52 | a failed source, or a column with a non-string cell (the `replace` raises), gives []; otherwise one normalised, dot-free symbol per cell, in order |
| Symbols.TsxSymbol | fetch_data.py:105-119 | every TSX symbol ends with `.TO` and contains exactly one dot |
| Symbols.TsxGuardNeverSkips | fetch_data.py:112-117 | after the dots are replaced, the symbol cannot end with `.TO`, so the guard always appends |
| Symbols.TsxSymbolAlwaysAppends | fetch_data.py:108-117 | a TSX symbol is always the stripped, dashed input followed by `.TO` |
| Symbols.TsxExampleSuffixed | fetch_data.py:112-117 | an input already carrying the suffix, `RY.TO`, becomes `RY-TO.TO` |
| Symbols.TsxExampleShareClass | fetch_data.py:110-117 | a share class `TECK.B` becomes `TECK-B.TO` |
| Symbols.TsxTickers | fetch_data.py:105-121 | the TSX source maps every cell, through `str`, to its normalised symbol; a failed source gives [] |
| Symbols.CustomTickers | fetch_data.py:127-132 | the curated list has eighteen symbols, none of them `.TO` |
| Symbols.Dedup | fetch_data.py:246 | the deduplicated list has no repeats and the same elements as its input |
| Symbols.DedupIdempotent | fetch_data.py:246 | deduplicating a deduplicated list changes nothing |
| Symbols.MasterList | fetch_data.py:246 | the master list has no duplicates and its elements are exactly the union of the five sources |
| Symbols.MasterListsArePermutations | fetch_data.py:246 | whatever order the set iteration yields, any two master lists are permutations of each other |
| Symbols.MasterListOrderIndependent | fetch_data.py:246 | any two inputs with the same elements, such as the sources concatenated in any order, deduplicate to permutations of one list |
| Fetch.DictGetOr | fetch_data.py:199-210 | `get` with a default yields the default only for a missing key, and None for a key holding None |
| Fetch.RecCounts | fetch_data.py:171-208 | a raising, missing or empty recommendations table gives five zero counts; otherwise the counts convert exactly when no cell of the latest row is NaN, and each is that row's cell, 0 for a missing column |
| Fetch.Attempt | fetch_data.py:151-223 | an attempt yields a row iff the info could be read, price and target are truthy, and the counts convert; the row carries the attempted symbol, non-zero prices and the upside computed from them |
| Fetch.MissingFieldDefaults | fetch_data.py:159-213 | every stored cell: prices copied; a missing or None dividend yield stored as 0; counts are the converted counts, zero for a missing table; currency, analyst count, rating and sector copied when present, USD, 0, N/A and Unknown when the key is missing, None when it holds None; a P/E copied when present and missing otherwise |
| Fetch.Attempts | fetch_data.py:142-144 | the first attempt is the ticker; a second exists iff it ends with `.TO`, and is the ticker with `.TO` replaced by `.NE` |
| Fetch.AlternateSymbol | fetch_data.py:143-144 | the alternate has the same length, ends with `.NE`, and differs from the ticker |
| Fetch.TsxAttempts | fetch_data.py:116-119 | every TSX symbol is tried as `<stem>.TO` and then `<stem>.NE` |
| Fetch.FirstSuccess | fetch_data.py:146-149 | a row found by the search names one of the attempted symbols and is valid |
| Fetch.FirstSuccessIsFirst | fetch_data.py:146-218 | the search yields a row iff some attempt succeeds, and then it is the row of an attempt all of whose predecessors failed |
| Fetch.TryAttempts | fetch_data.py:146-223 | the inner loop, which stops at the first success, computes exactly the first-success search |
| Fetch.FetchTicker | fetch_data.py:140-149 | a ticker's row, when there is one, names one of that ticker's attempts and is valid |
| Fetch.AlternateOnlyAfterFailure | fetch_data.py:142-149 | the answer for the alternate symbol is irrelevant unless the ticker ends with `.TO` and its own attempt failed |
| Fetch.SuccessesMatchRows | fetch_data.py:140-218 | the k-th row is the row of the ticker at the k-th success position, and there are no more rows than tickers |
| Fetch.SuccessesAscend | fetch_data.py:140 | success positions are valid indices and strictly increase, so no ticker yields two rows |
| Fetch.SuccessesComplete | fetch_data.py:140-225 | a ticker position is a success position iff one of its attempts yields a row |
| Fetch.ScanInInputOrder | fetch_data.py:140-232 | at most one row per ticker, in input order: rows map to strictly increasing ticker positions, and a ticker has a row iff one of its attempts succeeds |
| Fetch.ScanRowsValid | fetch_data.py:162-166 | every stored row has non-zero price and target, so the upside division is defined |
| Fetch.FetchAnalystData | fetch_data.py:134-232 | the outer loop computes exactly the scan: one optional row per ticker, appended in input order |
| Dashboard.FilterRows | app.py:61-67 | the filtered table is a subsequence of the table; a row is in it iff it passes all five tests, with every multiplicity kept |
| Dashboard.FilterMonotone | app.py:61-67 | raising a floor or shrinking a selection yields a subsequence of the previous result |
| Dashboard.FilterMonotoneCount | app.py:61-83 | raising a floor or shrinking a selection never increases the number of stocks found |
| Dashboard.DefaultFilters | app.py:32-58 | the default rating selection covers every rating in the table, including a missing one; the sector selection covers every present sector and never the missing one |
| Dashboard.DefaultFiltersDrop | app.py:32-67 | under the defaults a row is shown iff its analyst count is known and non-negative, its upside and yield are non-negative, and its sector is known |
| Dashboard.PrecedesTotal | app.py:77-78 | any two rows can be ordered by the sort rule |
| Dashboard.PrecedesTransitive | app.py:77-78 | the sort rule is transitive |
| Dashboard.Insert | app.py:78 | inserting into a sorted table keeps it sorted and adds exactly the one row |
| Dashboard.SortRows | app.py:78 | the sorted table is a permutation of its input, ordered by the sort rule |
| Dashboard.SortedPermutationsAgree | app.py:78 | any two sorted permutations of one table carry the same sort value at every position, so an unstable sort can differ from the model only among ties |
| Dashboard.SortOrder | app.py:77-80 | present values ascend for Forward_PE and Trailing_PE and descend for Upside_Potential and Num_Analysts; missing values come after all present ones |
| Dashboard.Render | app.py:22-83 | a missing file gives the error page; a table with no known analyst count (the empty table included) makes the slider's `int(max)` raise; otherwise the page shows a sorted permutation of the filtered table, and its count equals the number of filtered rows |

## Left out

- HTTP requests, `read_html` and the choice of table and column on each page (fetch_data.py:15-104): network and page structure. Each source is just its ticker column or None.
- The TSX table lookup `len(tables) < 3` followed by `tables[3]`: with exactly three tables the index raises and the handler returns []. That is the same result as the guard, so it is covered by the None column.
- `yf.Ticker(...).info` and `.recommendations`: the oracle `Source` stands for them. Their schema beyond the keys the program reads is not visible.
- Fetch.Attempt: the upside is an exact real, without `round(upside, 2)` or floating point. NaN prices are not modelled, although Python treats NaN as truthy.
- Fetch.RecCounts: counts are integers. `int()` truncation of fractional counts is not modelled.
- Throttling (`time.sleep`, `random.uniform`) and console output: timing and logging only.
- The CSV write and read: rows are assumed to round-trip. None cells become NaN. Not modelled: pandas reads an empty string back as NaN, and it reads the rating default "N/A" (fetch_data.py:209) back as NaN too, since "N/A" is one of its default missing-value markers, so a row stored with rating "N/A" reaches the dashboard with a missing rating.
- Streamlit widgets, the two-hour cache and its clearing, rerun, page configuration and column formatting (app.py:5-26, app.py:85-105): UI state. The widget values are parameters.
- Dashboard.SortRows: the order among rows with equal sort values is not promised. The default pandas sort is not stable, and the model's insertion order is only one possible outcome.
- Symbols.MasterList: Python's set iteration order is unspecified. The model uses first-occurrence order, and `IsMasterList` with `MasterListsArePermutations` covers every other order.
- Strings.Replace: the empty-pattern behaviour of Python's `replace` is not modelled. The program only uses non-empty literals.
