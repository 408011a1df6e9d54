# Missing Wikipedia cities — a Dafny model of the selection core

The tool ranks the cities of a GeoNames dump by population and sends their
names to the Wikipedia query API in batches of 50. It collects the cities
for which the API reports no article (pages with a negative id), and it
stops once `limit` of them are gathered. `geonames_naive` accepts every such
city. `geonames_manual` asks the operator about each one and keeps it only on
"y" or "yes", in any letter case.

This project models the deterministic part of `main.py`, with the I/O
abstracted into inputs:

- `Chunking` models `chunk`, which splits the ranked list into contiguous slices.
- `Loader` models the ranking step of `load_geonames`: a stable sort by
  population, largest first, over rows that are already parsed.
- `Lookup` models what `get_missing_cities` does with the API's `pages`
  map, given as an ordered sequence of (id, title) pairs. It keeps the
  negative ids and resolves each title to its first position in the batch
  (`list.index`). When a title is not in the batch, `list.index` raises
  ValueError; the model returns the error `TitleNotInBatch`.
- `Selection` models the two drivers. The HTTP lookup is a function
  `lookup` from a batch's names to the response's pages. The console is a
  finite sequence `answers`, one answer per candidate. Running out of
  answers is the EOFError of `input()` and gives `EndOfInput`. Each driver
  returns its outcome and the number of batches it looked up, which is the
  source's counter `i`.
- `Cities` holds the record types. `Wrappers` holds `Option` and `Result`.

The drivers are specified through `Gathered(batches, lookup, k)`. It holds
the records of the first `k` batches that the lookup reports as missing, in
order, or the first failure. A driver goes past batch `k` only while its
count after `k` is below `limit`. Its result is the first `limit` records
of what it gathered, or of what the operator accepted.

Two edge cases of the code:

- A batch size of zero makes `range` raise. A negative batch size yields no
  batches at all; it is not a configuration error.
- A `limit` of 0 is accepted. The driver still looks up the first batch (and
  `geonames_manual` asks about every candidate in it), then returns `[]`.

## Model

| member | source | states |
|---|---|---|
| Chunking.Chunk | main.py:57-59 | every chunk holds between 1 and n elements |
| Chunking.ChunkBounds | main.py:58 | `q` chunks of at most `n` elements cover the input, and `q - 1` do not (the last chunk starts inside the list) |
| Chunking.ChunkFlatten | main.py:57-59 | joining the chunks gives back the input list, in order |
| Chunking.ChunkAt | main.py:58-59 | chunk k is exactly the slice `cities[k*n : k*n + n]` for start index k*n of `range(0, len, n)` |
| Chunking.ChunkCount | main.py:58 | the number of chunks is `(len + n - 1) / n`, so an empty list gives no chunks |
| Chunking.ChunkSizes | main.py:58-59 | every chunk but the last has n elements; the last has `len % n`, or n when n divides len |
| Loader.LoadGeonames | main.py:64-75 | the returned list is non-increasing in population, is a permutation of the rows, and keeps the file order among rows of equal population |
| Loader.SortSorted | main.py:74 | the sort leaves populations non-increasing |
| Loader.SortPermutes | main.py:74 | the sort is a permutation (same multiset of rows) |
| Loader.SortStable | main.py:74 | for every population, the rows with that population keep their relative order (the sort is stable under `reverse=True`) |
| Loader.RankingUnique | main.py:74 | any list that is ranked by population and keeps each population's rows in file order equals the loaded list; the three properties determine the result |
| Lookup.FirstIndex | main.py:52 | `list.index`: the result is a position holding the title with no earlier position holding it; there is no result exactly when the title is absent |
| Lookup.MissingCities | main.py:46-53 | each entry's index points at its own name in the batch, and it is the first such position; at most one entry per page; a failure names a title absent from the batch |
| Lookup.GetMissingCities | main.py:39-54 | the loop over the pages returns exactly `MissingCities` of the batch and the pages |
| Lookup.MissingCitiesAborts | main.py:46-52 | once a prefix of the pages fails, the whole lookup fails with the same error; later pages are not read |
| Lookup.MissingCitiesFails | main.py:48-52 | the lookup succeeds iff every negative-id title occurs in the batch; on failure the error names the first negative-id page whose title is absent |
| Lookup.MissingCitiesEntries | main.py:46-53 | on success there is one entry per negative-id page and none for the others, in response order, each named by its page's title |
| Selection.Candidates | main.py:84-85 | every record resolved for a batch is an element of that batch |
| Selection.GatheredFromRows | main.py:82-85 | every record gathered from the batches is one of the parsed rows |
| Selection.Take | main.py:90 | `s[:limit]`: a prefix of s of length `min(len(s), limit)` |
| Selection.GeonamesNaive | main.py:78-90 | looks up batches only while fewer than `limit` records are gathered; stops at the first batch that reaches `limit`, at the end of the batches, or at a failing lookup; returns the first `limit` gathered records; all of them are loaded rows |
| Selection.NaiveOutcomeUnique | main.py:81-90 | the description of a naive run admits exactly one result and one batch count for given batches, lookup and limit |
| Selection.NaiveLimitZero | main.py:81-90 | with `limit == 0` the naive driver looks up exactly the first batch (none if there are none) and returns no records |
| Selection.AffirmativeSpellings | main.py:103 | an answer is affirmative iff it is "y" or "yes" with each letter in either case |
| Selection.KeepAffirmed | main.py:101-104 | the accepted records are at most the candidates and are drawn from them |
| Selection.AffirmedPositions | main.py:101-103 | the positions whose answer is "y"/"yes", in strictly increasing order: each listed position is affirmative, and every affirmative position below the candidate count is listed |
| Selection.KeepAffirmedPicks | main.py:101-104 | the accepted records are exactly the candidates at the affirmative positions, in candidate order: candidate `j` is appended iff answer `j` is affirmative |
| Selection.KeepAffirmedKeeps | main.py:101-104 | a candidate whose answer is affirmative is accepted |
| Selection.KeepAffirmedAll | main.py:101-104 | when every answer is affirmative, all candidates are accepted in order, as `geonames_naive` does |
| Selection.KeepAffirmedNone | main.py:101-104 | when no answer is affirmative, nothing is accepted |
| Selection.ConfirmCandidates | main.py:101-104 | the prompt loop reads one answer per candidate and accepts the candidate exactly on an affirmative answer, in order; it fails iff the answers run out |
| Selection.GeonamesManual | main.py:93-109 | looks up batches only while fewer than `limit` records are accepted; a failing lookup aborts with its error, and running out of answers aborts with `EndOfInput`; otherwise returns the first `limit` of the candidates whose answers are affirmative; all of them are loaded rows |
| Selection.ManualOutcomeUnique | main.py:96-109 | the description of an interactive run admits exactly one result and one batch count for given batches, lookup, answers and limit |
| Selection.ManualLimitZero | main.py:96-109 | with `limit == 0` the interactive driver looks up exactly the first batch (none if there are none) and returns no records |
| Selection.ManualAllYesIsNaive | main.py:78-109 | when every answer is affirmative and the run does not end with `EndOfInput`, `geonames_manual` gives the same result as `geonames_naive` after the same number of lookups |

## Left out

- The HTTP request is not modelled: URL building, percent-encoding, the bearer header, `urlopen` and JSON decoding (main.py:36-45). The function `lookup` stands for them. Network, authentication and response-shape errors are not modelled.
- Page keys are given as integers, so the `int(k)` conversion of a non-numeric key is not modelled. Neither is a `KeyError` from a page without a `title`.
- The title normalisation done by the service is not modelled. It only shows up through `lookup` returning a title that is not in the batch, which the model handles as `TitleNotInBatch`.
- File reading and TSV parsing are not modelled, including the `float`/`int` conversion of columns (main.py:65-73). The model starts from the parsed rows. Latitude and longitude are carried as opaque `real` values.
- Python's in-place Timsort is modelled as a pure stable insertion sort. `RankingUnique` shows that any stable descending sort gives the same list.
- `chunk` is a generator. The model builds the whole list of batches up front, which looks the same because the city list is never changed.
- Progress and instruction `print` lines are not modelled (main.py:87, 94, 106), and neither are prompt texts. The token file, the browser launch, the `__main__` mode dispatch and final printing are not modelled either (main.py:111-142).
- `str.lower()` is modelled as ASCII lower-casing only.
- Chunk: requires a positive chunk size. The drivers always use the default of 50.
- GeonamesNaive: requires `limit >= 0`, because Python's negative-slice meaning of `[:limit]` is not modelled.
- GeonamesManual: requires `limit >= 0`, for the same reason. Its per-batch prompt loop is written as the separate method `ConfirmCandidates`.
