# Search-query analytics and duplicate merging, modelled in Dafny

The modelled system has two scripts.

`ws.py` pulls search analytics for a list of site URLs from a webmaster API. For each URL it:

- finds the API host whose ASCII URL contains the URL's host part;
- buckets popular queries by rounded average click position into a click/impression table for positions 1 to 15;
- reduces per-query statistics to one report row per query text;
- estimates the clicks each query would get at ranks 1, 3 and 5;
- tags each query as branded or as containing a stop word.

`kill_duplicates.py` post-processes the resulting table in three steps:

- it reduces every query to a canonical key by cleaning the text, lemmatising it, dropping function words and joining the sorted lemmas;
- it merges all rows that share a key into one row;
- it rewrites the numeric columns of the written CSV lines with a decimal comma.

This project models those computations in Dafny and proves what they guarantee. One module corresponds to each component:

| module | models |
|---|---|
| `HostLookup` | `get_host_id_for_url` |
| `PopularCtr` | the position-bucket loop of `process_site_ctr` |
| `CtrTable` | the ratio `save_ctr_to_csv` writes |
| `QueryAnalytics` | `format_query_analytics` |
| `QueryCtr` | `calculate_average_ctr_per_position` |
| `Forecast` | `forecast_clicks` |
| `Tagging` | the brand and stop-word columns of `save_results_to_csv`, and `read_urls_from_file` |
| `Lemmatizer` | `lemmatize` |
| `Sorting` | Python's `sorted` on strings |
| `Dedup` | the group reduction of `kill_duplicates.py` |
| `LineRewrite` | the CSV line post-pass of `kill_duplicates.py` |

Shared modules:

- `Wrappers` holds `Option` and `Result`.
- `Numbers` holds Python's `round`, `round(x, 3)` and `int()` on reals.
- `Sums` holds left-to-right sums.
- `FirstSeen` groups by key in first-seen order. This models both Python's insertion-ordered dict and pandas' `unique()` plus a boolean mask.
- `Strings` holds `replace`, `strip`, `split`, `join` and `in`.
- `Statistics` holds the API records.
- `SeqFacts` holds sequence slicing facts.

Some things are parameters of the model:

- the morphological analyser;
- the Unicode classes `\w` and `\s`;
- `str.lower`;
- parsing and formatting floats;
- the CTR table the forecast reads back from a file.

Numbers are exact `real`s.

Where the code departs from its evident intent, the model follows the code. The forecast if-chain is one such place, recorded under "## Findings".

## Model

| member | source | states |
|---|---|---|
| `HostLookup.CleanUrl` | ws.py:79 | The cleaned URL is no longer than the input, is at least eight characters shorter when the input contains `https://`, and neither starts nor ends with '/'; the two removals it chains are pinned down exactly by `Strings.RemoveAllFirst` and `Strings.RemoveAllNoMatch` |
| `HostLookup.CleanUrlKeepsChars` | ws.py:79 | Cleaning only removes characters: every character of the result comes from the URL, no more often than there |
| `HostLookup.CleanUrlWithoutScheme` | ws.py:79 | A URL containing neither `https://` nor `http://` is only stripped of '/' at both ends |
| `HostLookup.CleanUrlOfSchemeUrl` | ws.py:79 | For `http://h` or `https://h` with a colon-free host part `h`, cleaning gives `h` with its slashes stripped |
| `HostLookup.FindHost` | ws.py:80-83 | `None` exactly when no host URL contains the cleaned URL; otherwise the id of the first host, in list order, whose URL contains it |
| `HostLookup.HostIdForUrl` | ws.py:78-83 | The same, for the URL after cleaning |
| `PopularCtr.RankOf` | ws.py:155-160 | The rounded position has no contract of its own; `Numbers.Round` bounds it and `PopularCtr.BuildPositionTable` buckets by it |
| `PopularCtr.BuildPositionTable` | ws.py:153-163 | The table's keys are exactly positions 1..15; each bucket holds the clicks and shows of exactly the queries whose rounded average position (a missing one counting 0) is that key |
| `PopularCtr.TableConservesClicks` | ws.py:153-163 | The buckets together hold exactly the clicks of the queries ranked 1..15: none lost, none counted twice |
| `PopularCtr.BucketsBounded` | ws.py:153-163 | If no query has more clicks than shows, no bucket does, and every saved CTR lies in [0, 1] |
| `CtrTable.SavedCtr` | ws.py:363 | The saved CTR times the impressions gives back the clicks; with no impressions it is 0; it lies in [0, 1] when the clicks do not exceed the impressions |
| `CtrTable.SavedTable` | ws.py:362-364 | The same keys as the table; each position's saved value is that bucket's `SavedCtr` (so it times the impressions gives back the clicks, or is 0 without impressions); each lies in [0, 1] for a sane bucket |
| `Numbers.Round` | ws.py:160 | Python `round`: within 0.5 of the argument, and even on a tie |
| `Numbers.Round3` | ws.py:246 | `round(x, 3)` lies within 0.0005 of `x` |
| `Numbers.Trunc` | ws.py:264 | `int(x)` drops the fraction toward zero, for both signs |
| `Statistics.TextOf` | ws.py:216 | The item's query text, or "Неизвестный запрос" when the text is missing |
| `Statistics.FirstValue` | ws.py:265-266 | The value of the first statistic of the kind, or 0 when there is none |
| `QueryAnalytics.Accumulate` | ws.py:229-242 | One step of the `if/elif` chain has no contract of its own; `QueryAnalytics.AddStatsTotals` states what the steps add up to |
| `QueryAnalytics.AddItemStats` | ws.py:229-242 | The statistics loop of one item leaves the summary that the `if/elif` chain defines statistic by statistic |
| `QueryAnalytics.AddStatsTotals` | ws.py:229-242 | Each accumulator gains exactly the total of its own field, and `count` gains the number of POSITION statistics |
| `QueryAnalytics.Summarize` | ws.py:215-242 | The summary dict has one entry per distinct query text, keys in first-seen order, each holding that text's accumulators |
| `QueryAnalytics.SummaryIsGroupTotal` | ws.py:215-242 | A text's impressions, clicks and demand are the totals over exactly the items carrying that text |
| `QueryAnalytics.FormatRow` | ws.py:245-255 | A row carries its text and its totals; with no POSITION statistic, average position and CTR are 0 |
| `QueryAnalytics.FormatRowAverages` | ws.py:245-254 | The row's average position is within 0.5 of the mean position; its average CTR is within 0.0005 of the summed CTR over count x 100; its demand share times the demand gives back the impressions |
| `QueryAnalytics.FormatRows` | ws.py:244-256 | Fails exactly when some text has zero total demand, and then names the first such text in dict order; otherwise gives one formatted row per text in order |
| `QueryAnalytics.FormatQueryAnalytics` | ws.py:212-256 | Fails exactly when some text's total demand is zero (the source's division by zero), naming the first such text; otherwise gives the report of one row per distinct text in first-seen order |
| `QueryAnalytics.Report` | ws.py:244-256 | The report has no contract of its own; `QueryAnalytics.FormatQueryAnalytics`, `QueryAnalytics.ReportConservesTotals` and `QueryAnalytics.ReportRowsAreTexts` state it |
| `QueryAnalytics.ReportConservesTotals` | ws.py:212-256 | The report's impressions, clicks and demand add up to those of all items |
| `QueryAnalytics.ReportRowsAreTexts` | ws.py:212-256 | Every item's text has a row, every row's text occurs among the items, and rows follow the order of first appearance |
| `QueryCtr.Qualifies` | ws.py:263 | The guard has no contract of its own; `QueryCtr.RanksMeaning` and `QueryCtr.AverageCtrPerPosition` state which buckets it lets through |
| `QueryCtr.AddStat` | ws.py:263-268 | One statistic updates the table from its state before that statistic to its state after it |
| `QueryCtr.AddItem` | ws.py:261-268 | One item's statistics add their contributions to the table |
| `QueryCtr.AverageCtrPerPosition` | ws.py:258-269 | The keys are exactly the buckets that qualifying POSITION statistics (value at most 15, truncated) reach; each bucket holds the item's first CLICKS and first IMPRESSIONS values once per such statistic |
| `QueryCtr.StatRanksMeaning` | ws.py:263-264 | An item's statistics reach bucket `p` exactly when some qualifying statistic truncates to `p` |
| `QueryCtr.RanksMeaning` | ws.py:263-264 | Bucket `p` is a key exactly when some item has a qualifying statistic that truncates to `p` |
| `QueryCtr.UntouchedIsZero` | ws.py:259 | A bucket no statistic reaches would hold no clicks and no impressions |
| `QueryCtr.TimesIsProduct` | ws.py:265-268 | Adding a value once per qualifying statistic is multiplying it by their number |
| `Forecast.TableSum` | ws.py:289-300 | The running sum has no contract of its own; `Forecast.FallbackIsMean` and `Forecast.FallbackCtr` use it to state the fallback |
| `Forecast.FallbackCtr` | ws.py:289-300 | The fallback CTR for rank r lies in [0, 1] when the saved table's CTRs do |
| `Forecast.FallbackIsMean` | ws.py:289-300 | The fallback CTR for rank r is the mean of the saved CTRs of ranks 1..r, a missing rank counting 0 |
| `Forecast.CtrEstimate` | ws.py:302-304 | The estimate has no contract of its own; `Forecast.CtrEstimateMeaning` states it |
| `Forecast.CtrEstimateMeaning` | ws.py:302-304 | With clicks observed at the rank, the estimate times the impressions gives back the clicks; without, it is the fallback |
| `Forecast.PredictedBounds` | ws.py:310-318 | With sane inputs, a predicted click count lies between 0 and the demand, up to rounding |
| `Forecast.ForecastClicks` | ws.py:284-320 | Fails exactly when a rank among 1, 3, 5 has clicks but no impressions, naming the first such rank; otherwise the three results are the if-chain's outcome for the position's band |
| `Forecast.AsWritten` | ws.py:306-320 | The if-chain's outcome has no contract of its own; `Forecast.AsWrittenBands` and `Forecast.AsWrittenVersusIntended` state it |
| `Forecast.AsWrittenBands` | ws.py:306-320 | At position ≤ 3 all three forecasts are the current clicks; in (3, 5] top-1 and top-3 are predictions and top-5 is 0; above 5 all three are predictions |
| `Forecast.AsWrittenVersusIntended` | ws.py:306-320 | The code agrees with the intended rule except for the top-1 forecast at positions in (1, 3] and the top-5 forecast at positions in (3, 5] |
| `Forecast.ForecastCounterexample` | ws.py:306-320 | Concrete inputs on which the code and the intended rule differ |
| `Forecast.IntendedForecast` | ws.py:306-320 | The intended rule has no contract of its own; `Forecast.IntendedForecastProperties` states it and `Forecast.AsWrittenVersusIntended` compares it with the code |
| `Forecast.IntendedForecastProperties` | ws.py:306-320 | Under the intended rule, a query ranked r or better keeps its clicks for every target r' ≥ r; a query ranked below r' is predicted for every r ≤ r'; no forecast exceeds the larger of the clicks and the demand |
| `Tagging.TagQuery` | ws.py:336-353 | The brand flag is "Да" exactly when some brand is a substring of the lowered query; the stop word is the first in list order found as a whole word, or "" when none is |
| `Tagging.EmptyBrandFlagsAll` | ws.py:340-343 | An empty brand name flags every query |
| `Tagging.WordMatch` | ws.py:348 | The whole-word search has no contract of its own; `Tagging.WordMatchIsSubstring`, `Tagging.NoMatchInsideWord` and `Tagging.WholeTextMatches` state it |
| `Tagging.WordMatchIsSubstring` | ws.py:348 | A whole-word match is a substring match |
| `Tagging.NoMatchInsideWord` | ws.py:348 | A stop word starting with a word character is never found right after a word character |
| `Tagging.WholeTextMatches` | ws.py:348 | A query that is exactly a stop word, with word characters at both ends, matches it |
| `Tagging.CleanLines` | ws.py:325 | Every kept line is non-empty, with no whitespace at either end, and there are no more lines than in the input |
| `Tagging.CleanLinesAppend` | ws.py:325 | The cleaning works line by line: it commutes with concatenation |
| `Tagging.CleanLinesFromInput` | ws.py:325 | Every kept line is the stripped form of some input line |
| `Tagging.CleanLinesKeepsNonBlank` | ws.py:325 | Every line that is not blank is kept, stripped |
| `Tagging.CleanLinesIdempotent` | ws.py:325 | Cleaning a cleaned list changes nothing |
| `Strings.RemoveAll` | ws.py:79 | `replace(pat, '')` never lengthens the string; its full meaning is given by `Strings.RemoveAllFirst` and `Strings.RemoveAllNoMatch` |
| `Strings.RemoveAllFirst` | ws.py:79 | When the first occurrence of a non-empty `pat` starts at `k`, the result is the text before it followed by the removal applied to the text after it: occurrences go left to right, without overlaps |
| `Strings.RemoveAllNoMatch` | ws.py:79 | When `pat` does not occur, nothing changes; with `Strings.RemoveAllFirst` this determines the result on every input |
| `Strings.RemoveAllShrinks` | ws.py:79 | When a non-empty `pat` occurs, at least its length is removed |
| `Strings.RemoveAllKeepsChars` | ws.py:79 | `replace(pat, '')` only removes characters: none is added or repeated |
| `Strings.RemoveLeading` | ws.py:79 | Removing `pat` from `pat` followed by text without `pat` gives that text |
| `Strings.StripKeepsChars` | ws.py:79 | `strip` only removes characters |
| `Strings.Strip` | ws.py:79 | `strip` gives a result that neither starts nor ends with a stripped character |
| `Strings.StripCutsOnlyStripped` | ws.py:325 | Everything `strip` removes, at either end, is a stripped character |
| `Strings.StripStable` | ws.py:325 | Stripping already-stripped text changes nothing |
| `Strings.StripSurrounded` | kill_duplicates.py:23 | When stripped characters surround a slice that starts and ends with a kept character, `strip` gives exactly that slice |
| `Strings.Split` | kill_duplicates.py:84 | `split(';')` gives at least one field and no field holds the separator; `Strings.JoinSplit` shows the fields are the line's pieces, in order |
| `Strings.Join` | kill_duplicates.py:99 | `';'.join` has no contract of its own; `Strings.JoinSplit` and `Strings.SplitJoin` show it is the inverse of `split` |
| `Strings.JoinSplit` | kill_duplicates.py:84 | Joining the fields of a split gives back the line |
| `Strings.SplitJoin` | kill_duplicates.py:99 | Splitting a join of separator-free fields gives back the fields |
| `Strings.ReplaceChar` | kill_duplicates.py:94 | `replace('.', ',')` keeps the length and changes exactly the occurrences of the one character, each into the other |
| `Strings.DeleteChar` | kill_duplicates.py:97 | `replace(c, '')` leaves no `c` and keeps every other character exactly as often as in the input |
| `Strings.DeleteCharAppend` | kill_duplicates.py:97 | Deletion commutes with concatenation, so the characters left keep their order |
| `Strings.DeleteAbsent` | kill_duplicates.py:97 | Deleting a character that does not occur changes nothing |
| `Lemmatizer.ReplaceSpecials` | kill_duplicates.py:21 | Every character that is neither a word nor a whitespace character becomes ' '; the others stay |
| `Lemmatizer.ReplaceDashComma` | kill_duplicates.py:22 | Every '-' and ',' becomes ' '; the others stay |
| `Lemmatizer.SkipSpaces` | kill_duplicates.py:23 | The end of a whitespace run: every character skipped is whitespace and the next is not |
| `Lemmatizer.Clean` | kill_duplicates.py:21-23 | The cleanup has no contract of its own; `Lemmatizer.CleanShape`, `Lemmatizer.CleanIsJoinedWords` and `Lemmatizer.CleanFixesCleanForm` state what it produces |
| `Lemmatizer.CleanShape` | kill_duplicates.py:21-23 | The cleaned text has no space at either end, no two spaces in a row, and otherwise only non-space word characters other than '-' and ',' |
| `Lemmatizer.CleanFixesCleanForm` | kill_duplicates.py:21-23 | Text already in the clean form comes out of the cleanup unchanged, so `CleanShape` describes exactly the possible results |
| `Lemmatizer.CleanIdempotent` | kill_duplicates.py:21-23 | Cleaning cleaned text changes nothing |
| `Lemmatizer.Words` | kill_duplicates.py:23 | `str.split()` has no contract of its own; `Lemmatizer.WordsFromShape` states its words are non-empty and whitespace-free, and `Lemmatizer.CollapseStripIsJoinedWords` ties it to the collapse |
| `Lemmatizer.WordsFromShape` | kill_duplicates.py:23 | Every word of `split()` is non-empty and free of whitespace |
| `Lemmatizer.CollapsePadded` | kill_duplicates.py:23 | Collapsing whitespace gives the text's words joined by single spaces, with at most one ' ' added at each end |
| `Lemmatizer.CollapseStripIsJoinedWords` | kill_duplicates.py:23 | `re.sub(r'\s+', ' ', t).strip()` equals `' '.join(t.split())` |
| `Lemmatizer.CleanIsJoinedWords` | kill_duplicates.py:21-23 | The cleaned text is the words of the substituted text, in order, joined by single spaces |
| `Lemmatizer.DashCommaRedundant` | kill_duplicates.py:21-22 | When '-' and ',' are neither word nor whitespace characters, the second substitution changes nothing |
| `Lemmatizer.Lemmatize` | kill_duplicates.py:20-33 | The token loop collects the lemmas of the tokens not tagged ADP, PART, CONJ or PRCL, in order, and the key is their sorted join |
| `Lemmatizer.KeptLemmas` | kill_duplicates.py:29-32 | The kept lemmas have no contract of their own; `Lemmatizer.KeptLemmasFilter` and `Lemmatizer.KeptLemmasPermutation` state which tokens they keep and that order follows the tokens |
| `Lemmatizer.CanonicalKey` | kill_duplicates.py:20-33 | The key has no contract of its own; `Lemmatizer.Lemmatize` shows the token loop computes it and `Lemmatizer.KeyPermutationInvariant` that it ignores the order of the tokens |
| `Lemmatizer.KeptLemmasFilter` | kill_duplicates.py:29-32 | A token is dropped exactly when its tag is one of the four |
| `Lemmatizer.KeptLemmasPermutation` | kill_duplicates.py:29-32 | Permuting the analyser's tokens permutes the kept lemmas |
| `Lemmatizer.KeyPermutationInvariant` | kill_duplicates.py:29-33 | Any permutation of the analyser's output tokens gives the same key: the key depends only on the multiset of tokens, not on the order in which the analyser returns them |
| `Sorting.LexLeTotal` | kill_duplicates.py:33 | String order is total |
| `Sorting.LexLeTransitive` | kill_duplicates.py:33 | String order is transitive |
| `Sorting.LexLeAntisymmetric` | kill_duplicates.py:33 | String order is antisymmetric |
| `Sorting.Sort` | kill_duplicates.py:33 | `sorted` has no contract of its own; `Sorting.SortSortsAndPermutes` and `Sorting.SortDependsOnlyOnElements` state its result |
| `Sorting.SortSortsAndPermutes` | kill_duplicates.py:33 | `sorted` returns an ordered permutation of its input |
| `Sorting.SortedUnique` | kill_duplicates.py:33 | Two ordered sequences with the same elements are equal |
| `Sorting.SortDependsOnlyOnElements` | kill_duplicates.py:33 | `sorted` depends only on the multiset of its input |
| `FirstSeen.Distinct` | kill_duplicates.py:48 | `unique()` lists every key, only keys, each once |
| `FirstSeen.DistinctFirstSeenOrder` | kill_duplicates.py:48 | `unique()` lists keys in order of first appearance |
| `FirstSeen.PickNonEmpty` | kill_duplicates.py:49 | The mask of a key selects some row exactly when the key occurs |
| `FirstSeen.PickMembers` | kill_duplicates.py:49 | Every selected row carries the key |
| `FirstSeen.KeyIndices` | kill_duplicates.py:49 | The positions of a key are increasing, each carries the key, and every position carrying the key is listed |
| `FirstSeen.PickAtKeyIndices` | kill_duplicates.py:49 | The mask selects exactly the rows at the key's positions, in input order |
| `FirstSeen.PickHead` | kill_duplicates.py:49-56 | The first selected row (`iloc[0]`) is the input's first row with the key |
| `FirstSeen.PartitionSum` | kill_duplicates.py:48-49 | The per-key group totals add up to the overall total |
| `Dedup.FirstMaxDemand` | kill_duplicates.py:52 | The predicate `idxmax` meets: no row of the group has more demand, and every earlier row has less; `Dedup.ArgMaxDemand` produces such an index |
| `Dedup.ArgMaxDemand` | kill_duplicates.py:52 | `idxmax` gives the first row of the group with the largest demand |
| `Dedup.MaxOf` | kill_duplicates.py:62 | `max()` is at least every value of the group and equal to one of them |
| `Dedup.Mean` | kill_duplicates.py:60 | The mean lies between the group's smallest and largest value |
| `Dedup.GroupCtrMeaning` | kill_duplicates.py:61 | The merged CTR times the summed impressions gives back the summed clicks; it is 0 when the summed impressions are not positive |
| `Dedup.GroupCtr` | kill_duplicates.py:61 | The guarded ratio has no contract of its own; `Dedup.GroupCtrMeaning` states it |
| `Dedup.MergeGroup` | kill_duplicates.py:55-69 | The merged row has no contract of its own; `Dedup.MergeGroupMeaning` states each of its fields |
| `Dedup.MergeGroupMeaning` | kill_duplicates.py:52-69 | URL, brand flag and stop word come from the group's first row; query and demand come from its first row with the largest demand; impressions, clicks and forecasts are sums; the CTR is the guarded ratio; mean position and mean demand share lie within the group's range |
| `Dedup.GroupMaxIsInputMax` | kill_duplicates.py:49-52 | The group's first row with the largest demand is, in the input, the first row with the key and the largest demand |
| `Dedup.MergedRowFromInput` | kill_duplicates.py:52-62 | A merged row's query and demand are those of the input's first row, among the key's rows, with the largest demand |
| `Dedup.MergedRowFirstFields` | kill_duplicates.py:56-68 | A merged row's URL, brand flag and stop word are those of the key's first input row |
| `Dedup.Merged` | kill_duplicates.py:46-71 | The merged table has no contract of its own; `Dedup.MergeDuplicates`, `Dedup.MergedRowsAreGroups` and `Dedup.MergeConservesTotals` state it |
| `Dedup.MergeDuplicates` | kill_duplicates.py:48-71 | The loop emits one merged row per distinct key, in first-seen order |
| `Dedup.Keys` | kill_duplicates.py:46 | Each row's key is the canonical key of its query |
| `Dedup.Deduplicate` | kill_duplicates.py:46-71 | The output is the merge of the rows under their canonical keys |
| `Dedup.RepresentativeHasKey` | kill_duplicates.py:52 | A group's representative query is the query of one of the group's rows, so it has the group's key |
| `Dedup.MergedRowsAreGroups` | kill_duplicates.py:46-71 | One output row per distinct key; each row's representative query has that row's key; no two rows share a key |
| `Dedup.MergedForCounts` | kill_duplicates.py:58-59 | The merged rows' impressions and clicks add up to their groups' totals |
| `Dedup.MergedForForecasts` | kill_duplicates.py:64-66 | The merged rows' three forecasts add up to their groups' totals |
| `Dedup.MergeConservesTotals` | kill_duplicates.py:48-71 | Merging keeps the total impressions, clicks and three forecasts of the table |
| `LineRewrite.RewriteField` | kill_duplicates.py:89-97 | A numeric column loses its quotes; it is reformatted with a decimal comma exactly when it contains '.' and parses; otherwise it is kept; no new character appears except those of the formatted number and ',' |
| `LineRewrite.RewriteColumn` | kill_duplicates.py:91-97 | The statements on one column compute `RewriteField`, a failed parse leaving the field unchanged |
| `LineRewrite.RewriteParts` | kill_duplicates.py:88-97 | Columns 2..10 are rewritten; every other column, the URL included, is kept |
| `LineRewrite.RewriteColumnAt` | kill_duplicates.py:88-97 | One pass of the column loop rewrites column `i` in place when it is numeric and leaves every other column as it was |
| `LineRewrite.RewriteLine` | kill_duplicates.py:84-99 | The in-place loop over the split fields produces the rewritten line |
| `LineRewrite.RewriteLines` | kill_duplicates.py:80-100 | The header is kept; every other line is rewritten, in order, with none added or lost |
| `LineRewrite.RewriteKeepsColumns` | kill_duplicates.py:84-99 | When the number format never yields ';', the rewritten line splits into the rewritten columns: same count, non-numeric ones unchanged |
| `LineRewrite.RewriteIdentity` | kill_duplicates.py:84-99 | A line whose columns 2..10 hold no '.' and no quote comes back unchanged |

## Left out

- The HTTP requests are I/O and are not modelled: `get_user_id`, `get_hosts_list`, the paging loop of `get_query_analytics` and the request in `get_popular_queries_ctr`. The model starts from the records those calls return.
- File and CSV reading and writing are I/O and are not modelled: `read_ctr_from_csv`, both `save_ctr_to_csv`, the writer in `save_results_to_csv`, `pd.read_csv`, `to_csv` and `convert_csv_encoding`.
  - The CTR table that `forecast_clicks` reads back is a parameter.
  - The lines of the URL file are an input.
- `get_popular_queries_ctr` builds the same position table as `process_site_ctr`, then discards it. The loop is modelled once, by `PopularCtr.BuildPositionTable`.
- The first `save_ctr_to_csv` (ws.py:129-137) is shadowed by the second, which uses the same formula. Only the second is modelled.
- The two-decimal text of the saved CTRs is not modelled: the table read back into the forecast is a parameter.
- The Natasha segmenter, morph tagger and lemmatiser are a foreign library. They are the parameter `analyse`, which maps cleaned text to (lemma, tag) tokens.
- The Unicode classes `\w` and `\s` and `str.lower` are parameters (`CharClasses`, `lower`). They are not re-derived from Unicode tables.
- `float()` parsing and the `:.2f` format are parameters (`parse`, `fmt`).
- The f-string formatting that `process_url` applies to report rows is not modelled.
- Floating point is modelled by exact reals. NaN, infinities and binary rounding error are not modelled.
- A `None` statistic value is not modelled: statistic values are always numbers in the model. In the source a `None` makes the arithmetic raise.
- The orchestration in `main`, `process_url` and `process_site_ctr` calls the modelled functions in sequence, with I/O between the calls. It is not modelled.
- `Dedup.Mean`: states only that the mean lies between the group's smallest and largest value. It does not state that the mean is the sum over the count.
- `Dedup.MergeGroupMeaning`: states the mean position and the mean demand share only as bounds, via `Dedup.Mean`.
- `PopularCtr.TableConservesClicks`: stated for clicks only. Shows are accumulated by the same loop in the same way.
- `QueryAnalytics.SummaryIsGroupTotal`: stated for impressions, clicks and demand. The position sum, CTR sum and count are covered per item by `QueryAnalytics.AddStatsTotals`.
- `LineRewrite.RewriteKeepsColumns`: holds only when the number format never produces ';'. That is so for `:.2f`, which is a parameter here.
- `LineRewrite.RewriteLine`: the source leaves the line's trailing newline in its last column. The model treats that newline as an ordinary character.

## Findings

| source | as written | input that shows it | evidently intended | confidence | as-written member | corrected member |
|---|---|---|---|---|---|---|
| ws.py:306-320 | The `else` of the `average_position > 3` test overwrites `forecast_1` with the current clicks for every position ≤ 3. For positions in (3, 5], `forecast_5` stays 0 | Position 2.0, observed top-1 CTR 10/100, demand 1000, current clicks 5: the top-1 forecast is 5 instead of 100. Position 4.0, current clicks 5: the top-5 forecast is 0 instead of 5 | The forecast for the top r is the current clicks when the query already ranks r or better, and the prediction for rank r otherwise | not executed | `Forecast.AsWrittenVersusIntended`, `Forecast.ForecastCounterexample` | `Forecast.IntendedForecast`, `Forecast.IntendedForecastProperties` |
