# OSRS Grand Exchange price tracker — a Dafny model of its core

This project models the parts of the price tracker that hold its business rules:

- **Grand Exchange tax engine.** The 2% sale tax is rounded down and capped at 5,000,000 gp, with a fixed set of exempt items. The engine also derives a break-even sell price and the post-tax profit of a flip.
- **Price table.** Filters keep one `{min, max}` pair per metric; they can be normalised, edited from a raw text field, and migrated from legacy timestamps. `filteredSorted` applies the name query and the range checks, then a stable column sort. The header toggle cycles asc → desc → unsorted, and `computeFilterStats` produces the min/max placeholders.
- **Duration codec.** It converts between seconds and days/hours/minutes/seconds.
- **"Time ago" label.**
- **Auto-refresh backoff.**
- **Server side.**
  - A time-to-live cache.
  - The `/api/rows` endpoint, which joins the item catalogue with the latest prices into one row per item behind a 60-second cache entry. Its icon and wiki URLs use `encodeURIComponent`.
  - The response hook that adds `Cache-Control` headers to static assets and API images.

How values are represented:

- Prices, limits, volumes and timestamps are mathematical integers.
- The 2% rate is the exact rational 1/50. So `floor(p * 0.02)` is `p / 50`, and `ceil(c / 0.98)` is `(50c + 48) / 49`.
- Filter bounds are JavaScript numbers: `Num` is a finite real, ±Infinity or NaN. Comparisons against a bound behave as JavaScript's `<` and `>` do, so nothing compares with NaN.
- `null` and `undefined` are `Option.None`. A failed upstream fetch is `Result.Failure`.
- The clock is an explicit `now` argument everywhere: milliseconds for the cache, seconds elsewhere.
- JavaScript's `Number(string)` and `String.prototype.localeCompare` are function parameters. The sort results assume only that `localeCompare` is the comparator of a total preorder (`Sorting.IsLocaleOrder`).

Where the code and its own tests or comments disagree, or where its behaviour is easy to misread, the model follows the code:

- **Break-even of small costs.** `calculateBreakEvenPrice` returns the cost itself for every cost below 50 gp, zero and negative costs included. It never returns null for a non-null cost, although `src/lib/utils/tax.test.ts` expects null for costs of 0 and below.
- **Break-even minimality.** The comment on `calculateBreakEvenPrice` promises the minimum price that recovers the cost. The code's price recovers the cost but is not always the least one. A cost of 1000 gives 1021, although 1020 already nets 1000. See `Tax.BreakEvenNotMinimal`.
- **Inline metrics.** The table's filter, sort and statistics compute break-even and post-tax profit inline as `ceil(sell / 0.98)` and `floor(buy * 0.98 - sell)`. They do not call the tax engine, so they ignore the cap, the 50 gp threshold and the exemptions. The lemmas in `FilterState` relate the two.
- **Three clicks from unsorted.** Starting unsorted, three clicks on a numeric column give desc, unsorted, then asc; they do not return to unsorted. See `SortToggle.FirstClicks`.
- **The 2^31 − 1 price sentinel.** `src/lib/utils/tax.test.ts` expects null break-even and profit and zero tax for it, but nothing in the code treats it specially, so it is taxed and shown like any price. See `Tax.SentinelIsTaxed`.
- **`potentialProfit`.** `src/lib/utils/filters.test.ts` expects a `potentialProfit` statistic from `computeFilterStats`, but the code computes none, and neither does the model.

## Model

| member | source | states |
|---|---|---|
| `Tax.RawTax` | src/lib/utils/tax.ts:102 | the raw tax t is floor(p / 50): 50t ≤ p < 50t + 50 |
| `Tax.GeTax` | src/lib/utils/tax.ts:96-104 | an exempt item pays 0; otherwise the tax never exceeds 5,000,000; below the cap it is the floored 2%; the cap is only reached from 250,000,000 gp up |
| `Tax.TaxThreshold` | src/lib/utils/tax.ts:17-21 | no tax below 50 gp; a non-exempt sale of exactly 50 gp pays 1 gp, and every sale from 50 gp up pays at least 1 gp |
| `Tax.TaxCapped` | src/lib/utils/tax.ts:102-103 | for a non-exempt item, the tax equals the cap exactly when the price is at least 250,000,000 gp |
| `Tax.TaxMonotone` | src/lib/utils/tax.ts:96-104 | a higher sale price never pays less tax |
| `Tax.TaxBounds` | src/lib/utils/tax.ts:96-104 | on a non-negative price the tax lies between 0 and 2% of the price |
| `Tax.EstimatedPrice` | src/lib/utils/tax.ts:139 | the estimate is the least integer p with 0.98·p ≥ cost, i.e. ceil(cost / 0.98) |
| `Tax.BreakEvenPrice` | src/lib/utils/tax.ts:116-149 | null exactly for a null cost; the cost itself when exempt or below 50 gp; cost + 5,000,000 from 245,000,000 up; otherwise a price at least the cost whose after-tax proceeds recover the cost |
| `Tax.BreakEvenCorrectionUnreachable` | src/lib/utils/tax.ts:137-148 | in exact arithmetic the estimate always recovers the cost, so the `+ 1` correction is never taken and the result is the estimate |
| `Tax.BreakEvenCappedExact` | src/lib/utils/tax.ts:129-135 | in the capped region, selling at the break-even nets exactly the cost |
| `Tax.BreakEvenNotMinimal` | src/lib/utils/tax.ts:106-149 | a cost of 1000 yields 1021 although 1020 already nets 1000: the result is sufficient, not minimal |
| `Tax.PostTaxProfit` | src/lib/utils/tax.ts:159-168 | null exactly when either price is null; the plain margin for an exempt item; otherwise between margin − 5,000,000 and the margin; the gap between margin and profit is exactly the GE tax on the buy price |
| `Tax.BreakEvenProfitNonNegative` | src/lib/utils/tax.ts:116-168 | buying at a cost and selling at its break-even price never gives a negative post-tax profit |
| `Tax.TaxDescription` | src/lib/utils/tax.ts:177-194 | the description's branch: exempt iff exempt; "below 50 gp" iff the price is in [0, 50); "capped" iff the price is at least 250,000,050; otherwise it reports the actual non-zero tax |
| `Tax.DescriptionAtCapBoundary` | src/lib/utils/tax.ts:189-193 | at exactly 250,000,000 gp the standard branch reports 5,000,000, since the cap test is strict |
| `Tax.SentinelIsTaxed` | src/lib/utils/tax.ts:96-104 | a price of 2,147,483,647 is taxed at the cap and enters the profit like any other price |
| `Duration.Clamped` | src/lib/utils/duration.ts:7-8 | the working total is never negative |
| `Duration.PartsFromSeconds` | src/lib/utils/duration.ts:1-16 | hours < 24, minutes < 60, 0 ≤ seconds < 60, and the parts sum back to the clamped total; missing, non-finite or non-positive input gives all zeros |
| `Duration.WholePart` | src/lib/utils/duration.ts:24-27 | a part is 0 unless positive and finite, and is then the floor of the input |
| `Duration.SecondsFromParts` | src/lib/utils/duration.ts:18-29 | the total is non-negative, 0 when no part is positive and finite, and equals the weighted sum of the clamped parts up to the fractions each part drops: never more than that sum and less than 90,061 s below it |
| `Duration.PartsOfInteger` | src/lib/utils/duration.ts:9-14 | for whole seconds n the parts are n / 86400, (n % 86400) / 3600, (n % 3600) / 60 and n % 60 |
| `Duration.UniqueMixedRadix` | src/lib/utils/duration.ts:9-14 | in-range days/hours/minutes/seconds digits are uniquely determined by their total |
| `Duration.RoundTripReal` | src/lib/utils/duration.ts:1-29 | seconds → parts → seconds gives back floor(x) for every non-negative real x |
| `Duration.RoundTrip` | src/lib/utils/duration.ts:1-29 | seconds → parts → seconds is the identity on whole non-negative seconds |
| `Duration.PartsRoundTrip` | src/lib/utils/duration.ts:1-29 | in-range parts → seconds → parts gives back the same parts |
| `Duration.FractionalParts` | src/lib/utils/duration.ts:18-29 | each part is floored on its own: 1.9 days give 86,400 s, 30 hours give 108,000 s, and non-positive or NaN parts add nothing |
| `Duration.FractionalSeconds` | src/lib/utils/duration.ts:14 | a fractional input keeps its fraction in the seconds part (1.9 s stays 1.9 s) |
| `TimeAgo.Diff` | src/lib/utils/time.ts:4 | the age is never negative and is 0 for a future timestamp |
| `TimeAgo.SecondsAgo` | src/lib/utils/time.ts:1-12 | the dash exactly for a missing or zero timestamp; otherwise count·unit ≤ age < (count + 1)·unit, with seconds and minutes below 60, hours below 24, and at least 1 of any unit above seconds |
| `TimeAgo.UnitChoice` | src/lib/utils/time.ts:5-11 | the unit is seconds iff age < 60, minutes iff age < 3600, hours iff age < 86400, and days otherwise |
| `TimeAgo.LabelExamples` | src/lib/utils/time.ts:1-12 | a future timestamp reads 0s; 59 minutes, 23 hours and 365 days read as such |
| `AutoRefresh.CalculateBackoff` | src/lib/utils/autoRefresh.ts:7-13 | no failures gives the base delay; any failure count gives at most 300 s; from one failure on, a non-negative base never shrinks below min(base, 300) |
| `AutoRefresh.BackoffFirstFailure` | src/lib/utils/autoRefresh.ts:7-13 | the first failure waits the base delay, capped at 300 s |
| `AutoRefresh.BackoffDoubles` | src/lib/utils/autoRefresh.ts:7-13 | for any failure count other than 0 and −1, one more failure doubles the previous delay, capped at 300 s |
| `AutoRefresh.BackoffExamples` | src/lib/utils/autoRefresh.ts:7-13 | a 60 s base gives 60, 120, 240, then 300 s; a count of −1 gives 15 s |
| `AutoRefresh.BackoffMonotone` | src/lib/utils/autoRefresh.ts:7-13 | from the first failure on, more failures never shorten the delay |
| `AutoRefresh.SetupAutoRefresh` | src/lib/utils/autoRefresh.ts:15-21 | a timer exactly when enabled, with an interval of exactly max(5, refreshSec) seconds: the requested period when it is at least 5 s, and 5 s otherwise |
| `AutoRefresh.SetupAutoRefreshWithBackoff` | src/lib/utils/autoRefresh.ts:32-45 | a timer exactly when enabled, never under 5 s for a non-negative failure count, at most 300 s after a failure, and the plain interval with no failures; the interval is always the backoff delay for the failure count, computed from a base of max(5, refreshSec) seconds |
| `AutoRefresh.BackoffIntervalDoubles` | src/lib/utils/autoRefresh.ts:32-45 | the first failure arms min(max(5, refreshSec), 300) seconds, and each further failure doubles the armed interval up to 300 s |
| `TtlCache.New` | src/lib/server/cache.ts:3-6 | an empty store with the given default TTL |
| `TtlCache.Get` | src/lib/server/cache.ts:8-16 | a hit exactly when the key is stored and not past its expiry, returning the stored value; an expired entry for that key is removed and every other entry is kept |
| `TtlCache.Set` | src/lib/server/cache.ts:18-20 | the key maps to the value until now + TTL, with the default TTL when none is given; every other key is unchanged |
| `TtlCache.Clear` | src/lib/server/cache.ts:22-24 | no key remains |
| `TtlCache.SetThenGet` | src/lib/server/cache.ts:8-20 | a read no later than the expiry of a write returns the written value |
| `TtlCache.SetThenExpire` | src/lib/server/cache.ts:11-14 | a read after the expiry misses and leaves the store as it was before the write, minus that key |
| `TtlCache.SetOtherKey` | src/lib/server/cache.ts:18-20 | writing one key does not change what a read of another key returns |
| `TtlCache.LastWriteWins` | src/lib/server/cache.ts:18-20 | two writes to the same key equal the second write alone |
| `TtlCache.ClearThenGet` | src/lib/server/cache.ts:22-24 | after clearing, every read misses |
| `UriEncoding.EncodeUriComponent` | src/routes/api/rows/+server.ts:45 | the encoding uses only unreserved characters, `%` and upper-case hex; it is never shorter than the input and leaves all-unreserved text unchanged |
| `UriEncoding.EncodeAppend` | src/routes/api/rows/+server.ts:45 | encoding distributes over concatenation |
| `UriEncoding.SpaceBetweenWords` | src/routes/api/rows/+server.ts:45 | a space between two words becomes `%20` |
| `UriEncoding.DecodeUriComponent` | src/routes/api/rows/+server.ts:45 | the decoder, the encoder's inverse: text without `%` decodes to itself, a `%` not followed by two hex digits is malformed, and the decoded text is never longer than its encoding |
| `UriEncoding.EncodeDecodeRoundTrip` | src/routes/api/rows/+server.ts:45 | decoding an encoded string gives back the original string |
| `UriEncoding.EncodeInjective` | src/routes/api/rows/+server.ts:45 | distinct strings have distinct encodings |
| `RowAssembly.IconUrl` | src/routes/api/rows/+server.ts:35 | no icon URL for a missing or empty icon name; otherwise the image base followed by the encoded name |
| `RowAssembly.BuildRow` | src/routes/api/rows/+server.ts:28-46 | catalogue fields are copied; the prices and times come from the latest entry for the id, all null without one; margin is present iff both prices are, and is then high − low; daily volume is null; the wiki URL is the base plus the encoded name |
| `RowAssembly.BuildRows` | src/routes/api/rows/+server.ts:28-47 | exactly one row per catalogue entry, in catalogue order |
| `RowAssembly.WikiUrlsDistinct` | src/routes/api/rows/+server.ts:45 | items with different names get different wiki URLs |
| `RowAssembly.HandleRows` | src/routes/api/rows/+server.ts:5-52 | a live cache entry is returned without fetching; on a miss the built payload is returned and cached under `rows:v1` until 60 s after the write, which happens once the fetches have completed; a failed fetch caches nothing; every other key keeps its presence and its entry |
| `RowAssembly.RepeatWithinTtlHits` | src/routes/api/rows/+server.ts:5-50 | a second request within 60 s of the write of a fresh build returns the same body whatever the upstream would now say |
| `RowAssembly.RepeatAfterTtlRefetches` | src/routes/api/rows/+server.ts:5-50 | a request more than 60 s after that write fetches again and returns the rows built from the new upstream data |
| `CacheHeaders.Classify` | src/hooks.server.ts:10-35 | one year exactly for the static-asset paths; one day exactly for other API paths naming an icon or serving an image; untouched otherwise |
| `CacheHeaders.Handle` | src/hooks.server.ts:3-38 | the three cache headers take the policy's values, untouched responses keep their headers, and no other header changes |
| `CacheHeaders.StaticRuleFirst` | src/hooks.server.ts:10-27 | an image extension wins over the API rule: such a path always gets one year |
| `CacheHeaders.UpperCaseExtensionNotStatic` | src/hooks.server.ts:13-18 | the extension test is case-sensitive: `.PNG` outside the asset directories is not a static asset |
| `FilterState.KeepFinite` | src/lib/utils/filters.ts:3-14 | a finite or absent bound is kept and any other bound becomes null |
| `FilterState.NormalizeFilters` | src/lib/utils/filters.ts:11-50 | every bound of the result is absent or finite; finite bounds are kept and the others become null |
| `FilterState.NormalizeIdempotent` | src/lib/utils/filters.ts:11-50 | normalising twice equals normalising once, and already-normal filters are unchanged |
| `FilterState.ParsedBound` | src/lib/utils/filters.ts:58-60 | null exactly when the value is empty, parses to a non-finite number or parses to zero; otherwise the parsed number |
| `FilterState.HandleNumericFilterChange` | src/lib/utils/filters.ts:52-66 | the edited bound is null iff the text is empty, does not parse to a finite number, or parses to zero, and is the parsed number otherwise; the other bound and every other metric are unchanged |
| `FilterState.MigrateBound` | src/lib/utils/filters.ts:302-307 | missing or non-finite bounds become null; values up to 100,000,000 are kept; larger ones become the age at now, `nowSeconds − v`, or 0 when that age is negative |
| `FilterState.MigrateTimeFiltersToDurations` | src/lib/utils/filters.ts:301-314 | only the two time filters change, each bound migrated on its own |
| `FilterState.MigrateIdempotent` | src/lib/utils/filters.ts:301-307 | migrating again changes nothing when the first pass left no value above the threshold |
| `FilterState.MigrateExample` | src/lib/utils/filters.ts:301-307 | a timestamp an hour ago becomes 3600; a future one becomes 0; a duration stays; NaN becomes null |
| `FilterState.InlineProfit` | src/lib/utils/filters.ts:144-148 | the inline profit is floor(0.98 · buy − sell) |
| `FilterState.InlineProfitAgainstTax` | src/lib/utils/filters.ts:144-148 | below the cap, the table's profit is the tax engine's or one less, equal exactly when the buy price is a multiple of 50 |
| `FilterState.InlineBreakEvenAgainstTax` | src/lib/utils/filters.ts:114 | between 50 gp and 245,000,000 gp, the table's break-even equals the tax engine's |
| `FilterState.InlineBreakEvenBelowThreshold` | src/lib/utils/filters.ts:114 | below 50 gp the two differ (10 gp: engine 10, table 11) |
| `Filtering.ToLower` | src/lib/utils/filters.ts:78-79 | lower-casing keeps the length and lowers each character |
| `Filtering.ApplyQuery` | src/lib/utils/filters.ts:77-80 | a query of only white space keeps every row; otherwise exactly the rows whose lower-cased name contains the lower-cased query, in order and each as often as in the input |
| `Filtering.Age` | src/lib/utils/filters.ts:98 | a trade's age is non-negative and is now − timestamp unless that is negative |
| `Filtering.ApplyFilters` | src/lib/utils/filters.ts:76-163 | the result is an order-preserving subsequence of the input, holding exactly the query matches that pass the range checks, each as often as among the query matches |
| `Filtering.KeepRowMeaning` | src/lib/utils/filters.ts:82-163 | the check-by-check row test holds iff every metric value that is present (the age, for the times) lies within its bounds, or, under the exact-zero buy-limit filter, iff the buy limit is 0 |
| `Filtering.MissingValuePasses` | src/lib/utils/filters.ts:87-160 | a missing value is never excluded by its metric's bounds |
| `Filtering.KeptRowWithinBounds` | src/lib/utils/filters.ts:87-160 | every present value of a kept row satisfies min ≤ v ≤ max for every finite bound |
| `Filtering.ExactZeroBuyLimit` | src/lib/utils/filters.ts:83-86 | under `{min: 0, max: 0}` on the buy limit the result is exactly the query matches with buy limit 0 |
| `StableSort.Insert` | src/lib/utils/filters.ts:168 | insertion adds exactly one copy of the element |
| `StableSort.Sort` | src/lib/utils/filters.ts:168 | sorting is a permutation |
| `StableSort.InsertSorted` | src/lib/utils/filters.ts:168 | inserting into a sorted sequence keeps it sorted |
| `StableSort.SortSorted` | src/lib/utils/filters.ts:168 | for a total-preorder comparator, the result is ordered |
| `StableSort.InsertEquivalent` | src/lib/utils/filters.ts:168 | insertion places the element ahead of every element equivalent to it |
| `StableSort.SortStable` | src/lib/utils/filters.ts:168 | the elements of every equivalence class keep their input order |
| `Sorting.SortValue` | src/lib/utils/filters.ts:191-194 | the buy-limit sort value is the limit when present and MAX_SAFE_INTEGER when missing; every other metric sorts by its own value |
| `Sorting.ComparatorIsPreorder` | src/lib/utils/filters.ts:168-201 | for a locale order, the row comparator is a total preorder in both directions |
| `Sorting.FilteredSorted` | src/lib/utils/filters.ts:68-203 | the result is a permutation of the filtered rows, and is the filtered rows themselves when no sort key is set |
| `Sorting.UnsortedIsSubsequence` | src/lib/utils/filters.ts:165 | without a sort key the result keeps the input order |
| `Sorting.SortedAndStable` | src/lib/utils/filters.ts:168-201 | with a sort key the result is ordered by the comparator and rows that compare equal keep their filtered order |
| `Sorting.MetricOrder` | src/lib/utils/filters.ts:196-200 | rows with a missing value come after all others in both directions; present values ascend for asc and descend for desc |
| `Sorting.MissingBuyLimitLast` | src/lib/utils/filters.ts:191-198 | ascending, a row with no buy limit comes after every row with a smaller limit |
| `SortToggle.SetSort` | src/lib/utils/filters.ts:205-236 | clicking the sorted column steps asc → desc → unsorted, remembering the column; clicking the remembered column while unsorted gives asc; any other click sorts by the column, desc except asc for the name column |
| `SortToggle.ThreeClickCycle` | src/lib/utils/filters.ts:215-225 | three clicks on a column sorted asc pass through desc and unsorted back to asc |
| `SortToggle.FirstClicks` | src/lib/utils/filters.ts:205-236 | from a fresh table, clicks on a numeric column give desc, unsorted, asc |
| `FilterStats.PresentValues` | src/lib/utils/filters.ts:239-258 | the picked numbers are exactly the present values, empty iff no row has one |
| `FilterStats.Minimum` | src/lib/utils/filters.ts:261 | the minimum is an element of the list and bounds every element from below |
| `FilterStats.Maximum` | src/lib/utils/filters.ts:262 | the maximum is an element of the list and bounds every element from above |
| `FilterStats.Stat` | src/lib/utils/filters.ts:260-296 | both null iff no row has a value; otherwise min ≤ max, each attained by some row, and every present value lies between them |
| `FilterStats.ComputeFilterStats` | src/lib/utils/filters.ts:238-299 | every metric's statistic is its min/max over the rows; all null for no rows |

## Left out

- Network, timers and storage are not modelled:
  - the upstream fetches, including the User-Agent header and HTTP status handling; a fetch outcome is a `Result` argument;
  - `setInterval` and `clearInterval`; the model returns the interval that would be armed;
  - `Date.now()`, which is an argument;
  - localStorage preferences and settings.
- These parts of the repository are not part of this model: the other API routes, the item page, `format.ts` and the Svelte components.
- Floating point is not modelled: the model uses exact integers and rationals.
  - In exact arithmetic the `+ 1` correction in `calculateBreakEvenPrice` is never reached. The model makes no claim about whether double rounding can reach it.
  - `dir * (va - vb)` may lose precision near MAX_SAFE_INTEGER in the source but is exact here.
  - Prices are integers, and `Math.floor` of an integer difference is the identity.
- Filtering.ToLower: lowers only ASCII letters. Full Unicode case mapping is a large locale-independent table, left out.
- Sorting.IsLocaleOrder: `localeCompare` is a parameter assumed to be a total preorder. Collation itself is not modelled.
- FilterState.ParsedBound: `Number(string)` is a parameter. Its grammar (white space, hex and exponent forms) is not modelled.
- RowAssembly.BuildRow: the latest-price map is keyed by the numeric id, not by `String(id)`. A missing `limit` is null, an absent `icon` is None, and `examine` is copied as an `Option`.
- RowAssembly.HandleRows: the cache is the value passed in, not a module-level singleton. Its two clock readings are arguments: `now` for the read and a later `doneAt` for the write after the fetches. The truthiness test on the cached value is read as "a value is present", which holds for every stored payload. JSON serialisation and the `content-type` response header are not modelled.
- UriEncoding.DecodeUriComponent: accepts only the upper-case `%XX` escapes the encoder produces. It is the round-trip partner, not a model of the full `decodeURIComponent`.
- UriEncoding.EncodeUriComponent: a Dafny `char` is a Unicode scalar value, so the lone surrogates for which JavaScript throws a `URIError` cannot occur.
- CacheHeaders.Handle: header names are matched exactly. The source's `Headers` object compares names case-insensitively, and the request URL parsing is not modelled: the pathname is an argument.
- TimeAgo.SecondsAgo: the timestamp is an optional integer. NaN, the only other falsy number, and fractional timestamps are not modelled. The label text is a count and a unit, not a formatted string.
- Tax.TaxDescription: returns the chosen branch and the tax amount, not the formatted text with `toLocaleString` grouping.
- AutoRefresh.CalculateBackoff: the failure count is an integer and delays are exact reals. Fractional counts, NaN and infinite delays are not modelled.
- AutoRefresh.SetupAutoRefresh: the refresh period is a real number. NaN, for which `Math.max` yields NaN, is not modelled.
- SortToggle.SetSort: the source's third branch for a direction other than asc or desc cannot be reached, because `Direction` has only those two values.
- Sorting.FilteredSorted: sort keys are the name and the nine filterable metrics. Sorting by other row fields is not modelled.
- The code has no special handling for the 2^31 − 1 price sentinel and no `potentialProfit` statistic, so the model has neither.
