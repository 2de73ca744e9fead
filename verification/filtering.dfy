/**
 * The filter half of `filteredSorted`: a case-insensitive name query followed
 * by an AND of per-metric range checks in which a missing value always passes.
 */
module Filtering {
  import opened Wrappers
  import opened Numbers
  import opened Types
  import opened FilterState
  import Seqs

  // ---- Text query ----

  /** ECMAScript white space and line terminators, the characters `trim` removes. */
  predicate IsJsWhitespace(c: char) {
    var n := c as int;
    (0x09 <= n <= 0x0D) || n == 0x20 || n == 0xA0 || n == 0x1680 || (0x2000 <= n <= 0x200A)
    || n == 0x2028 || n == 0x2029 || n == 0x202F || n == 0x205F || n == 0x3000 || n == 0xFEFF
  }

  /** `q.trim()` is non-empty: the query has a character that is not white space. */
  predicate HasContent(q: string) {
    exists i :: 0 <= i < |q| && !IsJsWhitespace(q[i])
  }

  /** `toLowerCase`, for the ASCII letters. */
  function LowerChar(c: char): (l: char)
    ensures !('A' <= l <= 'Z')
  {
    if 'A' <= c <= 'Z' then (c as int + 32) as char else c
  }

  function ToLower(s: string): (r: string)
    ensures |r| == |s|
    ensures forall i :: 0 <= i < |s| ==> r[i] == LowerChar(s[i])
  {
    if |s| == 0 then [] else [LowerChar(s[0])] + ToLower(s[1..])
  }

  /** The row's lower-cased name contains the lower-cased (untrimmed) query. */
  predicate NameMatches(row: PriceRow, q: string) {
    Seqs.Includes(ToLower(row.name), ToLower(q))
  }

  /** The text step of `filteredSorted`: a query of only white space keeps every row. */
  function ApplyQuery(rows: seq<PriceRow>, q: string): (r: seq<PriceRow>)
    ensures !HasContent(q) ==> r == rows
    ensures HasContent(q) ==> forall row :: row in r <==> row in rows && NameMatches(row, q)
    ensures HasContent(q) ==> forall row :: multiset(r)[row] == if NameMatches(row, q) then multiset(rows)[row] else 0
    ensures Seqs.IsSubsequence(r, rows)
  {
    if HasContent(q) then
      Seqs.FilterCount(row => NameMatches(row, q), rows);
      Seqs.Filter(row => NameMatches(row, q), rows)
    else
      Seqs.SubsequenceReflexive(rows);
      rows
  }

  // ---- Range checks, as the source writes them ----

  /** The `{min: 0, max: 0}` buy-limit filter, meaning "buy limit exactly 0". */
  predicate IsExactZero(nf: NumericFilter) {
    nf.min == Some(Fin(0.0)) && nf.max == Some(Fin(0.0))
  }

  /** Age of a trade at `now`, never negative. */
  function Age(timestamp: int, nowSeconds: int): (a: int)
    ensures a >= 0 && a >= nowSeconds - timestamp
    ensures a == 0 || a == nowSeconds - timestamp
  {
    MaxInt(0, nowSeconds - timestamp)
  }

  /** The minimum bound rejects `v`. */
  predicate FailsMin(nf: NumericFilter, v: Option<int>) {
    nf.min.Some? && v.Some? && Below(v.value, nf.min.value)
  }

  /** The maximum bound rejects `v`. */
  predicate FailsMax(nf: NumericFilter, v: Option<int>) {
    nf.max.Some? && v.Some? && Above(v.value, nf.max.value)
  }

  /** The time check: only when a bound is set and the row has a timestamp, on the age. */
  predicate FailsTime(nf: NumericFilter, timestamp: Option<int>, nowSeconds: int) {
    (nf.min.Some? || nf.max.Some?) && timestamp.Some?
    && var age := Age(timestamp.value, nowSeconds);
       (nf.min.Some? && Below(age, nf.min.value)) || (nf.max.Some? && Above(age, nf.max.value))
  }

  /** The row predicate of `filteredSorted`, check by check in the source's order. */
  predicate KeepRow(row: PriceRow, f: Filters, nowSeconds: int) {
    if IsExactZero(f.buyLimit) then row.buyLimit == Some(0)
    else if FailsMin(f.buyLimit, row.buyLimit) || FailsMax(f.buyLimit, row.buyLimit) then false
    else if FailsMin(f.buyPrice, row.buyPrice) || FailsMax(f.buyPrice, row.buyPrice) then false
    else if FailsTime(f.buyTime, row.buyTime, nowSeconds) then false
    else if FailsMin(f.sellPrice, row.sellPrice) || FailsMax(f.sellPrice, row.sellPrice) then false
    else if FailsTime(f.sellTime, row.sellTime, nowSeconds) then false
    else
      var breakEven := RowValue(row, BreakEvenPrice);
      if FailsMin(f.breakEvenPrice, breakEven) || FailsMax(f.breakEvenPrice, breakEven) then false
      else if FailsMin(f.margin, row.margin) || FailsMax(f.margin, row.margin) then false
      else if FailsMin(f.dailyVolume, row.dailyVolume) || FailsMax(f.dailyVolume, row.dailyVolume) then false
      else
        var profit := RowValue(row, PostTaxProfit);
        !(FailsMin(f.postTaxProfit, profit) || FailsMax(f.postTaxProfit, profit))
  }

  /** The filter step of `filteredSorted`: the query, then the range checks. */
  function ApplyFilters(rows: seq<PriceRow>, q: string, f: Filters, nowSeconds: int): (r: seq<PriceRow>)
    ensures Seqs.IsSubsequence(r, rows)
    ensures forall row :: row in r <==> row in ApplyQuery(rows, q) && KeepRow(row, f, nowSeconds)
    ensures forall row :: multiset(r)[row] == if KeepRow(row, f, nowSeconds) then multiset(ApplyQuery(rows, q))[row] else 0
  {
    var matched := ApplyQuery(rows, q);
    var kept := Seqs.Filter(row => KeepRow(row, f, nowSeconds), matched);
    SubsequenceTransitive(kept, matched, rows);
    Seqs.FilterCount(row => KeepRow(row, f, nowSeconds), matched);
    kept
  }

  lemma {:induction false} SubsequenceTransitive<T>(a: seq<T>, b: seq<T>, c: seq<T>)
    requires Seqs.IsSubsequence(a, b) && Seqs.IsSubsequence(b, c)
    ensures Seqs.IsSubsequence(a, c)
    decreases |c|
  {
    if |c| > 0 {
      if |b| > 0 && b[0] == c[0] && Seqs.IsSubsequence(b[1..], c[1..]) {
        if |a| > 0 && a[0] == b[0] && Seqs.IsSubsequence(a[1..], b[1..]) {
          SubsequenceTransitive(a[1..], b[1..], c[1..]);
        } else {
          SubsequenceTransitive(a, b[1..], c[1..]);
        }
      } else {
        SubsequenceTransitive(a, b, c[1..]);
      }
    }
  }

  // ---- The range checks, stated per metric ----

  /** The value a metric's range is checked against: the age for the two time metrics. */
  function FilterValue(row: PriceRow, k: FilterKey, nowSeconds: int): (v: Option<int>)
    ensures v.None? <==> RowValue(row, k).None?
  {
    match RowValue(row, k)
    case None => None
    case Some(x) => if k == BuyTime || k == SellTime then Some(Age(x, nowSeconds)) else Some(x)
  }

  /** `v` lies within both bounds of `nf`, compared as JavaScript compares numbers. */
  predicate Within(v: int, nf: NumericFilter) {
    (nf.min.None? || !Below(v, nf.min.value)) && (nf.max.None? || !Above(v, nf.max.value))
  }

  /**
   * The filter's meaning: under the exact-zero buy-limit filter, buy limit 0
   * and nothing else; otherwise every metric whose value is present lies
   * within its bounds.
   */
  predicate Admits(row: PriceRow, f: Filters, nowSeconds: int) {
    if IsExactZero(f.buyLimit) then row.buyLimit == Some(0)
    else forall k :: FilterValue(row, k, nowSeconds).None? || Within(FilterValue(row, k, nowSeconds).value, f.Get(k))
  }

  /** The source's check-by-check predicate is exactly the per-metric meaning. */
  lemma KeepRowMeaning(row: PriceRow, f: Filters, nowSeconds: int)
    ensures KeepRow(row, f, nowSeconds) <==> Admits(row, f, nowSeconds)
  {
    if !IsExactZero(f.buyLimit) {
      if KeepRow(row, f, nowSeconds) {
        forall k
          ensures FilterValue(row, k, nowSeconds).None? || Within(FilterValue(row, k, nowSeconds).value, f.Get(k))
        {
        }
      }
      if Admits(row, f, nowSeconds) {
        PassesAt(row, f, nowSeconds, BuyLimit);
        PassesAt(row, f, nowSeconds, BuyPrice);
        PassesAt(row, f, nowSeconds, BuyTime);
        PassesAt(row, f, nowSeconds, SellPrice);
        PassesAt(row, f, nowSeconds, SellTime);
        PassesAt(row, f, nowSeconds, BreakEvenPrice);
        PassesAt(row, f, nowSeconds, Margin);
        PassesAt(row, f, nowSeconds, DailyVolume);
        PassesAt(row, f, nowSeconds, PostTaxProfit);
      }
    }
  }

  /** What `Admits` says about one metric, in the form the source checks it. */
  lemma PassesAt(row: PriceRow, f: Filters, nowSeconds: int, k: FilterKey)
    requires !IsExactZero(f.buyLimit) && Admits(row, f, nowSeconds)
    ensures k != BuyTime && k != SellTime ==> !FailsMin(f.Get(k), RowValue(row, k)) && !FailsMax(f.Get(k), RowValue(row, k))
    ensures k == BuyTime || k == SellTime ==> !FailsTime(f.Get(k), RowValue(row, k), nowSeconds)
  {
    assert FilterValue(row, k, nowSeconds).None? || Within(FilterValue(row, k, nowSeconds).value, f.Get(k));
  }

  /** A row whose value for a metric is missing is never excluded by that metric's range. */
  lemma MissingValuePasses(row: PriceRow, f: Filters, nowSeconds: int, k: FilterKey)
    requires !IsExactZero(f.buyLimit)
    requires RowValue(row, k).None?
    requires forall k' :: k' != k ==> FilterValue(row, k', nowSeconds).None? || Within(FilterValue(row, k', nowSeconds).value, f.Get(k'))
    ensures KeepRow(row, f, nowSeconds)
  {
    KeepRowMeaning(row, f, nowSeconds);
  }

  /** A kept row's present values satisfy every finite bound: min <= v <= max. */
  lemma KeptRowWithinBounds(row: PriceRow, f: Filters, nowSeconds: int, k: FilterKey)
    requires !IsExactZero(f.buyLimit)
    requires KeepRow(row, f, nowSeconds)
    requires FilterValue(row, k, nowSeconds).Some?
    ensures var v := FilterValue(row, k, nowSeconds).value as real;
            (f.Get(k).min.Some? && f.Get(k).min.value.Fin? ==> f.Get(k).min.value.r <= v)
            && (f.Get(k).max.Some? && f.Get(k).max.value.Fin? ==> v <= f.Get(k).max.value.r)
  {
    KeepRowMeaning(row, f, nowSeconds);
  }

  /** Under `{min: 0, max: 0}` on the buy limit the kept rows are the query matches with buy limit 0. */
  lemma ExactZeroBuyLimit(rows: seq<PriceRow>, q: string, f: Filters, nowSeconds: int)
    requires IsExactZero(f.buyLimit)
    ensures ApplyFilters(rows, q, f, nowSeconds) == Seqs.Filter((row: PriceRow) => row.buyLimit == Some(0), ApplyQuery(rows, q))
  {
    var matched := ApplyQuery(rows, q);
    FilterExtensional(row => KeepRow(row, f, nowSeconds), (row: PriceRow) => row.buyLimit == Some(0), matched);
  }

  lemma {:induction false} FilterExtensional<T(!new)>(p: T -> bool, p': T -> bool, s: seq<T>)
    requires forall x :: p(x) == p'(x)
    ensures Seqs.Filter(p, s) == Seqs.Filter(p', s)
    decreases |s|
  {
    if |s| > 0 {
      FilterExtensional(p, p', s[1..]);
    }
  }
}
