/**
 * The sort half of `filteredSorted`: a stable sort on one column, with
 * missing values last in both directions and a missing buy limit read as
 * Number.MAX_SAFE_INTEGER. Names are compared by `localeCompare`, which is a
 * parameter here.
 */
module Sorting {
  import opened Wrappers
  import opened Types
  import opened FilterState
  import Filtering
  import StableSort
  import Seqs

  const MaxSafeInteger: int := 9_007_199_254_740_991

  datatype SortKey = Name | ByMetric(metric: FilterKey)

  datatype Direction = Asc | Desc

  function DirSign(d: Direction): int {
    if d == Asc then 1 else -1
  }

  /** `localeCompare` behaves as the comparator of a total preorder on names. */
  ghost predicate IsLocaleOrder(localeCompare: (string, string) -> int) {
    StableSort.IsTotalPreorder(localeCompare)
  }

  /** The numeric sort value: the metric, with a missing buy limit replaced by MAX_SAFE_INTEGER. */
  function SortValue(row: PriceRow, k: FilterKey): (v: Option<int>)
    ensures k == BuyLimit ==> v.Some?
    ensures k == BuyLimit ==> v.value == if row.buyLimit.Some? then row.buyLimit.value else MaxSafeInteger
    ensures k != BuyLimit ==> v == RowValue(row, k)
  {
    if k == BuyLimit then Some(row.buyLimit.GetOr(MaxSafeInteger)) else RowValue(row, k)
  }

  /** The comparator `filteredSorted` hands to `Array.prototype.sort`. */
  function CompareRows(a: PriceRow, b: PriceRow, key: SortKey, dir: Direction,
                       localeCompare: (string, string) -> int): int
  {
    match key
    case Name => DirSign(dir) * localeCompare(a.name, b.name)
    case ByMetric(k) =>
      var va := SortValue(a, k);
      var vb := SortValue(b, k);
      if va.None? && vb.None? then 0
      else if va.None? then 1
      else if vb.None? then -1
      else DirSign(dir) * (va.value - vb.value)
  }

  function Comparator(key: SortKey, dir: Direction, localeCompare: (string, string) -> int): (PriceRow, PriceRow) -> int {
    (a: PriceRow, b: PriceRow) => CompareRows(a, b, key, dir, localeCompare)
  }

  /** For a locale order, the row comparator is a total preorder in either direction. */
  lemma ComparatorIsPreorder(key: SortKey, dir: Direction, localeCompare: (string, string) -> int)
    requires IsLocaleOrder(localeCompare)
    ensures StableSort.IsTotalPreorder(Comparator(key, dir, localeCompare))
  {
    var cmp := Comparator(key, dir, localeCompare);
    forall a, b
      ensures cmp(a, b) > 0 <==> cmp(b, a) < 0
    {
    }
    forall a, b, c | cmp(a, b) <= 0 && cmp(b, c) <= 0
      ensures cmp(a, c) <= 0
    {
      if key == Name && dir == Desc {
        assert localeCompare(b.name, a.name) <= 0;
        assert localeCompare(c.name, b.name) <= 0;
        StableSort.Transitive(localeCompare, c.name, b.name, a.name);
      } else if key == Name {
        StableSort.Transitive(localeCompare, a.name, b.name, c.name);
      }
    }
  }

  /** `filteredSorted`: filter, then sort stably unless no sort key is chosen. */
  function FilteredSorted(rows: seq<PriceRow>, q: string, key: Option<SortKey>, dir: Direction,
                          f: Filters, nowSeconds: int, localeCompare: (string, string) -> int): (r: seq<PriceRow>)
    ensures multiset(r) == multiset(Filtering.ApplyFilters(rows, q, f, nowSeconds))
    ensures key.None? ==> r == Filtering.ApplyFilters(rows, q, f, nowSeconds)
  {
    var filtered := Filtering.ApplyFilters(rows, q, f, nowSeconds);
    if key.None? then filtered
    else StableSort.Sort(filtered, Comparator(key.value, dir, localeCompare))
  }

  /** Without a sort key the result is an order-preserving subsequence of the input. */
  lemma UnsortedIsSubsequence(rows: seq<PriceRow>, q: string, dir: Direction, f: Filters, nowSeconds: int,
                              localeCompare: (string, string) -> int)
    ensures Seqs.IsSubsequence(FilteredSorted(rows, q, None, dir, f, nowSeconds, localeCompare), rows)
  {
  }

  /** With a sort key the result is ordered by the comparator and stable. */
  lemma SortedAndStable(rows: seq<PriceRow>, q: string, key: SortKey, dir: Direction, f: Filters, nowSeconds: int,
                        localeCompare: (string, string) -> int, y: PriceRow)
    requires IsLocaleOrder(localeCompare)
    ensures var r := FilteredSorted(rows, q, Some(key), dir, f, nowSeconds, localeCompare);
            var cmp := Comparator(key, dir, localeCompare);
            StableSort.IsSorted(r, cmp)
            && StableSort.EquivalentTo(r, y, cmp) == StableSort.EquivalentTo(Filtering.ApplyFilters(rows, q, f, nowSeconds), y, cmp)
  {
    var cmp := Comparator(key, dir, localeCompare);
    ComparatorIsPreorder(key, dir, localeCompare);
    StableSort.SortSorted(Filtering.ApplyFilters(rows, q, f, nowSeconds), cmp);
    StableSort.SortStable(Filtering.ApplyFilters(rows, q, f, nowSeconds), y, cmp);
  }

  /**
   * In either direction every row with a missing sort value comes after every
   * row with a present one; present values ascend for `Asc` and descend for `Desc`.
   */
  lemma MetricOrder(rows: seq<PriceRow>, q: string, k: FilterKey, dir: Direction, f: Filters, nowSeconds: int,
                    localeCompare: (string, string) -> int, i: int, j: int)
    requires IsLocaleOrder(localeCompare)
    requires var r := FilteredSorted(rows, q, Some(ByMetric(k)), dir, f, nowSeconds, localeCompare);
             0 <= i < j < |r|
    ensures var r := FilteredSorted(rows, q, Some(ByMetric(k)), dir, f, nowSeconds, localeCompare);
            var vi := SortValue(r[i], k);
            var vj := SortValue(r[j], k);
            (vj.Some? ==> vi.Some?)
            && (vi.Some? && vj.Some? && dir == Asc ==> vi.value <= vj.value)
            && (vi.Some? && vj.Some? && dir == Desc ==> vi.value >= vj.value)
  {
    var r := FilteredSorted(rows, q, Some(ByMetric(k)), dir, f, nowSeconds, localeCompare);
    SortedAndStable(rows, q, ByMetric(k), dir, f, nowSeconds, localeCompare, r[i]);
    SortedMetricPair(r, k, dir, localeCompare, i, j);
  }

  /** Two positions of a sequence sorted by a metric compare as `MetricOrder` states. */
  lemma SortedMetricPair(r: seq<PriceRow>, k: FilterKey, dir: Direction,
                         localeCompare: (string, string) -> int, i: int, j: int)
    requires StableSort.IsSorted(r, Comparator(ByMetric(k), dir, localeCompare))
    requires 0 <= i < j < |r|
    ensures var vi := SortValue(r[i], k);
            var vj := SortValue(r[j], k);
            (vj.Some? ==> vi.Some?)
            && (vi.Some? && vj.Some? && dir == Asc ==> vi.value <= vj.value)
            && (vi.Some? && vj.Some? && dir == Desc ==> vi.value >= vj.value)
  {
    assert CompareRows(r[i], r[j], ByMetric(k), dir, localeCompare) <= 0;
  }

  /** A missing buy limit sorts as the largest value: after every smaller limit when ascending. */
  lemma MissingBuyLimitLast(rows: seq<PriceRow>, q: string, f: Filters, nowSeconds: int,
                            localeCompare: (string, string) -> int, i: int, j: int)
    requires IsLocaleOrder(localeCompare)
    requires var r := FilteredSorted(rows, q, Some(ByMetric(BuyLimit)), Asc, f, nowSeconds, localeCompare);
             0 <= i < |r| && 0 <= j < |r|
             && r[i].buyLimit.None? && r[j].buyLimit.Some? && r[j].buyLimit.value < MaxSafeInteger
    ensures j < i
  {
    var r := FilteredSorted(rows, q, Some(ByMetric(BuyLimit)), Asc, f, nowSeconds, localeCompare);
    SortedAndStable(rows, q, ByMetric(BuyLimit), Asc, f, nowSeconds, localeCompare, r[i]);
    MissingLimitLastInSorted(r, localeCompare, i, j);
  }

  lemma MissingLimitLastInSorted(r: seq<PriceRow>, localeCompare: (string, string) -> int, i: int, j: int)
    requires StableSort.IsSorted(r, Comparator(ByMetric(BuyLimit), Asc, localeCompare))
    requires 0 <= i < |r| && 0 <= j < |r|
    requires r[i].buyLimit.None? && r[j].buyLimit.Some? && r[j].buyLimit.value < MaxSafeInteger
    ensures j < i
  {
    if i < j {
      SortedMetricPair(r, BuyLimit, Asc, localeCompare, i, j);
    }
  }
}
