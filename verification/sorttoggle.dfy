/**
 * `setSort`: the column-header click handler. A click on the sorted column
 * steps asc -> desc -> unsorted; a click on the column that was just made
 * unsorted re-enters asc; any other click sorts by the clicked column, desc
 * by default and asc for the name column.
 */
module SortToggle {
  import opened Wrappers
  import opened Sorting
  import opened FilterState

  datatype SortState = SortState(sortKey: Option<SortKey>, sortDir: Direction, lastSortKey: Option<SortKey>)

  /** The direction a freshly chosen column starts in. */
  function DefaultDirection(k: SortKey): Direction {
    if k == Name then Asc else Desc
  }

  function SetSort(s: SortState, nextKey: SortKey): (r: SortState)
    ensures r.sortKey == Some(nextKey) || r.sortKey.None?
    ensures r.sortKey.None? <==> s.sortKey == Some(nextKey) && s.sortDir == Desc
    ensures r.sortKey.None? ==> r.sortDir == Asc
    ensures r.lastSortKey == s.lastSortKey || r.lastSortKey == Some(nextKey)
    ensures s.sortKey == Some(nextKey) && s.sortDir == Asc ==> r == s.(sortDir := Desc)
    ensures s.sortKey.None? && s.lastSortKey == Some(nextKey) ==> r == s.(sortKey := Some(nextKey), sortDir := Asc)
    ensures s.sortKey != Some(nextKey) && !(s.sortKey.None? && s.lastSortKey == Some(nextKey)) ==>
              r == SortState(Some(nextKey), DefaultDirection(nextKey), Some(nextKey))
  {
    if s.sortKey == Some(nextKey) then
      match s.sortDir
      case Asc => s.(sortDir := Desc)
      case Desc => SortState(None, Asc, Some(nextKey))
    else if s.lastSortKey == Some(nextKey) && s.sortKey.None? then
      s.(sortKey := Some(nextKey), sortDir := Asc)
    else
      SortState(Some(nextKey), DefaultDirection(nextKey), Some(nextKey))
  }

  /** Three clicks on the column sorted ascending return to that same state. */
  lemma ThreeClickCycle(k: SortKey, last: Option<SortKey>)
    ensures var s := SortState(Some(k), Asc, last);
            SetSort(s, k) == SortState(Some(k), Desc, last)
            && SetSort(SetSort(s, k), k) == SortState(None, Asc, Some(k))
            && SetSort(SetSort(SetSort(s, k), k), k) == SortState(Some(k), Asc, Some(k))
  {
  }

  /** From a fresh table, clicking a numeric column sorts it descending; the next two clicks unsort it, then sort ascending. */
  lemma FirstClicks(k: FilterKey)
    ensures var s0 := SortState(None, Asc, None);
            var s1 := SetSort(s0, ByMetric(k));
            var s2 := SetSort(s1, ByMetric(k));
            s1 == SortState(Some(ByMetric(k)), Desc, Some(ByMetric(k)))
            && s2 == SortState(None, Asc, Some(ByMetric(k)))
            && SetSort(s2, ByMetric(k)) == SortState(Some(ByMetric(k)), Asc, Some(ByMetric(k)))
  {
  }
}
