/**
 * The rows endpoint: join the item catalogue with the latest prices into one
 * PriceRow per item, behind a 60-second cache entry under `rows:v1`.
 * The latest-price map is keyed by item id (the source looks it up by the
 * decimal string of the id).
 */
module RowAssembly {
  import opened Wrappers
  import opened Types
  import UriEncoding
  import TtlCache

  const WikiBase: string := "https://oldschool.runescape.wiki/w/"
  const ImageBase: string := "https://oldschool.runescape.wiki/images/"
  const RowsCacheKey: string := "rows:v1"
  const RowsCacheTtl: int := 60_000

  /** The latest entry for an item, if the price feed has one. */
  function LatestFor(latest: map<int, LatestEntry>, id: int): Option<LatestEntry> {
    if id in latest then Some(latest[id]) else None
  }

  /** The icon URL: absent for a missing or empty icon filename. */
  function IconUrl(icon: Option<string>): (u: Option<string>)
    ensures u.Some? <==> icon.Some? && icon.value != ""
    ensures u.Some? ==> u.value == ImageBase + UriEncoding.EncodeUriComponent(icon.value)
  {
    if icon.Some? && icon.value != "" then Some(ImageBase + UriEncoding.EncodeUriComponent(icon.value))
    else None
  }

  /** One row of the table, built from a catalogue entry and the latest-price map. */
  function BuildRow(m: ItemMapping, latest: map<int, LatestEntry>): (r: PriceRow)
    ensures r.id == m.id && r.name == m.name && r.members == m.members && r.examine == m.examine
    ensures r.buyLimit == m.limit
    ensures m.id !in latest ==>
              r.buyPrice.None? && r.sellPrice.None? && r.buyTime.None? && r.sellTime.None? && r.margin.None?
    ensures m.id in latest ==>
              r.buyPrice == latest[m.id].high && r.buyTime == latest[m.id].highTime
              && r.sellPrice == latest[m.id].low && r.sellTime == latest[m.id].lowTime
    ensures r.margin.Some? <==> r.buyPrice.Some? && r.sellPrice.Some?
    ensures r.margin.Some? ==> r.margin.value == r.buyPrice.value - r.sellPrice.value
    ensures r.dailyVolume.None?
    ensures r.icon == IconUrl(m.icon)
    ensures r.wikiUrl == WikiBase + UriEncoding.EncodeUriComponent(m.name)
  {
    var l := LatestFor(latest, m.id);
    var high := if l.Some? then l.value.high else None;
    var low := if l.Some? then l.value.low else None;
    PriceRow(
      m.id,
      m.name,
      IconUrl(m.icon),
      m.members,
      m.limit,
      high,
      if l.Some? then l.value.highTime else None,
      low,
      if l.Some? then l.value.lowTime else None,
      if high.Some? && low.Some? then Some(high.value - low.value) else None,
      None,
      m.examine,
      WikiBase + UriEncoding.EncodeUriComponent(m.name)
    )
  }

  /** `mapping.map(...)`: exactly one row per catalogue entry, in catalogue order. */
  function BuildRows(mapping: seq<ItemMapping>, latest: map<int, LatestEntry>): (rows: seq<PriceRow>)
    ensures |rows| == |mapping|
    ensures forall i :: 0 <= i < |mapping| ==> rows[i].id == mapping[i].id && rows[i] == BuildRow(mapping[i], latest)
  {
    if |mapping| == 0 then []
    else [BuildRow(mapping[0], latest)] + BuildRows(mapping[1..], latest)
  }

  /** Distinct item names give distinct wiki URLs. */
  lemma WikiUrlsDistinct(a: ItemMapping, b: ItemMapping, latest: map<int, LatestEntry>)
    requires a.name != b.name
    ensures BuildRow(a, latest).wikiUrl != BuildRow(b, latest).wikiUrl
  {
    if BuildRow(a, latest).wikiUrl == BuildRow(b, latest).wikiUrl {
      var ea := UriEncoding.EncodeUriComponent(a.name);
      var eb := UriEncoding.EncodeUriComponent(b.name);
      assert WikiBase + ea == WikiBase + eb;
      assert ea == (WikiBase + ea)[|WikiBase|..];
      assert eb == (WikiBase + eb)[|WikiBase|..];
      UriEncoding.EncodeInjective(a.name, b.name);
    }
  }

  /** The JSON body of the rows endpoint. */
  datatype Payload = Payload(rows: seq<PriceRow>)

  /** The two upstream feeds the endpoint fetches on a cache miss. */
  datatype Upstream = Upstream(mapping: seq<ItemMapping>, latest: map<int, LatestEntry>)

  /** The endpoint's answer (a payload or the fetch error) and the cache afterwards. */
  datatype Response = Response(body: Result<Payload, string>, cache: TtlCache.Cache<Payload>)

  /**
   * GET /api/rows: the cache is read at time `now` (milliseconds) and, after
   * the awaited upstream fetches, written at time `doneAt`. `fetched` is what
   * the two fetches would yield; it is consulted only on a cache miss. The
   * route's cache is constructed with the 60 s default TTL.
   */
  function HandleRows(c: TtlCache.Cache<Payload>, now: int, doneAt: int, fetched: Result<Upstream, string>): (r: Response)
    requires c.defaultTtl == RowsCacheTtl
    requires now <= doneAt
    ensures r.cache.defaultTtl == RowsCacheTtl
    ensures TtlCache.Get(c, RowsCacheKey, now).value.Some? ==>
              r == Response(Success(c.store[RowsCacheKey].value), c)
    ensures TtlCache.Get(c, RowsCacheKey, now).value.None? && fetched.Success? ==>
              r.body == Success(Payload(BuildRows(fetched.value.mapping, fetched.value.latest)))
              && RowsCacheKey in r.cache.store
              && r.cache.store[RowsCacheKey] == TtlCache.Entry(r.body.value, doneAt + RowsCacheTtl)
    ensures TtlCache.Get(c, RowsCacheKey, now).value.None? && fetched.Failure? ==>
              r.body == Failure(fetched.error) && RowsCacheKey !in r.cache.store
    ensures forall k :: k != RowsCacheKey ==> (k in r.cache.store <==> k in c.store)
    ensures forall k :: k != RowsCacheKey && k in c.store ==> r.cache.store[k] == c.store[k]
  {
    var lookup := TtlCache.Get(c, RowsCacheKey, now);
    if lookup.value.Some? then Response(Success(lookup.value.value), lookup.cache)
    else
      match fetched
      case Failure(e) => Response(Failure(e), lookup.cache)
      case Success(up) =>
        var payload := Payload(BuildRows(up.mapping, up.latest));
        Response(Success(payload), TtlCache.Set(lookup.cache, RowsCacheKey, payload, None, doneAt))
  }

  /** A second request within 60 s of the write of a freshly built payload is served from the cache. */
  lemma RepeatWithinTtlHits(c: TtlCache.Cache<Payload>, t: int, doneAt: int, now: int,
                            first: Result<Upstream, string>, second: Result<Upstream, string>)
    requires c.defaultTtl == RowsCacheTtl
    requires TtlCache.Get(c, RowsCacheKey, t).value.None? && first.Success?
    requires t <= doneAt <= now <= doneAt + RowsCacheTtl
    ensures var r1 := HandleRows(c, t, doneAt, first);
            HandleRows(r1.cache, now, now, second).body == r1.body
  {
  }

  /** Once those 60 s have passed, the next request fetches again and returns what the upstream now says. */
  lemma RepeatAfterTtlRefetches(c: TtlCache.Cache<Payload>, t: int, doneAt: int, now: int,
                                first: Result<Upstream, string>, second: Result<Upstream, string>)
    requires c.defaultTtl == RowsCacheTtl
    requires TtlCache.Get(c, RowsCacheKey, t).value.None? && first.Success? && second.Success?
    requires t <= doneAt && doneAt + RowsCacheTtl < now
    ensures var r1 := HandleRows(c, t, doneAt, first);
            HandleRows(r1.cache, now, now, second).body
              == Success(Payload(BuildRows(second.value.mapping, second.value.latest)))
  {
  }
}
