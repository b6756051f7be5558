/** keys_downloader.go: the key-feed cache. The three cache fields live in a
    class whose methods update them as the Go code does; the clock is the
    parameter `now` (nanoseconds since the Unix epoch) and the outcome of the
    HTTP GET is the parameter `fetch`. The cache's behaviour on one call is
    also given as a function on a value snapshot, CacheEntry, so that
    lemmas can relate several calls. */
module KeysDownloader {
  import opened PmtTypes
  import opened MaxAge

  /** The zero time.Time (1 January of year 1, UTC) in nanoseconds since the
      Unix epoch: the cached time of a downloader that never fetched. */
  const ZERO_TIME: int := -62_135_596_800 * NANOS_PER_SECOND

  const HTTPS: Bytes := Ascii("https")

  /** What http.DefaultClient.Get followed by ioutil.ReadAll yields: the body
      and the Cache-Control header (empty when absent), or the error of the
      request or of reading the body. */
  datatype FetchResult = Fetched(body: Bytes, cacheControl: Bytes) | FetchFailed(error: Error)

  /** A value copy of the downloader's cache fields, as a value receiver sees them. */
  datatype CacheEntry = CacheEntry(data: Bytes, time: int, duration: int) {

    /** hasNonExpiredCachedData: `now` is not after time + duration. */
    predicate HasNonExpiredCachedData(now: int) {
      now <= time + duration
    }

    /** shouldRefreshCachedData: `now` is not after time + duration/2 (Go's
        truncating division), i.e. it holds in the FIRST half of the lifetime. */
    predicate ShouldRefreshCachedData(now: int) {
      now <= time + GoHalf(duration)
    }
  }

  const EMPTY_CACHE: CacheEntry := CacheEntry([], ZERO_TIME, 0)

  /** The effect of one call: the cache afterwards, the value returned, whether
      getCachedData started a background refresh, and whether Download then
      made a blocking fetch of its own. One call may do both. */
  datatype Step = Step(entry: CacheEntry, result: Result<Bytes>, background: bool, blocking: bool)

  /** getCachedData on a snapshot: the cached data while it is not expired,
      the empty string otherwise; and whether a background refresh is started. */
  function CachedData(e: CacheEntry, now: int): (Bytes, bool) {
    if e.HasNonExpiredCachedData(now) then (e.data, e.ShouldRefreshCachedData(now))
    else ([], false)
  }

  /** fetchAndCacheData on a snapshot: on success the three fields are set
      together, on failure nothing changes and the error is returned. */
  function FetchAndCache(e: CacheEntry, now: int, fetch: FetchResult): (CacheEntry, Result<Bytes>) {
    match fetch
    case FetchFailed(err) => (e, Err(err))
    case Fetched(body, cacheControl) => (CacheEntry(body, now, ExpirationDuration(cacheControl)), Ok(body))
  }

  /** Download on a snapshot. The background refresh of getCachedData runs
      on a copy of the downloader (a value receiver), so it leaves the cache
      as it was. */
  function DownloadStep(e: CacheEntry, now: int, fetch: FetchResult): Step {
    var (data, refresh) := CachedData(e, now);
    if |data| > 0 then Step(e, Ok(data), refresh, false)
    else
      var (e', r) := FetchAndCache(e, now, fetch);
      Step(e', r, refresh, true)
  }

  /** The downloader's validate(): url.Parse must succeed and the scheme must be https. */
  function Validate(url: Bytes, urlScheme: Bytes -> Result<Bytes>): (r: Result<()>)
    ensures r.Ok? <==> urlScheme(url) == Ok(HTTPS)
    ensures urlScheme(url).Err? ==> r == Err(urlScheme(url).error)
    ensures urlScheme(url).Ok? && urlScheme(url).value != HTTPS ==> r == Err(UrlNotHttps)
  {
    var scheme :- urlScheme(url);
    if scheme != HTTPS then Err(UrlNotHttps) else Ok(())
  }

  class GPayKeysDownloader {
    const url: Bytes
    var cachedData: Bytes
    var cachedTime: int
    var cacheExpirationDuration: int

    /** The cache fields as a value. */
    function Entry(): CacheEntry
      reads this
    {
      CacheEntry(cachedData, cachedTime, cacheExpirationDuration)
    }

    /** A downloader with zero-valued cache fields. */
    constructor (url: Bytes)
      ensures this.url == url && Entry() == EMPTY_CACHE
    {
      this.url := url;
      cachedData := [];
      cachedTime := ZERO_TIME;
      cacheExpirationDuration := 0;
    }

    /** The copy a value receiver works on. */
    constructor CopyOf(d: GPayKeysDownloader)
      ensures url == d.url && Entry() == d.Entry()
    {
      url := d.url;
      cachedData := d.cachedData;
      cachedTime := d.cachedTime;
      cacheExpirationDuration := d.cacheExpirationDuration;
    }

    /** NewGPayKeysDownloader: a downloader for an https endpoint, or the
        validation error. */
    static method New(url: Bytes, urlScheme: Bytes -> Result<Bytes>) returns (r: Result<GPayKeysDownloader>)
      ensures r.Ok? <==> Validate(url, urlScheme).Ok?
      ensures r.Err? ==> r.error == Validate(url, urlScheme).error
      ensures r.Ok? ==> fresh(r.value) && r.value.url == url && r.value.Entry() == EMPTY_CACHE
    {
      var v := Validate(url, urlScheme);
      if v.Err? {
        return Err(v.error);
      }
      var d := new GPayKeysDownloader(url);
      r := Ok(d);
    }

    /** fetchAndCacheData: on a successful fetch the three cache fields are
        replaced together and the body is returned; on a failed one nothing
        changes and the error is returned. */
    method FetchAndCacheData(now: int, fetch: FetchResult) returns (r: Result<Bytes>)
      modifies this
      ensures fetch.FetchFailed? ==> r == Err(fetch.error) && Entry() == old(Entry())
      ensures fetch.Fetched? ==>
        r == Ok(fetch.body) && Entry() == CacheEntry(fetch.body, now, ExpirationDuration(fetch.cacheControl))
      ensures (Entry(), r) == FetchAndCache(old(Entry()), now, fetch)
    {
      match fetch
      case FetchFailed(err) =>
        r := Err(err);
      case Fetched(body, cacheControl) =>
        cachedTime := now;
        cachedData := body;
        cacheExpirationDuration := GetExpirationDuration(cacheControl);
        r := Ok(cachedData);
    }

    /** getCachedData, a value-receiver method: it works on a copy, and the
        refresh it starts in the first half of the lifetime updates that copy
        only. Its result is read before the refresh can run, since the copy's
        state lock is held until the method returns. */
    method GetCachedData(now: int, fetch: FetchResult) returns (data: Bytes, refreshed: bool)
      ensures data == (if Entry().HasNonExpiredCachedData(now) then cachedData else [])
      ensures refreshed <==> Entry().HasNonExpiredCachedData(now) && Entry().ShouldRefreshCachedData(now)
      ensures (data, refreshed) == CachedData(Entry(), now)
    {
      var d := new GPayKeysDownloader.CopyOf(this);
      refreshed := false;
      if d.Entry().HasNonExpiredCachedData(now) {
        data := d.cachedData;
        if d.Entry().ShouldRefreshCachedData(now) {
          var _ := d.FetchAndCacheData(now, fetch);
          refreshed := true;
        }
        return;
      }
      data := [];
    }

    /** Download: cached data that is non-empty and not expired is returned
        without a blocking fetch; otherwise the downloader fetches. */
    method Download(now: int, fetch: FetchResult) returns (r: Result<Bytes>)
      modifies this
      ensures Entry() == DownloadStep(old(Entry()), now, fetch).entry
      ensures r == DownloadStep(old(Entry()), now, fetch).result
    {
      var data, _ := GetCachedData(now, fetch);
      if |data| > 0 {
        return Ok(data);
      }
      r := FetchAndCacheData(now, fetch);
    }
  }

  // ---------------------------------------------------------------------
  // Properties of the cache
  // ---------------------------------------------------------------------

  /** A call is served from the cache, with no blocking fetch, exactly when the
      cached data is non-empty and not expired; it then returns that data and
      leaves the cache as it was, whether or not a refresh was started. */
  lemma ServedFromCacheIff(e: CacheEntry, now: int, fetch: FetchResult)
    ensures !DownloadStep(e, now, fetch).blocking <==>
      |e.data| > 0 && e.HasNonExpiredCachedData(now)
    ensures !DownloadStep(e, now, fetch).blocking ==>
      DownloadStep(e, now, fetch).result == Ok(e.data) && DownloadStep(e, now, fetch).entry == e
  {
  }

  /** A background refresh is started exactly when the cache is not expired
      and `now` is within the first half of the lifetime, whether the cached
      body is empty or not. */
  lemma BackgroundRefreshIff(e: CacheEntry, now: int, fetch: FetchResult)
    ensures DownloadStep(e, now, fetch).background <==>
      e.HasNonExpiredCachedData(now) && e.ShouldRefreshCachedData(now)
  {
  }

  /** An empty body that is not expired, in the first half of its lifetime,
      costs two requests: the background refresh and the blocking fetch. */
  lemma EmptyUnexpiredBodyFetchesTwice(e: CacheEntry, now: int, fetch: FetchResult)
    requires e.data == [] && e.ShouldRefreshCachedData(now) && e.HasNonExpiredCachedData(now)
    ensures DownloadStep(e, now, fetch).background && DownloadStep(e, now, fetch).blocking
    ensures (DownloadStep(e, now, fetch).entry, DownloadStep(e, now, fetch).result) == FetchAndCache(e, now, fetch)
  {
  }

  /** With a non-negative lifetime the refresh window is the first half of it:
      it lies within the non-expired window, and ends at half the lifetime. */
  lemma RefreshWindowIsFirstHalf(e: CacheEntry, now: int)
    requires e.duration >= 0
    ensures e.ShouldRefreshCachedData(now) ==> e.HasNonExpiredCachedData(now)
    ensures e.ShouldRefreshCachedData(now) <==> 2 * (now - e.time) <= e.duration - e.duration % 2
  {
  }

  /** A blocking fetch that succeeds replaces the whole cache at once and
      returns the fresh body; one that fails leaves the cache untouched and
      returns the error. */
  lemma BlockingFetchOutcome(e: CacheEntry, now: int, fetch: FetchResult)
    requires DownloadStep(e, now, fetch).blocking
    ensures fetch.Fetched? ==>
      DownloadStep(e, now, fetch).entry == CacheEntry(fetch.body, now, ExpirationDuration(fetch.cacheControl)) &&
      DownloadStep(e, now, fetch).result == Ok(fetch.body)
    ensures fetch.FetchFailed? ==>
      DownloadStep(e, now, fetch).entry == e && DownloadStep(e, now, fetch).result == Err(fetch.error)
  {
  }

  /** Once the lifetime has passed, or when the cached body is empty, every call
      fetches and returns what the fetch returned; in particular a zero lifetime
      makes every call at a later instant fetch again. */
  lemma ExpiredOrEmptyAlwaysFetches(e: CacheEntry, now: int, fetch: FetchResult)
    requires now > e.time + e.duration || e.data == []
    ensures DownloadStep(e, now, fetch).blocking
    ensures DownloadStep(e, now, fetch).result ==
      match fetch
      case Fetched(body, _) => Ok(body)
      case FetchFailed(err) => Err(err)
  {
  }

  /** After a successful fetch at instant t of a non-empty body with lifetime d,
      every call up to t + d returns that body without a blocking fetch, whatever
      the network would answer, and the cache stays as the fetch left it. */
  lemma ServedUntilLifetimeEnds(e: CacheEntry, t: int, body: Bytes, cacheControl: Bytes,
                                later: int, fetch2: FetchResult)
    requires DownloadStep(e, t, Fetched(body, cacheControl)).blocking
    requires body != [] && t <= later <= t + ExpirationDuration(cacheControl)
    ensures var e1 := DownloadStep(e, t, Fetched(body, cacheControl)).entry;
      !DownloadStep(e1, later, fetch2).blocking &&
      DownloadStep(e1, later, fetch2).result == Ok(body) &&
      DownloadStep(e1, later, fetch2).entry == e1
  {
  }

  /** A lifetime of zero (no usable max-age) or below (a wrapped one) means a call at any later instant
      fetches again. */
  lemma NoMaxAgeRefetchesEveryCall(e: CacheEntry, t: int, body: Bytes, cacheControl: Bytes,
                                   later: int, fetch2: FetchResult)
    requires DownloadStep(e, t, Fetched(body, cacheControl)).blocking
    requires ExpirationDuration(cacheControl) <= 0 && later > t
    ensures DownloadStep(DownloadStep(e, t, Fetched(body, cacheControl)).entry, later, fetch2).blocking
  {
  }
}
