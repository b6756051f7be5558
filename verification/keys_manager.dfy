/** keys_manager.go: the key record with its expiration rule, Go's decimal
    int64 parser that the rule relies on, and the keys manager that decodes
    the downloaded key feed. */
module KeysManager {
  import opened PmtTypes
  import opened Strconv

  /** One entry of the key feed. Every field is a Go string; an empty
      keyExpiration means the key never expires. */
  datatype Key = Key(protocolVersion: Bytes, keyValue: Bytes, keyExpiration: Bytes)

  /** The feed document `{"keys": [...]}`. */
  datatype KeysFeed = KeysFeed(keys: seq<Key>)

  /** json.Unmarshal into a Key and into a Keys feed: collaborators whose
      outcome is given, never computed here. */
  datatype KeysJson = KeysJson(key: Bytes -> Result<Key>, feed: Bytes -> Result<KeysFeed>)

  const NANOS_PER_MILLI: int := 1_000_000

  // ---------------------------------------------------------------------
  // Key.IsValid
  // ---------------------------------------------------------------------

  /** time.Unix(0, keyExpiration*int64(time.Millisecond)) in nanoseconds: the
      multiplication is int64 arithmetic and wraps around. */
  function ExpiryInstant(millis: int): int {
    Wrap64(millis * NANOS_PER_MILLI)
  }

  /** Key.IsValid at instant `now` (nanoseconds since the Unix epoch): a
      non-empty expiration must parse as an int64 count of milliseconds, and
      the key is expired when `now` is strictly after it. */
  function IsValid(k: Key, now: int): Result<()> {
    if |k.keyExpiration| > 0 then
      var millis :- ParseInt64(k.keyExpiration);
      if now > ExpiryInstant(millis) then Err(ExpiredKey) else Ok(())
    else Ok(())
  }

  /** A key without an expiration is valid at every instant. */
  lemma NoExpirationAlwaysValid(k: Key, now: int)
    requires k.keyExpiration == []
    ensures IsValid(k, now) == Ok(())
  {
  }

  /** An expiration that is not a base-10 int64 is an error whatever the time,
      and it is the parser's error, not an expiry. */
  lemma MalformedExpirationIsError(k: Key, now: int)
    requires |k.keyExpiration| > 0
    requires !IsDecimal(k.keyExpiration) || !InInt64(DecimalValue(k.keyExpiration))
    ensures IsValid(k, now).Err?
    ensures IsValid(k, now).error in {NumSyntaxError, NumRangeError}
    ensures ParseInt64(k.keyExpiration).Err? && IsValid(k, now) == Err(ParseInt64(k.keyExpiration).error)
  {
    ParseInt64Spec(k.keyExpiration);
  }

  /** A key expiring at E milliseconds is invalid exactly when `now` is strictly
      after E ms: at E itself it is still valid. Stated where E ms fits an int64
      count of nanoseconds (until the year 2262). */
  lemma ExpiryIsStrictlyAfter(k: Key, now: int)
    requires IsDecimal(k.keyExpiration)
    requires InInt64(DecimalValue(k.keyExpiration) * NANOS_PER_MILLI)
    ensures IsValid(k, now).Ok? <==> now <= DecimalValue(k.keyExpiration) * NANOS_PER_MILLI
    ensures IsValid(k, now).Err? ==> IsValid(k, now).error == ExpiredKey
  {
    var e := DecimalValue(k.keyExpiration);
    ParseInt64Spec(k.keyExpiration);
    if e > 0 {
      assert e <= e * NANOS_PER_MILLI;
    } else {
      assert e * NANOS_PER_MILLI <= e;
    }
  }

  /** The millisecond-to-nanosecond product wraps around in int64: a key
      expiring at 9223372036855 ms (in the year 2262) counts as having
      expired before 1970, so it is rejected at instant 0. */
  lemma FarFutureExpiryWraps(k: Key)
    requires IsDecimal(k.keyExpiration) && DecimalValue(k.keyExpiration) == 9_223_372_036_855
    ensures ExpiryInstant(9_223_372_036_855) < 0
    ensures IsValid(k, 0) == Err(ExpiredKey)
  {
    ParseInt64Spec(k.keyExpiration);
  }

  /** Beyond 18446744073709 ms the product wraps past zero again: a key
      expiring at 23058430092137 ms (around the year 2700) gets an instant in
      the year 2116 and so is still valid in 2026. */
  lemma FartherFutureExpiryWrapsForward(k: Key)
    requires IsDecimal(k.keyExpiration) && DecimalValue(k.keyExpiration) == 23_058_430_092_137
    ensures ExpiryInstant(23_058_430_092_137) == 4_611_686_018_427_448_384
    ensures IsValid(k, 1_790_000_000 * 1_000_000_000) == Ok(())
  {
    ParseInt64Spec(k.keyExpiration);
  }

  // ---------------------------------------------------------------------
  // GPayPublicKeysManager
  // ---------------------------------------------------------------------

  /** The manager holds the downloader it reads from; D is whichever
      downloader implementation is plugged in. */
  datatype GPayPublicKeysManager<D> = GPayPublicKeysManager(downloader: D)

  /** NewGPayPublicKeysManager with its validate(): the only requirement is
      that a downloader was supplied. */
  function NewGPayPublicKeysManager<D>(downloader: Option<D>): (r: Result<GPayPublicKeysManager<D>>)
    ensures r.Ok? <==> downloader.Some?
    ensures r.Ok? ==> r.value.downloader == downloader.value
    ensures r.Err? ==> r.error == MissingKeysDownloader
  {
    match downloader
    case None => Err(MissingKeysDownloader)
    case Some(d) => Ok(GPayPublicKeysManager(d))
  }

  /** GetSigningKeys, given what the downloader's Download returned: a download
      error is passed on unchanged and the feed is then never parsed; a parse
      error is passed on; otherwise the feed's keys come back as they are. */
  function GetSigningKeys(downloaded: Result<Bytes>, json: KeysJson): (r: Result<seq<Key>>)
    ensures downloaded.Err? ==> r == Err(downloaded.error)
    ensures downloaded.Ok? && json.feed(downloaded.value).Err? ==> r == Err(json.feed(downloaded.value).error)
    ensures r.Ok? <==> downloaded.Ok? && json.feed(downloaded.value).Ok?
    ensures r.Ok? ==> r.value == json.feed(downloaded.value).value.keys
  {
    var data :- downloaded;
    var feed :- json.feed(data);
    Ok(feed.keys)
  }

  /** A download error does not depend on the feed parser at all. */
  lemma DownloadErrorSkipsParsing(e: Error, json1: KeysJson, json2: KeysJson)
    ensures GetSigningKeys(Err(e), json1) == GetSigningKeys(Err(e), json2) == Err(e)
  {
  }
}
