# pmt: Google Pay payment-method-token verification, modelled in Dafny

The Go package `pmt` verifies Google Pay payment-method tokens of protocol
version `ECv2SigningOnly`. The flow is:

1. A `PaymentMethodTokenRecipient` parses the sealed message (JSON) and checks
   the message's protocol version.
2. It verifies the intermediate signing key. This is the check that at least
   one root key signed at least one of the key's signatures over the canonical
   length-value encoding of sender ID, protocol version and signed key. The
   root keys come from a `GPayPublicKeysManager`, which decodes the key feed
   that a `GPayKeysDownloader` fetched and cached.
3. It parses the intermediate key, checks its expiration, and verifies the
   message signature with that key. That signature is taken over sender ID,
   recipient ID, protocol version and payload.
4. It returns the payload verbatim.

The downloader caches the feed for the lifetime that the `max-age` directive
of the response's `Cache-Control` header gives. While the cached body is
non-empty and unexpired, Download serves it; an empty one is fetched again. In the first half of the lifetime, Download
also starts a background refresh.

The modules follow the Go files:

| Dafny module | file | content |
|---|---|---|
| `PmtTypes` (types.dfy) | — | bytes, `Result`/`Option`, the error kinds, int64 wrap-around, Go's truncating `/2`, the first-failure map `MapAll` shared by the loops that fill a slice and return at the first error |
| `LengthValue` (length_value.dfy) | util.go | `toLengthValue` as a loop method proved equal to `Encode`, with a sequential reader and the round trips |
| `Strconv` (strconv.dfy) | (Go's strconv) | `ParseInt(s, 10, 64)` and `Atoi`, scanning digits and reporting overflow as it goes, proved to accept exactly the in-range decimals |
| `KeysManager` (keys_manager.dfy) | keys_manager.go | `Key.IsValid`, `NewGPayPublicKeysManager`, `GetSigningKeys` |
| `MaxAge` (max_age.dfy) | keys_downloader.go:113-132 | `getExpirationDuration`: `strings.Split`, a scanner for the pattern `\s*max-age\s*=\s*(\d+)\s*` proved equal to a declarative leftmost-match statement, and the loop over the segments |
| `KeysDownloader` (keys_downloader.dfy) | keys_downloader.go:16-111 | the class `GPayKeysDownloader` with its three cache fields, and `Download`, `fetchAndCacheData`, `getCachedData` and `validate` as methods |
| `PaymentMethodToken` (pmt.dfy) | pmt.go | the recipient, `validate`, `Unseal` and the verification chain as functions; the three loops as methods; lemmas characterising acceptance; and `Unseal` run imperatively against a downloader |

The model works with the following conventions:

- **Bytes.** Go strings are byte sequences (`seq<byte>`).
- **Time.** Instants are integers counting nanoseconds since the Unix epoch. The current time is a parameter `now`.
- **Collaborators.** JSON decoding, base64, `x509.ParsePKIXPublicKey`, tink's ECDSA verifier and `url.Parse` are function values in `Collaborators`, `KeysJson` and the `urlScheme` parameter. Their outcomes are inputs to the model.
- **Network.** The outcome of the HTTP GET is a `FetchResult` parameter.
- **Value receivers.** `getCachedData` has a value receiver in Go. It is modelled by allocating a copy of the downloader (`CopyOf`) and running the background refresh on that copy. The copy is all the goroutine in the Go code updates. So `GetCachedData` modifies nothing of the receiver, and a background refresh never changes the cache that later calls see.
- **Unseal and the keys manager.** The pure `Unseal` takes what `GetSigningKeys` would answer (`signingKeys`) as an input. `ReachesKeysManager` states when the Go code calls it at all. `UnsealWithDownloader` then runs the Go control flow step by step with a real downloader object. It is proved to return what `Unseal` returns given `GetSigningKeys(DownloadStep(...).result)`. It is also proved to leave the downloader untouched when the keys manager is not reached.

Details of the Go code that the model follows:

- **When the background refresh starts.** `shouldRefreshCachedData` (keys_downloader.go:76-78) holds while `now <= cachedTime + duration/2`. So the background refresh is started in the FIRST half of the lifetime, not in the second. `CacheEntry.ShouldRefreshCachedData`, `BackgroundRefreshIff` and `RefreshWindowIsFirstHalf` state this.
- **Where the refresh writes.** The refresh goroutine runs on the value-receiver copy (keys_downloader.go:80-92). Its fetch never reaches the shared cache. Only a blocking fetch in `Download` replaces the cached entry.
- **Which version `Unseal` compares against.** `Unseal` compares the message's version with the constant `ECv2SigningOnly` (pmt.go:74-79), not with the configured version. The two agree only because `validate` (pmt.go:193) forces the configured version to be that constant.
- **Non-ECDSA keys.** A key that parses as a PKIX key of another algorithm is not reported as an encoding error. The unchecked type assertion at pmt.go:186 panics. The model returns the distinct error `NonEcdsaKeyPanic` in its place.
- **Which error an expired key gives.** An expired root key fails the whole token. The error reported is that of the FIRST root key that fails (pmt.go:170-183). That key may be a badly encoded key that comes earlier, so the error is not always `ExpiredKey` (`ExpiredRootKeyRejects`, `FirstExpiredRootKeyIsReported`).
- **Overflow in key expiry.** The key expiration is multiplied into nanoseconds in int64 (keys_manager.go:28). Expirations from 9223372036855 to 18446744073709 ms (from the year 2262 on) wrap below zero, so the key counts as expired (`FarFutureExpiryWraps`). Larger ones wrap to an unrelated instant, possibly in the future (`FartherFutureExpiryWrapsForward`).
- **Overflow in `max-age`.** A `max-age` just above 2^63 nanoseconds becomes a negative lifetime (keys_downloader.go:126, `HugeMaxAgeIsNegative`). Atoi does not reject it.

## Model

| member | source | states |
|---|---|---|
| PmtTypes.Wrap64 | keys_manager.go:28 | the int64 result of an arithmetic operation: in the int64 range, congruent to the exact value modulo 2^64, and equal to it when it fits |
| PmtTypes.GoHalf | keys_downloader.go:77 | Go's `d / 2`: truncates toward zero, so it lies within one half of d/2 on the side of zero |
| PmtTypes.MapAllOk | pmt.go:113-121 | a fill-and-return-early loop succeeds exactly when every element succeeds, and then yields each element's value at its index |
| PmtTypes.MapAllFirstError | pmt.go:169-189 | such a loop fails with the error of the first element that fails |
| PmtTypes.MapAllError | pmt.go:169-189 | every error such a loop returns is the error of a first failing element |
| LengthValue.Le32 | util.go:8-9 | `PutUint32(uint32(n))` writes four bytes |
| LengthValue.Le32Value | util.go:9 | four little-endian bytes denote a value below 2^32 |
| LengthValue.Le32ValueOfLe32 | util.go:9 | reading back the four bytes written for a uint32 gives that uint32 |
| LengthValue.Le32OfLe32Value | util.go:9 | every four bytes are the encoding of the value they denote |
| LengthValue.PutUint32 | util.go:8-9 | the first four bytes of the buffer become the little-endian length; the rest of the buffer is unchanged |
| LengthValue.Encode | util.go:5-15 | no contract of its own: the specification of toLengthValue, which `ToLengthValue` is proved to compute; `DecodeEncode`, `EncodeDecode`, `EncodeInjective` and `EncodeLayout` describe it |
| LengthValue.ToLengthValue | util.go:5-15 | the loop returns exactly the records of the chunks in order (length as 4 little-endian bytes modulo 2^32, then the chunk), and its size is the sum of 4 + chunk length |
| LengthValue.EncodeSize | util.go:7-12 | the encoding is 4 bytes plus the chunk's length per chunk |
| LengthValue.EncodeEmptyList | util.go:6-14 | no chunks encode to no bytes |
| LengthValue.EmptyChunkIsFourZeros | util.go:8-11 | an empty chunk encodes to four zero bytes |
| LengthValue.EncodeAppend | util.go:7-12 | encoding a concatenation of chunk lists is the concatenation of their encodings |
| LengthValue.EncodeOne | util.go:8-11 | one chunk encodes to its length then its bytes |
| LengthValue.EncodeLayout | util.go:9-11 | the k-th chunk sits right after its 4-byte length, at the offset the earlier records occupy |
| LengthValue.DecodeEncode | util.go:5-15 | reading 4-byte-length-prefixed records sequentially recovers the chunks whenever each is shorter than 2^32 |
| LengthValue.EncodeDecode | util.go:5-15 | whatever the sequential reader accepts is exactly the encoding of what it returns |
| LengthValue.EncodeInjective | util.go:5-15 | two chunk lists (each chunk shorter than 2^32) with the same encoding are equal |
| Strconv.ParseUintDigits | keys_manager.go:23 | the digit scan fails only with a syntax or a range error |
| Strconv.ParseUintDigitsValue | keys_manager.go:23 | on an all-digit string the scan returns the decimal value exactly when it stays within 2^64 - 1, and a range error otherwise |
| Strconv.ParseUintDigitsSyntax | keys_manager.go:23 | the scan rejects any string with a non-digit |
| Strconv.ParseInt64 | keys_manager.go:23 | no contract of its own: `ParseInt(s, 10, 64)`, described by `ParseInt64Spec` |
| Strconv.ParseInt64Spec | keys_manager.go:23-26 | `ParseInt(s, 10, 64)` succeeds exactly on an optional sign followed by at least one digit whose value fits int64, returns that value, and otherwise fails with a syntax or range error |
| Strconv.Atoi | keys_downloader.go:121 | no contract of its own: `strconv.Atoi` on a 64-bit platform (ParseInt with bit size 64), so `ParseInt64Spec` describes it, and `DurationOfDigitsValue` and `HugeMaxAgeIsNegative` describe its use |
| KeysManager.ExpiryInstant | keys_manager.go:28 | no contract of its own: the expiration in milliseconds times 10^6 in int64 (`Wrap64`); `ExpiryIsStrictlyAfter`, `FarFutureExpiryWraps` and `FartherFutureExpiryWrapsForward` describe it |
| KeysManager.IsValid | keys_manager.go:21-35 | no contract of its own: `Key.IsValid` at instant `now`, described by `NoExpirationAlwaysValid`, `MalformedExpirationIsError`, `ExpiryIsStrictlyAfter` and `FarFutureExpiryWraps` |
| KeysManager.NoExpirationAlwaysValid | keys_manager.go:21-35 | a key with an empty expiration is valid at every instant |
| KeysManager.MalformedExpirationIsError | keys_manager.go:22-26 | an expiration that is not an int64 decimal makes IsValid fail with exactly the error ParseInt returns (a syntax or range error), whatever the time |
| KeysManager.ExpiryIsStrictlyAfter | keys_manager.go:28-31 | where E ms fits an int64 count of nanoseconds (until the year 2262), a key expiring at E ms is valid exactly while now <= E ms and otherwise fails with ExpiredKey |
| KeysManager.FarFutureExpiryWraps | keys_manager.go:28-31 | the int64 product wraps: a key expiring at 9223372036855 ms is rejected as expired at instant 0 |
| KeysManager.FartherFutureExpiryWrapsForward | keys_manager.go:28-31 | beyond 18446744073709 ms the int64 product wraps back to a positive instant: a key expiring at 23058430092137 ms (year 2700) is still valid in 2026 |
| KeysManager.NewGPayPublicKeysManager | keys_manager.go:59-71 | construction succeeds exactly when a downloader is supplied and keeps it; otherwise it fails with the missing-downloader error of validate (keys_manager.go:88-94) |
| KeysManager.GetSigningKeys | keys_manager.go:73-86 | a download error is returned unchanged, a feed parse error is returned, and otherwise the feed's keys are returned as they are, in feed order |
| KeysManager.DownloadErrorSkipsParsing | keys_manager.go:74-77 | on a download error the feed parser plays no part |
| MaxAge.Split | keys_downloader.go:118 | `strings.Split` always returns at least one piece |
| MaxAge.SplitJoin | keys_downloader.go:118 | joining the pieces with commas gives the header back, and no piece contains a comma |
| MaxAge.SkipSpaces | keys_downloader.go:113 | `\s*` consumes the whole run of spaces |
| MaxAge.SkipDigits | keys_downloader.go:113 | `(\d+)` takes the whole run of digits |
| MaxAge.SkipSpacesUnique | keys_downloader.go:113 | a run of spaces followed by a non-space ends where the scanner stops |
| MaxAge.SkipDigitsUnique | keys_downloader.go:113 | a run of digits followed by a non-digit ends where the scanner stops |
| MaxAge.MatchAtSound | keys_downloader.go:113 | a capture of the scanner at position p is a match of the pattern at p |
| MaxAge.MatchAtComplete | keys_downloader.go:113 | every match of the pattern at p is found by the scanner with the same capture |
| MaxAge.FindFromFirst | keys_downloader.go:119-120 | the search finds a match exactly when some position has one, and returns the match at the first such position |
| MaxAge.MaxAgeDigits | keys_downloader.go:119-120 | no contract of its own: `res[0][1]` of the pattern on one segment, or none; described by `MaxAgeDigitsIsLeftmostPattern` and `MaxAgeDigitsAreDigits` |
| MaxAge.MaxAgeDigitsIsLeftmostPattern | keys_downloader.go:119-120 | a segment's capture is the digits of the leftmost occurrence of the pattern, and a segment in which the pattern occurs has a capture |
| MaxAge.MaxAgeDigitsAreDigits | keys_downloader.go:119-121 | the captured text is a non-empty run of decimal digits |
| MaxAge.FirstMaxAge | keys_downloader.go:118-128 | no contract of its own: the capture of the first segment that matches; described by `NoMatchNone` and `FirstSegmentDecides` |
| MaxAge.DurationOfDigits | keys_downloader.go:121-126 | no contract of its own: Atoi's error or a negative count gives 0, else the seconds times 10^9 in int64; described by `DurationOfDigitsValue` and `HugeMaxAgeIsNegative` |
| MaxAge.ExpirationDuration | keys_downloader.go:115-132 | no contract of its own: the specification of getExpirationDuration, which `GetExpirationDuration` is proved to compute; `EmptyHeaderNoLifetime`, `NoMatchingSegmentNoLifetime`, `FirstSegmentDecides` and `DurationOfDigitsValue` describe it |
| MaxAge.GetExpirationDuration | keys_downloader.go:115-132 | the loop over the comma-separated segments returns the lifetime that the first segment with a match gives, or 0 |
| MaxAge.EmptyHeaderNoLifetime | keys_downloader.go:116-131 | an absent or empty header gives a zero lifetime |
| MaxAge.NoMatchingSegmentNoLifetime | keys_downloader.go:118-131 | a header in none of whose segments the pattern occurs gives a zero lifetime |
| MaxAge.NoMatchNone | keys_downloader.go:118-128 | no segment matching means no capture |
| MaxAge.FirstSegmentDecides | keys_downloader.go:118-127 | the first matching segment decides, whatever later segments say |
| MaxAge.DurationOfDigitsValue | keys_downloader.go:121-126 | a capture beyond the int64 range gives 0, and one whose nanosecond count fits int64 gives exactly that many seconds, never negative |
| MaxAge.HugeMaxAgeIsNegative | keys_downloader.go:121-126 | max-age=9223372037 is accepted by Atoi but wraps to a negative lifetime |
| KeysDownloader.CacheEntry.HasNonExpiredCachedData | keys_downloader.go:72-74 | no contract of its own: `now` is not after cachedTime + duration; `ServedFromCacheIff` and `ServedUntilLifetimeEnds` describe its effect |
| KeysDownloader.CacheEntry.ShouldRefreshCachedData | keys_downloader.go:76-78 | no contract of its own: `now` is not after cachedTime + duration/2 (truncated); `RefreshWindowIsFirstHalf` and `BackgroundRefreshIff` describe it |
| KeysDownloader.Validate | keys_downloader.go:100-111 | the URL is accepted exactly when it parses with scheme https; a parse error is returned as is, any other scheme is the not-https error |
| KeysDownloader.GPayKeysDownloader.constructor | keys_downloader.go:26 | a new downloader has the zero-valued cache: empty data, the zero time, zero lifetime |
| KeysDownloader.GPayKeysDownloader.CopyOf | keys_downloader.go:80 | the value receiver's copy has the same URL and cache fields |
| KeysDownloader.GPayKeysDownloader.New | keys_downloader.go:25-37 | NewGPayKeysDownloader returns a fresh downloader with an empty cache exactly when validate succeeds, and validate's error otherwise |
| KeysDownloader.GPayKeysDownloader.FetchAndCacheData | keys_downloader.go:51-70 | a successful fetch replaces body, time and lifetime together and returns the body; a failed fetch changes nothing and returns the error |
| KeysDownloader.GPayKeysDownloader.GetCachedData | keys_downloader.go:72-98 | returns the cached data while now <= time + lifetime and "" after it; starts a refresh exactly when also now <= time + lifetime/2; changes nothing of the receiver |
| KeysDownloader.CachedData | keys_downloader.go:80-98 | no contract of its own: getCachedData on a snapshot; `GPayKeysDownloader.GetCachedData` is proved to compute it, and `BackgroundRefreshIff` describes its refresh flag |
| KeysDownloader.FetchAndCache | keys_downloader.go:51-70 | no contract of its own: fetchAndCacheData on a snapshot; `GPayKeysDownloader.FetchAndCacheData` is proved to compute it, and `BlockingFetchOutcome` describes it |
| KeysDownloader.DownloadStep | keys_downloader.go:39-49 | no contract of its own: one Download on a snapshot of the cache, which `GPayKeysDownloader.Download` is proved to follow; `ServedFromCacheIff`, `BackgroundRefreshIff`, `BlockingFetchOutcome` and `ExpiredOrEmptyAlwaysFetches` describe it |
| KeysDownloader.GPayKeysDownloader.Download | keys_downloader.go:39-49 | the new cache and the result are those of DownloadStep: non-empty unexpired data is served, otherwise a blocking fetch-and-cache |
| KeysDownloader.ServedFromCacheIff | keys_downloader.go:39-49 | a call avoids a blocking fetch exactly when the cached data is non-empty and unexpired, and then returns it and leaves the cache as it was |
| KeysDownloader.BackgroundRefreshIff | keys_downloader.go:84-92 | a background refresh is started exactly when the cache is unexpired and within the first half of its lifetime, whether the cached body is empty or not |
| KeysDownloader.EmptyUnexpiredBodyFetchesTwice | keys_downloader.go:39-49 | an empty unexpired body in the first half of its lifetime costs both a background refresh and a blocking fetch, whose outcome is the call's |
| KeysDownloader.RefreshWindowIsFirstHalf | keys_downloader.go:72-78 | for a non-negative lifetime the refresh window ends at half the lifetime (rounded down) and lies within the unexpired window |
| KeysDownloader.BlockingFetchOutcome | keys_downloader.go:45-69 | a blocking fetch that succeeds replaces the whole entry and returns the fresh body; one that fails leaves the entry and returns the error |
| KeysDownloader.ExpiredOrEmptyAlwaysFetches | keys_downloader.go:39-49 | once the lifetime has passed, or with empty cached data, every call fetches and returns what the fetch returned |
| KeysDownloader.ServedUntilLifetimeEnds | keys_downloader.go:66-73 | after a successful fetch of a non-empty body at t, every call up to t + lifetime returns that body without a blocking fetch, whatever the network would answer |
| KeysDownloader.NoMaxAgeRefetchesEveryCall | keys_downloader.go:68-73 | a zero (or wrapped negative) lifetime makes every later call fetch again |
| PaymentMethodToken.Validate | pmt.go:192-210 | the recipient is valid exactly when the version is ECv2SigningOnly, a keys manager is set and sender and recipient IDs are non-empty; each failure gives its own error, checked in that order |
| PaymentMethodToken.NewPaymentMethodTokenRecipient | pmt.go:54-66 | construction returns the configured recipient exactly when validate succeeds, and validate's error otherwise |
| PaymentMethodToken.DecodedSignatures | pmt.go:113-121 | no contract of its own: `MapAll` of base64 over the signatures; `DecodeSignatures` is proved to compute it, and `MapAllOk`, `MapAllFirstError` and `UndecodableSignatureRejected` describe it |
| PaymentMethodToken.DecodeSignatures | pmt.go:113-121 | the loop decodes every signature in order and returns the error of the first undecodable one |
| PaymentMethodToken.ParsePublicKey | pmt.go:170-186 | no contract of its own: one iteration of parsePublicKeys (IsValid, base64, PKIX, the ECDSA assertion); `ParsePublicKeys`, `FirstExpiredRootKeyIsReported` and `InvalidIntermediateKeyIsReported` describe it |
| PaymentMethodToken.ParsedPublicKeys | pmt.go:168-190 | no contract of its own: `MapAll` of `ParsePublicKey` over the keys; `ParsePublicKeys` is proved to compute it, and `FirstExpiredRootKeyIsReported` describes its error |
| PaymentMethodToken.ParsePublicKeys | pmt.go:168-190 | the loop checks each key's expiry, base64 and PKIX in order and returns the first error, with a non-ECDSA key failing; otherwise one public key per key, in order |
| PaymentMethodToken.VerifyResult | pmt.go:142-166 | no contract of its own: verify as a value; `Verify` is proved to compute it, and `AnyPairVerifiesMembers` describes its condition |
| PaymentMethodToken.Verify | pmt.go:142-166 | verification succeeds exactly when some key whose verifier can be built accepts some signature, and fails with CouldNotVerifySignature otherwise |
| PaymentMethodToken.AnyPairVerifiesMembers | pmt.go:142-166 | the pairs verify tries are all pairs of a key and a signature |
| PaymentMethodToken.PairsOfDecoded | pmt.go:113-134 | after decoding, the pairs tried are the pairs of a root key and an encoded signature |
| PaymentMethodToken.VerifyIntermediateSigningKey | pmt.go:112-140 | no contract of its own: verifyIntermediateSigningKey given the keys manager's answer, described by `VerifyIntermediateSigningKeyOk`, `UndecodableSignatureRejected` and `KeysManagerErrorPropagates` |
| PaymentMethodToken.VerifyIntermediateSigningKeyOk | pmt.go:112-140 | the intermediate key is accepted exactly when the keys manager answers, every signature decodes, every root key is valid and ECDSA, and some root key accepts some signature over sender, version and signed key |
| PaymentMethodToken.Unseal | pmt.go:68-80 | no contract of its own: parse, then dispatch on the version; described by `UnsealOk`, `MalformedMessageRejected` and `UnsupportedVersionRejected` |
| PaymentMethodToken.UnsealECv2SigningOnly | pmt.go:82-110 | no contract of its own: the verification chain, described by `UnsealOk` and `InvalidIntermediateKeyIsReported` |
| PaymentMethodToken.UnsealOk | pmt.go:68-110 | Unseal returns a payload exactly when the message parses, has version ECv2SigningOnly, its intermediate key is certified by the root keys and its signature is accepted by the valid intermediate key over sender, recipient, version and payload; the payload is returned verbatim |
| PaymentMethodToken.MalformedMessageRejected | pmt.go:69-72 | a sealed message that does not parse is rejected with the parser's error |
| PaymentMethodToken.UnsupportedVersionRejected | pmt.go:74-79 | any other message version is rejected with UnsupportedProtocolVersion, whatever the keys and the collaborators' answers |
| PaymentMethodToken.KeysIrrelevantUnlessReached | pmt.go:112-126 | when Unseal stops before asking the keys manager, it fails and the keys play no part |
| PaymentMethodToken.UndecodableSignatureRejected | pmt.go:114-118 | the first undecodable intermediate-key signature's error is what Unseal reports |
| PaymentMethodToken.KeysManagerErrorPropagates | pmt.go:123-126 | once reached, the keys manager's error is what Unseal reports |
| PaymentMethodToken.ExpiredRootKeyRejects | pmt.go:168-174 | one expired root key makes the token fail even if another root key would verify it |
| PaymentMethodToken.FirstExpiredRootKeyIsReported | pmt.go:168-174 | an expired root key that is the first bad root key is what Unseal reports |
| PaymentMethodToken.ExpiredIntermediateKeyRejects | pmt.go:88-96 | an expired intermediate key makes the token fail |
| PaymentMethodToken.InvalidIntermediateKeyIsReported | pmt.go:93-96 | once the root keys certify the intermediate key, an intermediate key that is not valid now is reported with its own IsValid error (ExpiredKey when it has expired) |
| PaymentMethodToken.RootKeyOrderIrrelevant | pmt.go:142-166 | the order of the root keys and repetitions among them do not change whether, or with what payload, a token is accepted |
| PaymentMethodToken.CertifiedBySameKeys | pmt.go:142-166 | certification depends only on which root keys there are |
| PaymentMethodToken.SignatureOrderIrrelevant | pmt.go:142-166 | the order of the intermediate key's signatures and repetitions among them do not change certification |
| PaymentMethodToken.MessageSignedBytes | pmt.go:103 | no contract of its own: `Encode` of sender, recipient, version and payload; described by `MessageSignedBytesBind` |
| PaymentMethodToken.IntermediateKeySignedBytes | pmt.go:133 | no contract of its own: `Encode` of sender, version and signed key; described by `IntermediateKeySignedBytesBind` |
| PaymentMethodToken.MessageSignedBytesBind | pmt.go:103 | for fields shorter than 2^32 bytes (util.go:9 truncates longer lengths to uint32), the bytes the message signature covers are equal exactly when sender, recipient, version and payload are (a tampered payload or another recipient gives other bytes) |
| PaymentMethodToken.IntermediateKeySignedBytesBind | pmt.go:133 | for fields shorter than 2^32 bytes (util.go:9 truncates longer lengths to uint32), the bytes the root signature covers are equal exactly when sender, version and signed key are |
| PaymentMethodToken.UnsealWithDownloader | pmt.go:68-140 | run step by step with the keys manager's downloader, Unseal returns the pure Unseal of what GetSigningKeys answers, and the downloader's cache changes as one Download only when the keys manager is reached |

## Left out

- Concurrency: the state lock and the fetch lock of keys_downloader.go:18-19 and the goroutine of keys_downloader.go:86-91. Calls are sequential in the model, so interleavings, lock coalescing and a refresh that overlaps a later call are not captured.
- The background refresh's own fetch outcome: it is applied to the value-receiver copy and then discarded, as the Go code does. Its network effect (one extra request) is recorded only as the `background` flag of `DownloadStep`'s `Step`, apart from the `blocking` flag of Download's own fetch; an empty unexpired body in the first half of its lifetime sets both.
- HTTP: `http.DefaultClient.Get` and `ioutil.ReadAll` are the `FetchResult` parameter. The response status is not inspected by the Go code, and a `Fetched` body stands for any status.
- `http.Header.Get("Cache-Control")`: given as the header's value. Header-name canonicalisation and multiple header values are not modelled.
- The clock: `time.Now()` is the parameter `now`, one instant per call. The Go code reads the clock separately in hasNonExpiredCachedData (keys_downloader.go:73), shouldRefreshCachedData (keys_downloader.go:77), the cachedTime write after the HTTP round trip (keys_downloader.go:66) and each Key.IsValid (keys_manager.go:29); time passing between these reads is not modelled. `time.Time` is an integer count of nanoseconds with no upper bound, so the time arithmetic does not overflow (as with Go's wall-clock representation).
- JSON decoding (`signedMessageFromJSON`, `keyFromJSON`, the key feed), base64, `x509.ParsePKIXPublicKey`, tink's `NewECDSAVerifierFromPublicKey` and `Verify`, and `url.Parse`: given as function values. The model proves what is done with their answers, not the answers.
- The panic of pmt.go:186 on a non-ECDSA key: modelled as the error `NonEcdsaKeyPanic`, since the model has no panics.
- Error messages: each distinct error is an `Error` constructor. Errors of the collaborators are passed on as the values they return.
- option.go (the functional options): the constructors take the configured values directly.
- KeysManager.NewGPayPublicKeysManager: `Option.None` stands for the nil interface that validate rejects (keys_manager.go:89). A typed-nil `*GPayKeysDownloader` in the interface (such as the nil a failed NewGPayKeysDownloader returns) passes validate in Go and then panics on the first Download; the model has no such value.
- The key-feed URL constants of keys_manager.go:10-13: configuration data, used by nothing in the core.
- The `regexp` engine: replaced by a scanner for the one pattern used. `MaxAgeDigitsIsLeftmostPattern` ties it to a declarative statement of the leftmost match.
- Key.ProtocolVersion: read by nothing in the Go code, and carried but never checked in the model.
- PaymentMethodToken.ExpiredIntermediateKeyRejects: states only that the token fails. Which error is reported depends on the checks that come first; once the root keys certify the intermediate key it is that key's own IsValid error, which `InvalidIntermediateKeyIsReported` states.
- PaymentMethodToken.ExpiredRootKeyRejects: states only that the token fails. The error is ExpiredKey only when that key is the first failing root key, which `FirstExpiredRootKeyIsReported` states.
