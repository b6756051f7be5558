/** The freshness lifetime of keys_downloader.go's getExpirationDuration: the
    Cache-Control header is split on commas, and the first segment in which
    the pattern `\s*max-age\s*=\s*(\d+)\s*` occurs gives the lifetime in
    seconds (section 5.2.2.1 of RFC 9111 defines the directive). The regular
    expression is replaced by a hand-written scanner, and a declarative
    statement of what the pattern matches is proved equivalent to it. */
module MaxAge {
  import opened PmtTypes
  import opened Strconv

  const NANOS_PER_SECOND: int := 1_000_000_000

  /** RE2's `\s`: tab, newline, form feed, carriage return and space. */
  predicate IsSpace(c: byte) {
    c == 9 || c == 10 || c == 12 || c == 13 || c == 32
  }

  predicate AllSpaces(s: Bytes) {
    forall i :: 0 <= i < |s| ==> IsSpace(s[i])
  }

  const MAX_AGE: Bytes := Ascii("max-age")
  const EQUALS: byte := '=' as byte
  const COMMA: byte := ',' as byte

  // ---------------------------------------------------------------------
  // strings.Split(s, ",")
  // ---------------------------------------------------------------------

  /** strings.Split with a one-byte separator: the pieces between separators,
      so n separators give n + 1 pieces and the empty string gives [""]. */
  function Split(s: Bytes, sep: byte): (parts: seq<Bytes>)
    ensures |parts| >= 1
  {
    if s == [] then [[]]
    else
      var rest := Split(s[1..], sep);
      if s[0] == sep then [[]] + rest else [[s[0]] + rest[0]] + rest[1..]
  }

  /** strings.Join, the inverse of Split. */
  function Join(parts: seq<Bytes>, sep: byte): Bytes
    requires |parts| >= 1
  {
    if |parts| == 1 then parts[0] else parts[0] + [sep] + Join(parts[1..], sep)
  }

  /** Split loses nothing: joining the pieces back gives the header, and no
      piece contains the separator. */
  lemma {:induction false} SplitJoin(s: Bytes, sep: byte)
    ensures Join(Split(s, sep), sep) == s
    ensures forall k, i :: 0 <= k < |Split(s, sep)| && 0 <= i < |Split(s, sep)[k]| ==> Split(s, sep)[k][i] != sep
  {
    if s != [] {
      var rest := Split(s[1..], sep);
      SplitJoin(s[1..], sep);
      if s[0] == sep {
        assert ([[]] + rest)[1..] == rest;
      } else {
        var parts := [[s[0]] + rest[0]] + rest[1..];
        if |rest| == 1 {
          assert Join(parts, sep) == [s[0]] + rest[0];
        } else {
          assert parts[1..] == rest[1..];
          assert Join(rest, sep) == rest[0] + [sep] + Join(rest[1..], sep);
        }
        assert s == [s[0]] + s[1..];
        forall k, i | 0 <= k < |parts| && 0 <= i < |parts[k]| ensures parts[k][i] != sep {
          if k == 0 && i > 0 {
            assert parts[0][i] == rest[0][i - 1];
          } else if k > 0 {
            assert parts[k] == rest[k];
          }
        }
      }
    }
  }

  // ---------------------------------------------------------------------
  // The scanner for `\s*max-age\s*=\s*(\d+)\s*`
  // ---------------------------------------------------------------------

  /** The end of the run of spaces that starts at i. */
  function SkipSpaces(s: Bytes, i: nat): (j: nat)
    requires i <= |s|
    ensures i <= j <= |s| && AllSpaces(s[i..j])
    ensures j == |s| || !IsSpace(s[j])
    decreases |s| - i
  {
    if i == |s| || !IsSpace(s[i]) then i
    else
      var j := SkipSpaces(s, i + 1);
      assert s[i..j] == [s[i]] + s[i + 1..j];
      j
  }

  /** The end of the run of decimal digits that starts at i. */
  function SkipDigits(s: Bytes, i: nat): (j: nat)
    requires i <= |s|
    ensures i <= j <= |s| && AllDigits(s[i..j])
    ensures j == |s| || !IsDigit(s[j])
    decreases |s| - i
  {
    if i == |s| || !IsDigit(s[i]) then i
    else
      var j := SkipDigits(s, i + 1);
      assert s[i..j] == [s[i]] + s[i + 1..j];
      j
  }

  /** The text `max-age` occurs at position p. */
  predicate KeywordAt(seg: Bytes, p: nat) {
    p + |MAX_AGE| <= |seg| && seg[p..p + |MAX_AGE|] == MAX_AGE
  }

  /** The digits captured when `max-age` occurs at position p and the rest of
      the pattern follows it; the capture is as long as the digit run. */
  function MatchAt(seg: Bytes, p: nat): Option<Bytes>
    requires p <= |seg|
  {
    if !KeywordAt(seg, p) then None
    else
      var i := SkipSpaces(seg, p + |MAX_AGE|);
      if i == |seg| || seg[i] != EQUALS then None
      else
        var j := SkipSpaces(seg, i + 1);
        var k := SkipDigits(seg, j);
        if k == j then None else Some(seg[j..k])
  }

  /** The leftmost match at or after position p. */
  function FindFrom(seg: Bytes, p: nat): Option<Bytes>
    requires p <= |seg|
    decreases |seg| - p
  {
    match MatchAt(seg, p)
    case Some(ds) => Some(ds)
    case None => if p == |seg| then None else FindFrom(seg, p + 1)
  }

  /** The capture group of the first match of the pattern in a segment. */
  function MaxAgeDigits(seg: Bytes): Option<Bytes> {
    FindFrom(seg, 0)
  }

  /** What the pattern matches, stated without the scanner: `max-age` at p,
      spaces up to i, `=` at i, spaces up to j, then the digits ds from j,
      and no digit right after them. */
  predicate PatternWith(seg: Bytes, p: nat, i: nat, j: nat, ds: Bytes) {
    p + |MAX_AGE| <= i < j <= |seg| && j + |ds| <= |seg| &&
    KeywordAt(seg, p) &&
    AllSpaces(seg[p + |MAX_AGE|..i]) && seg[i] == EQUALS && AllSpaces(seg[i + 1..j]) &&
    seg[j..j + |ds|] == ds && |ds| > 0 && AllDigits(ds) &&
    (j + |ds| == |seg| || !IsDigit(seg[j + |ds|]))
  }

  ghost predicate PatternAt(seg: Bytes, p: nat, ds: Bytes) {
    exists i: nat, j: nat :: PatternWith(seg, p, i, j, ds)
  }

  /** A run of spaces followed by a non-space ends where SkipSpaces stops. */
  lemma SkipSpacesUnique(s: Bytes, i: nat, j: nat)
    requires i <= j <= |s| && AllSpaces(s[i..j]) && (j == |s| || !IsSpace(s[j]))
    ensures SkipSpaces(s, i) == j
  {
  }

  lemma SkipDigitsUnique(s: Bytes, i: nat, j: nat)
    requires i <= j <= |s| && AllDigits(s[i..j]) && (j == |s| || !IsDigit(s[j]))
    ensures SkipDigits(s, i) == j
  {
  }

  /** Every capture of the scanner is a match of the pattern. */
  lemma MatchAtSound(seg: Bytes, p: nat)
    requires p <= |seg| && MatchAt(seg, p).Some?
    ensures PatternAt(seg, p, MatchAt(seg, p).value)
  {
    var ds := MatchAt(seg, p).value;
    var i := SkipSpaces(seg, p + |MAX_AGE|);
    var j := SkipSpaces(seg, i + 1);
    assert !IsSpace(EQUALS);
    assert PatternWith(seg, p, i, j, ds);
  }

  /** Every match of the pattern is found by the scanner, with the same capture. */
  lemma MatchAtComplete(seg: Bytes, p: nat, ds: Bytes)
    requires p <= |seg| && PatternAt(seg, p, ds)
    ensures MatchAt(seg, p) == Some(ds)
  {
    var i: nat, j: nat :| PatternWith(seg, p, i, j, ds);
    PatternWithMatches(seg, p, i, j, ds);
  }

  /** The scanner stops at each boundary the pattern names. */
  lemma PatternWithMatches(seg: Bytes, p: nat, i: nat, j: nat, ds: Bytes)
    requires PatternWith(seg, p, i, j, ds)
    ensures MatchAt(seg, p) == Some(ds)
  {
    var e := j + |ds|;
    assert seg[i] == EQUALS && !IsSpace(EQUALS);
    SkipSpacesUnique(seg, p + |MAX_AGE|, i);
    assert seg[j] == ds[0] && IsDigit(ds[0]);
    SkipSpacesUnique(seg, i + 1, j);
    assert seg[j..e] == ds;
    SkipDigitsUnique(seg, j, e);
    MatchAtSteps(seg, p, i, j, e);
  }

  /** MatchAt's result when each of its steps stops where stated. */
  lemma MatchAtSteps(seg: Bytes, p: nat, i: nat, j: nat, e: nat)
    requires KeywordAt(seg, p)
    requires SkipSpaces(seg, p + |MAX_AGE|) == i && i < |seg| && seg[i] == EQUALS
    requires SkipSpaces(seg, i + 1) == j && SkipDigits(seg, j) == e && e > j
    ensures MatchAt(seg, p) == Some(seg[j..e])
  {
  }

  /** FindFrom returns the match at the first position that has one. */
  lemma {:induction false} FindFromFirst(seg: Bytes, p: nat)
    requires p <= |seg|
    ensures FindFrom(seg, p).Some? <==> exists q :: p <= q <= |seg| && MatchAt(seg, q).Some?
    ensures FindFrom(seg, p).Some? ==>
      exists q :: p <= q <= |seg| && MatchAt(seg, q) == FindFrom(seg, p) &&
        forall r :: p <= r < q ==> MatchAt(seg, r).None?
    decreases |seg| - p
  {
    if MatchAt(seg, p).Some? {
      assert FindFrom(seg, p) == MatchAt(seg, p);
    } else if p == |seg| {
      assert FindFrom(seg, p).None?;
    } else {
      assert FindFrom(seg, p) == FindFrom(seg, p + 1);
      FindFromFirst(seg, p + 1);
      FindFromStep(seg, p);
    }
  }

  /** One step of FindFromFirst: no match at p moves the search to p + 1. */
  lemma FindFromStep(seg: Bytes, p: nat)
    requires p < |seg| && MatchAt(seg, p).None?
    requires FindFrom(seg, p).Some? <==> exists q :: p + 1 <= q <= |seg| && MatchAt(seg, q).Some?
    requires FindFrom(seg, p).Some? ==>
      exists q :: p + 1 <= q <= |seg| && MatchAt(seg, q) == FindFrom(seg, p) &&
        forall r :: p + 1 <= r < q ==> MatchAt(seg, r).None?
    ensures FindFrom(seg, p).Some? <==> exists q :: p <= q <= |seg| && MatchAt(seg, q).Some?
    ensures FindFrom(seg, p).Some? ==>
      exists q :: p <= q <= |seg| && MatchAt(seg, q) == FindFrom(seg, p) &&
        forall r :: p <= r < q ==> MatchAt(seg, r).None?
  {
    if FindFrom(seg, p).Some? {
      var q :| p + 1 <= q <= |seg| && MatchAt(seg, q) == FindFrom(seg, p) &&
        forall r :: p + 1 <= r < q ==> MatchAt(seg, r).None?;
      assert forall r :: p <= r < q ==> MatchAt(seg, r).None?;
    }
  }

  /** A segment's capture is that of the leftmost occurrence of the pattern:
      the pattern matches there with those digits and nowhere before it; and
      a segment in which the pattern occurs anywhere does have a capture. */
  lemma MaxAgeDigitsIsLeftmostPattern(seg: Bytes)
    ensures MaxAgeDigits(seg).Some? ==>
      exists p :: 0 <= p <= |seg| && PatternAt(seg, p, MaxAgeDigits(seg).value) &&
        forall r, ds :: 0 <= r < p ==> !PatternAt(seg, r, ds)
    ensures (exists p, ds :: 0 <= p <= |seg| && PatternAt(seg, p, ds)) ==> MaxAgeDigits(seg).Some?
  {
    FindFromFirst(seg, 0);
    if MaxAgeDigits(seg).Some? {
      var p :| 0 <= p <= |seg| && MatchAt(seg, p) == MaxAgeDigits(seg) &&
        forall r :: 0 <= r < p ==> MatchAt(seg, r).None?;
      MatchAtSound(seg, p);
      forall r, ds | 0 <= r < p ensures !PatternAt(seg, r, ds) {
        if PatternAt(seg, r, ds) {
          MatchAtComplete(seg, r, ds);
        }
      }
    }
    if exists p, ds :: 0 <= p <= |seg| && PatternAt(seg, p, ds) {
      var p, ds :| 0 <= p <= |seg| && PatternAt(seg, p, ds);
      MatchAtComplete(seg, p, ds);
    }
  }

  /** The captured digits are a non-empty run of decimal digits. */
  lemma MaxAgeDigitsAreDigits(seg: Bytes)
    requires MaxAgeDigits(seg).Some?
    ensures |MaxAgeDigits(seg).value| > 0 && AllDigits(MaxAgeDigits(seg).value)
  {
    FindFromFirst(seg, 0);
  }

  // ---------------------------------------------------------------------
  // getExpirationDuration
  // ---------------------------------------------------------------------

  /** The capture of the first segment that matches. */
  function FirstMaxAge(segs: seq<Bytes>): Option<Bytes> {
    if segs == [] then None
    else match MaxAgeDigits(segs[0])
      case Some(ds) => Some(ds)
      case None => FirstMaxAge(segs[1..])
  }

  /** The lifetime the captured digits give, in nanoseconds: Atoi's error (a
      run beyond the int64 range) gives zero, and the conversion to a
      time.Duration multiplies by one second in int64 arithmetic. */
  function DurationOfDigits(ds: Bytes): int {
    match Atoi(ds)
    case Err(_) => 0
    case Ok(secs) => if secs < 0 then 0 else Wrap64(secs * NANOS_PER_SECOND)
  }

  /** getExpirationDuration on the value of the Cache-Control header (empty
      when the header is absent). */
  function ExpirationDuration(cacheControl: Bytes): int {
    if |cacheControl| == 0 then 0
    else match FirstMaxAge(Split(cacheControl, COMMA))
      case None => 0
      case Some(ds) => DurationOfDigits(ds)
  }

  /** The loop over the segments, returning at the first match. */
  method GetExpirationDuration(cacheControl: Bytes) returns (d: int)
    ensures d == ExpirationDuration(cacheControl)
  {
    if |cacheControl| != 0 {
      var segs := Split(cacheControl, COMMA);
      for i := 0 to |segs|
        invariant FirstMaxAge(segs) == FirstMaxAge(segs[i..])
      {
        assert segs[i..][1..] == segs[i + 1..];
        var res := MaxAgeDigits(segs[i]);
        if res.Some? {
          d := DurationOfDigits(res.value);
          return;
        }
      }
    }
    d := 0;
  }

  /** No header gives a zero lifetime. */
  lemma EmptyHeaderNoLifetime()
    ensures ExpirationDuration([]) == 0
  {
  }

  /** A header none of whose segments matches gives a zero lifetime. */
  lemma NoMatchingSegmentNoLifetime(cacheControl: Bytes)
    requires forall k :: 0 <= k < |Split(cacheControl, COMMA)| ==> MaxAgeDigits(Split(cacheControl, COMMA)[k]).None?
    ensures ExpirationDuration(cacheControl) == 0
  {
    NoMatchNone(Split(cacheControl, COMMA));
  }

  lemma {:induction false} NoMatchNone(segs: seq<Bytes>)
    requires forall k :: 0 <= k < |segs| ==> MaxAgeDigits(segs[k]).None?
    ensures FirstMaxAge(segs) == None
  {
    if segs != [] {
      NoMatchNone(segs[1..]);
    }
  }

  /** The first matching segment decides, whatever the later segments say. */
  lemma {:induction false} FirstSegmentDecides(segs: seq<Bytes>, k: nat)
    requires k < |segs| && MaxAgeDigits(segs[k]).Some?
    requires forall r :: 0 <= r < k ==> MaxAgeDigits(segs[r]).None?
    ensures FirstMaxAge(segs) == MaxAgeDigits(segs[k])
  {
    if k > 0 {
      FirstSegmentDecides(segs[1..], k - 1);
    }
  }

  /** A digit run that fits an int64 count of nanoseconds gives exactly that
      many seconds, never a negative lifetime; one that Atoi rejects as out of
      range gives zero. */
  lemma DurationOfDigitsValue(ds: Bytes)
    requires |ds| > 0 && AllDigits(ds)
    ensures DigitsValue(ds) >= TWO_POW_63 ==> DurationOfDigits(ds) == 0
    ensures DigitsValue(ds) * NANOS_PER_SECOND < TWO_POW_63 ==>
      DurationOfDigits(ds) == DigitsValue(ds) * NANOS_PER_SECOND >= 0
  {
    ParseInt64Spec(ds);
    assert !(ds[0] == '+' as byte || ds[0] == '-' as byte) by {
      assert IsDigit(ds[0]);
    }
    assert DecimalValue(ds) == DigitsValue(ds);
  }

  /** The conversion to a Duration wraps around: max-age=9223372037 (just over
      2^63 nanoseconds) yields a negative lifetime, although Atoi accepts it. */
  lemma HugeMaxAgeIsNegative(ds: Bytes)
    requires |ds| > 0 && AllDigits(ds) && DigitsValue(ds) == 9_223_372_037
    ensures Atoi(ds) == Ok(9_223_372_037)
    ensures DurationOfDigits(ds) == 9_223_372_037 * NANOS_PER_SECOND - TWO_POW_64 < 0
  {
    ParseInt64Spec(ds);
    assert !(ds[0] == '+' as byte || ds[0] == '-' as byte) by {
      assert IsDigit(ds[0]);
    }
    assert DecimalValue(ds) == DigitsValue(ds);
  }
}
