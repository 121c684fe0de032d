/**
 * The LIST routing rule of the watch cache: a request is served at its
 * exact resource version only when it is paginated, names a non-zero
 * resource version, the ListFromCacheSnapshot feature is on and the parsed
 * resource version is positive; every other request is served at the
 * latest resource version. A resource version string is parsed the way
 * strconv.ParseInt(s, 10, 64) does and a result that is not positive is
 * clamped to 0, so negative versions always take the latest path.
 */
module ListRouting {

  import opened Wrappers

  const MaxInt64: int := 0x7FFF_FFFF_FFFF_FFFF
  const MinInt64: int := -0x8000_0000_0000_0000

  predicate IsDigit(c: char)
  {
    '0' <= c <= '9'
  }

  predicate AllDigits(s: string)
  {
    forall i | 0 <= i < |s| :: IsDigit(s[i])
  }

  /** The value of a string of decimal digits, most significant first. */
  function DecimalValue(ds: string): (v: nat)
    requires AllDigits(ds)
  {
    if |ds| == 0 then 0
    else DecimalValue(ds[..|ds| - 1]) * 10 + (ds[|ds| - 1] as int - '0' as int)
  }

  /**
   * strconv.ParseInt(s, 10, 64) with its error ignored: an optional sign
   * and at least one digit; a syntax error yields 0 and an out-of-range
   * value yields the nearest 64-bit bound.
   */
  function ParseInt(s: string): (v: int)
  {
    var neg := |s| > 0 && s[0] == '-';
    var digits := if |s| > 0 && (s[0] == '-' || s[0] == '+') then s[1..] else s;
    if |digits| == 0 || !AllDigits(digits) then 0
    else
      var magnitude: int := DecimalValue(digits);
      if neg then (if magnitude > -MinInt64 then MinInt64 else -magnitude)
      else (if magnitude > MaxInt64 then MaxInt64 else magnitude)
  }

  /** The resource version handed to the list function: the parsed value, or 0 when it is not positive. */
  function ClampedResourceVersion(s: string): (rv: nat)
    ensures rv <= MaxInt64
    ensures rv > 0 <==> ParseInt(s) > 0
    ensures rv > 0 ==> rv == ParseInt(s)
  {
    var parsed := ParseInt(s);
    if parsed > 0 then parsed else 0
  }

  /** The two ways the list function can serve a request. */
  datatype Path = ExactRV | LatestRV

  datatype ListError = ResourceExpired(message: string)

  /** What the list function returns: the path it took, its result and its error. */
  datatype ListOutcome = ListOutcome(path: Path, result: Option<string>, err: Option<ListError>)

  /** The routing condition of the list function. */
  predicate TakesExactPath(limit: int, rvString: string, snapshotFeature: bool, rv: nat)
  {
    limit > 0 && |rvString| > 0 && rvString != "0" && snapshotFeature && rv > 0
  }

  /**
   * The list function of the routing tests: the exact path answers with
   * ResourceExpired and no result, the latest path answers "result" and no
   * error.
   */
  function ListFunc(limit: int, rvString: string, snapshotFeature: bool, rv: nat): (o: ListOutcome)
    ensures o.path == ExactRV <==>
      (limit > 0 && |rvString| > 0 && rvString != "0" && snapshotFeature && rv > 0)
    ensures o.path == ExactRV ==> o.result == None && o.err == Some(ResourceExpired("expired"))
    ensures o.path == LatestRV ==> o.result == Some("result") && o.err == None
  {
    if TakesExactPath(limit, rvString, snapshotFeature, rv) then
      ListOutcome(ExactRV, None, Some(ResourceExpired("expired")))
    else
      ListOutcome(LatestRV, Some("result"), None)
  }

  /** A string that parses to a positive value is neither empty nor "0". */
  lemma PositiveParseIsNonZeroString(s: string)
    requires ParseInt(s) > 0
    ensures |s| > 0 && s != "0"
  {
    ParseZero();
  }

  lemma ParseZero()
    ensures ParseInt("0") == 0
  {
    assert "0"[..0] == "";
  }

  /**
   * When the resource version handed over is the clamped parse of the
   * string, the string tests are implied: the exact path is taken exactly
   * when the request is paginated, the feature is on and the parsed value
   * is positive.
   */
  lemma ExactPathOfParsedVersion(limit: int, rvString: string, snapshotFeature: bool)
    ensures TakesExactPath(limit, rvString, snapshotFeature, ClampedResourceVersion(rvString))
      <==> limit > 0 && snapshotFeature && ParseInt(rvString) > 0
  {
    if ParseInt(rvString) > 0 {
      PositiveParseIsNonZeroString(rvString);
    }
  }

  /** A string with a leading minus sign never parses to a positive value. */
  lemma NegativeStringParsesNonPositive(s: string)
    requires |s| > 0 && s[0] == '-'
    ensures ParseInt(s) <= 0
    ensures ClampedResourceVersion(s) == 0
  {
  }

  /**
   * A negative resource version always takes the latest path, whatever the
   * feature, the limit and the continue token (the token is not an input of
   * the routing rule).
   */
  lemma NegativeVersionTakesLatestPath(limit: int, rvString: string, snapshotFeature: bool, continueToken: string)
    requires |rvString| > 0 && rvString[0] == '-'
    ensures ListFunc(limit, rvString, snapshotFeature, ClampedResourceVersion(rvString)).path == LatestRV
    ensures ListFunc(limit, rvString, snapshotFeature, ClampedResourceVersion(rvString)).result == Some("result")
  {
    NegativeStringParsesNonPositive(rvString);
  }

  /** An empty resource version always takes the latest path, whatever the feature and the limit. */
  lemma EmptyVersionTakesLatestPath(limit: int, snapshotFeature: bool, rv: nat)
    ensures ListFunc(limit, "", snapshotFeature, rv).path == LatestRV
  {
  }

  /** The table rows of the routing test, with the list function called at resource version 10. */
  lemma RoutingTableRows()
    ensures ListFunc(500, "", true, 10).path == LatestRV
    ensures ListFunc(500, "", false, 10).path == LatestRV
    ensures ListFunc(500, "10", true, 10) == ListOutcome(ExactRV, None, Some(ResourceExpired("expired")))
    ensures ListFunc(500, "10", false, 10) == ListOutcome(LatestRV, Some("result"), None)
    ensures ListFunc(0, "", true, 10).path == LatestRV
  {
  }

  /** The rows of the negative-version test: "-1", "-10" and "-5" all parse to a clamped 0. */
  lemma NegativeTableRows()
    ensures ClampedResourceVersion("-1") == 0
    ensures ClampedResourceVersion("-10") == 0
    ensures ClampedResourceVersion("-5") == 0
    ensures ListFunc(500, "-1", true, ClampedResourceVersion("-1")).path == LatestRV
    ensures ListFunc(500, "-10", false, ClampedResourceVersion("-10")).path == LatestRV
    ensures ListFunc(500, "-5", true, ClampedResourceVersion("-5")).path == LatestRV
  {
    NegativeStringParsesNonPositive("-1");
    NegativeStringParsesNonPositive("-10");
    NegativeStringParsesNonPositive("-5");
  }

  /** "10" parses to 10. */
  lemma ParseTen()
    ensures ParseInt("10") == 10 && ClampedResourceVersion("10") == 10
  {
    assert "10"[..1] == "1";
    assert DecimalValue("1") == 1 by {
      assert "1"[..0] == "";
    }
  }
}
