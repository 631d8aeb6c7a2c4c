/** The request URL of the external clinic directory:
    `BASE/{activity}/{entity}/{page}/{pageSize}/{token}`. */
module ClinicApiUrl {
  import opened Decimal
  import opened FormEncoding
  import opened Wrappers
  import opened Text

  const BaseApiUrl: string := "https://www.inegi.org.mx/app/api/denue/v1/consulta/BuscarEntidad"
  const ActivityDescription: string := "Consultorios de medicina especializada del sector privado"
  /** `00` selects the national level. */
  const EntityCode: string := "00"

  /* The `%s/%s/%s/%d/%d/%s` format string lays the segments out as
     `Join(segments, '/')`. */

  /** The path segments after the base endpoint, in request order. */
  function Segments(activity: string, token: string, page: int, pageSize: int): seq<string> {
    [EncodeSegment(activity), EntityCode, IntToString(page), IntToString(pageSize), token]
  }

  /** `buildUrl(page, pageSize)` with the configured access token. The
      encoding step cannot fail for UTF-8, so the `RuntimeException` branch of
      `buildUrl` has no counterpart here. */
  function BuildUrl(token: string, page: int, pageSize: int): string {
    Url(ActivityDescription, token, page, pageSize)
  }

  function Url(activity: string, token: string, page: int, pageSize: int): string {
    BaseApiUrl + "/" + Join(Segments(activity, token, page, pageSize), '/')
  }

  lemma NoSlashInNumber(i: int)
    ensures '/' !in IntToString(i)
  {
  }

  /** The URL starts with the base endpoint and, after it, splits at `/` into
      exactly the encoded activity, the entity code, the page, the page size
      and the token. */
  lemma {:induction false} UrlSegments(activity: string, token: string, page: int, pageSize: int)
    requires '/' !in token
    ensures var url := Url(activity, token, page, pageSize);
      var n := |BaseApiUrl| + 1;
      && |url| > n
      && url[..n] == BaseApiUrl + "/"
      && Split(url[n..], '/') == Segments(activity, token, page, pageSize)
  {
    var parts := Segments(activity, token, page, pageSize);
    var base := BaseApiUrl + "/";
    var url := Url(activity, token, page, pageSize);
    assert url[..|base|] == base;
    assert url[|base|..] == Join(parts, '/');
    EncodeSegmentHasNoDelimiters(activity);
    NoSlashInNumber(page);
    NoSlashInNumber(pageSize);
    assert '/' !in parts[0] && '/' !in parts[2] && '/' !in parts[3] && '/' !in parts[4];
    assert '/' !in parts[1] by {
      assert parts[1] == ['0', '0'];
    }
    SplitJoin(parts, '/');
  }

  /** The segments after the base endpoint carry a request: the activity
      decodes to its UTF-8 bytes and holds no `+`, the entity code is `00`,
      the page and the page size parse back, and the token is verbatim. */
  predicate CarriesRequest(parts: seq<string>, activity: string, token: string, page: int, pageSize: int) {
    && |parts| == 5
    && '+' !in parts[0]
    && PercentDecode(parts[0]) == Some(Utf8String(activity))
    && parts[1] == EntityCode
    && IsIntLiteral(parts[2]) && ParseInt(parts[2]) == page
    && IsIntLiteral(parts[3]) && ParseInt(parts[3]) == pageSize
    && parts[4] == token
  }

  /** Each segment carries what the caller asked for. */
  lemma {:induction false} UrlRoundTrip(activity: string, token: string, page: int, pageSize: int)
    requires '/' !in token
    ensures CarriesRequest(Split(Url(activity, token, page, pageSize)[|BaseApiUrl| + 1..], '/'),
                           activity, token, page, pageSize)
  {
    UrlSegments(activity, token, page, pageSize);
    EncodeSegmentHasNoDelimiters(activity);
    EncodeSegmentRoundTrip(activity);
    IntRoundTrip(page);
    IntRoundTrip(pageSize);
  }

  /** The same, for the URL `buildUrl` produces with the fixed activity text. */
  lemma BuildUrlRoundTrip(token: string, page: int, pageSize: int)
    requires '/' !in token
    ensures CarriesRequest(Split(BuildUrl(token, page, pageSize)[|BaseApiUrl| + 1..], '/'),
                           ActivityDescription, token, page, pageSize)
  {
    UrlRoundTrip(ActivityDescription, token, page, pageSize);
  }
}
