/**
 * The Xiaoe-tech account configuration: the cookie, shop id and API host
 * (each falling back to the environment), the request headers built from
 * them, the identifiers read out of a course page address, and the check
 * that a cookie has been configured.
 */
module Config {
  import opened Wrappers
  import opened Text
  import opened XiaoeUrls

  /** The parts of an address that urllib.parse.urlparse yields and the code reads. */
  datatype UrlParts = UrlParts(scheme: string, netloc: string, path: string, query: string)

  /** urlparse, which fails (ValueError) on malformed hosts such as an unclosed `[`. */
  type UrlParser = string -> Option<UrlParts>

  /** Python truthiness of an optional string: present and non-empty. */
  predicate Present(s: Option<string>) {
    s.Some? && |s.value| > 0
  }

  /** `a or b` on optional strings. */
  function Or(a: Option<string>, b: Option<string>): (r: Option<string>)
    ensures Present(a) ==> r == a
    ensures !Present(a) ==> r == b
  {
    if Present(a) then a else b
  }

  /** The headers every request carries. */
  const BaseHeaders: map<string, string> := map[
    "User-Agent" := "Mozilla/5.0 (Macintosh; Intel Mac OS X 10_15_7) AppleWebKit/537.36 (KHTML, like Gecko) Chrome/120.0.0.0 Safari/537.36",
    "Accept" := "application/json, text/plain, */*",
    "Accept-Language" := "zh-CN,zh;q=0.9,en;q=0.8",
    "Accept-Encoding" := "gzip, deflate, br",
    "Connection" := "keep-alive",
    "Sec-Fetch-Dest" := "empty",
    "Sec-Fetch-Mode" := "cors",
    "Sec-Fetch-Site" := "cross-site"
  ]

  /** What extract_info_from_url reports; each entry may be missing. */
  datatype UrlInfo = UrlInfo(appId: Option<string>, productId: Option<string>,
                             host: Option<string>, resourceId: Option<string>)

  /** A cookie looks usable when it has a `name=value` pair and more than ten characters. */
  predicate IsValidCookieFormat(cookie: string) {
    '=' in cookie && |cookie| > 10
  }

  class XiaoEConfig {
    var cookie: Option<string>
    var appId: Option<string>
    var host: Option<string>
    var baseHeaders: map<string, string>

    /**
     * Each setting given here wins when it is a non-empty string; otherwise
     * the environment's value is used, whatever it is.
     */
    constructor(cookie: Option<string>, appId: Option<string>, host: Option<string>,
                envCookie: Option<string>, envAppId: Option<string>, envHost: Option<string>)
      ensures this.cookie == Or(cookie, envCookie)
      ensures this.appId == Or(appId, envAppId)
      ensures this.host == Or(host, envHost)
      ensures baseHeaders == BaseHeaders
    {
      this.cookie := Or(cookie, envCookie);
      this.appId := Or(appId, envAppId);
      this.host := Or(host, envHost);
      baseHeaders := BaseHeaders;
    }

    /**
     * The headers for a request: a copy of the base headers, plus the cookie
     * when one is set, plus Referer and the referer's origin when a referer
     * is given. None when the referer cannot be parsed.
     */
    method GetHeaders(referer: Option<string>, urlparse: UrlParser) returns (r: Option<map<string, string>>)
      ensures r.None? <==> Present(referer) && urlparse(referer.value).None?
      ensures r.Some? ==> forall k :: k in baseHeaders && k !in {"Cookie", "Referer", "Origin"} ==>
                            k in r.value && r.value[k] == baseHeaders[k]
      ensures r.Some? ==> r.value.Keys == baseHeaders.Keys
                            + (if Present(cookie) then {"Cookie"} else {})
                            + (if Present(referer) then {"Referer", "Origin"} else {})
      ensures r.Some? && Present(cookie) ==> r.value["Cookie"] == cookie.value
      ensures r.Some? && Present(referer) ==> r.value["Referer"] == referer.value
      ensures r.Some? && Present(referer) ==>
                var parts := urlparse(referer.value).value;
                r.value["Origin"] == parts.scheme + "://" + parts.netloc
    {
      var headers := baseHeaders;
      if Present(cookie) {
        headers := headers["Cookie" := cookie.value];
      }
      if Present(referer) {
        headers := headers["Referer" := referer.value];
        var parsed := urlparse(referer.value);
        if parsed.None? {
          return None;
        }
        headers := headers["Origin" := parsed.value.scheme + "://" + parsed.value.netloc];
      }
      return Some(headers);
    }

    /**
     * The identifiers in a course page address. Later findings overwrite
     * earlier ones: a `from=p_...` parameter beats the course path, a live
     * page path beats a detail path, and the host-label guess is used only
     * when the host has no `app...` label. A parse failure leaves all four
     * entries missing.
     */
    method ExtractInfoFromUrl(url: string, urlparse: UrlParser) returns (info: UrlInfo)
      ensures urlparse(url).None? ==> info == UrlInfo(None, None, None, None)
      ensures urlparse(url).Some? ==> info.host == Some(urlparse(url).value.netloc)
      ensures urlparse(url).Some? ==>
                var netloc := urlparse(url).value.netloc;
                info.appId == match AppIdMatch(netloc)
                              case Some(run) => Some("app" + run)
                              case None => DomainAppId(netloc)
      ensures urlparse(url).Some? ==>
                var fromId := FromProductId(urlparse(url).value.query);
                info.productId == if fromId.Some? then fromId else CourseProductId(url)
      ensures urlparse(url).Some? ==>
                info.resourceId == if LessonIdAfter(url, LivePath).Some? then LessonIdAfter(url, LivePath) else LessonIdAfter(url, DetailPath)
    {
      info := UrlInfo(None, None, None, None);
      var parsed := urlparse(url);
      if parsed.None? {
        return;
      }
      var parts := parsed.value;
      info := info.(host := Some(parts.netloc));

      var appIdMatch := AppIdMatch(parts.netloc);
      if appIdMatch.Some? {
        info := info.(appId := Some("app" + appIdMatch.value));
      }

      var productMatch := CourseProductId(url);
      if productMatch.Some? {
        info := info.(productId := productMatch);
      }
      var fromValue := QueryValue(parts.query, "from");
      if fromValue.Some? && StartsWith(fromValue.value, "p_") {
        info := info.(productId := fromValue);
      }
      assert info.productId == if FromProductId(parts.query).Some? then FromProductId(parts.query) else CourseProductId(url);

      var resourceMatch := LessonIdAfter(url, DetailPath);
      if resourceMatch.Some? {
        info := info.(resourceId := resourceMatch);
      }
      var liveMatch := LessonIdAfter(url, LivePath);
      if liveMatch.Some? {
        info := info.(resourceId := liveMatch);
      }

      if info.appId.None? && appIdMatch.None? {
        info := info.(appId := DomainAppId(parts.netloc));
      }
    }

    /** Whether the configuration can be used, with the message shown to the user. */
    function ValidateConfig(): (r: (bool, string))
      reads this
      ensures r.0 <==> Present(cookie) && IsValidCookieFormat(cookie.value)
      ensures !Present(cookie) ==> r.1 == "未配置小鹅通Cookie"
      ensures Present(cookie) && !IsValidCookieFormat(cookie.value) ==> r.1 == "Cookie格式无效"
      ensures r.0 ==> r.1 == "配置有效"
    {
      if !Present(cookie) then (false, "未配置小鹅通Cookie")
      else if !IsValidCookieFormat(cookie.value) then (false, "Cookie格式无效")
      else (true, "配置有效")
    }
  }
}
