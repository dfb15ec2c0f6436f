/** The pure parts of the URL routes: the public short link of a code, the page-query
    defaults and bounds, and the list response with its page count. */
module UrlApi {
  import opened Wrappers
  import opened Models
  import opened UrlRepository
  import opened UrlService

  const DefaultPage := 1
  const DefaultPageSize := 20
  const MaxPageSize := 100

  const PageBelowOneMessage := "page: Input should be greater than or equal to 1"
  const PageSizeBelowOneMessage := "page_size: Input should be greater than or equal to 1"
  const PageSizeAboveMaxMessage := "page_size: Input should be less than or equal to 100"

  /** `str.rstrip(c)`: `s` without its trailing run of `c`. */
  function RStrip(s: string, c: char): (r: string)
    ensures r <= s
    ensures r == [] || r[|r| - 1] != c
    ensures forall i :: |r| <= i < |s| ==> s[i] == c
    decreases |s|
  {
    if |s| > 0 && s[|s| - 1] == c then RStrip(s[..|s| - 1], c) else s
  }

  /** `build_short_url`: the base URL with its trailing slashes removed, one slash, the code.
      Whatever number of trailing slashes the base carries, exactly one separates the host
      part from the code, and the code ends the link unchanged. */
  function BuildShortUrl(baseUrl: string, code: string): (link: string)
    ensures |link| > |code| && link[|link| - |code|..] == code && link[|link| - |code| - 1] == '/'
    ensures var host := link[..|link| - |code| - 1];
            host <= baseUrl && (host == [] || host[|host| - 1] != '/') &&
            forall i :: |host| <= i < |baseUrl| ==> baseUrl[i] == '/'
  {
    var host := RStrip(baseUrl, '/');
    var link := host + "/" + code;
    assert link[..|host|] == host && link[|host| + 1..] == code;
    link
  }

  /** Adding slashes to a base URL does not change the short links built from it. */
  lemma {:induction false} ExtraSlashesIgnored(baseUrl: string, n: nat, code: string)
    ensures BuildShortUrl(baseUrl + seq(n, _ => '/'), code) == BuildShortUrl(baseUrl, code)
    decreases n
  {
    if n > 0 {
      var longer := baseUrl + seq(n, _ => '/');
      assert longer[..|longer| - 1] == baseUrl + seq(n - 1, _ => '/');
      ExtraSlashesIgnored(baseUrl, n - 1, code);
    } else {
      assert baseUrl + seq(n, _ => '/') == baseUrl;
    }
  }

  /** The link a test client with base `http://test/` receives for the code `nord`. */
  lemma TestClientShortUrl()
    ensures BuildShortUrl("http://test/", "nord") == "http://test/nord"
  {
    assert RStrip("http://test", '/') == "http://test";
    assert "http://test/"[..|"http://test/"| - 1] == "http://test";
  }

  /** `page: int = Query(1, ge=1)` and `page_size: int = Query(20, ge=1, le=100)`: an absent
      parameter takes its default; a value out of bounds is a 422 listing every violation. */
  function ParsePageQuery(page: Option<int>, pageSize: Option<int>): (r: Result<(int, int), Error>)
    ensures r.Success? <==>
              (page.None? || page.value >= 1) &&
              (pageSize.None? || 1 <= pageSize.value <= MaxPageSize)
    ensures r.Success? ==>
              r.value.0 == (if page.Some? then page.value else DefaultPage) &&
              r.value.1 == (if pageSize.Some? then pageSize.value else DefaultPageSize)
    ensures r.Success? ==> r.value.0 >= 1 && 1 <= r.value.1 <= MaxPageSize
    ensures r.Failure? ==> r.error.Unprocessable? && |r.error.details| > 0
  {
    var p := if page.Some? then page.value else DefaultPage;
    var ps := if pageSize.Some? then pageSize.value else DefaultPageSize;
    var errors :=
      (if p < 1 then [PageBelowOneMessage] else []) +
      (if ps < 1 then [PageSizeBelowOneMessage] else []) +
      (if ps > MaxPageSize then [PageSizeAboveMaxMessage] else []);
    if errors == [] then Success((p, ps)) else Failure(Unprocessable(errors))
  }

  /** `ceil(total / page_size) if total > 0 else 0`: the fewest pages of `pageSize` rows that
      hold `total` rows. */
  function TotalPages(total: int, pageSize: int): (n: nat)
    requires pageSize >= 1
    ensures total <= 0 ==> n == 0
    ensures total > 0 ==> n * pageSize >= total && (n - 1) * pageSize < total
  {
    if total > 0 then
      var n := (total + pageSize - 1) / pageSize;
      CeilingBounds(total, pageSize);
      n
    else 0
  }

  lemma CeilingBounds(total: int, pageSize: int)
    requires total > 0 && pageSize >= 1
    ensures (total + pageSize - 1) / pageSize >= 1
    ensures (total + pageSize - 1) / pageSize * pageSize >= total
    ensures ((total + pageSize - 1) / pageSize - 1) * pageSize < total
  {
    var q := (total + pageSize - 1) / pageSize;
    var m := (total + pageSize - 1) % pageSize;
    assert q * pageSize + m == total + pageSize - 1;
    assert 0 <= m < pageSize;
    assert (q - 1) * pageSize == q * pageSize - pageSize;
    PositiveFactor(q, pageSize);
  }

  lemma PositiveFactor(a: int, c: int)
    requires c >= 1 && a * c > 0
    ensures a >= 1
  {
    if a <= 0 {
      MultiplyMonotone(a, 0, c);
    }
  }

  /** The page count is the least that suffices: any count of pages that holds `total` rows
      is at least `TotalPages`. */
  lemma TotalPagesIsLeast(total: int, pageSize: int, n: nat)
    requires pageSize >= 1 && n * pageSize >= total
    ensures TotalPages(total, pageSize) <= n
  {
    var t := TotalPages(total, pageSize);
    if total > 0 && t > n {
      assert (t - 1) * pageSize >= n * pageSize by {
        assert t - 1 >= n;
        MultiplyMonotone(n, t - 1, pageSize);
      }
    }
  }

  lemma MultiplyMonotone(a: int, b: int, c: int)
    requires a <= b && c >= 0
    ensures a * c <= b * c
  {
    assert b * c - a * c == (b - a) * c;
  }

  /** Row `k` (counting from 0) lies on page `k / pageSize + 1`, and while `k < total` that
      page is within the page count. */
  lemma PageOfRow(total: nat, pageSize: int, k: nat)
    requires pageSize >= 1 && k < total
    ensures var page := k / pageSize + 1;
            1 <= page <= TotalPages(total, pageSize) &&
            (page - 1) * pageSize <= k < (page - 1) * pageSize + pageSize
  {
    var page := k / pageSize + 1;
    assert (page - 1) * pageSize + k % pageSize == k;
    var t := TotalPages(total, pageSize);
    if page > t {
      MultiplyMonotone(t, page - 1, pageSize);
    }
  }

  /** The row at position `k` of the owner's newest-first list is on page `k / pageSize + 1`,
      and that page is within the page count, so walking pages 1 to `TotalPages` shows every
      row. */
  lemma {:induction false} EveryRowIsOnAPage(s: URLService, userId: string, pageSize: int, k: nat)
    requires pageSize >= 1
    requires k < |OwnedBy(s.repo.rows, userId)|
    ensures var page := k / pageSize + 1;
            1 <= page <= TotalPages(|OwnedBy(s.repo.rows, userId)|, pageSize) &&
            NewestFirst(OwnedBy(s.repo.rows, userId))[k] in s.GetUserUrls(userId, page, pageSize).0
  {
    var sorted := NewestFirst(OwnedBy(s.repo.rows, userId));
    var page := k / pageSize + 1;
    PageOfRow(|sorted|, pageSize, k);
    var skip := (page - 1) * pageSize;
    var w := Window(sorted, skip, pageSize);
    assert w[k - skip] == sorted[k];
  }

  /** The row fields of `URLResponse` with the public short link added. */
  datatype URLResponse = URLResponse(
    id: string,
    originalUrl: string,
    shortCode: string,
    shortUrl: string,
    title: Option<string>,
    clicks: nat,
    isActive: bool,
    createdAt: Instant,
    userId: string)

  datatype URLListResponse = URLListResponse(
    urls: seq<URLResponse>,
    total: nat,
    page: int,
    pageSize: int,
    totalPages: nat)

  /** The response built from a stored row. */
  function ToResponse(baseUrl: string, u: Url): (resp: URLResponse)
    ensures resp.id == u.id && resp.originalUrl == u.originalUrl && resp.shortCode == u.shortCode
    ensures resp.title == u.title && resp.clicks == u.clicks && resp.isActive == u.isActive
    ensures resp.createdAt == u.createdAt && resp.userId == u.userId
    ensures resp.shortUrl == BuildShortUrl(baseUrl, u.shortCode)
  {
    URLResponse(u.id, u.originalUrl, u.shortCode, BuildShortUrl(baseUrl, u.shortCode),
                u.title, u.clicks, u.isActive, u.createdAt, u.userId)
  }

  /** The body of `get_my_urls`: one response per row of the page, in the page's order, and
      the page parameters and the total echoed. */
  function ListResponse(baseUrl: string, urls: seq<Url>, total: nat, page: int, pageSize: int): (resp: URLListResponse)
    requires pageSize >= 1
    ensures |resp.urls| == |urls|
    ensures forall i :: 0 <= i < |urls| ==> resp.urls[i] == ToResponse(baseUrl, urls[i])
    ensures resp.total == total && resp.page == page && resp.pageSize == pageSize
    ensures resp.totalPages == TotalPages(total, pageSize)
  {
    URLListResponse(seq(|urls|, i requires 0 <= i < |urls| => ToResponse(baseUrl, urls[i])),
                    total, page, pageSize, TotalPages(total, pageSize))
  }

  /** Positional arguments after `self` that `URLService.get_user_urls` declares, and the
      number the `get_my_urls` route passes it (the caller's id, page, page size, filter). */
  const GetUserUrlsParameters := 3
  const GetMyUrlsArguments := 4

  const ServerErrorDetail := "Internal Server Error"

  /** `GET /urls` as written: the query bounds are checked first (422); every query that
      passes them reaches the call `get_user_urls(user_id, page, page_size, url_filter)`,
      which has one positional argument more than the method declares, so the call raises
      TypeError and the server answers 500 before any list is built. */
  function GetMyUrlsAsWritten(page: Option<int>, pageSize: Option<int>): (r: Result<URLListResponse, Error>)
    ensures r.Success? ==> GetMyUrlsArguments <= GetUserUrlsParameters
    ensures ParsePageQuery(page, pageSize).Failure? ==> r == Failure(ParsePageQuery(page, pageSize).error)
  {
    match ParsePageQuery(page, pageSize)
    case Failure(e) => Failure(e)
    case Success(_) => Failure(Internal(ServerErrorDetail))
  }

  /** No query gets a list from the route as written: the valid default query `GET /urls`
      already fails with 500. */
  lemma MyUrlsRouteAsWrittenAlwaysFails(page: Option<int>, pageSize: Option<int>)
    ensures GetMyUrlsAsWritten(page, pageSize).Failure?
    ensures ParsePageQuery(page, pageSize).Success? ==>
              GetMyUrlsAsWritten(page, pageSize) == Failure(Internal(ServerErrorDetail))
    ensures GetMyUrlsArguments > GetUserUrlsParameters
    ensures GetMyUrlsAsWritten(None, None) == Failure(Internal(ServerErrorDetail))
  {
  }

  /** `GET /urls` as evidently intended: the service called with the caller's id, the page
      and the page size; the filter is not passed. */
  function GetMyUrls(s: URLService, baseUrl: string, userId: string, page: Option<int>, pageSize: Option<int>)
    : (r: Result<URLListResponse, Error>)
    reads s, s.repo
    ensures r.Success? <==> ParsePageQuery(page, pageSize).Success?
    ensures r.Failure? ==> r == Failure(ParsePageQuery(page, pageSize).error)
    ensures r.Success? ==>
              r.value.page == ParsePageQuery(page, pageSize).value.0 &&
              r.value.pageSize == ParsePageQuery(page, pageSize).value.1 &&
              r.value.total == |OwnedBy(s.repo.rows, userId)|
  {
    match ParsePageQuery(page, pageSize)
    case Failure(e) => Failure(e)
    case Success((p, ps)) =>
      var (urls, total) := s.GetUserUrls(userId, p, ps);
      Success(ListResponse(baseUrl, urls, total, p, ps))
  }

  /** The intended list of a valid page query holds at most a page of the caller's rows,
      newest first, with one short link per row built from the same base, and a page count
      computed from the caller's full row count. */
  lemma {:induction false} MyUrlsResponse(s: URLService, baseUrl: string, userId: string, page: int, pageSize: int)
    requires ParsePageQuery(Some(page), Some(pageSize)).Success?
    ensures var r := GetMyUrls(s, baseUrl, userId, Some(page), Some(pageSize));
            r.Success? &&
            |r.value.urls| <= pageSize &&
            (forall i :: 0 <= i < |r.value.urls| ==>
               r.value.urls[i].userId == userId && r.value.urls[i].shortUrl == BuildShortUrl(baseUrl, r.value.urls[i].shortCode)) &&
            (forall i, j :: 0 <= i < j < |r.value.urls| ==> r.value.urls[i].createdAt >= r.value.urls[j].createdAt) &&
            r.value.totalPages == TotalPages(|OwnedBy(s.repo.rows, userId)|, pageSize)
  {
    var (urls, total) := s.GetUserUrls(userId, page, pageSize);
    var resp := ListResponse(baseUrl, urls, total, page, pageSize);
    forall i | 0 <= i < |resp.urls| ensures resp.urls[i].userId == userId {
      assert urls[i] in urls;
    }
  }

  /** Both versions of the route reject the same out-of-bounds queries with the same 422. */
  lemma RoutesAgreeOnRejectedQueries(s: URLService, baseUrl: string, userId: string, page: Option<int>, pageSize: Option<int>)
    requires ParsePageQuery(page, pageSize).Failure?
    ensures GetMyUrls(s, baseUrl, userId, page, pageSize) == GetMyUrlsAsWritten(page, pageSize)
  {
  }
}
