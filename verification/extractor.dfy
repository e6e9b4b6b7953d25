/**
 * `MastodonPostExtractor`: fetch a post page, scrape content and author with two
 * ordered selector lists, fall back to the `og:description` meta tag, and when the
 * page still yields no content, fall back to the instance's status API.
 *
 * The network and the HTML parser are oracles: a page is seen only through the
 * answers to `select_one(selector)` (the stripped text of the first element that
 * matches) and to the `og:description` lookup, and each HTTP GET is a function from
 * the request to its outcome.
 */
module Extractor {

  import opened Wrappers
  import Url
  import PostId

  /** The `post_data` dictionary. */
  datatype PostRecord = PostRecord(url: string, content: string, author: string, timestamp: string, instance: string)

  /** What both extraction paths start from: everything empty but `url` and `instance`. */
  function EmptyRecord(url: string, instance: string): PostRecord {
    PostRecord(url, "", "", "", instance)
  }

  /** The session's identifying header and the per-request timeout (seconds). */
  const UserAgent: string := "Mozilla/5.0 (compatible; MastodonAnalyzer/1.0)"
  const Timeout: nat := 10

  datatype HttpGet = HttpGet(url: string, userAgent: string, timeout: nat)

  /** A GET made through the extractor's session. */
  function SessionGet(url: string): HttpGet {
    HttpGet(url, UserAgent, Timeout)
  }

  /**
   * A parsed page. `selectOne(s)` is None when no element matches selector `s`, else
   * the matching element's text with whitespace stripped (possibly empty);
   * `ogDescription` is None when there is no `<meta property="og:description">`, else
   * its `content` attribute ("" when the attribute is missing).
   */
  datatype Page = Page(selectOne: string -> Option<string>, ogDescription: Option<string>)

  /** Outcome of the page GET: it raised, or it returned a status and a parsed body. */
  datatype PageReply = PageFailed | PageResponse(status: int, page: Page)

  /** A value read from the API's JSON, or the exception reading it raised. */
  datatype Field = Value(text: string) | Raises

  /**
   * The status object of the API reply: `content` is its HTML already reduced to
   * stripped text, `displayName` is `account.display_name` (raises when `account` is
   * not an object), `createdAt` is `created_at` ("" when missing).
   */
  datatype StatusJson = StatusJson(content: Field, displayName: Field, createdAt: string)

  /** Outcome of the API GET: it raised, or a status and the JSON body (None: not a JSON object). */
  datatype ApiReply = ApiFailed | ApiResponse(status: int, body: Option<StatusJson>)

  const ContentSelectors: seq<string> := [
    ".status__content",
    ".detailed-status__wrapper .status__content",
    "[data-testid=\"status-content\"]",
    ".post-content",
    ".toot-content",
    "article .content",
    ".status-content"
  ]

  const AuthorSelectors: seq<string> := [
    ".status__display-name strong",
    ".detailed-status__display-name strong",
    ".display-name__account",
    ".author-name",
    ".username"
  ]

  /** `raise_for_status` raises on client and server errors. */
  predicate IsHttpError(status: int) {
    400 <= status < 600
  }

  /** The answer of the first selector in the list that matches any element. */
  function FirstSelected(selectors: seq<string>, select: string -> Option<string>): (r: Option<string>)
    ensures r.None? <==> forall k :: 0 <= k < |selectors| ==> select(selectors[k]).None?
    ensures r.Some? ==> exists k :: 0 <= k < |selectors| && select(selectors[k]) == r
                          && forall j :: 0 <= j < k ==> select(selectors[j]).None?
  {
    if selectors == [] then None
    else if select(selectors[0]).Some? then select(selectors[0])
    else
      var r := FirstSelected(selectors[1..], select);
      assert forall k :: 1 <= k < |selectors| ==> selectors[1..][k - 1] == selectors[k];
      r
  }

  /** The first selector that matches decides, even when its element has no text. */
  lemma FirstSelectedAt(selectors: seq<string>, select: string -> Option<string>, i: nat)
    requires i < |selectors| && select(selectors[i]).Some?
    requires forall j :: 0 <= j < i ==> select(selectors[j]).None?
    ensures FirstSelected(selectors, select) == select(selectors[i])
  {
    var r := FirstSelected(selectors, select);
    var k :| 0 <= k < |selectors| && select(selectors[k]) == r && forall j :: 0 <= j < k ==> select(selectors[j]).None?;
    assert k == i;
  }

  function TextOf(found: Option<string>): string {
    match found
    case Some(t) => t
    case None => ""
  }

  /** The `instance` field: the URL's network location. */
  function Host(url: string): string
    requires Url.Netloc(url).Some?
  {
    Url.Netloc(url).value
  }

  /** The record `_extract_from_html` builds. */
  function HtmlRecord(page: Page, url: string): (r: PostRecord)
    requires Url.Netloc(url).Some?
    ensures r.url == url && r.instance == Host(url) && r.timestamp == ""
  {
    HtmlFields(url, FirstSelected(ContentSelectors, page.selectOne), FirstSelected(AuthorSelectors, page.selectOne),
               page.ogDescription)
  }

  /** The HTML record from what the two selector loops found and the meta tag. */
  function HtmlFields(url: string, content: Option<string>, author: Option<string>, og: Option<string>): (r: PostRecord)
    requires Url.Netloc(url).Some?
    ensures r.url == url && r.instance == Host(url) && r.timestamp == ""
  {
    var text := if TextOf(content) == "" && og.Some? then og.value else TextOf(content);
    PostRecord(url, text, TextOf(author), "", Host(url))
  }

  /**
   * The `for selector in selectors: ... if elem: ...; break` loop: the stripped text of
   * the element found by the first selector that matches any element.
   */
  method SelectFirst(selectors: seq<string>, select: string -> Option<string>) returns (found: Option<string>)
    ensures found == FirstSelected(selectors, select)
  {
    found := None;
    for i := 0 to |selectors|
      invariant found.None?
      invariant forall j :: 0 <= j < i ==> select(selectors[j]).None?
    {
      if select(selectors[i]).Some? {
        FirstSelectedAt(selectors, select, i);
        found := select(selectors[i]);
        break;
      }
    }
  }

  /** `_extract_from_html`: the two first-match loops, then the meta-tag fallback. */
  method ExtractFromHtml(page: Page, url: string) returns (post: PostRecord)
    requires Url.Netloc(url).Some?
    ensures post == HtmlRecord(page, url)
  {
    var host := Host(url);
    post := EmptyRecord(url, host);
    var content := SelectFirst(ContentSelectors, page.selectOne);
    if content.Some? {
      post := post.(content := content.value);
    }
    assert post.content == TextOf(content);
    var author := SelectFirst(AuthorSelectors, page.selectOne);
    if author.Some? {
      post := post.(author := author.value);
    }
    assert post == PostRecord(url, TextOf(content), TextOf(author), "", host);
    if post.content == "" {
      if page.ogDescription.Some? {
        post := post.(content := page.ogDescription.value);
      }
    }
  }

  /** The record `_try_api_extraction` returns, filled field by field until a read raises. */
  function ApiRecord(url: string, api: HttpGet -> ApiReply): (r: PostRecord)
    requires Url.Netloc(url).Some?
    ensures r.url == url && r.instance == Host(url)
  {
    var empty := EmptyRecord(url, Host(url));
    match PostId.FirstMatch(PostId.Patterns, url)
    case None => empty
    case Some(id) =>
      match api(SessionGet(PostId.EndpointUrl(Host(url), id)))
      case ApiResponse(200, Some(data)) =>
        if data.content.Raises? then empty
        else if data.displayName.Raises? then empty.(content := data.content.text)
        else empty.(content := data.content.text, author := data.displayName.text, timestamp := data.createdAt)
      case _ => empty
  }

  /** `_try_api_extraction`; every exception inside it is swallowed. */
  method TryApiExtraction(url: string, api: HttpGet -> ApiReply) returns (post: PostRecord)
    requires Url.Netloc(url).Some?
    ensures post == ApiRecord(url, api)
  {
    var host := Host(url);
    post := EmptyRecord(url, host);
    var id := PostId.ExtractPostId(url);
    if id.None? {
      return;
    }
    var reply := api(SessionGet(PostId.EndpointUrl(host, id.value)));
    if reply.ApiFailed? || reply.status != 200 || reply.body.None? {
      return;
    }
    var data := reply.body.value;
    if data.content.Raises? {
      return;
    }
    post := post.(content := data.content.text);
    if data.displayName.Raises? {
      return;
    }
    post := post.(author := data.displayName.text);
    post := post.(timestamp := data.createdAt);
  }

  /** What `extract_post_data` returns; None stands for its caught exceptions. */
  function PostData(url: string, fetch: HttpGet -> PageReply, api: HttpGet -> ApiReply): (r: Option<PostRecord>)
    // whatever path produced it, the record keeps the URL and has the URL's host as instance
    ensures r.Some? ==> Url.Netloc(url).Some? && r.value.url == url && r.value.instance == Url.Netloc(url).value
  {
    if Url.Netloc(url).None? then None
    else match fetch(SessionGet(url))
      case PageFailed => None
      case PageResponse(status, page) =>
        if IsHttpError(status) then None
        else
          var html := HtmlRecord(page, url);
          Some(if html.content == "" then ApiRecord(url, api) else html)
  }

  /** `extract_post_data`: the page first, the API only when the page gave no content. */
  method ExtractPostData(url: string, fetch: HttpGet -> PageReply, api: HttpGet -> ApiReply) returns (r: Option<PostRecord>)
    ensures r == PostData(url, fetch, api)
    ensures r.Some? ==> r.value.url == url && r.value.instance == Host(url)
  {
    if Url.Netloc(url).None? {
      return None;
    }
    var reply := fetch(SessionGet(url));
    if reply.PageFailed? || IsHttpError(reply.status) {
      return None;
    }
    var post := ExtractFromHtml(reply.page, url);
    if post.content == "" {
      post := TryApiExtraction(url, api);
    }
    return Some(post);
  }

  // ---- Properties of the HTML path ----

  /**
   * Content comes from the first content selector that matches. When that element
   * has text, it is the content and `og:description` is never looked at.
   */
  lemma HtmlContentFromSelector(page: Page, url: string, i: nat)
    requires Url.Netloc(url).Some?
    requires i < |ContentSelectors| && page.selectOne(ContentSelectors[i]).Some?
    requires forall j :: 0 <= j < i ==> page.selectOne(ContentSelectors[j]).None?
    requires page.selectOne(ContentSelectors[i]).value != ""
    ensures HtmlRecord(page, url).content == page.selectOne(ContentSelectors[i]).value
    ensures forall og :: HtmlRecord(page.(ogDescription := og), url) == HtmlRecord(page, url)
  {
    FirstSelectedAt(ContentSelectors, page.selectOne, i);
  }

  /**
   * The first matching content selector decides even when its element is empty: the
   * later selectors are not tried, and the content falls back to `og:description`.
   */
  lemma HtmlContentFallsBack(page: Page, url: string, i: nat)
    requires Url.Netloc(url).Some?
    requires i < |ContentSelectors| && page.selectOne(ContentSelectors[i]) == Some("")
    requires forall j :: 0 <= j < i ==> page.selectOne(ContentSelectors[j]).None?
    ensures HtmlRecord(page, url).content == TextOf(page.ogDescription)
  {
    FirstSelectedAt(ContentSelectors, page.selectOne, i);
  }

  /** With no content selector matching, the content is `og:description`, or empty without one. */
  lemma HtmlContentWithoutSelector(page: Page, url: string)
    requires Url.Netloc(url).Some?
    requires forall j :: 0 <= j < |ContentSelectors| ==> page.selectOne(ContentSelectors[j]).None?
    ensures HtmlRecord(page, url).content == TextOf(page.ogDescription)
  {
  }

  /** The author is the text of the first author selector that matches, or empty. */
  lemma HtmlAuthor(page: Page, url: string)
    requires Url.Netloc(url).Some?
    ensures (forall j :: 0 <= j < |AuthorSelectors| ==> page.selectOne(AuthorSelectors[j]).None?) ==>
              HtmlRecord(page, url).author == ""
    ensures forall i ::
              (0 <= i < |AuthorSelectors| && page.selectOne(AuthorSelectors[i]).Some?
               && forall j :: 0 <= j < i ==> page.selectOne(AuthorSelectors[j]).None?) ==>
              HtmlRecord(page, url).author == page.selectOne(AuthorSelectors[i]).value
  {
    forall i | 0 <= i < |AuthorSelectors| && page.selectOne(AuthorSelectors[i]).Some?
              && (forall j :: 0 <= j < i ==> page.selectOne(AuthorSelectors[j]).None?)
      ensures HtmlRecord(page, url).author == page.selectOne(AuthorSelectors[i]).value
    {
      FirstSelectedAt(AuthorSelectors, page.selectOne, i);
    }
  }

  // ---- Properties of the API path ----

  /** Without a post id in the URL the API is not asked and the record stays empty. */
  lemma ApiWithoutId(url: string, api: HttpGet -> ApiReply)
    requires Url.Netloc(url).Some?
    requires forall n :: 0 <= n < |PostId.Patterns| ==> PostId.Search(PostId.Patterns[n], url).None?
    ensures ApiRecord(url, api) == EmptyRecord(url, Host(url))
  {
    PostId.FirstMatchNone(PostId.Patterns, url);
  }

  /**
   * The only request the fallback makes is a session GET of
   * `https://<host>/api/v1/statuses/<id>`: two APIs that answer it alike give the same record.
   */
  lemma ApiAsksOnlyEndpoint(url: string, api1: HttpGet -> ApiReply, api2: HttpGet -> ApiReply)
    requires Url.Netloc(url).Some?
    requires forall id :: PostId.FirstMatch(PostId.Patterns, url) == Some(id) ==>
               api1(SessionGet(PostId.EndpointUrl(Host(url), id))) == api2(SessionGet(PostId.EndpointUrl(Host(url), id)))
    ensures ApiRecord(url, api1) == ApiRecord(url, api2)
  {
  }

  /** The endpoint is asked about the very id the URL carries. */
  lemma EndpointCarriesId(url: string, id: string)
    requires Url.Netloc(url).Some? && PostId.FirstMatch(PostId.Patterns, url) == Some(id)
    ensures PostId.FirstMatch(PostId.Patterns, PostId.EndpointUrl(Host(url), id)) == Some(id)
  {
    PostId.EndpointUrlId(Host(url), id);
  }

  /** A 200 reply whose fields all read fills content, author and timestamp. */
  lemma ApiFillsRecord(url: string, api: HttpGet -> ApiReply, id: string, content: string, author: string, created: string)
    requires Url.Netloc(url).Some? && PostId.FirstMatch(PostId.Patterns, url) == Some(id)
    requires api(SessionGet(PostId.EndpointUrl(Host(url), id))) == ApiResponse(200, Some(StatusJson(Value(content), Value(author), created)))
    ensures ApiRecord(url, api) == PostRecord(url, content, author, created, Host(url))
  {
  }

  /**
   * An exception reading the author is swallowed after the content was stored: the
   * record keeps the content and nothing else.
   */
  lemma ApiKeepsContentBeforeFailure(url: string, api: HttpGet -> ApiReply, id: string, content: string, created: string)
    requires Url.Netloc(url).Some? && PostId.FirstMatch(PostId.Patterns, url) == Some(id)
    requires api(SessionGet(PostId.EndpointUrl(Host(url), id))) == ApiResponse(200, Some(StatusJson(Value(content), Raises, created)))
    ensures ApiRecord(url, api) == EmptyRecord(url, Host(url)).(content := content)
  {
  }

  /** A failed request, a status other than 200, a body that is no JSON object or unreadable content leave the record empty. */
  lemma ApiFailureIsEmpty(url: string, api: HttpGet -> ApiReply, id: string)
    requires Url.Netloc(url).Some? && PostId.FirstMatch(PostId.Patterns, url) == Some(id)
    requires var reply := api(SessionGet(PostId.EndpointUrl(Host(url), id)));
      reply.ApiFailed? || reply.status != 200 || reply.body.None? || reply.body.value.content.Raises?
    ensures ApiRecord(url, api) == EmptyRecord(url, Host(url))
  {
  }

  // ---- Properties of the whole extraction ----

  /** The page is fetched with the session; it yields None exactly when parsing the URL or fetching the page fails. */
  lemma PostDataFails(url: string, fetch: HttpGet -> PageReply, api: HttpGet -> ApiReply)
    ensures PostData(url, fetch, api).None? <==>
      Url.Netloc(url).None? || fetch(SessionGet(url)).PageFailed? || IsHttpError(fetch(SessionGet(url)).status)
  {
  }

  /**
   * For any page served without an HTTP error status (redirects and other non-error
   * codes included), the API fallback is taken exactly when the page gave no content:
   * with content the page's record is returned whatever the API would say, without it
   * the API's record.
   */
  lemma ApiOnlyWhenPageEmpty(url: string, fetch: HttpGet -> PageReply, api: HttpGet -> ApiReply, status: int, page: Page)
    requires Url.Netloc(url).Some?
    requires fetch(SessionGet(url)) == PageResponse(status, page) && !IsHttpError(status)
    ensures HtmlRecord(page, url).content != "" ==>
      forall api' :: PostData(url, fetch, api') == Some(HtmlRecord(page, url))
    ensures HtmlRecord(page, url).content == "" ==> PostData(url, fetch, api) == Some(ApiRecord(url, api))
  {
  }
}
