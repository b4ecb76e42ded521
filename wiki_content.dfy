/**
 * `getWikiContent` (src/app/actions.ts, lines 14-88): validate the requested URL, ask the
 * wiki's MediaWiki API for the page's HTML, classify the answer, and post-process the HTML
 * by making lazy-loaded images load eagerly and root-relative links absolute.
 *
 * `new URL(url)`, `encodeURIComponent` and the network round trip are supplied by the
 * caller: the parsed URL as an optional record, the encoder and the fetch as functions.
 */
module WikiContent {
  import opened Wrappers
  import opened Text
  import opened PageRequest
  import opened LazyImages
  import opened RelativeLinks

  /** The `error` member of the API's JSON body; `info` may be missing. */
  datatype ApiError = ApiError(info: Option<string>)

  /** The `parse` member of the API's JSON body. */
  datatype ParsedPage = ParsedPage(title: Option<string>, text: Option<string>)

  /** The JSON body of the API's answer, reduced to the members the core reads. */
  datatype ApiBody = ApiBody(error: Option<ApiError>, parse: Option<ParsedPage>)

  /** What `fetch` resolves to: the HTTP status and the decoded body. */
  datatype ApiResponse = ApiResponse(status: nat, body: ApiBody)

  /** The record `getWikiContent` resolves to. A missing `parse.title` stays missing. */
  datatype WikiResponse =
    | SuccessResponse(content: string, title: Option<string>)
    | ErrorResponse(error: string)

  const BadFormatMessage := "Invalid URL format. Please enter a full URL including https://"
  const BadHostMessage := "Invalid URL. Hostname must be a fandom.com domain."
  const NoPageNameMessage := "Could not determine page name from URL. Make sure it contains \"/wiki/\"."
  const StatusPrefix := "Failed to fetch from API. Server responded with status: "
  const NoContentMessage := "Could not find content in the API response."

  /** `response.ok`: the status is in the range 200-299. */
  predicate IsOk(status: nat) {
    200 <= status <= 299
  }

  /** The error for a response that is not ok, the status written in decimal. */
  function StatusMessage(status: nat): string {
    StatusPrefix + NatToDecimal(status)
  }

  /** The error for an API-level error; a missing `info` is written as `undefined`. */
  function ApiErrorMessage(info: Option<string>): string {
    "API Error: " + (if info.Some? then info.value else "undefined") + ". Please check the page URL."
  }

  /** `data.parse && data.parse.text`: a parse result with non-empty text is present. */
  predicate HasText(body: ApiBody) {
    body.parse.Some? && body.parse.value.text.Some? && body.parse.value.text.value != []
  }

  /** The HTML handed back for page text `text` fetched from `origin`: the image pass first,
      then the link pass. */
  function PostProcess(text: string, origin: string): string {
    Absolutise(ImgPass(text), origin)
  }

  /** The whole operation. Each check returns its own error as soon as it fails, in the
      source's order: URL syntax, host name, page name, HTTP status, API error, content. */
  method GetWikiContent(url: string, parsed: Option<UrlParts>, encode: string -> string, fetch: string -> ApiResponse)
    returns (r: WikiResponse)
    ensures parsed.None? ==> r == ErrorResponse(BadFormatMessage)
    ensures parsed.Some? && !IsFandomHost(parsed.value.hostname) ==> r == ErrorResponse(BadHostMessage)
    ensures parsed.Some? && IsFandomHost(parsed.value.hostname) && PageName(url).None? ==>
      r == ErrorResponse(NoPageNameMessage)
    ensures parsed.Some? && IsFandomHost(parsed.value.hostname) && PageName(url).Some? ==>
      var origin := parsed.value.origin;
      var response := fetch(ApiUrl(origin, encode(PageName(url).value)));
      var data := response.body;
      && (!IsOk(response.status) ==> r == ErrorResponse(StatusMessage(response.status)))
      && (IsOk(response.status) && data.error.Some? ==> r == ErrorResponse(ApiErrorMessage(data.error.value.info)))
      && (IsOk(response.status) && data.error.None? && !HasText(data) ==> r == ErrorResponse(NoContentMessage))
      && (IsOk(response.status) && data.error.None? && HasText(data) ==>
            r == SuccessResponse(PostProcess(data.parse.value.text.value, origin), data.parse.value.title))
    ensures r.SuccessResponse? ==> parsed.Some? && IsFandomHost(parsed.value.hostname) && PageName(url).Some?
  {
    if parsed.None? {
      return ErrorResponse(BadFormatMessage);
    }
    var parsedUrl := parsed.value;
    if !IsFandomHost(parsedUrl.hostname) {
      return ErrorResponse(BadHostMessage);
    }

    var pageName := PageName(url);
    if pageName.None? {
      return ErrorResponse(NoPageNameMessage);
    }

    var apiUrl := ApiUrl(parsedUrl.origin, encode(pageName.value));
    var response := fetch(apiUrl);
    if !IsOk(response.status) {
      return ErrorResponse(StatusMessage(response.status));
    }

    var data := response.body;
    if data.error.Some? {
      return ErrorResponse(ApiErrorMessage(data.error.value.info));
    }
    if data.parse.None? || data.parse.value.text.None? || data.parse.value.text.value == [] {
      return ErrorResponse(NoContentMessage);
    }

    var content := data.parse.value.text.value;
    var pageTitle := data.parse.value.title;
    content := ImgPass(content);
    var baseUrl := parsedUrl.origin;
    content := Absolutise(content, baseUrl);
    return SuccessResponse(content, pageTitle);
  }

  // ----- Properties of the messages -----

  /** The status can be read back from its error message: after the fixed prefix comes the
      canonical decimal numeral of the status and nothing else. */
  lemma StatusMessageNamesStatus(status: nat)
    ensures StartsWith(StatusMessage(status), 0, StatusPrefix)
    ensures var d := StatusMessage(status)[|StatusPrefix|..];
            IsDigits(d) && (|d| > 1 ==> d[0] != '0') && DecimalValue(d) == status
  {
    var d := NatToDecimal(status);
    assert StatusMessage(status)[|StatusPrefix|..] == d;
  }

  /** The API's own explanation is quoted between the fixed words. */
  lemma ApiErrorMessageQuotesInfo(info: string)
    ensures var m := ApiErrorMessage(Some(info));
            && StartsWith(m, 0, "API Error: ")
            && m[11..|m| - 28] == info
            && EndsWith(m, ". Please check the page URL.")
  {
  }

  // ----- Properties of the post-processing -----

  /** HTML with no `<img` and no root-relative `href`/`src` comes back exactly as fetched. */
  lemma PlainTextUnchanged(text: string, origin: string)
    requires forall p: nat :: !StartsWith(text, p, ImgOpen)
    requires forall k :: 0 <= k < |text| ==> !LinkAt(text, k)
    ensures PostProcess(text, origin) == text
  {
    ImgPassWithoutImg(text);
    NoLinkUnchanged(text, 0, origin);
  }

  /** `src="` followed by a value with a single leading `/` is a match of the link pattern. */
  lemma WrittenSrcIsLink(a: string, v: string, b: string)
    requires v != [] && v[0] == '/' && (|v| == 1 || v[1] != '/')
    ensures SrcAt(a + (SrcOpen + v + "\"") + b, |a|)
  {
    var r := a + (SrcOpen + v + "\"") + b;
    assert r[|a| + 5] == v[0];
    assert r[|a| + 6] == (if |v| == 1 then '"' else v[1]);
  }

  /** The image pass runs first, so a root-relative `data-src` value it copies into `src`
      is then made absolute: the copy is a link the second pass rewrites. */
  lemma CopiedValueBecomesLink(t: string, v: string, k: nat, e: nat)
    requires LeftmostAttr(t, k, e, SrcOpen) && '$' !in v
    requires v != [] && v[0] == '/' && (|v| == 1 || v[1] != '/')
    ensures SrcAt(ReplaceFirstSrc(t, v), k) && InsertionPoint(ReplaceFirstSrc(t, v), k + 5)
  {
    ReplaceFirstSrcAt(t, v, k, e);
    WrittenSrcIsLink(t[..k], v, t[e..]);
  }

  /** The link pattern has no word boundary: a `data-src` attribute the image pass left in
      place gets the origin too when its value starts with a single `/`. */
  lemma DataSrcAlsoAbsolutised(s: string, origin: string, k: nat)
    requires '$' !in origin && StartsWith(s, k, DataSrcOpen)
    requires k + 10 < |s| && s[k + 10] == '/' && (k + 11 == |s| || s[k + 11] != '/')
    ensures Absolutise(s, origin) == Spliced(s, origin, 0, k + 10) + origin + "/" + Spliced(s, origin, k + 11, |s|)
  {
    assert s[k + 5..k + 10] == DataSrcOpen[5..];
    SrcGetsOrigin(s, origin, k + 5);
  }

  /** Wherever the image pass leaves `src="/x`, the final content has the origin in front
      of that `/`. */
  lemma LinkAfterImagesIsAbsolute(text: string, origin: string, k: nat)
    requires '$' !in origin && SrcAt(ImgPass(text), k)
    ensures var s := ImgPass(text);
            PostProcess(text, origin) == Spliced(s, origin, 0, k + 5) + origin + "/" + Spliced(s, origin, k + 6, |s|)
  {
    SrcGetsOrigin(ImgPass(text), origin, k);
  }
}
