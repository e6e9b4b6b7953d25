# Mastodon post scam analyzer — Dafny model

A model of the core of `mastodon_analyzer.py`, a command-line tool that fetches a
Mastodon/Fediverse post and asks a chat-completion model whether it looks like a scam
or a phishing attempt. The model covers both halves of the pipeline:

- **Extraction** (`MastodonPostExtractor`):
  - fetch the post page with a session that sends a fixed `User-Agent` and a 10-second timeout;
  - scrape content and author with two ordered CSS-selector lists, and fall back to the
    `og:description` meta tag when there is no content;
  - when the page still yields no content, find the numeric post id with four ordered
    regular expressions and ask `https://<host>/api/v1/statuses/<id>`.
- **Classification** (`ScamAnalyzer`):
  - refuse a post without content;
  - fill the fixed prompt template and send it with a fixed system message;
  - read the reply as the JSON object between its first `{` and its last `}`. A keyword
    heuristic applies when the reply has no such span. A fixed error record is returned
    when the span does not decode.

The files:

- `wrappers.dfy`: `Option` and `Result`.
- `text.dfy`: character and string scans that Python gets from `str` and `re`:
  - ASCII digit runs;
  - first and last index of a character;
  - ASCII lower-casing;
  - substring search.
- `url.dfy`: `urlparse(url).netloc`, following CPython's `urlsplit`:
  - leading C0 controls and spaces are stripped;
  - tab, CR and LF are removed;
  - a scheme is recognised, then `//`;
  - the netloc runs up to the first `/`, `?` or `#`;
  - an unbalanced `[` or `]` raises `ValueError`.
- `post_id.dfy`: `_extract_post_id`.
  - Each pattern is a `Pattern` value. `MatchAt` is the pattern matched at one position.
  - `Search` is `re.search`: the leftmost position where the whole pattern matches.
  - `ExtractPostId` is the loop over the pattern list.
  - The regular expressions are also read declaratively (`IsMatch`), and the two readings
    are proved to agree.
- `extractor.dfy`: the page, the API fallback and their composition.
  - `PostRecord` is the `post_data` dictionary.
  - `ExtractFromHtml`, `TryApiExtraction` and `ExtractPostData` are methods that update that
    record step by step, as the source does. The selector loops are one method, `SelectFirst`,
    used for both lists. Each is proved equal to a specification
    function (`HtmlRecord`, `ApiRecord`, `PostData`), and the lemmas are about those functions.
- `analyzer.dfy`: `_parse_analysis_result`, `_create_analysis_prompt` and `analyze_post`.
  - The prompt template is kept as its fixed pieces: the text before the content, the author and
    instance labels, and the text after the instance.
  - `ScamAnalyzer` is a value holding the model name, `openai/gpt-oss-20b:free` unless one is given.
  - `AnalyzePost` is a function of the post, the chat-service oracle and the JSON-decoder
    oracle. Repeated analysis of the same record against the same service answers is
    therefore identical by construction.

Foreign code is abstracted as oracles, passed as parameters:

- An HTTP GET is a function from the request (`HttpGet`: URL, user agent, timeout) to its
  outcome.
- A parsed page is `Page`: the stripped text of the first element matching a selector (if
  any), and the `og:description` content (if the tag exists).
- The status API's JSON is `StatusJson`. Each field either reads or raises.
- The chat service maps a `ChatRequest` to the reply text or to the text of the exception
  it raised.
- The JSON decoder maps a string to a value or to `None` on `JSONDecodeError`.

Two facts about the libraries the code calls shape the model:

- `re.search` reports the group of the leftmost position where the whole pattern, digits
  included, matches. `Search` models this, and `SearchIsLeftmost` states it.
- A BeautifulSoup tag is always truthy, so a selector whose element has empty text still
  stops the selector loop. The content is then `""` and the `og:description` fallback
  applies (`HtmlContentFallsBack`).

## Model

| member | source | states |
|---|---|---|
| Text.DigitRunEnd | mastodon_analyzer.py:149-152 | the end of the greedy `\d+` run: every character before it is a digit, and the one at it is not |
| Text.IndexFrom | mastodon_analyzer.py:150 | the first `/` at or after a position (where `[^/]+` must stop), or the end of the string |
| Text.LastIndexBefore | mastodon_analyzer.py:266 | the last occurrence of a character before a bound, or none exists |
| Text.Lower | mastodon_analyzer.py:272 | `str.lower()` on ASCII: same length, each character lower-cased |
| Text.ContainsIff | mastodon_analyzer.py:272 | the substring scan (`in`) succeeds exactly when the word occurs at some position |
| Url.LStrip | mastodon_analyzer.py:44 | the stripped URL is a suffix of the input that starts with no C0 control or space |
| Url.LStripDropsBlanks | mastodon_analyzer.py:44 | every character stripped is a C0 control or space, so the longest such prefix goes |
| Url.RemoveUnsafe | mastodon_analyzer.py:44 | no tab, CR or LF is left |
| Url.RemoveUnsafeAppend | mastodon_analyzer.py:44 | removal on a concatenation is the concatenation of the removals, so the kept characters stay in order |
| Url.RemoveUnsafeCounts | mastodon_analyzer.py:44 | every character other than tab, CR and LF keeps its number of occurrences |
| Url.Sanitize | mastodon_analyzer.py:44 | the string `urlsplit` splits has no tab, CR or LF and does not start with a control or space |
| Url.RemoveUnsafeKeeps | mastodon_analyzer.py:44 | a URL without tab, CR or LF is left unchanged |
| Url.SchemeEnd | mastodon_analyzer.py:44 | a scheme is recognised only when the URL starts with an ASCII letter and only scheme characters precede a `:`; it ends just past that `:` |
| Url.SchemeEndFinds | mastodon_analyzer.py:44 | every such scheme is recognised, ending at its `:`, the first one in the URL since scheme characters exclude `:` |
| Url.NetlocEnd | mastodon_analyzer.py:44 | the netloc ends at the first `/`, `?` or `#` |
| Url.Netloc | mastodon_analyzer.py:72 | `urlparse(url).netloc`: no `/`, `?` or `#` in it, and brackets balanced; None when `urlparse` raises `ValueError` |
| Url.SplitNetloc | mastodon_analyzer.py:44 | the netloc of a sanitized URL has no `/`, `?` or `#` and balanced brackets |
| Url.NetlocOfComposed | mastodon_analyzer.py:44 | for `scheme://host<rest>`, with `rest` empty or starting at a delimiter, the netloc is exactly `host` when its brackets balance, and `urlparse` raises `ValueError` (None) when they do not |
| PostId.DigitsAt | mastodon_analyzer.py:149-152 | the `(\d+)` group captured at a position is non-empty and all digits |
| PostId.MatchAt | mastodon_analyzer.py:148-153 | a match of one of the four patterns at a position captures non-empty digits |
| PostId.Leftmost | mastodon_analyzer.py:156 | the leftmost position at which the pattern matches: it matches there and at no earlier position |
| PostId.Search | mastodon_analyzer.py:156-158 | `re.search(...).group(1)` is non-empty digits |
| PostId.ExtractPostId | mastodon_analyzer.py:146-160 | the loop returns the first pattern's match in list order (`FirstMatch`), and that id is non-empty digits |
| PostId.FirstMatch | mastodon_analyzer.py:155-160 | the id found for the pattern list is non-empty digits; `FirstMatchNone` and `FirstMatchIsFirst` state which pattern decides |
| PostId.FirstMatchNone | mastodon_analyzer.py:155-160 | no id is returned exactly when none of the patterns matches anywhere |
| PostId.FirstMatchIsFirst | mastodon_analyzer.py:155-158 | the first pattern in list order that matches decides, whatever the later ones find |
| PostId.FirstMatchSkips | mastodon_analyzer.py:155-159 | patterns that match nothing can be dropped from the front of the list |
| PostId.DigitsAtIff | mastodon_analyzer.py:149-152 | the computed group is exactly the greedy `\d+` at that position: non-empty digits not followed by a digit |
| PostId.MatchAtIff | mastodon_analyzer.py:148-153 | the computed match at a position agrees with the regular expression's reading, in both directions |
| PostId.HandleMatchAtIff | mastodon_analyzer.py:150 | `/@[^/]+/(\d+)` matches at a position exactly when `/@`, a non-empty run without `/`, a `/` and digits follow |
| PostId.HandleMatchSound | mastodon_analyzer.py:150 | a computed handle match is a match of `/@[^/]+/(\d+)` |
| PostId.HandleMatchComplete | mastodon_analyzer.py:150 | every match of `/@[^/]+/(\d+)` at a position is the computed one |
| PostId.SearchIsLeftmost | mastodon_analyzer.py:156 | `re.search` reports the group of the leftmost position where the whole pattern matches |
| PostId.NoDigitNoId | mastodon_analyzer.py:148-160 | a URL without any digit yields no post id |
| PostId.SegmentMissesProfileUrl | mastodon_analyzer.py:148-153 | `/statuses/`, `/posts/` and `/status/` match nowhere inside `https://<host>/@<user>/<id>` |
| PostId.HandleFindsProfileId | mastodon_analyzer.py:150 | in `https://<host>/@<user>/<id>` the handle pattern captures `id` |
| PostId.NoHandleBeforeUser | mastodon_analyzer.py:150 | the handle pattern matches nowhere before the `/@` of the user, even for a host that starts with `@` |
| PostId.ProfileUrlId | mastodon_analyzer.py:150 | the post id of `https://<host>/@<user>/<digits>` is the digits |
| PostId.MastodonSocialExample | test_analyzer.py:18 | `https://mastodon.social/@user/123456789` yields `123456789` |
| PostId.FosstodonExample | test_analyzer.py:19 | `https://fosstodon.org/@developer/987654321` yields `987654321` |
| PostId.MasToExample | test_analyzer.py:20 | `https://mas.to/@someone/555666777` yields `555666777` |
| PostId.EarlierPatternWins | mastodon_analyzer.py:148-158 | in `https://<host>/@<user>/<id>/statuses/<id2>` the handle pattern matches further left, yet `/statuses/` is tried first and gives `id2` |
| PostId.StatusesMissesEndpoint | mastodon_analyzer.py:149 | `/statuses/` matches nowhere before the one in the API path |
| PostId.EndpointUrlId | mastodon_analyzer.py:132 | the post id of `https://<host>/api/v1/statuses/<id>` is `id` |
| Extractor.FirstSelected | mastodon_analyzer.py:86-90 | the answer of the first selector that matches, or none when no selector matches |
| Extractor.FirstSelectedAt | mastodon_analyzer.py:86-90 | the first matching selector decides, even when its element has no text |
| Extractor.SelectFirst | mastodon_analyzer.py:86-90 | the `for ... break` loop over a selector list returns exactly what `FirstSelected` specifies |
| Extractor.HtmlRecord | mastodon_analyzer.py:67-73 | the HTML record keeps the URL, has the URL's host as instance and an empty timestamp |
| Extractor.ExtractFromHtml | mastodon_analyzer.py:65-113 | the two `for ... break` loops and the meta-tag fallback build exactly `HtmlRecord` |
| Extractor.ApiRecord | mastodon_analyzer.py:117-123 | the API record keeps the URL and has the URL's host as instance |
| Extractor.TryApiExtraction | mastodon_analyzer.py:115-144 | the step-by-step fill, with exceptions swallowed, builds exactly `ApiRecord` |
| Extractor.ExtractPostData | mastodon_analyzer.py:32-63 | page first, the API only without page content; the result is `PostData`, and it keeps the URL and the host |
| Extractor.HtmlContentFromSelector | mastodon_analyzer.py:86-90 | content is the text of the first matching content selector, and `og:description` is then irrelevant |
| Extractor.HtmlContentFallsBack | mastodon_analyzer.py:108-111 | an empty first match stops the loop, and content falls back to `og:description` |
| Extractor.HtmlContentWithoutSelector | mastodon_analyzer.py:107-111 | with no content selector matching, content is the `og:description` content, or empty without the tag |
| Extractor.HtmlAuthor | mastodon_analyzer.py:101-105 | author is the text of the first matching author selector, or empty when none matches |
| Extractor.ApiWithoutId | mastodon_analyzer.py:127-129 | without a post id the API is not asked, and the record is empty apart from URL and instance |
| Extractor.ApiAsksOnlyEndpoint | mastodon_analyzer.py:132-133 | the only request is a session GET of `https://<host>/api/v1/statuses/<id>` |
| Extractor.EndpointCarriesId | mastodon_analyzer.py:132 | the endpoint URL carries the same post id as the post URL |
| Extractor.ApiFillsRecord | mastodon_analyzer.py:135-139 | a 200 reply whose fields read fills content, author and timestamp |
| Extractor.ApiKeepsContentBeforeFailure | mastodon_analyzer.py:137-142 | an exception reading the author is swallowed after the content was stored |
| Extractor.ApiFailureIsEmpty | mastodon_analyzer.py:133-142 | a failed request, a status other than 200, a non-object body or unreadable content leave the record empty |
| Extractor.PostDataFails | mastodon_analyzer.py:42-63 | extraction yields None exactly when `urlparse` raises, the GET raises or the status is 400–599 |
| Extractor.PostData | mastodon_analyzer.py:32-63 | every extracted record keeps the URL and has the URL's netloc as instance; `PostDataFails` and `ApiOnlyWhenPageEmpty` state when it fails and which path decides |
| Extractor.ApiOnlyWhenPageEmpty | mastodon_analyzer.py:47-59 | for a page served with any status below 400 or above 599: with page content the page's record is returned whatever the API says; without it, the API's record |
| Analyzer.BraceSpan | mastodon_analyzer.py:266 | `\{.*\}` with DOTALL: from the first `{` to the last `}`, and no span exactly when no `{` comes before a `}` |
| Analyzer.ContainsLowerIff | mastodon_analyzer.py:272 | a word occurs in the lower-cased reply exactly when it occurs ignoring ASCII case |
| Analyzer.MentionsScam | mastodon_analyzer.py:272 | true exactly when "suspicious" or "scam" occurs in the reply, ignoring ASCII case |
| Analyzer.ParseAnalysisResult | mastodon_analyzer.py:262-285 | the heuristic verdict, with its fixed fields, exactly when no `{` comes before a `}`; the only error record is the fixed parse error carrying the reply; `ParseDecodesSpan` states what is decoded |
| Analyzer.ParseDecodesSpan | mastodon_analyzer.py:264-285 | the decoder gets exactly the first-`{`-to-last-`}` text; its value is returned as is, and a decoding failure gives the fixed error record |
| Analyzer.ParseWithoutSpan | mastodon_analyzer.py:269-278 | without a span, the heuristic verdict: suspicious iff "suspicious" or "scam" occurs ignoring case, confidence 50, "unclear", the reply as explanation |
| Analyzer.CreateAnalysisPrompt | mastodon_analyzer.py:225-260 | no contract of its own, because the template is too long for the solver to check one cheaply; `PromptCarriesFields` states its meaning |
| Analyzer.PromptCarriesFields | mastodon_analyzer.py:225-260 | the prompt is the fixed template with content, author and instance inserted verbatim: each reads back at a fixed offset between the template's fixed pieces |
| Analyzer.ScamAnalyzer.AnalyzePost | mastodon_analyzer.py:173-223 | the empty-content error exactly when the post has no content, no other path giving it; `EmptyContentGuard`, `AnalysisAsksOnce` and `ServiceFailure` state the rest |
| Analyzer.ReadAnswer | mastodon_analyzer.py:197-223 | every error record is not suspicious, has confidence 0 and is not the empty-content error; the heuristic verdict has confidence 50, "unclear" and no red flags |
| Analyzer.EmptyContentGuard | mastodon_analyzer.py:187-193 | a post without content gets the fixed error verdict, whatever the chat service would answer |
| Analyzer.AnalysisAsksOnce | mastodon_analyzer.py:195-215 | the verdict depends on the service only through its answer to the one request: system message, prompt, temperature 0.1, 1000 tokens |
| Analyzer.ServiceFailure | mastodon_analyzer.py:217-223 | a failing service call gives "Analysis failed: " and its cause, without reaching the reply parser |

## Left out

- HTTP is an oracle: `requests.Session`, connection errors, timeouts and redirects are not modelled. Only the request (URL, `User-Agent`, timeout) and its outcome are.
- BeautifulSoup is an oracle: CSS-selector semantics and `get_text(strip=True)` are not modelled. A page is the answer per selector, and the `og:description` lookup.
- `BeautifulSoup(data.get('content', ''))` in the API path is folded into the `content` field of `StatusJson`, as its stripped text or as raising.
- JSON values of other types in the status reply (`null`, numbers) are not modelled. Reading such a field either yields text or raises.
- `json.loads` is an oracle. Exceptions other than `JSONDecodeError` raised while parsing (e.g. `RecursionError`) escape to `analyze_post` and become "Analysis failed". The model folds them into the chat-service oracle's error.
- A reply whose message content is `None` makes `re.search` raise `TypeError`, which `analyze_post` reports as "Analysis failed". This is also folded into the chat-service oracle's error.
- The OpenAI client construction (base URL, API key) is not modelled. Only the request it sends is.
- `ScamAnalyzer.AnalyzePost`: `post_data.get(..., '')` is not modelled. `PostRecord` always carries all five fields.
- `\d` is modelled as the ASCII digits. Python's `\d` on `str` also matches other Unicode decimal digits.
- `str.lower()` is modelled on ASCII letters only. No non-ASCII character lower-cases to a character sequence containing "suspicious" or "scam", so the verdict is unaffected.
- `Url.Netloc` does not model two checks `urlsplit` makes:
  - the validation of a bracketed IPv6 host (`_check_bracketed_netloc`);
  - the NFKC check on non-ASCII netlocs (`_checknetloc`).
  Both can raise `ValueError` for URLs the model accepts.
- `urlparse`'s scheme-less and `params` handling do not affect the netloc and are not modelled.
- The click CLI, dotenv loading and the text/JSON rendering of results are not modelled. They are terminal and environment glue.
- The error message that `extract_post_data` prints on failure is not modelled. It is terminal output.
- `test_analyzer.py` only prints. Its three example URLs are proved as lemmas (`PostId.MastodonSocialExample` and the two after it).
