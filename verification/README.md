# Drudge Report scraper: the decision procedures of `src/main.py`

This project models the small decision procedures inside the Apify actor
that scrapes the Drudge Report front page. It also proves properties of
them. The actor's I/O (httpx requests, BeautifulSoup parsing, the OpenAI
client, the Apify dataset) becomes abstract inputs:

- an HTTP request's result is a `Fetch<T>`: a response with a status code
  and a payload, a transport failure (`httpx.RequestError`), or any other
  exception;
- a parsed page is a forest of `Node`s (text strings and tags with
  attributes and children);
- "CSS selector `sel` matches the tag at position k of the page" is a
  caller-supplied `Matcher`; it sees the whole page, so context selectors
  such as `a > b` are expressible;
- `urljoin` is a caller-supplied `UrlJoin`;
- the chat-completion service is a function from `Request` to `ApiOutcome`.

Modules, leaf first:

- `Wrappers`: `Option`.
- `Text`: Python's `str.strip()` (with the full `str.isspace()` set), `str.join`, `startswith`, substring `in` and `lower()`.
- `Dom`: document-order traversal, `get_text(separator, strip=True)`, `select_one`, `select`, `soup.body`, attribute lookup, and `decompose` of unwanted tags.
- `Http`: the fetch outcome, the `raise_for_status` rule (only 2xx passes) and httpx's case-insensitive header lookup, which joins repeated headers with `", "`.
- `Iframe`: `check_iframe_compatibility`.
- `Content`: `get_page_main_content`.
- `Story`: `generate_story_with_openai`.
- `Headlines`: the headline loop in `main`.
- `Links`: the link loop in `main`.
- `FrontPage`: stage one of `main`, which runs both loops and pushes nothing when the page fetch fails.

Facts about the code that a reader might not expect:

- No link is excluded by keyword or hostname: every `<a href>` is recorded (`src/main.py:170`).
- Scheme-relative `//host/...` hrefs are kept verbatim, so not every emitted link is fully qualified (`src/main.py:177-178`). Every other non-`http(s)` href, such as `mailto:` or `HTTP://`, goes to `urljoin`.
- The empty-text label names the resolved href, not the raw one (`src/main.py:188`).
- `main` never calls the three helpers, and a missing API key only logs (`src/main.py:137-139`). So the helpers are modelled standalone.
- Links are not de-duplicated; only headline texts are.
- The story helper returns plain strings: the story or a sentinel.
- The `soup.body` fallback (`src/main.py:75`) never yields text: `body` is the last content selector, so the fallback is reached only when the page has no `body` tag (`Content.BodyFallbackUnreached`). The model keeps the branch, since the matcher is a parameter.

A consequence worth knowing: httpx joins repeated headers. Two `X-Frame-Options: DENY` headers therefore read as `deny, deny`, which the rule does not recognise, and the page is judged embeddable (`Iframe.RepeatedDenyIsNotRecognised`).

## Model

| member | source | states |
|---|---|---|
| `Iframe.CheckIframeCompatibility` | src/main.py:15-47 | True only for a 2xx response; any HTTP status error, transport error or other exception gives False (fails closed); a blocking X-Frame-Options always gives False |
| `Iframe.HeaderRule` | src/main.py:25-34 | For a 2xx probe: embeddable exactly when the lower-cased X-Frame-Options (missing = `''`) is neither `deny` nor `sameorigin` and the CSP (missing = `''`) contains neither `frame-ancestors 'none'` nor `frame-ancestors 'src'` at any position; the outer `frame-ancestors` guard is redundant |
| `Iframe.NoHeadersIsEmbeddable` | src/main.py:46-47 | A successful probe with neither header is judged embeddable |
| `Iframe.SameOriginBlocksRegardlessOfCsp` | src/main.py:25-28 | A single X-Frame-Options `SAMEORIGIN`, under any letter case of the header name, blocks whatever other headers, CSP included, are present |
| `Iframe.RepeatedDenyIsNotRecognised` | src/main.py:25-26 | Two `DENY` X-Frame-Options headers are joined to `deny, deny` and do not block |
| `Http.HeaderGet` | src/main.py:25 | A header lookup yields the default when the header is absent and the value itself when it occurs once |
| `Http.HeaderGetJoins` | src/main.py:25 | A header present in two groups of headers reads as the first group's value, `", "`, then the second's; with `Http.ValuesOfAppend` this gives the `", "` join of any number of repeats |
| `Http.ValuesOfAppend` | src/main.py:25 | Repeated header values are collected in the order the headers arrived |
| `Http.ValuesOfOne` | src/main.py:25 | One header contributes its value exactly when its name equals the requested one ignoring case |
| `Http.IsSuccess` | src/main.py:23 | `raise_for_status` lets exactly the 2xx statuses through (those whose hundreds digit is 2) |
| `Iframe.XfoForbids` | src/main.py:25-26 | A blocking X-Frame-Options verdict needs the header to be present |
| `Iframe.CspForbids` | src/main.py:30-32 | A blocking CSP verdict needs a Content-Security-Policy header to be present |
| `Content.GetPageMainContent` | src/main.py:49-85 | Any non-2xx status, transport error or other failure gives `""`; a 2xx response gives exactly the text extracted from its parsed page; every result has no surrounding whitespace |
| `Content.FirstSelected` | src/main.py:61-69 | Finds the first selector in the fixed list whose `select_one` finds a tag; every earlier selector finds none, and no selector at all finds one exactly when it returns nothing |
| `Content.FirstMatchWins` | src/main.py:67-73 | When selector k is the first that matches, the text is that element's text after pruning, and no `script/style/nav/footer/header/aside` tag remains in what is read |
| `Content.LaterSelectorsIgnored` | src/main.py:67-73 | Two selector relations that agree up to the first matching selector give the same text, so later selectors are never consulted |
| `Content.NoMatchNoBodyIsEmpty` | src/main.py:75 | No selector matches and no body exists: the result is `""`, not an error |
| `Content.BodyFallbackUnreached` | src/main.py:61-75 | When `body` is matched by tag name, as `select_one('body')` and `soup.body` both do, reaching the fallback means there is no body |
| `Content.CleanTextExample` | src/main.py:71-73 | `<article><p>Story</p><script>x</script></article>` reads as `Story`: the script goes and the paragraph stays |
| `Content.ReadableTextIsKept` | src/main.py:71-73 | Any non-blank string left in the chosen element after pruning makes the result non-empty |
| `Content.CleanText` | src/main.py:71-73 | The text of an element after decomposing the unwanted tags has no surrounding whitespace |
| `Content.ExtractMainText` | src/main.py:58-75 | The text extracted from a parsed page never has surrounding whitespace |
| `Dom.GetText` | src/main.py:73 | `get_text(separator, strip=True)` has no surrounding whitespace |
| `Dom.GetTextEmptyIff` | src/main.py:73 | `get_text(separator, strip=True)` is empty exactly when every text string inside is blank |
| `Dom.StrippedStringsAreStripped` | src/main.py:73 | With `strip=True` every reported string is non-empty and has no surrounding whitespace |
| `Dom.StrippedStringsEmpty` | src/main.py:73 | With `strip=True` nothing is reported exactly when every text string is blank |
| `Dom.StrippedStrings` | src/main.py:73 | With `strip=True` each text string yields at most one piece |
| `Dom.Elements` | src/main.py:68 | The tags of a page in document (pre-)order, BeautifulSoup's `descendants` without the strings: every entry is a tag |
| `Dom.ElementsAppend` | src/main.py:68 | The tags of two forests side by side are those of the first, then those of the second |
| `Dom.Strings` | src/main.py:73 | The text strings of a forest in document order, as `get_text` walks them; `Dom.StringsAppend` and `Dom.NodeLeaf` are its laws and together fix it |
| `Dom.NodeLeaf` | src/main.py:73 | A string has no tags and is its own only string; a tag comes before its children's tags and has its children's strings |
| `Dom.StringsAppend` | src/main.py:73 | The text strings of two forests side by side are those of the first, then those of the second |
| `Dom.StrippedStringsAppend` | src/main.py:73 | Stripped strings of two consecutive runs of strings are those of the first run, then those of the second |
| `Dom.GetTextAppend` | src/main.py:73 | The text of two forests side by side is the first's text, the separator only when both texts are non-empty, then the second's text |
| `Dom.GetTextLeaf` | src/main.py:73 | The text of a single string is that string stripped; the text of a tag is the text of its children; no nodes give `""` |
| `Dom.Attr` | src/main.py:157 | `element.get(name)` is present exactly when the node is a tag carrying that attribute, and then is its value |
| `Dom.Prune` | src/main.py:71-72 | Decomposing never adds nodes and leaves no unwanted tag at the top level; with `Dom.PruneAppend` and `Dom.PruneOne` it removes exactly the unwanted subtrees and keeps everything else |
| `Dom.PruneAppend` | src/main.py:71-72 | Decomposing works node by node: a forest split in two is pruned as its two halves are |
| `Dom.PruneOne` | src/main.py:71-72 | A text string is kept; an unwanted tag disappears with all it contains; any other tag is kept, attributes included, with its own children pruned |
| `Dom.PruneRemovesUnwanted` | src/main.py:71-72 | After `decompose`, no tag with an unwanted name is left anywhere below the element |
| `Dom.PruneIdentity` | src/main.py:71-72 | Pruning changes the element exactly when it contains an unwanted tag |
| `Dom.SelectOne` | src/main.py:68 | `select_one` returns the first matching tag in document order (no earlier tag matches), or nothing exactly when no tag matches |
| `Dom.MatchPositions` | src/main.py:155 | The matching positions of the page, strictly increasing, each one matching and every match listed |
| `Dom.SelectAll` | src/main.py:155 | `select` returns the tags at exactly the matching positions, in document order, at most one per tag of the page |
| `Dom.Body` | src/main.py:75 | `soup.body` is the first `body` tag in document order, absent exactly when there is none |
| `Text.Strip` | src/main.py:115 | `strip()` returns a string with no surrounding whitespace, no longer than its input |
| `Text.StripIsInfix` | src/main.py:115 | `strip()` returns a contiguous piece of its input, and everything cut off on either side is whitespace |
| `Text.StripEmptyIffAllSpace` | src/main.py:158 | A stripped text is empty exactly when the original is all whitespace |
| `Text.StripIdempotent` | src/main.py:115 | Stripping an already stripped string changes nothing |
| `Text.Join` | src/main.py:73 | `sep.join(parts)`: no parts give `""`, one part gives itself |
| `Text.JoinAppend` | src/main.py:73 | Joining two non-empty lists of pieces is joining each, with one separator between |
| `Text.JoinStripped` | src/main.py:73 | Joining non-empty stripped pieces gives a stripped string that is empty exactly when there are no pieces |
| `Text.ContainsIffOccurs` | src/main.py:31-32 | Python's substring `in` holds exactly when the pattern occurs at some position |
| `Text.Contains` | src/main.py:31-32 | The empty pattern is in every string; a pattern longer than the string is in none |
| `Text.StartsWith` | src/main.py:177-179 | `startswith(p)` holds exactly when `p` occurs at position 0 |
| `Text.ToLower` | src/main.py:25 | `lower()` leaves no ASCII capital and changes only ASCII capitals, each into its small letter |
| `Text.ToLowerIdempotent` | src/main.py:25 | Lower-casing twice is lower-casing once |
| `Story.GenerateStory` | src/main.py:87-128 | Empty input gives `[No content to summarize/generate story from]` |
| `Story.EmptyInputMakesNoCall` | src/main.py:91-92 | On empty input the result is the sentinel whatever the service would answer, so no call is made |
| `Story.OneCallPerText` | src/main.py:94-115 | Non-empty input: the result depends on the service only through its answer to the one request built from the text |
| `Story.Prompt` | src/main.py:97-103 | The prompt is the fixed instructions followed by the whole text (at most 8000 characters) or exactly its first 8000 characters |
| `Story.TruncationBoundary` | src/main.py:102 | Text of 8000 characters or fewer is sent unmodified; longer text is cut to exactly 8000 |
| `Story.TailIsNeverSent` | src/main.py:102 | Two texts sharing their first 8000 characters produce the same request |
| `Story.RequestFor` | src/main.py:106-110 | The request is the fixed system message followed by the user prompt |
| `Story.Truncate` | src/main.py:102 | `text[:n]` is a prefix of at most n characters, the whole text when it fits, exactly n otherwise |
| `Story.Interpret` | src/main.py:115-128 | Connection error gives the connection sentinel; rate limit gives the rate-limit sentinel although it is also a status error; any other status error gives `[OpenAI API error]` |
| `Story.OutcomeMapping` | src/main.py:105-128 | Full mapping: a reply gives its stripped first message; a reply with no choice or no content gives the generic sentinel; each exception class gives its own sentinel |
| `Links.AbsoluteHref` | src/main.py:176-182 | `http://`, `https://` and `//` hrefs are kept verbatim; every other non-fragment href becomes `urljoin(base, href)` |
| `Links.DisplayText` | src/main.py:188 | Emitted link text is never empty: the link's own text, or `[Link to <resolved href>]` |
| `Links.IsFragment` | src/main.py:179 | An href is skipped exactly when its first character is `#` |
| `Links.IsVerbatim` | src/main.py:177 | A verbatim href has at least two characters and starts with `h` or `//` |
| `Links.Kept` | src/main.py:179-180 | The kept anchors are no more than the anchors and none has a fragment href |
| `Links.RecordFor` | src/main.py:182-192 | A record carries the given position, the resolved href, and a non-empty text equal to the link's own text when that is non-empty |
| `Links.Numbered` | src/main.py:184-193 | One record per kept anchor |
| `Links.KeptIsFilter` | src/main.py:179-180 | Exactly the anchors whose href does not start with `#` produce records |
| `Links.FragmentConsumesNoPosition` | src/main.py:179-180 | Inserting a fragment anchor anywhere changes no record and no position |
| `Links.CollectLinks` | src/main.py:171-193 | The loop, with its three-way href split and running counter, yields exactly the reference records: the kept anchors in document order, the k-th numbered k |
| `Links.NumberedProperties` | src/main.py:176-193 | One record per kept anchor; positions run 1..n contiguously; each record carries the resolved href and the display text |
| `Links.ResolutionExample` | src/main.py:176-182 | `/news/x` goes through `urljoin` with the front-page URL; `https://` and `//` links stay as written; `#top` is a fragment |
| `Links.AnchorsOf` | src/main.py:172-174 | Every anchor comes from an `<a>` tag with an `href`, with that tag's stripped text |
| `Headlines.HeadlineOf` | src/main.py:156-157 | A headline has an href exactly when the matched tag has an `href` attribute |
| `Headlines.Candidates` | src/main.py:154-155 | At most one candidate per selector and tag of the page |
| `Headlines.FirstOccurrencesLength` | src/main.py:158-165 | First-occurrence selection never emits more than it visits |
| `Headlines.CandidatesMembers` | src/main.py:154-155 | The visited elements are exactly the matches of the headline selectors |
| `Headlines.FirstOccurrencesProperties` | src/main.py:158-165 | First-occurrence selection emits only non-empty candidate texts, never one twice, and every non-empty candidate text |
| `Headlines.EmitHeadlines` | src/main.py:151-165 | The nested loop emits exactly the first occurrences (selector order, then document order); the seen-set equals the set of emitted texts; no text twice; every non-empty candidate text is seen |
| `Headlines.EmitMatches` | src/main.py:155-165 | The inner loop extends the emitted sequence and seen-set exactly as first-occurrence selection does over the matches |
| `FrontPage.ScrapeFrontPage` | src/main.py:141-202 | A failed page fetch pushes nothing; otherwise the de-duplicated headlines come first, then the link records of the kept anchors, numbered from 1 |

## Left out

- Apify `Actor` lifecycle, `Actor.push_data` as I/O, timestamps (`datetime.now`), logging and `asyncio`: platform glue. Pushed records are returned as sequences.
- Environment lookup of `OPENAI_API_KEY`: it only logs and gates nothing.
- httpx timeouts and redirect following: each request is represented only by its outcome. The front-page fetch does not follow redirects, so a 3xx there is an HTTP status error.
- The BeautifulSoup parser and its CSS selector engine: the tree and the "selector matches" relation are inputs. Comments, doctype and similar non-text strings are not part of the tree. Whether `get_text` reports strings inside `script` and `style` (and, in recent versions, `template`, `rt` and `rp`) depends on the BeautifulSoup version; the model reports every text string. This affects the `soup.body` fallback (`src/main.py:75`), which does not prune, and the headline and anchor texts (`src/main.py:156`, `src/main.py:174`), which are read from the unpruned page.
- `urljoin` internals (reference resolution, section 5.2 of RFC 3986): the function is a parameter.
- OpenAI client internals, model name, temperature and `max_tokens`: foreign-call parameters. The service's answer is an input.
- `Story.GenerateStory`: the OpenAI client is built at `src/main.py:94`, before the `try`. A constructor failure (for example no key passed and no `OPENAI_API_KEY` in the environment) propagates as an exception instead of giving a sentinel. The model assumes construction succeeds.
- `initial_drudge_links`: the list is built but never read, so only the pushed records are modelled.
- `Text.ToLower`: lower-cases ASCII letters only, while Python's `lower()` is full Unicode. For the comparison with `deny` and `sameorigin` this makes no difference, because no non-ASCII character lower-cases to those ASCII letters.
- `Links.AnchorsOf`: states only that every anchor comes from an `<a href>` tag. Completeness and order follow from its definition as a document-order filter, but are not stated as a contract.
- Exceptions raised midway through stage one (for example by `push_data`) after some records were pushed are not modelled.
