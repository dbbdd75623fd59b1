/** `get_page_main_content`: fetch a page, pick its main content element by
    an ordered list of CSS selectors, drop boilerplate tags inside it and
    return its visible text. */
module Content {
  import opened Wrappers
  import opened Text
  import opened Dom
  import opened Http

  /** Tried in this order; `body` is the last resort. */
  const ContentSelectors: seq<string> := [
    "article", "main", ".main-content", "#main-content", ".article-body",
    "div[role=\"main\"]", "div.story-content", "div.entry-content",
    "div.post-content", "div.content-body", "body"
  ]

  /** Tags removed, with their contents, from the chosen element. */
  const UnwantedTags: set<string> := {"script", "style", "nav", "footer", "header", "aside"}

  /** The first selector of `sels` that matches some tag of `doc`, with its
      position in `sels` and the tag `select_one` returns for it. */
  function FirstSelected(doc: Document, sels: seq<string>, matches: Matcher): (r: Option<(nat, Node)>)
    ensures r.Some? ==> r.value.0 < |sels| && SelectOne(doc, sels[r.value.0], matches) == Some(r.value.1)
    ensures r.Some? ==> forall j :: 0 <= j < r.value.0 ==> SelectOne(doc, sels[j], matches).None?
    ensures r.None? <==> forall j :: 0 <= j < |sels| ==> SelectOne(doc, sels[j], matches).None?
  {
    FirstSelectedFrom(doc, sels, matches, 0)
  }

  /** `FirstSelected` among the selectors from position `i` on. */
  function FirstSelectedFrom(doc: Document, sels: seq<string>, matches: Matcher, i: nat): (r: Option<(nat, Node)>)
    requires i <= |sels|
    ensures r.Some? ==> i <= r.value.0 < |sels| && SelectOne(doc, sels[r.value.0], matches) == Some(r.value.1)
    ensures r.Some? ==> forall j :: i <= j < r.value.0 ==> SelectOne(doc, sels[j], matches).None?
    ensures r.None? <==> forall j :: i <= j < |sels| ==> SelectOne(doc, sels[j], matches).None?
    decreases |sels| - i
  {
    if i == |sels| then None
    else
      match SelectOne(doc, sels[i], matches)
      case Some(e) => Some((i, e))
      case None => FirstSelectedFrom(doc, sels, matches, i + 1)
  }

  /** The text of a chosen element after its unwanted descendants are
      removed. */
  function CleanText(e: Node): (r: string)
    requires e.Tag?
    ensures IsStripped(r)
  {
    GetText(Prune(e.children, UnwantedTags), " ")
  }

  /** The text extracted from a parsed page. */
  function ExtractMainText(doc: Document, matches: Matcher): (r: string)
    ensures IsStripped(r)
  {
    match FirstSelected(doc, ContentSelectors, matches)
    case Some((_, e)) => CleanText(e)
    case None =>
      match Body(doc)
      case Some(b) => GetText(b.children, " ")
      case None => ""
  }

  /** `get_page_main_content(url)` given what fetching the URL produced:
      any HTTP status error, transport error or other failure gives the
      empty string. */
  function GetPageMainContent(fetched: Fetch<Document>, matches: Matcher): (r: string)
    ensures IsStripped(r)
    ensures !(fetched.Response? && IsSuccess(fetched.status)) ==> r == ""
    ensures fetched.Response? && IsSuccess(fetched.status) ==> r == ExtractMainText(fetched.payload, matches)
  {
    match fetched
    case Response(status, doc) =>
      if IsSuccess(status) then ExtractMainText(doc, matches) else ""
    case TransportFailure => ""
    case OtherFailure => ""
  }

  /** The first selector that matches wins: the text comes from the element
      it selects, with no unwanted tag left inside, and no earlier selector
      matched anything. */
  lemma FirstMatchWins(doc: Document, matches: Matcher, k: nat)
    requires k < |ContentSelectors|
    requires SelectOne(doc, ContentSelectors[k], matches).Some?
    requires forall j :: 0 <= j < k ==> SelectOne(doc, ContentSelectors[j], matches).None?
    ensures var e := SelectOne(doc, ContentSelectors[k], matches).value;
            ExtractMainText(doc, matches) == GetText(Prune(e.children, UnwantedTags), " ")
            && NoTagNamed(Prune(e.children, UnwantedTags), UnwantedTags)
  {
    var r := FirstSelected(doc, ContentSelectors, matches);
    assert r.Some? && r.value.0 == k;
    PruneRemovesUnwanted(SelectOne(doc, ContentSelectors[k], matches).value.children, UnwantedTags);
  }

  /** Later selectors are never consulted: two matchers that agree on the
      selectors up to and including the first matching one give the same
      text, whatever they say about the rest. */
  lemma LaterSelectorsIgnored(doc: Document, m1: Matcher, m2: Matcher, k: nat)
    requires k < |ContentSelectors|
    requires SelectOne(doc, ContentSelectors[k], m1).Some?
    requires forall j, p :: 0 <= j <= k ==> m1(ContentSelectors[j], doc, p) == m2(ContentSelectors[j], doc, p)
    ensures ExtractMainText(doc, m1) == ExtractMainText(doc, m2)
  {
    forall j | 0 <= j <= k
      ensures SelectOne(doc, ContentSelectors[j], m1) == SelectOne(doc, ContentSelectors[j], m2)
    {
      SelectOneAgrees(doc, ContentSelectors[j], m1, m2);
    }
    FirstSelectedAgrees(doc, ContentSelectors, m1, m2, 0, k);
  }

  /** The search from position `i` stops at or before `k`, where `m1`
      matches, so it gives the same answer under any `m2` whose `select_one`
      agrees on positions `i..k`. */
  lemma {:induction false} FirstSelectedAgrees(doc: Document, sels: seq<string>, m1: Matcher, m2: Matcher, i: nat, k: nat)
    requires i <= k < |sels|
    requires SelectOne(doc, sels[k], m1).Some?
    requires forall j :: i <= j <= k ==> SelectOne(doc, sels[j], m1) == SelectOne(doc, sels[j], m2)
    ensures FirstSelectedFrom(doc, sels, m1, i) == FirstSelectedFrom(doc, sels, m2, i)
    decreases k - i
  {
    if SelectOne(doc, sels[i], m1).None? {
      FirstSelectedAgrees(doc, sels, m1, m2, i + 1, k);
    }
  }

  /** `select_one` depends only on what the matcher says about `sel` on
      this page. */
  lemma SelectOneAgrees(doc: Document, sel: string, m1: Matcher, m2: Matcher)
    requires forall p :: m1(sel, doc, p) == m2(sel, doc, p)
    ensures SelectOne(doc, sel, m1) == SelectOne(doc, sel, m2)
  {
    FirstMatchAgrees(doc, sel, m1, m2, 0);
  }

  lemma {:induction false} FirstMatchAgrees(doc: Document, sel: string, m1: Matcher, m2: Matcher, i: nat)
    requires i <= |Elements(doc)|
    requires forall p :: m1(sel, doc, p) == m2(sel, doc, p)
    ensures FirstMatch(doc, sel, m1, i) == FirstMatch(doc, sel, m2, i)
    decreases |Elements(doc)| - i
  {
    if i < |Elements(doc)| {
      FirstMatchAgrees(doc, sel, m1, m2, i + 1);
    }
  }

  /** `<article><p>Story</p><script>x</script></article>`: the script goes,
      the paragraph stays, and the text is `Story`. */
  lemma CleanTextExample()
    ensures CleanText(Tag("article", map[], [Tag("p", map[], [Str("Story")]), Tag("script", map[], [Str("x")])])) == "Story"
  {
    var p := Tag("p", map[], [Str("Story")]);
    ExamplePruned();
    GetTextLeaf("Story", p, " ");
    StripIdempotent("Story");
    assert GetText([p], " ") == GetText([Str("Story")], " ");
  }

  /** Decomposing the example's children keeps the paragraph as it is. */
  lemma ExamplePruned()
    ensures Prune([Tag("p", map[], [Str("Story")]), Tag("script", map[], [Str("x")])], UnwantedTags)
            == [Tag("p", map[], [Str("Story")])]
  {
    var p := Tag("p", map[], [Str("Story")]);
    var script := Tag("script", map[], [Str("x")]);
    assert [p, script] == [p] + [script];
    PruneAppend([p], [script], UnwantedTags);
    assert "script" in UnwantedTags && "p" !in UnwantedTags;
    PruneOne(p, UnwantedTags);
    PruneOne(script, UnwantedTags);
    PruneOne(Str("Story"), UnwantedTags);
  }

  /** When `body` is matched by tag name, as `select_one('body')` and
      `soup.body` both do, the fallback to `soup.body` never finds a body:
      reaching it means the last selector found none. */
  lemma BodyFallbackUnreached(doc: Document, matches: Matcher)
    requires forall p :: matches("body", doc, p) == NamedTag("body", doc, p)
    requires FirstSelected(doc, ContentSelectors, matches).None?
    ensures Body(doc).None?
  {
    assert ContentSelectors[|ContentSelectors| - 1] == "body";
    SelectOneAgrees(doc, "body", matches, NamedTag);
  }

  /** A page on which no selector matches and which has no body yields the
      empty string, not an error. */
  lemma NoMatchNoBodyIsEmpty(doc: Document, matches: Matcher)
    requires forall j :: 0 <= j < |ContentSelectors| ==> SelectOne(doc, ContentSelectors[j], matches).None?
    requires Body(doc).None?
    ensures GetPageMainContent(Response(200, doc), matches) == ""
  {
  }

  /** A page whose chosen element holds readable text outside the unwanted
      tags yields a non-empty result. */
  lemma ReadableTextIsKept(doc: Document, matches: Matcher, k: nat, i: nat)
    requires k < |ContentSelectors|
    requires SelectOne(doc, ContentSelectors[k], matches).Some?
    requires forall j :: 0 <= j < k ==> SelectOne(doc, ContentSelectors[j], matches).None?
    requires i < |Strings(Prune(SelectOne(doc, ContentSelectors[k], matches).value.children, UnwantedTags))|
    requires !AllSpace(Strings(Prune(SelectOne(doc, ContentSelectors[k], matches).value.children, UnwantedTags))[i])
    ensures ExtractMainText(doc, matches) != ""
  {
    FirstMatchWins(doc, matches, k);
    GetTextEmptyIff(Prune(SelectOne(doc, ContentSelectors[k], matches).value.children, UnwantedTags), " ");
  }
}
