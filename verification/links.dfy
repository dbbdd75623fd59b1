/** The link loop of `main`: every `<a href>` of the front page becomes a
    numbered link record, fragment links excepted. Reference resolution
    (`urljoin`, section 5.2 of RFC 3986) is a parameter. */
module Links {
  import opened Text
  import opened Dom

  /** The front page every relative link is resolved against. */
  const DrudgeUrl := "https://www.drudgereport.com/"

  /** `urljoin(base, href)`, supplied by the caller. */
  type UrlJoin = (string, string) -> string

  /** An `<a>` tag that has an `href` attribute, with its stripped text. */
  datatype Anchor = Anchor(href: string, text: string)

  /** The record pushed for a kept link (its type is `link`, its timestamp
      is not modelled). */
  datatype LinkRecord = LinkRecord(text: string, href: string, position: nat)

  /** `soup.find_all('a', href=True)` with `get_text(strip=True)`, in
      document order. */
  function AnchorsOf(doc: Document): (r: seq<Anchor>)
    ensures forall a :: a in r ==> exists e :: e in Elements(doc) && e.name == "a" && "href" in e.attrs
                                                 && a == Anchor(e.attrs["href"], GetText(e.children, ""))
  {
    AnchorsAmong(Elements(doc))
  }

  function AnchorsAmong(es: seq<Node>): (r: seq<Anchor>)
    ensures |r| <= |es|
    ensures forall a :: a in r ==> exists e :: e in es && e.Tag? && e.name == "a" && "href" in e.attrs
                                               && a == Anchor(e.attrs["href"], GetText(e.children, ""))
    decreases |es|
  {
    if es == [] then []
    else
      var rest := AnchorsAmong(es[1..]);
      var e := es[0];
      if e.Tag? && e.name == "a" && "href" in e.attrs
      then [Anchor(e.attrs["href"], GetText(e.children, ""))] + rest
      else rest
  }

  /** A same-page fragment link, skipped without consuming a position. */
  predicate IsFragment(href: string)
    ensures IsFragment(href) <==> href != [] && href[0] == '#'
  {
    StartsWith(href, "#")
  }

  /** Already absolute (or scheme-relative) links are kept verbatim. */
  predicate IsVerbatim(href: string)
    ensures IsVerbatim(href) ==> |href| >= 2 && (href[0] == 'h' || href[..2] == "//")
  {
    StartsWith(href, "http://") || StartsWith(href, "https://") || StartsWith(href, "//")
  }

  /** The two cases of the href split are disjoint. */
  lemma VerbatimIsNotFragment(href: string)
    requires IsVerbatim(href)
    ensures !IsFragment(href)
  {
    assert href[0] == href[..1][0];
    if StartsWith(href, "http://") {
      assert href[0] == "http://"[0];
    } else if StartsWith(href, "https://") {
      assert href[0] == "https://"[0];
    } else {
      assert href[0] == "//"[0];
    }
  }

  /** The href of a non-fragment link as emitted. */
  function AbsoluteHref(href: string, urljoin: UrlJoin): (r: string)
    requires !IsFragment(href)
    ensures IsVerbatim(href) ==> r == href
    ensures !IsVerbatim(href) ==> r == urljoin(DrudgeUrl, href)
  {
    if IsVerbatim(href) then href else urljoin(DrudgeUrl, href)
  }

  /** The emitted text: the link's own text, or a label naming its target
      when the text is empty. */
  function DisplayText(text: string, absolute: string): (r: string)
    ensures r != []
    ensures text != [] ==> r == text
    ensures text == [] ==> r == "[Link to " + absolute + "]"
  {
    if text != [] then text else "[Link to " + absolute + "]"
  }

  /** The anchors that produce a record, in document order. */
  function Kept(anchors: seq<Anchor>): (r: seq<Anchor>)
    ensures |r| <= |anchors|
    ensures forall k :: 0 <= k < |r| ==> !IsFragment(r[k].href)
    decreases |anchors|
  {
    if anchors == [] then []
    else
      var last := anchors[|anchors| - 1];
      Kept(anchors[..|anchors| - 1]) + (if IsFragment(last.href) then [] else [last])
  }

  /** Exactly the non-fragment anchors are kept. */
  lemma {:induction false} KeptIsFilter(anchors: seq<Anchor>)
    ensures forall a :: a in Kept(anchors) <==> a in anchors && !IsFragment(a.href)
    ensures |Kept(anchors)| == |anchors| ==> forall k :: 0 <= k < |anchors| ==> !IsFragment(anchors[k].href)
    decreases |anchors|
  {
    if anchors != [] {
      var init := anchors[..|anchors| - 1];
      KeptIsFilter(init);
      assert anchors == init + [anchors[|anchors| - 1]];
      if |Kept(anchors)| == |anchors| {
        assert !IsFragment(anchors[|anchors| - 1].href);
        assert |Kept(init)| == |init|;
      }
    }
  }

  /** Extending the anchors by one extends the kept ones by it, unless it
      is a fragment link. */
  lemma KeptStep(anchors: seq<Anchor>, i: nat)
    requires i < |anchors|
    ensures Kept(anchors[..i + 1]) == Kept(anchors[..i]) + (if IsFragment(anchors[i].href) then [] else [anchors[i]])
  {
    assert anchors[..i + 1][..i] == anchors[..i];
  }

  /** The record for the kept anchor numbered `position`. */
  function RecordFor(a: Anchor, position: nat, urljoin: UrlJoin): (r: LinkRecord)
    requires !IsFragment(a.href)
    ensures r.position == position
    ensures r.href == AbsoluteHref(a.href, urljoin)
    ensures r.text != []
    ensures a.text != [] ==> r.text == a.text
  {
    var absolute := AbsoluteHref(a.href, urljoin);
    LinkRecord(DisplayText(a.text, absolute), absolute, position)
  }

  /** The records of the kept anchors, numbered from 1. */
  function Numbered(kept: seq<Anchor>, urljoin: UrlJoin): (r: seq<LinkRecord>)
    requires forall k :: 0 <= k < |kept| ==> !IsFragment(kept[k].href)
    ensures |r| == |kept|
  {
    seq(|kept|, k requires 0 <= k < |kept| => RecordFor(kept[k], k + 1, urljoin))
  }

  lemma NumberedStep(kept: seq<Anchor>, a: Anchor, urljoin: UrlJoin)
    requires forall k :: 0 <= k < |kept| ==> !IsFragment(kept[k].href)
    requires !IsFragment(a.href)
    ensures Numbered(kept + [a], urljoin) == Numbered(kept, urljoin) + [RecordFor(a, |kept| + 1, urljoin)]
  {
  }

  /** What the numbered records say: one per kept anchor, positions 1..n
      in order, each with the resolved href and the display text. */
  lemma NumberedProperties(kept: seq<Anchor>, urljoin: UrlJoin)
    requires forall k :: 0 <= k < |kept| ==> !IsFragment(kept[k].href)
    ensures var records := Numbered(kept, urljoin);
            && |records| == |kept|
            && (forall k :: 0 <= k < |records| ==> records[k].position == k + 1)
            && (forall k :: 0 <= k < |records| ==>
                  records[k].href == AbsoluteHref(kept[k].href, urljoin)
                  && records[k].text == DisplayText(kept[k].text, records[k].href))
  {
  }

  /** One more anchor: a fragment adds no record, any other anchor adds
      its record with the next position. */
  lemma CollectStep(anchors: seq<Anchor>, i: nat, urljoin: UrlJoin)
    requires i < |anchors|
    ensures Numbered(Kept(anchors[..i + 1]), urljoin) ==
            Numbered(Kept(anchors[..i]), urljoin)
            + (if IsFragment(anchors[i].href) then []
               else [RecordFor(anchors[i], |Kept(anchors[..i])| + 1, urljoin)])
  {
    KeptStep(anchors, i);
    if !IsFragment(anchors[i].href) {
      NumberedStep(Kept(anchors[..i]), anchors[i], urljoin);
    }
  }

  /** The link loop as written. It yields exactly the numbered records of
      the kept anchors (see `NumberedProperties` for what they hold). */
  method CollectLinks(anchors: seq<Anchor>, urljoin: UrlJoin) returns (records: seq<LinkRecord>)
    ensures records == Numbered(Kept(anchors), urljoin)
  {
    records := [];
    var count := 0;
    var i := 0;
    while i < |anchors|
      invariant 0 <= i <= |anchors|
      invariant count == |records|
      invariant records == Numbered(Kept(anchors[..i]), urljoin)
    {
      CollectStep(anchors, i, urljoin);
      var href := anchors[i].href;
      var text := anchors[i].text;
      var absolute := href;
      var skip := false;
      if IsVerbatim(href) {
        VerbatimIsNotFragment(href);
      } else if IsFragment(href) {
        skip := true;
      } else {
        absolute := urljoin(DrudgeUrl, href);
      }
      if !skip {
        var position := count + 1;
        assert LinkRecord(DisplayText(text, absolute), absolute, position) == RecordFor(anchors[i], position, urljoin);
        records := records + [LinkRecord(DisplayText(text, absolute), absolute, position)];
        count := count + 1;
      }
      i := i + 1;
    }
    assert anchors[..i] == anchors;
  }

  /** A fragment link neither yields a record nor consumes a position: the
      records of a page are those of the same page without it. */
  lemma {:induction false} FragmentConsumesNoPosition(before: seq<Anchor>, frag: Anchor, after: seq<Anchor>)
    requires IsFragment(frag.href)
    ensures Kept(before + [frag] + after) == Kept(before + after)
    decreases |after|
  {
    if after == [] {
      assert (before + [frag] + after)[..|before + [frag] + after| - 1] == before;
      assert before + after == before;
    } else {
      var init := after[..|after| - 1];
      var last := after[|after| - 1];
      FragmentConsumesNoPosition(before, frag, init);
      assert (before + [frag] + after)[..|before + [frag] + after| - 1] == before + [frag] + init;
      assert (before + after)[..|before + after| - 1] == before + init;
      assert (before + [frag] + after)[|before + [frag] + after| - 1] == last;
      assert (before + after)[|before + after| - 1] == last;
    }
  }

  /** Example from the front page: `/news/x` is resolved against the base,
      an `https://` link is kept as is, and `#top` is skipped. */
  lemma ResolutionExample(urljoin: UrlJoin)
    ensures !IsFragment("/news/x") && AbsoluteHref("/news/x", urljoin) == urljoin(DrudgeUrl, "/news/x")
    ensures AbsoluteHref("https://example.com/a", urljoin) == "https://example.com/a"
    ensures AbsoluteHref("//cdn.example.com/a", urljoin) == "//cdn.example.com/a"
    ensures IsFragment("#top")
  {
    RelativeExample();
    VerbatimExamples();
  }

  lemma RelativeExample()
    ensures !IsFragment("/news/x") && !IsVerbatim("/news/x")
  {
    var h := "/news/x";
    assert h[..1] == "/";
    assert h[..2] == "/n";
    assert h[..7][0] == '/' && "http://"[0] == 'h';
  }

  lemma VerbatimExamples()
    ensures IsVerbatim("https://example.com/a") && IsVerbatim("//cdn.example.com/a")
    ensures IsFragment("#top")
  {
  }
}
