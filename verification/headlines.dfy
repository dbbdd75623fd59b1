/** The headline loop of `main`: the headline selectors are tried in order,
    each one's matches in document order, and each headline text is
    emitted at its first non-empty occurrence only. */
module Headlines {
  import opened Wrappers
  import opened Dom

  const HeadlineSelectors: seq<string> := ["a > b", "font[size=\"+2\"] a", "font[size=\"+1\"] a", "a b"]

  /** A pushed headline record (its type is `headline`, its timestamp is
      not modelled). `href` is absent when the matched tag has none, as for
      the `<b>` inside a link. */
  datatype Headline = Headline(text: string, href: Option<string>)

  function ChildrenOf(n: Node): seq<Node> {
    if n.Tag? then n.children else []
  }

  /** `element.get_text(strip=True)` and `element.get('href')`. */
  function HeadlineOf(e: Node): (r: Headline)
    ensures r.href.Some? <==> e.Tag? && "href" in e.attrs
  {
    Headline(GetText(ChildrenOf(e), ""), Attr(e, "href"))
  }

  function HeadlinesOf(es: seq<Node>): (r: seq<Headline>)
    ensures |r| == |es|
    ensures forall k :: 0 <= k < |es| ==> r[k] == HeadlineOf(es[k])
  {
    seq(|es|, k requires 0 <= k < |es| => HeadlineOf(es[k]))
  }

  /** Every candidate in visiting order: all matches of the first selector
      in document order, then all of the second, and so on. */
  function Candidates(doc: Document, sels: seq<string>, matches: Matcher): (r: seq<Headline>)
    ensures |r| <= |sels| * |Elements(doc)|
    decreases |sels|
  {
    if sels == [] then []
    else
      var init := sels[..|sels| - 1];
      assert |sels| * |Elements(doc)| == |init| * |Elements(doc)| + |Elements(doc)|;
      Candidates(doc, init, matches) + HeadlinesOf(SelectAll(doc, sels[|sels| - 1], matches))
  }

  /** Visiting one more selector appends the headlines of its matches. */
  lemma CandidatesStep(doc: Document, sels: seq<string>, s: nat, matches: Matcher)
    requires s < |sels|
    ensures Candidates(doc, sels[..s + 1], matches) ==
            Candidates(doc, sels[..s], matches) + HeadlinesOf(SelectAll(doc, sels[s], matches))
  {
    assert sels[..s + 1][..s] == sels[..s];
  }

  /** The candidates are the headlines of exactly the tags some headline
      selector matches. */
  lemma {:induction false} CandidatesMembers(doc: Document, sels: seq<string>, matches: Matcher, h: Headline)
    ensures h in Candidates(doc, sels, matches) <==>
              exists k :: 0 <= k < |sels| && h in HeadlinesOf(SelectAll(doc, sels[k], matches))
    decreases |sels|
  {
    if sels != [] {
      var init := sels[..|sels| - 1];
      var lastSel := sels[|sels| - 1];
      var tail := HeadlinesOf(SelectAll(doc, lastSel, matches));
      CandidatesMembers(doc, init, matches, h);
      assert Candidates(doc, sels, matches) == Candidates(doc, init, matches) + tail;
      if h in Candidates(doc, init, matches) {
        var k :| 0 <= k < |init| && h in HeadlinesOf(SelectAll(doc, init[k], matches));
        assert sels[k] == init[k];
      } else if h in tail {
        assert h in HeadlinesOf(SelectAll(doc, sels[|sels| - 1], matches));
      } else {
        forall k | 0 <= k < |sels|
          ensures h !in HeadlinesOf(SelectAll(doc, sels[k], matches))
        {
          if k < |init| {
            assert sels[k] == init[k];
          }
        }
      }
    }
  }

  /** The texts of the candidates, in a set. */
  function TextsOf(cands: seq<Headline>): set<string>
    decreases |cands|
  {
    if cands == [] then {}
    else TextsOf(cands[..|cands| - 1]) + {cands[|cands| - 1].text}
  }

  /** The texts that occur non-empty among the candidates. */
  function NonEmptyTexts(cands: seq<Headline>): set<string> {
    TextsOf(cands) - {""}
  }

  /** `TextsOf` holds exactly the texts that occur. */
  lemma {:induction false} TextsOfMembers(cands: seq<Headline>)
    ensures forall t :: t in TextsOf(cands) <==> exists k :: 0 <= k < |cands| && cands[k].text == t
    decreases |cands|
  {
    if cands != [] {
      var init := cands[..|cands| - 1];
      TextsOfMembers(init);
      assert forall k :: 0 <= k < |init| ==> init[k] == cands[k];
    }
  }

  lemma {:induction false} TextsOfAppend(a: seq<Headline>, b: seq<Headline>)
    ensures TextsOf(a + b) == TextsOf(a) + TextsOf(b)
    decreases |b|
  {
    if b == [] {
      assert a + b == a;
    } else {
      TextsOfAppend(a, b[..|b| - 1]);
      assert (a + b)[..|a + b| - 1] == a + b[..|b| - 1];
    }
  }

  /** Reference definition: a candidate is emitted when its text is
      non-empty and no earlier candidate had the same text (see
      `TextsOfMembers` for the reading of `TextsOf`). */
  function FirstOccurrences(cands: seq<Headline>): (r: seq<Headline>)
    decreases |cands|
  {
    if cands == [] then []
    else
      var init := cands[..|cands| - 1];
      var last := cands[|cands| - 1];
      FirstOccurrences(init)
      + (if last.text != "" && last.text !in TextsOf(init) then [last] else [])
  }

  /** First-occurrence selection never emits more than it visits. */
  lemma {:induction false} FirstOccurrencesLength(cands: seq<Headline>)
    ensures |FirstOccurrences(cands)| <= |cands|
    decreases |cands|
  {
    if cands != [] {
      FirstOccurrencesLength(cands[..|cands| - 1]);
    }
  }

  /** The last step of the reference: the last candidate is emitted
      exactly when its text is new and non-empty. */
  lemma FirstOccurrencesLast(init: seq<Headline>, last: Headline)
    ensures FirstOccurrences(init + [last]) ==
            FirstOccurrences(init) + (if last.text != "" && last.text !in TextsOf(init) then [last] else [])
  {
    assert (init + [last])[..|init|] == init;
  }

  /** Everything the reference emits is a candidate with non-empty text. */
  lemma {:induction false} FirstOccurrencesAreCandidates(cands: seq<Headline>)
    ensures forall k :: 0 <= k < |FirstOccurrences(cands)| ==>
              FirstOccurrences(cands)[k].text != "" && FirstOccurrences(cands)[k] in cands
    decreases |cands|
  {
    if cands != [] {
      var init := cands[..|cands| - 1];
      var last := cands[|cands| - 1];
      FirstOccurrencesAreCandidates(init);
      assert cands == init + [last];
      FirstOccurrencesLast(init, last);
    }
  }

  /** Set arithmetic of one step: adding a new non-empty text to both
      sides, or a text already present or empty to one side only, keeps
      the non-empty parts equal. */
  lemma NonEmptyStep(emittedTexts: set<string>, candTexts: set<string>, t: string, emit: bool)
    requires emittedTexts - {""} == candTexts - {""}
    requires emit <==> (t != "" && t !in candTexts)
    ensures (if emit then emittedTexts + {t} else emittedTexts) - {""} == (candTexts + {t}) - {""}
  {
    var left := (if emit then emittedTexts + {t} else emittedTexts) - {""};
    var right := (candTexts + {t}) - {""};
    forall x | x in right
      ensures x in left
    {
      if x != t {
        assert x in candTexts - {""};
      } else if !emit {
        assert x in candTexts - {""};
      }
    }
    forall x | x in left
      ensures x in right
    {
      if x != t {
        assert x in emittedTexts - {""};
      }
    }
  }

  /** The reference emits every non-empty candidate text. */
  lemma {:induction false} FirstOccurrencesTexts(cands: seq<Headline>)
    ensures NonEmptyTexts(FirstOccurrences(cands)) == NonEmptyTexts(cands)
    decreases |cands|
  {
    if cands != [] {
      var init := cands[..|cands| - 1];
      var last := cands[|cands| - 1];
      FirstOccurrencesTexts(init);
      var prev := FirstOccurrences(init);
      var emit := last.text != "" && last.text !in TextsOf(init);
      var added: seq<Headline> := if emit then [last] else [];
      assert FirstOccurrences(cands) == prev + added;
      TextsOfAppend(prev, added);
      assert TextsOf(added) == if emit then {last.text} else {};
      assert TextsOf(cands) == TextsOf(init) + {last.text};
      NonEmptyStep(TextsOf(prev), TextsOf(init), last.text, emit);
    }
  }

  /** The reference never emits a text twice. */
  lemma {:induction false} FirstOccurrencesDistinct(cands: seq<Headline>)
    ensures forall i, j :: 0 <= i < j < |FirstOccurrences(cands)| ==>
              FirstOccurrences(cands)[i].text != FirstOccurrences(cands)[j].text
    decreases |cands|
  {
    if cands != [] {
      var init := cands[..|cands| - 1];
      var last := cands[|cands| - 1];
      FirstOccurrencesDistinct(init);
      assert cands == init + [last];
      FirstOccurrencesLast(init, last);
      var prev := FirstOccurrences(init);
      var out := FirstOccurrences(cands);
      if last.text != "" && last.text !in TextsOf(init) {
        FirstOccurrencesTexts(init);
        TextsOfMembers(prev);
        assert out == prev + [last];
        forall i, j | 0 <= i < j < |out|
          ensures out[i].text != out[j].text
        {
          assert out[i] == prev[i];
          if j == |prev| {
            assert prev[i].text in TextsOf(prev);
            assert prev[i].text == "" || prev[i].text in NonEmptyTexts(init);
          } else {
            assert out[j] == prev[j];
          }
        }
      } else {
        assert out == prev;
      }
    }
  }

  /** What the reference emits: non-empty texts, none twice, every emitted
      headline one of the candidates, exactly the non-empty candidate
      texts, so every non-empty candidate text among them. */
  lemma FirstOccurrencesProperties(cands: seq<Headline>)
    ensures var out := FirstOccurrences(cands);
            && (forall k :: 0 <= k < |out| ==> out[k].text != "" && out[k] in cands)
            && (forall i, j :: 0 <= i < j < |out| ==> out[i].text != out[j].text)
            && NonEmptyTexts(out) == NonEmptyTexts(cands)
            && (forall h :: h in cands && h.text != "" ==> h.text in NonEmptyTexts(out))
  {
    FirstOccurrencesAreCandidates(cands);
    FirstOccurrencesDistinct(cands);
    FirstOccurrencesTexts(cands);
    TextsOfMembers(cands);
  }

  /** One step of the inner loop: with the emitted sequence and seen-set
      of the candidates so far, one more candidate is emitted exactly when
      its text is non-empty and not yet seen. */
  lemma EmitStep(done: seq<Headline>, h: Headline, emitted: seq<Headline>, seen: set<string>)
    requires emitted == FirstOccurrences(done) && seen == NonEmptyTexts(done)
    ensures FirstOccurrences(done + [h]) == (if h.text != "" && h.text !in seen then emitted + [h] else emitted)
    ensures NonEmptyTexts(done + [h]) == (if h.text != "" && h.text !in seen then seen + {h.text} else seen)
  {
    FirstOccurrencesLast(done, h);
    SeenStep(done, h);
  }

  /** The seen-set after one more candidate. */
  lemma SeenStep(done: seq<Headline>, h: Headline)
    ensures NonEmptyTexts(done + [h]) == NonEmptyTexts(done) + (if h.text != "" then {h.text} else {})
    ensures h.text != "" ==> (h.text in TextsOf(done) <==> h.text in NonEmptyTexts(done))
  {
    assert (done + [h])[..|done|] == done;
    assert TextsOf(done + [h]) == TextsOf(done) + {h.text};
  }

  lemma PrefixStep(before: seq<Headline>, cands: seq<Headline>, j: nat)
    requires j < |cands|
    ensures before + cands[..j + 1] == (before + cands[..j]) + [cands[j]]
  {
    assert cands[..j + 1] == cands[..j] + [cands[j]];
  }

  /** The inner loop: the candidates from one selector's matches, in
      document order, continuing from the state left by `before`. */
  method EmitMatches(cands: seq<Headline>, emitted0: seq<Headline>, seen0: set<string>, ghost before: seq<Headline>)
    returns (emitted: seq<Headline>, seen: set<string>)
    requires emitted0 == FirstOccurrences(before) && seen0 == NonEmptyTexts(before)
    ensures emitted == FirstOccurrences(before + cands)
    ensures seen == NonEmptyTexts(before + cands)
  {
    emitted, seen := emitted0, seen0;
    ghost var done := before;
    var j := 0;
    assert before + cands[..0] == before;
    while j < |cands|
      invariant 0 <= j <= |cands|
      invariant done == before + cands[..j]
      invariant emitted == FirstOccurrences(done)
      invariant seen == NonEmptyTexts(done)
    {
      var h := cands[j];
      EmitStep(done, h, emitted, seen);
      PrefixStep(before, cands, j);
      if h.text != "" && h.text !in seen {
        emitted := emitted + [h];
        seen := seen + {h.text};
      }
      done := done + [h];
      j := j + 1;
    }
    assert cands[..j] == cands;
  }

  /** The loop as written: outer loop over the selectors, inner loop over
      each selector's matches, with the seen-set of emitted texts. */
  method EmitHeadlines(doc: Document, matches: Matcher) returns (emitted: seq<Headline>, seen: set<string>)
    ensures emitted == FirstOccurrences(Candidates(doc, HeadlineSelectors, matches))
    ensures seen == NonEmptyTexts(emitted)
    ensures forall k :: 0 <= k < |emitted| ==> emitted[k].text != ""
    ensures forall i, j :: 0 <= i < j < |emitted| ==> emitted[i].text != emitted[j].text
    ensures forall h :: h in Candidates(doc, HeadlineSelectors, matches) && h.text != "" ==> h.text in seen
  {
    emitted := [];
    seen := {};
    var s := 0;
    while s < |HeadlineSelectors|
      invariant 0 <= s <= |HeadlineSelectors|
      invariant emitted == FirstOccurrences(Candidates(doc, HeadlineSelectors[..s], matches))
      invariant seen == NonEmptyTexts(Candidates(doc, HeadlineSelectors[..s], matches))
    {
      ghost var before := Candidates(doc, HeadlineSelectors[..s], matches);
      var cands := HeadlinesOf(SelectAll(doc, HeadlineSelectors[s], matches));
      emitted, seen := EmitMatches(cands, emitted, seen, before);
      CandidatesStep(doc, HeadlineSelectors, s, matches);
      s := s + 1;
    }
    assert HeadlineSelectors[..s] == HeadlineSelectors;
    FirstOccurrencesProperties(Candidates(doc, HeadlineSelectors, matches));
  }
}
