/** The parsed HTML document as BeautifulSoup presents it to the scraper:
    a forest of tags and text strings, queried in document order. CSS
    selector matching is not modelled; every query takes the relation
    "selector matches tag" as a parameter. */
module Dom {
  import opened Wrappers
  import opened Text

  /** A BeautifulSoup node: a text string or a tag with its attributes and
      children. */
  datatype Node =
    | Str(s: string)
    | Tag(name: string, attrs: map<string, string>, children: seq<Node>)

  /** The top-level nodes of a parsed page. */
  type Document = seq<Node>

  /** "CSS selector `sel` matches the tag at position `k` of the page's
      tags in document order (`Elements(doc)[k]`)", supplied by the caller.
      The matcher sees the whole page, so selectors whose answer depends on
      where a tag sits (`a > b`, `font[size="+2"] a`) are expressible: two
      equal tags in different places may be told apart. */
  type Matcher = (string, Document, nat) -> bool

  /** All tags of a forest in document (pre-)order: BeautifulSoup's
      `descendants`, keeping tags only. */
  function Elements(forest: seq<Node>): (r: seq<Node>)
    ensures forall k :: 0 <= k < |r| ==> r[k].Tag?
    decreases forest
  {
    if forest == [] then []
    else
      (match forest[0]
       case Str(_) => []
       case Tag(_, _, cs) => [forest[0]] + Elements(cs))
      + Elements(forest[1..])
  }

  /** All text strings of a forest in document order. */
  function Strings(forest: seq<Node>): (r: seq<string>)
    decreases forest
  {
    if forest == [] then []
    else
      (match forest[0]
       case Str(s) => [s]
       case Tag(_, _, cs) => Strings(cs))
      + Strings(forest[1..])
  }

  /** The strings BeautifulSoup reports with `strip=True`: each string
      stripped, empty results dropped. */
  function StrippedStrings(strings: seq<string>): (r: seq<string>)
    ensures |r| <= |strings|
    decreases |strings|
  {
    if strings == [] then []
    else
      var head := Strip(strings[0]);
      var rest := StrippedStrings(strings[1..]);
      if head == [] then rest else [head] + rest
  }

  /** Every string BeautifulSoup reports is non-empty and stripped. */
  lemma {:induction false} StrippedStringsAreStripped(strings: seq<string>)
    ensures StrippedPieces(StrippedStrings(strings))
    decreases |strings|
  {
    if strings != [] {
      StrippedStringsAreStripped(strings[1..]);
      var head := Strip(strings[0]);
      var rest := StrippedStrings(strings[1..]);
      if head != [] {
        StrippedPiecesCons(head, rest);
      }
    }
  }

  lemma StrippedPiecesCons(head: string, rest: seq<string>)
    requires head != [] && IsStripped(head) && StrippedPieces(rest)
    ensures StrippedPieces([head] + rest)
  {
    assert forall k :: 1 <= k < |rest| + 1 ==> ([head] + rest)[k] == rest[k - 1];
  }

  /** Every string is whitespace only. */
  predicate AllBlank(strings: seq<string>) {
    forall k :: 0 <= k < |strings| ==> AllSpace(strings[k])
  }

  lemma AllBlankCons(strings: seq<string>)
    requires strings != []
    ensures AllBlank(strings) <==> AllSpace(strings[0]) && AllBlank(strings[1..])
  {
    assert forall k :: 1 <= k < |strings| ==> strings[k] == strings[1..][k - 1];
  }

  /** Nothing survives stripping exactly when every string is blank. */
  lemma {:induction false} StrippedStringsEmpty(strings: seq<string>)
    ensures StrippedStrings(strings) == [] <==> AllBlank(strings)
    decreases |strings|
  {
    if strings != [] {
      StrippedStringsEmpty(strings[1..]);
      StripEmptyIffAllSpace(strings[0]);
      AllBlankCons(strings);
      assert StrippedStrings(strings) == [] <==> Strip(strings[0]) == [] && StrippedStrings(strings[1..]) == [];
    }
  }

  /** `get_text(separator=sep, strip=True)` on a tag whose children are
      `forest`: never padded with whitespace. */
  function GetText(forest: seq<Node>, sep: string): (r: string)
    ensures IsStripped(r)
  {
    var parts := StrippedStrings(Strings(forest));
    StrippedStringsAreStripped(Strings(forest));
    JoinStripped(parts, sep);
    Join(parts, sep)
  }

  /** `get_text` is empty exactly when every text string inside is blank. */
  lemma GetTextEmptyIff(forest: seq<Node>, sep: string)
    ensures GetText(forest, sep) == [] <==> AllBlank(Strings(forest))
  {
    var strings := Strings(forest);
    var parts := StrippedStrings(strings);
    assert GetText(forest, sep) == Join(parts, sep);
    StrippedStringsAreStripped(strings);
    JoinStripped(parts, sep);
    StrippedStringsEmpty(strings);
    assert Join(parts, sep) == [] <==> parts == [];
    assert parts == [] <==> AllBlank(strings);
  }

  lemma {:induction false} StringsAppend(a: seq<Node>, b: seq<Node>)
    ensures Strings(a + b) == Strings(a) + Strings(b)
    decreases |a|
  {
    if a != [] {
      var ab := a + b;
      assert ab[0] == a[0] && ab[1..] == a[1..] + b;
      var head := match a[0] case Str(s) => [s] case Tag(_, _, cs) => Strings(cs);
      assert Strings(ab) == head + Strings(a[1..] + b);
      assert Strings(a) == head + Strings(a[1..]);
      StringsAppend(a[1..], b);
      AppendAssoc(head, Strings(a[1..]), Strings(b));
    } else {
      assert a + b == b;
    }
  }


  /** Regrouping a concatenation, stated once so the append laws above do
      not each have to rediscover it. */
  lemma AppendAssoc<T>(x: seq<T>, y: seq<T>, z: seq<T>)
    ensures x + (y + z) == (x + y) + z
  {
  }

  /** The tags and strings of a single node: a string has no tag and is its
      own only string; a tag comes first among its tags, before those of
      its children, and has its children's strings. */
  lemma NodeLeaf(n: Node)
    ensures n.Str? ==> Elements([n]) == [] && Strings([n]) == [n.s]
    ensures n.Tag? ==> Elements([n]) == [n] + Elements(n.children) && Strings([n]) == Strings(n.children)
  {
    assert [n][1..] == [];
  }


  /** Stripping works string by string: the pieces of two runs of strings
      are the pieces of the first followed by those of the second. */
  lemma {:induction false} StrippedStringsAppend(x: seq<string>, y: seq<string>)
    ensures StrippedStrings(x + y) == StrippedStrings(x) + StrippedStrings(y)
    decreases |x|
  {
    if x != [] {
      assert (x + y)[0] == x[0];
      assert (x + y)[1..] == x[1..] + y;
      StrippedStringsAppend(x[1..], y);
    } else {
      assert x + y == y;
    }
  }

  /** `get_text` of two runs of nodes is the text of the first, the
      separator when both are non-empty, then the text of the second: the
      separator goes between pieces only, never at an end. */
  lemma GetTextAppend(a: seq<Node>, b: seq<Node>, sep: string)
    ensures GetText(a + b, sep) ==
            GetText(a, sep) + (if GetText(a, sep) != [] && GetText(b, sep) != [] then sep else []) + GetText(b, sep)
  {
    var pa := StrippedStrings(Strings(a));
    var pb := StrippedStrings(Strings(b));
    StringsAppend(a, b);
    StrippedStringsAppend(Strings(a), Strings(b));
    StrippedStringsAreStripped(Strings(a));
    StrippedStringsAreStripped(Strings(b));
    JoinStripped(pa, sep);
    JoinStripped(pb, sep);
    assert GetText(a + b, sep) == Join(pa + pb, sep);
    if pa == [] {
      assert pa + pb == pb;
    } else if pb == [] {
      assert pa + pb == pa;
    } else {
      JoinAppend(pa, pb, sep);
    }
  }

  /** `get_text` of a single node: a text string is stripped; a tag reads
      as its children; nothing reads as the empty string. */
  lemma GetTextLeaf(s: string, t: Node, sep: string)
    requires t.Tag?
    ensures GetText([Str(s)], sep) == Strip(s)
    ensures GetText([t], sep) == GetText(t.children, sep)
    ensures GetText([], sep) == []
  {
    assert [Str(s)][1..] == [];
    assert Strings([Str(s)]) == [s];
    assert [s][1..] == [];
    assert StrippedStrings([s]) == if Strip(s) == [] then [] else [Strip(s)];
    assert [t][1..] == [];
    assert Strings([t]) == Strings(t.children);
  }

  /** `tag.get(name)`: the attribute value, if present. */
  function Attr(t: Node, name: string): (r: Option<string>)
    ensures r.Some? <==> t.Tag? && name in t.attrs
    ensures r.Some? ==> r.value == t.attrs[name]
  {
    if t.Tag? && name in t.attrs then Some(t.attrs[name]) else None
  }

  /** The first position from `i` on whose tag `sel` matches. */
  function FirstMatch(doc: Document, sel: string, matches: Matcher, i: nat): (r: Option<nat>)
    requires i <= |Elements(doc)|
    ensures r.Some? ==> i <= r.value < |Elements(doc)| && matches(sel, doc, r.value)
    ensures r.Some? ==> forall j :: i <= j < r.value ==> !matches(sel, doc, j)
    ensures r.None? <==> forall j :: i <= j < |Elements(doc)| ==> !matches(sel, doc, j)
    decreases |Elements(doc)| - i
  {
    if i == |Elements(doc)| then None
    else if matches(sel, doc, i) then Some(i)
    else FirstMatch(doc, sel, matches, i + 1)
  }

  /** Position `k` holds the first tag, in document order, that `sel`
      matches. */
  predicate IsFirstMatch(doc: Document, sel: string, matches: Matcher, k: nat) {
    k < |Elements(doc)| && matches(sel, doc, k)
    && forall j :: 0 <= j < k ==> !matches(sel, doc, j)
  }

  /** `soup.select_one(sel)`: the first tag in document order that the
      selector matches. */
  function SelectOne(doc: Document, sel: string, matches: Matcher): (r: Option<Node>)
    ensures r.Some? ==> r.value.Tag?
    ensures r.Some? ==> exists k: nat :: IsFirstMatch(doc, sel, matches, k) && r.value == Elements(doc)[k]
    ensures r.None? <==> forall k :: 0 <= k < |Elements(doc)| ==> !matches(sel, doc, k)
  {
    match FirstMatch(doc, sel, matches, 0)
    case Some(k) =>
      assert IsFirstMatch(doc, sel, matches, k);
      Some(Elements(doc)[k])
    case None => None
  }

  /** The positions from `i` on whose tags `sel` matches, ascending. */
  function MatchPositions(doc: Document, sel: string, matches: Matcher, i: nat): (r: seq<nat>)
    requires i <= |Elements(doc)|
    ensures forall t :: 0 <= t < |r| ==> i <= r[t] < |Elements(doc)| && matches(sel, doc, r[t])
    ensures forall t, u :: 0 <= t < u < |r| ==> r[t] < r[u]
    ensures forall k :: i <= k < |Elements(doc)| && matches(sel, doc, k) ==> k in r
    ensures |r| <= |Elements(doc)| - i
    decreases |Elements(doc)| - i
  {
    if i == |Elements(doc)| then []
    else
      var rest := MatchPositions(doc, sel, matches, i + 1);
      if matches(sel, doc, i) then [i] + rest else rest
  }

  /** `soup.select(sel)`: the tags at exactly the matching positions, in
      document order. */
  function SelectAll(doc: Document, sel: string, matches: Matcher): (r: seq<Node>)
    ensures |r| <= |Elements(doc)|
    ensures |r| == |MatchPositions(doc, sel, matches, 0)|
    ensures forall t :: 0 <= t < |r| ==> r[t] == Elements(doc)[MatchPositions(doc, sel, matches, 0)[t]]
  {
    var ps := MatchPositions(doc, sel, matches, 0);
    seq(|ps|, t requires 0 <= t < |ps| => Elements(doc)[ps[t]])
  }

  /** The matcher for a bare tag-name selector such as `body`: it looks at
      the tag's name only. */
  predicate NamedTag(name: string, doc: Document, k: nat) {
    k < |Elements(doc)| && Elements(doc)[k].name == name
  }

  /** The first tag named `name` in document order. */
  predicate IsFirstNamed(doc: Document, name: string, k: nat) {
    k < |Elements(doc)| && Elements(doc)[k].name == name
    && forall j :: 0 <= j < k ==> Elements(doc)[j].name != name
  }

  /** `soup.body`: the first tag named `body` in document order, if any. */
  function Body(doc: Document): (r: Option<Node>)
    ensures r.Some? ==> exists k: nat :: IsFirstNamed(doc, "body", k) && r.value == Elements(doc)[k]
    ensures r.None? <==> forall k :: 0 <= k < |Elements(doc)| ==> Elements(doc)[k].name != "body"
  {
    SelectNamed(doc, "body");
    SelectOne(doc, "body", NamedTag)
  }

  /** With the name matcher, `select_one` finds the first tag of that name. */
  lemma SelectNamed(doc: Document, name: string)
    ensures var r := SelectOne(doc, name, NamedTag);
            && (r.Some? ==> exists k: nat :: IsFirstNamed(doc, name, k) && r.value == Elements(doc)[k])
            && (r.None? <==> forall k :: 0 <= k < |Elements(doc)| ==> Elements(doc)[k].name != name)
  {
    var es := Elements(doc);
    var r := SelectOne(doc, name, NamedTag);
    if r.Some? {
      var k: nat :| IsFirstMatch(doc, name, NamedTag, k) && r.value == es[k];
      forall j | 0 <= j < k
        ensures es[j].name != name
      {
        assert !NamedTag(name, doc, j);
      }
      assert IsFirstNamed(doc, name, k);
    } else {
      forall k | 0 <= k < |es|
        ensures es[k].name != name
      {
        assert !NamedTag(name, doc, k);
      }
    }
    if forall k :: 0 <= k < |es| ==> es[k].name != name {
      forall k | 0 <= k < |es|
        ensures !NamedTag(name, doc, k)
      {
      }
    }
  }

  /** Removes (`decompose()`s) every tag whose name is in `unwanted`,
      together with everything inside it. */
  function Prune(forest: seq<Node>, unwanted: set<string>): (r: seq<Node>)
    ensures |r| <= |forest|
    ensures forall k :: 0 <= k < |r| && r[k].Tag? ==> r[k].name !in unwanted
    decreases forest
  {
    if forest == [] then []
    else
      (match forest[0]
       case Str(_) => [forest[0]]
       case Tag(n, a, cs) => if n in unwanted then [] else [Tag(n, a, Prune(cs, unwanted))])
      + Prune(forest[1..], unwanted)
  }

  /** No tag of the forest carries a name from `names`. */
  predicate NoTagNamed(forest: seq<Node>, names: set<string>) {
    forall e :: e in Elements(forest) ==> e.name !in names
  }

  lemma {:induction false} ElementsAppend(a: seq<Node>, b: seq<Node>)
    ensures Elements(a + b) == Elements(a) + Elements(b)
    decreases |a|
  {
    if a != [] {
      assert (a + b)[0] == a[0];
      assert (a + b)[1..] == a[1..] + b;
      ElementsAppend(a[1..], b);
    } else {
      assert a + b == b;
    }
  }

  /** After pruning, no tag with an unwanted name is left anywhere. */
  lemma {:induction false} PruneRemovesUnwanted(forest: seq<Node>, unwanted: set<string>)
    ensures NoTagNamed(Prune(forest, unwanted), unwanted)
    decreases forest
  {
    if forest != [] {
      PruneRemovesUnwanted(forest[1..], unwanted);
      var head := match forest[0]
        case Str(_) => [forest[0]]
        case Tag(n, a, cs) => if n in unwanted then [] else [Tag(n, a, Prune(cs, unwanted))];
      assert Prune(forest, unwanted) == head + Prune(forest[1..], unwanted);
      ElementsAppend(head, Prune(forest[1..], unwanted));
      match forest[0]
      case Str(_) =>
      case Tag(n, a, cs) =>
        if n !in unwanted {
          PruneRemovesUnwanted(cs, unwanted);
          assert [Tag(n, a, Prune(cs, unwanted))][1..] == [];
        }
    }
  }

  /** A forest has no unwanted tag exactly when its first node is not an
      unwanted tag and holds none, and neither does the rest. */
  lemma NoTagNamedCons(forest: seq<Node>, unwanted: set<string>)
    requires forest != []
    ensures NoTagNamed(forest, unwanted) <==>
              (forest[0].Tag? ==> forest[0].name !in unwanted && NoTagNamed(forest[0].children, unwanted))
              && NoTagNamed(forest[1..], unwanted)
  {
    var head := [forest[0]];
    assert forest == head + forest[1..];
    ElementsAppend(head, forest[1..]);
    assert head[1..] == [];
    if forest[0].Tag? {
      assert Elements(head) == [forest[0]] + Elements(forest[0].children);
    }
  }

  lemma ConsEqual(x: Node, xs: seq<Node>, y: Node, ys: seq<Node>)
    ensures [x] + xs == [y] + ys <==> x == y && xs == ys
  {
    if [x] + xs == [y] + ys {
      assert ([x] + xs)[0] == x && ([y] + ys)[0] == y;
      assert ([x] + xs)[1..] == xs && ([y] + ys)[1..] == ys;
    }
  }

  /** Pruning changes nothing exactly when there was nothing to remove. */
  lemma {:induction false} PruneIdentity(forest: seq<Node>, unwanted: set<string>)
    ensures Prune(forest, unwanted) == forest <==> NoTagNamed(forest, unwanted)
    decreases forest
  {
    if forest != [] {
      PruneIdentity(forest[1..], unwanted);
      NoTagNamedCons(forest, unwanted);
      var rest := Prune(forest[1..], unwanted);
      assert forest == [forest[0]] + forest[1..];
      match forest[0]
      case Str(_) =>
        assert Prune(forest, unwanted) == [forest[0]] + rest;
        ConsEqual(forest[0], rest, forest[0], forest[1..]);
      case Tag(n, a, cs) =>
        if n in unwanted {
          PruneRemovesUnwanted(forest, unwanted);
          assert forest[0] in Elements(forest);
        } else {
          PruneIdentity(cs, unwanted);
          assert Prune(forest, unwanted) == [Tag(n, a, Prune(cs, unwanted))] + rest;
          ConsEqual(Tag(n, a, Prune(cs, unwanted)), rest, forest[0], forest[1..]);
        }
    }
  }

  /** Pruning works node by node: a forest split in two prunes as its two
      halves do. */
  lemma {:induction false} PruneAppend(a: seq<Node>, b: seq<Node>, unwanted: set<string>)
    ensures Prune(a + b, unwanted) == Prune(a, unwanted) + Prune(b, unwanted)
    decreases |a|
  {
    if a != [] {
      var ab := a + b;
      assert ab[0] == a[0] && ab[1..] == a[1..] + b;
      var head := match a[0]
        case Str(_) => [a[0]]
        case Tag(n, at, cs) => if n in unwanted then [] else [Tag(n, at, Prune(cs, unwanted))];
      assert Prune(ab, unwanted) == head + Prune(a[1..] + b, unwanted);
      assert Prune(a, unwanted) == head + Prune(a[1..], unwanted);
      PruneAppend(a[1..], b, unwanted);
      AppendAssoc(head, Prune(a[1..], unwanted), Prune(b, unwanted));
    } else {
      assert a + b == b;
    }
  }


  /** What pruning does to a single node: a text string is kept, an
      unwanted tag disappears with everything inside it, and any other tag
      is kept with its own children pruned. */
  lemma PruneOne(n: Node, unwanted: set<string>)
    ensures n.Str? ==> Prune([n], unwanted) == [n]
    ensures n.Tag? && n.name in unwanted ==> Prune([n], unwanted) == []
    ensures n.Tag? && n.name !in unwanted ==>
              Prune([n], unwanted) == [Tag(n.name, n.attrs, Prune(n.children, unwanted))]
  {
    assert [n][1..] == [];
  }
}
