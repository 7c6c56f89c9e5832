/** The parsed page as BeautifulSoup presents it to the exporter and the debug
    script: a tree of tags and text, searched in document order by `find` and
    `find_all`, printed by `str`, and pruned by `decompose`. */
module Dom {
  import opened Text

  /** A text node, or a tag with the attributes the code looks at: `id`, the
      multi-valued `class`, and `href`. */
  datatype Node =
    | TextNode(text: string)
    | Element(name: string, id: Option<string>, classes: seq<string>, href: Option<string>, children: seq<Node>)

  /** All nodes of a forest in document order: each node, then its
      descendants, then its following siblings (`.descendants`). */
  function Flatten(ns: seq<Node>): seq<Node>
    decreases ns
  {
    if ns == [] then []
    else match ns[0]
      case TextNode(_) => [ns[0]] + Flatten(ns[1..])
      case Element(_, _, _, _, ch) => [ns[0]] + Flatten(ch) + Flatten(ns[1..])
  }

  /** The search filters of `find`/`find_all` the code uses: a tag name, a tag
      name with one of its classes, a tag name with its id. */
  datatype Selector =
    | Tag(tag: string)
    | TagWithClass(tag: string, cls: string)
    | TagWithId(tag: string, ident: string)

  predicate Matches(sel: Selector, n: Node) {
    n.Element? && n.name == sel.tag &&
    match sel
      case Tag(_) => true
      case TagWithClass(_, c) => c in n.classes
      case TagWithId(_, i) => n.id == Some(i)
  }

  /** The first node of a document-order list that the selector matches. */
  function FirstMatch(flat: seq<Node>, sel: Selector): (r: Option<Node>)
    ensures r.None? <==> forall j :: 0 <= j < |flat| ==> !Matches(sel, flat[j])
    ensures r.Some? ==> exists i :: 0 <= i < |flat| && flat[i] == r.value && Matches(sel, flat[i]) &&
                                    forall j :: 0 <= j < i ==> !Matches(sel, flat[j])
  {
    if flat == [] then None
    else if Matches(sel, flat[0]) then Some(flat[0])
    else
      var r := FirstMatch(flat[1..], sel);
      assert r.Some? ==> exists i :: 1 <= i < |flat| && flat[i] == r.value && Matches(sel, flat[i]) &&
                                     forall j :: 0 <= j < i ==> !Matches(sel, flat[j]) by {
        if r.Some? {
          var i :| 0 <= i < |flat[1..]| && flat[1..][i] == r.value && Matches(sel, flat[1..][i]) &&
                   forall j :: 0 <= j < i ==> !Matches(sel, flat[1..][j]);
          assert forall j :: 0 <= j < i + 1 ==> !Matches(sel, flat[j]) by {
            forall j | 0 <= j < i + 1 ensures !Matches(sel, flat[j]) {
              if j > 0 {
                assert flat[j] == flat[1..][j - 1];
              }
            }
          }
        }
      }
      assert r.None? ==> forall j :: 0 <= j < |flat| ==> !Matches(sel, flat[j]) by {
        if r.None? {
          forall j | 0 <= j < |flat| ensures !Matches(sel, flat[j]) {
            if j > 0 {
              assert flat[j] == flat[1..][j - 1];
            }
          }
        }
      }
      r
  }

  /** `find`: the first descendant, in document order, matching `sel`. */
  function Find(doc: seq<Node>, sel: Selector): Option<Node> {
    FirstMatch(Flatten(doc), sel)
  }

  /** What `find` returns is a node of the document that the selector matches. */
  lemma FindMatches(doc: seq<Node>, sel: Selector)
    ensures Find(doc, sel).Some? ==> Matches(sel, Find(doc, sel).value) && Find(doc, sel).value in Flatten(doc)
  {
    var r := Find(doc, sel);
    if r.Some? {
      var flat := Flatten(doc);
      var i :| 0 <= i < |flat| && flat[i] == r.value && Matches(sel, flat[i]) &&
               forall j :: 0 <= j < i ==> !Matches(sel, flat[j]);
    }
  }

  /** The order in which `extract_content` looks for the content region. */
  const ContentSelectors: seq<Selector> :=
    [Tag("main"), Tag("article"), TagWithClass("div", "page-inner"),
     TagWithId("div", "book-search-results"), Tag("body")]

  /** The position of the first found result from `from` on; `|rs|` when
      there is none. */
  function FirstSomeFrom(rs: seq<Option<Node>>, from: nat): (i: nat)
    requires from <= |rs|
    ensures from <= i <= |rs|
    ensures i < |rs| ==> rs[i].Some?
    ensures forall j :: from <= j < i ==> rs[j].None?
    decreases |rs| - from
  {
    if from == |rs| || rs[from].Some? then from else FirstSomeFrom(rs, from + 1)
  }

  /** The first selector, in the given order, that finds something, and what
      it finds (a chain of `or`s: a found tag is always truthy). */
  function FirstFound(doc: seq<Node>, sels: seq<Selector>): (r: Option<Node>)
    ensures r.None? <==> forall k :: 0 <= k < |sels| ==> Find(doc, sels[k]).None?
    ensures r.Some? ==> exists k :: 0 <= k < |sels| && Find(doc, sels[k]) == r &&
                                    forall j :: 0 <= j < k ==> Find(doc, sels[j]).None?
  {
    var rs := seq(|sels|, k requires 0 <= k < |sels| => Find(doc, sels[k]));
    var i := FirstSomeFrom(rs, 0);
    assert forall k :: 0 <= k < |sels| ==> rs[k] == Find(doc, sels[k]);
    if i < |sels| then rs[i] else None
  }

  /** `extract_content`'s choice of content region: `main`, else `article`,
      else `div.page-inner`, else `div#book-search-results`, else `body`. */
  function SelectContent(doc: seq<Node>): Option<Node> {
    FirstFound(doc, ContentSelectors)
  }

  /** Every region `SelectContent` returns is a tag. */
  lemma SelectContentIsElement(doc: seq<Node>)
    ensures SelectContent(doc).Some? ==> SelectContent(doc).value.Element?
  {
    var r := SelectContent(doc);
    if r.Some? {
      var k :| 0 <= k < |ContentSelectors| && Find(doc, ContentSelectors[k]) == r;
      var i :| 0 <= i < |Flatten(doc)| && Flatten(doc)[i] == r.value && Matches(ContentSelectors[k], Flatten(doc)[i]);
    }
  }

  /** The fallback order: when the page has a `main`, the region is the first
      `main`; a `body` is chosen only when none of the four earlier selectors
      finds anything; and without any of the five the result is nothing. */
  lemma SelectContentPriority(doc: seq<Node>)
    ensures Find(doc, Tag("main")).Some? ==> SelectContent(doc) == Find(doc, Tag("main"))
    ensures (forall k :: 0 <= k < 4 ==> Find(doc, ContentSelectors[k]).None?) ==>
              SelectContent(doc) == Find(doc, Tag("body"))
    ensures SelectContent(doc).None? <==> forall k :: 0 <= k < 5 ==> Find(doc, ContentSelectors[k]).None?
  {
    var sels := ContentSelectors;
    if forall k :: 0 <= k < 4 ==> Find(doc, sels[k]).None? {
      var r := SelectContent(doc);
      if r.Some? {
        var k :| 0 <= k < |sels| && Find(doc, sels[k]) == r && forall j :: 0 <= j < k ==> Find(doc, sels[j]).None?;
        assert k == 4;
      } else {
        assert Find(doc, sels[4]).None?;
      }
    }
  }

  // ---------------------------------------------------------------------------
  // str(tag)

  function SerializeList(ns: seq<Node>): string
    decreases ns
  {
    if ns == [] then ""
    else match ns[0]
      case TextNode(t) => t + SerializeList(ns[1..])
      case Element(_, _, _, _, ch) => Open(ns[0]) + SerializeList(ch) + "</" + ns[0].name + ">" + SerializeList(ns[1..])
  }

  function Attr(key: string, value: string): string {
    " " + key + "=\"" + value + "\""
  }

  function JoinSpace(ws: seq<string>): string {
    if ws == [] then "" else if |ws| == 1 then ws[0] else ws[0] + " " + JoinSpace(ws[1..])
  }

  /** The start tag with its `id`, `class` and `href` attributes. */
  function Open(n: Node): (r: string)
    requires n.Element?
    ensures |r| >= 2 && r[0] == '<'
  {
    "<" + n.name
      + (if n.id.Some? then Attr("id", n.id.value) else "")
      + (if n.classes != [] then Attr("class", JoinSpace(n.classes)) else "")
      + (if n.href.Some? then Attr("href", n.href.value) else "")
      + ">"
  }

  /** `str(tag)`: start tag, the children in order, end tag. */
  function Serialize(n: Node): (r: string) {
    SerializeList([n])
  }

  /** The printed form of a tag is never empty, so the `if html_content`
      test after `extract_content` only fails when no region was found. */
  lemma SerializeElementNonEmpty(n: Node)
    requires n.Element?
    ensures Serialize(n) != "" && Serialize(n)[0] == '<'
  {
    var o := Open(n);
    var s := Serialize(n);
    assert [n][0] == n && [n][1..] == [];
    assert s == o + SerializeList(n.children) + "</" + n.name + ">" + SerializeList([]);
    assert s[0] == o[0];
  }

  // ---------------------------------------------------------------------------
  // Removing script, style and nav

  /** The tags `extract_content` removes before converting to Markdown. */
  predicate IsNoise(n: Node) {
    n.Element? && n.name in {"script", "style", "nav"}
  }

  /** The forest with every noise tag and its whole subtree removed. */
  function StripList(ns: seq<Node>): seq<Node>
    decreases ns
  {
    if ns == [] then []
    else if IsNoise(ns[0]) then StripList(ns[1..])
    else match ns[0]
      case TextNode(_) => [ns[0]] + StripList(ns[1..])
      case Element(_, _, _, _, ch) => [ns[0].(children := StripList(ch))] + StripList(ns[1..])
  }

  /** A tag with every noise descendant removed; the tag itself stays. */
  function Strip(n: Node): Node {
    match n
      case TextNode(_) => n
      case Element(_, _, _, _, ch) => n.(children := StripList(ch))
  }

  /** Some node of the forest, at any depth, is a noise tag. */
  predicate HasNoise(ns: seq<Node>)
    decreases ns
  {
    ns != [] &&
    (IsNoise(ns[0]) ||
     (match ns[0]
        case TextNode(_) => false
        case Element(_, _, _, _, ch) => HasNoise(ch)) ||
     HasNoise(ns[1..]))
  }

  predicate AnyNoise(flat: seq<Node>) {
    exists i :: 0 <= i < |flat| && IsNoise(flat[i])
  }

  lemma AnyNoiseConcat(x: Node, fk: seq<Node>, fr: seq<Node>)
    ensures AnyNoise([x] + fk + fr) <==> IsNoise(x) || AnyNoise(fk) || AnyNoise(fr)
  {
    var f := [x] + fk + fr;
    if AnyNoise(f) {
      var i :| 0 <= i < |f| && IsNoise(f[i]);
      if i == 0 {
      } else if i < 1 + |fk| {
        assert fk[i - 1] == f[i];
      } else {
        assert fr[i - 1 - |fk|] == f[i];
      }
    }
    if AnyNoise(fk) {
      var i :| 0 <= i < |fk| && IsNoise(fk[i]);
      assert f[1 + i] == fk[i];
    }
    if AnyNoise(fr) {
      var i :| 0 <= i < |fr| && IsNoise(fr[i]);
      assert f[1 + |fk| + i] == fr[i];
    }
    if IsNoise(x) {
      assert f[0] == x;
    }
  }

  /** `HasNoise` is `find_all(['script', 'style', 'nav'])` coming back non-empty. */
  lemma {:induction false} HasNoiseIffFound(ns: seq<Node>)
    ensures HasNoise(ns) <==> AnyNoise(Flatten(ns))
    decreases ns
  {
    if ns != [] {
      HasNoiseIffFound(ns[1..]);
      match ns[0]
      case TextNode(_) =>
        AnyNoiseConcat(ns[0], [], Flatten(ns[1..]));
        assert [ns[0]] + [] + Flatten(ns[1..]) == Flatten(ns);
      case Element(_, _, _, _, ch) =>
        HasNoiseIffFound(ch);
        AnyNoiseConcat(ns[0], Flatten(ch), Flatten(ns[1..]));
    }
  }

  function SizeList(ns: seq<Node>): nat
    decreases ns
  {
    if ns == [] then 0
    else match ns[0]
      case TextNode(_) => 1 + SizeList(ns[1..])
      case Element(_, _, _, _, ch) => 1 + SizeList(ch) + SizeList(ns[1..])
  }

  /** `decompose()` of the first noise tag in document order: it leaves the
      tree together with its whole subtree. */
  function RemoveFirstNoise(ns: seq<Node>): seq<Node>
    decreases ns
  {
    if ns == [] then []
    else if IsNoise(ns[0]) then ns[1..]
    else match ns[0]
      case TextNode(_) => [ns[0]] + RemoveFirstNoise(ns[1..])
      case Element(_, _, _, _, ch) =>
        if HasNoise(ch) then [ns[0].(children := RemoveFirstNoise(ch))] + ns[1..]
        else [ns[0]] + RemoveFirstNoise(ns[1..])
  }

  /** Removing a noise tag makes the tree smaller. */
  lemma {:induction false} RemoveFirstNoiseShrinks(ns: seq<Node>)
    requires HasNoise(ns)
    ensures SizeList(RemoveFirstNoise(ns)) < SizeList(ns)
    decreases ns
  {
    if !IsNoise(ns[0]) {
      match ns[0]
      case TextNode(_) =>
        RemoveFirstNoiseShrinks(ns[1..]);
      case Element(_, _, _, _, ch) =>
        if HasNoise(ch) {
          RemoveFirstNoiseShrinks(ch);
        } else {
          RemoveFirstNoiseShrinks(ns[1..]);
        }
    }
  }

  /** Removing a noise tag does not change what is left after removing all of them. */
  lemma {:induction false} RemoveFirstNoiseKeepsStrip(ns: seq<Node>)
    ensures StripList(RemoveFirstNoise(ns)) == StripList(ns)
    decreases ns
  {
    if ns != [] && !IsNoise(ns[0]) {
      match ns[0]
      case TextNode(_) =>
        RemoveFirstNoiseKeepsStrip(ns[1..]);
        assert RemoveFirstNoise(ns)[1..] == RemoveFirstNoise(ns[1..]);
      case Element(_, _, _, _, ch) =>
        var r := RemoveFirstNoise(ns);
        if HasNoise(ch) {
          RemoveFirstNoiseKeepsStrip(ch);
          assert r[1..] == ns[1..];
        } else {
          RemoveFirstNoiseKeepsStrip(ns[1..]);
          assert r[1..] == RemoveFirstNoise(ns[1..]);
        }
    }
  }

  /** A forest with no noise tag is its own stripped form. */
  lemma {:induction false} StripListNoiseFree(ns: seq<Node>)
    requires !HasNoise(ns)
    ensures StripList(ns) == ns
    decreases ns
  {
    if ns != [] {
      StripListNoiseFree(ns[1..]);
      match ns[0]
      case TextNode(_) =>
        assert ns == [ns[0]] + ns[1..];
      case Element(_, _, _, _, ch) =>
        StripListNoiseFree(ch);
        assert ns == [ns[0]] + ns[1..];
    }
  }

  /** The stripped forest holds no `script`, `style` or `nav` at any depth. */
  lemma {:induction false} StripListRemovesNoise(ns: seq<Node>)
    ensures !HasNoise(StripList(ns))
    decreases ns
  {
    if ns != [] {
      StripListRemovesNoise(ns[1..]);
      if !IsNoise(ns[0]) {
        match ns[0]
        case TextNode(_) =>
          assert StripList(ns)[1..] == StripList(ns[1..]);
        case Element(_, _, _, _, ch) =>
          StripListRemovesNoise(ch);
          assert StripList(ns)[1..] == StripList(ns[1..]);
      }
    }
  }

  /** Stripping keeps every node that is not noise and not inside noise: it
      is the identity exactly on noise-free forests. */
  lemma StripListIdentityIff(ns: seq<Node>)
    ensures StripList(ns) == ns <==> !HasNoise(ns)
  {
    if !HasNoise(ns) {
      StripListNoiseFree(ns);
    } else {
      StripListRemovesNoise(ns);
    }
  }

  /** The anchors `find_all('a', href=True)` returns, as their `href` values,
      from a document-order list of nodes. */
  function Hrefs(flat: seq<Node>): (r: seq<string>)
    ensures |r| <= |flat|
  {
    if flat == [] then []
    else if flat[0].Element? && flat[0].name == "a" && flat[0].href.Some? then [flat[0].href.value] + Hrefs(flat[1..])
    else Hrefs(flat[1..])
  }

  lemma {:induction false} HrefsAppend(a: seq<Node>, b: seq<Node>)
    ensures Hrefs(a + b) == Hrefs(a) + Hrefs(b)
  {
    if a == [] {
      assert a + b == b;
    } else {
      assert (a + b)[1..] == a[1..] + b;
      HrefsAppend(a[1..], b);
    }
  }

  /** Every anchor of the list with an `href` contributes it to `Hrefs`. */
  lemma {:induction false} HrefsComplete(flat: seq<Node>, n: Node)
    ensures n in flat && n.Element? && n.name == "a" && n.href.Some? ==> n.href.value in Hrefs(flat)
  {
    if flat != [] {
      HrefsComplete(flat[1..], n);
    }
  }

  /** Conversely, every entry of `Hrefs` is the `href` of an anchor of the list. */
  lemma {:induction false} HrefsSound(flat: seq<Node>, h: string)
    ensures h in Hrefs(flat) ==> exists i :: 0 <= i < |flat| && flat[i].Element? && flat[i].name == "a" && flat[i].href == Some(h)
  {
    if flat != [] && h in Hrefs(flat) {
      if flat[0].Element? && flat[0].name == "a" && flat[0].href == Some(h) {
      } else {
        HrefsSound(flat[1..], h);
        var i :| 0 <= i < |flat[1..]| && flat[1..][i].Element? && flat[1..][i].name == "a" && flat[1..][i].href == Some(h);
        assert flat[i + 1] == flat[1..][i];
      }
    }
  }
}
