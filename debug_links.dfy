/** The link checks of the debugging script: the internal links of the
    page's first `nav`, cleaned, in document order; and the search of the
    whole page for an anchor leading to an expected address. The page is the
    parsed document, `resolve` is `urljoin`, and `domain` is the network
    location of the page's own URL. */
module DebugLinks {
  import opened Text
  import opened Urls
  import opened Dom

  /** The `href`s of the anchors below a tag (`tag.find_all('a', href=True)`). */
  function AnchorsBelow(n: Node): seq<string>
    requires n.Element?
  {
    Hrefs(Flatten(n.children))
  }

  /** What the nav scan appends for the anchors with these `href`s: each
      resolved against the page URL, kept when internal, then cleaned. */
  function NavLinks(hrefs: seq<string>, pageUrl: string, domain: string,
                    resolve: (string, string) -> string): (r: seq<string>)
    ensures |r| <= |hrefs|
    decreases |hrefs|
  {
    if hrefs == [] then []
    else
      var front := NavLinks(hrefs[..|hrefs| - 1], pageUrl, domain, resolve);
      var full := resolve(pageUrl, hrefs[|hrefs| - 1]);
      if IsInternal(full, domain) then front + [CleanUrl(full)] else front
  }

  /** The nav scan: nothing when the page has no `nav`; otherwise the links
      collected from the anchors of its first `nav`. */
  method CollectNavLinks(doc: seq<Node>, pageUrl: string, domain: string, resolve: (string, string) -> string)
    returns (links: Option<seq<string>>)
    ensures links.None? <==> Find(doc, Tag("nav")).None?
    ensures links.Some? ==> links.value == NavLinks(AnchorsBelow(Find(doc, Tag("nav")).value), pageUrl, domain, resolve)
  {
    var nav := Find(doc, Tag("nav"));
    if nav.None? {
      return None;
    }
    FindMatches(doc, Tag("nav"));
    var hrefs := AnchorsBelow(nav.value);
    var acc := [];
    for i := 0 to |hrefs|
      invariant acc == NavLinks(hrefs[..i], pageUrl, domain, resolve)
    {
      var full := resolve(pageUrl, hrefs[i]);
      assert hrefs[..i + 1][..i] == hrefs[..i];
      if IsInternal(full, domain) {
        acc := acc + [CleanUrl(full)];
      }
    }
    assert hrefs[..|hrefs|] == hrefs;
    return Some(acc);
  }

  /** The collected links keep the document order: the links of a longer list
      of anchors are those of its first part followed by those of the rest. */
  lemma {:induction false} NavLinksAppend(a: seq<string>, b: seq<string>, pageUrl: string, domain: string,
                                          resolve: (string, string) -> string)
    ensures NavLinks(a + b, pageUrl, domain, resolve) ==
            NavLinks(a, pageUrl, domain, resolve) + NavLinks(b, pageUrl, domain, resolve)
    decreases |b|
  {
    if b == [] {
      assert a + b == a;
    } else {
      var b' := b[..|b| - 1];
      assert (a + b)[..|a + b| - 1] == a + b';
      assert (a + b)[|a + b| - 1] == b[|b| - 1];
      NavLinksAppend(a, b', pageUrl, domain, resolve);
    }
  }

  /** A link is collected exactly when some anchor resolves to an internal
      address whose cleaned form it is. */
  lemma {:induction false} NavLinksIff(hrefs: seq<string>, pageUrl: string, domain: string,
                                       resolve: (string, string) -> string, link: string)
    ensures link in NavLinks(hrefs, pageUrl, domain, resolve) <==>
            exists h :: h in hrefs && IsInternal(resolve(pageUrl, h), domain) && link == CleanUrl(resolve(pageUrl, h))
    decreases |hrefs|
  {
    if hrefs != [] {
      var front := hrefs[..|hrefs| - 1];
      NavLinksIff(front, pageUrl, domain, resolve, link);
      SnocMembers(hrefs);
      NavLinksSnoc(hrefs, pageUrl, domain, resolve);
    }
  }

  lemma NavLinksSnoc(hrefs: seq<string>, pageUrl: string, domain: string, resolve: (string, string) -> string)
    requires hrefs != []
    ensures var full := resolve(pageUrl, hrefs[|hrefs| - 1]);
      var front := NavLinks(hrefs[..|hrefs| - 1], pageUrl, domain, resolve);
      NavLinks(hrefs, pageUrl, domain, resolve) == if IsInternal(full, domain) then front + [CleanUrl(full)] else front
  {
  }

  /** The cleaned addresses of all the anchors, one per anchor, in order. */
  function CleanedAll(hrefs: seq<string>, pageUrl: string, resolve: (string, string) -> string): (r: seq<string>)
    ensures |r| == |hrefs|
    decreases |hrefs|
  {
    if hrefs == [] then []
    else CleanedAll(hrefs[..|hrefs| - 1], pageUrl, resolve) + [CleanUrl(resolve(pageUrl, hrefs[|hrefs| - 1]))]
  }

  /** Nothing is dropped but external addresses: when every anchor resolves
      to an internal address, the links are the cleaned addresses of all the
      anchors, one per anchor and duplicates included. */
  lemma {:induction false} NavLinksAllInternal(hrefs: seq<string>, pageUrl: string, domain: string,
                                               resolve: (string, string) -> string)
    requires forall h :: h in hrefs ==> IsInternal(resolve(pageUrl, h), domain)
    ensures NavLinks(hrefs, pageUrl, domain, resolve) == CleanedAll(hrefs, pageUrl, resolve)
    decreases |hrefs|
  {
    if hrefs != [] {
      SnocMembers(hrefs);
      NavLinksAllInternal(hrefs[..|hrefs| - 1], pageUrl, domain, resolve);
      NavLinksSnoc(hrefs, pageUrl, domain, resolve);
    }
  }

  /** Every collected link lies on the page's own host: its network location
      is `domain`, whenever the page has one and the resolved addresses carry
      a scheme. */
  lemma NavLinkHost(hrefs: seq<string>, pageUrl: string, domain: string,
                    resolve: (string, string) -> string, link: string)
    requires domain != []
    requires forall h :: h in hrefs ==> Parse(resolve(pageUrl, h)).scheme != []
    requires link in NavLinks(hrefs, pageUrl, domain, resolve)
    ensures Parse(link).netloc == domain
  {
    NavLinksIff(hrefs, pageUrl, domain, resolve, link);
    var h :| h in hrefs && IsInternal(resolve(pageUrl, h), domain) && link == CleanUrl(resolve(pageUrl, h));
    CleanUrlPreserves(resolve(pageUrl, h));
  }

  // ---------------------------------------------------------------------------
  // The expected-link search

  /** The anchor's resolved, cleaned address is the expected one. */
  predicate LeadsTo(href: string, pageUrl: string, expected: string, resolve: (string, string) -> string) {
    CleanUrl(resolve(pageUrl, href)) == expected
  }

  /** The search over every anchor of the page, in document order, that stops
      at the first one leading to `expected`; `at` is that anchor's position
      among the page's anchors. `found` holds exactly when some anchor leads
      there. */
  method FindExpected(doc: seq<Node>, pageUrl: string, expected: string, resolve: (string, string) -> string)
    returns (found: bool, at: nat)
    ensures var hrefs := Hrefs(Flatten(doc));
      found ==> (at < |hrefs| && LeadsTo(hrefs[at], pageUrl, expected, resolve) &&
                 forall j :: 0 <= j < at ==> !LeadsTo(hrefs[j], pageUrl, expected, resolve))
    ensures var hrefs := Hrefs(Flatten(doc));
      !found ==> forall i :: 0 <= i < |hrefs| ==> !LeadsTo(hrefs[i], pageUrl, expected, resolve)
  {
    var hrefs := Hrefs(Flatten(doc));
    found, at := false, 0;
    while at < |hrefs|
      invariant at <= |hrefs| && !found
      invariant forall j :: 0 <= j < at ==> !LeadsTo(hrefs[j], pageUrl, expected, resolve)
    {
      var full := resolve(pageUrl, hrefs[at]);
      if CleanUrl(full) == expected {
        found := true;
        break;
      }
      NoneLeadsToBefore(hrefs, at, pageUrl, expected, resolve);
      at := at + 1;
    }
  }

  /** The search may move past an anchor that does not lead to the expected address. */
  lemma NoneLeadsToBefore(hrefs: seq<string>, at: nat, pageUrl: string, expected: string,
                          resolve: (string, string) -> string)
    requires at < |hrefs|
    requires forall j :: 0 <= j < at ==> !LeadsTo(hrefs[j], pageUrl, expected, resolve)
    requires !LeadsTo(hrefs[at], pageUrl, expected, resolve)
    ensures forall j :: 0 <= j < at + 1 ==> !LeadsTo(hrefs[j], pageUrl, expected, resolve)
  {
  }
}
