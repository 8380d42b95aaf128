/**
 * The table-of-contents plugin: the outline of the document's headings is rendered as nested
 * lists of `#slug` links, and every paragraph that reads `{% toc %}` is overwritten with it.
 */
module Toc {
  import opened JsString
  import opened Slug
  import opened Mdast
  import opened HeadingOutline

  // ----- the `{% toc %}` marker -----

  /**
   * `TOC_REGEX.test(text)` for `/^\s*\{%\s*toc\s*%\}\s*$/`: after trimming, the text is `{%`,
   * then `toc` with only white space around it, then `%}`. No `i` flag: `toc` is lower case.
   */
  predicate IsTocMarker(text: string) {
    IsTocBody(Trim(text))
  }

  predicate IsTocBody(t: string) {
    |t| >= 4 && t[..2] == "{%" && t[|t| - 2..] == "%}" && Trim(t[2..|t| - 2]) == "toc"
  }

  /** The strings the regular expression describes, one for each choice of its four `\s*` runs. */
  function MarkerText(w1: string, w2: string, w3: string, w4: string): string {
    w1 + Braced(w2 + "toc" + w3) + w4
  }

  function Braced(mid: string): string {
    "{%" + mid + "%}"
  }

  ghost predicate MatchesTocRegex(text: string) {
    exists w1, w2, w3, w4 ::
      AllWhitespace(w1) && AllWhitespace(w2) && AllWhitespace(w3) && AllWhitespace(w4)
      && text == MarkerText(w1, w2, w3, w4)
  }

  lemma BracedBody(mid: string)
    requires Trim(mid) == "toc"
    ensures IsTocBody(Braced(mid))
  {
    var x := Braced(mid);
    assert x[..2] == "{%" && x[|x| - 2..] == "%}";
    assert x[2..|x| - 2] == mid;
  }

  /** A marker body, with white space around it, is a marker. */
  lemma BodyInWhitespace(w1: string, x: string, w4: string)
    requires AllWhitespace(w1) && AllWhitespace(w4) && IsTocBody(x)
    ensures IsTocMarker(w1 + x + w4)
  {
    assert x[0] == x[..2][0] && x[|x| - 1] == x[|x| - 2..][1];
    TrimAround(w1, x, w4);
  }

  /** Every string of the regular expression is recognised. */
  lemma RegexTextIsMarker(w1: string, w2: string, w3: string, w4: string)
    requires AllWhitespace(w1) && AllWhitespace(w2) && AllWhitespace(w3) && AllWhitespace(w4)
    ensures IsTocMarker(MarkerText(w1, w2, w3, w4))
  {
    TrimAround(w2, "toc", w3);
    BracedBody(w2 + "toc" + w3);
    BodyInWhitespace(w1, Braced(w2 + "toc" + w3), w4);
  }

  lemma BodyIsBraced(t: string)
    requires IsTocBody(t)
    ensures t == Braced(t[2..|t| - 2])
  {
    assert t == t[..2] + t[2..|t| - 2] + t[|t| - 2..];
  }

  /** Every recognised string is a string of the regular expression. */
  lemma MarkerIsRegexText(text: string)
    requires IsTocMarker(text)
    ensures MatchesTocRegex(text)
  {
    var t := Trim(text);
    var w1, w4 := TrimParts(text);
    var mid := t[2..|t| - 2];
    BodyIsBraced(t);
    var w2, w3 := TrimParts(mid);
    assert mid == w2 + "toc" + w3;
    assert text == MarkerText(w1, w2, w3, w4);
  }

  lemma TocMarkerIsRegex(text: string)
    ensures IsTocMarker(text) <==> MatchesTocRegex(text)
  {
    if IsTocMarker(text) {
      MarkerIsRegexText(text);
    }
    if MatchesTocRegex(text) {
      var w1, w2, w3, w4 :| AllWhitespace(w1) && AllWhitespace(w2) && AllWhitespace(w3)
                           && AllWhitespace(w4) && text == MarkerText(w1, w2, w3, w4);
      RegexTextIsMarker(w1, w2, w3, w4);
    }
  }

  /** White space may surround the marker and its word. */
  lemma TocMarkerAccepted()
    ensures IsTocMarker("{% toc %}")
  {
    SpacedMarker("{% toc %}");
  }

  lemma SpacedMarker(t: string)
    requires |t| == 9 && t[0] == '{' && t[1] == '%' && t[2] == ' ' && t[3] == 't' && t[4] == 'o'
    requires t[5] == 'c' && t[6] == ' ' && t[7] == '%' && t[8] == '}'
    ensures IsTocMarker(t)
  {
    TrimmedBody(t);
    assert t[..2] == "{%" && t[7..] == "%}";
    assert AllWhitespace(t[2..3]) && AllWhitespace(t[6..7]);
    TrimAround(t[2..3], t[3..6], t[6..7]);
    assert t[2..7] == t[2..3] + t[3..6] + t[6..7];
    assert t[3..6] == "toc";
  }

  /** The regular expression has no `i` flag: an upper-case marker is ordinary text. */
  lemma TocMarkerIsCaseSensitive()
    ensures !IsTocMarker("{% TOC %}")
  {
    NotMarkerWhenWordDiffers("{% TOC %}", "TOC");
  }

  /** The marker must be the paragraph's whole text. */
  lemma TocMarkerIsWholeText()
    ensures !IsTocMarker("{% toc %} here")
  {
    NotMarkerWithoutClose("{% toc %} here");
  }

  /** A text that ends in neither white space nor `}` is no marker. */
  lemma NotMarkerWithoutClose(t: string)
    requires t != [] && !IsWhitespace(t[0]) && !IsWhitespace(t[|t| - 1]) && t[|t| - 1] != '}'
    ensures !IsTocMarker(t)
  {
    TrimmedBody(t);
    if |t| >= 2 {
      assert t[|t| - 2..][1] == t[|t| - 1];
    }
  }

  /** A braced text whose word, between single spaces, is not `toc` is no marker. */
  lemma NotMarkerWhenWordDiffers(t: string, word: string)
    requires |word| >= 1 && !IsWhitespace(word[0]) && !IsWhitespace(word[|word| - 1]) && word != "toc"
    requires t == "{% " + word + " %}"
    ensures !IsTocMarker(t)
  {
    assert t == Braced(" " + word + " ");
    BracedInner(" " + word + " ");
    TrimmedBody(t);
    TrimAround(" ", word, " ");
  }

  lemma BracedInner(mid: string)
    ensures var x := Braced(mid); x[0] == '{' && x[|x| - 1] == '}' && x[2..|x| - 2] == mid
  {
  }

  /** A string with no white space at its ends is its own trimmed text. */
  lemma TrimmedBody(t: string)
    requires |t| >= 1 && !IsWhitespace(t[0]) && !IsWhitespace(t[|t| - 1])
    ensures Trim(t) == t
  {
    var none: string := [];
    TrimAround(none, t, none);
    assert none + t + none == t;
  }

  // ----- `headingTreeToNode`: the outline as nested lists -----

  /** The link of one outline node: to `#` and the slug of its text, labelled with the text. */
  function TocLink(text: string): (r: MdNode)
    ensures r.Parent? && r.kind == Link("#" + Slugify(text)) && ToStrings(r.children) == text
  {
    var caption := [Text(text)];
    assert ToStrings(caption) == text by {
      assert caption[0] == Text(text) && caption[1..] == [];
    }
    Parent(Link("#" + Slugify(text)), caption)
  }

  /** The list for the children of `t` (the node `t` itself is not an item). */
  function TocList(t: HeadingTree): (r: MdNode)
    ensures r.Parent? && r.kind == List && |r.children| == |t.children|
    decreases t, 0
  {
    Parent(List, TocItems(t.children))
  }

  function TocItems(ts: seq<HeadingTree>): (r: seq<MdNode>)
    ensures |r| == |ts|
    decreases ts, 0
  {
    if ts == [] then [] else TocItems(ts[..|ts| - 1]) + [TocItem(ts[|ts| - 1])]
  }

  /** One child: its link, then the nested list of its own children if it has any. */
  function TocItem(c: HeadingTree): (r: MdNode)
    ensures r.Parent? && r.kind == ListItem && 1 <= |r.children| <= 2
    ensures r.children[0] == TocLink(c.text)
    ensures |r.children| == 2 <==> |c.children| > 0
    ensures |c.children| > 0 ==> r.children[1] == TocList(c)
    decreases c, 1
  {
    Parent(ListItem, [TocLink(c.text)] + (if |c.children| > 0 then [TocList(c)] else []))
  }

  /** The links of a TOC follow the preorder walk of the outline, each pointing at its slug. */
  function Anchors(ls: seq<Line>): (r: seq<string>)
    ensures |r| == |ls|
  {
    seq(|ls|, i requires 0 <= i < |ls| => "#" + Slugify(ls[i].text))
  }

  lemma {:induction false} TocItemsLinks(ts: seq<HeadingTree>, level: int)
    ensures LinkUrlsAll(TocItems(ts)) == Anchors(Preorder(ts, level))
    decreases ts
  {
    if ts != [] {
      var init, last := ts[..|ts| - 1], ts[|ts| - 1];
      var A := Preorder(init, level);
      var L := [Line(last.text, level)];
      var C := Preorder(last.children, level + 1);
      calc {
        LinkUrlsAll(TocItems(ts));
        LinkUrlsAll(TocItems(init) + [TocItem(last)]);
        { LinkUrlsAppend(TocItems(init), [TocItem(last)]); LinkUrlsSingle(TocItem(last)); }
        LinkUrlsAll(TocItems(init)) + LinkUrls(TocItem(last));
        { TocItemsLinks(init, level); TocItemLinks(last, level); }
        Anchors(A) + Anchors(L) + Anchors(C);
        { AnchorsAppend(A, L); AnchorsAppend(A + L, C); }
        Anchors(A + L + C);
        Anchors(Preorder(ts, level));
      }
    }
  }

  lemma {:induction false} TocItemLinks(c: HeadingTree, level: int)
    ensures LinkUrls(TocItem(c))
         == Anchors([Line(c.text, level)]) + Anchors(Preorder(c.children, level + 1))
    decreases c
  {
    AnchorsSingle(c.text, level);
    if |c.children| > 0 {
      TocItemsLinks(c.children, level + 1);
      NestedItemLinks(c);
    } else {
      LeafItemLinks(c);
      assert Preorder(c.children, level + 1) == [];
    }
  }

  lemma AnchorsSingle(text: string, level: int)
    ensures Anchors([Line(text, level)]) == ["#" + Slugify(text)]
  {
  }

  /** An item with a nested list: its own link, then the nested list's links. */
  lemma NestedItemLinks(c: HeadingTree)
    requires |c.children| > 0
    ensures LinkUrls(TocItem(c)) == ["#" + Slugify(c.text)] + LinkUrlsAll(TocItems(c.children))
  {
    var link := TocLink(c.text);
    var nested := TocList(c);
    TocLinkUrl(c.text);
    LinkUrlsSingle(link);
    LinkUrlsSingle(nested);
    LinkUrlsAppend([link], [nested]);
    TocItemChildren(c);
  }

  /** An item without children: only its own link. */
  lemma LeafItemLinks(c: HeadingTree)
    requires |c.children| == 0
    ensures LinkUrls(TocItem(c)) == ["#" + Slugify(c.text)]
  {
    var link := TocLink(c.text);
    TocLinkUrl(c.text);
    LinkUrlsSingle(link);
    TocItemChildren(c);
  }

  /** The children of an item, as `headingTreeToNode` lists them. */
  lemma TocItemChildren(c: HeadingTree)
    ensures TocItem(c).children == [TocLink(c.text)] + (if |c.children| > 0 then [TocList(c)] else [])
  {
  }

  lemma TocLinkUrl(text: string)
    ensures LinkUrls(TocLink(text)) == ["#" + Slugify(text)]
  {
    assert LinkUrlsAll([Text(text)]) == LinkUrls(Text(text)) + LinkUrlsAll([]);
  }

  /** The `i`-th item is the one for the `i`-th child, as `children.map` gives it. */
  lemma {:induction false} TocItemsAt(ts: seq<HeadingTree>, i: int)
    requires 0 <= i < |ts|
    ensures TocItems(ts)[i] == TocItem(ts[i])
  {
    if i < |ts| - 1 {
      TocItemsAt(ts[..|ts| - 1], i);
    }
  }

  lemma AnchorsAppend(a: seq<Line>, b: seq<Line>)
    ensures Anchors(a + b) == Anchors(a) + Anchors(b)
  {
  }

  lemma LinkUrlsSingle(n: MdNode)
    ensures LinkUrlsAll([n]) == LinkUrls(n)
  {
    assert LinkUrlsAll([n]) == LinkUrls(n) + LinkUrlsAll([]);
  }

  /**
   * The TOC of a document links, in order, to every node of its outline: each heading's slug,
   * and `#` alone for each placeholder of a skipped level.
   */
  lemma TocLinksFollowPlan(hs: seq<HeadingInfo>)
    ensures LinkUrls(TocList(Outline(hs))) == Anchors(LinesOf(Plan(hs)))
  {
    OutlinePreorder(hs);
    TocItemsLinks(Outline(hs).children, 1);
  }

  /** A link as a reader of the rendered TOC meets it: its label text, its target, how many lists enclose it. */
  datatype LinkSite = LinkSite(text: string, url: string, depth: int)

  /** Every link of a tree in document order; `depth` counts the lists around `n`. */
  function LinkSites(n: MdNode, depth: int): seq<LinkSite> {
    match n
    case Parent(k, cs) =>
      if k.Link? then [LinkSite(ToStrings(cs), k.url, depth)] + LinkSitesAll(cs, depth)
      else LinkSitesAll(cs, if k == List then depth + 1 else depth)
    case _ => []
  }

  function LinkSitesAll(ns: seq<MdNode>, depth: int): seq<LinkSite> {
    if ns == [] then [] else LinkSites(ns[0], depth) + LinkSitesAll(ns[1..], depth)
  }

  /** What the TOC should show for the outline lines: each text, linked to its slug, at its level. */
  function Expected(ls: seq<Line>): (r: seq<LinkSite>)
    ensures |r| == |ls|
  {
    seq(|ls|, i requires 0 <= i < |ls| => LinkSite(ls[i].text, "#" + Slugify(ls[i].text), ls[i].level))
  }

  lemma ExpectedAppend(a: seq<Line>, b: seq<Line>)
    ensures Expected(a + b) == Expected(a) + Expected(b)
  {
  }

  lemma {:induction false} LinkSitesAppend(a: seq<MdNode>, b: seq<MdNode>, depth: int)
    ensures LinkSitesAll(a + b, depth) == LinkSitesAll(a, depth) + LinkSitesAll(b, depth)
  {
    if a != [] {
      assert (a + b)[1..] == a[1..] + b;
      LinkSitesAppend(a[1..], b, depth);
    } else {
      assert a + b == b;
    }
  }

  lemma LinkSitesSingle(n: MdNode, depth: int)
    ensures LinkSitesAll([n], depth) == LinkSites(n, depth)
  {
    assert LinkSitesAll([n], depth) == LinkSites(n, depth) + LinkSitesAll([], depth);
  }

  /** The link of an outline node is labelled with the node's text and sits where its item sits. */
  lemma TocLinkSite(text: string, depth: int)
    ensures LinkSites(TocLink(text), depth) == [LinkSite(text, "#" + Slugify(text), depth)]
  {
    var caption := [Text(text)];
    assert caption[0] == Text(text) && caption[1..] == [];
    assert ToStrings(caption) == text;
    assert LinkSitesAll(caption, depth) == [];
  }

  lemma {:induction false} TocItemsSites(ts: seq<HeadingTree>, level: int)
    ensures LinkSitesAll(TocItems(ts), level) == Expected(Preorder(ts, level))
    decreases ts
  {
    if ts != [] {
      var init, last := ts[..|ts| - 1], ts[|ts| - 1];
      var A := Preorder(init, level);
      var L := [Line(last.text, level)];
      var C := Preorder(last.children, level + 1);
      calc {
        LinkSitesAll(TocItems(ts), level);
        LinkSitesAll(TocItems(init) + [TocItem(last)], level);
        { LinkSitesAppend(TocItems(init), [TocItem(last)], level); LinkSitesSingle(TocItem(last), level); }
        LinkSitesAll(TocItems(init), level) + LinkSites(TocItem(last), level);
        { TocItemsSites(init, level); TocItemSites(last, level); }
        Expected(A) + Expected(L) + Expected(C);
        { ExpectedAppend(A, L); ExpectedAppend(A + L, C); }
        Expected(A + L + C);
        Expected(Preorder(ts, level));
      }
    }
  }

  /** An item: its own link at the item's level, then its children's links one list deeper. */
  lemma {:induction false} TocItemSites(c: HeadingTree, level: int)
    ensures LinkSites(TocItem(c), level) == Expected([Line(c.text, level)]) + Expected(Preorder(c.children, level + 1))
    decreases c
  {
    var link := TocLink(c.text);
    TocLinkSite(c.text, level);
    LinkSitesSingle(link, level);
    assert Expected([Line(c.text, level)]) == [LinkSite(c.text, "#" + Slugify(c.text), level)];
    if |c.children| > 0 {
      var nested := TocList(c);
      TocItemsSites(c.children, level + 1);
      LinkSitesSingle(nested, level);
      LinkSitesAppend([link], [nested], level);
      TocItemChildren(c);
    } else {
      TocItemChildren(c);
      assert Preorder(c.children, level + 1) == [];
    }
  }

  /**
   * `headingTreeToNode` renders the outline faithfully: reading the TOC's links in document order
   * gives every outline line, labelled with its text, pointing at its slug, and nested in as many
   * lists as its level. A flat list, or links with other labels, would give other sites.
   */
  lemma TocShowsPlan(hs: seq<HeadingInfo>)
    ensures LinkSites(TocList(Outline(hs)), 0) == Expected(LinesOf(Plan(hs)))
  {
    OutlinePreorder(hs);
    TocItemsSites(Outline(hs).children, 1);
  }

  /** With no headings the TOC is an empty list. */
  lemma EmptyToc()
    ensures TocList(Outline([])) == Parent(List, [])
  {
    assert MinDepthOf([]) == Infinity;
  }

  // ----- the paragraphs that get overwritten -----

  predicate IsMarkerParagraph(n: MdNode) {
    n.Parent? && n.kind == Paragraph && IsTocMarker(ToStrings(n.children))
  }

  /**
   * `visit(root, "paragraph", ...)` then `parent.children[idx] = tocNode`: a marker paragraph at
   * any depth is replaced by the TOC; the walk does not enter the TOC it puts in.
   */
  function ReplaceIn(n: MdNode, toc: MdNode): (r: MdNode)
    ensures IsMarkerParagraph(n) ==> r == toc
    ensures !IsMarkerParagraph(n) && !n.Parent? ==> r == n
    ensures !IsMarkerParagraph(n) && n.Parent? ==> r == Parent(n.kind, ReplaceAll(n.children, toc))
  {
    if IsMarkerParagraph(n) then toc
    else match n
      case Parent(k, cs) => Parent(k, ReplaceAll(cs, toc))
      case _ => n
  }

  /** Every child in turn, each at its own position. */
  function ReplaceAll(ns: seq<MdNode>, toc: MdNode): (r: seq<MdNode>)
    ensures |r| == |ns|
    ensures forall i :: 0 <= i < |ns| ==> r[i] == ReplaceIn(ns[i], toc)
  {
    seq(|ns|, i requires 0 <= i < |ns| => ReplaceIn(ns[i], toc))
  }

  /** No marker paragraph anywhere in the tree. */
  predicate MarkerFree(n: MdNode) {
    !IsMarkerParagraph(n) && (n.Parent? ==> forall i :: 0 <= i < |n.children| ==> MarkerFree(n.children[i]))
  }

  predicate AllMarkerFree(ns: seq<MdNode>) {
    forall i :: 0 <= i < |ns| ==> MarkerFree(ns[i])
  }

  /** Without a marker the tree is unchanged. */
  lemma {:induction false} ReplaceWithoutMarker(n: MdNode, toc: MdNode)
    requires MarkerFree(n)
    ensures ReplaceIn(n, toc) == n
  {
    if n.Parent? {
      forall i | 0 <= i < |n.children| ensures ReplaceIn(n.children[i], toc) == n.children[i] {
        ReplaceWithoutMarker(n.children[i], toc);
      }
      assert ReplaceAll(n.children, toc) == n.children;
    }
  }

  /** No paragraph anywhere in the tree. */
  predicate NoParagraphs(n: MdNode) {
    n.Parent? ==> n.kind != Paragraph && forall i :: 0 <= i < |n.children| ==> NoParagraphs(n.children[i])
  }

  /**
   * Paragraphs hold phrasing content only (text, emphasis, links, ...), never another paragraph,
   * as the markdown parser builds them.
   */
  predicate ParagraphsArePhrasing(n: MdNode) {
    n.Parent? ==>
      if n.kind == Paragraph then forall i :: 0 <= i < |n.children| ==> NoParagraphs(n.children[i])
      else forall i :: 0 <= i < |n.children| ==> ParagraphsArePhrasing(n.children[i])
  }

  lemma {:induction false} NoParagraphsMarkerFree(n: MdNode)
    requires NoParagraphs(n)
    ensures MarkerFree(n)
  {
    if n.Parent? {
      forall i | 0 <= i < |n.children| ensures MarkerFree(n.children[i]) {
        NoParagraphsMarkerFree(n.children[i]);
      }
    }
  }

  /** A TOC that holds no marker leaves none behind. */
  lemma {:induction false} ReplaceRemovesMarkers(n: MdNode, toc: MdNode)
    requires ParagraphsArePhrasing(n) && MarkerFree(toc)
    ensures MarkerFree(ReplaceIn(n, toc))
  {
    if !IsMarkerParagraph(n) && n.Parent? {
      var r := ReplaceIn(n, toc);
      if n.kind == Paragraph {
        forall i | 0 <= i < |n.children| ensures MarkerFree(n.children[i]) {
          NoParagraphsMarkerFree(n.children[i]);
        }
        ReplaceWithoutMarker(n, toc);
      } else {
        forall i | 0 <= i < |r.children| ensures MarkerFree(r.children[i]) {
          ReplaceRemovesMarkers(n.children[i], toc);
        }
      }
    }
  }

  /** Running the replacement a second time with the same TOC changes nothing. */
  lemma ReplaceIdempotent(n: MdNode, toc: MdNode)
    requires ParagraphsArePhrasing(n) && MarkerFree(toc)
    ensures ReplaceIn(ReplaceIn(n, toc), toc) == ReplaceIn(n, toc)
  {
    ReplaceRemovesMarkers(n, toc);
    ReplaceWithoutMarker(ReplaceIn(n, toc), toc);
  }

  /** The rendered TOC holds lists, list items, links and text: no paragraph. */
  lemma {:induction false} TocListHasNoParagraphs(t: HeadingTree)
    ensures NoParagraphs(TocList(t))
    decreases t
  {
    var items := TocItems(t.children);
    forall i | 0 <= i < |items| ensures NoParagraphs(items[i]) {
      var c := t.children[i];
      assert NoParagraphs(TocLink(c.text)) by {
        assert TocLink(c.text).children[0] == Text(c.text);
      }
      if |c.children| > 0 {
        TocListHasNoParagraphs(c);
      }
      TocItemsAt(t.children, i);
    }
  }

  // ----- the whole plugin -----

  /** `remarkTableOfContents`: outline of the headings, rendered, then written over every marker. */
  function TableOfContents(root: MdRoot): (r: MdRoot)
    ensures r.data == root.data && |r.children| == |root.children|
  {
    MdRoot(ReplaceAll(root.children, TocList(Outline(Headings(root.children)))), root.data)
  }

  /** The plugin as it runs: the two passes over the headings, rendering, and the overwrite. */
  method RemarkTableOfContents(root: MdRoot) returns (r: MdRoot)
    ensures r == TableOfContents(root)
  {
    var hs := Headings(root.children);
    var headingTree := BuildOutline(hs);
    var tocNode := TocList(headingTree);
    r := MdRoot(ReplaceAll(root.children, tocNode), root.data);
  }

  /** After the plugin no marker is left anywhere in a document the parser could produce. */
  lemma TableOfContentsRemovesMarkers(root: MdRoot)
    requires forall i :: 0 <= i < |root.children| ==> ParagraphsArePhrasing(root.children[i])
    ensures AllMarkerFree(TableOfContents(root).children)
  {
    var t := Outline(Headings(root.children));
    TocListHasNoParagraphs(t);
    NoParagraphsMarkerFree(TocList(t));
    forall i | 0 <= i < |root.children| ensures MarkerFree(ReplaceIn(root.children[i], TocList(t))) {
      ReplaceRemovesMarkers(root.children[i], TocList(t));
    }
  }

  /** A document without a marker comes out of the plugin unchanged. */
  lemma TableOfContentsWithoutMarker(root: MdRoot)
    requires AllMarkerFree(root.children)
    ensures TableOfContents(root) == root
  {
    var toc := TocList(Outline(Headings(root.children)));
    forall i | 0 <= i < |root.children| ensures ReplaceIn(root.children[i], toc) == root.children[i] {
      ReplaceWithoutMarker(root.children[i], toc);
    }
    assert ReplaceAll(root.children, toc) == root.children;
  }

  /**
   * A top-level marker paragraph becomes the TOC of the document's own headings, whose links,
   * labels and nesting follow the heading plan.
   */
  lemma TopLevelMarkerBecomesToc(root: MdRoot, i: int)
    requires 0 <= i < |root.children| && IsMarkerParagraph(root.children[i])
    ensures TableOfContents(root).children[i] == TocList(Outline(Headings(root.children)))
    ensures LinkSites(TableOfContents(root).children[i], 0) == Expected(LinesOf(Plan(Headings(root.children))))
  {
    TocShowsPlan(Headings(root.children));
  }
}
