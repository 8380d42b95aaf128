/**
 * The heading-anchor plugin on the HTML tree: every `h1`–`h6` element that has properties gets
 * the slug of its text as `id`, and an empty link to `#slug` as its new first child.
 */
module HeadingSlugs {
  import opened Wrappers
  import opened Slug
  import opened Hast

  /** The empty `<a>` put in front of a heading's children. */
  function AnchorFor(slug: string): (r: HNode)
    ensures r.Element? && r.tag == "a" && r.children == [] && r.props.Some?
    ensures r.props.value == map["href" := PString("#" + slug), "role" := PString("img"),
                                 "aria-label" := PString("Link to heading")]
  {
    Element("a", Some(map["href" := PString("#" + slug), "role" := PString("img"),
                          "aria-label" := PString("Link to heading")]), [])
  }

  predicate IsDecoratedHeading(n: HNode) {
    n.Element? && IsHeadingTag(n.tag) && n.props.Some?
  }

  /**
   * `visit(tree, "element", ...)` of `rehypeHeadingSlugs`: a heading with properties gets its
   * `id` and the anchor; the walk then goes on into the children, the anchor included.
   * No element loses or gains text, tags never change, and only headings change properties.
   */
  function DecorateNode(n: HNode): (r: HNode)
    ensures ToString(r) == ToString(n)
    ensures r.Element? <==> n.Element?
    ensures n.Element? ==> r.tag == n.tag
    ensures n.Element? && !IsDecoratedHeading(n) ==> r == Element(n.tag, n.props, DecorateAll(n.children))
    ensures n.Element? && IsDecoratedHeading(n) ==>
      && r.props == Some(n.props.value["id" := PString(Slugify(ToString(n)))])
      && r.children == [AnchorFor(Slugify(ToString(n)))] + DecorateAll(n.children)
    ensures !n.Element? ==> r == n
    decreases n, 1
  {
    match n
    case Element(tag, props, cs) =>
      if IsHeadingTag(tag) && props.Some? then
        var slug := Slugify(ToStrings(cs));
        var anchor := AnchorFor(slug);
        var rest := DecorateAll(cs);
        assert ToStrings([anchor] + rest) == ToStrings(cs) by {
          assert ([anchor] + rest)[0] == anchor && ([anchor] + rest)[1..] == rest;
          assert ToString(anchor) == "";
        }
        Element(tag, Some(props.value["id" := PString(slug)]), [anchor] + rest)
      else
        Element(tag, props, DecorateAll(cs))
    case _ => n
  }

  function DecorateAll(ns: seq<HNode>): (r: seq<HNode>)
    ensures |r| == |ns|
    ensures ToStrings(r) == ToStrings(ns)
    decreases ns, 0
  {
    if ns == [] then []
    else
      var r := [DecorateNode(ns[0])] + DecorateAll(ns[1..]);
      assert r[0] == DecorateNode(ns[0]) && r[1..] == DecorateAll(ns[1..]);
      r
  }

  /** `rehypeHeadingSlugs` on a whole tree. */
  function HeadingSlugs(root: HRoot): (r: HRoot)
    ensures r.data == root.data && |r.children| == |root.children|
    ensures ToStrings(r.children) == ToStrings(root.children)
  {
    HRoot(DecorateAll(root.children), root.data)
  }

  /**
   * After decoration a heading's `id` is the slug of the text it shows, and the anchor in front
   * of it links to exactly that id.
   */
  lemma AnchorLinksToId(n: HNode)
    requires IsDecoratedHeading(n)
    ensures var r := DecorateNode(n);
      && r.props.Some? && "id" in r.props.value && r.props.value["id"] == PString(Slugify(ToString(r)))
      && |r.children| >= 1 && r.children[0].props.Some?
      && r.children[0].props.value["href"] == PString("#" + r.props.value["id"].s)
  {
  }

  /** A decorated heading: its `id` is the slug of its text, and the anchor to that id comes first. */
  predicate HasOwnAnchor(n: HNode)
    requires IsDecoratedHeading(n)
  {
    var slug := Slugify(ToString(n));
    && "id" in n.props.value && n.props.value["id"] == PString(slug)
    && |n.children| >= 1 && n.children[0] == AnchorFor(slug)
  }

  /** Every `h1`–`h6` element with properties, at any depth, carries its id and its anchor. */
  predicate Anchored(n: HNode) {
    n.Element? ==>
      && (IsDecoratedHeading(n) ==> HasOwnAnchor(n))
      && forall i :: 0 <= i < |n.children| ==> Anchored(n.children[i])
  }

  /**
   * The walk reaches every element: after decoration each heading with properties, however deep
   * below blockquotes, lists or other headings, has its id and its anchor.
   */
  lemma {:induction false} DecorateAnchorsEverywhere(n: HNode)
    ensures Anchored(DecorateNode(n))
    decreases n
  {
    if n.Element? {
      var r := DecorateNode(n);
      var cs := n.children;
      if IsDecoratedHeading(n) {
        forall i | 0 <= i < |r.children| ensures Anchored(r.children[i]) {
          if i == 0 {
            assert !IsHeadingTag(r.children[0].tag);
          } else {
            DecorateAllAt(cs, i - 1);
            DecorateAnchorsEverywhere(cs[i - 1]);
          }
        }
      } else {
        forall i | 0 <= i < |r.children| ensures Anchored(r.children[i]) {
          DecorateAllAt(cs, i);
          DecorateAnchorsEverywhere(cs[i]);
        }
      }
    }
  }

  /** `rehypeHeadingSlugs` leaves every top-level subtree anchored. */
  lemma HeadingSlugsAnchorsEverywhere(root: HRoot)
    ensures forall i :: 0 <= i < |root.children| ==> Anchored(HeadingSlugs(root).children[i])
  {
    forall i | 0 <= i < |root.children| ensures Anchored(HeadingSlugs(root).children[i]) {
      DecorateAllAt(root.children, i);
      DecorateAnchorsEverywhere(root.children[i]);
    }
  }

  /** The old children follow the anchor, in their original order, each decorated in turn. */
  lemma {:induction false} ChildrenFollowAnchor(n: HNode, i: int)
    requires IsDecoratedHeading(n) && 0 <= i < |n.children|
    ensures DecorateNode(n).children[i + 1] == DecorateNode(n.children[i])
  {
    DecorateAllAt(n.children, i);
  }

  lemma {:induction false} DecorateAllAt(ns: seq<HNode>, i: int)
    requires 0 <= i < |ns|
    ensures DecorateAll(ns)[i] == DecorateNode(ns[i])
  {
    if i > 0 {
      DecorateAllAt(ns[1..], i - 1);
    }
  }

  /** Decorating is not idempotent: a second run puts a second anchor in front of every heading. */
  lemma DecorateTwiceAddsTwoAnchors(n: HNode)
    requires IsDecoratedHeading(n)
    ensures |DecorateNode(DecorateNode(n)).children| == |n.children| + 2
  {
  }
}
