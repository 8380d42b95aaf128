/**
 * Reading a post: the front-matter check, the metadata projection, and the runner that turns
 * the rest of the markdown tree into HTML through a fixed sequence of stages.
 */
module Pipeline {
  import opened Wrappers
  import opened Mdast
  import opened Hast
  import opened Toc
  import opened HeadingSlugs
  import opened Media
  import opened HeadingOutline

  /** A value decoded from YAML: a string, or anything else (number, date, list, ...). */
  datatype YamlValue = YString(s: string) | YOther(id: nat)

  /** What `yaml.load` gives for the front-matter block. */
  datatype Loaded =
    | Mapping(entries: map<string, YamlValue>)   // a YAML mapping: an object
    | Scalar(value: YamlValue)                   // a lone string, number, ...: no fields
    | Nullish                                    // an empty document: `null` or `undefined`
    | Malformed                                  // `yaml.load` throws

  /** The four fields of `PostMetadata`; `None` is `undefined`. */
  datatype Metadata = Metadata(icon: Option<YamlValue>, title: Option<YamlValue>,
                               date: Option<YamlValue>, excerpt: Option<YamlValue>)

  datatype Post = Post(metadata: Metadata, content: string)

  /**
   * The libraries the runner calls, none of which is part of this model: YAML decoding,
   * mdast-to-hast conversion with the default handlers, syntax highlighting of code blocks,
   * the HTML parser and serialiser used on raw blocks, rehype-raw, the final serialiser
   * (`allowDangerousHtml`), and WHATWG URL resolution.
   */
  datatype Libraries = Libraries(
    loadYaml: string -> Loaded,
    toHast: MdRoot -> HRoot,
    highlight: seq<HNode> -> seq<HNode>,
    html: HtmlCodec,
    rehypeRaw: HRoot -> HRoot,
    stringify: HRoot -> string,
    origin: OriginOf)

  // ----- the front matter -----

  const MISSING_FRONTMATTER: string := "Missing Frontmatter!"

  /** The metadata of a post without front matter: a warning title, a fixed date, no icon. */
  const FALLBACK: Metadata := Metadata(
    None,
    Some(YString("\U{26A0}\U{FE0F} Error!")),
    Some(YString("2000-01-01")),
    Some(YString(MISSING_FRONTMATTER)))

  predicate HasFrontmatter(tree: MdRoot) {
    |tree.children| > 0 && IsYaml(tree.children[0])
  }

  function Field(entries: map<string, YamlValue>, key: string): (r: Option<YamlValue>)
    ensures r.Some? <==> key in entries
    ensures r.Some? ==> r.value == entries[key]
  {
    if key in entries then Some(entries[key]) else None
  }

  /** `{icon: meta.icon, title: meta.title, date: meta.date, excerpt: meta.excerpt}`. */
  function Project(loaded: Loaded): Result<Metadata, Error> {
    match loaded
    case Mapping(e) => Success(Metadata(Field(e, "icon"), Field(e, "title"), Field(e, "date"), Field(e, "excerpt")))
    case Scalar(_) => Success(Metadata(None, None, None, None))
    case Nullish => Failure(MetadataNotObject)
    case Malformed => Failure(YamlException)
  }

  /** Only the four fields are kept: mappings that agree on them give the same metadata. */
  lemma ProjectKeepsFourFields(e1: map<string, YamlValue>, e2: map<string, YamlValue>)
    requires forall k :: k in {"icon", "title", "date", "excerpt"} ==>
               (k in e1 <==> k in e2) && (k in e1 ==> e1[k] == e2[k])
    ensures Project(Mapping(e1)) == Project(Mapping(e2))
    ensures Project(Mapping(e1)).value.title == Field(e1, "title")
  {
    assert "icon" in {"icon", "title", "date", "excerpt"};
    assert "title" in {"icon", "title", "date", "excerpt"};
    assert "date" in {"icon", "title", "date", "excerpt"};
    assert "excerpt" in {"icon", "title", "date", "excerpt"};
  }

  // ----- the runner's input and its stages -----

  /** `{...tree, children: tree.children.slice(1), data: {...tree.data, slug: postFolderName}}`. */
  function RunnerInput(tree: MdRoot, postFolderName: string): (r: MdRoot)
    requires HasFrontmatter(tree)
    ensures r.children == tree.children[1..] && |r.children| == |tree.children| - 1
    ensures "slug" in r.data && r.data["slug"] == postFolderName
    ensures forall k :: k in tree.data && k != "slug" ==> k in r.data && r.data[k] == tree.data[k]
    ensures forall k :: k in r.data ==> k == "slug" || k in tree.data
  {
    MdRoot(tree.children[1..], tree.data["slug" := postFolderName])
  }

  /** The custom `root` handler: the converted root gets the markdown root's `data`. */
  function ToHastRoot(lib: Libraries, root: MdRoot): (r: HRoot)
    ensures r.data == root.data
    ensures r.children == lib.toHast(root).children
  {
    var result := lib.toHast(root);
    HRoot(result.children, root.data)
  }

  /** The last custom stage: every `a` element gets `onClick`, with properties created if missing. */
  function OnClickNode(n: HNode): (r: HNode)
    ensures r.Element? <==> n.Element?
    ensures n.Element? ==> r.tag == n.tag && |r.children| == |n.children|
    ensures n.Element? && n.tag != "a" ==> r.props == n.props
    ensures n.Element? && n.tag == "a" ==>
      r.props == Some(n.props.GetOr(map[])["onClick" := PString(STOP_PROPAGATION)])
    ensures !n.Element? ==> r == n
    ensures Hast.ToString(r) == Hast.ToString(n)
    decreases n, 1
  {
    match n
    case Element(tag, props, cs) =>
      var props' := if tag == "a" then Some(props.GetOr(map[])["onClick" := PString(STOP_PROPAGATION)]) else props;
      Element(tag, props', OnClickAll(cs))
    case _ => n
  }

  const STOP_PROPAGATION: string := "event.stopPropagation()"

  function OnClickAll(ns: seq<HNode>): (r: seq<HNode>)
    ensures |r| == |ns|
    ensures Hast.ToStrings(r) == Hast.ToStrings(ns)
    decreases ns, 0
  {
    if ns == [] then []
    else
      var r := [OnClickNode(ns[0])] + OnClickAll(ns[1..]);
      assert r[0] == OnClickNode(ns[0]) && r[1..] == OnClickAll(ns[1..]);
      r
  }

  /** Every `a` element anywhere in the tree carries the `onClick` handler. */
  predicate Clickable(n: HNode) {
    n.Element? ==>
      && (n.tag == "a" ==> n.props.Some? && "onClick" in n.props.value
                            && n.props.value["onClick"] == PString(STOP_PROPAGATION))
      && forall i :: 0 <= i < |n.children| ==> Clickable(n.children[i])
  }

  lemma {:induction false} OnClickMakesClickable(n: HNode)
    ensures Clickable(OnClickNode(n))
    decreases n
  {
    if n.Element? {
      var r := OnClickNode(n);
      forall i | 0 <= i < |r.children| ensures Clickable(r.children[i]) {
        OnClickAllAt(n.children, i);
        OnClickMakesClickable(n.children[i]);
      }
    }
  }

  lemma {:induction false} OnClickAllAt(ns: seq<HNode>, i: int)
    requires 0 <= i < |ns|
    ensures OnClickAll(ns)[i] == OnClickNode(ns[i])
  {
    if i > 0 {
      OnClickAllAt(ns[1..], i - 1);
    }
  }

  /** The tree with the properties of every `a` element dropped, at any depth. */
  function WithoutLinkProps(n: HNode): HNode {
    match n
    case Element(tag, props, cs) => Element(tag, if tag == "a" then None else props, WithoutLinkPropsAll(cs))
    case _ => n
  }

  function WithoutLinkPropsAll(ns: seq<HNode>): seq<HNode> {
    if ns == [] then [] else [WithoutLinkProps(ns[0])] + WithoutLinkPropsAll(ns[1..])
  }

  /**
   * The stage touches nothing but the properties of `a` elements: every other element, at any
   * depth, keeps its tag, properties and children, and every text, raw and comment node stays.
   */
  lemma {:induction false} OnClickOnlyTouchesLinks(n: HNode)
    ensures WithoutLinkProps(OnClickNode(n)) == WithoutLinkProps(n)
    decreases n, 1
  {
    if n.Element? {
      OnClickOnlyTouchesLinksAll(n.children);
    }
  }

  lemma {:induction false} OnClickOnlyTouchesLinksAll(ns: seq<HNode>)
    ensures WithoutLinkPropsAll(OnClickAll(ns)) == WithoutLinkPropsAll(ns)
    decreases ns, 0
  {
    if ns != [] {
      OnClickOnlyTouchesLinks(ns[0]);
      OnClickOnlyTouchesLinksAll(ns[1..]);
      var r := OnClickAll(ns);
      assert r[0] == OnClickNode(ns[0]) && r[1..] == OnClickAll(ns[1..]);
    }
  }

  /** A second run of the stage changes nothing. */
  lemma {:induction false} OnClickIdempotent(n: HNode)
    ensures OnClickNode(OnClickNode(n)) == OnClickNode(n)
    decreases n, 1
  {
    if n.Element? {
      OnClickAllIdempotent(n.children);
      if n.tag == "a" {
        var p := n.props.GetOr(map[])["onClick" := PString(STOP_PROPAGATION)];
        assert p["onClick" := PString(STOP_PROPAGATION)] == p;
      }
    }
  }

  lemma {:induction false} OnClickAllIdempotent(ns: seq<HNode>)
    ensures OnClickAll(OnClickAll(ns)) == OnClickAll(ns)
    decreases ns, 0
  {
    if ns != [] {
      OnClickIdempotent(ns[0]);
      OnClickAllIdempotent(ns[1..]);
      var r := OnClickAll(ns);
      assert r[0] == OnClickNode(ns[0]) && r[1..] == OnClickAll(ns[1..]);
    }
  }

  /** The `onClick` visitor as it runs, over the children array. */
  method VisitOnClick(n: HNode) returns (r: HNode)
    ensures r == OnClickNode(n)
    decreases n, 1
  {
    if !n.Element? {
      return n;
    }
    var props := n.props;
    if n.tag == "a" {
      var p := if props.None? then map[] else props.value;
      props := Some(p["onClick" := PString(STOP_PROPAGATION)]);
    }
    var out: seq<HNode> := [];
    for i := 0 to |n.children|
      invariant out == OnClickAll(n.children[..i])
    {
      var c := VisitOnClick(n.children[i]);
      OnClickAllSnoc(n.children, i);
      out := out + [c];
    }
    assert n.children[..|n.children|] == n.children;
    r := Element(n.tag, props, out);
  }

  lemma OnClickAllSnoc(ns: seq<HNode>, i: int)
    requires 0 <= i < |ns|
    ensures OnClickAll(ns[..i + 1]) == OnClickAll(ns[..i]) + [OnClickNode(ns[i])]
  {
    var a := OnClickAll(ns[..i + 1]);
    forall j | 0 <= j < i + 1 ensures a[j] == (OnClickAll(ns[..i]) + [OnClickNode(ns[i])])[j] {
      OnClickAllAt(ns[..i + 1], j);
      if j < i {
        OnClickAllAt(ns[..i], j);
      }
    }
  }

  /** The `onClick` stage on the whole tree. */
  function OnClick(root: HRoot): (r: HRoot)
    ensures r.data == root.data && |r.children| == |root.children|
  {
    HRoot(OnClickAll(root.children), root.data)
  }

  /** The two markdown stages: image URLs, then the TOC; the result is what is converted to HTML. */
  function MarkdownStages(origin: OriginOf, tree: MdRoot): Result<MdRoot, Error> {
    var withImages :- UpdateImageUrls(origin, tree);
    Success(TableOfContents(withImages))
  }

  /** The first four stages: the markdown stages, conversion to HTML (with the root handler), highlighting. */
  function BeforeHtmlUrls(lib: Libraries, tree: MdRoot): (r: Result<HRoot, Error>)
    ensures r.Success? <==> UpdateImageUrls(lib.origin, tree).Success?
    ensures r.Success? ==> r.value.data == tree.data
  {
    var md :- MarkdownStages(lib.origin, tree);
    var converted := ToHastRoot(lib, md);
    Success(HRoot(lib.highlight(converted.children), converted.data))
  }

  /**
   * `runner.stringify(runner.runSync(tree))`, stage by stage in the order the plugins are
   * registered: the first four stages, raw-HTML URLs, heading anchors, rehype-raw, `onClick`,
   * serialisation. The TOC is rendered from the markdown headings, before any anchor exists.
   */
  function Run(lib: Libraries, tree: MdRoot): (r: Result<string, Error>)
    ensures r.Success? <==>
      && UpdateImageUrls(lib.origin, tree).Success?
      && UpdateHtmlUrls(lib.html, lib.origin, BeforeHtmlUrls(lib, tree).value).Success?
    ensures r.Failure? ==>
      r.error == (if BeforeHtmlUrls(lib, tree).Failure? then UpdateImageUrls(lib.origin, tree).error
                  else UpdateHtmlUrls(lib.html, lib.origin, BeforeHtmlUrls(lib, tree).value).error)
  {
    var highlighted :- BeforeHtmlUrls(lib, tree);
    var withHtmlUrls :- UpdateHtmlUrls(lib.html, lib.origin, highlighted);
    var withAnchors := HeadingSlugs.HeadingSlugs(withHtmlUrls);
    var raw := lib.rehypeRaw(withAnchors);
    var clickable := OnClick(raw);
    Success(lib.stringify(clickable))
  }

  /**
   * The slug put into the runner's input is still in the root data when the raw-HTML stage
   * runs, carried by the image and TOC stages, the root handler and the highlighter; so both
   * URL stages prefix with the post's folder name, and an empty name switches both off. The
   * render fails exactly when one of the two URL stages meets a URL it cannot parse.
   */
  lemma SlugReachesHtmlStage(lib: Libraries, tree: MdRoot, postFolderName: string)
    requires HasFrontmatter(tree)
    ensures var input := RunnerInput(tree, postFolderName);
      var before := BeforeHtmlUrls(lib, input);
      && (before.Success? ==> "slug" in before.value.data && before.value.data["slug"] == postFolderName)
      && (postFolderName == "" ==> before.Success? && SlugOf(before.value.data).None?)
      && (postFolderName != "" ==>
            && (before.Success? <==> AllResolve(lib.origin, ImageUrlsAll(tree.children[1..])))
            && (before.Success? ==> SlugOf(before.value.data) == Some(postFolderName)))
      && (Run(lib, input).Success? <==>
            before.Success? && UpdateHtmlUrls(lib.html, lib.origin, before.value).Success?)
  {
    var input := RunnerInput(tree, postFolderName);
    UpdateImageUrlsSpec(lib.origin, input);
  }

  // ----- stage order: the TOC is built from the input's headings -----

  lemma {:induction false} EraseImagesAt(ns: seq<MdNode>, i: int)
    requires 0 <= i < |ns|
    ensures |EraseImagesAll(ns)| == |ns| && EraseImagesAll(ns)[i] == EraseImages(ns[i])
  {
    EraseImagesLength(ns);
    if i > 0 {
      EraseImagesAt(ns[1..], i - 1);
    }
  }

  lemma {:induction false} EraseImagesLength(ns: seq<MdNode>)
    ensures |EraseImagesAll(ns)| == |ns|
  {
    if ns != [] {
      EraseImagesLength(ns[1..]);
    }
  }

  /** Image URLs are no part of a node's text: the alt text stays. */
  lemma {:induction false} EraseKeepsText(n: MdNode)
    ensures Mdast.ToString(EraseImages(n)) == Mdast.ToString(n)
    decreases n, 1
  {
    if n.Parent? {
      EraseKeepsTextAll(n.children);
    }
  }

  lemma {:induction false} EraseKeepsTextAll(ns: seq<MdNode>)
    ensures Mdast.ToStrings(EraseImagesAll(ns)) == Mdast.ToStrings(ns)
    decreases ns, 0
  {
    if ns != [] {
      var e := EraseImagesAll(ns);
      assert e[0] == EraseImages(ns[0]) && e[1..] == EraseImagesAll(ns[1..]);
      EraseKeepsText(ns[0]);
      EraseKeepsTextAll(ns[1..]);
    }
  }

  lemma {:induction false} EraseKeepsHeadings(n: MdNode)
    ensures HeadingsIn(EraseImages(n)) == HeadingsIn(n)
    decreases n, 1
  {
    if n.Parent? {
      EraseKeepsTextAll(n.children);
      EraseKeepsHeadingsAll(n.children);
    }
  }

  lemma {:induction false} EraseKeepsHeadingsAll(ns: seq<MdNode>)
    ensures Headings(EraseImagesAll(ns)) == Headings(ns)
    decreases ns, 0
  {
    if ns != [] {
      var e := EraseImagesAll(ns);
      assert e[0] == EraseImages(ns[0]) && e[1..] == EraseImagesAll(ns[1..]);
      EraseKeepsHeadings(ns[0]);
      EraseKeepsHeadingsAll(ns[1..]);
    }
  }

  lemma EraseKeepsMarker(n: MdNode)
    ensures IsMarkerParagraph(EraseImages(n)) <==> IsMarkerParagraph(n)
  {
    if n.Parent? {
      EraseKeepsTextAll(n.children);
    }
  }

  /** Trees that differ only in image URLs have the same headings and the same markers. */
  lemma SameUpToImages(a: seq<MdNode>, b: seq<MdNode>, i: int)
    requires EraseImagesAll(a) == EraseImagesAll(b) && 0 <= i < |b|
    ensures |a| == |b| && Headings(a) == Headings(b)
    ensures IsMarkerParagraph(a[i]) <==> IsMarkerParagraph(b[i])
  {
    EraseImagesLength(a);
    EraseImagesAt(b, i);
    EraseImagesAt(a, i);
    EraseKeepsMarker(a[i]);
    EraseKeepsMarker(b[i]);
    EraseKeepsHeadingsAll(a);
    EraseKeepsHeadingsAll(b);
  }

  /** The image stage changes nothing but image URLs. */
  lemma ImageStageOnlyUrls(origin: OriginOf, tree: MdRoot)
    requires UpdateImageUrls(origin, tree).Success?
    ensures EraseImagesAll(UpdateImageUrls(origin, tree).value.children) == EraseImagesAll(tree.children)
  {
    UpdateImageUrlsSpec(origin, tree);
  }

  /** A tree differing from `tree` only in image URLs gets the TOC of `tree`'s headings. */
  lemma TocUpToImages(w: MdRoot, tree: MdRoot, i: int)
    requires EraseImagesAll(w.children) == EraseImagesAll(tree.children)
    requires 0 <= i < |tree.children| && IsMarkerParagraph(tree.children[i])
    ensures i < |TableOfContents(w).children|
    ensures TableOfContents(w).children[i] == TocList(Outline(Headings(tree.children)))
  {
    SameUpToImages(w.children, tree.children, i);
    TopLevelMarkerBecomesToc(w, i);
  }

  /**
   * The TOC is rendered in markdown, after the image stage (which changes no heading and no
   * marker) and before the conversion to HTML, so before any heading anchor exists: the tree
   * the first four stages convert has, for a top-level marker of the runner's input, the TOC of
   * the input's own headings, and what they hand on is that tree converted and highlighted.
   */
  lemma TocBuiltFromInputHeadings(lib: Libraries, tree: MdRoot, i: int)
    requires 0 <= i < |tree.children| && IsMarkerParagraph(tree.children[i])
    ensures BeforeHtmlUrls(lib, tree).Success? <==> UpdateImageUrls(lib.origin, tree).Success?
    ensures BeforeHtmlUrls(lib, tree).Success? ==>
      && MarkdownStages(lib.origin, tree).Success?
      && var md := MarkdownStages(lib.origin, tree).value;
      && i < |md.children|
      && md.children[i] == TocList(Outline(Headings(tree.children)))
      && BeforeHtmlUrls(lib, tree).value.children == lib.highlight(lib.toHast(md).children)
  {
    if UpdateImageUrls(lib.origin, tree).Success? {
      ImageStageOnlyUrls(lib.origin, tree);
      TocUpToImages(UpdateImageUrls(lib.origin, tree).value, tree, i);
    }
  }

  /** `readPost`, from the parsed markdown tree (reading and parsing the file are left out). */
  function ReadPost(lib: Libraries, tree: MdRoot, postFolderName: string): (r: Result<Post, Error>)
    ensures !HasFrontmatter(tree) ==> r == Success(Post(FALLBACK, MISSING_FRONTMATTER))
    ensures HasFrontmatter(tree) ==>
      (r.Success? <==> Project(lib.loadYaml(tree.children[0].value)).Success?
                       && Run(lib, RunnerInput(tree, postFolderName)).Success?)
    ensures HasFrontmatter(tree) && r.Success? ==> r.value.content == Run(lib, RunnerInput(tree, postFolderName)).value
  {
    if !HasFrontmatter(tree) then Success(Post(FALLBACK, MISSING_FRONTMATTER))
    else
      var metadata :- Project(lib.loadYaml(tree.children[0].value));
      var content :- Run(lib, RunnerInput(tree, postFolderName));
      Success(Post(metadata, content))
  }

  /**
   * Without front matter the post is the fixed fallback, whatever the libraries do; with it,
   * a YAML failure is reported before anything of the runner happens.
   */
  lemma ReadPostOutcomes(lib: Libraries, tree: MdRoot, postFolderName: string)
    ensures !HasFrontmatter(tree) ==>
      ReadPost(lib, tree, postFolderName) == Success(Post(FALLBACK, "Missing Frontmatter!"))
      && FALLBACK.icon.None? && FALLBACK.date == Some(YString("2000-01-01"))
    ensures HasFrontmatter(tree) && lib.loadYaml(tree.children[0].value).Malformed? ==>
      ReadPost(lib, tree, postFolderName) == Failure(YamlException)
    ensures HasFrontmatter(tree) && lib.loadYaml(tree.children[0].value).Nullish? ==>
      ReadPost(lib, tree, postFolderName) == Failure(MetadataNotObject)
    ensures HasFrontmatter(tree) && ReadPost(lib, tree, postFolderName).Success? ==>
      ReadPost(lib, tree, postFolderName).value.metadata == Project(lib.loadYaml(tree.children[0].value)).value
  {
  }
}
