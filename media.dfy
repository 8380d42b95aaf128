/**
 * Relative media URLs of a post are made relative to the post's folder: image nodes of the
 * markdown tree, and `src` of `video` elements inside raw HTML blocks of the HTML tree.
 */
module Media {
  import opened Wrappers
  import opened Mdast
  import opened Hast

  /** The dummy base a URL is resolved against; a URL is relative when it keeps this origin. */
  const RELATIVE_BASE_URL: string := "http://is-relative.com"

  /**
   * `new URL(url, RELATIVE_BASE_URL).origin`: `None` when the URL constructor throws.
   * WHATWG URL parsing is not part of this model; it is a parameter.
   */
  type OriginOf = string -> Option<string>

  /** `root.data?.slug`, where `if (!slug) return` also turns the empty string away. */
  function SlugOf(data: map<string, string>): (r: Option<string>)
    ensures r.Some? <==> "slug" in data && data["slug"] != ""
    ensures r.Some? ==> r.value == data["slug"]
  {
    if "slug" in data && data["slug"] != "" then Some(data["slug"]) else None
  }

  predicate IsRelative(origin: OriginOf, url: string) {
    origin(url) == Some(RELATIVE_BASE_URL)
  }

  function Prefixed(slug: string, url: string): string {
    "./" + slug + "/" + url
  }

  /** What one URL becomes, once it is known to resolve. */
  function RewriteUrl(slug: string, origin: OriginOf, url: string): string {
    if IsRelative(origin, url) then Prefixed(slug, url) else url
  }

  function RewriteUrls(slug: string, origin: OriginOf, urls: seq<string>): (r: seq<string>)
    ensures |r| == |urls|
  {
    seq(|urls|, i requires 0 <= i < |urls| => RewriteUrl(slug, origin, urls[i]))
  }

  predicate AllResolve(origin: OriginOf, urls: seq<string>) {
    forall i :: 0 <= i < |urls| ==> origin(urls[i]).Some?
  }

  /** The URL whose `new URL(...)` throws first. */
  function FirstUnresolved(origin: OriginOf, urls: seq<string>): (u: string)
    requires !AllResolve(origin, urls)
    ensures u in urls && origin(u).None?
  {
    if origin(urls[0]).None? then urls[0]
    else
      assert !AllResolve(origin, urls[1..]) by {
        var i :| 0 <= i < |urls| && origin(urls[i]).None?;
        assert urls[1..][i - 1] == urls[i];
      }
      FirstUnresolved(origin, urls[1..])
  }

  /** The URL named is the first that does not parse: every URL before it parses. */
  lemma {:induction false} FirstUnresolvedIsFirst(origin: OriginOf, urls: seq<string>)
    requires !AllResolve(origin, urls)
    ensures exists k :: 0 <= k < |urls| && urls[k] == FirstUnresolved(origin, urls)
                        && AllResolve(origin, urls[..k])
  {
    var u := FirstUnresolved(origin, urls);
    if origin(urls[0]).None? {
      assert urls[0] == u && AllResolve(origin, urls[..0]);
    } else {
      assert !AllResolve(origin, urls[1..]) by {
        var i :| 0 <= i < |urls| && origin(urls[i]).None?;
        assert urls[1..][i - 1] == urls[i];
      }
      FirstUnresolvedIsFirst(origin, urls[1..]);
      var rest := urls[1..];
      var j :| 0 <= j < |rest| && rest[j] == u && AllResolve(origin, rest[..j]);
      assert urls[j + 1] == u;
      var before, inner := urls[..j + 1], rest[..j];
      forall i | 0 <= i < |before| ensures origin(before[i]).Some? {
        if i > 0 { assert before[i] == inner[i - 1]; }
      }
    }
  }

  lemma UrlsAppend(slug: string, origin: OriginOf, a: seq<string>, b: seq<string>)
    ensures RewriteUrls(slug, origin, a + b) == RewriteUrls(slug, origin, a) + RewriteUrls(slug, origin, b)
    ensures AllResolve(origin, a + b) <==> AllResolve(origin, a) && AllResolve(origin, b)
    ensures !AllResolve(origin, a + b) ==>
      FirstUnresolved(origin, a + b)
        == if !AllResolve(origin, a) then FirstUnresolved(origin, a) else FirstUnresolved(origin, b)
  {
    RewriteUrlsAppend(slug, origin, a, b);
    AllResolveAppend(origin, a, b);
    if !AllResolve(origin, a + b) {
      FirstUnresolvedAppend(origin, a, b);
    }
  }

  lemma AllResolveAppend(origin: OriginOf, a: seq<string>, b: seq<string>)
    ensures AllResolve(origin, a + b) <==> AllResolve(origin, a) && AllResolve(origin, b)
  {
    if AllResolve(origin, a + b) {
      forall i | 0 <= i < |a| ensures origin(a[i]).Some? {
        assert a[i] == (a + b)[i];
      }
      forall i | 0 <= i < |b| ensures origin(b[i]).Some? {
        assert b[i] == (a + b)[|a| + i];
      }
    }
  }

  lemma {:induction false} FirstUnresolvedAppend(origin: OriginOf, a: seq<string>, b: seq<string>)
    requires !AllResolve(origin, a + b)
    ensures !AllResolve(origin, a) || !AllResolve(origin, b)
    ensures FirstUnresolved(origin, a + b)
        == if !AllResolve(origin, a) then FirstUnresolved(origin, a) else FirstUnresolved(origin, b)
  {
    var i :| 0 <= i < |a + b| && origin((a + b)[i]).None?;
    if i >= |a| {
      assert (a + b)[i] == b[i - |a|];
    }
    if a == [] {
      assert a + b == b;
    } else {
      assert (a + b)[0] == a[0];
      if origin(a[0]).Some? {
        assert (a + b)[1..] == a[1..] + b;
        FirstUnresolvedAppend(origin, a[1..], b);
        if !AllResolve(origin, a) {
          var j :| 0 <= j < |a| && origin(a[j]).None?;
          assert a[1..][j - 1] == a[j];
        } else {
          assert AllResolve(origin, a[1..]) by {
            forall j | 0 <= j < |a[1..]| ensures origin(a[1..][j]).Some? {
              assert a[1..][j] == a[j + 1];
            }
          }
        }
      }
    }
  }

  // ----- `remarkUpdateImageUrls` -----

  /** The image URLs of a markdown tree, in the order `visit` meets them. */
  function ImageUrls(n: MdNode): seq<string> {
    match n
    case Parent(_, cs) => ImageUrlsAll(cs)
    case Image(url, _) => [url]
    case Literal(_, _) => []
  }

  function ImageUrlsAll(ns: seq<MdNode>): seq<string> {
    if ns == [] then [] else ImageUrls(ns[0]) + ImageUrlsAll(ns[1..])
  }

  /** The tree with every image URL blanked: what the rewrite must leave alone. */
  function EraseImages(n: MdNode): MdNode {
    match n
    case Parent(k, cs) => Parent(k, EraseImagesAll(cs))
    case Image(_, alt) => Image("", alt)
    case Literal(_, _) => n
  }

  function EraseImagesAll(ns: seq<MdNode>): seq<MdNode> {
    if ns == [] then [] else [EraseImages(ns[0])] + EraseImagesAll(ns[1..])
  }

  /** The visitor on one node: a relative image URL gets the `./slug/` prefix. */
  function ImageNode(slug: string, origin: OriginOf, n: MdNode): Result<MdNode, Error>
    decreases n, 1
  {
    match n
    case Image(url, alt) =>
      if origin(url).None? then Failure(InvalidUrl(url))
      else Success(Image(RewriteUrl(slug, origin, url), alt))
    case Parent(k, cs) =>
      var cs' :- ImageNodes(slug, origin, cs);
      Success(Parent(k, cs'))
    case Literal(_, _) => Success(n)
  }

  function ImageNodes(slug: string, origin: OriginOf, ns: seq<MdNode>): Result<seq<MdNode>, Error>
    decreases ns, 0
  {
    if ns == [] then Success([])
    else
      var head :- ImageNode(slug, origin, ns[0]);
      var tail :- ImageNodes(slug, origin, ns[1..]);
      Success([head] + tail)
  }

  /**
   * The image pass succeeds exactly when every image URL can be parsed, fails on the first
   * one that cannot, and otherwise rewrites the image URLs one by one and changes nothing else.
   */
  lemma {:induction false} ImageNodeSpec(slug: string, origin: OriginOf, n: MdNode)
    ensures var r := ImageNode(slug, origin, n);
      && (r.Success? <==> AllResolve(origin, ImageUrls(n)))
      && (r.Success? ==> ImageUrls(r.value) == RewriteUrls(slug, origin, ImageUrls(n))
                         && EraseImages(r.value) == EraseImages(n))
      && (r.Failure? ==> r.error == InvalidUrl(FirstUnresolved(origin, ImageUrls(n))))
    decreases n, 1
  {
    match n
    case Image(url, alt) =>
      assert ImageUrls(n) == [url] && [url][0] == url;
      if origin(url).None? {
        assert !AllResolve(origin, [url]);
      }
    case Parent(k, cs) =>
      ImageNodesSpec(slug, origin, cs);
    case Literal(_, _) =>
  }

  lemma {:induction false} ImageNodesSpec(slug: string, origin: OriginOf, ns: seq<MdNode>)
    ensures var r := ImageNodes(slug, origin, ns);
      && (r.Success? <==> AllResolve(origin, ImageUrlsAll(ns)))
      && (r.Success? ==> ImageUrlsAll(r.value) == RewriteUrls(slug, origin, ImageUrlsAll(ns))
                         && EraseImagesAll(r.value) == EraseImagesAll(ns))
      && (r.Failure? ==> r.error == InvalidUrl(FirstUnresolved(origin, ImageUrlsAll(ns))))
    decreases ns, 0
  {
    if ns != [] {
      ImageNodeSpec(slug, origin, ns[0]);
      ImageNodesSpec(slug, origin, ns[1..]);
      UrlsAppend(slug, origin, ImageUrls(ns[0]), ImageUrlsAll(ns[1..]));
      var h := ImageNode(slug, origin, ns[0]);
      var t := ImageNodes(slug, origin, ns[1..]);
      if h.Success? && t.Success? {
        var out := [h.value] + t.value;
        assert out[0] == h.value && out[1..] == t.value;
        UrlsAppend(slug, origin, ImageUrls(h.value), ImageUrlsAll(t.value));
      }
    }
  }

  /** `remarkUpdateImageUrls`: nothing happens without a slug. */
  function UpdateImageUrls(origin: OriginOf, root: MdRoot): (r: Result<MdRoot, Error>)
    ensures SlugOf(root.data).None? ==> r == Success(root)
    ensures r.Success? ==> r.value.data == root.data
  {
    match SlugOf(root.data)
    case None => Success(root)
    case Some(slug) =>
      var cs :- ImageNodes(slug, origin, root.children);
      Success(MdRoot(cs, root.data))
  }

  /** The image pass over a whole document, stated on its image URLs and on everything else. */
  lemma UpdateImageUrlsSpec(origin: OriginOf, root: MdRoot)
    ensures SlugOf(root.data).None? ==> UpdateImageUrls(origin, root) == Success(root)
    ensures SlugOf(root.data).Some? ==>
      var slug, r := SlugOf(root.data).value, UpdateImageUrls(origin, root);
      && (r.Success? <==> AllResolve(origin, ImageUrlsAll(root.children)))
      && (r.Success? ==>
            && r.value.data == root.data
            && ImageUrlsAll(r.value.children) == RewriteUrls(slug, origin, ImageUrlsAll(root.children))
            && EraseImagesAll(r.value.children) == EraseImagesAll(root.children))
  {
    if SlugOf(root.data).Some? {
      ImageNodesSpec(SlugOf(root.data).value, origin, root.children);
    }
  }

  /**
   * The rewrite is a single prefixing step: a second run prefixes again whenever the prefixed
   * URL is still relative, which it is for any URL a browser would call relative.
   */
  lemma ImageRewriteNotIdempotent(slug: string, origin: OriginOf, url: string, alt: string)
    requires IsRelative(origin, url) && IsRelative(origin, Prefixed(slug, url))
    ensures var once := ImageNode(slug, origin, Image(url, alt));
      && once == Success(Image(Prefixed(slug, url), alt))
      && ImageNode(slug, origin, once.value) == Success(Image(Prefixed(slug, Prefixed(slug, url)), alt))
      && Prefixed(slug, Prefixed(slug, url)) != Prefixed(slug, url)
  {
    assert |Prefixed(slug, Prefixed(slug, url))| > |Prefixed(slug, url)|;
  }

  // ----- the visitor as it runs, over the children arrays -----

  method VisitImage(slug: string, origin: OriginOf, n: MdNode) returns (r: Result<MdNode, Error>)
    ensures r == ImageNode(slug, origin, n)
    decreases n, 1
  {
    match n
    case Image(url, alt) =>
      var o := origin(url);
      if o.None? {
        return Failure(InvalidUrl(url));
      }
      if o.value == RELATIVE_BASE_URL {
        r := Success(Image(Prefixed(slug, url), alt));
      } else {
        r := Success(n);
      }
    case Parent(k, cs) =>
      var cs' := VisitImages(slug, origin, cs);
      if cs'.Failure? {
        return Failure(cs'.error);
      }
      r := Success(Parent(k, cs'.value));
    case Literal(_, _) =>
      r := Success(n);
  }

  method VisitImages(slug: string, origin: OriginOf, ns: seq<MdNode>) returns (r: Result<seq<MdNode>, Error>)
    ensures r == ImageNodes(slug, origin, ns)
    decreases ns, 0
  {
    var out: seq<MdNode> := [];
    assert ns[0..] == ns;
    JoinNothing(ImageNodes(slug, origin, ns));
    for i := 0 to |ns|
      invariant ImageNodes(slug, origin, ns) == Join(Success(out), ImageNodes(slug, origin, ns[i..]))
    {
      var n' := VisitImage(slug, origin, ns[i]);
      assert ns[i..][0] == ns[i] && ns[i..][1..] == ns[i + 1..];
      if n'.Failure? {
        return Failure(n'.error);
      }
      JoinAssoc(out, [n'.value], ImageNodes(slug, origin, ns[i + 1..]));
      out := out + [n'.value];
    }
    assert ns[|ns|..] == [] && out + [] == out;
    r := Success(out);
  }

  /** Nodes done so far, followed by what the rest of the walk gives. */
  function Join<T>(done: Result<seq<T>, Error>, rest: Result<seq<T>, Error>): Result<seq<T>, Error> {
    if done.Failure? then done
    else if rest.Failure? then rest
    else Success(done.value + rest.value)
  }

  lemma JoinNothing<T>(rest: Result<seq<T>, Error>)
    ensures Join(Success([]), rest) == rest
  {
    if rest.Success? {
      assert [] + rest.value == rest.value;
    }
  }

  lemma JoinAssoc<T>(a: seq<T>, b: seq<T>, rest: Result<seq<T>, Error>)
    ensures Join(Success(a), Join(Success(b), rest)) == Join(Success(a + b), rest)
  {
    if rest.Success? {
      assert a + (b + rest.value) == (a + b) + rest.value;
    }
  }

  /** `remarkUpdateImageUrls` as a plugin run. */
  method RemarkUpdateImageUrls(origin: OriginOf, root: MdRoot) returns (r: Result<MdRoot, Error>)
    ensures r == UpdateImageUrls(origin, root)
  {
    var slug := SlugOf(root.data);
    if slug.None? {
      return Success(root);
    }
    var cs := VisitImages(slug.value, origin, root.children);
    if cs.Failure? {
      return Failure(cs.error);
    }
    r := Success(MdRoot(cs.value, root.data));
  }

  // ----- `rehypeUpdateHtmlUrls` -----

  /** rehype-parse and rehype-stringify, which are not part of this model. */
  datatype HtmlCodec = HtmlCodec(parse: string -> HRoot, stringify: HRoot -> string)

  /**
   * The one attribute looked at: `src`, on `video` elements only (`SRC_ATTRIBUTES`), when
   * the element has properties and the value is a string.
   */
  function VideoSrc(n: HNode): (r: Option<string>)
    ensures r.Some? ==> n.Element? && n.tag == "video" && n.props.Some? && "src" in n.props.value
                        && n.props.value["src"] == PString(r.value)
  {
    if n.Element? && n.tag == "video" && n.props.Some? && "src" in n.props.value
       && n.props.value["src"].PString?
    then Some(n.props.value["src"].s)
    else None
  }

  function WithSrc(n: HNode, url: string): HNode
    requires VideoSrc(n).Some?
  {
    Element(n.tag, Some(n.props.value["src" := PString(url)]), n.children)
  }

  /** The string `src` values of the videos of an HTML tree, in the order `visit` meets them. */
  function VideoSrcs(n: HNode): seq<string> {
    match n
    case Element(_, _, cs) => (if VideoSrc(n).Some? then [VideoSrc(n).value] else []) + VideoSrcsAll(cs)
    case _ => []
  }

  function VideoSrcsAll(ns: seq<HNode>): seq<string> {
    if ns == [] then [] else VideoSrcs(ns[0]) + VideoSrcsAll(ns[1..])
  }

  /** The tree with every video `src` string blanked: what the rewrite must leave alone. */
  function EraseVideoSrcs(n: HNode): HNode {
    match n
    case Element(tag, props, cs) =>
      var m := if VideoSrc(n).Some? then WithSrc(n, "") else n;
      Element(tag, m.props, EraseVideoSrcsAll(cs))
    case _ => n
  }

  function EraseVideoSrcsAll(ns: seq<HNode>): seq<HNode> {
    if ns == [] then [] else [EraseVideoSrcs(ns[0])] + EraseVideoSrcsAll(ns[1..])
  }

  predicate AnyRelative(origin: OriginOf, urls: seq<string>) {
    exists i :: 0 <= i < |urls| && IsRelative(origin, urls[i])
  }

  lemma AnyRelativeAppend(origin: OriginOf, a: seq<string>, b: seq<string>)
    ensures AnyRelative(origin, a + b) <==> AnyRelative(origin, a) || AnyRelative(origin, b)
  {
    if AnyRelative(origin, a + b) {
      var i :| 0 <= i < |a + b| && IsRelative(origin, (a + b)[i]);
      if i < |a| {
        assert a[i] == (a + b)[i];
      } else {
        assert b[i - |a|] == (a + b)[i];
      }
    }
    if AnyRelative(origin, a) {
      var i :| 0 <= i < |a| && IsRelative(origin, a[i]);
      assert (a + b)[i] == a[i];
    }
    if AnyRelative(origin, b) {
      var i :| 0 <= i < |b| && IsRelative(origin, b[i]);
      assert (a + b)[|a| + i] == b[i];
    }
  }

  /** The inner visitor on one element of the parsed block, then on its children. */
  function VideoNode(slug: string, origin: OriginOf, n: HNode): Result<HNode, Error>
    decreases n, 1
  {
    match n
    case Element(tag, _, cs) =>
      var m :- (match VideoSrc(n)
                case None => Success(n)
                case Some(url) =>
                  if origin(url).None? then Failure(InvalidUrl(url))
                  else if IsRelative(origin, url) then Success(WithSrc(n, Prefixed(slug, url)))
                  else Success(n));
      var cs' :- VideoNodes(slug, origin, cs);
      Success(Element(tag, m.props, cs'))
    case _ => Success(n)
  }

  function VideoNodes(slug: string, origin: OriginOf, ns: seq<HNode>): Result<seq<HNode>, Error>
    decreases ns, 0
  {
    if ns == [] then Success([])
    else
      var head :- VideoNode(slug, origin, ns[0]);
      var tail :- VideoNodes(slug, origin, ns[1..]);
      Success([head] + tail)
  }

  /**
   * The inner pass succeeds exactly when every video `src` string can be parsed, rewrites those
   * strings one by one, and changes nothing else: no other attribute, no other element.
   */
  lemma {:induction false} VideoNodeSpec(slug: string, origin: OriginOf, n: HNode)
    ensures var r := VideoNode(slug, origin, n);
      && (r.Success? <==> AllResolve(origin, VideoSrcs(n)))
      && (r.Success? ==> VideoSrcs(r.value) == RewriteUrls(slug, origin, VideoSrcs(n))
                         && EraseVideoSrcs(r.value) == EraseVideoSrcs(n))
      && (r.Failure? ==> r.error == InvalidUrl(FirstUnresolved(origin, VideoSrcs(n))))
    decreases n, 1
  {
    if n.Element? {
      var own := if VideoSrc(n).Some? then [VideoSrc(n).value] else [];
      VideoNodesSpec(slug, origin, n.children);
      UrlsAppend(slug, origin, own, VideoSrcsAll(n.children));
      if VideoSrc(n).Some? {
        var url := VideoSrc(n).value;
        assert own[0] == url;
        if origin(url).None? {
          assert !AllResolve(origin, own);
        }
      }
      var r := VideoNode(slug, origin, n);
      if r.Success? {
        VideoNodeValue(slug, origin, n);
        var kids := VideoNodes(slug, origin, n.children).value;
        VideoElementSrcs(slug, origin, n, kids);
        VideoElementErased(slug, origin, n, kids);
      }
    }
  }

  /** The element the inner pass returns: its own `src` rewritten if relative, then its children. */
  function VideoElement(slug: string, origin: OriginOf, n: HNode, kids: seq<HNode>): HNode
    requires n.Element?
  {
    var m := if VideoSrc(n).Some? && IsRelative(origin, VideoSrc(n).value)
             then WithSrc(n, Prefixed(slug, VideoSrc(n).value)) else n;
    Element(n.tag, m.props, kids)
  }

  lemma VideoNodeValue(slug: string, origin: OriginOf, n: HNode)
    requires n.Element? && VideoNode(slug, origin, n).Success?
    ensures VideoNodes(slug, origin, n.children).Success?
    ensures VideoNode(slug, origin, n).value
         == VideoElement(slug, origin, n, VideoNodes(slug, origin, n.children).value)
  {
  }

  /** One element whose pass succeeded: its `src` strings are those of `n`, rewritten. */
  lemma VideoElementSrcs(slug: string, origin: OriginOf, n: HNode, kids: seq<HNode>)
    requires n.Element? && VideoSrcsAll(kids) == RewriteUrls(slug, origin, VideoSrcsAll(n.children))
    ensures VideoSrcs(VideoElement(slug, origin, n, kids)) == RewriteUrls(slug, origin, VideoSrcs(n))
  {
    var r := VideoElement(slug, origin, n, kids);
    VideoSrcsUnfold(n);
    VideoSrcsUnfold(r);
    if VideoSrc(n).Some? {
      var url := VideoSrc(n).value;
      assert VideoSrc(r) == Some(RewriteUrl(slug, origin, url));
      RewriteUrlsAppend(slug, origin, [url], VideoSrcsAll(n.children));
      assert RewriteUrls(slug, origin, [url]) == [RewriteUrl(slug, origin, url)];
    } else {
      assert VideoSrc(r).None?;
    }
  }

  lemma VideoSrcsUnfold(e: HNode)
    requires e.Element?
    ensures VideoSrcs(e) == (if VideoSrc(e).Some? then [VideoSrc(e).value] else []) + VideoSrcsAll(e.children)
  {
  }

  lemma RewriteUrlsAppend(slug: string, origin: OriginOf, a: seq<string>, b: seq<string>)
    ensures RewriteUrls(slug, origin, a + b) == RewriteUrls(slug, origin, a) + RewriteUrls(slug, origin, b)
  {
  }

  /** One element whose pass succeeded: apart from video `src` strings, it is `n`. */
  lemma VideoElementErased(slug: string, origin: OriginOf, n: HNode, kids: seq<HNode>)
    requires n.Element? && EraseVideoSrcsAll(kids) == EraseVideoSrcsAll(n.children)
    ensures EraseVideoSrcs(VideoElement(slug, origin, n, kids)) == EraseVideoSrcs(n)
  {
    var r := VideoElement(slug, origin, n, kids);
    if VideoSrc(n).Some? {
      var m := if IsRelative(origin, VideoSrc(n).value) then WithSrc(n, Prefixed(slug, VideoSrc(n).value)) else n;
      assert VideoSrc(r).Some?;
      assert n.props.value["src" := PString("")] == m.props.value["src" := PString("")];
    } else {
      assert VideoSrc(r).None?;
    }
  }

  lemma {:induction false} VideoNodesSpec(slug: string, origin: OriginOf, ns: seq<HNode>)
    ensures var r := VideoNodes(slug, origin, ns);
      && (r.Success? <==> AllResolve(origin, VideoSrcsAll(ns)))
      && (r.Success? ==> VideoSrcsAll(r.value) == RewriteUrls(slug, origin, VideoSrcsAll(ns))
                         && EraseVideoSrcsAll(r.value) == EraseVideoSrcsAll(ns))
      && (r.Failure? ==> r.error == InvalidUrl(FirstUnresolved(origin, VideoSrcsAll(ns))))
    decreases ns, 0
  {
    if ns != [] {
      VideoNodeSpec(slug, origin, ns[0]);
      VideoNodesSpec(slug, origin, ns[1..]);
      UrlsAppend(slug, origin, VideoSrcs(ns[0]), VideoSrcsAll(ns[1..]));
      var h := VideoNode(slug, origin, ns[0]);
      var t := VideoNodes(slug, origin, ns[1..]);
      if h.Success? && t.Success? {
        var out := [h.value] + t.value;
        assert out[0] == h.value && out[1..] == t.value;
        UrlsAppend(slug, origin, VideoSrcs(h.value), VideoSrcsAll(t.value));
      }
    }
  }

  /**
   * The outer visitor on one node: a raw block is parsed, its videos rewritten, and its text
   * replaced by the serialised result only when some `src` was rewritten (`isChanged`).
   */
  function RawNode(codec: HtmlCodec, slug: string, origin: OriginOf, n: HNode): Result<HNode, Error>
    decreases n, 1
  {
    match n
    case Raw(value) =>
      var value' :- RawBlock(codec, slug, origin, value);
      Success(Raw(value'))
    case Element(tag, props, cs) =>
      var cs' :- RawNodes(codec, slug, origin, cs);
      Success(Element(tag, props, cs'))
    case _ => Success(n)
  }

  function RawNodes(codec: HtmlCodec, slug: string, origin: OriginOf, ns: seq<HNode>): Result<seq<HNode>, Error>
    decreases ns, 0
  {
    if ns == [] then Success([])
    else
      var head :- RawNode(codec, slug, origin, ns[0]);
      var tail :- RawNodes(codec, slug, origin, ns[1..]);
      Success([head] + tail)
  }

  /** The text of one raw block after the visit: parsed, videos rewritten, serialised again if changed. */
  function RawBlock(codec: HtmlCodec, slug: string, origin: OriginOf, value: string): Result<string, Error> {
    var nodeRoot := codec.parse(value);
    var cs :- VideoNodes(slug, origin, nodeRoot.children);
    if AnyRelative(origin, VideoSrcsAll(nodeRoot.children))
    then Success(codec.stringify(HRoot(cs, nodeRoot.data)))
    else Success(value)
  }

  /**
   * A raw block keeps its exact text unless one of its video sources was relative; then it
   * becomes the serialisation of the parsed block with every relative source prefixed.
   */
  lemma RawBlockSpec(codec: HtmlCodec, slug: string, origin: OriginOf, value: string)
    ensures var parsed := codec.parse(value);
      var r := RawBlock(codec, slug, origin, value);
      && (r.Success? <==> AllResolve(origin, VideoSrcsAll(parsed.children)))
      && (r.Success? && !AnyRelative(origin, VideoSrcsAll(parsed.children)) ==> r.value == value)
      && (r.Success? && AnyRelative(origin, VideoSrcsAll(parsed.children)) ==>
            exists cs :: r.value == codec.stringify(HRoot(cs, parsed.data))
                && VideoSrcsAll(cs) == RewriteUrls(slug, origin, VideoSrcsAll(parsed.children))
                && EraseVideoSrcsAll(cs) == EraseVideoSrcsAll(parsed.children))
  {
    VideoNodesSpec(slug, origin, codec.parse(value).children);
  }

  /** `rehypeUpdateHtmlUrls`: nothing happens without a slug. */
  function UpdateHtmlUrls(codec: HtmlCodec, origin: OriginOf, root: HRoot): (r: Result<HRoot, Error>)
    ensures SlugOf(root.data).None? ==> r == Success(root)
    ensures r.Success? ==> r.value.data == root.data
  {
    match SlugOf(root.data)
    case None => Success(root)
    case Some(slug) =>
      var cs :- RawNodes(codec, slug, origin, root.children);
      Success(HRoot(cs, root.data))
  }

  /** The raw values of a tree, blanked: outside raw blocks the pass changes nothing. */
  function EraseRaw(n: HNode): HNode {
    match n
    case Element(tag, props, cs) => Element(tag, props, EraseRawAll(cs))
    case Raw(_) => Raw("")
    case _ => n
  }

  function EraseRawAll(ns: seq<HNode>): seq<HNode> {
    if ns == [] then [] else [EraseRaw(ns[0])] + EraseRawAll(ns[1..])
  }

  lemma {:induction false} RawNodeKeepsShape(codec: HtmlCodec, slug: string, origin: OriginOf, n: HNode)
    ensures RawNode(codec, slug, origin, n).Success? ==> EraseRaw(RawNode(codec, slug, origin, n).value) == EraseRaw(n)
    decreases n, 1
  {
    if n.Element? {
      RawNodesKeepShape(codec, slug, origin, n.children);
    }
  }

  lemma {:induction false} RawNodesKeepShape(codec: HtmlCodec, slug: string, origin: OriginOf, ns: seq<HNode>)
    ensures RawNodes(codec, slug, origin, ns).Success? ==>
      EraseRawAll(RawNodes(codec, slug, origin, ns).value) == EraseRawAll(ns)
    decreases ns, 0
  {
    if ns != [] {
      RawNodeKeepsShape(codec, slug, origin, ns[0]);
      RawNodesKeepShape(codec, slug, origin, ns[1..]);
      var r := RawNodes(codec, slug, origin, ns);
      if r.Success? {
        var h := RawNode(codec, slug, origin, ns[0]).value;
        var t := RawNodes(codec, slug, origin, ns[1..]).value;
        assert r.value == [h] + t;
        assert r.value[0] == h && r.value[1..] == t;
      }
    }
  }

  /** The raw blocks of a tree, in the order the walk meets them. */
  function RawValues(n: HNode): seq<string> {
    match n
    case Element(_, _, cs) => RawValuesAll(cs)
    case Raw(v) => [v]
    case _ => []
  }

  function RawValuesAll(ns: seq<HNode>): seq<string> {
    if ns == [] then [] else RawValues(ns[0]) + RawValuesAll(ns[1..])
  }

  /** Each raw block in turn, stopping at the first one that fails. */
  function RewriteRaws(codec: HtmlCodec, slug: string, origin: OriginOf, vals: seq<string>): Result<seq<string>, Error> {
    if vals == [] then Success([])
    else
      var h :- RawBlock(codec, slug, origin, vals[0]);
      var t :- RewriteRaws(codec, slug, origin, vals[1..]);
      Success([h] + t)
  }

  lemma {:induction false} RewriteRawsAppend(codec: HtmlCodec, slug: string, origin: OriginOf, a: seq<string>, b: seq<string>)
    ensures RewriteRaws(codec, slug, origin, a + b)
         == Join(RewriteRaws(codec, slug, origin, a), RewriteRaws(codec, slug, origin, b))
  {
    if a == [] {
      assert a + b == b;
      JoinNothing(RewriteRaws(codec, slug, origin, b));
    } else {
      assert (a + b)[0] == a[0] && (a + b)[1..] == a[1..] + b;
      RewriteRawsAppend(codec, slug, origin, a[1..], b);
      var h := RawBlock(codec, slug, origin, a[0]);
      var t := RewriteRaws(codec, slug, origin, a[1..]);
      if h.Success? && t.Success? {
        JoinAssoc([h.value], t.value, RewriteRaws(codec, slug, origin, b));
      }
    }
  }

  /**
   * Block by block: the rewrite succeeds exactly when every block does, the `k`-th text is the
   * `k`-th block's rewrite, and a failure is the failure of the first block that fails.
   */
  lemma {:induction false} RewriteRawsSpec(codec: HtmlCodec, slug: string, origin: OriginOf, vals: seq<string>)
    ensures var r := RewriteRaws(codec, slug, origin, vals);
      && (r.Success? <==> forall k :: 0 <= k < |vals| ==> RawBlock(codec, slug, origin, vals[k]).Success?)
      && (r.Success? ==>
            && |r.value| == |vals|
            && forall k :: 0 <= k < |vals| ==> RawBlock(codec, slug, origin, vals[k]) == Success(r.value[k]))
      && (r.Failure? ==>
            exists k :: && 0 <= k < |vals|
                        && RawBlock(codec, slug, origin, vals[k]) == Failure(r.error)
                        && forall j :: 0 <= j < k ==> RawBlock(codec, slug, origin, vals[j]).Success?)
  {
    if vals != [] {
      var rest := vals[1..];
      RewriteRawsSpec(codec, slug, origin, rest);
      var r := RewriteRaws(codec, slug, origin, vals);
      var h := RawBlock(codec, slug, origin, vals[0]);
      var t := RewriteRaws(codec, slug, origin, rest);
      assert forall k :: 1 <= k < |vals| ==> vals[k] == rest[k - 1];
      if h.Success? && t.Success? {
        assert r.value == [h.value] + t.value;
      } else if h.Success? {
        var k' :| 0 <= k' < |rest| && RawBlock(codec, slug, origin, rest[k']) == Failure(t.error)
          && forall j :: 0 <= j < k' ==> RawBlock(codec, slug, origin, rest[j]).Success?;
        assert RawBlock(codec, slug, origin, vals[k' + 1]) == Failure(r.error);
      } else {
        assert RawBlock(codec, slug, origin, vals[0]) == Failure(r.error);
      }
    }
  }

  /** The walk over one node rewrites its raw blocks exactly as `RewriteRaws` does. */
  lemma {:induction false} RawNodeRewrites(codec: HtmlCodec, slug: string, origin: OriginOf, n: HNode)
    ensures var r := RawNode(codec, slug, origin, n);
      var w := RewriteRaws(codec, slug, origin, RawValues(n));
      && (r.Success? <==> w.Success?)
      && (r.Success? ==> RawValues(r.value) == w.value)
      && (r.Failure? ==> r.error == w.error)
    decreases n, 1
  {
    match n
    case Raw(v) =>
      assert [v][1..] == [];
    case Element(_, _, cs) =>
      RawNodesRewrite(codec, slug, origin, cs);
    case _ =>
  }

  lemma {:induction false} RawNodesRewrite(codec: HtmlCodec, slug: string, origin: OriginOf, ns: seq<HNode>)
    ensures var r := RawNodes(codec, slug, origin, ns);
      var w := RewriteRaws(codec, slug, origin, RawValuesAll(ns));
      && (r.Success? <==> w.Success?)
      && (r.Success? ==> RawValuesAll(r.value) == w.value)
      && (r.Failure? ==> r.error == w.error)
    decreases ns, 0
  {
    if ns != [] {
      RawNodeRewrites(codec, slug, origin, ns[0]);
      RawNodesRewrite(codec, slug, origin, ns[1..]);
      RewriteRawsAppend(codec, slug, origin, RawValues(ns[0]), RawValuesAll(ns[1..]));
      var r := RawNodes(codec, slug, origin, ns);
      if r.Success? {
        var h := RawNode(codec, slug, origin, ns[0]).value;
        var t := RawNodes(codec, slug, origin, ns[1..]).value;
        assert r.value == [h] + t;
        assert r.value[0] == h && r.value[1..] == t;
      }
    }
  }

  /**
   * With a slug, the HTML pass succeeds exactly when every raw block of the tree, at any depth,
   * can be rewritten; it then replaces the `k`-th raw block's text by that block's rewrite, keeps
   * everything else, and otherwise fails as the first failing block does. Without a slug the
   * tree is left as it is.
   */
  lemma UpdateHtmlUrlsSpec(codec: HtmlCodec, origin: OriginOf, root: HRoot)
    ensures SlugOf(root.data).None? ==> UpdateHtmlUrls(codec, origin, root) == Success(root)
    ensures SlugOf(root.data).Some? ==>
      var slug := SlugOf(root.data).value;
      var vals := RawValuesAll(root.children);
      var r := UpdateHtmlUrls(codec, origin, root);
      && (r.Success? <==> forall k :: 0 <= k < |vals| ==> RawBlock(codec, slug, origin, vals[k]).Success?)
      && (r.Success? ==>
            && |RawValuesAll(r.value.children)| == |vals|
            && forall k :: 0 <= k < |vals| ==>
                 RawBlock(codec, slug, origin, vals[k]) == Success(RawValuesAll(r.value.children)[k]))
      && (r.Failure? ==>
            exists k :: && 0 <= k < |vals|
                        && RawBlock(codec, slug, origin, vals[k]) == Failure(r.error)
                        && forall j :: 0 <= j < k ==> RawBlock(codec, slug, origin, vals[j]).Success?)
    ensures UpdateHtmlUrls(codec, origin, root).Success? ==>
      var r := UpdateHtmlUrls(codec, origin, root).value;
      r.data == root.data && EraseRawAll(r.children) == EraseRawAll(root.children)
  {
    if SlugOf(root.data).Some? {
      var slug := SlugOf(root.data).value;
      RawNodesKeepShape(codec, slug, origin, root.children);
      RawNodesRewrite(codec, slug, origin, root.children);
      RewriteRawsSpec(codec, slug, origin, RawValuesAll(root.children));
    }
  }

  // ----- the inner visitor as it runs, with its `isChanged` flag -----

  method VisitVideo(slug: string, origin: OriginOf, n: HNode) returns (r: Result<HNode, Error>, isChanged: bool)
    ensures r == VideoNode(slug, origin, n)
    ensures r.Success? ==> (isChanged <==> AnyRelative(origin, VideoSrcs(n)))
    decreases n, 1
  {
    isChanged := false;
    if !n.Element? {
      return Success(n), false;
    }
    var m := n;
    var src := VideoSrc(n);
    if src.Some? {
      var o := origin(src.value);
      if o.None? {
        return Failure(InvalidUrl(src.value)), false;
      }
      if o.value == RELATIVE_BASE_URL {
        m := WithSrc(n, Prefixed(slug, src.value));
        isChanged := true;
      }
    }
    var kids, changedBelow := VisitVideos(slug, origin, n.children);
    if kids.Failure? {
      return Failure(kids.error), isChanged;
    }
    var own := if src.Some? then [src.value] else [];
    AnyRelativeAppend(origin, own, VideoSrcsAll(n.children));
    if src.Some? {
      assert own[0] == src.value;
    }
    isChanged := isChanged || changedBelow;
    r := Success(Element(n.tag, m.props, kids.value));
  }

  method VisitVideos(slug: string, origin: OriginOf, ns: seq<HNode>) returns (r: Result<seq<HNode>, Error>, isChanged: bool)
    ensures r == VideoNodes(slug, origin, ns)
    ensures r.Success? ==> (isChanged <==> AnyRelative(origin, VideoSrcsAll(ns)))
    decreases ns, 0
  {
    var out: seq<HNode> := [];
    isChanged := false;
    assert ns[0..] == ns;
    JoinNothing(VideoNodes(slug, origin, ns));
    for i := 0 to |ns|
      invariant VideoNodes(slug, origin, ns) == Join(Success(out), VideoNodes(slug, origin, ns[i..]))
      invariant isChanged <==> AnyRelative(origin, VideoSrcsAll(ns[..i]))
    {
      var n', changed := VisitVideo(slug, origin, ns[i]);
      assert ns[i..][0] == ns[i] && ns[i..][1..] == ns[i + 1..];
      if n'.Failure? {
        return Failure(n'.error), isChanged;
      }
      JoinAssoc(out, [n'.value], VideoNodes(slug, origin, ns[i + 1..]));
      out := out + [n'.value];
      VideoSrcsSnoc(ns, i);
      AnyRelativeAppend(origin, VideoSrcsAll(ns[..i]), VideoSrcs(ns[i]));
      isChanged := isChanged || changed;
    }
    assert ns[|ns|..] == [] && out + [] == out && ns[..|ns|] == ns;
    r := Success(out);
  }

  lemma VideoSrcsSnoc(ns: seq<HNode>, i: int)
    requires 0 <= i < |ns|
    ensures VideoSrcsAll(ns[..i + 1]) == VideoSrcsAll(ns[..i]) + VideoSrcs(ns[i])
  {
    VideoSrcsAllAppend(ns[..i], [ns[i]]);
    assert ns[..i] + [ns[i]] == ns[..i + 1];
    assert VideoSrcsAll([ns[i]]) == VideoSrcs(ns[i]) + VideoSrcsAll([]);
  }

  lemma {:induction false} VideoSrcsAllAppend(a: seq<HNode>, b: seq<HNode>)
    ensures VideoSrcsAll(a + b) == VideoSrcsAll(a) + VideoSrcsAll(b)
  {
    if a == [] {
      assert a + b == b;
    } else {
      assert (a + b)[0] == a[0] && (a + b)[1..] == a[1..] + b;
      VideoSrcsAllAppend(a[1..], b);
    }
  }

  // ----- the outer visitor as it runs -----

  /** One raw block: parse, run the inner visitor, and write back only if `isChanged`. */
  method VisitRaw(codec: HtmlCodec, slug: string, origin: OriginOf, n: HNode) returns (r: Result<HNode, Error>)
    ensures r == RawNode(codec, slug, origin, n)
    decreases n, 1
  {
    match n
    case Raw(value) =>
      var nodeRoot := codec.parse(value);
      var cs, isChanged := VisitVideos(slug, origin, nodeRoot.children);
      if cs.Failure? {
        return Failure(cs.error);
      }
      if !isChanged {
        return Success(n);
      }
      r := Success(Raw(codec.stringify(HRoot(cs.value, nodeRoot.data))));
    case Element(tag, props, cs) =>
      var cs' := VisitRaws(codec, slug, origin, cs);
      if cs'.Failure? {
        return Failure(cs'.error);
      }
      r := Success(Element(tag, props, cs'.value));
    case _ =>
      r := Success(n);
  }

  method VisitRaws(codec: HtmlCodec, slug: string, origin: OriginOf, ns: seq<HNode>) returns (r: Result<seq<HNode>, Error>)
    ensures r == RawNodes(codec, slug, origin, ns)
    decreases ns, 0
  {
    var out: seq<HNode> := [];
    assert ns[0..] == ns;
    JoinNothing(RawNodes(codec, slug, origin, ns));
    for i := 0 to |ns|
      invariant RawNodes(codec, slug, origin, ns) == Join(Success(out), RawNodes(codec, slug, origin, ns[i..]))
    {
      var n' := VisitRaw(codec, slug, origin, ns[i]);
      assert ns[i..][0] == ns[i] && ns[i..][1..] == ns[i + 1..];
      if n'.Failure? {
        return Failure(n'.error);
      }
      JoinAssoc(out, [n'.value], RawNodes(codec, slug, origin, ns[i + 1..]));
      out := out + [n'.value];
    }
    assert ns[|ns|..] == [] && out + [] == out;
    r := Success(out);
  }

  /** `rehypeUpdateHtmlUrls` as a plugin run. */
  method RehypeUpdateHtmlUrls(codec: HtmlCodec, origin: OriginOf, root: HRoot) returns (r: Result<HRoot, Error>)
    ensures r == UpdateHtmlUrls(codec, origin, root)
  {
    var slug := SlugOf(root.data);
    if slug.None? {
      return Success(root);
    }
    var cs := VisitRaws(codec, slug.value, origin, root.children);
    if cs.Failure? {
      return Failure(cs.error);
    }
    r := Success(HRoot(cs.value, root.data));
  }
}
