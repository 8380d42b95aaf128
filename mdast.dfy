/** The markdown syntax tree (mdast) the post is parsed into, and its plain-text extraction. */
module Mdast {

  /** Heading depth: `#` to `######`. */
  type Rank = d: int | 1 <= d <= 6 witness 1

  /** The kinds of markdown nodes that have children. */
  datatype ParentKind =
    | Heading(depth: Rank)
    | Paragraph
    | List
    | ListItem
    | Link(url: string)
    | Other(name: string)     // blockquote, emphasis, strong, table, ...

  datatype MdNode =
    | Parent(kind: ParentKind, children: seq<MdNode>)
    | Image(url: string, alt: string)
    | Literal(name: string, value: string)   // text, inlineCode, code, html, yaml, ...

  /** The document root; `data` holds the string-valued entries of `root.data` (absent when undefined). */
  datatype MdRoot = MdRoot(children: seq<MdNode>, data: map<string, string>)

  function Text(value: string): MdNode {
    Literal("text", value)
  }

  predicate IsYaml(n: MdNode) {
    n.Literal? && n.name == "yaml"
  }

  /** `mdast-util-to-string`: a literal's value, an image's alt text, else its children's text. */
  function ToString(n: MdNode): string {
    match n
    case Parent(_, cs) => ToStrings(cs)
    case Image(_, alt) => alt
    case Literal(_, v) => v
  }

  function ToStrings(ns: seq<MdNode>): string {
    if ns == [] then [] else ToString(ns[0]) + ToStrings(ns[1..])
  }

  /** Text distributes over concatenation; `Hast.ToStringsAppend` is the same fact for HTML nodes. */
  lemma {:induction false} ToStringsAppend(a: seq<MdNode>, b: seq<MdNode>)
    ensures ToStrings(a + b) == ToStrings(a) + ToStrings(b)
  {
    if a != [] {
      assert (a + b)[1..] == a[1..] + b;
      ToStringsAppend(a[1..], b);
    } else {
      assert a + b == b;
    }
  }

  /** Urls of the link nodes of a tree, in document order. */
  function LinkUrls(n: MdNode): seq<string> {
    match n
    case Parent(k, cs) => (if k.Link? then [k.url] else []) + LinkUrlsAll(cs)
    case _ => []
  }

  function LinkUrlsAll(ns: seq<MdNode>): seq<string> {
    if ns == [] then [] else LinkUrls(ns[0]) + LinkUrlsAll(ns[1..])
  }

  lemma {:induction false} LinkUrlsAppend(a: seq<MdNode>, b: seq<MdNode>)
    ensures LinkUrlsAll(a + b) == LinkUrlsAll(a) + LinkUrlsAll(b)
  {
    if a != [] {
      assert (a + b)[1..] == a[1..] + b;
      LinkUrlsAppend(a[1..], b);
    } else {
      assert a + b == b;
    }
  }
}
