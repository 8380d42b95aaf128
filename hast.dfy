/** The HTML syntax tree (hast) the markdown tree is converted into, and its text extraction. */
module Hast {
  import opened Wrappers

  /** A property value: hast allows strings, numbers, booleans and lists. */
  datatype PropValue = PString(s: string) | PNumber(n: int) | PBool(b: bool) | PList(items: seq<string>)

  type Properties = map<string, PropValue>

  datatype HNode =
    | Element(tag: string, props: Option<Properties>, children: seq<HNode>)
    | Text(value: string)
    | Raw(value: string)       // raw HTML kept as text (allowDangerousHtml)
    | Comment(value: string)

  /** The root; `data` is copied from the markdown root when the tree is converted. */
  datatype HRoot = HRoot(children: seq<HNode>, data: map<string, string>)

  /** `hast-util-heading-rank` is non-null: the tag is `h1` to `h6`. */
  predicate IsHeadingTag(tag: string) {
    tag in {"h1", "h2", "h3", "h4", "h5", "h6"}
  }

  /** `hast-util-to-string`: the concatenated text nodes under `n` (comments and raw nodes give nothing). */
  function ToString(n: HNode): string {
    match n
    case Element(_, _, cs) => ToStrings(cs)
    case Text(v) => v
    case _ => ""
  }

  function ToStrings(ns: seq<HNode>): string {
    if ns == [] then [] else ToString(ns[0]) + ToStrings(ns[1..])
  }

  /** Text distributes over concatenation; `Mdast.ToStringsAppend` is the same fact for markdown nodes. */
  lemma {:induction false} ToStringsAppend(a: seq<HNode>, b: seq<HNode>)
    ensures ToStrings(a + b) == ToStrings(a) + ToStrings(b)
  {
    if a != [] {
      assert (a + b)[1..] == a[1..] + b;
      ToStringsAppend(a[1..], b);
    } else {
      assert a + b == b;
    }
  }
}
