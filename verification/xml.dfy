/** The part of the XML document object model the importer reads: node names,
    direct children and the concatenated text of a node. A document loaded
    without whitespace preservation has no whitespace-only text nodes; this
    type does not enforce that. */
module Xml {

  datatype XmlNode =
    | Element(tag: string, children: seq<XmlNode>)
    | Text(content: string)
    | Comment(content: string)

  /** The document: its top-level nodes. A parsed document has at most one
      element among them, its root; this type does not enforce that. */
  datatype XmlDocument = Document(nodes: seq<XmlNode>)

  /** The name an `XmlNode` reports: the tag of an element, and the fixed
      pseudo-names `#text` and `#comment` otherwise. */
  function Name(n: XmlNode): string
  {
    match n
    case Element(tag, _) => tag
    case Text(_) => "#text"
    case Comment(_) => "#comment"
  }

  /** The direct child nodes; character data has none. */
  function Children(n: XmlNode): seq<XmlNode>
  {
    if n.Element? then n.children else []
  }

  /** The node's inner text: character data is its own text; an element
      concatenates the text of its descendants in document order, skipping
      comments. */
  function InnerText(n: XmlNode): string
    decreases n, 1
  {
    match n
    case Text(s) => s
    case Comment(s) => s
    case Element(_, cs) => ChildText(cs)
  }

  /** Concatenated text contributed by a sequence of sibling nodes. */
  function ChildText(cs: seq<XmlNode>): string
    decreases cs, 0
  {
    if |cs| == 0 then ""
    else (if cs[0].Comment? then "" else InnerText(cs[0])) + ChildText(cs[1..])
  }

  /** An element holding exactly the text `s`: the shape of every leaf of the
      scene schema. */
  function TextElement(tag: string, s: string): (n: XmlNode)
    ensures Name(n) == tag && InnerText(n) == s
  {
    var n := Element(tag, [Text(s)]);
    assert [Text(s)][1..] == [];
    assert ChildText([Text(s)]) == s + "" == s;
    n
  }
}
