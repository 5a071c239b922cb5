/**
  The abstract DOM the builder writes to: an element (or a document
  fragment) with an id, a class name, namespaced attributes, direct
  properties, a style map and an ordered list of children.
 */
module Dom {
  import opened JsValues

  const XhtmlNS: string := "http://www.w3.org/1999/xhtml"
  const SvgNS: string := "http://www.w3.org/2000/svg"
  const XlinkNS: string := "http://www.w3.org/1999/xlink"

  /** What `createElementNS(namespaceURI, tag)` or `createDocumentFragment()` made. */
  datatype Kind = ElementNode(namespaceURI: string, localName: string) | FragmentNode

  /** An attribute is identified by its namespace (none for `null`) and its name. */
  datatype AttrKey = AttrKey(namespace: Option<string>, name: string)

  /** A child node: a text node made from a string, or a node the caller passed in. */
  datatype Child = TextNode(text: string) | ExistingNode(node: NodeRef)

  /** Everything observable about a node, as one value. */
  datatype ElementState = ElementState(
    kind: Kind,
    id: string,
    className: string,
    attributes: map<AttrKey, string>,
    properties: map<string, Value>,
    style: map<string, Value>,
    childNodes: seq<Child>)

  /** A freshly created node: empty id and class name, nothing else set. */
  function Blank(kind: Kind): ElementState {
    ElementState(kind, "", "", map[], map[], map[], [])
  }

  class Element {
    const kind: Kind
    var id: string
    var className: string
    var attributes: map<AttrKey, string>
    var properties: map<string, Value>
    var style: map<string, Value>
    var childNodes: seq<Child>

    constructor (kind: Kind)
      ensures State() == Blank(kind)
    {
      this.kind := kind;
      id, className := "", "";
      attributes, properties, style := map[], map[], map[];
      childNodes := [];
    }

    function State(): ElementState
      reads this
    {
      ElementState(kind, id, className, attributes, properties, style, childNodes)
    }

    /** `element.appendChild(child)` */
    method AppendChild(child: Child)
      modifies this
      ensures State() == old(State()).(childNodes := old(childNodes) + [child])
    {
      childNodes := childNodes + [child];
    }
  }
}
