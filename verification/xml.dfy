/** The serialised form, abstracted from the DOM that xmldom builds: an element
    has a name, an ordered attribute list and ordered children. */
module Xml {
  import Assoc

  type Attrs = seq<(string, string)>

  datatype Xml =
    | Element(name: string, attrs: Attrs, children: seq<Xml>)
    | Text(value: string)

  /** An element without attributes or children, as `document.createElement` makes it. */
  function Empty(name: string): (e: Xml)
    ensures e.Element? && e.name == name && e.attrs == [] && e.children == []
  {
    Element(name, [], [])
  }
}
