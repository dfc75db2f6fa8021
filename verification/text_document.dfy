/** `TextDocument`: the root of a text document, holding the declared fonts
    and the top-level nodes, and its serialised `office:document` element. */
module TextDocument {
  import opened Wrappers
  import opened Xml
  import Tree
  import Table
  import Children
  import Serialize
  import StyleRegistry

  /** `FontPitch`, rendered as the `style:font-pitch` value. */
  datatype FontPitch = Fixed | Variable

  function PitchValue(p: FontPitch): string {
    match p
    case Fixed => "fixed"
    case Variable => "variable"
  }

  function PitchFromValue(v: string): (r: Option<FontPitch>)
    ensures forall p :: r == Some(p) <==> PitchValue(p) == v
  {
    if v == "fixed" then Some(Fixed) else if v == "variable" then Some(Variable) else None
  }

  datatype Font = Font(name: string, fontFamily: string, fontPitch: FontPitch)

  datatype Doc = Doc(fonts: seq<Font>, children: seq<Tree.Node>)

  function New(): (d: Doc)
    ensures d.fonts == [] && d.children == []
  {
    Doc([], [])
  }

  /** `declareFont`: appended in call order; declaring a font twice declares it twice. */
  function DeclareFont(d: Doc, name: string, fontFamily: string, fontPitch: FontPitch): (r: Doc)
    ensures r.fonts == Children.Append(d.fonts, Font(name, fontFamily, fontPitch))
    ensures r.children == d.children
  {
    d.(fonts := d.fonts + [Font(name, fontFamily, fontPitch)])
  }

  /** `append(node)` on the document. */
  function Append(d: Doc, n: Tree.Node): (r: Doc)
    ensures r.children == Children.Append(d.children, n) && r.fonts == d.fonts
  {
    d.(children := d.children + [n])
  }

  /** `addHeading(text, level)`; the level defaults to `1`. The second
      component is the position of the new heading. */
  function AddHeading(d: Doc, text: string, level: int := 1): (r: (Doc, nat))
    ensures r.0 == Append(d, Tree.Heading(text, Some(level))) && r.1 == |d.children|
  {
    (Append(d, Tree.Heading(text, Some(level))), |d.children|)
  }

  /** A heading added without a level is a level-1 heading. */
  lemma HeadingDefaultsToLevelOne(d: Doc, text: string)
    ensures AddHeading(d, text).0.children[|d.children|] == Tree.Heading(text, Some(1))
    ensures AddHeading(d, text) == AddHeading(d, text, 1)
  {
  }

  function AddList(d: Doc): (r: (Doc, nat))
    ensures r.0 == Append(d, Tree.ListNode([])) && r.1 == |d.children|
  {
    (Append(d, Tree.ListNode([])), |d.children|)
  }

  /** `addTable(numCols)`: a new table with that many column definitions. */
  function AddTable(d: Doc, numCols: int): (r: (Doc, nat))
    ensures r.0 == Append(d, Tree.TableNode(Table.New(numCols))) && r.1 == |d.children|
    ensures |r.0.children[r.1].table.colDefs| == if numCols < 0 then 0 else numCols
  {
    (Append(d, Tree.TableNode(Table.New(numCols))), |d.children|)
  }

  /** `addParagraph(text)`: the paragraph gets the current default paragraph style. */
  function AddParagraph(d: Doc, text: string, defaultStyle: Tree.ParaStyle): (r: (Doc, nat))
    ensures r.0 == Append(d, Tree.Paragraph(text, defaultStyle)) && r.1 == |d.children|
  {
    (Append(d, Tree.Paragraph(text, defaultStyle)), |d.children|)
  }

  /** The family as written: quoted with `'` exactly when it contains a space. */
  function EncodeFamily(f: string): string {
    if ' ' in f then "'" + f + "'" else f
  }

  function DecodeFamily(v: string): string {
    if ' ' in v && |v| >= 2 && v[0] == '\'' && v[|v| - 1] == '\'' then v[1..|v| - 1] else v
  }

  /** Quoting loses nothing, and is applied exactly to families with a space. */
  lemma FamilyRoundTrip(f: string)
    ensures DecodeFamily(EncodeFamily(f)) == f
    ensures EncodeFamily(f) != f <==> ' ' in f
  {
    if ' ' in f {
      var v := EncodeFamily(f);
      assert ' ' in v by {
        var i :| 0 <= i < |f| && f[i] == ' ';
        assert v[i + 1] == ' ';
      }
      assert v[1..|v| - 1] == f;
    }
  }

  function FontFace(f: Font): Xml {
    Element("style:font-face",
            [("style:name", f.name), ("svg:font-family", EncodeFamily(f.fontFamily)), ("style:font-pitch", PitchValue(f.fontPitch))],
            [])
  }

  /** `setFontFaceElements`: nothing without fonts, else one
      `office:font-face-decls` element holding one font face per font, in
      declaration order. */
  function FontFaceElements(fonts: seq<Font>): (r: seq<Xml>)
    ensures fonts == [] <==> r == []
    ensures fonts != [] ==> |r| == 1 && r[0].Element? && r[0].name == "office:font-face-decls"
    ensures fonts != [] ==> |r[0].children| == |fonts| && forall i :: 0 <= i < |fonts| ==> r[0].children[i] == FontFace(fonts[i])
  {
    if fonts == [] then []
    else [Element("office:font-face-decls", [], seq(|fonts|, i requires 0 <= i < |fonts| => FontFace(fonts[i])))]
  }

  /** Reading a font declaration back from its element. */
  function FontOf(x: Xml): Option<Font> {
    if x.Element? && |x.attrs| == 3 then
      var pitch :- PitchFromValue(x.attrs[2].1);
      Some(Font(x.attrs[0].1, DecodeFamily(x.attrs[1].1), pitch))
    else None
  }

  /** The declarations lose nothing: every font, with its family, reads back
      from its element. */
  lemma FontFaceRoundTrip(fonts: seq<Font>)
    requires fonts != []
    ensures forall i :: 0 <= i < |fonts| ==> FontOf(FontFaceElements(fonts)[0].children[i]) == Some(fonts[i])
  {
    forall i | 0 <= i < |fonts|
      ensures FontOf(FontFaceElements(fonts)[0].children[i]) == Some(fonts[i])
    {
      FamilyRoundTrip(fonts[i].fontFamily);
    }
  }

  const OfficeVersion := "1.2"
  const TextMimetype := "application/vnd.oasis.opendocument.text"

  /** `setXmlNamespaces`. */
  const Namespaces: Attrs := [
    ("xmlns:dc", "http://purl.org/dc/elements/1.1"),
    ("xmlns:draw", "urn:oasis:names:tc:opendocument:xmlns:drawing:1.0"),
    ("xmlns:fo", "urn:oasis:names:tc:opendocument:xmlns:xsl-fo-compatible:1.0"),
    ("xmlns:meta", "urn:oasis:names:tc:opendocument:xmlns:meta:1.0"),
    ("xmlns:style", "urn:oasis:names:tc:opendocument:xmlns:style:1.0"),
    ("xmlns:svg", "urn:oasis:names:tc:opendocument:xmlns:svg-compatible:1.0"),
    ("xmlns:table", "urn:oasis:names:tc:opendocument:xmlns:table:1.0"),
    ("xmlns:tableooo", "http://openoffice.org/2009/table"),
    ("xmlns:officeooo", "http://openoffice.org/2009/office"),
    ("xmlns:text", "urn:oasis:names:tc:opendocument:xmlns:text:1.0"),
    ("xmlns:xlink", "http://www.w3.org/1999/xlink")]

  /** `toXml(document, root)`: the namespaces, then the mimetype and version
      attributes; as children the metadata elements (given), the font
      declarations, then `office:body` > `office:text` holding one element
      per node that writes one, in insertion order (`Serialize.NodesInOrder`).
      The style table is threaded through the nodes and returned beside the
      document. */
  function ToXml(d: Doc, meta: seq<Xml>, st: StyleRegistry.StyleTable): (r: (Xml, StyleRegistry.StyleTable))
    ensures r.0.Element? && r.0.name == "office:document"
    ensures r.0.attrs == Namespaces + [("office:mimetype", TextMimetype), ("office:version", OfficeVersion)]
    ensures |r.0.children| == |meta| + (if d.fonts == [] then 0 else 1) + 1
    ensures r.0.children[..|meta|] == meta
    ensures d.fonts != [] ==> r.0.children[|meta|] == FontFaceElements(d.fonts)[0]
    ensures var body := r.0.children[|r.0.children| - 1];
      body == Element("office:body", [], [Element("office:text", [], Serialize.NodeElements(d.children))])
    ensures Serialize.Grows(st, r.1)
  {
    var (kids, st') := Serialize.NodesToXml(d.children, st);
    var body := Element("office:body", [], [Element("office:text", [], kids)]);
    var children := meta + FontFaceElements(d.fonts) + [body];
    assert children[..|meta|] == meta;
    (Element("office:document", Namespaces + [("office:mimetype", TextMimetype), ("office:version", OfficeVersion)], children), st')
  }
}
