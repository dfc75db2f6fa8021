/** `TableCell`: a value type, an own cell style and child nodes. */
module TableCell {
  import opened Wrappers
  import Tree
  import TableCellStyle
  import Children

  /** The optional constructor argument: nothing, a string, or a paragraph
      built elsewhere (given by its text and style). */
  datatype Content = NoContent | TextContent(text: string) | ParagraphContent(text: string, style: Tree.ParaStyle)

  /** `new TableCell(content, type)`: the type defaults to `string`; a
      paragraph is kept as it is, a non-empty string becomes a paragraph in
      the current default paragraph style, and nothing or `""` gives no
      child; the style is a fresh one built from the current defaults. */
  function New(content: Content, valueType: Option<Tree.ValueType>, g: Tree.Globals): (c: Tree.Cell)
    ensures c.valueType == if valueType.Some? then valueType.value else Tree.StringValue
    ensures c.style == TableCellStyle.New(g.defaultBorder, g.defaultPadding)
    ensures |c.content| <= 1
    ensures c.content == [] <==> content.NoContent? || content == TextContent("")
    ensures content.TextContent? && content.text != "" ==> c.content == [Tree.Paragraph(content.text, g.paraStyle)]
    ensures content.ParagraphContent? ==> c.content == [Tree.Paragraph(content.text, content.style)]
  {
    var paragraph := match content
      case NoContent => None
      case TextContent(text) => if text != "" then Some(Tree.Paragraph(text, g.paraStyle)) else None
      case ParagraphContent(text, style) => Some(Tree.Paragraph(text, style));
    var content := match paragraph
      case None => []
      case Some(p) => [p];
    Tree.Cell(match valueType case Some(v) => v case None => Tree.StringValue,
              TableCellStyle.New(g.defaultBorder, g.defaultPadding),
              content)
  }

  function GetStyle(c: Tree.Cell): TableCellStyle.CellStyle {
    c.style
  }

  function SetStyle(c: Tree.Cell, s: TableCellStyle.CellStyle): (r: Tree.Cell)
    ensures r.valueType == c.valueType && r.content == c.content
  {
    c.(style := s)
  }

  /** `setStyle` followed by `getStyle` gives back the style set. */
  lemma SetGetStyle(c: Tree.Cell, s: TableCellStyle.CellStyle)
    ensures GetStyle(SetStyle(c, s)) == s
  {
  }

  /** `append(node)`: one more child at the end. */
  function Append(c: Tree.Cell, n: Tree.Node): (r: Tree.Cell)
    ensures r.valueType == c.valueType && r.style == c.style
    ensures r.content == Children.Append(c.content, n)
  {
    c.(content := c.content + [n])
  }
}
