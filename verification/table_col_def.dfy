/** `TableColDef`: a column definition owning one column style. */
module TableColDef {
  import opened Xml
  import Assoc
  import Tree
  import TableColStyle
  import StyleRegistry

  /** A new definition owns a fresh style in its default, optimal-width state. */
  function New(): (d: Tree.ColDef)
    ensures d.style.optimal && d.style.widthAbs == "" && d.style.widthRel == 0
  {
    Tree.ColDef(TableColStyle.New())
  }

  function GetStyle(d: Tree.ColDef): TableColStyle.ColStyle {
    d.style
  }

  /** Changing the owned style; this is what a setter called on the result of
      `getStyle()` amounts to. */
  function SetStyle(d: Tree.ColDef, s: TableColStyle.ColStyle): (r: Tree.ColDef)
    ensures GetStyle(r) == s
  {
    d.(style := s)
  }

  /** `toXml(document, parent)`: one `table:table-column` element, named
      after its style, with the style registered if new. */
  function ToXml(d: Tree.ColDef, table: StyleRegistry.StyleTable): (r: (Xml, StyleRegistry.StyleTable))
    ensures r.0.Element? && r.0.name == "table:table-column" && r.0.children == []
    ensures r.0.attrs == [("table:style-name", TableColStyle.Name(d.style))]
    ensures r.1 == TableColStyle.ToXml(d.style, [], table).1
    ensures StyleRegistry.HasStyle(r.1, TableColStyle.Name(d.style))
  {
    var (attrs, table') := TableColStyle.ToXml(d.style, [], table);
    assert attrs == [("table:style-name", TableColStyle.Name(d.style))];
    (Element("table:table-column", attrs, []), table')
  }
}
