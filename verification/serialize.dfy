/** Serialisation of the tree: each node appends its element (or nothing)
    to its parent's children, and every style met on the way is resolved
    against the one style table of the document, in document order. */
module Serialize {
  import opened Wrappers
  import opened Xml
  import Assoc
  import Numbers
  import Tree
  import TableCellStyle
  import TableColStyle
  import TableColDef
  import StyleRegistry

  /** The elements produced for the parent, and the style table after them. */
  type Out = (seq<Xml>, StyleRegistry.StyleTable)

  /** What a step may do to the style table: add entries after the existing
      ones, never change or reorder them, and keep names unique. */
  ghost predicate Grows(t: StyleRegistry.StyleTable, t': StyleRegistry.StyleTable) {
    StyleRegistry.Extends(t, t') && (StyleRegistry.UniqueNames(t) ==> StyleRegistry.UniqueNames(t'))
  }

  lemma GrowsTransitive(t1: StyleRegistry.StyleTable, t2: StyleRegistry.StyleTable, t3: StyleRegistry.StyleTable)
    requires Grows(t1, t2) && Grows(t2, t3)
    ensures Grows(t1, t3)
  {
    StyleRegistry.ExtendsTransitive(t1, t2, t3);
  }

  /** The paragraph, heading and list elements, in the shape OpenDocument
      gives them; their own classes are not part of this model. */
  function LeafElement(n: Tree.Node): Xml
    requires !n.TableNode?
  {
    match n
    case Paragraph(text, _) => Element("text:p", [], [Text(text)])
    case Heading(text, level) =>
      Element("text:h", if level.Some? then [("text:outline-level", Numbers.IntToString(level.value))] else [], [Text(text)])
    case ListNode(items) =>
      Element("text:list", [], seq(|items|, i requires 0 <= i < |items| => Element("text:list-item", [], [Element("text:p", [], [Text(items[i])])])))
  }

  /** A node writes an element unless it is a table without rows. */
  predicate Writes(n: Tree.Node) {
    !(n.TableNode? && n.table.rows == [])
  }

  /** The nodes of `ns` that write an element, in their order. */
  function Written(ns: seq<Tree.Node>): (w: seq<Tree.Node>)
    ensures |w| <= |ns|
  {
    if ns == [] then []
    else (if Writes(ns[0]) then [ns[0]] else []) + Written(ns[1..])
  }

  /** The rows of `rows` that have cells, in their order: a row without
      cells writes nothing. */
  function FilledRows(rows: seq<Tree.Row>): (w: seq<Tree.Row>)
    ensures |w| <= |rows|
  {
    if rows == [] then []
    else (if rows[0].cells != [] then [rows[0]] else []) + FilledRows(rows[1..])
  }

  /** The document that serialisation is meant to produce, stated without
      the style table: every style is referred to by the name its settings
      digest to, so the elements written never depend on which styles were
      registered before. */
  function ColumnElement(d: Tree.ColDef): Xml {
    Element("table:table-column", [("table:style-name", TableColStyle.Name(d.style))], [])
  }

  function ColumnElements(ds: seq<Tree.ColDef>): (xs: seq<Xml>)
    ensures |xs| == |ds|
  {
    seq(|ds|, i requires 0 <= i < |ds| => ColumnElement(ds[i]))
  }

  lemma ColumnElementsCons(ds: seq<Tree.ColDef>)
    requires ds != []
    ensures ColumnElements(ds) == [ColumnElement(ds[0])] + ColumnElements(ds[1..])
  {
    var e, e' := ColumnElements(ds), ColumnElements(ds[1..]);
    forall i | 1 <= i < |ds|
      ensures e[i] == e'[i - 1]
    {
      assert ds[i] == ds[1..][i - 1];
    }
  }

  function CellElement(c: Tree.Cell): Xml
    decreases c
  {
    Element("table:table-cell",
            [("office:value-type", Tree.ValueTypeName(c.valueType)), ("table:style-name", TableCellStyle.Name(c.style))],
            NodeElements(c.content))
  }

  function CellElements(cells: seq<Tree.Cell>): (xs: seq<Xml>)
    ensures |xs| == |cells|
    decreases cells
  {
    if cells == [] then [] else [CellElement(cells[0])] + CellElements(cells[1..])
  }

  function RowElement(row: Tree.Row): Xml
    decreases row
  {
    Element("table:table-row", [], CellElements(row.cells))
  }

  function RowElements(rows: seq<Tree.Row>): (xs: seq<Xml>)
    ensures |xs| == |FilledRows(rows)|
    decreases rows
  {
    if rows == [] then []
    else (if rows[0].cells != [] then [RowElement(rows[0])] else []) + RowElements(rows[1..])
  }

  /** A table: the column elements, then the row elements. */
  function TableElement(t: Tree.Table): Xml
    decreases t
  {
    Element("table:table", [], ColumnElements(t.colDefs) + RowElements(t.rows))
  }

  function NodeElement(n: Tree.Node): Xml
    decreases n
  {
    if n.TableNode? then TableElement(n.table) else LeafElement(n)
  }

  function NodeElements(ns: seq<Tree.Node>): (xs: seq<Xml>)
    ensures |xs| == |Written(ns)|
    decreases ns
  {
    if ns == [] then []
    else (if Writes(ns[0]) then [NodeElement(ns[0])] else []) + NodeElements(ns[1..])
  }

  /** Cell element `i` of a row is that of cell `i`. */
  lemma {:induction false} CellElementAt(cells: seq<Tree.Cell>, i: nat)
    requires i < |cells|
    ensures CellElements(cells)[i] == CellElement(cells[i])
  {
    if i > 0 {
      CellElementAt(cells[1..], i - 1);
    }
  }

  /** Row element `i` of a table is that of the `i`-th row that has cells. */
  lemma {:induction false} RowElementAt(rows: seq<Tree.Row>, i: nat)
    requires i < |FilledRows(rows)|
    ensures RowElements(rows)[i] == RowElement(FilledRows(rows)[i])
  {
    var hw := if rows[0].cells != [] then [rows[0]] else [];
    if i >= |hw| {
      RowElementAt(rows[1..], i - |hw|);
      assert FilledRows(rows)[i] == FilledRows(rows[1..])[i - |hw|];
    }
  }

  /** Element `i` written for a node sequence is that of the `i`-th node
      that writes one. */
  lemma {:induction false} NodeElementAt(ns: seq<Tree.Node>, i: nat)
    requires i < |Written(ns)|
    ensures NodeElements(ns)[i] == NodeElement(Written(ns)[i])
  {
    var hw := if Writes(ns[0]) then [ns[0]] else [];
    if i >= |hw| {
      NodeElementAt(ns[1..], i - |hw|);
      assert Written(ns)[i] == Written(ns[1..])[i - |hw|];
    }
  }

  /** The elements of a node sequence are, one for one and in order, those
      of the nodes that write one. */
  lemma NodesInOrder(ns: seq<Tree.Node>)
    ensures |NodeElements(ns)| == |Written(ns)|
    ensures forall i :: 0 <= i < |Written(ns)| ==> NodeElements(ns)[i] == NodeElement(Written(ns)[i])
  {
    forall i | 0 <= i < |Written(ns)|
      ensures NodeElements(ns)[i] == NodeElement(Written(ns)[i])
    {
      NodeElementAt(ns, i);
    }
  }

  /** A table element holds one column element per definition, each naming
      that definition's style, then one row element per row that has cells,
      in the order of the rows. */
  lemma TableInOrder(t: Tree.Table)
    ensures var kids := TableElement(t).children;
      && |kids| == |t.colDefs| + |FilledRows(t.rows)|
      && (forall i :: 0 <= i < |t.colDefs| ==>
            kids[i] == Element("table:table-column", [("table:style-name", TableColStyle.Name(t.colDefs[i].style))], []))
      && (forall i :: 0 <= i < |FilledRows(t.rows)| ==> kids[|t.colDefs| + i] == RowElement(FilledRows(t.rows)[i]))
  {
    forall i | 0 <= i < |FilledRows(t.rows)|
      ensures TableElement(t).children[|t.colDefs| + i] == RowElement(FilledRows(t.rows)[i])
    {
      RowElementAt(t.rows, i);
    }
  }

  /** A row element holds one cell element per cell, in order, and a cell
      element holds the elements of the cell's content. */
  lemma RowInOrder(row: Tree.Row)
    ensures |RowElement(row).children| == |row.cells|
    ensures forall i :: 0 <= i < |row.cells| ==> RowElement(row).children[i] == CellElement(row.cells[i])
    ensures forall i :: 0 <= i < |row.cells| ==> CellElement(row.cells[i]).children == NodeElements(row.cells[i].content)
  {
    forall i | 0 <= i < |row.cells|
      ensures RowElement(row).children[i] == CellElement(row.cells[i])
    {
      CellElementAt(row.cells, i);
    }
  }

  function NodesToXml(ns: seq<Tree.Node>, st: StyleRegistry.StyleTable): (r: Out)
    ensures Grows(st, r.1)
    ensures r.0 == NodeElements(ns)
    decreases ns, 1
  {
    if ns == [] then ([], st)
    else
      var (x, st1) := NodeToXml(ns[0], st);
      var (xs, st2) := NodesToXml(ns[1..], st1);
      GrowsTransitive(st, st1, st2);
      (x + xs, st2)
  }

  /** One element per node, except a table without rows, which writes nothing. */
  function NodeToXml(n: Tree.Node, st: StyleRegistry.StyleTable): (r: Out)
    ensures Grows(st, r.1)
    ensures r.0 == if Writes(n) then [NodeElement(n)] else []
    decreases n, 0
  {
    match n
    case TableNode(t) => TableToXml(t, st)
    case _ => ([LeafElement(n)], st)
  }

  /** `Table.toXml`: nothing for a table without rows; otherwise one
      `table:table` element holding a column element per definition, in
      order, then the written rows. The column styles are resolved before
      any cell style. */
  function TableToXml(t: Tree.Table, st: StyleRegistry.StyleTable): (r: Out)
    ensures Grows(st, r.1)
    ensures t.rows == [] ==> r == ([], st)
    ensures t.rows != [] ==> r.0 == [TableElement(t)]
    decreases t, 2
  {
    if t.rows == [] then ([], st)
    else
      var (cols, st1) := ColDefsToXml(t.colDefs, st);
      var (rows, st2) := RowsToXml(t.rows, st1);
      GrowsTransitive(st, st1, st2);
      ([Element("table:table", [], cols + rows)], st2)
  }

  /** One `table:table-column` element per definition, element `i` naming
      the style of definition `i`. */
  function ColDefsToXml(ds: seq<Tree.ColDef>, st: StyleRegistry.StyleTable): (r: Out)
    ensures Grows(st, r.1)
    ensures r.0 == ColumnElements(ds)
  {
    if ds == [] then ([], st)
    else
      var (x, st1) := TableColDef.ToXml(ds[0], st);
      var (xs, st2) := ColDefsToXml(ds[1..], st1);
      GrowsTransitive(st, st1, st2);
      assert x == ColumnElement(ds[0]);
      ColumnElementsCons(ds);
      ([x] + xs, st2)
  }

  /** One `table:table-row` element per row that has cells, in order. */
  function RowsToXml(rows: seq<Tree.Row>, st: StyleRegistry.StyleTable): (r: Out)
    ensures Grows(st, r.1)
    ensures r.0 == RowElements(rows)
    decreases rows, 1
  {
    if rows == [] then ([], st)
    else
      var (x, st1) := RowToXml(rows[0], st);
      var (xs, st2) := RowsToXml(rows[1..], st1);
      GrowsTransitive(st, st1, st2);
      (x + xs, st2)
  }

  /** `TableRow.toXml`: nothing for a row without cells, else one
      `table:table-row` element with one cell element per cell, in order. */
  function RowToXml(row: Tree.Row, st: StyleRegistry.StyleTable): (r: Out)
    ensures Grows(st, r.1)
    ensures row.cells == [] ==> r == ([], st)
    ensures row.cells != [] ==> r.0 == [RowElement(row)]
    decreases row, 2
  {
    if row.cells == [] then ([], st)
    else
      var (cells, st1) := CellsToXml(row.cells, st);
      ([Element("table:table-row", [], cells)], st1)
  }

  function CellsToXml(cells: seq<Tree.Cell>, st: StyleRegistry.StyleTable): (r: Out)
    ensures Grows(st, r.1)
    ensures r.0 == CellElements(cells)
    decreases cells, 1
  {
    if cells == [] then ([], st)
    else
      var (x, st1) := CellToXml(cells[0], st);
      var (xs, st2) := CellsToXml(cells[1..], st1);
      GrowsTransitive(st, st1, st2);
      (x + xs, st2)
  }

  /** `TableCell.toXml`: one `table:table-cell` element with the value type
      and the style name, holding the elements of the cell's content; the
      style is resolved before the content is written, and is registered
      afterwards. */
  function CellToXml(c: Tree.Cell, st: StyleRegistry.StyleTable): (r: Out)
    ensures Grows(st, r.1)
    ensures r.0 == [CellElement(c)]
    ensures StyleRegistry.HasStyle(r.1, TableCellStyle.Name(c.style))
    decreases c, 2
  {
    var (attrs, st1) := CellAttrs(c, st);
    var (kids, st2) := NodesToXml(c.content, st1);
    StyleRegistry.ExtendsKeepsStyles(st1, st2, TableCellStyle.Name(c.style));
    GrowsTransitive(st, st1, st2);
    ([Element("table:table-cell", attrs, kids)], st2)
  }

  /** The attributes of a cell element: the value type, then the name its
      style resolves to, which is then registered. */
  function CellAttrs(c: Tree.Cell, st: StyleRegistry.StyleTable): (r: (Attrs, StyleRegistry.StyleTable))
    ensures r.0 == [("office:value-type", Tree.ValueTypeName(c.valueType)), ("table:style-name", TableCellStyle.Name(c.style))]
    ensures Grows(st, r.1) && StyleRegistry.HasStyle(r.1, TableCellStyle.Name(c.style))
  {
    var parent := [("office:value-type", Tree.ValueTypeName(c.valueType))];
    var name := TableCellStyle.Name(c.style);
    assert Assoc.Keys(parent) == ["office:value-type"];
    var r := TableCellStyle.ToXml(c.style, parent, st);
    assert r.0 == parent + [("table:style-name", name)];
    r
  }
}
