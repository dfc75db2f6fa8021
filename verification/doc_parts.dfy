/** Positions in a document that the table helper refers to: the body
    itself, a top-level table, or a cell of one. Object references of the
    source become these paths into the immutable document value. */
module DocParts {
  import Tree
  import TextDocument

  type Doc = TextDocument.Doc

  /** The part new content goes to (`cdp`): the body, or one table cell. */
  datatype Part = Body | CellAt(table: nat, row: nat, cell: nat)

  predicate IsTable(d: Doc, ti: nat) {
    ti < |d.children| && d.children[ti].TableNode?
  }

  function TableOf(d: Doc, ti: nat): Tree.Table
    requires IsTable(d, ti)
  {
    d.children[ti].table
  }

  predicate IsRow(d: Doc, ti: nat, ri: nat) {
    IsTable(d, ti) && ri < |TableOf(d, ti).rows|
  }

  function RowOf(d: Doc, ti: nat, ri: nat): Tree.Row
    requires IsRow(d, ti, ri)
  {
    TableOf(d, ti).rows[ri]
  }

  predicate ValidPart(d: Doc, p: Part) {
    p.CellAt? ==> IsRow(d, p.table, p.row) && p.cell < |RowOf(d, p.table, p.row).cells|
  }

  /** Every table, row and cell position of `d` is still one in `d'`. */
  ghost predicate KeepsShape(d: Doc, d': Doc) {
    && (forall ti :: IsTable(d, ti) ==> IsTable(d', ti))
    && (forall ti, ri :: IsRow(d, ti, ri) ==> IsRow(d', ti, ri))
    && (forall p :: ValidPart(d, p) ==> ValidPart(d', p))
  }

  lemma KeepsShapeTransitive(d1: Doc, d2: Doc, d3: Doc)
    requires KeepsShape(d1, d2) && KeepsShape(d2, d3)
    ensures KeepsShape(d1, d3)
  {
  }

  /** `d'` agrees with `d` outside the table at `ti`: the same fonts and
      every other top-level node. */
  ghost predicate OnlyTable(d: Doc, d': Doc, ti: nat)
    requires IsTable(d, ti)
  {
    && IsTable(d', ti)
    && d'.fonts == d.fonts
    && |d'.children| == |d.children|
    && (forall j :: 0 <= j < |d.children| && j != ti ==> d'.children[j] == d.children[j])
  }

  /** `d'` agrees with `d` outside row `ri` of table `ti`: besides the
      above, the table's column definitions and every other row of it. */
  ghost predicate OnlyRow(d: Doc, d': Doc, ti: nat, ri: nat)
    requires IsRow(d, ti, ri)
  {
    && OnlyTable(d, d', ti)
    && IsRow(d', ti, ri)
    && TableOf(d', ti).colDefs == TableOf(d, ti).colDefs
    && |TableOf(d', ti).rows| == |TableOf(d, ti).rows|
    && (forall j :: 0 <= j < |TableOf(d, ti).rows| && j != ri ==> TableOf(d', ti).rows[j] == TableOf(d, ti).rows[j])
  }

  lemma OnlyRowTransitive(d1: Doc, d2: Doc, d3: Doc, ti: nat, ri: nat)
    requires IsRow(d1, ti, ri) && OnlyRow(d1, d2, ti, ri) && OnlyRow(d2, d3, ti, ri)
    ensures OnlyRow(d1, d3, ti, ri)
  {
  }

  lemma OnlyTableThenRow(d1: Doc, d2: Doc, d3: Doc, ti: nat, ri: nat)
    requires IsTable(d1, ti) && OnlyTable(d1, d2, ti) && IsRow(d2, ti, ri) && OnlyRow(d2, d3, ti, ri)
    ensures OnlyTable(d1, d3, ti)
  {
  }

  /** Replacing the table at `ti`. */
  function WithTable(d: Doc, ti: nat, t: Tree.Table): (r: Doc)
    requires IsTable(d, ti)
    ensures OnlyTable(d, r, ti) && TableOf(r, ti) == t
  {
    d.(children := d.children[ti := Tree.TableNode(t)])
  }

  /** Replacing the row at `(ti, ri)`. */
  function WithRow(d: Doc, ti: nat, ri: nat, row: Tree.Row): (r: Doc)
    requires IsRow(d, ti, ri)
    ensures OnlyRow(d, r, ti, ri) && RowOf(r, ti, ri) == row
  {
    var t := TableOf(d, ti);
    WithTable(d, ti, t.(rows := t.rows[ri := row]))
  }

  /** Replacing one row by one with at least as many cells keeps every position. */
  lemma WithRowKeepsShape(d: Doc, ti: nat, ri: nat, row: Tree.Row)
    requires IsRow(d, ti, ri) && |row.cells| >= |RowOf(d, ti, ri).cells|
    ensures KeepsShape(d, WithRow(d, ti, ri, row))
  {
    var r := WithRow(d, ti, ri, row);
    forall p | ValidPart(d, p)
      ensures ValidPart(r, p)
    {
      if p.CellAt? && p.table == ti && p.row != ri {
        assert RowOf(r, ti, p.row) == RowOf(d, ti, p.row);
      }
    }
  }

  /** `d'` agrees with `d` everywhere except in the child nodes of part `p`:
      the fonts always, and for a cell also every other top-level node,
      every other row of its table, the table's column definitions, every
      other cell of its row, and its own style and value type. */
  ghost predicate SameBesides(d: Doc, d': Doc, p: Part)
    requires ValidPart(d, p)
  {
    && d'.fonts == d.fonts
    && (p.CellAt? ==>
      && OnlyRow(d, d', p.table, p.row)
      && var cells, cells' := RowOf(d, p.table, p.row).cells, RowOf(d', p.table, p.row).cells;
      && |cells'| == |cells|
      && (forall j :: 0 <= j < |cells| && j != p.cell ==> cells'[j] == cells[j])
      && cells'[p.cell].style == cells[p.cell].style
      && cells'[p.cell].valueType == cells[p.cell].valueType)
  }

  /** The child nodes of a part. */
  function ChildrenOf(d: Doc, p: Part): seq<Tree.Node>
    requires ValidPart(d, p)
  {
    match p
    case Body => d.children
    case CellAt(ti, ri, ci) => RowOf(d, ti, ri).cells[ci].content
  }

  /** Replacing the child nodes of a part by an extension of them: every
      position stays valid, and a cell keeps its style and value type. */
  function WithChildren(d: Doc, p: Part, ns: seq<Tree.Node>): (r: Doc)
    requires ValidPart(d, p)
    requires |ChildrenOf(d, p)| <= |ns| && ns[..|ChildrenOf(d, p)|] == ChildrenOf(d, p)
    ensures ValidPart(r, p) && ChildrenOf(r, p) == ns
    ensures KeepsShape(d, r)
    ensures SameBesides(d, r, p)
    ensures p.CellAt? ==>
      RowOf(r, p.table, p.row).cells == RowOf(d, p.table, p.row).cells[p.cell := RowOf(d, p.table, p.row).cells[p.cell].(content := ns)]
  {
    match p
    case Body =>
      var r := d.(children := ns);
      assert forall j :: 0 <= j < |d.children| ==> r.children[j] == d.children[j];
      r
    case CellAt(ti, ri, ci) =>
      var row := RowOf(d, ti, ri);
      var row' := row.(cells := row.cells[ci := row.cells[ci].(content := ns)]);
      WithRowKeepsShape(d, ti, ri, row');
      WithRow(d, ti, ri, row')
  }

  /** `cdp.append(node)`. */
  function AppendAt(d: Doc, p: Part, n: Tree.Node): (r: Doc)
    requires ValidPart(d, p)
    ensures ValidPart(r, p) && ChildrenOf(r, p) == ChildrenOf(d, p) + [n]
    ensures KeepsShape(d, r)
    ensures SameBesides(d, r, p)
    ensures p.CellAt? ==>
      RowOf(r, p.table, p.row).cells == RowOf(d, p.table, p.row).cells[p.cell := RowOf(d, p.table, p.row).cells[p.cell].(content := ChildrenOf(d, p) + [n])]
  {
    WithChildren(d, p, ChildrenOf(d, p) + [n])
  }
}
