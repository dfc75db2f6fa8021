/** `Table`: column definitions fixed at construction, and an ordered list
    of rows. */
module Table {
  import opened Wrappers
  import Tree
  import TableColDef
  import Children

  /** `new Table(numCols)`: one fresh column definition per column (none for
      a count below one) and no rows. */
  function New(numCols: int): (t: Tree.Table)
    ensures |t.colDefs| == if numCols < 0 then 0 else numCols
    ensures forall i :: 0 <= i < |t.colDefs| ==> t.colDefs[i] == TableColDef.New()
    ensures Size(t) == 0
  {
    Tree.Table(seq(if numCols < 0 then 0 else numCols, _ => TableColDef.New()), [])
  }

  /** `addRow()`: one empty row at the end; the result carries its position. */
  function AddRow(t: Tree.Table): (r: (Tree.Table, nat))
    ensures r.1 == Size(t) && Size(r.0) == Size(t) + 1
    ensures GetRow(r.0, r.1) == Some(Tree.Row([]))
    ensures forall i :: i != r.1 ==> GetRow(r.0, i) == GetRow(t, i)
    ensures r.0.colDefs == t.colDefs
  {
    (t.(rows := Children.Append(t.rows, Tree.Row([]))), |t.rows|)
  }

  function GetRow(t: Tree.Table, position: int): Option<Tree.Row> {
    Children.Get(t.rows, position)
  }

  function GetRows(t: Tree.Table): seq<Tree.Row> {
    t.rows
  }

  /** `removeRowAt(position)`: the table without that row, and the row. */
  function RemoveRowAt(t: Tree.Table, position: int): (r: (Tree.Table, Option<Tree.Row>))
    ensures r.1 == GetRow(t, position)
    ensures r.1.None? ==> r.0 == t
    ensures r.1.Some? ==> Size(r.0) == Size(t) - 1
    ensures r.1.Some? ==> forall i :: 0 <= i < Size(r.0) ==>
      GetRow(r.0, i) == GetRow(t, if i < position then i else i + 1)
    ensures r.0.colDefs == t.colDefs
  {
    var (rows, removed) := Children.RemoveAt(t.rows, position);
    (t.(rows := rows), removed)
  }

  function Size(t: Tree.Table): nat {
    |t.rows|
  }

  /** `clear()`: removes the first row until there is none; the column
      definitions stay. */
  method Clear(t: Tree.Table) returns (r: Tree.Table)
    ensures Size(r) == 0 && r.colDefs == t.colDefs
  {
    var step := RemoveRowAt(t, 0);
    r := step.0;
    while step.1.Some?
      invariant r == step.0 && r.colDefs == t.colDefs
      invariant step.1.None? ==> Size(r) == 0
      decreases Size(r) + (if step.1.Some? then 1 else 0)
    {
      step := RemoveRowAt(r, 0);
      r := step.0;
    }
  }

  /** Removing the row just added undoes `addRow`. */
  lemma RemoveAfterAdd(t: Tree.Table)
    ensures var (t', i) := AddRow(t);
      RemoveRowAt(t', i) == (t, Some(Tree.Row([])))
  {
    Children.RemoveAfterAppend(t.rows, Tree.Row([]));
  }
}
