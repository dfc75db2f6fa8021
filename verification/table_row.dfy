/** `TableRow`: an ordered list of cells and nothing else. */
module TableRow {
  import opened Wrappers
  import Tree
  import TableCell
  import Children

  /** `addCell(content, type)`: one new cell at the end; the result carries
      the position of the new cell, which stands for the returned object. */
  function AddCell(r: Tree.Row, content: TableCell.Content, valueType: Option<Tree.ValueType>, g: Tree.Globals): (res: (Tree.Row, nat))
    ensures res.1 == Size(r) && Size(res.0) == Size(r) + 1
    ensures GetCell(res.0, res.1) == Some(TableCell.New(content, valueType, g))
    ensures forall i :: i != res.1 ==> GetCell(res.0, i) == GetCell(r, i)
  {
    (Tree.Row(Children.Append(r.cells, TableCell.New(content, valueType, g))), |r.cells|)
  }

  function GetCell(r: Tree.Row, position: int): Option<Tree.Cell> {
    Children.Get(r.cells, position)
  }

  function GetCells(r: Tree.Row): seq<Tree.Cell> {
    r.cells
  }

  /** `removeCellAt(position)`: the row without that cell, and the cell. */
  function RemoveCellAt(r: Tree.Row, position: int): (res: (Tree.Row, Option<Tree.Cell>))
    ensures res.1 == GetCell(r, position)
    ensures res.1.None? ==> res.0 == r
    ensures res.1.Some? ==> Size(res.0) == Size(r) - 1
    ensures res.1.Some? ==> forall i :: 0 <= i < Size(res.0) ==>
      GetCell(res.0, i) == GetCell(r, if i < position then i else i + 1)
  {
    var (cells, removed) := Children.RemoveAt(r.cells, position);
    (Tree.Row(cells), removed)
  }

  function Size(r: Tree.Row): nat {
    |r.cells|
  }

  /** `clear()`: removes the first cell until there is none. */
  method Clear(r: Tree.Row) returns (res: Tree.Row)
    ensures Size(res) == 0
    ensures forall i :: GetCell(res, i) == None
  {
    var step := RemoveCellAt(r, 0);
    res := step.0;
    while step.1.Some?
      invariant res == step.0
      invariant step.1.None? ==> Size(res) == 0
      decreases Size(res) + (if step.1.Some? then 1 else 0)
    {
      step := RemoveCellAt(res, 0);
      res := step.0;
    }
  }

  /** Removing the cell just added undoes `addCell`. */
  lemma RemoveAfterAdd(r: Tree.Row, content: TableCell.Content, valueType: Option<Tree.ValueType>, g: Tree.Globals)
    ensures var (r', i) := AddCell(r, content, valueType, g);
      RemoveCellAt(r', i) == (r, Some(TableCell.New(content, valueType, g)))
  {
    Children.RemoveAfterAppend(r.cells, TableCell.New(content, valueType, g));
  }
}
