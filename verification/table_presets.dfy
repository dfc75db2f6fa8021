/** The twelve cell styles the table helper sets up (`cst01` … `cst33`):
    one per row kind and column kind, each a copy of the defaults at setup
    time with the four edges set in the order top, left, bottom, right. */
module TablePresets {
  import opened Wrappers
  import TCS = TableCellStyle

  /** The row type of `addColumn`, with the number the source gives it. */
  datatype RowKind =
    | SingleRow   // 0: not part of a multi-row
    | TopRow      // 1: first row of a multi-row
    | MiddleRow   // 2: intermediate row of a multi-row
    | BottomRow   // 3: last row of a multi-row

  /** The column type of `addColumn`, with the number the source gives it. */
  datatype ColKind =
    | FirstCol    // 1
    | MiddleCol   // 2
    | LastCol     // 3

  /** The row type read off the span counter. */
  function RowKindOf(multi: int): (k: RowKind)
    ensures k == TopRow <==> multi < 0
    ensures k == MiddleRow <==> multi > 1
    ensures k == BottomRow <==> multi == 1
    ensures k == SingleRow <==> multi == 0
  {
    if multi < 0 then TopRow else if multi > 1 then MiddleRow else if multi == 1 then BottomRow else SingleRow
  }

  /** The column type: the first column wins over the last one, so a
      one-column table uses first-column styles. */
  function ColKindOf(col: int, numCols: int): (k: ColKind)
    ensures k == FirstCol <==> col == 1
    ensures k == LastCol <==> col != 1 && col == numCols
  {
    if col == 1 then FirstCol else if col == numCols then LastCol else MiddleCol
  }

  const NoBorder := "none"
  const Thick := "1pt solid #000000"
  const Thin := "0.5pt solid #000000"

  /** The edge values of the twelve presets (top, left, bottom, right), as
      listed in `_setupStyles`. */
  function Edges(rk: RowKind, ck: ColKind): (string, string, string, string) {
    match (rk, ck)
    case (SingleRow, FirstCol) => (Thick, Thick, Thick, Thin)
    case (SingleRow, MiddleCol) => (Thick, NoBorder, Thick, Thin)
    case (SingleRow, LastCol) => (Thick, NoBorder, Thick, Thick)
    case (TopRow, FirstCol) => (Thick, Thick, NoBorder, Thin)
    case (TopRow, MiddleCol) => (Thick, NoBorder, NoBorder, Thin)
    case (TopRow, LastCol) => (Thick, NoBorder, NoBorder, Thick)
    case (MiddleRow, FirstCol) => (NoBorder, Thick, NoBorder, Thin)
    case (MiddleRow, MiddleCol) => (NoBorder, NoBorder, NoBorder, Thin)
    case (MiddleRow, LastCol) => (NoBorder, NoBorder, NoBorder, Thick)
    case (BottomRow, FirstCol) => (NoBorder, Thick, Thick, Thin)
    case (BottomRow, MiddleCol) => (NoBorder, NoBorder, Thick, Thin)
    case (BottomRow, LastCol) => (NoBorder, NoBorder, Thick, Thick)
  }

  /** Preset `cst<row><col>`, built on `base`, the style a constructor call
      gave at setup time. */
  function Preset(base: TCS.CellStyle, rk: RowKind, ck: ColKind): TCS.CellStyle {
    var e := Edges(rk, ck);
    TCS.AddBorder(TCS.AddBorder(TCS.AddBorder(TCS.AddBorder(base, TCS.Top, e.0), TCS.Left, e.1), TCS.Bottom, e.2), TCS.Right, e.3)
  }

  /** The rule behind the table: a thick line around the outside of a row or
      a multi-row, a thin line between columns, no line between the rows of
      a multi-row; the alignment, the padding and any other edge are those
      of `base`. */
  lemma PresetRule(base: TCS.CellStyle, rk: RowKind, ck: ColKind)
    ensures var s := Preset(base, rk, ck);
      && TCS.BorderAt(s, TCS.Top) == Some(if rk == SingleRow || rk == TopRow then Thick else NoBorder)
      && TCS.BorderAt(s, TCS.Bottom) == Some(if rk == SingleRow || rk == BottomRow then Thick else NoBorder)
      && TCS.BorderAt(s, TCS.Left) == Some(if ck == FirstCol then Thick else NoBorder)
      && TCS.BorderAt(s, TCS.Right) == Some(if ck == LastCol then Thick else Thin)
      && TCS.BorderAt(s, TCS.All) == TCS.BorderAt(base, TCS.All)
      && s.padding == base.padding && s.vAlign == base.vAlign
  {
    var e := Edges(rk, ck);
    EdgesRule(rk, ck);
    FourEdges(base, e.0, e.1, e.2, e.3);
  }

  /** The table of edges follows the rule. */
  lemma EdgesRule(rk: RowKind, ck: ColKind)
    ensures Edges(rk, ck) == (if rk == SingleRow || rk == TopRow then Thick else NoBorder,
                              if ck == FirstCol then Thick else NoBorder,
                              if rk == SingleRow || rk == BottomRow then Thick else NoBorder,
                              if ck == LastCol then Thick else Thin)
  {
  }

  lemma AddBorderAt(s: TCS.CellStyle, where: TCS.Direction, v: string, d: TCS.Direction)
    ensures TCS.BorderAt(TCS.AddBorder(s, where, v), d) == if d == where then Some(v) else TCS.BorderAt(s, d)
    ensures TCS.AddBorder(s, where, v).padding == s.padding && TCS.AddBorder(s, where, v).vAlign == s.vAlign
  {
  }

  /** Setting top, left, bottom and right, in that order. */
  lemma FourEdges(base: TCS.CellStyle, top: string, left: string, bottom: string, right: string)
    ensures var s := TCS.AddBorder(TCS.AddBorder(TCS.AddBorder(TCS.AddBorder(base, TCS.Top, top), TCS.Left, left), TCS.Bottom, bottom), TCS.Right, right);
      && TCS.BorderAt(s, TCS.Top) == Some(top)
      && TCS.BorderAt(s, TCS.Left) == Some(left)
      && TCS.BorderAt(s, TCS.Bottom) == Some(bottom)
      && TCS.BorderAt(s, TCS.Right) == Some(right)
      && TCS.BorderAt(s, TCS.All) == TCS.BorderAt(base, TCS.All)
      && s.padding == base.padding && s.vAlign == base.vAlign
  {
    var s1 := TCS.AddBorder(base, TCS.Top, top);
    var s2 := TCS.AddBorder(s1, TCS.Left, left);
    var s3 := TCS.AddBorder(s2, TCS.Bottom, bottom);
    AddBorderAt(base, TCS.Top, top, TCS.Top);
    AddBorderAt(s1, TCS.Left, left, TCS.Top);
    AddBorderAt(s2, TCS.Bottom, bottom, TCS.Top);
    AddBorderAt(s3, TCS.Right, right, TCS.Top);
    AddBorderAt(base, TCS.Top, top, TCS.Left);
    AddBorderAt(s1, TCS.Left, left, TCS.Left);
    AddBorderAt(s2, TCS.Bottom, bottom, TCS.Left);
    AddBorderAt(s3, TCS.Right, right, TCS.Left);
    AddBorderAt(base, TCS.Top, top, TCS.Bottom);
    AddBorderAt(s1, TCS.Left, left, TCS.Bottom);
    AddBorderAt(s2, TCS.Bottom, bottom, TCS.Bottom);
    AddBorderAt(s3, TCS.Right, right, TCS.Bottom);
    AddBorderAt(base, TCS.Top, top, TCS.Right);
    AddBorderAt(s1, TCS.Left, left, TCS.Right);
    AddBorderAt(s2, TCS.Bottom, bottom, TCS.Right);
    AddBorderAt(s3, TCS.Right, right, TCS.Right);
    AddBorderAt(base, TCS.Top, top, TCS.All);
    AddBorderAt(s1, TCS.Left, left, TCS.All);
    AddBorderAt(s2, TCS.Bottom, bottom, TCS.All);
    AddBorderAt(s3, TCS.Right, right, TCS.All);
  }
}
