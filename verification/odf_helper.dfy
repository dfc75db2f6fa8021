/** The report-building helper: a document, the part new content goes to,
    and the context of the table being filled. Every operation is a
    transition from one helper state to the next; the class-level defaults
    it writes (`Paragraph.defaultStyle`, `TableCellStyle.defaultPadding`)
    are part of the state, as `g`. */
module OdfHelper {
  import opened Wrappers
  import Tree
  import TextDocument
  import DocParts
  import Table
  import TableRow
  import TableCell
  import TableColStyle
  import TCS = TableCellStyle
  import TablePresets
  import Markup
  import Assoc

  /** `cTable`: the table (by its position among the document's children),
      the current row (by its position in the table), the declared number of
      columns, the column counter, the span counter and the lines flag. The
      `cell` field is only ever read right after it is written, so it is not
      kept. */
  datatype Ctx = Ctx(table: nat, row: Option<nat>, numCols: int, currentCol: int, multi: int, lines: bool)

  /** `presetBase` is the cell style the twelve presets were built on: the
      constructor builds them before it changes the default padding. */
  datatype Helper = Helper(doc: TextDocument.Doc, cdp: DocParts.Part, ctx: Option<Ctx>, g: Tree.Globals, presetBase: TCS.CellStyle)

  /** The current part exists, and so do the open table and its current row. */
  predicate Valid(h: Helper) {
    && DocParts.ValidPart(h.doc, h.cdp)
    && (h.ctx.Some? ==> DocParts.IsTable(h.doc, h.ctx.value.table))
    && (h.ctx.Some? && h.ctx.value.row.Some? ==> DocParts.IsRow(h.doc, h.ctx.value.table, h.ctx.value.row.value))
  }

  /** The helper's state after an edit of its document that keeps every
      position is still valid. */
  lemma ValidAfter(h: Helper, d: TextDocument.Doc)
    requires Valid(h) && DocParts.KeepsShape(h.doc, d)
    ensures Valid(h.(doc := d))
  {
  }

  /** The padding the constructor installs as the default. */
  const SidePadding: TCS.DirMap := [(TCS.Left, "1.5mm"), (TCS.Right, "1.5mm")]

  /** `new OdfHelper()` given the class-level defaults `g0` in force: two
      fonts declared, the presets built from `g0`, then the default padding
      and the standard paragraph style installed. */
  function NewHelper(g0: Tree.Globals): (h: Helper)
    ensures Valid(h) && h.cdp == DocParts.Body && h.ctx.None? && h.doc.children == []
    ensures h.doc.fonts == [TextDocument.Font("Ubuntu Mono", "monospace", TextDocument.Variable),
                            TextDocument.Font("Arial", "Arial", TextDocument.Variable)]
    ensures h.g.paraStyle == Tree.Standard && h.g.defaultBorder == g0.defaultBorder
    ensures h.g.defaultPadding == [(TCS.Left, "1.5mm"), (TCS.Right, "1.5mm")]
    ensures Assoc.Get(h.g.defaultPadding, TCS.Left) == Some("1.5mm")
    ensures Assoc.Get(h.g.defaultPadding, TCS.Right) == Some("1.5mm")
    ensures forall d :: d != TCS.Left && d != TCS.Right ==> Assoc.Get(h.g.defaultPadding, d) == None
    ensures h.presetBase == TCS.New(g0.defaultBorder, g0.defaultPadding)
  {
    var d := TextDocument.New();
    var d := TextDocument.DeclareFont(d, "Ubuntu Mono", "monospace", TextDocument.Variable);
    var d := TextDocument.DeclareFont(d, "Arial", "Arial", TextDocument.Variable);
    assert Assoc.Keys(SidePadding) == [TCS.Left, TCS.Right];
    Helper(d, DocParts.Body, None, Tree.Globals(g0.defaultBorder, SidePadding, Tree.Standard),
           TCS.New(g0.defaultBorder, g0.defaultPadding))
  }

  /** `addParagraph(text, style)`: a paragraph at the end of the current
      part, in `style` if one is given and in the default style otherwise. */
  function AddParagraph(h: Helper, text: string, style: Option<Tree.ParaStyle>): (r: Helper)
    requires Valid(h)
    ensures Valid(r) && r.cdp == h.cdp && r.ctx == h.ctx && r.g == h.g && r.presetBase == h.presetBase
    ensures DocParts.ChildrenOf(r.doc, r.cdp) ==
      DocParts.ChildrenOf(h.doc, h.cdp) + [Tree.Paragraph(text, if style.Some? then style.value else h.g.paraStyle)]
    ensures DocParts.KeepsShape(h.doc, r.doc) && DocParts.SameBesides(h.doc, r.doc, h.cdp)
    ensures h.cdp.CellAt? ==> var p := h.cdp;
      DocParts.RowOf(r.doc, p.table, p.row).cells == DocParts.RowOf(h.doc, p.table, p.row).cells[p.cell :=
        DocParts.RowOf(h.doc, p.table, p.row).cells[p.cell].(content := DocParts.ChildrenOf(r.doc, p))]
  {
    var p := Tree.Paragraph(text, match style case Some(s) => s case None => h.g.paraStyle);
    var d := DocParts.AppendAt(h.doc, h.cdp, p);
    ValidAfter(h, d);
    h.(doc := d)
  }

  /** `addCodeParagraph(text)`: a paragraph in the code style at the end of
      the current part. */
  function AddCodeParagraph(h: Helper, text: string): (r: Helper)
    requires Valid(h)
    ensures Valid(r) && r.cdp == h.cdp && r.ctx == h.ctx && r.g == h.g && r.presetBase == h.presetBase
    ensures DocParts.ChildrenOf(r.doc, r.cdp) == DocParts.ChildrenOf(h.doc, h.cdp) + [Tree.Paragraph(text, Tree.Code)]
    ensures DocParts.KeepsShape(h.doc, r.doc) && DocParts.SameBesides(h.doc, r.doc, h.cdp)
  {
    AddParagraph(h, text, Some(Tree.Code))
  }

  /** The padding map of `beginTable`: one entry per non-empty argument, in
      the order all, left, top, right, bottom. */
  function PadMap(padding: string, padLeft: string, padTop: string, padRight: string, padBottom: string): (m: TCS.DirMap)
    ensures Assoc.UniqueKeys(m)
    ensures Assoc.Get(m, TCS.All) == if padding != "" then Some(padding) else None
    ensures Assoc.Get(m, TCS.Left) == if padLeft != "" then Some(padLeft) else None
    ensures Assoc.Get(m, TCS.Top) == if padTop != "" then Some(padTop) else None
    ensures Assoc.Get(m, TCS.Right) == if padRight != "" then Some(padRight) else None
    ensures Assoc.Get(m, TCS.Bottom) == if padBottom != "" then Some(padBottom) else None
  {
    var m0: TCS.DirMap := [];
    assert Assoc.Keys(m0) == [];
    var m1 := Assoc.PutIf(m0, padding != "", TCS.All, padding);
    var m2 := Assoc.PutIf(m1, padLeft != "", TCS.Left, padLeft);
    var m3 := Assoc.PutIf(m2, padTop != "", TCS.Top, padTop);
    var m4 := Assoc.PutIf(m3, padRight != "", TCS.Right, padRight);
    Assoc.PutIf(m4, padBottom != "", TCS.Bottom, padBottom)
  }

  /** The order of the padding map is the order of the assignments: the
      entries of the given arguments, all, left, top, right, bottom. The
      order matters, as a cell style's name and properties list the
      padding in it. */
  lemma PadMapOrder(padding: string, padLeft: string, padTop: string, padRight: string, padBottom: string)
    ensures PadMap(padding, padLeft, padTop, padRight, padBottom) ==
      Given(TCS.All, padding) + Given(TCS.Left, padLeft) + Given(TCS.Top, padTop)
      + Given(TCS.Right, padRight) + Given(TCS.Bottom, padBottom)
  {
    var args := PadArgs(padding, padLeft, padTop, padRight, padBottom);
    PadArgsFresh(padding, padLeft, padTop, padRight, padBottom);
    PadsAppend([], args, {});
    PadArgsEntries(padding, padLeft, padTop, padRight, padBottom);
    PadArgsPads(padding, padLeft, padTop, padRight, padBottom);
  }

  /** The arguments of `beginTable` in the order they are assigned. */
  function PadArgs(padding: string, padLeft: string, padTop: string, padRight: string, padBottom: string): seq<(TCS.Direction, string)> {
    [(TCS.All, padding), (TCS.Left, padLeft), (TCS.Top, padTop), (TCS.Right, padRight), (TCS.Bottom, padBottom)]
  }

  lemma PadArgsFresh(padding: string, padLeft: string, padTop: string, padRight: string, padBottom: string)
    ensures Fresh(PadArgs(padding, padLeft, padTop, padRight, padBottom), {})
  {
    var a := PadArgs(padding, padLeft, padTop, padRight, padBottom);
    assert Fresh(a[4..], {} + {TCS.All} + {TCS.Left} + {TCS.Top} + {TCS.Right}) by {
      assert a[4..][1..] == [];
    }
    assert a[3..][1..] == a[4..] && Fresh(a[3..], {} + {TCS.All} + {TCS.Left} + {TCS.Top});
    assert a[2..][1..] == a[3..] && Fresh(a[2..], {} + {TCS.All} + {TCS.Left});
    assert a[1..][1..] == a[2..] && Fresh(a[1..], {} + {TCS.All});
    assert a[0..][1..] == a[1..] && a[0..] == a && Fresh(a, {});
  }

  lemma PadArgsEntries(padding: string, padLeft: string, padTop: string, padRight: string, padBottom: string)
    ensures Entries(PadArgs(padding, padLeft, padTop, padRight, padBottom)) ==
      Given(TCS.All, padding) + Given(TCS.Left, padLeft) + Given(TCS.Top, padTop)
      + Given(TCS.Right, padRight) + Given(TCS.Bottom, padBottom)
  {
    var a := PadArgs(padding, padLeft, padTop, padRight, padBottom);
    var g1, g2, g3, g4, g5 := Given(TCS.All, padding), Given(TCS.Left, padLeft), Given(TCS.Top, padTop),
                              Given(TCS.Right, padRight), Given(TCS.Bottom, padBottom);
    assert a[4..][1..] == [] && Entries(a[4..]) == g5 + [];
    assert g5 + [] == g5;
    assert a[3..][1..] == a[4..] && Entries(a[3..]) == g4 + g5;
    assert a[2..][1..] == a[3..] && Entries(a[2..]) == g3 + (g4 + g5);
    ConcatAssoc(g3, g4, g5);
    assert a[1..][1..] == a[2..] && Entries(a[1..]) == g2 + (g3 + g4 + g5);
    ConcatAssoc(g2, g3 + g4, g5);
    ConcatAssoc(g2, g3, g4);
    assert a[1..] == a[0..][1..] && a[0..] == a && Entries(a) == g1 + (g2 + g3 + g4 + g5);
    ConcatAssoc(g1, g2 + g3 + g4, g5);
    ConcatAssoc(g1, g2 + g3, g4);
    ConcatAssoc(g1, g2, g3);
  }

  lemma PadArgsPads(padding: string, padLeft: string, padTop: string, padRight: string, padBottom: string)
    ensures PadMap(padding, padLeft, padTop, padRight, padBottom) == Pads([], PadArgs(padding, padLeft, padTop, padRight, padBottom))
  {
    var a := PadArgs(padding, padLeft, padTop, padRight, padBottom);
    var m0: TCS.DirMap := [];
    var m1 := Assoc.PutIf(m0, padding != "", TCS.All, padding);
    var m2 := Assoc.PutIf(m1, padLeft != "", TCS.Left, padLeft);
    var m3 := Assoc.PutIf(m2, padTop != "", TCS.Top, padTop);
    var m4 := Assoc.PutIf(m3, padRight != "", TCS.Right, padRight);
    assert a[4..][1..] == [];
    assert Pads(m4, a[4..]) == Assoc.PutIf(m4, padBottom != "", TCS.Bottom, padBottom);
    assert a[3..][1..] == a[4..] && Pads(m3, a[3..]) == Pads(m4, a[4..]);
    assert a[2..][1..] == a[3..] && Pads(m2, a[2..]) == Pads(m3, a[3..]);
    assert a[1..][1..] == a[2..] && Pads(m1, a[1..]) == Pads(m2, a[2..]);
    assert a[0..][1..] == a[1..] && a[0..] == a && Pads(m0, a) == Pads(m1, a[1..]);
  }

  /** The padding arguments assigned in turn, each only when non-empty. */
  function Pads(m: TCS.DirMap, args: seq<(TCS.Direction, string)>): TCS.DirMap
    decreases |args|
  {
    if args == [] then m else Pads(Assoc.PutIf(m, args[0].1 != "", args[0].0, args[0].1), args[1..])
  }

  /** The entries of the given arguments, in order. */
  function Entries(args: seq<(TCS.Direction, string)>): seq<(TCS.Direction, string)>
    decreases |args|
  {
    if args == [] then [] else Given(args[0].0, args[0].1) + Entries(args[1..])
  }

  /** The directions of `args` are distinct and none is in `ds`. */
  predicate Fresh(args: seq<(TCS.Direction, string)>, ds: set<TCS.Direction>)
    decreases |args|
  {
    args == [] || (args[0].0 !in ds && Fresh(args[1..], ds + {args[0].0}))
  }

  /** Assigning arguments under directions that are distinct and new
      appends their entries in order. */
  lemma {:induction false} PadsAppend(m: TCS.DirMap, args: seq<(TCS.Direction, string)>, ds: set<TCS.Direction>)
    requires KeysAmong(m, ds) && Fresh(args, ds)
    ensures Pads(m, args) == m + Entries(args)
    decreases |args|
  {
    if args != [] {
      PutGiven(m, args[0].0, args[0].1, ds);
      var m' := m + Given(args[0].0, args[0].1);
      PadsAppend(m', args[1..], ds + {args[0].0});
      ConcatAssoc(m, Given(args[0].0, args[0].1), Entries(args[1..]));
    }
  }

  lemma ConcatAssoc<T>(a: seq<T>, b: seq<T>, c: seq<T>)
    ensures (a + b) + c == a + (b + c)
  {
  }

  /** Every key of `m` is one of `ds`. */
  ghost predicate KeysAmong(m: TCS.DirMap, ds: set<TCS.Direction>) {
    forall i :: 0 <= i < |m| ==> m[i].0 in ds
  }

  /** Setting a padding side not yet present appends its entry, if any. */
  lemma PutGiven(m: TCS.DirMap, d: TCS.Direction, v: string, ds: set<TCS.Direction>)
    requires KeysAmong(m, ds) && d !in ds
    ensures Assoc.PutIf(m, v != "", d, v) == m + Given(d, v)
    ensures KeysAmong(m + Given(d, v), ds + {d})
  {
  }

  /** The entry a padding argument contributes: one when it is given and
      non-empty, none otherwise. */
  function Given(d: TCS.Direction, v: string): seq<(TCS.Direction, string)> {
    if v != "" then [(d, v)] else []
  }

  /** Appending a node to the body keeps every position. */
  lemma AppendBodyKeepsShape(d: TextDocument.Doc, n: Tree.Node)
    ensures DocParts.KeepsShape(d, TextDocument.Append(d, n))
  {
    assert TextDocument.Append(d, n) == DocParts.AppendAt(d, DocParts.Body, n);
  }

  /** `beginTable(numCols, lines = true, padding = '1pt', padLeft, padTop,
      padRight, padBottom)`, with `""` standing for an omitted side padding
      (which, like an empty one, adds no entry): the new default padding, a new
      table appended to the document body (not to the current part, which
      stays where it was), and a fresh context. The flag says whether the
      warning about an unclosed table was given; the old context is
      replaced all the same. */
  function BeginTable(h: Helper, numCols: int, lines: bool := true, padding: string := "1pt", padLeft: string := "",
                      padTop: string := "", padRight: string := "", padBottom: string := ""): (r: (Helper, bool))
    requires Valid(h)
    ensures Valid(r.0)
    ensures r.1 <==> h.ctx.Some?
    ensures r.0.doc.children == h.doc.children + [Tree.TableNode(Table.New(numCols))] && r.0.doc.fonts == h.doc.fonts
    ensures r.0.ctx == Some(Ctx(|h.doc.children|, None, numCols, 1, 0, lines))
    ensures r.0.cdp == h.cdp && r.0.presetBase == h.presetBase
    ensures r.0.g == Tree.Globals(h.g.defaultBorder, PadMap(padding, padLeft, padTop, padRight, padBottom), Tree.TableBody)
    ensures DocParts.KeepsShape(h.doc, r.0.doc)
  {
    var pad := PadMap(padding, padLeft, padTop, padRight, padBottom);
    var (d, ti) := TextDocument.AddTable(h.doc, numCols);
    AppendBodyKeepsShape(h.doc, Tree.TableNode(Table.New(numCols)));
    ValidAfter(h, d);
    (Helper(d, h.cdp, Some(Ctx(ti, None, numCols, 1, 0, lines)), h.g.(defaultPadding := pad, paraStyle := Tree.TableBody), h.presetBase),
     h.ctx.Some?)
  }

  /** `beginTable(numCols)`: lines on, and a padding of 1pt on all sides
      as the only default padding. */
  lemma BeginTableDefaults(h: Helper, numCols: int)
    requires Valid(h)
    ensures var r := BeginTable(h, numCols).0;
      r.ctx.value.lines && r.g.defaultPadding == [(TCS.All, "1pt")]
    ensures BeginTable(h, numCols) == BeginTable(h, numCols, true, "1pt", "", "", "", "")
  {
  }

  /** Column definitions after `setTableColWidths(widths)`: only the first
      `min(|widths|, |cols|)` are touched; each gets its absolute width and
      loses the optimal-width flag. */
  function WithWidths(cols: seq<Tree.ColDef>, widths: seq<string>): (r: seq<Tree.ColDef>)
    ensures |r| == |cols|
    ensures forall i :: 0 <= i < |cols| && i < |widths| ==>
      r[i].style == TableColStyle.SetWidthString(cols[i].style, widths[i])
      && r[i].style.widthAbs == widths[i] && !r[i].style.optimal
    ensures forall i :: |widths| <= i < |cols| ==> r[i] == cols[i]
  {
    seq(|cols|, i requires 0 <= i < |cols| =>
      if i < |widths| then Tree.ColDef(TableColStyle.SetWidthString(cols[i].style, widths[i])) else cols[i])
  }

  /** Column definitions after `setTableColWidthsRel(widths)`. */
  function WithRelWidths(cols: seq<Tree.ColDef>, widths: seq<int>): (r: seq<Tree.ColDef>)
    ensures |r| == |cols|
    ensures forall i :: 0 <= i < |cols| && i < |widths| ==>
      r[i].style == TableColStyle.SetRelativeWidth(cols[i].style, widths[i])
      && r[i].style.widthRel == widths[i] && !r[i].style.optimal
    ensures forall i :: |widths| <= i < |cols| ==> r[i] == cols[i]
  {
    seq(|cols|, i requires 0 <= i < |cols| =>
      if i < |widths| then Tree.ColDef(TableColStyle.SetRelativeWidth(cols[i].style, widths[i])) else cols[i])
  }

  /** Replacing the column definitions of the open table. */
  function WithColDefs(h: Helper, cols: seq<Tree.ColDef>): (r: Helper)
    requires Valid(h) && h.ctx.Some?
    ensures Valid(r) && r.cdp == h.cdp && r.ctx == h.ctx && r.g == h.g && r.presetBase == h.presetBase
    ensures DocParts.OnlyTable(h.doc, r.doc, h.ctx.value.table)
    ensures DocParts.TableOf(r.doc, h.ctx.value.table) == DocParts.TableOf(h.doc, h.ctx.value.table).(colDefs := cols)
    ensures DocParts.KeepsShape(h.doc, r.doc)
  {
    var ti := h.ctx.value.table;
    var t := DocParts.TableOf(h.doc, ti);
    var d := DocParts.WithTable(h.doc, ti, t.(colDefs := cols));
    assert forall t', r' :: DocParts.IsRow(h.doc, t', r') ==> DocParts.IsRow(d, t', r') by {
      forall t', r' | DocParts.IsRow(h.doc, t', r') ensures DocParts.IsRow(d, t', r') {
        if t' == ti {
          assert DocParts.TableOf(d, t').rows == DocParts.TableOf(h.doc, t').rows;
        }
      }
    }
    assert forall p :: DocParts.ValidPart(h.doc, p) ==> DocParts.ValidPart(d, p) by {
      forall p | DocParts.ValidPart(h.doc, p) ensures DocParts.ValidPart(d, p) {
        if p.CellAt? && p.table == ti {
          assert DocParts.RowOf(d, p.table, p.row) == DocParts.RowOf(h.doc, p.table, p.row);
        }
      }
    }
    h.(doc := d)
  }

  /** `setTableColWidths(widths)`: throws when no table is open. */
  function SetTableColWidths(h: Helper, widths: seq<string>): (r: Result<Helper>)
    requires Valid(h)
    ensures r.Failure? <==> h.ctx.None?
    ensures r.Failure? ==> r.error == Error.NoTableOpen
    ensures r.Success? ==> Valid(r.value) && r.value.cdp == h.cdp && r.value.ctx == h.ctx && r.value.g == h.g
    ensures r.Success? ==> r.value.presetBase == h.presetBase && DocParts.OnlyTable(h.doc, r.value.doc, h.ctx.value.table)
    ensures r.Success? ==> var t := DocParts.TableOf(h.doc, h.ctx.value.table);
      DocParts.TableOf(r.value.doc, h.ctx.value.table) == t.(colDefs := WithWidths(t.colDefs, widths))
  {
    if h.ctx.None? then Failure(Error.NoTableOpen)
    else
      var t := DocParts.TableOf(h.doc, h.ctx.value.table);
      Success(WithColDefs(h, WithWidths(t.colDefs, widths)))
  }

  /** `setTableColWidthsRel(widths)`: throws when no table is open. */
  function SetTableColWidthsRel(h: Helper, widths: seq<int>): (r: Result<Helper>)
    requires Valid(h)
    ensures r.Failure? <==> h.ctx.None?
    ensures r.Failure? ==> r.error == Error.NoTableOpen
    ensures r.Success? ==> Valid(r.value) && r.value.cdp == h.cdp && r.value.ctx == h.ctx && r.value.g == h.g
    ensures r.Success? ==> r.value.presetBase == h.presetBase && DocParts.OnlyTable(h.doc, r.value.doc, h.ctx.value.table)
    ensures r.Success? ==> var t := DocParts.TableOf(h.doc, h.ctx.value.table);
      DocParts.TableOf(r.value.doc, h.ctx.value.table) == t.(colDefs := WithRelWidths(t.colDefs, widths))
  {
    if h.ctx.None? then Failure(Error.NoTableOpen)
    else
      var t := DocParts.TableOf(h.doc, h.ctx.value.table);
      Success(WithColDefs(h, WithRelWidths(t.colDefs, widths)))
  }

  /** The span counter after `addRow(data, multi)`: a non-zero argument
      starts a span of that many rows (stored negated, marking its first
      row); otherwise a running span counts down towards zero. */
  function NextMulti(current: int, multi: int): (m: int)
    ensures multi != 0 ==> m == -multi
    ensures multi == 0 && current != 0 ==> m == (if current < 0 then -current else current) - 1
    ensures multi == 0 && current == 0 ==> m == 0
  {
    if multi != 0 then -multi
    else if current != 0 then (if current < 0 then -current else current) - 1
    else 0
  }

  /** The common start of `addHeadRow` and `addRow`: a new empty row at the
      end of the open table, the paragraph style for the row, the column
      counter at zero and the span counter as given. */
  function StartRow(h: Helper, style: Tree.ParaStyle, multi: int): (r: Helper)
    requires Valid(h) && h.ctx.Some?
    ensures Valid(r) && r.cdp == h.cdp && r.presetBase == h.presetBase
    ensures r.g == h.g.(paraStyle := style)
    ensures var ti := h.ctx.value.table;
      var t := DocParts.TableOf(h.doc, ti);
      && DocParts.OnlyTable(h.doc, r.doc, ti)
      && DocParts.TableOf(r.doc, ti) == t.(rows := t.rows + [Tree.Row([])])
      && DocParts.KeepsShape(h.doc, r.doc)
    ensures var ti := h.ctx.value.table;
      && r.ctx == Some(h.ctx.value.(row := Some(|DocParts.TableOf(h.doc, ti).rows|), currentCol := 0, multi := multi))
      && DocParts.IsRow(r.doc, ti, r.ctx.value.row.value)
      && DocParts.RowOf(r.doc, ti, r.ctx.value.row.value) == Tree.Row([])
  {
    var ti := h.ctx.value.table;
    var t := DocParts.TableOf(h.doc, ti);
    var (t', ri) := Table.AddRow(t);
    var d := DocParts.WithTable(h.doc, ti, t');
    assert t'.rows == t.rows + [Tree.Row([])];
    assert forall t2: nat, r2: nat :: DocParts.IsRow(h.doc, t2, r2) ==> DocParts.IsRow(d, t2, r2) by {
      forall t2: nat, r2: nat | DocParts.IsRow(h.doc, t2, r2) ensures DocParts.IsRow(d, t2, r2) {
        if t2 == ti {
          assert DocParts.TableOf(d, t2).rows[r2] == t.rows[r2];
        }
      }
    }
    assert forall p :: DocParts.ValidPart(h.doc, p) ==> DocParts.ValidPart(d, p) by {
      forall p | DocParts.ValidPart(h.doc, p) ensures DocParts.ValidPart(d, p) {
        if p.CellAt? && p.table == ti {
          assert DocParts.RowOf(d, p.table, p.row) == DocParts.RowOf(h.doc, p.table, p.row);
        }
      }
    }
    var r := Helper(d, h.cdp, Some(h.ctx.value.(row := Some(ri), currentCol := 0, multi := multi)),
                    h.g.(paraStyle := style), h.presetBase);
    assert DocParts.RowOf(d, ti, ri) == Tree.Row([]);
    r
  }

  /** The style `addColumn` gives the cell it creates in column `col`: with
      lines on, the preset for the row type and the column type; with lines
      off, the style the cell was constructed with. */
  function NewCellStyle(h: Helper, c: Ctx, col: int): TCS.CellStyle {
    if c.lines then TablePresets.Preset(h.presetBase, TablePresets.RowKindOf(c.multi), TablePresets.ColKindOf(col, c.numCols))
    else TCS.New(h.g.defaultBorder, h.g.defaultPadding)
  }

  /** `addColumn()`: the column counter always advances; while it does not
      exceed the declared number of columns, a cell is added to the current
      row and becomes the current part. Throws when no table is open, and
      when a cell is due but no row was started. */
  function AddColumn(h: Helper): (r: Result<Helper>)
    requires Valid(h)
    ensures r.Failure? <==> h.ctx.None? || (h.ctx.value.currentCol + 1 <= h.ctx.value.numCols && h.ctx.value.row.None?)
    ensures r.Failure? ==> r.error == if h.ctx.None? then Error.NoTableOpen else Error.NoCurrentRow
    ensures r.Success? ==> Valid(r.value) && r.value.g == h.g && r.value.presetBase == h.presetBase
    ensures r.Success? ==> r.value.ctx == Some(h.ctx.value.(currentCol := h.ctx.value.currentCol + 1))
    ensures r.Success? && h.ctx.value.currentCol + 1 > h.ctx.value.numCols ==> r.value.doc == h.doc && r.value.cdp == h.cdp
    ensures r.Success? && h.ctx.value.currentCol + 1 <= h.ctx.value.numCols ==>
      var c := h.ctx.value;
      var cells := DocParts.RowOf(h.doc, c.table, c.row.value).cells;
      && DocParts.IsRow(r.value.doc, c.table, c.row.value)
      && DocParts.RowOf(r.value.doc, c.table, c.row.value).cells == cells + [Tree.Cell(Tree.StringValue, NewCellStyle(h, c, c.currentCol + 1), [])]
      && r.value.cdp == DocParts.CellAt(c.table, c.row.value, |cells|)
      && DocParts.OnlyRow(h.doc, r.value.doc, c.table, c.row.value)
  {
    if h.ctx.None? then Failure(Error.NoTableOpen)
    else
      var c := h.ctx.value;
      var col := c.currentCol + 1;
      var c' := c.(currentCol := col);
      if col <= c.numCols then
        if c.row.None? then Failure(Error.NoCurrentRow)
        else
          Success(AddCell(h, c', col))
      else
        Success(h.(ctx := Some(c')))
  }

  /** The cell-adding half of `addColumn`. */
  function AddCell(h: Helper, c': Ctx, col: int): (r: Helper)
    requires Valid(h) && h.ctx.Some? && h.ctx.value.row.Some?
    requires c' == h.ctx.value.(currentCol := col)
    ensures Valid(r) && r.g == h.g && r.presetBase == h.presetBase && r.ctx == Some(c')
    ensures var c := h.ctx.value;
      var cells := DocParts.RowOf(h.doc, c.table, c.row.value).cells;
      && DocParts.IsRow(r.doc, c.table, c.row.value)
      && DocParts.RowOf(r.doc, c.table, c.row.value).cells == cells + [Tree.Cell(Tree.StringValue, NewCellStyle(h, h.ctx.value, col), [])]
      && r.cdp == DocParts.CellAt(c.table, c.row.value, |cells|)
      && DocParts.OnlyRow(h.doc, r.doc, c.table, c.row.value)
  {
    var c := h.ctx.value;
    var ti := c.table;
    var ri := c.row.value;
    var row := DocParts.RowOf(h.doc, ti, ri);
    var (row', ci) := TableRow.AddCell(row, TableCell.NoContent, None, h.g);
    var cell := TableCell.New(TableCell.NoContent, None, h.g);
    assert row'.cells == row.cells + [cell];
    var cell' := if c.lines then TableCell.SetStyle(cell, NewCellStyle(h, c, col)) else cell;
    var row'' := Tree.Row(row.cells + [cell']);
    DocParts.WithRowKeepsShape(h.doc, ti, ri, row'');
    var d := DocParts.WithRow(h.doc, ti, ri, row'');
    Helper(d, DocParts.CellAt(ti, ri, ci), Some(c'), h.g, h.presetBase)
  }

  /** `data.forEach(str => { addColumn(); addParagraph(str); })`. */
  function AddColumns(h: Helper, data: seq<string>): (r: Result<Helper>)
    requires Valid(h)
    ensures r.Success? ==> Valid(r.value)
    decreases |data|
  {
    if data == [] then Success(h)
    else
      var h2 :- ColumnStep(h, data[0]);
      AddColumns(h2, data[1..])
  }

  /** `addColumn(); addParagraph(str)`. */
  function ColumnStep(h: Helper, str: string): (r: Result<Helper>)
    requires Valid(h)
    ensures r.Success? ==> Valid(r.value)
  {
    var h1 :- AddColumn(h);
    Success(AddParagraph(h1, str, None))
  }

  /** The row-filling half of `addHeadRow` and `addRow`: a column per data
      string, each followed by a paragraph holding it, or a single column
      when there is no data. */
  function FillRow(h: Helper, data: seq<string>): (r: Result<Helper>)
    requires Valid(h)
    ensures r.Success? ==> Valid(r.value)
  {
    if |data| > 0 then AddColumns(h, data) else AddColumn(h)
  }

  /** `addHeadRow(data)`: a row in the header paragraph style, outside any
      span. Throws when no table is open. */
  function AddHeadRow(h: Helper, data: seq<string> := []): (r: Result<Helper>)
    requires Valid(h)
    ensures r.Failure? <==> h.ctx.None?
    ensures r.Failure? ==> r.error == Error.NoTableOpen
    ensures r.Success? ==> Valid(r.value) && r.value.g.paraStyle == Tree.TableHeader
    ensures r.Success? ==> r.value.ctx.Some? && r.value.ctx.value.multi == 0
  {
    if h.ctx.None? then Failure(Error.NoTableOpen)
    else
      var h1 := StartRow(h, Tree.TableHeader, 0);
      var r := FillRow(h1, data);
      RowNeverFails(h1, data);
      r
  }

  /** `addRow(data, multi)`: a row in the body paragraph style; the span
      counter moves as `NextMulti` says. Throws when no table is open. */
  function AddRow(h: Helper, data: seq<string> := [], multi: int := 0): (r: Result<Helper>)
    requires Valid(h)
    ensures r.Failure? <==> h.ctx.None?
    ensures r.Failure? ==> r.error == Error.NoTableOpen
    ensures r.Success? ==> Valid(r.value) && r.value.g.paraStyle == Tree.TableBody
    ensures r.Success? ==> r.value.ctx.Some? && r.value.ctx.value.multi == NextMulti(h.ctx.value.multi, multi)
  {
    if h.ctx.None? then Failure(Error.NoTableOpen)
    else
      var h1 := StartRow(h, Tree.TableBody, NextMulti(h.ctx.value.multi, multi));
      var r := FillRow(h1, data);
      RowNeverFails(h1, data);
      r
  }

  /** Once a row is started, filling it cannot fail, and it keeps the
      paragraph style, the span counter and the table. */
  lemma RowNeverFails(h: Helper, data: seq<string>)
    requires Valid(h) && h.ctx.Some? && h.ctx.value.row.Some?
    ensures FillRow(h, data).Success?
    ensures var r := FillRow(h, data).value;
      r.g == h.g && r.ctx.Some? && r.ctx.value.multi == h.ctx.value.multi && r.ctx.value.table == h.ctx.value.table
      && r.ctx.value.row == h.ctx.value.row
  {
    if |data| > 0 {
      ColumnsNeverFail(h, data);
    }
  }

  lemma {:induction false} ColumnsNeverFail(h: Helper, data: seq<string>)
    requires Valid(h) && h.ctx.Some? && h.ctx.value.row.Some?
    ensures AddColumns(h, data).Success?
    ensures var r := AddColumns(h, data).value;
      r.g == h.g && r.ctx.Some? && r.ctx.value.multi == h.ctx.value.multi && r.ctx.value.table == h.ctx.value.table
      && r.ctx.value.row == h.ctx.value.row && r.ctx.value.lines == h.ctx.value.lines
      && r.ctx.value.numCols == h.ctx.value.numCols && r.presetBase == h.presetBase
    decreases |data|
  {
    if data != [] {
      var h2 := ColumnStep(h, data[0]).value;
      ColumnsNeverFail(h2, data[1..]);
    }
  }

  /** `endTable()`: no open table, the standard paragraph style, and the
      document body as the current part. Never throws, even with no table
      open. */
  function EndTable(h: Helper): (r: Helper)
    requires Valid(h)
    ensures Valid(r) && r.ctx.None? && r.cdp == DocParts.Body && r.doc == h.doc
    ensures r.g == h.g.(paraStyle := Tree.Standard) && r.presetBase == h.presetBase
  {
    h.(ctx := None, g := h.g.(paraStyle := Tree.Standard), cdp := DocParts.Body)
  }

  /** `addHTML(html, level)` on the current part, `events` being the
      tokenization of `html`. */
  function AddHtml(h: Helper, html: string, events: seq<Markup.Event>, level: int): (r: Result<Helper>)
    requires Valid(h)
    ensures r.Success? <==> Markup.Convert(DocParts.ChildrenOf(h.doc, h.cdp), html, events, level, h.g.paraStyle).Success?
    ensures r.Success? ==> Valid(r.value) && r.value.cdp == h.cdp && r.value.ctx == h.ctx && r.value.g == h.g
    ensures r.Success? ==> r.value.presetBase == h.presetBase
    ensures r.Success? ==>
      DocParts.ChildrenOf(r.value.doc, h.cdp) == Markup.Convert(DocParts.ChildrenOf(h.doc, h.cdp), html, events, level, h.g.paraStyle).value
    ensures r.Success? ==> DocParts.KeepsShape(h.doc, r.value.doc) && DocParts.SameBesides(h.doc, r.value.doc, h.cdp)
  {
    var ns :- Markup.Convert(DocParts.ChildrenOf(h.doc, h.cdp), html, events, level, h.g.paraStyle);
    var d := DocParts.WithChildren(h.doc, h.cdp, ns);
    ValidAfter(h, d);
    Success(h.(doc := d))
  }

  /** The span counter after `k` further calls of `addRow` without a span
      argument, starting from `m`. */
  function AfterPlainRows(m: int, k: nat): int
    decreases k
  {
    if k == 0 then m else AfterPlainRows(NextMulti(m, 0), k - 1)
  }

  /** From a non-negative counter, each plain row counts down by one until
      zero is reached. */
  lemma {:induction false} CountDown(m: int, k: nat)
    requires m >= 0
    ensures AfterPlainRows(m, k) == if m - k > 0 then m - k else 0
  {
    if k > 0 {
      CountDown(if m > 0 then m - 1 else 0, k - 1);
    }
  }

  /** A span of `n` rows counts down: `k` plain rows after the first, the
      counter is `n - k`, and zero once the span is over. */
  lemma SpanCountsDown(n: int, k: nat)
    requires n >= 1 && k >= 1
    ensures AfterPlainRows(-n, k) == if n - k > 0 then n - k else 0
  {
    CountDown(n - 1, k - 1);
  }

  /** The row types of a span of `n >= 1` rows started by `addRow(data, n)`
      and continued by plain `addRow` calls: the first row is a top row, the
      next `n - 2` are middle rows, then comes one bottom row, and every row
      after it is a single row again (for `n == 1`: a top row, then single
      rows). */
  lemma SpanRowKinds(n: int, k: nat)
    requires n >= 1
    ensures TablePresets.RowKindOf(AfterPlainRows(-n, k)) ==
      if k == 0 then TablePresets.TopRow
      else if k < n - 1 then TablePresets.MiddleRow
      else if k == n - 1 then TablePresets.BottomRow
      else TablePresets.SingleRow
  {
    if k >= 1 {
      SpanCountsDown(n, k);
    }
  }

  /** Plain `addRow` calls, one per entry of `rows`. */
  function PlainRows(h: Helper, rows: seq<seq<string>>): (r: Result<Helper>)
    requires Valid(h)
    ensures r.Success? ==> Valid(r.value)
    decreases |rows|
  {
    if rows == [] then Success(h)
    else
      var h1 :- AddRow(h, rows[0], 0);
      PlainRows(h1, rows[1..])
  }

  /** With a table open, plain rows never fail, and the span counter moves
      as `AfterPlainRows` says: one step per row. */
  lemma {:induction false} PlainRowsCount(h: Helper, rows: seq<seq<string>>, m: int)
    requires Valid(h) && h.ctx.Some? && h.ctx.value.multi == m
    ensures PlainRows(h, rows).Success?
    ensures PlainRows(h, rows).value.ctx.Some?
    ensures PlainRows(h, rows).value.ctx.value.multi == AfterPlainRows(m, |rows|)
    decreases |rows|
  {
    if rows != [] {
      var h1 := AddRow(h, rows[0], 0).value;
      var rest := rows[1..];
      assert PlainRows(h, rows) == PlainRows(h1, rest);
      PlainRowsCount(h1, rest, NextMulti(m, 0));
      assert |rest| == |rows| - 1;
    }
  }

  /** The borders of a new cell: with lines on, thick at the top unless the
      row continues a span, thick at the bottom on a single row or the last
      row of a span, thick on the left of the first column, thick on the
      right of the last column (but not of a one-column table's only
      column, which counts as the first) and thin there otherwise; the
      padding is the one the presets were built with. With lines off, the
      border and padding are the defaults in force. */
  lemma CellStyleRule(h: Helper, c: Ctx, col: int)
    ensures var s := NewCellStyle(h, c, col);
      && (c.lines ==>
        && TCS.BorderAt(s, TCS.Top) == Some(if c.multi <= 0 then TablePresets.Thick else TablePresets.NoBorder)
        && TCS.BorderAt(s, TCS.Bottom) == Some(if c.multi == 0 || c.multi == 1 then TablePresets.Thick else TablePresets.NoBorder)
        && TCS.BorderAt(s, TCS.Left) == Some(if col == 1 then TablePresets.Thick else TablePresets.NoBorder)
        && TCS.BorderAt(s, TCS.Right) == Some(if col != 1 && col == c.numCols then TablePresets.Thick else TablePresets.Thin)
        && s.padding == h.presetBase.padding)
      && (!c.lines ==>
        && (forall d :: TCS.BorderAt(s, d) == Assoc.Get(h.g.defaultBorder, d))
        && (forall d :: Assoc.Get(s.padding, d) == Assoc.Get(h.g.defaultPadding, d)))
  {
    if c.lines {
      TablePresets.PresetRule(h.presetBase, TablePresets.RowKindOf(c.multi), TablePresets.ColKindOf(col, c.numCols));
    }
  }

  function Min(a: int, b: int): int {
    if a < b then a else b
  }

  /** The contents of the cells of a row, in order. */
  function Contents(row: Tree.Row): (r: seq<seq<Tree.Node>>)
    ensures |r| == |row.cells|
    ensures forall j :: 0 <= j < |row.cells| ==> r[j] == row.cells[j].content
  {
    seq(|row.cells|, j requires 0 <= j < |row.cells| => row.cells[j].content)
  }

  /** The reference layout of a row filled from `data` in a table of
      `numCols >= 1` columns: one cell per string up to the last column,
      each holding its string as one paragraph, and the strings beyond the
      last column as further paragraphs of the last cell. */
  function Layout(data: seq<string>, numCols: int, style: Tree.ParaStyle): (r: seq<seq<Tree.Node>>)
    requires numCols >= 1
    ensures |r| == Min(|data|, numCols)
  {
    var k := Min(|data|, numCols);
    seq(k, j requires 0 <= j < k => if j < k - 1 then [Tree.Paragraph(data[j], style)] else Markup.Paragraphs(data[k - 1..], style))
  }

  /** One more string in a row that still has free columns: a new cell. */
  lemma LayoutNewCell(data: seq<string>, x: string, numCols: int, style: Tree.ParaStyle)
    requires 1 <= numCols && |data| < numCols
    ensures Layout(data + [x], numCols, style) == Layout(data, numCols, style) + [[Tree.Paragraph(x, style)]]
  {
    var a := Layout(data + [x], numCols, style);
    var b := Layout(data, numCols, style) + [[Tree.Paragraph(x, style)]];
    assert |a| == |b|;
    forall j | 0 <= j < |a| ensures a[j] == b[j] {
      if j == |data| - 1 {
        assert data[j..] == [] + [data[j]];
        Markup.ParagraphsSnoc([], data[j], style);
      } else if j == |data| {
        assert (data + [x])[j..] == [] + [x];
        Markup.ParagraphsSnoc([], x, style);
      }
    }
  }

  /** One more string in a row whose columns are used up: a further
      paragraph in the last cell. */
  lemma LayoutLastCell(data: seq<string>, x: string, numCols: int, style: Tree.ParaStyle)
    requires 1 <= numCols <= |data|
    ensures var l := Layout(data, numCols, style);
      Layout(data + [x], numCols, style) == l[numCols - 1 := l[numCols - 1] + [Tree.Paragraph(x, style)]]
  {
    var l := Layout(data, numCols, style);
    var a := Layout(data + [x], numCols, style);
    var b := l[numCols - 1 := l[numCols - 1] + [Tree.Paragraph(x, style)]];
    assert |a| == |b|;
    forall j | 0 <= j < |a| ensures a[j] == b[j] {
      if j == numCols - 1 {
        assert (data + [x])[j..] == data[j..] + [x];
        Markup.ParagraphsSnoc(data[j..], x, style);
      }
    }
  }

  /** Every cell of `row` is a string cell in the style `addColumn` gives
      a cell of its column under context `c`. */
  predicate StyledByColumn(h: Helper, c: Ctx, row: Tree.Row) {
    forall j :: 0 <= j < |row.cells| ==>
      row.cells[j].valueType == Tree.StringValue && row.cells[j].style == NewCellStyle(h, c, j + 1)
  }

  /** A new cell styled for its column keeps a row styled by its columns,
      whatever content it is then given, under any context that differs
      only in the column counter. */
  lemma StyledNewCell(h: Helper, h2: Helper, cells: seq<Tree.Cell>, cell: Tree.Cell, p: Tree.Node)
    requires h.ctx.Some? && h2.ctx.Some? && StyledByColumn(h, h.ctx.value, Tree.Row(cells))
    requires cell.valueType == Tree.StringValue && cell.style == NewCellStyle(h, h.ctx.value, |cells| + 1)
    requires h2.presetBase == h.presetBase && h2.g == h.g
    requires h2.ctx.value == h.ctx.value.(currentCol := h2.ctx.value.currentCol)
    ensures StyledByColumn(h2, h2.ctx.value, Tree.Row((cells + [cell])[|cells| := cell.(content := [p])]))
  {
  }

  /** A row whose cells keep their styles and value types stays styled by
      its columns under any context that differs only in the column
      counter. */
  lemma StyledSameStyles(h: Helper, h2: Helper, row: Tree.Row, row2: Tree.Row)
    requires h.ctx.Some? && h2.ctx.Some? && StyledByColumn(h, h.ctx.value, row)
    requires |row2.cells| == |row.cells|
    requires forall j :: 0 <= j < |row.cells| ==>
      row2.cells[j].style == row.cells[j].style && row2.cells[j].valueType == row.cells[j].valueType
    requires h2.presetBase == h.presetBase && h2.g == h.g
    requires h2.ctx.value == h.ctx.value.(currentCol := h2.ctx.value.currentCol)
    ensures StyledByColumn(h2, h2.ctx.value, row2)
  {
  }

  /** The state while a row of table `ti` (at row `ri`, in a table of
      `numCols >= 1` columns) is being filled and the strings `done` have
      been handled: the row holds their reference layout in cells styled
      by their columns, and the current part is its last cell once there
      is one. */
  predicate Filling(h: Helper, ti: nat, ri: nat, numCols: int, done: seq<string>) {
    && Valid(h) && h.ctx.Some?
    && h.ctx.value.table == ti && h.ctx.value.row == Some(ri)
    && h.ctx.value.numCols == numCols >= 1 && h.ctx.value.currentCol == |done|
    && DocParts.IsRow(h.doc, ti, ri)
    && Contents(DocParts.RowOf(h.doc, ti, ri)) == Layout(done, numCols, h.g.paraStyle)
    && StyledByColumn(h, h.ctx.value, DocParts.RowOf(h.doc, ti, ri))
    && (|done| >= 1 ==> h.cdp == DocParts.CellAt(ti, ri, Min(|done|, numCols) - 1))
  }

  /** One `addColumn(); addParagraph(x)` keeps the row at its reference
      layout, changes nothing outside the row, and only advances the
      column counter. */
  lemma FillStep(h: Helper, ti: nat, ri: nat, numCols: int, done: seq<string>, x: string)
    requires Filling(h, ti, ri, numCols, done)
    ensures ColumnStep(h, x).Success?
    ensures var h2 := ColumnStep(h, x).value;
      && Filling(h2, ti, ri, numCols, done + [x]) && h2.g == h.g && h2.presetBase == h.presetBase
      && h2.ctx == Some(h.ctx.value.(currentCol := |done| + 1))
      && DocParts.OnlyRow(h.doc, h2.doc, ti, ri)
  {
    if |done| < numCols {
      FillNewCell(h, ti, ri, numCols, done, x);
    } else {
      FillLastCell(h, ti, ri, numCols, done, x);
    }
  }

  lemma FillNewCell(h: Helper, ti: nat, ri: nat, numCols: int, done: seq<string>, x: string)
    requires Filling(h, ti, ri, numCols, done) && |done| < numCols
    ensures AddColumn(h).Success?
    ensures var h2 := AddParagraph(AddColumn(h).value, x, None);
      && Filling(h2, ti, ri, numCols, done + [x]) && h2.g == h.g && h2.presetBase == h.presetBase
      && h2.ctx == Some(h.ctx.value.(currentCol := |done| + 1))
      && DocParts.OnlyRow(h.doc, h2.doc, ti, ri)
  {
    var style := h.g.paraStyle;
    var h1 := AddColumn(h).value;
    var h2 := AddParagraph(h1, x, None);
    var cells := DocParts.RowOf(h.doc, ti, ri).cells;
    var cell := Tree.Cell(Tree.StringValue, NewCellStyle(h, h.ctx.value, |done| + 1), []);
    var p := Tree.Paragraph(x, style);
    ParagraphInNewCell(h1, x, cells, cell);
    ContentsNewCell(cells, cell, p);
    StyledNewCell(h, h2, cells, cell, p);
    LayoutNewCell(done, x, numCols, style);
    DocParts.OnlyRowTransitive(h.doc, h1.doc, h2.doc, ti, ri);
  }

  /** A paragraph added right after a new empty cell lands in that cell. */
  lemma ParagraphInNewCell(h1: Helper, x: string, cells: seq<Tree.Cell>, cell: Tree.Cell)
    requires Valid(h1) && h1.cdp.CellAt? && cell.content == []
    requires DocParts.RowOf(h1.doc, h1.cdp.table, h1.cdp.row).cells == cells + [cell]
    requires h1.cdp.cell == |cells|
    ensures var h2 := AddParagraph(h1, x, None);
      DocParts.RowOf(h2.doc, h1.cdp.table, h1.cdp.row).cells ==
        (cells + [cell])[|cells| := cell.(content := [Tree.Paragraph(x, h1.g.paraStyle)])]
  {
    var h2 := AddParagraph(h1, x, None);
    assert DocParts.ChildrenOf(h1.doc, h1.cdp) == [];
    assert [] + [Tree.Paragraph(x, h1.g.paraStyle)] == [Tree.Paragraph(x, h1.g.paraStyle)];
  }

  lemma ContentsNewCell(cells: seq<Tree.Cell>, cell: Tree.Cell, p: Tree.Node)
    ensures Contents(Tree.Row((cells + [cell])[|cells| := cell.(content := [p])])) == Contents(Tree.Row(cells)) + [[p]]
  {
  }

  lemma FillLastCell(h: Helper, ti: nat, ri: nat, numCols: int, done: seq<string>, x: string)
    requires Filling(h, ti, ri, numCols, done) && |done| >= numCols
    ensures AddColumn(h).Success?
    ensures var h2 := AddParagraph(AddColumn(h).value, x, None);
      && Filling(h2, ti, ri, numCols, done + [x]) && h2.g == h.g && h2.presetBase == h.presetBase
      && h2.ctx == Some(h.ctx.value.(currentCol := |done| + 1))
      && DocParts.OnlyRow(h.doc, h2.doc, ti, ri)
  {
    var style := h.g.paraStyle;
    var h1 := AddColumn(h).value;
    var h2 := AddParagraph(h1, x, None);
    LayoutLastCell(done, x, numCols, style);
    assert Contents(DocParts.RowOf(h2.doc, ti, ri)) == Layout(done + [x], numCols, style);
    StyledSameStyles(h, h2, DocParts.RowOf(h.doc, ti, ri), DocParts.RowOf(h2.doc, ti, ri));
  }

  /** Handling the remaining strings `rest` keeps the reference layout:
      the row ends up laid out from all the strings, `done + rest`, and
      nothing outside the row changes. */
  lemma {:induction false} FillRest(h: Helper, ti: nat, ri: nat, numCols: int, done: seq<string>, rest: seq<string>, all: seq<string>)
    requires Filling(h, ti, ri, numCols, done) && all == done + rest
    ensures AddColumns(h, rest).Success?
    ensures var r := AddColumns(h, rest).value;
      && Filling(r, ti, ri, numCols, all) && r.g == h.g && r.presetBase == h.presetBase
      && r.ctx == Some(h.ctx.value.(currentCol := |all|))
      && DocParts.OnlyRow(h.doc, r.doc, ti, ri)
    decreases |rest|
  {
    if rest == [] {
      assert all == done;
    } else {
      FillStep(h, ti, ri, numCols, done, rest[0]);
      var h2 := ColumnStep(h, rest[0]).value;
      assert rest == [rest[0]] + rest[1..];
      assert all == (done + [rest[0]]) + rest[1..];
      FillRest(h2, ti, ri, numCols, done + [rest[0]], rest[1..], all);
      assert AddColumns(h, rest) == AddColumns(h2, rest[1..]);
      DocParts.OnlyRowTransitive(h.doc, h2.doc, AddColumns(h2, rest[1..]).value.doc, ti, ri);
    }
  }

  /** What filling the fresh row of `h` from `data` leaves in `r`: the
      reference layout of `data`, or a single empty cell when there is no
      data, in string cells styled by their columns; the current part is
      its last cell, nothing outside the row changes, and of the context
      only the column counter moves. */
  ghost predicate Filled(h: Helper, r: Helper, data: seq<string>)
    requires h.ctx.Some? && h.ctx.value.row.Some? && h.ctx.value.numCols >= 1
  {
    var ti := h.ctx.value.table;
    var ri := h.ctx.value.row.value;
    var n := if data == [] then 1 else Min(|data|, h.ctx.value.numCols);
    && DocParts.IsRow(h.doc, ti, ri) && DocParts.IsRow(r.doc, ti, ri)
    && Contents(DocParts.RowOf(r.doc, ti, ri)) == (if data == [] then [[]] else Layout(data, h.ctx.value.numCols, h.g.paraStyle))
    && |DocParts.RowOf(r.doc, ti, ri).cells| == n
    && StyledByColumn(h, h.ctx.value, DocParts.RowOf(r.doc, ti, ri))
    && r.cdp == DocParts.CellAt(ti, ri, n - 1)
    && DocParts.OnlyRow(h.doc, r.doc, ti, ri)
    && r.g == h.g && r.presetBase == h.presetBase
    && r.ctx == Some(h.ctx.value.(currentCol := if data == [] then 1 else |data|))
  }

  /** A freshly started row, filled from `data`, is `Filled`. */
  lemma FillFresh(h: Helper, data: seq<string>)
    requires Valid(h) && h.ctx.Some? && h.ctx.value.row.Some? && h.ctx.value.currentCol == 0
    requires h.ctx.value.numCols >= 1
    requires DocParts.RowOf(h.doc, h.ctx.value.table, h.ctx.value.row.value) == Tree.Row([])
    ensures FillRow(h, data).Success?
    ensures Filled(h, FillRow(h, data).value, data)
  {
    if data == [] {
      FillEmpty(h);
    } else {
      FillData(h, data);
    }
  }

  /** With no data, the fresh row gets one empty cell. */
  lemma FillEmpty(h: Helper)
    requires Valid(h) && h.ctx.Some? && h.ctx.value.row.Some? && h.ctx.value.currentCol == 0
    requires h.ctx.value.numCols >= 1
    requires DocParts.RowOf(h.doc, h.ctx.value.table, h.ctx.value.row.value) == Tree.Row([])
    ensures AddColumn(h).Success?
    ensures Filled(h, AddColumn(h).value, [])
  {
    var ti := h.ctx.value.table;
    var ri := h.ctx.value.row.value;
    var r := AddColumn(h).value;
    assert Contents(DocParts.RowOf(r.doc, ti, ri)) == [[]];
  }

  /** With data, the fresh row gets its reference layout. */
  lemma FillData(h: Helper, data: seq<string>)
    requires Valid(h) && h.ctx.Some? && h.ctx.value.row.Some? && h.ctx.value.currentCol == 0
    requires h.ctx.value.numCols >= 1 && data != []
    requires DocParts.RowOf(h.doc, h.ctx.value.table, h.ctx.value.row.value) == Tree.Row([])
    ensures AddColumns(h, data).Success?
    ensures Filled(h, AddColumns(h, data).value, data)
  {
    var ti := h.ctx.value.table;
    var ri := h.ctx.value.row.value;
    var numCols := h.ctx.value.numCols;
    assert Contents(DocParts.RowOf(h.doc, ti, ri)) == Layout([], numCols, h.g.paraStyle);
    FillRest(h, ti, ri, numCols, [], data, data);
    var r := AddColumns(h, data).value;
    var row := DocParts.RowOf(r.doc, ti, ri);
    StyledSameStyles(r, h, row, row);
  }

  /** The cells of a row styled by their columns under the context of a
      freshly started row, spelled out against the helper the row was
      started from. */
  lemma FreshRowStyles(h: Helper, h1: Helper, row: Tree.Row, m: int)
    requires h.ctx.Some? && h1.ctx.Some? && StyledByColumn(h1, h1.ctx.value, row)
    requires h1.presetBase == h.presetBase
    requires h1.g.defaultBorder == h.g.defaultBorder && h1.g.defaultPadding == h.g.defaultPadding
    requires h1.ctx.value.lines == h.ctx.value.lines && h1.ctx.value.numCols == h.ctx.value.numCols
    requires h1.ctx.value.multi == m
    ensures forall j :: 0 <= j < |row.cells| ==>
      && row.cells[j].valueType == Tree.StringValue
      && row.cells[j].style ==
           if h.ctx.value.lines then TablePresets.Preset(h.presetBase, TablePresets.RowKindOf(m), TablePresets.ColKindOf(j + 1, h.ctx.value.numCols))
           else TCS.New(h.g.defaultBorder, h.g.defaultPadding)
  {
  }

  /** What `addHeadRow` and `addRow` leave behind in a table of at least
      one column, from helper `h`, given the strings `data`, the span
      counter `m` of the new row and its paragraph style:
      - outside the open table the document is unchanged, and so are the
        table's column definitions and its earlier rows;
      - one row is appended, with `max(1, min(|data|, numCols))` cells
        laid out as `Layout` says (one empty cell for no data);
      - each cell is a string cell; with lines on, its style is the preset
        for the row type of `m` and the column type of its column, and with
        lines off, the cell style built from the defaults in force;
      - the last cell is the current part; the context points at the new
        row, its column counter at the number of columns asked for, and
        its span counter at `m`; the paragraph style is `style`. */
  ghost predicate RowAdded(h: Helper, r: Helper, data: seq<string>, m: int, style: Tree.ParaStyle)
    requires Valid(h) && h.ctx.Some? && h.ctx.value.numCols >= 1
  {
    var c := h.ctx.value;
    var ti := c.table;
    var t := DocParts.TableOf(h.doc, ti);
    var ri := |t.rows|;
    var n := if data == [] then 1 else Min(|data|, c.numCols);
    && DocParts.OnlyTable(h.doc, r.doc, ti)
    && var t' := DocParts.TableOf(r.doc, ti);
    && t'.colDefs == t.colDefs && |t'.rows| == ri + 1 && t'.rows[..ri] == t.rows
    && Contents(t'.rows[ri]) == (if data == [] then [[]] else Layout(data, c.numCols, style))
    && |t'.rows[ri].cells| == n
    && (forall j :: 0 <= j < n ==>
          && t'.rows[ri].cells[j].valueType == Tree.StringValue
          && t'.rows[ri].cells[j].style ==
               if c.lines then TablePresets.Preset(h.presetBase, TablePresets.RowKindOf(m), TablePresets.ColKindOf(j + 1, c.numCols))
               else TCS.New(h.g.defaultBorder, h.g.defaultPadding))
    && r.cdp == DocParts.CellAt(ti, ri, n - 1)
    && r.ctx == Some(c.(row := Some(ri), currentCol := if data == [] then 1 else |data|, multi := m))
    && r.g == h.g.(paraStyle := style) && r.presetBase == h.presetBase
  }

  /** Starting a row and filling it gives `RowAdded`. */
  lemma StartAndFill(h: Helper, data: seq<string>, m: int, style: Tree.ParaStyle)
    requires Valid(h) && h.ctx.Some? && h.ctx.value.numCols >= 1
    ensures FillRow(StartRow(h, style, m), data).Success?
    ensures RowAdded(h, FillRow(StartRow(h, style, m), data).value, data, m, style)
  {
    var ti := h.ctx.value.table;
    var t := DocParts.TableOf(h.doc, ti);
    var ri := |t.rows|;
    var h1 := StartRow(h, style, m);
    FillFresh(h1, data);
    var r := FillRow(h1, data).value;
    DocParts.OnlyTableThenRow(h.doc, h1.doc, r.doc, ti, ri);
    var t' := DocParts.TableOf(r.doc, ti);
    FreshRowStyles(h, h1, t'.rows[ri], m);
    assert t'.rows[..ri] == t.rows by {
      assert forall j :: 0 <= j < ri ==> t'.rows[j] == DocParts.TableOf(h1.doc, ti).rows[j];
    }
  }


  /** `addRow(data, multi)` in a table of at least one column appends the
      row `RowAdded` describes, with the span counter `NextMulti` gives
      and the table paragraph style. */
  lemma RowLayout(h: Helper, data: seq<string>, multi: int)
    requires Valid(h) && h.ctx.Some? && h.ctx.value.numCols >= 1
    ensures AddRow(h, data, multi).Success?
    ensures RowAdded(h, AddRow(h, data, multi).value, data, NextMulti(h.ctx.value.multi, multi), Tree.TableBody)
  {
    StartAndFill(h, data, NextMulti(h.ctx.value.multi, multi), Tree.TableBody);
  }

  /** `addHeadRow(data)` appends such a row outside any span, in the
      header paragraph style. */
  lemma HeadRowLayout(h: Helper, data: seq<string>)
    requires Valid(h) && h.ctx.Some? && h.ctx.value.numCols >= 1
    ensures AddHeadRow(h, data).Success?
    ensures RowAdded(h, AddHeadRow(h, data).value, data, 0, Tree.TableHeader)
  {
    StartAndFill(h, data, 0, Tree.TableHeader);
  }
  /** Every cell of row `ri` of table `ti` has the preset style for row
      type `kind` and the column type of its column. */
  ghost predicate BorderedAs(d: TextDocument.Doc, ti: nat, ri: nat, base: TCS.CellStyle, kind: TablePresets.RowKind, numCols: int) {
    && DocParts.IsRow(d, ti, ri)
    && var cells := DocParts.RowOf(d, ti, ri).cells;
    forall j :: 0 <= j < |cells| ==> cells[j].style == TablePresets.Preset(base, kind, TablePresets.ColKindOf(j + 1, numCols))
  }

  /** With lines on, the row `RowAdded` describes is bordered for the row
      type of its span counter. */
  lemma RowAddedBorders(h: Helper, r: Helper, data: seq<string>, m: int, style: Tree.ParaStyle)
    requires Valid(h) && h.ctx.Some? && h.ctx.value.numCols >= 1 && h.ctx.value.lines
    requires RowAdded(h, r, data, m, style)
    ensures var c := h.ctx.value;
      var ri := |DocParts.TableOf(h.doc, c.table).rows|;
      && BorderedAs(r.doc, c.table, ri, h.presetBase, TablePresets.RowKindOf(m), c.numCols)
      && DocParts.IsTable(r.doc, c.table) && |DocParts.TableOf(r.doc, c.table).rows| == ri + 1
      && (forall k :: 0 <= k < ri ==> DocParts.TableOf(r.doc, c.table).rows[k] == DocParts.TableOf(h.doc, c.table).rows[k])
  {
    var c := h.ctx.value;
    var t := DocParts.TableOf(h.doc, c.table);
    var t' := DocParts.TableOf(r.doc, c.table);
    var ri := |t.rows|;
    assert forall k :: 0 <= k < ri ==> t'.rows[k] == t'.rows[..ri][k];
  }

  /** With lines on, `addRow(data, multi)` appends a row bordered for the
      row type of its span counter, keeps the earlier rows, and keeps the
      open table, its column count, `lines` and the presets. */
  lemma AddRowBorders(h: Helper, data: seq<string>, multi: int)
    requires Valid(h) && h.ctx.Some? && h.ctx.value.numCols >= 1 && h.ctx.value.lines
    ensures AddRow(h, data, multi).Success?
    ensures var r := AddRow(h, data, multi).value;
      var c := h.ctx.value;
      var ri := |DocParts.TableOf(h.doc, c.table).rows|;
      var m := NextMulti(c.multi, multi);
      && Valid(r) && r.ctx.Some? && r.ctx.value.table == c.table && r.ctx.value.numCols == c.numCols
      && r.ctx.value.lines && r.ctx.value.multi == m && r.presetBase == h.presetBase
      && BorderedAs(r.doc, c.table, ri, h.presetBase, TablePresets.RowKindOf(m), c.numCols)
      && DocParts.IsTable(r.doc, c.table) && |DocParts.TableOf(r.doc, c.table).rows| == ri + 1
      && (forall k :: 0 <= k < ri ==> DocParts.TableOf(r.doc, c.table).rows[k] == DocParts.TableOf(h.doc, c.table).rows[k])
  {
    var c := h.ctx.value;
    var m := NextMulti(c.multi, multi);
    RowLayout(h, data, multi);
    var r := AddRow(h, data, multi).value;
    RowAddedBorders(h, r, data, m, Tree.TableBody);
  }

  /** With lines on, `addRow(a, 3)` followed by two plain `addRow` calls
      gives three rows with top, middle and bottom borders. */
  lemma SpanOfThree(h: Helper, a: seq<string>, b: seq<string>, c: seq<string>)
    requires Valid(h) && h.ctx.Some? && h.ctx.value.numCols >= 1 && h.ctx.value.lines
    ensures AddRow(h, a, 3).Success?
    ensures var h1 := AddRow(h, a, 3).value;
      AddRow(h1, b).Success? && AddRow(AddRow(h1, b).value, c).Success?
    ensures var h3 := AddRow(AddRow(AddRow(h, a, 3).value, b).value, c).value;
      var ti := h.ctx.value.table;
      var ri := |DocParts.TableOf(h.doc, ti).rows|;
      var base := h.presetBase;
      var n := h.ctx.value.numCols;
      && BorderedAs(h3.doc, ti, ri, base, TablePresets.TopRow, n)
      && BorderedAs(h3.doc, ti, ri + 1, base, TablePresets.MiddleRow, n)
      && BorderedAs(h3.doc, ti, ri + 2, base, TablePresets.BottomRow, n)
  {
    var ti := h.ctx.value.table;
    var ri := |DocParts.TableOf(h.doc, ti).rows|;
    AddRowBorders(h, a, 3);
    var h1 := AddRow(h, a, 3).value;
    AddRowBorders(h1, b, 0);
    var h2 := AddRow(h1, b).value;
    AddRowBorders(h2, c, 0);
    var h3 := AddRow(h2, c).value;
    assert DocParts.TableOf(h2.doc, ti).rows[ri] == DocParts.TableOf(h1.doc, ti).rows[ri];
    assert DocParts.TableOf(h3.doc, ti).rows[ri] == DocParts.TableOf(h2.doc, ti).rows[ri];
    assert DocParts.TableOf(h3.doc, ti).rows[ri + 1] == DocParts.TableOf(h2.doc, ti).rows[ri + 1];
  }



  /** With lines on, the padding given to `beginTable` never reaches a
      cell: the presets were built, by the constructor, from the defaults in
      force before the helper existed. With lines off, the cell carries the
      padding `beginTable` installed. */
  lemma TablePaddingReachesCells(g0: Tree.Globals, numCols: int, lines: bool, padding: string, padLeft: string,
                                 padTop: string, padRight: string, padBottom: string)
    requires numCols >= 1
    ensures var h := BeginTable(NewHelper(g0), numCols, lines, padding, padLeft, padTop, padRight, padBottom).0;
      && AddRow(h, [], 0).Success?
      && var r := AddRow(h, [], 0).value;
      && DocParts.IsRow(r.doc, 0, 0) && |DocParts.RowOf(r.doc, 0, 0).cells| == 1
      && var s := DocParts.RowOf(r.doc, 0, 0).cells[0].style;
      && (lines ==> s.padding == g0.defaultPadding)
      && (!lines ==> forall d :: Assoc.Get(s.padding, d) == Assoc.Get(PadMap(padding, padLeft, padTop, padRight, padBottom), d))
  {
    var h := BeginTable(NewHelper(g0), numCols, lines, padding, padLeft, padTop, padRight, padBottom).0;
    var h1 := StartRow(h, Tree.TableBody, NextMulti(h.ctx.value.multi, 0));
    var c := h1.ctx.value;
    CellStyleRule(h1, c, 1);
  }
}
