/** `TableColStyle`: the width of a table column, either a length string, a
    relative width, or the optimal width (the default). Emitted as a
    `table-column` family entry with a `style:table-column-properties` child
    (OASIS OpenDocument 1.2, Part 1, section 17.16). */
module TableColStyle {
  import opened Wrappers
  import opened Xml
  import Assoc
  import Numbers
  import StyleRegistry

  /** `widthAbs` is `""` when unset and `widthRel` is `0` when unset. */
  datatype ColStyle = ColStyle(widthAbs: string, widthRel: int, optimal: bool)

  /** The constructor: no width given, optimal width on. */
  function New(): (s: ColStyle)
    ensures s.optimal && s.widthAbs == "" && s.widthRel == 0
  {
    ColStyle("", 0, true)
  }

  /** `setWidthString`: a fixed width switches the optimal width off. */
  function SetWidthString(s: ColStyle, width: string): (r: ColStyle)
    ensures r.widthAbs == width && !r.optimal && r.widthRel == s.widthRel
  {
    s.(widthAbs := width, optimal := false)
  }

  /** `setRelativeWidth`: a relative width switches the optimal width off. */
  function SetRelativeWidth(s: ColStyle, width: int): (r: ColStyle)
    ensures r.widthRel == width && !r.optimal && r.widthAbs == s.widthAbs
  {
    s.(widthRel := width, optimal := false)
  }

  /** `setUseOptimalWidth`: sets the flag and forgets both other widths. */
  function SetUseOptimalWidth(s: ColStyle, useOptimal: bool): (r: ColStyle)
    ensures r.optimal == useOptimal && r.widthAbs == "" && r.widthRel == 0
  {
    ColStyle("", 0, useOptimal)
  }

  /** `getName()`: the digest input is the absolute width, the relative width
      in decimal and `opt` when the optimal width is used, with no separators. */
  function Name(s: ColStyle): string {
    s.widthAbs + Numbers.IntToString(s.widthRel) + (if s.optimal then "opt" else "")
  }

  const ColumnWidth := "style:column-width"
  const RelColumnWidth := "style:rel-column-width"
  const UseOptimalWidth := "style:use-optimal-column-width"

  /** The attributes `createStyleElement` writes: each width only when it is
      set (a relative width of `0` is falsy), the flag only when it is on. */
  function PropsAttrs(s: ColStyle): (a: Attrs)
    ensures Assoc.Get(a, ColumnWidth) == if s.widthAbs != "" then Some(s.widthAbs) else None
    ensures Assoc.Get(a, RelColumnWidth) == if s.widthRel != 0 then Some(Numbers.IntToString(s.widthRel)) else None
    ensures Assoc.Get(a, UseOptimalWidth) == if s.optimal then Some("true") else None
    ensures forall k :: k !in {ColumnWidth, RelColumnWidth, UseOptimalWidth} ==> Assoc.Get(a, k) == None
    ensures Assoc.UniqueKeys(a)
  {
    var a0: Attrs := [];
    var a1 := Assoc.PutIf(a0, s.widthAbs != "", ColumnWidth, s.widthAbs);
    var a2 := Assoc.PutIf(a1, s.widthRel != 0, RelColumnWidth, Numbers.IntToString(s.widthRel));
    Assoc.PutIf(a2, s.optimal, UseOptimalWidth, "true")
  }

  function Props(s: ColStyle): Xml {
    Element("style:table-column-properties", PropsAttrs(s), [])
  }

  /** `toXml(document, parent)`: name the parent, register the entry if new. */
  function ToXml(s: ColStyle, parent: Attrs, table: StyleRegistry.StyleTable): (r: (Attrs, StyleRegistry.StyleTable))
    ensures Assoc.Get(r.0, "table:style-name") == Some(Name(s))
    ensures forall a :: a != "table:style-name" ==> Assoc.Get(r.0, a) == Assoc.Get(parent, a)
    ensures "table:style-name" !in Assoc.Keys(parent) ==> r.0 == parent + [("table:style-name", Name(s))]
    ensures StyleRegistry.HasStyle(r.1, Name(s))
    ensures StyleRegistry.Extends(table, r.1)
    ensures StyleRegistry.UniqueNames(table) ==> StyleRegistry.UniqueNames(r.1)
    ensures r.1 == table <==> StyleRegistry.HasStyle(table, Name(s))
    ensures r.1 != table ==> r.1 == table + [StyleRegistry.StyleElement("table-column", Name(s), Props(s))]
  {
    StyleRegistry.Resolve(parent, table, "table-column", Name(s), Props(s))
  }

  /** Reading a style back from its properties: an absent attribute means
      the unset value. */
  function FromProps(a: Attrs): ColStyle {
    var rel := Assoc.GetOr(a, RelColumnWidth, "0");
    ColStyle(Assoc.GetOr(a, ColumnWidth, ""),
             if Numbers.IsIntString(rel) then Numbers.ParseInt(rel) else 0,
             Assoc.Get(a, UseOptimalWidth) == Some("true"))
  }

  /** The emitted properties lose nothing: the style can be read back from them. */
  lemma PropsRoundTrip(s: ColStyle)
    ensures FromProps(PropsAttrs(s)) == s
  {
    Numbers.ParseIntToString(s.widthRel);
  }

  /** Styles with the same properties element are the same style. */
  lemma PropsInjective(s: ColStyle, s': ColStyle)
    requires Props(s) == Props(s')
    ensures s == s'
  {
    PropsRoundTrip(s);
    PropsRoundTrip(s');
  }

  /** `setUseOptimalWidth` forgets everything set before it, and turning the
      optimal width back on restores the constructor's style. */
  lemma OptimalForgets(s: ColStyle, s': ColStyle, b: bool)
    ensures SetUseOptimalWidth(s, b) == SetUseOptimalWidth(s', b)
    ensures SetUseOptimalWidth(s, true) == New()
  {
  }

  /** Because the name is an unseparated concatenation, a style with an
      absolute width `1` and one with a relative width `10` get the same
      name although their properties differ; whichever is resolved second
      is then given the first one's entry. */
  lemma NameCollision()
    ensures var s1 := SetWidthString(New(), "1");
      var s2 := SetRelativeWidth(New(), 10);
      Name(s1) == Name(s2) && Props(s1) != Props(s2)
  {
    var s1 := SetWidthString(New(), "1");
    var s2 := SetRelativeWidth(New(), 10);
    assert Numbers.IntToString(0) == "0";
    assert Numbers.IntToString(10) == "10";
    PropsRoundTrip(s1);
    PropsRoundTrip(s2);
  }

  /** Resolving a style, then any equally named style, leaves the table as
      the first resolution made it. */
  lemma ToXmlIdempotent(s: ColStyle, s': ColStyle, parent: Attrs, parent': Attrs, table: StyleRegistry.StyleTable)
    requires Name(s') == Name(s)
    ensures var t := ToXml(s, parent, table).1;
      ToXml(s', parent', t).1 == t
  {
    StyleRegistry.RegisterIdempotent(table, "table-column", Name(s), Props(s), "table-column", Props(s'));
  }
}
