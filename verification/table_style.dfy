/** `TableStyle`: width and horizontal alignment of a whole table, emitted as
    a `table` family entry with a `style:table-properties` child (OASIS
    OpenDocument 1.2, Part 1, section 17.15). */
module TableStyle {
  import opened Wrappers
  import opened Xml
  import Assoc
  import Numbers
  import StyleRegistry

  /** `TableAlignment`, rendered as the `table:align` value. */
  datatype TableAlignment = Left | Center | Right | Margins

  function AlignmentValue(a: TableAlignment): string {
    match a
    case Left => "left"
    case Center => "center"
    case Right => "right"
    case Margins => "margins"
  }

  function AlignmentFromValue(v: string): (r: Option<TableAlignment>)
    ensures forall a :: r == Some(a) <==> AlignmentValue(a) == v
  {
    if v == "left" then Some(Left)
    else if v == "center" then Some(Center)
    else if v == "right" then Some(Right)
    else if v == "margins" then Some(Margins)
    else None
  }

  datatype Style = Style(widthAbs: string, widthRel: int, alignment: TableAlignment)

  /** The constructor: full width, no relative width, aligned to the margins. */
  function New(): (s: Style)
    ensures s.widthAbs == "100%" && s.widthRel == 0 && s.alignment == Margins
  {
    Style("100%", 0, Margins)
  }

  function SetWidthString(s: Style, width: string): (r: Style)
    ensures r.widthAbs == width && r.widthRel == s.widthRel && r.alignment == s.alignment
  {
    s.(widthAbs := width)
  }

  /** `setRelativetWidth` (so spelled in the source). */
  function SetRelativeWidth(s: Style, width: int): (r: Style)
    ensures r.widthRel == width && r.widthAbs == s.widthAbs && r.alignment == s.alignment
  {
    s.(widthRel := width)
  }

  function SetAlignment(s: Style, align: TableAlignment): (r: Style)
    ensures r.alignment == align && r.widthAbs == s.widthAbs && r.widthRel == s.widthRel
  {
    s.(alignment := align)
  }

  /** `getName()`: absolute width, relative width in decimal, alignment value. */
  function Name(s: Style): string {
    s.widthAbs + Numbers.IntToString(s.widthRel) + AlignmentValue(s.alignment)
  }

  const Width := "style:width"
  const RelColumnWidth := "style:rel-column-width"
  const Align := "table:align"

  /** The attributes `createStyleElement` writes. The relative width goes
      under `style:rel-column-width`, as the code has it; the alignment value
      is a non-empty string, so `table:align` is always written. */
  function PropsAttrs(s: Style): (a: Attrs)
    ensures Assoc.Get(a, Width) == if s.widthAbs != "" then Some(s.widthAbs) else None
    ensures Assoc.Get(a, RelColumnWidth) == if s.widthRel != 0 then Some(Numbers.IntToString(s.widthRel)) else None
    ensures Assoc.Get(a, Align) == Some(AlignmentValue(s.alignment))
    ensures forall k :: k !in {Width, RelColumnWidth, Align} ==> Assoc.Get(a, k) == None
    ensures Assoc.UniqueKeys(a)
  {
    var a0: Attrs := [];
    var a1 := Assoc.PutIf(a0, s.widthAbs != "", Width, s.widthAbs);
    var a2 := Assoc.PutIf(a1, s.widthRel != 0, RelColumnWidth, Numbers.IntToString(s.widthRel));
    Assoc.PutIf(a2, AlignmentValue(s.alignment) != "", Align, AlignmentValue(s.alignment))
  }

  function Props(s: Style): Xml {
    Element("style:table-properties", PropsAttrs(s), [])
  }

  /** `toXml(document, parent)`: name the parent, register the entry if new. */
  function ToXml(s: Style, parent: Attrs, table: StyleRegistry.StyleTable): (r: (Attrs, StyleRegistry.StyleTable))
    ensures Assoc.Get(r.0, "table:style-name") == Some(Name(s))
    ensures forall a :: a != "table:style-name" ==> Assoc.Get(r.0, a) == Assoc.Get(parent, a)
    ensures "table:style-name" !in Assoc.Keys(parent) ==> r.0 == parent + [("table:style-name", Name(s))]
    ensures StyleRegistry.HasStyle(r.1, Name(s))
    ensures StyleRegistry.Extends(table, r.1)
    ensures StyleRegistry.UniqueNames(table) ==> StyleRegistry.UniqueNames(r.1)
    ensures r.1 == table <==> StyleRegistry.HasStyle(table, Name(s))
    ensures r.1 != table ==> r.1 == table + [StyleRegistry.StyleElement("table", Name(s), Props(s))]
  {
    StyleRegistry.Resolve(parent, table, "table", Name(s), Props(s))
  }

  /** Reading a style back from its properties; `None` when the alignment
      attribute is missing or not one of the four values. */
  function FromProps(a: Attrs): Option<Style> {
    var rel := Assoc.GetOr(a, RelColumnWidth, "0");
    var align :- AlignmentFromValue(Assoc.GetOr(a, Align, ""));
    Some(Style(Assoc.GetOr(a, Width, ""),
               if Numbers.IsIntString(rel) then Numbers.ParseInt(rel) else 0,
               align))
  }

  /** The emitted properties lose nothing: the style can be read back from them. */
  lemma PropsRoundTrip(s: Style)
    ensures FromProps(PropsAttrs(s)) == Some(s)
  {
    Numbers.ParseIntToString(s.widthRel);
  }

  /** Styles with the same properties element are the same style. */
  lemma PropsInjective(s: Style, s': Style)
    requires Props(s) == Props(s')
    ensures s == s'
  {
    PropsRoundTrip(s);
    PropsRoundTrip(s');
  }

  /** Each setter touches only its own field, so setters of different fields commute. */
  lemma SettersCommute(s: Style, w: string, rel: int, a: TableAlignment)
    ensures SetWidthString(SetRelativeWidth(s, rel), w) == SetRelativeWidth(SetWidthString(s, w), rel)
    ensures SetAlignment(SetWidthString(s, w), a) == SetWidthString(SetAlignment(s, a), w)
    ensures SetAlignment(SetRelativeWidth(s, rel), a) == SetRelativeWidth(SetAlignment(s, a), rel)
  {
  }

  /** Resolving a style, then any equally named style, leaves the table as
      the first resolution made it. */
  lemma ToXmlIdempotent(s: Style, s': Style, parent: Attrs, parent': Attrs, table: StyleRegistry.StyleTable)
    requires Name(s') == Name(s)
    ensures var t := ToXml(s, parent, table).1;
      ToXml(s', parent', t).1 == t
  {
    StyleRegistry.RegisterIdempotent(table, "table", Name(s), Props(s), "table", Props(s'));
  }
}
