/** `TableCellStyle`: vertical alignment plus per-direction border and padding
    maps, named by the content it holds and emitted as a `table-cell` family
    entry with a `style:table-cell-properties` child (OASIS OpenDocument 1.2,
    Part 1, section 17.18). */
module TableCellStyle {
  import opened Wrappers
  import opened Xml
  import Assoc
  import StyleRegistry

  /** `DirectionType`: the keys of the border and padding maps. */
  datatype Direction = All | Left | Right | Top | Bottom

  function DirectionKey(d: Direction): string {
    match d
    case All => "all"
    case Left => "left"
    case Right => "right"
    case Top => "top"
    case Bottom => "bottom"
  }

  /** `VerticalAlignment`, rendered as the `style:vertical-align` value. */
  datatype VerticalAlignment = AlignTop | AlignMiddle | AlignBottom | AlignAutomatic

  function AlignValue(a: VerticalAlignment): string {
    match a
    case AlignTop => "top"
    case AlignMiddle => "middle"
    case AlignBottom => "bottom"
    case AlignAutomatic => "automatic"
  }

  /** A border or padding map in insertion order. */
  type DirMap = seq<(Direction, string)>

  datatype CellStyle = CellStyle(vAlign: VerticalAlignment, border: DirMap, padding: DirMap)

  /** Both maps have distinct keys, as the JavaScript objects they model do. */
  ghost predicate Valid(s: CellStyle) {
    Assoc.UniqueKeys(s.border) && Assoc.UniqueKeys(s.padding)
  }

  /** The constructor: alignment top, and copies of the current default maps
      (the static `defaultBorder`/`defaultPadding`, passed in explicitly; an
      unset default is the empty map). */
  function New(defaultBorder: DirMap, defaultPadding: DirMap): (s: CellStyle)
    ensures s.vAlign == AlignTop
    ensures forall d :: Assoc.Get(s.border, d) == Assoc.Get(defaultBorder, d)
    ensures forall d :: Assoc.Get(s.padding, d) == Assoc.Get(defaultPadding, d)
    ensures Assoc.Keys(s.border) == Assoc.Keys(defaultBorder)
    ensures Assoc.Keys(s.padding) == Assoc.Keys(defaultPadding)
  {
    CellStyle(AlignTop, defaultBorder, defaultPadding)
  }

  function SetVerticalAlignment(s: CellStyle, a: VerticalAlignment): (r: CellStyle)
    ensures r.vAlign == a && r.border == s.border && r.padding == s.padding
  {
    s.(vAlign := a)
  }

  /** `addBorder(where, border)`: sets one direction, keeps the position of an
      existing key, and leaves every other entry and the padding alone. */
  function AddBorder(s: CellStyle, where: Direction, border: string): (r: CellStyle)
    ensures Assoc.Get(r.border, where) == Some(border)
    ensures forall d :: d != where ==> Assoc.Get(r.border, d) == Assoc.Get(s.border, d)
    ensures where in Assoc.Keys(s.border) ==> Assoc.Keys(r.border) == Assoc.Keys(s.border)
    ensures where !in Assoc.Keys(s.border) ==> Assoc.Keys(r.border) == Assoc.Keys(s.border) + [where]
    ensures r.padding == s.padding && r.vAlign == s.vAlign
    ensures Valid(s) ==> Valid(r)
  {
    s.(border := Assoc.Put(s.border, where, border))
  }

  /** The border set for one direction, if any. */
  function BorderAt(s: CellStyle, d: Direction): Option<string> {
    Assoc.Get(s.border, d)
  }

  /** `resetBorder()`: empties the border map only. */
  function ResetBorder(s: CellStyle): (r: CellStyle)
    ensures forall d :: Assoc.Get(r.border, d) == None
    ensures r.padding == s.padding && r.vAlign == s.vAlign
    ensures Valid(s) ==> Valid(r)
  {
    s.(border := [])
  }

  /** `addPadding(where, padding)`: the padding counterpart of `AddBorder`. */
  function AddPadding(s: CellStyle, where: Direction, padding: string): (r: CellStyle)
    ensures Assoc.Get(r.padding, where) == Some(padding)
    ensures forall d :: d != where ==> Assoc.Get(r.padding, d) == Assoc.Get(s.padding, d)
    ensures where in Assoc.Keys(s.padding) ==> Assoc.Keys(r.padding) == Assoc.Keys(s.padding)
    ensures where !in Assoc.Keys(s.padding) ==> Assoc.Keys(r.padding) == Assoc.Keys(s.padding) + [where]
    ensures r.border == s.border && r.vAlign == s.vAlign
    ensures Valid(s) ==> Valid(r)
  {
    s.(padding := Assoc.Put(s.padding, where, padding))
  }

  /** `resetPadding()`: empties the padding map only. */
  function ResetPadding(s: CellStyle): (r: CellStyle)
    ensures forall d :: Assoc.Get(r.padding, d) == None
    ensures r.border == s.border && r.vAlign == s.vAlign
    ensures Valid(s) ==> Valid(r)
  {
    s.(padding := [])
  }

  function Concat(ss: seq<string>): string {
    if ss == [] then "" else ss[0] + Concat(ss[1..])
  }

  /** `getName()`: the digest is fed the alignment, then the border values and
      then the padding values, in insertion order; the direction keys are not
      fed to it. The digest itself is modelled by its input string. */
  function Name(s: CellStyle): string {
    AlignValue(s.vAlign) + Concat(Assoc.Values(s.border)) + Concat(Assoc.Values(s.padding))
  }

  /** The attribute `createStyleElement` writes for one map entry: key `all`
      gives the bare prefix, any other key `k` gives `prefix-k`. */
  function AttrName(prefix: string, d: Direction): string {
    if d == All then prefix else prefix + "-" + DirectionKey(d)
  }

  /** The `setAttribute` calls for one map, in the map's order. */
  function PutAll(attrs: Attrs, prefix: string, m: DirMap): (r: Attrs)
    decreases |m|
  {
    if m == [] then attrs
    else PutAll(Assoc.Put(attrs, AttrName(prefix, m[0].0), m[0].1), prefix, m[1..])
  }

  /** The attributes of the `style:table-cell-properties` child. */
  function PropsAttrs(s: CellStyle): Attrs {
    var a := Assoc.Put([], "style:vertical-align", AlignValue(s.vAlign));
    PutAll(PutAll(a, "fo:border", s.border), "fo:padding", s.padding)
  }

  function Props(s: CellStyle): Xml {
    Element("style:table-cell-properties", PropsAttrs(s), [])
  }

  /** `toXml(document, parent)`: name the parent, register the entry if new. */
  function ToXml(s: CellStyle, parent: Attrs, table: StyleRegistry.StyleTable): (r: (Attrs, StyleRegistry.StyleTable))
    ensures Assoc.Get(r.0, "table:style-name") == Some(Name(s))
    ensures forall a :: a != "table:style-name" ==> Assoc.Get(r.0, a) == Assoc.Get(parent, a)
    ensures "table:style-name" !in Assoc.Keys(parent) ==> r.0 == parent + [("table:style-name", Name(s))]
    ensures StyleRegistry.HasStyle(r.1, Name(s))
    ensures StyleRegistry.Extends(table, r.1)
    ensures StyleRegistry.UniqueNames(table) ==> StyleRegistry.UniqueNames(r.1)
    ensures r.1 == table <==> StyleRegistry.HasStyle(table, Name(s))
    ensures r.1 != table ==> r.1 == table + [StyleRegistry.StyleElement("table-cell", Name(s), Props(s))]
  {
    StyleRegistry.Resolve(parent, table, "table-cell", Name(s), Props(s))
  }

  // ---------------------------------------------------------------------
  // The emitted properties, listed directly

  /** One attribute per map entry, in the map's order. */
  function Renamed(prefix: string, m: DirMap): (r: Attrs)
    ensures |r| == |m|
  {
    if m == [] then [] else [(AttrName(prefix, m[0].0), m[0].1)] + Renamed(prefix, m[1..])
  }

  lemma {:induction false} RenamedAt(prefix: string, m: DirMap, i: nat)
    requires i < |m|
    ensures Renamed(prefix, m)[i] == (AttrName(prefix, m[i].0), m[i].1)
    decreases i
  {
    if i > 0 {
      RenamedAt(prefix, m[1..], i - 1);
    }
  }

  lemma AttrNameInjective(prefix: string, d: Direction, d': Direction)
    requires AttrName(prefix, d) == AttrName(prefix, d')
    ensures d == d'
  {
  }

  /** Distinct directions even give attribute names of distinct lengths:
      the four direction keys have four different lengths. */
  lemma AttrNameLengths(prefix: string, d: Direction, d': Direction)
    requires d != d'
    ensures |AttrName(prefix, d)| != |AttrName(prefix, d')|
  {
  }

  /** The border, padding and alignment attribute names never clash. */
  lemma AttrNamesDisjoint(d: Direction, d': Direction)
    ensures AttrName("fo:border", d) != AttrName("fo:padding", d')
    ensures AttrName("fo:border", d) != "style:vertical-align"
    ensures AttrName("fo:padding", d) != "style:vertical-align"
  {
    assert AttrName("fo:border", d)[3] == 'b';
    assert AttrName("fo:padding", d')[3] == 'p';
    assert "style:vertical-align"[0] == 's';
  }

  /** None of the names the entries of `m` map to is an attribute of `attrs` yet. */
  ghost predicate Fresh(attrs: Attrs, prefix: string, m: DirMap) {
    forall i, j :: 0 <= i < |m| && 0 <= j < |attrs| ==> attrs[j].0 != AttrName(prefix, m[i].0)
  }

  lemma FreshNotIn(attrs: Attrs, prefix: string, m: DirMap)
    requires |m| > 0 && Fresh(attrs, prefix, m)
    ensures AttrName(prefix, m[0].0) !in Assoc.Keys(attrs)
  {
  }

  /** After writing the first entry, the remaining entries' names are still fresh. */
  lemma RestStaysFresh(attrs: Attrs, prefix: string, m: DirMap)
    requires |m| > 0 && Assoc.UniqueKeys(m) && Fresh(attrs, prefix, m)
    ensures Fresh(attrs + [(AttrName(prefix, m[0].0), m[0].1)], prefix, m[1..])
  {
    var a := attrs + [(AttrName(prefix, m[0].0), m[0].1)];
    forall i, j | 0 <= i < |m| - 1 && 0 <= j < |a|
      ensures a[j].0 != AttrName(prefix, m[1..][i].0)
    {
      assert m[1..][i] == m[i + 1];
      if j == |attrs| && AttrName(prefix, m[i + 1].0) == a[j].0 {
        AttrNameInjective(prefix, m[i + 1].0, m[0].0);
      }
    }
  }

  lemma PutAllStep(attrs: Attrs, prefix: string, m: DirMap)
    requires |m| > 0 && Fresh(attrs, prefix, m)
    ensures PutAll(attrs, prefix, m) == PutAll(attrs + [(AttrName(prefix, m[0].0), m[0].1)], prefix, m[1..])
  {
    FreshNotIn(attrs, prefix, m);
  }

  lemma RenamedStep(attrs: Attrs, prefix: string, m: DirMap)
    requires |m| > 0
    ensures attrs + Renamed(prefix, m) == (attrs + [(AttrName(prefix, m[0].0), m[0].1)]) + Renamed(prefix, m[1..])
  {
  }

  /** With fresh, distinct names, the `setAttribute` fold just appends. */
  lemma {:induction false} PutAllAppends(attrs: Attrs, prefix: string, m: DirMap)
    requires Assoc.UniqueKeys(m) && Fresh(attrs, prefix, m)
    ensures PutAll(attrs, prefix, m) == attrs + Renamed(prefix, m)
    decreases |m|
  {
    if m != [] {
      var a := attrs + [(AttrName(prefix, m[0].0), m[0].1)];
      PutAllStep(attrs, prefix, m);
      RestStaysFresh(attrs, prefix, m);
      PutAllAppends(a, prefix, m[1..]);
      RenamedStep(attrs, prefix, m);
    }
  }

  lemma BorderFresh(s: CellStyle)
    ensures Fresh([("style:vertical-align", AlignValue(s.vAlign))], "fo:border", s.border)
  {
    forall i | 0 <= i < |s.border|
      ensures AttrName("fo:border", s.border[i].0) != "style:vertical-align"
    {
      AttrNamesDisjoint(s.border[i].0, s.border[i].0);
    }
  }

  lemma PaddingFresh(s: CellStyle)
    ensures Fresh([("style:vertical-align", AlignValue(s.vAlign))] + Renamed("fo:border", s.border), "fo:padding", s.padding)
  {
    var b := [("style:vertical-align", AlignValue(s.vAlign))] + Renamed("fo:border", s.border);
    forall i, j | 0 <= i < |s.padding| && 0 <= j < |b|
      ensures b[j].0 != AttrName("fo:padding", s.padding[i].0)
    {
      if j == 0 {
        AttrNamesDisjoint(s.padding[i].0, s.padding[i].0);
      } else {
        RenamedAt("fo:border", s.border, j - 1);
        AttrNamesDisjoint(s.border[j - 1].0, s.padding[i].0);
      }
    }
  }

  /** The properties element carries the vertical alignment, then one
      attribute per border entry, then one per padding entry, in the maps'
      insertion order: key `all` as `fo:border`/`fo:padding`, any other key
      `k` as `fo:border-k`/`fo:padding-k`. */
  lemma PropsListing(s: CellStyle)
    requires Valid(s)
    ensures PropsAttrs(s) ==
      [("style:vertical-align", AlignValue(s.vAlign))] + Renamed("fo:border", s.border) + Renamed("fo:padding", s.padding)
  {
    var a := [("style:vertical-align", AlignValue(s.vAlign))];
    assert Assoc.Put([], "style:vertical-align", AlignValue(s.vAlign)) == a;
    BorderFresh(s);
    PutAllAppends(a, "fo:border", s.border);
    PaddingFresh(s);
    PutAllAppends(a + Renamed("fo:border", s.border), "fo:padding", s.padding);
  }

  /** The attribute written for the `i`-th border entry. */
  lemma PropsBorderAt(s: CellStyle, i: nat, j: nat)
    requires Valid(s) && i < |s.border| && j == 1 + i
    ensures j < |PropsAttrs(s)|
    ensures PropsAttrs(s)[j] == (AttrName("fo:border", s.border[i].0), s.border[i].1)
  {
    PropsListing(s);
    RenamedAt("fo:border", s.border, i);
  }

  lemma SecondNameDiffers(a1: Attrs, a2: Attrs)
    requires |a1| > 1 && |a2| > 1 && a1[1].0 != a2[1].0
    ensures a1 != a2
  {
  }

  /** Styles whose first border entries are under different directions emit
      different properties. */
  lemma FirstBorderDirectionShows(s1: CellStyle, s2: CellStyle)
    requires Valid(s1) && Valid(s2) && |s1.border| > 0 && |s2.border| > 0
    requires s1.border[0].0 != s2.border[0].0
    ensures Props(s1) != Props(s2)
  {
    var a1, a2 := PropsAttrs(s1), PropsAttrs(s2);
    PropsBorderAt(s1, 0, 1);
    PropsBorderAt(s2, 0, 1);
    AttrNameLengths("fo:border", s1.border[0].0, s2.border[0].0);
    SecondNameDiffers(a1, a2);
  }

  // ---------------------------------------------------------------------
  // Naming and de-duplication

  /** Only the values enter the name: two styles that agree on alignment and
      on the sequences of border and padding values get the same name,
      whatever directions those values are stored under. */
  lemma NameIgnoresDirections(s: CellStyle, s': CellStyle)
    requires s.vAlign == s'.vAlign
    requires Assoc.Values(s.border) == Assoc.Values(s'.border)
    requires Assoc.Values(s.padding) == Assoc.Values(s'.padding)
    ensures Name(s) == Name(s')
  {
  }

  /** Consequently two cell styles with different properties can share a
      name: a top border and a left border with the same value collide, and
      by `ToXmlIdempotent` whichever is resolved second is given the first
      one's entry. */
  lemma DirectionCollision(v: string)
    ensures var s1 := AddBorder(New([], []), Top, v);
      var s2 := AddBorder(New([], []), Left, v);
      Name(s1) == Name(s2) && Props(s1) != Props(s2)
  {
    var s1 := AddBorder(New([], []), Top, v);
    var s2 := AddBorder(New([], []), Left, v);
    assert s1 == CellStyle(AlignTop, [(Top, v)], []);
    assert s2 == CellStyle(AlignTop, [(Left, v)], []);
    NameIgnoresDirections(s1, s2);
    FirstBorderDirectionShows(s1, s2);
  }

  /** Resolving a style, then the same or any equally named style, leaves the
      table as the first resolution made it. */
  lemma ToXmlIdempotent(s: CellStyle, s': CellStyle, parent: Attrs, parent': Attrs, table: StyleRegistry.StyleTable)
    requires Name(s') == Name(s)
    ensures var t := ToXml(s, parent, table).1;
      ToXml(s', parent', t).1 == t
  {
    StyleRegistry.RegisterIdempotent(table, "table-cell", Name(s), Props(s), "table-cell", Props(s'));
  }
}
