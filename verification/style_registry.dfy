/** The document-wide automatic-styles table and the resolution step shared by
    `TableCellStyle`, `TableColStyle` and `TableStyle`: set the computed name on
    the parent element, and add a `style:style` entry under that name unless an
    entry with that name is already present. */
module StyleRegistry {
  import opened Wrappers
  import opened Xml
  import Assoc

  /** The children of the document's `office:automatic-styles` element, in order. */
  type StyleTable = seq<Xml>

  /** The `style:name` attribute of an entry, if it is an element that has one. */
  function NameOf(x: Xml): Option<string> {
    if x.Element? then Assoc.Get(x.attrs, "style:name") else None
  }

  predicate HasStyle(table: StyleTable, name: string) {
    exists i :: 0 <= i < |table| && NameOf(table[i]) == Some(name)
  }

  /** The scan `existsStyle` performs over the automatic-styles children. */
  method ExistsStyle(table: StyleTable, name: string) returns (found: bool)
    ensures found <==> HasStyle(table, name)
  {
    var i := 0;
    while i < |table|
      invariant 0 <= i <= |table|
      invariant forall j :: 0 <= j < i ==> NameOf(table[j]) != Some(name)
    {
      if NameOf(table[i]) == Some(name) {
        return true;
      }
      i := i + 1;
    }
    return false;
  }

  /** The first entry registered under `name`. */
  function Lookup(table: StyleTable, name: string): (r: Option<Xml>)
    ensures r.Some? <==> HasStyle(table, name)
    ensures r.Some? ==> r.value in table && NameOf(r.value) == Some(name)
  {
    if table == [] then None
    else if NameOf(table[0]) == Some(name) then Some(table[0])
    else
      assert forall i :: 1 <= i < |table| ==> table[i] == table[1..][i - 1];
      Lookup(table[1..], name)
  }

  /** No two entries share a name. */
  ghost predicate UniqueNames(table: StyleTable) {
    forall i, j :: 0 <= i < j < |table| && NameOf(table[i]).Some? ==> NameOf(table[i]) != NameOf(table[j])
  }

  /** The entry `createStyleElement` builds: family, then name, then one
      properties child. */
  function StyleElement(family: string, name: string, props: Xml): (e: Xml)
    ensures e.Element? && e.name == "style:style" && e.children == [props]
    ensures NameOf(e) == Some(name)
    ensures Assoc.Get(e.attrs, "style:family") == Some(family)
  {
    Element("style:style", Assoc.Put(Assoc.Put([], "style:family", family), "style:name", name), [props])
  }

  /** The registering half of `toXml`: the table grows by the new entry only
      when no entry of that name exists; existing entries are never touched. */
  function Register(table: StyleTable, family: string, name: string, props: Xml): (r: StyleTable)
    ensures HasStyle(r, name)
    ensures Extends(table, r) && |r| <= |table| + 1
    ensures r == table <==> HasStyle(table, name)
    ensures |r| == |table| + 1 ==> r[|table|] == StyleElement(family, name, props)
    ensures UniqueNames(table) ==> UniqueNames(r)
  {
    if HasStyle(table, name) then
      assert table[..|table|] == table;
      table
    else
      var e := StyleElement(family, name, props);
      AppendNew(table, e, name);
      table + [e]
  }

  /** Appending an entry under a new name: the name becomes present, the old
      entries stay where they were, and names stay unique. */
  lemma AppendNew(table: StyleTable, e: Xml, name: string)
    requires NameOf(e) == Some(name) && !HasStyle(table, name)
    ensures HasStyle(table + [e], name)
    ensures Extends(table, table + [e])
    ensures UniqueNames(table) ==> UniqueNames(table + [e])
  {
    var r := table + [e];
    assert NameOf(r[|table|]) == Some(name);
    assert r[..|table|] == table;
    if UniqueNames(table) {
      AppendKeepsUnique(table, e);
    }
  }

  /** `table'` holds the entries of `table`, in place, and possibly more after them. */
  predicate Extends(table: StyleTable, table': StyleTable) {
    |table| <= |table'| && table'[..|table|] == table
  }

  lemma ExtendsTransitive(t1: StyleTable, t2: StyleTable, t3: StyleTable)
    requires Extends(t1, t2) && Extends(t2, t3)
    ensures Extends(t1, t3)
  {
    assert t3[..|t1|] == t3[..|t2|][..|t1|];
  }

  /** A style once registered stays registered. */
  lemma ExtendsKeepsStyles(t: StyleTable, t': StyleTable, name: string)
    requires Extends(t, t') && HasStyle(t, name)
    ensures HasStyle(t', name)
  {
    var i :| 0 <= i < |t| && NameOf(t[i]) == Some(name);
    assert t'[i] == t'[..|t|][i];
  }

  /** `toXml` of a style: the parent always gets the name as its
      `table:style-name`; the table is extended as `Register` says. */
  function Resolve(parent: Attrs, table: StyleTable, family: string, name: string, props: Xml): (r: (Attrs, StyleTable))
    ensures Assoc.Get(r.0, "table:style-name") == Some(name)
    ensures "table:style-name" !in Assoc.Keys(parent) ==> r.0 == parent + [("table:style-name", name)]
    ensures forall a :: a != "table:style-name" ==> Assoc.Get(r.0, a) == Assoc.Get(parent, a)
    ensures r.1 == Register(table, family, name, props)
  {
    (Assoc.Put(parent, "table:style-name", name), Register(table, family, name, props))
  }

  /** Registering under a name already present is a no-op, whatever the entry:
      the first write wins and a second resolution changes nothing. */
  lemma RegisterIdempotent(table: StyleTable, family: string, name: string, props: Xml,
                           family': string, props': Xml)
    ensures var t := Register(table, family, name, props);
      Register(t, family', name, props') == t
  {
  }

  /** What is registered under a name is the first entry ever offered for it. */
  lemma FirstWriteWins(table: StyleTable, family: string, name: string, props: Xml)
    ensures Lookup(Register(table, family, name, props), name) ==
      if HasStyle(table, name) then Lookup(table, name) else Some(StyleElement(family, name, props))
  {
    var r := Register(table, family, name, props);
    if !HasStyle(table, name) {
      LookupAppend(table, StyleElement(family, name, props), name);
    }
  }

  /** Lookups of every name already present are unaffected by registering. */
  lemma RegisterKeepsLookups(table: StyleTable, family: string, name: string, props: Xml, other: string)
    requires HasStyle(table, other)
    ensures Lookup(Register(table, family, name, props), other) == Lookup(table, other)
  {
    if !HasStyle(table, name) {
      LookupAppend(table, StyleElement(family, name, props), other);
    }
  }

  lemma {:induction false} LookupAppend(table: StyleTable, e: Xml, name: string)
    ensures Lookup(table + [e], name) ==
      if HasStyle(table, name) then Lookup(table, name)
      else if NameOf(e) == Some(name) then Some(e) else None
  {
    if table != [] {
      assert (table + [e])[1..] == table[1..] + [e];
      LookupAppend(table[1..], e, name);
      assert HasStyle(table, name) <==> NameOf(table[0]) == Some(name) || HasStyle(table[1..], name) by {
        if HasStyle(table[1..], name) {
          var i :| 0 <= i < |table[1..]| && NameOf(table[1..][i]) == Some(name);
          assert NameOf(table[i + 1]) == Some(name);
        }
        if HasStyle(table, name) && NameOf(table[0]) != Some(name) {
          var i :| 0 <= i < |table| && NameOf(table[i]) == Some(name);
          assert NameOf(table[1..][i - 1]) == Some(name);
        }
      }
    } else {
      assert [] + [e] == [e];
    }
  }

  /** Appending an entry under a name not yet present keeps names unique. */
  lemma AppendKeepsUnique(table: StyleTable, e: Xml)
    requires UniqueNames(table) && NameOf(e).Some? && !HasStyle(table, NameOf(e).value)
    ensures UniqueNames(table + [e])
  {
    var r := table + [e];
    forall i, j | 0 <= i < j < |r| && NameOf(r[i]).Some?
      ensures NameOf(r[i]) != NameOf(r[j])
    {
      if j == |table| {
        assert r[i] == table[i];
      }
    }
  }
}
