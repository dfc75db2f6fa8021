/** `TabStop`: a position in whole centimetres from the left margin, never
    negative, and a type (OASIS OpenDocument 1.2, Part 1, section 17.8). */
module TabStop {
  import opened Wrappers
  import opened Xml
  import Assoc
  import Numbers

  /** `TabStopType`, rendered as the `style:type` value. */
  datatype TabStopType = Left | Center | Right | Char

  function TypeValue(t: TabStopType): string {
    match t
    case Left => "left"
    case Center => "center"
    case Right => "right"
    case Char => "char"
  }

  function TypeFromValue(v: string): (r: Option<TabStopType>)
    ensures forall t :: r == Some(t) <==> TypeValue(t) == v
  {
    if v == "left" then Some(Left)
    else if v == "center" then Some(Center)
    else if v == "right" then Some(Right)
    else if v == "char" then Some(Char)
    else None
  }

  datatype TabStop = TabStop(position: nat, stopType: TabStopType)

  /** The constructor; the type defaults to `Left`. */
  function New(position: int, stopType: TabStopType := Left): (t: TabStop)
    ensures t.position == if position < 0 then 0 else position
    ensures t.stopType == stopType
  {
    SetPosition(TabStop(0, stopType), position)
  }

  /** A tab stop created without a type is a left tab stop. */
  lemma NewDefaultsToLeft(position: int)
    ensures New(position).stopType == Left
    ensures New(position) == New(position, Left)
  {
  }

  /** `setPosition`: a negative position is stored as `0`. */
  function SetPosition(t: TabStop, position: int): (r: TabStop)
    ensures r.position >= 0 && r.position >= position
    ensures position >= 0 ==> r.position == position
    ensures position < 0 ==> r.position == 0
    ensures r.stopType == t.stopType
  {
    t.(position := if position < 0 then 0 else position)
  }

  function GetPosition(t: TabStop): nat {
    t.position
  }

  function SetType(t: TabStop, stopType: TabStopType): (r: TabStop)
    ensures r.stopType == stopType && r.position == t.position
  {
    t.(stopType := stopType)
  }

  function GetType(t: TabStop): TabStopType {
    t.stopType
  }

  /** A set followed by a get gives back what was set, for any valid position. */
  lemma SetGetRoundTrip(t: TabStop, position: int, stopType: TabStopType)
    ensures position >= 0 ==> GetPosition(SetPosition(t, position)) == position
    ensures GetPosition(SetPosition(t, position)) == if position < 0 then 0 else position
    ensures GetType(SetType(t, stopType)) == stopType
  {
  }

  /** The `style:tab-stop` element: the position with unit `cm`, and the type
      only when it is not `Left`. */
  function Element(t: TabStop): (e: Xml)
    ensures e.Element? && e.name == "style:tab-stop" && e.children == []
    ensures Assoc.Get(e.attrs, "style:type") == if t.stopType == Left then None else Some(TypeValue(t.stopType))
    ensures var p := Assoc.Get(e.attrs, "style:position");
      p.Some? && |p.value| >= 3 && p.value[|p.value| - 2..] == "cm"
  {
    var a := Assoc.Put([], "style:position", Numbers.NatToString(t.position) + "cm");
    Xml.Element("style:tab-stop", Assoc.PutIf(a, t.stopType != Left, "style:type", TypeValue(t.stopType)), [])
  }

  /** `toXml(document, parent)`: appends exactly one tab-stop element to the
      parent's children. */
  function ToXml(t: TabStop, parent: seq<Xml>): (r: seq<Xml>)
    ensures |r| == |parent| + 1 && r[..|parent|] == parent && r[|parent|] == Element(t)
  {
    parent + [Element(t)]
  }

  /** Reading a tab stop back from its element. */
  function FromElement(e: Xml): Option<TabStop> {
    if !e.Element? then None
    else
      var p :- Assoc.Get(e.attrs, "style:position");
      if |p| < 2 || p[|p| - 2..] != "cm" then None
      else
        var digits := p[..|p| - 2];
        if !(forall i :: 0 <= i < |digits| ==> Numbers.IsDigit(digits[i])) then None
        else
          var stopType :- match Assoc.Get(e.attrs, "style:type")
            case None => Some(Left)
            case Some(v) => TypeFromValue(v);
          Some(TabStop(Numbers.ParseNat(digits), stopType))
  }

  /** The element loses nothing: the tab stop can be read back from it. */
  lemma ElementRoundTrip(t: TabStop)
    ensures FromElement(Element(t)) == Some(t)
  {
    var e := Element(t);
    var n := Numbers.NatToString(t.position);
    var p := n + "cm";
    assert Assoc.Get(e.attrs, "style:position") == Some(p);
    assert p[|p| - 2..] == "cm" && p[..|p| - 2] == n;
    Numbers.ParseNatToString(t.position);
    assert (match Assoc.Get(e.attrs, "style:type")
            case None => Some(Left)
            case Some(v) => TypeFromValue(v)) == Some(t.stopType);
  }
}
