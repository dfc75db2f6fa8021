/** The ordered child list every element keeps: append at the end, read by
    position, remove by position. An out-of-range position yields `None`
    (the source's `undefined`) and changes nothing. */
module Children {
  import opened Wrappers

  function Append<T>(s: seq<T>, x: T): (r: seq<T>)
    ensures |r| == |s| + 1 && r[..|s|] == s && r[|s|] == x
  {
    s + [x]
  }

  function Get<T>(s: seq<T>, i: int): (r: Option<T>)
    ensures r.Some? <==> 0 <= i < |s|
    ensures r.Some? ==> r.value == s[i]
  {
    if 0 <= i < |s| then Some(s[i]) else None
  }

  /** The remaining children and the removed one. */
  function RemoveAt<T>(s: seq<T>, i: int): (r: (seq<T>, Option<T>))
    ensures r.1.Some? <==> 0 <= i < |s|
    ensures r.1.None? ==> r.0 == s
    ensures r.1.Some? ==> r.1.value == s[i] && |r.0| == |s| - 1
    ensures r.1.Some? ==> forall j :: 0 <= j < |r.0| ==> r.0[j] == if j < i then s[j] else s[j + 1]
  {
    if 0 <= i < |s| then (s[..i] + s[i + 1..], Some(s[i])) else (s, None)
  }

  /** Removing the child just appended undoes the append. */
  lemma RemoveAfterAppend<T>(s: seq<T>, x: T)
    ensures RemoveAt(Append(s, x), |s|) == (s, Some(x))
  {
    var a := Append(s, x);
    assert a[..|s|] + a[|s| + 1..] == s;
  }

  /** Putting the removed child back where it was restores the list. */
  lemma RemoveThenReinsert<T>(s: seq<T>, i: int)
    requires 0 <= i < |s|
    ensures var (rest, x) := RemoveAt(s, i);
      x.Some? && rest[..i] + [x.value] + rest[i..] == s
  {
    var (rest, x) := RemoveAt(s, i);
    assert rest[..i] == s[..i];
    assert rest[i..] == s[i + 1..];
  }
}
