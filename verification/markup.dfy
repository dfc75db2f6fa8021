/** The markup converter of the table helper (`addHTML`): a left-to-right
    fold over the tokenizer's open-tag, text and close-tag events, keeping a
    tag stack, the text not yet written, and the list most recently opened.
    The tokenizer itself is not modelled: its events are the input. */
module Markup {
  import opened Wrappers
  import Tree

  datatype Event = Open(name: string) | TextEvent(text: string) | Close(name: string)

  /** `out`: the children of the part written to; `tags`: the open tags, the
      top of the stack last; `pending`: the buffered text, `""` standing for
      `undefined` (the source never stores an empty string there); `list`:
      the position in `out` of the current list. */
  datatype State = State(out: seq<Tree.Node>, tags: seq<string>, pending: string, list: Option<nat>)

  /** The current list, if any, is a list this conversion appended after the
      first `n` children, which it never touches. */
  predicate Valid(s: State, n: nat) {
    && n <= |s.out|
    && (s.list.Some? ==> n <= s.list.value < |s.out| && s.out[s.list.value].ListNode?)
  }

  /** The first `n` children are those of `s`. */
  predicate KeepsFirst(s: State, s': State, n: nat)
    requires n <= |s.out|
  {
    n <= |s'.out| && s'.out[..n] == s.out[..n]
  }

  /** The `headers` table: `h1`…`h5` map to `base`…`base + 4`; any other
      name yields `undefined`. */
  function HeadingLevel(tag: string, base: int): (r: Option<int>)
    ensures r.Some? <==> tag in ["h1", "h2", "h3", "h4", "h5"]
  {
    if tag == "h1" then Some(base)
    else if tag == "h2" then Some(base + 1)
    else if tag == "h3" then Some(base + 2)
    else if tag == "h4" then Some(base + 3)
    else if tag == "h5" then Some(base + 4)
    else None
  }

  /** `putText`: an empty string changes nothing, anything else is appended. */
  function PutText(pending: string, str: string): (r: string)
    ensures str == "" ==> r == pending
    ensures |r| == |pending| + |str| && r[..|pending|] == pending && r[|pending|..] == str
  {
    if str != "" then (if pending != "" then pending + str else str) else pending
  }

  /** `outputText`, keyed on the top of the stack: a tag starting with `h`
      writes a heading, `p` a paragraph (even an empty one), `li` an item of
      the current list (an error when no list was opened), anything else
      drops the text, as does an empty stack. The buffer is emptied, except
      on the early return for an empty tag name. */
  function Flush(s: State, n: nat, base: int, style: Tree.ParaStyle): (r: Result<State>)
    requires Valid(s, n)
    ensures r.Success? ==> Valid(r.value, n) && KeepsFirst(s, r.value, n)
    ensures r.Success? ==> r.value.tags == s.tags && r.value.list == s.list
    ensures r.Failure? <==> |s.tags| > 0 && s.tags[|s.tags| - 1] == "li" && s.list.None?
    ensures r.Success? && |s.tags| > 0 && s.tags[|s.tags| - 1] == "" ==> r.value == s
    ensures r.Success? && (|s.tags| == 0 || s.tags[|s.tags| - 1] != "") ==> r.value.pending == ""
    ensures |s.tags| == 0 ==> r == Success(s.(pending := ""))
    ensures |s.tags| > 0 ==> var top := s.tags[|s.tags| - 1];
      && (top != "" && top[0] == 'h' ==> r.value.out == s.out + [Tree.Heading(s.pending, HeadingLevel(top, base))])
      && (top == "p" ==> r.value.out == s.out + [Tree.Paragraph(s.pending, style)])
      && (top == "li" && s.list.Some? ==>
            r.value.out == s.out[s.list.value := Tree.ListNode(s.out[s.list.value].items + [s.pending])])
      && (top != "" && top[0] != 'h' && top != "p" && top != "li" ==> r == Success(s.(pending := "")))
  {
    if |s.tags| == 0 then Success(s.(pending := ""))
    else
      var top := s.tags[|s.tags| - 1];
      if top == "" then Success(s)
      else if top[0] == 'h' then
        Success(s.(out := s.out + [Tree.Heading(s.pending, HeadingLevel(top, base))], pending := ""))
      else if top == "p" then
        Success(s.(out := s.out + [Tree.Paragraph(s.pending, style)], pending := ""))
      else if top == "li" then
        match s.list
        case None => Failure(Error.NoCurrentList)
        case Some(i) =>
          var out := s.out[i := Tree.ListNode(s.out[i].items + [s.pending])];
          assert out[..n] == s.out[..n];
          Success(s.(out := out, pending := ""))
      else Success(s.(pending := ""))
  }

  /** `tags.pop()`; popping an empty stack leaves it empty. */
  function Pop(tags: seq<string>): (r: seq<string>)
    ensures tags != [] ==> r == tags[..|tags| - 1]
    ensures tags == [] ==> r == []
  {
    if tags == [] then [] else tags[..|tags| - 1]
  }

  /** The first half of an open tag: `ul` and `ol` append a new, empty list
      and make it the current one; other tags change nothing. */
  function Opened(s: State, name: string, n: nat): (r: State)
    requires Valid(s, n)
    ensures Valid(r, n) && KeepsFirst(s, r, n) && r.tags == s.tags && r.pending == s.pending
    ensures name == "ul" || name == "ol" ==> r.out == s.out + [Tree.ListNode([])] && r.list == Some(|s.out|)
    ensures name != "ul" && name != "ol" ==> r == s
  {
    if name == "ul" || name == "ol" then
      var r := s.(out := s.out + [Tree.ListNode([])], list := Some(|s.out|));
      assert r.out[..n] == s.out[..n];
      r
    else s
  }

  /** One event. An open tag first appends a new list for `ul`/`ol`, then
      flushes under the old top, then pushes; text is buffered; a close tag
      adds a line break for `br` and flushes otherwise, then pops. */
  function Step(s: State, e: Event, n: nat, base: int, style: Tree.ParaStyle): (r: Result<State>)
    requires Valid(s, n)
    ensures r.Success? ==> Valid(r.value, n) && KeepsFirst(s, r.value, n)
    ensures e.Open? ==> var f := Flush(Opened(s, e.name, n), n, base, style);
      (r.Success? <==> f.Success?) && (r.Success? ==> r.value == f.value.(tags := s.tags + [e.name]))
    ensures e.TextEvent? ==> r == Success(s.(pending := PutText(s.pending, e.text)))
    ensures e.Close? && e.name == "br" ==> r == Success(s.(pending := PutText(s.pending, "\n"), tags := Pop(s.tags)))
    ensures e.Close? && e.name != "br" ==> var f := Flush(s, n, base, style);
      (r.Success? <==> f.Success?) && (r.Success? ==> r.value == f.value.(tags := Pop(s.tags)))
  {
    match e
    case Open(name) =>
      var s1 := Opened(s, name, n);
      var s2 :- Flush(s1, n, base, style);
      Success(s2.(tags := s2.tags + [name]))
    case TextEvent(text) =>
      Success(s.(pending := PutText(s.pending, text)))
    case Close(name) =>
      var s1 :- if name == "br" then Success(s.(pending := PutText(s.pending, "\n"))) else Flush(s, n, base, style);
      Success(s1.(tags := Pop(s1.tags)))
  }

  function Run(s: State, events: seq<Event>, n: nat, base: int, style: Tree.ParaStyle): (r: Result<State>)
    requires Valid(s, n)
    ensures r.Success? ==> Valid(r.value, n) && KeepsFirst(s, r.value, n)
    decreases |events|
  {
    if events == [] then Success(s)
    else
      var s1 :- Step(s, events[0], n, base, style);
      var s2 :- Run(s1, events[1..], n, base, style);
      assert s2.out[..n] == s1.out[..n];
      Success(s2)
  }

  /** `addHTML(html, level)` on a part with children `children`: a
      non-empty string not starting with `<` becomes one paragraph holding
      it; anything else is converted from `events`, its tokenization. Text
      still buffered at the end is dropped. */
  function Convert(children: seq<Tree.Node>, html: string, events: seq<Event>, base: int, style: Tree.ParaStyle): (r: Result<seq<Tree.Node>>)
    ensures r.Success? ==> |children| <= |r.value| && r.value[..|children|] == children
    ensures html != "" && html[0] != '<' ==> r == Success(children + [Tree.Paragraph(html, style)])
  {
    if html != "" && html[0] != '<' then Success(children + [Tree.Paragraph(html, style)])
    else
      var s :- Run(State(children, [], "", None), events, |children|, base, style);
      assert children[..|children|] == children;
      Success(s.out)
  }

  /** Running two event streams one after the other is running their
      concatenation. */
  lemma {:induction false} RunAppend(s: State, e1: seq<Event>, e2: seq<Event>, n: nat, base: int, style: Tree.ParaStyle)
    requires Valid(s, n)
    ensures Run(s, e1 + e2, n, base, style) ==
      match Run(s, e1, n, base, style)
      case Failure(err) => Failure(err)
      case Success(s1) => Run(s1, e2, n, base, style)
    decreases |e1|
  {
    if e1 == [] {
      assert e1 + e2 == e2;
    } else {
      assert (e1 + e2)[0] == e1[0];
      assert (e1 + e2)[1..] == e1[1..] + e2;
      match Step(s, e1[0], n, base, style)
      case Failure(_) =>
      case Success(s1) => RunAppend(s1, e1[1..], e2, n, base, style);
    }
  }

  /** One element `<tag>t</tag>` at the top level: a heading tag writes a
      heading at its level, `p` a paragraph, `li` an item of the current list
      (failing when no list is open), and any other tag writes nothing. */
  lemma SingleElement(s: State, tag: string, t: string, n: nat, base: int, style: Tree.ParaStyle)
    requires Valid(s, n) && s.tags == [] && s.pending == ""
    requires tag !in ["", "ul", "ol", "br"]
    ensures Run(s, [Open(tag), TextEvent(t), Close(tag)], n, base, style) ==
      if tag[0] == 'h' then Success(s.(out := s.out + [Tree.Heading(t, HeadingLevel(tag, base))]))
      else if tag == "p" then Success(s.(out := s.out + [Tree.Paragraph(t, style)]))
      else if tag == "li" then
        (match s.list
         case None => Failure(Error.NoCurrentList)
         case Some(i) => Success(s.(out := s.out[i := Tree.ListNode(s.out[i].items + [t])])))
      else Success(s)
  {
    var events := [Open(tag), TextEvent(t), Close(tag)];
    var s1 := s.(tags := [tag]);
    assert Flush(s, n, base, style) == Success(s);
    assert s.tags + [tag] == [tag];
    assert Step(s, events[0], n, base, style) == Success(s1);
    var s2 := s1.(pending := t);
    assert Step(s1, events[1], n, base, style) == Success(s2);
    assert events[1..][1..] == [Close(tag)];
    assert Run(s, events, n, base, style) == Run(s1, events[1..], n, base, style);
    assert Run(s1, events[1..], n, base, style) == Run(s2, [Close(tag)], n, base, style);
    RunOne(s2, Close(tag), n, base, style);
    assert Pop(s2.tags) == [];
  }

  lemma RunOne(s: State, e: Event, n: nat, base: int, style: Tree.ParaStyle)
    requires Valid(s, n)
    ensures Run(s, [e], n, base, style) == Step(s, e, n, base, style)
  {
    assert [e][1..] == [];
  }

  /** The events of `<p>t0</p><p>t1</p>…`. */
  function ParagraphEvents(ts: seq<string>): (r: seq<Event>)
    ensures |r| == 3 * |ts|
  {
    if ts == [] then [] else [Open("p"), TextEvent(ts[0]), Close("p")] + ParagraphEvents(ts[1..])
  }

  /** The reference result: one paragraph per text, in order, empty texts
      included. */
  function Paragraphs(ts: seq<string>, style: Tree.ParaStyle): (r: seq<Tree.Node>)
    ensures |r| == |ts|
    ensures forall i :: 0 <= i < |ts| ==> r[i] == Tree.Paragraph(ts[i], style)
  {
    seq(|ts|, i requires 0 <= i < |ts| => Tree.Paragraph(ts[i], style))
  }

  lemma ParagraphsSnoc(ts: seq<string>, t: string, style: Tree.ParaStyle)
    ensures Paragraphs(ts + [t], style) == Paragraphs(ts, style) + [Tree.Paragraph(t, style)]
  {
    var a := Paragraphs(ts + [t], style);
    assert forall i :: 0 <= i < |ts| ==> a[i] == Tree.Paragraph(ts[i], style);
  }

  /** A run of top-level paragraphs converts to exactly the reference
      paragraphs, appended after the existing children. */
  lemma {:induction false} RunParagraphs(s: State, ts: seq<string>, n: nat, base: int, style: Tree.ParaStyle)
    requires Valid(s, n) && s.tags == [] && s.pending == ""
    ensures Run(s, ParagraphEvents(ts), n, base, style) == Success(s.(out := s.out + Paragraphs(ts, style)))
    decreases |ts|
  {
    if ts == [] {
      assert s.out + Paragraphs(ts, style) == s.out;
    } else {
      var first := [Open("p"), TextEvent(ts[0]), Close("p")];
      RunAppend(s, first, ParagraphEvents(ts[1..]), n, base, style);
      SingleElement(s, "p", ts[0], n, base, style);
      var s1 := s.(out := s.out + [Tree.Paragraph(ts[0], style)]);
      RunParagraphs(s1, ts[1..], n, base, style);
      assert s1.out + Paragraphs(ts[1..], style) == s.out + Paragraphs(ts, style);
    }
  }

  /** The events of `<li>i0</li><li>i1</li>…`. */
  function ItemEvents(items: seq<string>): (r: seq<Event>)
    ensures |r| == 3 * |items|
  {
    if items == [] then [] else [Open("li"), TextEvent(items[0]), Close("li")] + ItemEvents(items[1..])
  }

  /** Inside an open list, each `li` adds its text as the next item of that
      list and nothing else. */
  lemma {:induction false} RunItems(s: State, items: seq<string>, n: nat, base: int, style: Tree.ParaStyle)
    requires Valid(s, n) && |s.tags| > 0 && s.tags[|s.tags| - 1] in ["ul", "ol"]
    requires s.pending == "" && s.list.Some?
    ensures Run(s, ItemEvents(items), n, base, style) ==
      Success(s.(out := s.out[s.list.value := Tree.ListNode(s.out[s.list.value].items + items)]))
    decreases |items|
  {
    var i := s.list.value;
    var x := s.out[i].items;
    if items == [] {
      assert x + items == x;
      assert s.out[i := Tree.ListNode(x)] == s.out;
    } else {
      var first := [Open("li"), TextEvent(items[0]), Close("li")];
      var rest := ItemEvents(items[1..]);
      assert ItemEvents(items) == first + rest;
      RunAppend(s, first, rest, n, base, style);
      ItemStep(s, items[0], n, base, style);
      var s3 := s.(out := s.out[i := Tree.ListNode(x + [items[0]])]);
      assert s3.out[i].items == x + [items[0]];
      RunItems(s3, items[1..], n, base, style);
      HeadThenRest(x, items);
      UpdateTwice(s.out, i, Tree.ListNode(x + [items[0]]), Tree.ListNode(x + items));
    }
  }

  lemma HeadThenRest<T>(x: seq<T>, items: seq<T>)
    requires items != []
    ensures (x + [items[0]]) + items[1..] == x + items
  {
    assert items == [items[0]] + items[1..];
  }

  lemma UpdateTwice<T>(s: seq<T>, i: nat, a: T, b: T)
    requires i < |s|
    ensures s[i := a][i := b] == s[i := b]
  {
  }

  /** One `<li>t</li>` inside an open list. */
  lemma ItemStep(s: State, t: string, n: nat, base: int, style: Tree.ParaStyle)
    requires Valid(s, n) && |s.tags| > 0 && s.tags[|s.tags| - 1] in ["ul", "ol"]
    requires s.pending == "" && s.list.Some?
    ensures Run(s, [Open("li"), TextEvent(t), Close("li")], n, base, style) ==
      Success(s.(out := s.out[s.list.value := Tree.ListNode(s.out[s.list.value].items + [t])]))
  {
    var i := s.list.value;
    var first := [Open("li"), TextEvent(t), Close("li")];
    var s1 := s.(tags := s.tags + ["li"]);
    assert Flush(s, n, base, style) == Success(s);
    assert Step(s, first[0], n, base, style) == Success(s1);
    var s2 := s1.(pending := t);
    assert Step(s1, first[1], n, base, style) == Success(s2);
    var s3 := s.(out := s.out[i := Tree.ListNode(s.out[i].items + [t])]);
    assert s2.tags[|s2.tags| - 1] == "li";
    assert Flush(s2, n, base, style) == Success(s3.(tags := s2.tags));
    assert Pop(s2.tags) == s.tags;
    assert Step(s2, first[2], n, base, style) == Success(s3);
    assert first[1..][1..] == [first[2]];
    assert Run(s, first, n, base, style) == Run(s1, first[1..], n, base, style);
    assert Run(s1, first[1..], n, base, style) == Run(s2, [first[2]], n, base, style);
    RunOne(s2, first[2], n, base, style);
  }

  /** A top-level `<ul>` (or `<ol>`) of items becomes one list node holding
      the items in order, which stays the current list. */
  lemma ListConversion(s: State, kind: string, items: seq<string>, n: nat, base: int, style: Tree.ParaStyle)
    requires Valid(s, n) && s.tags == [] && s.pending == "" && kind in ["ul", "ol"]
    ensures Run(s, [Open(kind)] + ItemEvents(items) + [Close(kind)], n, base, style) ==
      Success(State(s.out + [Tree.ListNode(items)], [], "", Some(|s.out|)))
  {
    var k := |s.out|;
    var s1 := State(s.out + [Tree.ListNode([])], [kind], "", Some(k));
    var s2 := State(s.out + [Tree.ListNode(items)], [kind], "", Some(k));
    OpenList(s, kind, n, base, style);
    RunAppend(s, [Open(kind)], ItemEvents(items), n, base, style);
    RunItems(s1, items, n, base, style);
    assert s1.out[k].items == [];
    assert [] + items == items;
    ReplaceLast(s.out, Tree.ListNode([]), Tree.ListNode(items));
    assert Run(s, [Open(kind)] + ItemEvents(items), n, base, style) == Success(s2);
    RunAppend(s, [Open(kind)] + ItemEvents(items), [Close(kind)], n, base, style);
    CloseList(s2, kind, n, base, style);
  }

  /** Opening a top-level list appends an empty list node and makes it current. */
  lemma OpenList(s: State, kind: string, n: nat, base: int, style: Tree.ParaStyle)
    requires Valid(s, n) && s.tags == [] && s.pending == "" && kind in ["ul", "ol"]
    ensures Run(s, [Open(kind)], n, base, style) ==
      Success(State(s.out + [Tree.ListNode([])], [kind], "", Some(|s.out|)))
  {
    var s0 := s.(out := s.out + [Tree.ListNode([])], list := Some(|s.out|));
    assert Flush(s0, n, base, style) == Success(s0);
    assert s0.tags + [kind] == [kind];
    RunOne(s, Open(kind), n, base, style);
  }

  /** Closing the only open tag, a list, with nothing pending just pops it. */
  lemma CloseList(s: State, kind: string, n: nat, base: int, style: Tree.ParaStyle)
    requires Valid(s, n) && s.tags == [kind] && s.pending == "" && kind in ["ul", "ol"]
    ensures Run(s, [Close(kind)], n, base, style) == Success(s.(tags := []))
  {
    assert Flush(s, n, base, style) == Success(s);
    RunOne(s, Close(kind), n, base, style);
  }

  lemma ReplaceLast<T>(s: seq<T>, a: T, b: T)
    ensures (s + [a])[|s| := b] == s + [b]
  {
  }

  /** `<p>a<br/>b</p>`: the line break flushes the text before it as a
      paragraph of its own, and the text after it, led by the newline, as a
      second paragraph. */
  lemma BreakSplitsParagraph(s: State, a: string, b: string, n: nat, base: int, style: Tree.ParaStyle)
    requires Valid(s, n) && s.tags == [] && s.pending == ""
    ensures Run(s, [Open("p"), TextEvent(a), Open("br"), Close("br"), TextEvent(b), Close("p")], n, base, style) ==
      Success(s.(out := s.out + [Tree.Paragraph(a, style), Tree.Paragraph("\n" + b, style)]))
  {
    var e := [Open("p"), TextEvent(a), Open("br"), Close("br"), TextEvent(b), Close("p")];
    var s4 := s.(out := s.out + [Tree.Paragraph(a, style)], tags := ["p"], pending := "\n");
    BreakFlushes(s, a, n, base, style);
    var s5 := s4.(pending := "\n" + b);
    assert PutText("\n", b) == "\n" + b;
    assert Step(s4, e[4], n, base, style) == Success(s5);
    var s6 := s.(out := s.out + [Tree.Paragraph(a, style), Tree.Paragraph("\n" + b, style)]);
    assert s.out + [Tree.Paragraph(a, style)] + [Tree.Paragraph("\n" + b, style)] == s6.out;
    assert Flush(s5, n, base, style) == Success(s6.(tags := ["p"]));
    assert Pop(["p"]) == [];
    assert Step(s5, e[5], n, base, style) == Success(s6);
    RunStep2(s4, e[4], e[5], n, base, style);
    assert e[..4] == [Open("p"), TextEvent(a), Open("br"), Close("br")];
    assert e == e[..4] + [e[4], e[5]];
    RunAppend(s, e[..4], [e[4], e[5]], n, base, style);
  }

  /** `<p>a<br/>`: the text before the break is written as a paragraph, and
      the break leaves only the newline buffered, with `p` on top again. */
  lemma BreakFlushes(s: State, a: string, n: nat, base: int, style: Tree.ParaStyle)
    requires Valid(s, n) && s.tags == [] && s.pending == ""
    ensures Run(s, [Open("p"), TextEvent(a), Open("br"), Close("br")], n, base, style) ==
      Success(s.(out := s.out + [Tree.Paragraph(a, style)], tags := ["p"], pending := "\n"))
  {
    var e := [Open("p"), TextEvent(a), Open("br"), Close("br")];
    var s1 := s.(tags := ["p"]);
    assert Flush(s, n, base, style) == Success(s);
    assert s.tags + ["p"] == ["p"];
    assert Step(s, e[0], n, base, style) == Success(s1);
    var s2 := s1.(pending := a);
    assert Step(s1, e[1], n, base, style) == Success(s2);
    var s3 := s1.(out := s.out + [Tree.Paragraph(a, style)], tags := ["p", "br"]);
    assert Flush(s2, n, base, style) == Success(s1.(out := s.out + [Tree.Paragraph(a, style)]));
    assert ["p"] + ["br"] == ["p", "br"];
    assert Step(s2, e[2], n, base, style) == Success(s3);
    var s4 := s3.(tags := ["p"], pending := "\n");
    assert Pop(["p", "br"]) == ["p"];
    assert Step(s3, e[3], n, base, style) == Success(s4);
    RunStep2(s, e[0], e[1], n, base, style);
    RunStep2(s2, e[2], e[3], n, base, style);
    assert e == [e[0], e[1]] + [e[2], e[3]];
    RunAppend(s, [e[0], e[1]], [e[2], e[3]], n, base, style);
  }

  lemma RunStep2(s: State, e1: Event, e2: Event, n: nat, base: int, style: Tree.ParaStyle)
    requires Valid(s, n)
    ensures Run(s, [e1, e2], n, base, style) ==
      match Step(s, e1, n, base, style)
      case Failure(err) => Failure(err)
      case Success(s1) => Step(s1, e2, n, base, style)
  {
    assert [e1, e2][1..] == [e2];
    match Step(s, e1, n, base, style)
    case Failure(_) =>
    case Success(s1) => RunOne(s1, e2, n, base, style);
  }

  /** Opening a list while text is pending under `p`: the list is appended
      first and the text lands after it. */
  lemma ListPrecedesPendingText(s: State, kind: string, n: nat, base: int, style: Tree.ParaStyle)
    requires Valid(s, n) && |s.tags| > 0 && s.tags[|s.tags| - 1] == "p" && kind in ["ul", "ol"]
    ensures Step(s, Open(kind), n, base, style) ==
      Success(State(s.out + [Tree.ListNode([]), Tree.Paragraph(s.pending, style)], s.tags + [kind], "", Some(|s.out|)))
  {
    var s1 := s.(out := s.out + [Tree.ListNode([])], list := Some(|s.out|));
    assert s1.out + [Tree.Paragraph(s.pending, style)] == s.out + [Tree.ListNode([]), Tree.Paragraph(s.pending, style)];
  }

  /** A non-empty string not starting with `<` is one paragraph, whatever
      its tokenization would have been. */
  lemma PlainTextIsOneParagraph(children: seq<Tree.Node>, html: string, events: seq<Event>, base: int, style: Tree.ParaStyle)
    requires html != "" && html[0] != '<'
    ensures Convert(children, html, events, base, style) == Success(children + [Tree.Paragraph(html, style)])
  {
  }
}
