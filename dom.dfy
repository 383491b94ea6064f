/**
 * An abstract DOM: the element tree that an XML parser builds from a document,
 * with the three queries and the one edit the POM utilities rely on —
 * getElementsByTagName, textContent (read and write) and appendChild.
 */
module Dom {

  datatype Option<T> = None | Some(value: T)

  /**
   * A DOM node. An element has a qualified tag name and an ordered list of
   * children; a text node stands for text and CDATA; a comment stands for
   * comments and processing instructions, which textContent skips.
   * Attributes are not modelled: nothing below looks at them.
   */
  datatype Node =
    | Element(tag: string, children: seq<Node>)
    | Text(data: string)
    | Comment(data: string)

  /** n itself when it is an element tagged t, then every descendant of n tagged t, in pre-order. */
  function Tagged(n: Node, t: string): seq<Node>
  {
    if n.Element? then (if n.tag == t then [n] else []) + TaggedForest(n.children, t) else []
  }

  /** The nodes tagged t in a list of sibling subtrees, in document order. */
  function TaggedForest(cs: seq<Node>, t: string): seq<Node>
  {
    if cs == [] then [] else Tagged(cs[0], t) + TaggedForest(cs[1..], t)
  }

  /** Element.getElementsByTagName(t): the descendants of n tagged t, in document order, n excluded. */
  function ElementsByTagName(n: Node, t: string): seq<Node>
  {
    if n.Element? then TaggedForest(n.children, t) else []
  }

  /** Every node Tagged(n, t) lists is an element tagged t. */
  lemma {:induction false} TaggedAreTagged(n: Node, t: string)
    ensures forall e :: e in Tagged(n, t) ==> e.Element? && e.tag == t
  {
    if n.Element? {
      TaggedForestAreTagged(n.children, t);
    }
  }

  /** Every node TaggedForest(cs, t) lists is an element tagged t. */
  lemma {:induction false} TaggedForestAreTagged(cs: seq<Node>, t: string)
    ensures forall e :: e in TaggedForest(cs, t) ==> e.Element? && e.tag == t
  {
    if cs != [] {
      TaggedAreTagged(cs[0], t);
      TaggedForestAreTagged(cs[1..], t);
    }
  }

  /** Every node getElementsByTagName(t) returns is an element tagged t. */
  lemma ElementsByTagNameTagged(n: Node, t: string)
    ensures forall e :: e in ElementsByTagName(n, t) ==> e.Element? && e.tag == t
  {
    if n.Element? {
      TaggedForestAreTagged(n.children, t);
    }
  }

  /** Node.textContent: for an element, the text below it with comments skipped. */
  function TextContent(n: Node): (r: string)
    ensures n.Element? && n.children == [] ==> r == ""
  {
    match n
    case Element(_, cs) => TextContentForest(cs)
    case Text(s) => s
    case Comment(s) => s
  }

  function TextContentForest(cs: seq<Node>): (r: string)
  {
    if cs == [] then ""
    else (if cs[0].Comment? then "" else TextContent(cs[0])) + TextContentForest(cs[1..])
  }

  /** list.item(0).textContent; None stands for the TypeError thrown when the list is empty. */
  function FirstTextContent(list: seq<Node>): (r: Option<string>)
    ensures r.None? <==> list == []
  {
    if list == [] then None else Some(TextContent(list[0]))
  }

  /** The text of two consecutive runs of siblings is the text of the first, then that of the second. */
  lemma {:induction false} TextContentForestConcat(a: seq<Node>, b: seq<Node>)
    ensures TextContentForest(a + b) == TextContentForest(a) + TextContentForest(b)
  {
    if a == [] {
      assert a + b == b;
    } else {
      assert (a + b)[0] == a[0];
      assert (a + b)[1..] == a[1..] + b;
      TextContentForestConcat(a[1..], b);
    }
  }

  /** textContent skips comments: a comment child contributes nothing to its element's text. */
  lemma TextContentSkipsComment(tag: string, a: seq<Node>, s: string, b: seq<Node>)
    ensures TextContent(Element(tag, a + [Comment(s)] + b)) == TextContent(Element(tag, a + b))
  {
    assert TextContentForest([Comment(s)]) == "" by { assert [Comment(s)][1..] == []; }
    assert TextContentForest(a + [Comment(s)]) == TextContentForest(a) by {
      TextContentForestConcat(a, [Comment(s)]);
    }
    TextContentForestConcat(a + [Comment(s)], b);
    TextContentForestConcat(a, b);
  }

  /** A new element created as createElement(tag) whose textContent was then set to s. */
  function TextElement(tag: string, s: string): (r: Node)
    ensures r.Element? && r.tag == tag
    ensures TextContent(r) == s
    ensures forall t :: Tagged(r, t) == (if t == tag then [r] else [])
  {
    // setting textContent to "" leaves the element without children
    var r := Element(tag, if s == "" then [] else [Text(s)]);
    assert r.children == [] || r.children[1..] == [];
    assert s != "" ==> TextContentForest(r.children) == TextContent(r.children[0]) + TextContentForest([]);
    assert forall t :: TaggedForest(r.children, t) == [];
    r
  }

  /** Node.appendChild(x) on element e: x becomes e's last child. */
  function AppendChild(e: Node, x: Node): (r: Node)
    requires e.Element?
    ensures r.Element? && r.tag == e.tag && |r.children| == |e.children| + 1
    ensures r.children[..|e.children|] == e.children && r.children[|e.children|] == x
  {
    Element(e.tag, e.children + [x])
  }

  /** n with x appended as last child to n itself, if n is tagged t, and to every descendant tagged t. */
  function AppendIn(n: Node, t: string, x: Node): Node
  {
    if n.Element? then
      var cs := AppendInForest(n.children, t, x);
      Element(n.tag, if n.tag == t then cs + [x] else cs)
    else n
  }

  /** AppendIn applied to each node of a list. */
  function AppendInForest(cs: seq<Node>, t: string, x: Node): (r: seq<Node>)
    ensures |r| == |cs|
  {
    if cs == [] then [] else [AppendIn(cs[0], t, x)] + AppendInForest(cs[1..], t, x)
  }

  /** n with x appended as last child to every descendant of n tagged t (n itself excluded). */
  function AppendBelow(n: Node, t: string, x: Node): (r: Node)
    ensures r.Element? <==> n.Element?
    ensures n.Element? ==> r.tag == n.tag && |r.children| == |n.children|
    ensures !n.Element? ==> r == n
  {
    if n.Element? then Element(n.tag, AppendInForest(n.children, t, x)) else n
  }

  /** The inverse edit: the last child removed from n, if n is tagged t, and from every descendant tagged t. */
  function TrimIn(n: Node, t: string): Node
  {
    if n.Element? then
      var cs := TrimInForest(n.children, t);
      Element(n.tag, if n.tag == t && cs != [] then cs[..|cs| - 1] else cs)
    else n
  }

  function TrimInForest(cs: seq<Node>, t: string): (r: seq<Node>)
    ensures |r| == |cs|
  {
    if cs == [] then [] else [TrimIn(cs[0], t)] + TrimInForest(cs[1..], t)
  }

  function TrimBelow(n: Node, t: string): Node
  {
    if n.Element? then Element(n.tag, TrimInForest(n.children, t)) else n
  }

  // ---------------------------------------------------------------------------
  // Lemmas about the queries and the edit

  /** The tagged nodes of two consecutive runs of siblings are those of the first run, then those of the second. */
  lemma {:induction false} TaggedForestConcat(a: seq<Node>, b: seq<Node>, t: string)
    ensures TaggedForest(a + b, t) == TaggedForest(a, t) + TaggedForest(b, t)
  {
    if a == [] {
      assert a + b == b;
    } else {
      assert (a + b)[0] == a[0];
      assert (a + b)[1..] == a[1..] + b;
      TaggedForestConcat(a[1..], b, t);
    }
  }

  /** The tagged nodes of a single sibling are its own. */
  lemma TaggedForestSingleton(e: Node, t: string)
    ensures TaggedForest([e], t) == Tagged(e, t)
  {
    assert [e][1..] == [];
  }

  /** The tagged nodes of two siblings are those of the first, then those of the second. */
  lemma TaggedForestPair(a: Node, b: Node, t: string)
    ensures TaggedForest([a, b], t) == Tagged(a, t) + Tagged(b, t)
  {
    assert [a, b][1..] == [b];
    TaggedForestSingleton(b, t);
  }

  lemma {:induction false} AppendInForestConcat(a: seq<Node>, b: seq<Node>, t: string, x: Node)
    ensures AppendInForest(a + b, t, x) == AppendInForest(a, t, x) + AppendInForest(b, t, x)
  {
    if a == [] {
      assert a + b == b;
    } else {
      assert (a + b)[0] == a[0];
      assert (a + b)[1..] == a[1..] + b;
      AppendInForestConcat(a[1..], b, t, x);
    }
  }

  lemma {:induction false} TrimInForestSnoc(a: seq<Node>, y: Node, t: string)
    ensures TrimInForest(a + [y], t) == TrimInForest(a, t) + [TrimIn(y, t)]
  {
    if a == [] {
      assert a + [y] == [y];
    } else {
      assert (a + [y])[0] == a[0];
      assert (a + [y])[1..] == a[1..] + [y];
      TrimInForestSnoc(a[1..], y, t);
    }
  }

  /** The edit leaves a subtree without t-tagged elements exactly as it was. */
  lemma {:induction false} AppendInUntouched(n: Node, t: string, x: Node)
    requires Tagged(n, t) == []
    ensures AppendIn(n, t, x) == n
  {
    if n.Element? {
      AppendInForestUntouched(n.children, t, x);
    }
  }

  lemma {:induction false} AppendInForestUntouched(cs: seq<Node>, t: string, x: Node)
    requires TaggedForest(cs, t) == []
    ensures AppendInForest(cs, t, x) == cs
  {
    if cs != [] {
      AppendInUntouched(cs[0], t, x);
      AppendInForestUntouched(cs[1..], t, x);
    }
  }

  /**
   * After the edit, the elements tagged u are the old ones, in the same order,
   * each with the edit applied inside it — provided x brings no u-tagged element.
   */
  lemma {:induction false} TaggedAfterAppendIn(n: Node, t: string, x: Node, u: string)
    requires Tagged(x, u) == []
    ensures Tagged(AppendIn(n, t, x), u) == AppendInForest(Tagged(n, u), t, x)
  {
    if n.Element? {
      var cs := AppendInForest(n.children, t, x);
      TaggedAfterAppendInForest(n.children, t, x, u);
      if n.tag == t {
        TaggedForestConcat(cs, [x], t);
        TaggedForestConcat(cs, [x], u);
        assert TaggedForest([x], u) == Tagged(x, u) + TaggedForest([], u);
      }
      assert TaggedForest(AppendIn(n, t, x).children, u) == AppendInForest(TaggedForest(n.children, u), t, x);
      var head := if n.tag == u then [n] else [];
      AppendInForestConcat(head, TaggedForest(n.children, u), t, x);
    }
  }

  lemma {:induction false} TaggedAfterAppendInForest(cs: seq<Node>, t: string, x: Node, u: string)
    requires Tagged(x, u) == []
    ensures TaggedForest(AppendInForest(cs, t, x), u) == AppendInForest(TaggedForest(cs, u), t, x)
  {
    if cs != [] {
      var r := AppendInForest(cs, t, x);
      assert r[0] == AppendIn(cs[0], t, x) && r[1..] == AppendInForest(cs[1..], t, x);
      TaggedAfterAppendIn(cs[0], t, x, u);
      TaggedAfterAppendInForest(cs[1..], t, x, u);
      AppendInForestConcat(Tagged(cs[0], u), TaggedForest(cs[1..], u), t, x);
    }
  }

  /** getElementsByTagName(u) after appending x below every t-tagged element. */
  lemma ElementsByTagNameAfterAppend(n: Node, t: string, x: Node, u: string)
    requires Tagged(x, u) == []
    ensures ElementsByTagName(AppendBelow(n, t, x), u) == AppendInForest(ElementsByTagName(n, u), t, x)
  {
    if n.Element? {
      TaggedAfterAppendInForest(n.children, t, x, u);
    }
  }

  /** Removing the last child of every t-tagged element undoes the edit: nothing else was touched. */
  lemma {:induction false} TrimAfterAppendIn(n: Node, t: string, x: Node)
    ensures TrimIn(AppendIn(n, t, x), t) == n
  {
    if n.Element? {
      var cs := AppendInForest(n.children, t, x);
      TrimAfterAppendInForest(n.children, t, x);
      if n.tag == t {
        TrimInForestSnoc(cs, x, t);
        var trimmed := TrimInForest(cs, t) + [TrimIn(x, t)];
        assert trimmed[..|trimmed| - 1] == TrimInForest(cs, t);
      }
    }
  }

  lemma {:induction false} TrimAfterAppendInForest(cs: seq<Node>, t: string, x: Node)
    ensures TrimInForest(AppendInForest(cs, t, x), t) == cs
  {
    if cs != [] {
      var r := AppendInForest(cs, t, x);
      assert r[0] == AppendIn(cs[0], t, x) && r[1..] == AppendInForest(cs[1..], t, x);
      TrimAfterAppendIn(cs[0], t, x);
      TrimAfterAppendInForest(cs[1..], t, x);
    }
  }

  lemma TrimAfterAppendBelow(n: Node, t: string, x: Node)
    ensures TrimBelow(AppendBelow(n, t, x), t) == n
  {
    if n.Element? {
      TrimAfterAppendInForest(n.children, t, x);
    }
  }

  /**
   * An element tagged t found below n is counted by n's query together with
   * all of its own t-tagged descendants.
   */
  lemma {:induction false} NestedTaggedCount(n: Node, t: string, e: Node)
    requires e in Tagged(n, t)
    ensures |Tagged(n, t)| >= 1 + |ElementsByTagName(e, t)|
  {
    if n.Element? {
      if n.tag == t && e == n {
      } else {
        NestedTaggedCountForest(n.children, t, e);
      }
    }
  }

  lemma {:induction false} NestedTaggedCountForest(cs: seq<Node>, t: string, e: Node)
    requires e in TaggedForest(cs, t)
    ensures |TaggedForest(cs, t)| >= 1 + |ElementsByTagName(e, t)|
  {
    if e in Tagged(cs[0], t) {
      NestedTaggedCount(cs[0], t, e);
    } else {
      NestedTaggedCountForest(cs[1..], t, e);
    }
  }

  /**
   * When n has exactly one descendant d tagged t, appending x below the
   * t-tagged elements appends x to d and to nothing else: d's own children
   * are untouched and d stays the only t-tagged descendant.
   */
  lemma AppendBelowUnique(n: Node, t: string, x: Node, d: Node)
    requires ElementsByTagName(n, t) == [d]
    requires Tagged(x, t) == []
    ensures d.Element? && ElementsByTagName(AppendBelow(n, t, x), t) == [AppendChild(d, x)]
  {
    ElementsByTagNameTagged(n, t);
    assert n.Element? && d in TaggedForest(n.children, t);
    NestedTaggedCountForest(n.children, t, d);
    ElementsByTagNameAfterAppend(n, t, x, t);
    AppendInForestUntouched(d.children, t, x);
    assert AppendInForest([d], t, x) == [AppendIn(d, t, x)];
  }
}
