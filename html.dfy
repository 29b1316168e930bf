/**
 * The parsed page as the adapters see it: a tree of element nodes, and
 * BeautifulSoup's `find(tag, {attr: value})`, the first matching element among a
 * node's descendants in document (pre-)order.
 */
module Html {
  import opened Wrappers

  /** An element: its tag name, its attributes, its text content (`.text`) and its child elements. */
  datatype Node = Node(tag: string, attrs: map<string, string>, text: string, children: seq<Node>)

  /** A tag name, optionally with one attribute that must have a given value. */
  datatype Selector = Selector(tag: string, attr: Option<(string, string)>)

  predicate Matches(n: Node, sel: Selector) {
    && n.tag == sel.tag
    && (sel.attr.Some? ==> sel.attr.value.0 in n.attrs && n.attrs[sel.attr.value.0] == sel.attr.value.1)
  }

  /** Every element of a forest, each before its own descendants and after earlier siblings' subtrees. */
  function Flatten(ns: seq<Node>): seq<Node>
    decreases ns
  {
    if ns == [] then []
    else [ns[0]] + Flatten(ns[0].children) + Flatten(ns[1..])
  }

  /** The descendants of a node in document order; the node itself is not one of them. */
  function Descendants(n: Node): seq<Node> {
    Flatten(n.children)
  }

  /** The first element of a flat list that matches. */
  function First(xs: seq<Node>, sel: Selector): (r: Option<Node>)
    ensures r.None? <==> forall i :: 0 <= i < |xs| ==> !Matches(xs[i], sel)
    ensures r.Some? ==> exists i ::
              && 0 <= i < |xs| && xs[i] == r.value && Matches(xs[i], sel)
              && (forall j :: 0 <= j < i ==> !Matches(xs[j], sel))
  {
    if xs == [] then None
    else if Matches(xs[0], sel) then Some(xs[0])
    else
      var r := First(xs[1..], sel);
      assert forall i :: 1 <= i < |xs| ==> xs[i] == xs[1..][i - 1];
      r
  }

  lemma {:induction false} FirstConcat(a: seq<Node>, b: seq<Node>, sel: Selector)
    ensures First(a + b, sel) == if First(a, sel).Some? then First(a, sel) else First(b, sel)
    decreases |a|
  {
    if a == [] {
      assert a + b == b;
    } else {
      assert (a + b)[1..] == a[1..] + b;
      FirstConcat(a[1..], b, sel);
    }
  }

  /** The search BeautifulSoup performs over a forest: each tree's root, then its subtree, then the next tree. */
  function FindIn(ns: seq<Node>, sel: Selector): (r: Option<Node>)
    ensures r.Some? ==> Matches(r.value, sel)
    decreases ns
  {
    if ns == [] then None
    else if Matches(ns[0], sel) then Some(ns[0])
    else match FindIn(ns[0].children, sel)
      case Some(d) => Some(d)
      case None => FindIn(ns[1..], sel)
  }

  /** The recursive search finds exactly the first match of the document-order listing. */
  lemma {:induction false} FindInIsFirst(ns: seq<Node>, sel: Selector)
    ensures FindIn(ns, sel) == First(Flatten(ns), sel)
    decreases ns
  {
    if ns != [] {
      var below, after := Flatten(ns[0].children), Flatten(ns[1..]);
      FindInIsFirst(ns[0].children, sel);
      FindInIsFirst(ns[1..], sel);
      assert Flatten(ns) == [ns[0]] + (below + after);
      FirstConcat([ns[0]], below + after, sel);
      FirstConcat(below, after, sel);
    }
  }

  /** Some descendant of `n` matches `sel`. */
  predicate Present(n: Node, sel: Selector) {
    exists i :: 0 <= i < |Descendants(n)| && Matches(Descendants(n)[i], sel)
  }

  /**
   * `node.find(...)`: the first descendant, in document order, that matches;
   * `None` exactly when no descendant matches.
   */
  function Find(n: Node, sel: Selector): (r: Option<Node>)
    ensures r.None? <==> !Present(n, sel)
    ensures r.Some? ==> exists i ::
              && 0 <= i < |Descendants(n)| && Descendants(n)[i] == r.value && Matches(r.value, sel)
              && (forall j :: 0 <= j < i ==> !Matches(Descendants(n)[j], sel))
  {
    FindInIsFirst(n.children, sel);
    var r := First(Descendants(n), sel);
    assert FindIn(n.children, sel) == r;
    FindIn(n.children, sel)
  }

  /** `node.get(key)`: the attribute's value, or `None` when the node does not carry it. */
  function GetAttr(n: Node, key: string): (r: Option<string>)
    ensures r.Some? <==> key in n.attrs
    ensures r.Some? ==> r.value == n.attrs[key]
  {
    if key in n.attrs then Some(n.attrs[key]) else None
  }
}
