/**
 * The parsed content of the editor, as the sanitizer sees it once the browser
 * has turned the HTML string into nodes.  Every element carries an identity,
 * standing for the DOM node object that the sanitizer collects and later
 * removes; the walker only shows elements, so text and other nodes (comments,
 * processing instructions) are leaves it never visits.
 */
module Markup {

  datatype Attr = Attr(name: string, value: string)

  datatype Node =
    | Text(text: string)
    /** a comment or any other node that is neither text nor an element */
    | Other(data: string)
    | Element(id: nat, tag: string, attrs: seq<Attr>, children: seq<Node>)

  /** What the walker shows of an element when it reaches it. */
  datatype Visit = Visit(id: nat, tag: string, attrs: seq<Attr>)

  /**
   * The elements below a node list in document order, as a TreeWalker with
   * SHOW_ELEMENT and no filter yields them by repeated nextNode (pre-order,
   * the list's own elements first, each followed by its descendants).
   */
  function Walk(ns: seq<Node>): seq<Visit>
  {
    if ns == [] then [] else WalkNode(ns[0]) + Walk(ns[1..])
  }

  function WalkNode(n: Node): seq<Visit>
  {
    match n
    case Element(id, tag, attrs, children) => [Visit(id, tag, attrs)] + Walk(children)
    case _ => []
  }

  lemma {:induction false} WalkAppend(a: seq<Node>, b: seq<Node>)
    ensures Walk(a + b) == Walk(a) + Walk(b)
    decreases |a|
  {
    if a == [] {
      assert a + b == b;
    } else {
      assert (a + b)[0] == a[0];
      assert (a + b)[1..] == a[1..] + b;
      WalkAppend(a[1..], b);
    }
  }

  /** The text nodes and other non-element nodes below a node list, in document order. */
  function Leaves(ns: seq<Node>): seq<Node>
  {
    if ns == [] then [] else LeavesNode(ns[0]) + Leaves(ns[1..])
  }

  function LeavesNode(n: Node): seq<Node>
  {
    match n
    case Element(_, _, _, children) => Leaves(children)
    case _ => [n]
  }

  lemma {:induction false} LeavesAppend(a: seq<Node>, b: seq<Node>)
    ensures Leaves(a + b) == Leaves(a) + Leaves(b)
    decreases |a|
  {
    if a == [] {
      assert a + b == b;
    } else {
      assert (a + b)[0] == a[0];
      assert (a + b)[1..] == a[1..] + b;
      LeavesAppend(a[1..], b);
    }
  }

  /** textContent: the concatenated data of the text nodes, comments excluded. */
  function TextContent(ns: seq<Node>): string
  {
    if ns == [] then "" else TextContentNode(ns[0]) + TextContent(ns[1..])
  }

  function TextContentNode(n: Node): string
  {
    match n
    case Text(t) => t
    case Other(_) => ""
    case Element(_, _, _, children) => TextContent(children)
  }

  /** The text content is the text of the leaves, read left to right. */
  function LeafText(leaves: seq<Node>): string
  {
    if leaves == [] then ""
    else (if leaves[0].Text? then leaves[0].text else "") + LeafText(leaves[1..])
  }

  lemma {:induction false} LeafTextAppend(a: seq<Node>, b: seq<Node>)
    ensures LeafText(a + b) == LeafText(a) + LeafText(b)
    decreases |a|
  {
    if a == [] {
      assert a + b == b;
    } else {
      assert (a + b)[0] == a[0];
      assert (a + b)[1..] == a[1..] + b;
      LeafTextAppend(a[1..], b);
    }
  }

  lemma {:induction false} TextContentOfLeaves(ns: seq<Node>)
    ensures TextContent(ns) == LeafText(Leaves(ns))
    decreases ns
  {
    if ns != [] {
      TextContentOfLeaves(ns[1..]);
      LeafTextAppend(LeavesNode(ns[0]), Leaves(ns[1..]));
      match ns[0]
      case Element(_, _, _, children) =>
        TextContentOfLeaves(children);
      case Text(_) =>
      case Other(_) =>
    }
  }

  // ---------------------------------------------------------------------
  // Node identity
  // ---------------------------------------------------------------------

  /** No visit in vs belongs to the element with identity x. */
  predicate Fresh(x: nat, vs: seq<Visit>)
  {
    forall v :: v in vs ==> v.id != x
  }

  /** Every element is a distinct node: no identity is shown twice. */
  predicate Distinct(vs: seq<Visit>)
  {
    vs == [] || (Fresh(vs[0].id, vs[1..]) && Distinct(vs[1..]))
  }

  lemma {:induction false} DistinctAppend(a: seq<Visit>, b: seq<Visit>)
    ensures Distinct(a + b) <==> Distinct(a) && Distinct(b) && forall u :: u in a ==> Fresh(u.id, b)
    decreases |a|
  {
    if a == [] {
      assert a + b == b;
    } else {
      assert (a + b)[0] == a[0];
      assert (a + b)[1..] == a[1..] + b;
      DistinctAppend(a[1..], b);
    }
  }

  /** Two different positions of a distinct walk show different identities. */
  lemma {:induction false} DistinctAt(vs: seq<Visit>, i: nat, j: nat)
    requires Distinct(vs)
    requires i < j < |vs|
    ensures vs[i].id != vs[j].id
    decreases i
  {
    if i > 0 {
      DistinctAt(vs[1..], i - 1, j - 1);
    } else {
      assert vs[j] == vs[1..][j - 1];
    }
  }

  /** No two attributes of an element share a name (the DOM keeps attribute names unique). */
  predicate DistinctNames(attrs: seq<Attr>)
  {
    forall i, j :: 0 <= i < j < |attrs| ==> attrs[i].name != attrs[j].name
  }

  /** A node list as the DOM can hold it: distinct element nodes, distinct attribute names on each. */
  predicate WellFormed(ns: seq<Node>)
  {
    Distinct(Walk(ns)) && forall v :: v in Walk(ns) ==> DistinctNames(v.attrs)
  }
}
