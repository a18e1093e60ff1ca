/**
 * sanitizeContent as the editor runs it on the parsed content: a walk over
 * all elements that strips the attributes of allowed elements in place and
 * collects the others, then a pass over the collected elements that moves
 * each one's children into its parent before it and removes it.  The method
 * is proved to end in the reference result `Sanitizer.Sanitize`.
 */
module DomSanitizer {
  import opened Markup
  import opened Sanitizer

  // ---------------------------------------------------------------------
  // Removing attributes
  // ---------------------------------------------------------------------

  /** removeAttribute(name): the attribute list without the first attribute of that name. */
  function RemoveAttribute(attrs: seq<Attr>, name: string): seq<Attr>
  {
    if attrs == [] then []
    else if attrs[0].name == name then attrs[1..]
    else [attrs[0]] + RemoveAttribute(attrs[1..], name)
  }

  /** removeAttribute only takes attributes away, and takes none when no attribute has the name. */
  lemma {:induction false} RemoveAttributeSubset(attrs: seq<Attr>, name: string)
    ensures forall a :: a in RemoveAttribute(attrs, name) ==> a in attrs
    ensures (forall a :: a in attrs ==> a.name != name) ==> RemoveAttribute(attrs, name) == attrs
    decreases |attrs|
  {
    if attrs != [] && attrs[0].name != name {
      RemoveAttributeSubset(attrs[1..], name);
      assert attrs == [attrs[0]] + attrs[1..];
    }
  }

  /** Removing by name removes that attribute, wherever it stands after others of other names. */
  lemma {:induction false} RemoveAfterOthers(p: seq<Attr>, a: Attr, q: seq<Attr>)
    requires forall b :: b in p ==> b.name != a.name
    ensures RemoveAttribute(p + [a] + q, a.name) == p + q
    decreases |p|
  {
    var s := p + [a] + q;
    if p == [] {
      assert s == [a] + q;
      assert s[1..] == q;
    } else {
      assert s[0] == p[0] && p[0] in p;
      assert s[1..] == p[1..] + [a] + q;
      RemoveAfterOthers(p[1..], a, q);
      assert RemoveAttribute(s, a.name) == [p[0]] + (p[1..] + q);
      assert [p[0]] + (p[1..] + q) == p + q;
    }
  }

  lemma {:induction false} KeepStyleAppend(a: seq<Attr>, b: seq<Attr>)
    ensures KeepStyle(a + b) == KeepStyle(a) + KeepStyle(b)
    decreases |a|
  {
    if a == [] {
      assert a + b == b;
    } else {
      assert (a + b)[0] == a[0];
      assert (a + b)[1..] == a[1..] + b;
      KeepStyleAppend(a[1..], b);
    }
  }

  /** The style attributes kept so far all have names other than that of attrs[i]. */
  lemma NamesBefore(attrs: seq<Attr>, i: nat)
    requires DistinctNames(attrs) && i < |attrs|
    ensures forall b :: b in KeepStyle(attrs[..i]) ==> b.name != attrs[i].name
  {
    forall b | b in KeepStyle(attrs[..i]) ensures b.name != attrs[i].name {
      assert b in attrs[..i];
      var j :| 0 <= j < i && attrs[..i][j] == b;
      assert attrs[j] == b;
    }
  }

  /** The prefix of the attribute snapshot grows by one attribute per turn. */
  lemma KeepStyleSnoc(attrs: seq<Attr>, i: nat)
    requires i < |attrs|
    ensures KeepStyle(attrs[..i + 1])
         == KeepStyle(attrs[..i]) + (if IsStyle(attrs[i]) then [attrs[i]] else [])
  {
    assert attrs[..i + 1] == attrs[..i] + [attrs[i]];
    KeepStyleAppend(attrs[..i], [attrs[i]]);
    assert KeepStyle([attrs[i]]) == (if IsStyle(attrs[i]) then [attrs[i]] else []) + KeepStyle([]);
  }

  /** The attribute list at the start of a turn: the kept styles, then the unvisited rest. */
  lemma StripAttributesSplit(attrs: seq<Attr>, i: nat, kept: seq<Attr>)
    requires i < |attrs|
    requires kept == KeepStyle(attrs[..i]) + attrs[i..]
    ensures kept == KeepStyle(attrs[..i]) + [attrs[i]] + attrs[i + 1..]
  {
    assert attrs[i..] == [attrs[i]] + attrs[i + 1..];
  }

  /** A turn on a style attribute leaves the list as it is and keeps the invariant. */
  lemma StripStyleStep(attrs: seq<Attr>, i: nat, kept: seq<Attr>)
    requires i < |attrs| && IsStyle(attrs[i])
    requires kept == KeepStyle(attrs[..i]) + attrs[i..]
    ensures kept == KeepStyle(attrs[..i + 1]) + attrs[i + 1..]
  {
    KeepStyleSnoc(attrs, i);
    StripAttributesSplit(attrs, i, kept);
  }

  /** A turn on any other attribute removes exactly that attribute and keeps the invariant. */
  lemma StripOtherStep(attrs: seq<Attr>, i: nat, kept: seq<Attr>)
    requires DistinctNames(attrs) && i < |attrs| && !IsStyle(attrs[i])
    requires kept == KeepStyle(attrs[..i]) + attrs[i..]
    ensures RemoveAttribute(kept, attrs[i].name) == KeepStyle(attrs[..i + 1]) + attrs[i + 1..]
  {
    var before, after := KeepStyle(attrs[..i]), attrs[i + 1..];
    assert KeepStyle(attrs[..i + 1]) == before by {
      KeepStyleSnoc(attrs, i);
      assert before + [] == before;
    }
    assert kept == before + [attrs[i]] + after by {
      StripAttributesSplit(attrs, i, kept);
    }
    assert forall b :: b in before ==> b.name != attrs[i].name by {
      NamesBefore(attrs, i);
    }
    RemoveAfterOthers(before, attrs[i], after);
  }

  /**
   * The attribute loop on one allowed element: over a snapshot of its
   * attributes, every attribute whose lowercased name is not `style` is
   * removed by name.  The result is exactly the style attributes, in order.
   */
  method StripAttributes(attrs: seq<Attr>) returns (kept: seq<Attr>)
    requires DistinctNames(attrs)
    ensures kept == KeepStyle(attrs)
  {
    kept := attrs;
    assert attrs[..0] == [] && attrs[0..] == attrs;
    for i := 0 to |attrs|
      invariant kept == KeepStyle(attrs[..i]) + attrs[i..]
    {
      if IsStyle(attrs[i]) {
        StripStyleStep(attrs, i, kept);
      } else {
        StripOtherStep(attrs, i, kept);
        kept := RemoveAttribute(kept, attrs[i].name);
      }
    }
    assert attrs[..|attrs|] == attrs;
  }

  // ---------------------------------------------------------------------
  // The tree during the walk
  // ---------------------------------------------------------------------

  /** The tree once the element with identity x carries the attribute list attrs. */
  function SetAttrs(ns: seq<Node>, x: nat, attrs: seq<Attr>): seq<Node>
  {
    if ns == [] then [] else [SetAttrsNode(ns[0], x, attrs)] + SetAttrs(ns[1..], x, attrs)
  }

  function SetAttrsNode(n: Node, x: nat, attrs: seq<Attr>): Node
  {
    match n
    case Element(id, tag, a, children) =>
      Element(id, tag, if id == x then attrs else a, SetAttrs(children, x, attrs))
    case _ => n
  }

  /** The tree once the attribute loop has run on the elements whose identities are in done. */
  function StripIds(ns: seq<Node>, done: set<nat>): seq<Node>
  {
    if ns == [] then [] else [StripIdsNode(ns[0], done)] + StripIds(ns[1..], done)
  }

  function StripIdsNode(n: Node, done: set<nat>): Node
  {
    match n
    case Element(id, tag, a, children) =>
      Element(id, tag, if id in done then KeepStyle(a) else a, StripIds(children, done))
    case _ => n
  }

  /** The walk of StripIds(ns, done), read off the walk of ns. */
  function StripVisits(vs: seq<Visit>, done: set<nat>): (r: seq<Visit>)
    ensures |r| == |vs|
    ensures forall i :: 0 <= i < |vs| ==> r[i] == if vs[i].id in done then Stripped(vs[i]) else vs[i]
  {
    if vs == [] then []
    else [if vs[0].id in done then Stripped(vs[0]) else vs[0]] + StripVisits(vs[1..], done)
  }

  lemma {:induction false} StripVisitsAppend(a: seq<Visit>, b: seq<Visit>, done: set<nat>)
    ensures StripVisits(a + b, done) == StripVisits(a, done) + StripVisits(b, done)
    decreases |a|
  {
    if a == [] {
      assert a + b == b;
    } else {
      assert (a + b)[0] == a[0];
      assert (a + b)[1..] == a[1..] + b;
      StripVisitsAppend(a[1..], b, done);
    }
  }

  lemma {:induction false} WalkStripIds(ns: seq<Node>, done: set<nat>)
    ensures Walk(StripIds(ns, done)) == StripVisits(Walk(ns), done)
    decreases ns
  {
    if ns != [] {
      WalkStripIds(ns[1..], done);
      WalkStripIdsNode(ns[0], done);
      WalkAppend([StripIdsNode(ns[0], done)], StripIds(ns[1..], done));
      StripVisitsAppend(WalkNode(ns[0]), Walk(ns[1..]), done);
    }
  }

  lemma {:induction false} WalkStripIdsNode(n: Node, done: set<nat>)
    ensures Walk([StripIdsNode(n, done)]) == StripVisits(WalkNode(n), done)
    decreases n
  {
    var m := StripIdsNode(n, done);
    assert Walk([m]) == WalkNode(m) + Walk([]);
    match n
    case Element(id, tag, a, children) =>
      WalkStripIds(children, done);
      StripVisitsAppend([Visit(id, tag, a)], Walk(children), done);
    case Text(_) =>
    case Other(_) =>
  }

  lemma {:induction false} StripVisitsFresh(x: nat, vs: seq<Visit>, done: set<nat>)
    requires Fresh(x, vs)
    ensures Fresh(x, StripVisits(vs, done))
  {
    var r := StripVisits(vs, done);
    forall u | u in r ensures u.id != x {
      var i :| 0 <= i < |r| && r[i] == u;
      assert vs[i] in vs;
    }
  }

  lemma {:induction false} StripVisitsDistinct(vs: seq<Visit>, done: set<nat>)
    requires Distinct(vs)
    ensures Distinct(StripVisits(vs, done))
    decreases |vs|
  {
    if vs != [] {
      StripVisitsDistinct(vs[1..], done);
      StripVisitsFresh(vs[0].id, vs[1..], done);
      var r := StripVisits(vs, done);
      assert r[1..] == StripVisits(vs[1..], done);
    }
  }

  /**
   * One step of the walk: when the element x, whose attribute list in the
   * content is a, has not been stripped yet, giving it KeepStyle(a) is the
   * same as adding it to the stripped elements.
   */
  lemma {:induction false} StripStep(ns: seq<Node>, done: set<nat>, x: nat, a: seq<Attr>)
    requires x !in done
    requires forall v :: v in Walk(ns) && v.id == x ==> v.attrs == a
    ensures SetAttrs(StripIds(ns, done), x, KeepStyle(a)) == StripIds(ns, done + {x})
    decreases ns
  {
    if ns != [] {
      StripStep(ns[1..], done, x, a);
      StripStepNode(ns[0], done, x, a);
    }
  }

  lemma {:induction false} StripStepNode(n: Node, done: set<nat>, x: nat, a: seq<Attr>)
    requires x !in done
    requires forall v :: v in WalkNode(n) && v.id == x ==> v.attrs == a
    ensures SetAttrsNode(StripIdsNode(n, done), x, KeepStyle(a)) == StripIdsNode(n, done + {x})
    decreases n
  {
    match n
    case Element(id, tag, attrs, children) =>
      StripStep(children, done, x, a);
      if id == x {
        assert Visit(id, tag, attrs) in WalkNode(n);
      }
    case Text(_) =>
    case Other(_) =>
  }

  /** Stripping attributes does not change what the reference sanitizer makes of the tree. */
  lemma {:induction false} SanitizeStripIds(ns: seq<Node>, done: set<nat>)
    ensures Sanitize(StripIds(ns, done)) == Sanitize(ns)
    decreases ns
  {
    if ns != [] {
      SanitizeStripIds(ns[1..], done);
      SanitizeAppend([StripIdsNode(ns[0], done)], StripIds(ns[1..], done));
      var m := StripIdsNode(ns[0], done);
      assert Sanitize([m]) == SanitizeNode(m) + Sanitize([]);
      match ns[0]
      case Element(id, tag, a, children) =>
        SanitizeStripIds(children, done);
      case Text(_) =>
      case Other(_) =>
    }
  }

  lemma {:induction false} StripNone(ns: seq<Node>)
    ensures StripIds(ns, {}) == ns
    decreases ns
  {
    if ns != [] {
      StripNone(ns[1..]);
      match ns[0]
      case Element(id, tag, a, children) =>
        StripNone(children);
      case Text(_) =>
      case Other(_) =>
    }
  }

  // ---------------------------------------------------------------------
  // Removing an element
  // ---------------------------------------------------------------------

  /** The tree once the element with identity x has been replaced by its children. */
  function Unwrap(ns: seq<Node>, x: nat): seq<Node>
  {
    if ns == [] then [] else UnwrapNode(ns[0], x) + Unwrap(ns[1..], x)
  }

  function UnwrapNode(n: Node, x: nat): seq<Node>
  {
    match n
    case Element(id, tag, attrs, children) =>
      if id == x then Unwrap(children, x) else [Element(id, tag, attrs, Unwrap(children, x))]
    case _ => [n]
  }

  /** The walk without the element whose identity is x. */
  function DropId(vs: seq<Visit>, x: nat): (r: seq<Visit>)
    ensures forall v :: v in r <==> v in vs && v.id != x
  {
    if vs == [] then []
    else (if vs[0].id == x then [] else [vs[0]]) + DropId(vs[1..], x)
  }

  lemma {:induction false} DropIdAppend(a: seq<Visit>, b: seq<Visit>, x: nat)
    ensures DropId(a + b, x) == DropId(a, x) + DropId(b, x)
    decreases |a|
  {
    if a == [] {
      assert a + b == b;
    } else {
      assert (a + b)[0] == a[0];
      assert (a + b)[1..] == a[1..] + b;
      DropIdAppend(a[1..], b, x);
    }
  }

  lemma {:induction false} DropIdDistinct(vs: seq<Visit>, x: nat)
    requires Distinct(vs)
    ensures Distinct(DropId(vs, x))
    decreases |vs|
  {
    if vs != [] {
      DropIdDistinct(vs[1..], x);
      var rest := DropId(vs[1..], x);
      if vs[0].id != x {
        var out := [vs[0]] + rest;
        assert out[0] == vs[0] && out[1..] == rest;
        assert Fresh(vs[0].id, rest);
        assert DropId(vs, x) == out;
      } else {
        assert DropId(vs, x) == rest;
      }
    }
  }

  lemma {:induction false} UnwrapAppend(a: seq<Node>, b: seq<Node>, x: nat)
    ensures Unwrap(a + b, x) == Unwrap(a, x) + Unwrap(b, x)
    decreases |a|
  {
    if a == [] {
      assert a + b == b;
    } else {
      assert (a + b)[0] == a[0];
      assert (a + b)[1..] == a[1..] + b;
      UnwrapAppend(a[1..], b, x);
    }
  }

  /** The elements left after the removal are those before it, in order, without the removed one. */
  lemma {:induction false} WalkUnwrap(ns: seq<Node>, x: nat)
    ensures Walk(Unwrap(ns, x)) == DropId(Walk(ns), x)
    decreases ns
  {
    if ns != [] {
      WalkUnwrap(ns[1..], x);
      WalkUnwrapNode(ns[0], x);
      WalkAppend(UnwrapNode(ns[0], x), Unwrap(ns[1..], x));
      DropIdAppend(WalkNode(ns[0]), Walk(ns[1..]), x);
    }
  }

  lemma {:induction false} WalkUnwrapNode(n: Node, x: nat)
    ensures Walk(UnwrapNode(n, x)) == DropId(WalkNode(n), x)
    decreases n
  {
    match n
    case Element(id, tag, attrs, children) =>
      WalkUnwrap(children, x);
      DropIdAppend([Visit(id, tag, attrs)], Walk(children), x);
      if id != x {
        var e := Element(id, tag, attrs, Unwrap(children, x));
        assert Walk([e]) == WalkNode(e) + Walk([]);
      }
    case Text(_) =>
    case Other(_) =>
  }

  /** Removing an element that is not in the tree changes nothing. */
  lemma {:induction false} UnwrapAbsent(ns: seq<Node>, x: nat)
    requires Fresh(x, Walk(ns))
    ensures Unwrap(ns, x) == ns
    decreases ns
  {
    if ns != [] {
      assert Fresh(x, Walk(ns[1..]));
      UnwrapAbsent(ns[1..], x);
      match ns[0]
      case Element(id, tag, attrs, children) =>
        assert WalkNode(ns[0]) == [Visit(id, tag, attrs)] + Walk(children);
        assert Fresh(x, Walk(children));
        UnwrapAbsent(children, x);
      case Text(_) =>
      case Other(_) =>
    }
  }

  /** Removing a disallowed element does not change what the reference sanitizer makes of the tree. */
  lemma {:induction false} SanitizeUnwrap(ns: seq<Node>, x: nat)
    requires forall v :: v in Walk(ns) && v.id == x ==> !Allowed(v.tag)
    ensures Sanitize(Unwrap(ns, x)) == Sanitize(ns)
    decreases ns
  {
    if ns != [] {
      SanitizeUnwrap(ns[1..], x);
      SanitizeAppend(UnwrapNode(ns[0], x), Unwrap(ns[1..], x));
      match ns[0]
      case Element(id, tag, attrs, children) =>
        assert WalkNode(ns[0]) == [Visit(id, tag, attrs)] + Walk(children);
        SanitizeUnwrap(children, x);
        if id == x {
          assert Visit(id, tag, attrs) in Walk(ns);
        } else {
          var e := Element(id, tag, attrs, Unwrap(children, x));
          assert Sanitize([e]) == SanitizeNode(e) + Sanitize([]);
        }
      case Text(_) =>
        assert Sanitize([ns[0]]) == SanitizeNode(ns[0]) + Sanitize([]);
      case Other(_) =>
        assert Sanitize([ns[0]]) == SanitizeNode(ns[0]) + Sanitize([]);
    }
  }

  /** No text node or comment is lost or reordered by removing an element. */
  lemma {:induction false} LeavesUnwrap(ns: seq<Node>, x: nat)
    ensures Leaves(Unwrap(ns, x)) == Leaves(ns)
    decreases ns
  {
    if ns != [] {
      LeavesUnwrap(ns[1..], x);
      LeavesAppend(UnwrapNode(ns[0], x), Unwrap(ns[1..], x));
      match ns[0]
      case Element(id, tag, attrs, children) =>
        LeavesUnwrap(children, x);
        if id != x {
          var e := Element(id, tag, attrs, Unwrap(children, x));
          assert Leaves([e]) == LeavesNode(e) + Leaves([]);
        }
      case Text(_) =>
        assert Leaves([ns[0]]) == LeavesNode(ns[0]) + Leaves([]);
      case Other(_) =>
        assert Leaves([ns[0]]) == LeavesNode(ns[0]) + Leaves([]);
    }
  }

  /** The walk of a node list, split around position i. */
  lemma WalkSplit(ns: seq<Node>, i: nat)
    requires i < |ns|
    ensures Walk(ns) == Walk(ns[..i]) + WalkNode(ns[i]) + Walk(ns[i + 1..])
  {
    assert ns == ns[..i] + ns[i..];
    WalkAppend(ns[..i], ns[i..]);
    assert ns[i..][0] == ns[i] && ns[i..][1..] == ns[i + 1..];
  }

  /**
   * In a list of distinct elements, the identity of the element at i occurs
   * nowhere else: not before it, not below it, not after it.
   */
  lemma AloneAt(ns: seq<Node>, i: nat)
    requires i < |ns| && ns[i].Element?
    requires Distinct(Walk(ns))
    ensures Fresh(ns[i].id, Walk(ns[..i]))
    ensures Fresh(ns[i].id, Walk(ns[i].children)) && Distinct(Walk(ns[i].children))
    ensures Fresh(ns[i].id, Walk(ns[i + 1..]))
  {
    var x := ns[i].id;
    var before, here, after := Walk(ns[..i]), WalkNode(ns[i]), Walk(ns[i + 1..]);
    WalkSplit(ns, i);
    DistinctAppend(before + here, after);
    DistinctAppend(before, here);
    var v := Visit(x, ns[i].tag, ns[i].attrs);
    assert here == [v] + Walk(ns[i].children);
    assert v in here;
    assert here[1..] == Walk(ns[i].children);
    assert v in before + here;
  }

  /** Below a list of distinct elements, the children of each element are distinct too. */
  lemma ChildrenDistinct(ns: seq<Node>, i: nat)
    requires i < |ns| && ns[i].Element?
    requires Distinct(Walk(ns))
    ensures Distinct(Walk(ns[i].children))
  {
    AloneAt(ns, i);
  }

  /** For distinct elements, removing the one at position i of a list splices its children in at i. */
  lemma UnwrapAt(ns: seq<Node>, i: nat)
    requires i < |ns| && ns[i].Element?
    requires Distinct(Walk(ns))
    ensures Unwrap(ns, ns[i].id) == ns[..i] + ns[i].children + ns[i + 1..]
  {
    var x, before, n, after := ns[i].id, ns[..i], ns[i], ns[i + 1..];
    assert Unwrap(ns, x) == Unwrap(before, x) + Unwrap([n], x) + Unwrap(after, x) by {
      assert ns == before + [n] + after;
      UnwrapAppend(before + [n], after, x);
      UnwrapAppend(before, [n], x);
    }
    assert Unwrap(before, x) == before by {
      AloneAt(ns, i);
      UnwrapAbsent(before, x);
    }
    assert Unwrap(after, x) == after by {
      AloneAt(ns, i);
      UnwrapAbsent(after, x);
    }
    assert Unwrap([n], x) == n.children by {
      AloneAt(ns, i);
      UnwrapAbsent(n.children, x);
      assert Unwrap([n], x) == UnwrapNode(n, x) + Unwrap([], x);
    }
  }

  /**
   * The splicing loop on the parent's child list, with el at index i: while
   * el has a first child, insert that child into the parent before el; then
   * remove el.  The children end up at el's position, in their order.
   */
  method MoveChildrenOut(siblings: seq<Node>, i: nat) returns (r: seq<Node>)
    requires i < |siblings| && siblings[i].Element?
    ensures r == siblings[..i] + siblings[i].children + siblings[i + 1..]
  {
    var kids := siblings[i].children;
    r := siblings;
    var moved := 0;
    assert kids[..0] == [] && kids[0..] == kids;
    assert r == siblings[..i] + kids[..moved] + [siblings[i].(children := kids[moved..])] + siblings[i + 1..];
    while r[i + moved].children != []
      invariant 0 <= moved <= |kids|
      invariant |r| == |siblings| + moved
      invariant r == siblings[..i] + kids[..moved] + [siblings[i].(children := kids[moved..])] + siblings[i + 1..]
      decreases |kids| - moved
    {
      var p := i + moved;
      var el := r[p];
      assert el == siblings[i].(children := kids[moved..]);
      var first := el.children[0];
      r := r[..p] + [first] + [el.(children := el.children[1..])] + r[p + 1..];
      assert kids[..moved + 1] == kids[..moved] + [first];
      assert el.children[1..] == kids[moved + 1..];
      moved := moved + 1;
    }
    assert r[i + moved] == siblings[i].(children := kids[moved..]);
    assert moved == |kids|;
    r := r[..i + moved] + r[i + moved + 1..];
    assert kids[..moved] == kids;
  }

  /**
   * Removing one collected element: find the child list of its parent, then
   * run the splicing loop there.
   */
  method RemoveElement(ns: seq<Node>, x: nat) returns (r: seq<Node>)
    requires Distinct(Walk(ns))
    ensures r == Unwrap(ns, x)
    decreases ns
  {
    var i := 0;
    while i < |ns| && !(ns[i].Element? && ns[i].id == x)
      invariant 0 <= i <= |ns|
      invariant forall j :: 0 <= j < i ==> !(ns[j].Element? && ns[j].id == x)
    {
      i := i + 1;
    }
    if i < |ns| {
      r := MoveChildrenOut(ns, i);
      UnwrapAt(ns, i);
    } else {
      r := [];
      for j := 0 to |ns|
        invariant r == Unwrap(ns[..j], x)
      {
        assert ns[..j + 1] == ns[..j] + [ns[j]];
        UnwrapAppend(ns[..j], [ns[j]], x);
        assert Unwrap([ns[j]], x) == UnwrapNode(ns[j], x) + Unwrap([], x);
        var n := ns[j];
        if n.Element? {
          ChildrenDistinct(ns, j);
          var kids := RemoveElement(n.children, x);
          r := r + [n.(children := kids)];
        } else {
          r := r + [n];
        }
      }
      assert ns[..|ns|] == ns;
    }
  }

  // ---------------------------------------------------------------------
  // sanitizeContent
  // ---------------------------------------------------------------------

  /** In a distinct walk, every other position shows another identity than position k. */
  lemma OthersDiffer(vs: seq<Visit>, k: nat)
    requires Distinct(vs) && k < |vs|
    ensures forall j :: 0 <= j < |vs| && j != k ==> vs[j].id != vs[k].id
  {
    forall j | 0 <= j < |vs| && j != k ensures vs[j].id != vs[k].id {
      if j < k {
        DistinctAt(vs, j, k);
      } else {
        DistinctAt(vs, k, j);
      }
    }
  }

  /** In a distinct walk, the element at k is the only one with its identity. */
  lemma OnlyVisit(vs: seq<Visit>, k: nat)
    requires Distinct(vs) && k < |vs|
    ensures forall v :: v in vs && v.id == vs[k].id ==> v == vs[k]
  {
    OthersDiffer(vs, k);
  }

  /**
   * The state of the walk after k elements: each allowed one among them has
   * been stripped, each disallowed one collected, and nothing else.
   */
  predicate Marked(walk: seq<Visit>, k: nat, done: set<nat>, collected: seq<nat>)
  {
    k <= |walk|
    && (forall j :: 0 <= j < k && Allowed(walk[j].tag) ==> walk[j].id in done)
    && (forall j :: 0 <= j < |walk| && walk[j].id in done ==> j < k)
    && (forall j :: 0 <= j < k && !Allowed(walk[j].tag) ==> walk[j].id in collected)
    && (forall j :: 0 <= j < |walk| && walk[j].id in collected ==> j < k && !Allowed(walk[j].tag))
  }

  /** A walk step on an allowed element: it is stripped, and only it joins the stripped set. */
  lemma MarkAllowed(walk: seq<Visit>, k: nat, done: set<nat>, collected: seq<nat>)
    requires Distinct(walk) && k < |walk| && Marked(walk, k, done, collected)
    requires Allowed(walk[k].tag)
    ensures walk[k].id !in done
    ensures Marked(walk, k + 1, done + {walk[k].id}, collected)
  {
    var x := walk[k].id;
    OthersDiffer(walk, k);
    forall j | 0 <= j < |walk| && walk[j].id in done + {x} ensures j < k + 1 {
      if j != k {
        assert walk[j].id in done;
      }
    }
  }

  /** A walk step on a disallowed element: it is collected, and only it joins the collection. */
  lemma MarkCollected(walk: seq<Visit>, k: nat, done: set<nat>, collected: seq<nat>)
    requires Distinct(walk) && k < |walk| && Marked(walk, k, done, collected)
    requires !Allowed(walk[k].tag)
    ensures Marked(walk, k + 1, done, collected + [walk[k].id])
  {
    var x := walk[k].id;
    OthersDiffer(walk, k);
    forall j | 0 <= j < |walk| && walk[j].id in collected + [x]
      ensures j < k + 1 && !Allowed(walk[j].tag)
    {
      if j != k {
        assert walk[j].id in collected;
      }
    }
  }

  /**
   * When the walk is over, every element is either stripped (allowed) or
   * collected (not allowed), and the collected identities are exactly those
   * of disallowed elements.
   */
  lemma AfterWalk(content: seq<Node>, done: set<nat>, collected: seq<nat>)
    requires Distinct(Walk(content))
    requires Marked(Walk(content), |Walk(content)|, done, collected)
    ensures Distinct(Walk(StripIds(content, done)))
    ensures Sanitize(StripIds(content, done)) == Sanitize(content)
    ensures Removing(StripIds(content, done), collected, 0)
  {
    var walk := Walk(content);
    WalkStripIds(content, done);
    StripVisitsDistinct(walk, done);
    SanitizeStripIds(content, done);
    var after := StripVisits(walk, done);
    forall v | v in after
      ensures Allowed(v.tag) ==> StyleOnly(v.attrs)
      ensures !Allowed(v.tag) ==> v.id in collected[0..]
      ensures v.id in collected ==> !Allowed(v.tag)
    {
      var i :| 0 <= i < |after| && after[i] == v;
      assert v.id == walk[i].id && v.tag == walk[i].tag;
      assert collected[0..] == collected;
    }
  }

  /**
   * The state of the removal pass before collected[r]: allowed elements carry
   * style attributes only, every disallowed element is still to be removed,
   * and every element still to be removed is disallowed.
   */
  predicate Removing(tree: seq<Node>, collected: seq<nat>, r: nat)
    requires r <= |collected|
  {
    && (forall v :: v in Walk(tree) && Allowed(v.tag) ==> StyleOnly(v.attrs))
    && (forall v :: v in Walk(tree) && !Allowed(v.tag) ==> v.id in collected[r..])
    && (forall v :: v in Walk(tree) && v.id in collected ==> !Allowed(v.tag))
  }

  /** Removing collected[r] keeps the state of the removal pass and the reference result. */
  lemma RemoveStep(tree: seq<Node>, collected: seq<nat>, r: nat)
    requires r < |collected|
    requires Distinct(Walk(tree)) && Removing(tree, collected, r)
    ensures Distinct(Walk(Unwrap(tree, collected[r])))
    ensures Removing(Unwrap(tree, collected[r]), collected, r + 1)
    ensures Sanitize(Unwrap(tree, collected[r])) == Sanitize(tree)
  {
    var x := collected[r];
    SanitizeUnwrap(tree, x);
    WalkUnwrap(tree, x);
    DropIdDistinct(Walk(tree), x);
    assert collected[r..] == [x] + collected[r + 1..];
  }

  /**
   * sanitizeContent on the parsed content: the walk strips and collects, the
   * pass over the collected elements splices them out; the result is the
   * reference sanitizer's.
   */
  method SanitizeContent(content: seq<Node>) returns (clean: seq<Node>)
    requires WellFormed(content)
    ensures clean == Sanitize(content)
  {
    var tree := content;
    ghost var walk := Walk(content);
    ghost var done: set<nat> := {};
    var elementsToRemove: seq<nat> := [];
    StripNone(content);
    WalkStripIds(content, done);
    var k := 0;
    while k < |Walk(tree)|
      invariant tree == StripIds(content, done)
      invariant Walk(tree) == StripVisits(walk, done)
      invariant Marked(walk, k, done, elementsToRemove)
    {
      var current := Walk(tree)[k];
      assert current == walk[k];
      if !Allowed(current.tag) {
        MarkCollected(walk, k, done, elementsToRemove);
        elementsToRemove := elementsToRemove + [current.id];
      } else {
        MarkAllowed(walk, k, done, elementsToRemove);
        var kept := StripAttributes(current.attrs);
        OnlyVisit(walk, k);
        StripStep(content, done, current.id, current.attrs);
        tree := SetAttrs(tree, current.id, kept);
        done := done + {current.id};
        WalkStripIds(content, done);
      }
      k := k + 1;
    }
    AfterWalk(content, done, elementsToRemove);

    var r := 0;
    while r < |elementsToRemove|
      invariant 0 <= r <= |elementsToRemove|
      invariant Distinct(Walk(tree))
      invariant Sanitize(tree) == Sanitize(content)
      invariant Removing(tree, elementsToRemove, r)
    {
      RemoveStep(tree, elementsToRemove, r);
      tree := RemoveElement(tree, elementsToRemove[r]);
      r := r + 1;
    }
    CleanFixpoint(tree);
    clean := tree;
  }
}
