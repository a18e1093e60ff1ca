/**
 * The allow-list sanitizer of the editor, as a reference function on the
 * parsed tree: an element whose lowercased tag is allowed stays, keeping only
 * its `style` attributes; any other element is replaced by its (sanitized)
 * children; text and other non-element nodes are never touched.
 */
module Sanitizer {
  import opened CharClass
  import opened Markup

  /** The tags the editor keeps, compared with the lowercased tagName. */
  const AllowedTags: seq<string> := ["b", "strong", "i", "em", "u", "s", "strike", "br", "div", "span"]

  /**
   * toLowerCase on one character of a name, as far as it can matter for an
   * ASCII allow-list: ASCII letters, and KELVIN SIGN (U+212A), the one
   * character outside ASCII whose lowercase is ASCII (`k`).
   */
  function NameLower(c: char): (r: char)
    ensures c == '\U{212A}' ==> r == 'k'
    ensures c != '\U{212A}' ==> r == Lower(c)
  {
    if c == '\U{212A}' then 'k' else Lower(c)
  }

  /** toLowerCase on a tag or attribute name. */
  function LowerName(s: string): (r: string)
    ensures |r| == |s|
    ensures forall i :: 0 <= i < |s| ==> r[i] == NameLower(s[i])
  {
    if s == [] then [] else [NameLower(s[0])] + LowerName(s[1..])
  }

  predicate Allowed(tag: string)
  {
    LowerName(tag) in AllowedTags
  }

  /** The one attribute an allowed element keeps, compared with the lowercased name. */
  predicate IsStyle(a: Attr)
  {
    LowerName(a.name) == "style"
  }

  predicate StyleOnly(attrs: seq<Attr>)
  {
    forall a :: a in attrs ==> IsStyle(a)
  }

  /** What the attribute loop leaves on an allowed element: its style attributes, in their order. */
  function KeepStyle(attrs: seq<Attr>): (kept: seq<Attr>)
    ensures forall a :: a in kept <==> a in attrs && IsStyle(a)
    ensures StyleOnly(attrs) ==> kept == attrs
    ensures |kept| <= |attrs|
  {
    if attrs == [] then []
    else (if IsStyle(attrs[0]) then [attrs[0]] else []) + KeepStyle(attrs[1..])
  }

  /** The reference sanitizer on a list of sibling nodes. */
  function Sanitize(ns: seq<Node>): seq<Node>
  {
    if ns == [] then [] else SanitizeNode(ns[0]) + Sanitize(ns[1..])
  }

  function SanitizeNode(n: Node): seq<Node>
  {
    match n
    case Element(id, tag, attrs, children) =>
      if Allowed(tag) then [Element(id, tag, KeepStyle(attrs), Sanitize(children))]
      else Sanitize(children)
    case _ => [n]
  }

  /** What the walker sees of a kept element once its attributes are stripped. */
  function Stripped(v: Visit): Visit
  {
    Visit(v.id, v.tag, KeepStyle(v.attrs))
  }

  /** The walk of the sanitized tree: the allowed elements of the walk, in order, stripped. */
  function SanitizeVisits(vs: seq<Visit>): (kept: seq<Visit>)
    ensures forall u :: u in kept ==> Allowed(u.tag) && StyleOnly(u.attrs)
  {
    if vs == [] then []
    else (if Allowed(vs[0].tag) then [Stripped(vs[0])] else []) + SanitizeVisits(vs[1..])
  }

  /** The tree holds only allowed elements, each with only style attributes. */
  predicate Clean(ns: seq<Node>)
  {
    forall v :: v in Walk(ns) ==> Allowed(v.tag) && StyleOnly(v.attrs)
  }

  // ---------------------------------------------------------------------
  // Structure
  // ---------------------------------------------------------------------

  lemma {:induction false} SanitizeAppend(a: seq<Node>, b: seq<Node>)
    ensures Sanitize(a + b) == Sanitize(a) + Sanitize(b)
    decreases |a|
  {
    if a == [] {
      assert a + b == b;
    } else {
      assert (a + b)[0] == a[0];
      assert (a + b)[1..] == a[1..] + b;
      SanitizeAppend(a[1..], b);
    }
  }

  lemma {:induction false} SanitizeVisitsAppend(a: seq<Visit>, b: seq<Visit>)
    ensures SanitizeVisits(a + b) == SanitizeVisits(a) + SanitizeVisits(b)
    decreases |a|
  {
    if a == [] {
      assert a + b == b;
    } else {
      assert (a + b)[0] == a[0];
      assert (a + b)[1..] == a[1..] + b;
      SanitizeVisitsAppend(a[1..], b);
    }
  }

  /**
   * The elements left by sanitizing are exactly the allowed elements of the
   * input, in document order, each reduced to its style attributes.
   */
  lemma {:induction false} WalkSanitize(ns: seq<Node>)
    ensures Walk(Sanitize(ns)) == SanitizeVisits(Walk(ns))
    decreases ns
  {
    if ns != [] {
      WalkSanitize(ns[1..]);
      WalkSanitizeNode(ns[0]);
      WalkAppend(SanitizeNode(ns[0]), Sanitize(ns[1..]));
      SanitizeVisitsAppend(WalkNode(ns[0]), Walk(ns[1..]));
    }
  }

  lemma {:induction false} WalkSanitizeNode(n: Node)
    ensures Walk(SanitizeNode(n)) == SanitizeVisits(WalkNode(n))
    decreases n
  {
    match n
    case Element(id, tag, attrs, children) =>
      WalkSanitize(children);
      SanitizeVisitsAppend([Visit(id, tag, attrs)], Walk(children));
      if Allowed(tag) {
        var e := Element(id, tag, KeepStyle(attrs), Sanitize(children));
        assert Walk([e]) == WalkNode(e) + Walk([]);
      }
    case Text(_) =>
    case Other(_) =>
  }

  // ---------------------------------------------------------------------
  // Properties
  // ---------------------------------------------------------------------

  /** Every element left is allowed and keeps only its style attributes. */
  lemma SanitizeIsClean(ns: seq<Node>)
    ensures Clean(Sanitize(ns))
  {
    WalkSanitize(ns);
  }

  /** Content that is already clean is left exactly as it is. */
  lemma {:induction false} CleanFixpoint(ns: seq<Node>)
    requires Clean(ns)
    ensures Sanitize(ns) == ns
    decreases ns
  {
    if ns != [] {
      assert Clean(ns[1..]);
      CleanFixpoint(ns[1..]);
      match ns[0]
      case Element(id, tag, attrs, children) =>
        assert WalkNode(ns[0]) == [Visit(id, tag, attrs)] + Walk(children);
        assert Clean(children);
        CleanFixpoint(children);
        assert Visit(id, tag, attrs) in Walk(ns);
      case Text(_) =>
      case Other(_) =>
    }
  }

  /**
   * Sanitizing leaves content unchanged exactly when it is clean, so the
   * editor rewrites its content exactly when the content is not clean.
   */
  lemma FixpointIff(ns: seq<Node>)
    ensures Sanitize(ns) == ns <==> Clean(ns)
  {
    if Clean(ns) {
      CleanFixpoint(ns);
    } else {
      SanitizeIsClean(ns);
    }
  }

  /** Sanitizing the output again changes nothing. */
  lemma SanitizeIdempotent(ns: seq<Node>)
    ensures Sanitize(Sanitize(ns)) == Sanitize(ns)
  {
    SanitizeIsClean(ns);
    CleanFixpoint(Sanitize(ns));
  }

  /**
   * No text node or other non-element node is dropped, altered or reordered:
   * the leaves of the output are the leaves of the input.
   */
  lemma {:induction false} LeavesPreserved(ns: seq<Node>)
    ensures Leaves(Sanitize(ns)) == Leaves(ns)
    decreases ns
  {
    if ns != [] {
      LeavesPreserved(ns[1..]);
      LeavesAppend(SanitizeNode(ns[0]), Sanitize(ns[1..]));
      match ns[0]
      case Element(id, tag, attrs, children) =>
        LeavesPreserved(children);
        if Allowed(tag) {
          var e := Element(id, tag, KeepStyle(attrs), Sanitize(children));
          assert Leaves([e]) == LeavesNode(e) + Leaves([]);
        }
      case Text(_) =>
        assert Leaves([ns[0]]) == LeavesNode(ns[0]) + Leaves([]);
      case Other(_) =>
        assert Leaves([ns[0]]) == LeavesNode(ns[0]) + Leaves([]);
    }
  }

  /** The concatenated text of the content is unchanged. */
  lemma TextPreserved(ns: seq<Node>)
    ensures TextContent(Sanitize(ns)) == TextContent(ns)
  {
    LeavesPreserved(ns);
    TextContentOfLeaves(ns);
    TextContentOfLeaves(Sanitize(ns));
  }

  lemma {:induction false} KeepStyleNames(attrs: seq<Attr>)
    requires DistinctNames(attrs)
    ensures DistinctNames(KeepStyle(attrs))
    decreases |attrs|
  {
    if attrs != [] {
      KeepStyleNames(attrs[1..]);
      var rest := KeepStyle(attrs[1..]);
      if IsStyle(attrs[0]) {
        var kept := [attrs[0]] + rest;
        forall i, j | 0 <= i < j < |kept| ensures kept[i].name != kept[j].name {
          if i == 0 {
            assert kept[j] in attrs[1..];
          }
        }
      }
    }
  }

  lemma {:induction false} SanitizeVisitsFresh(x: nat, vs: seq<Visit>)
    requires Fresh(x, vs)
    ensures Fresh(x, SanitizeVisits(vs))
    decreases |vs|
  {
    if vs != [] {
      assert Fresh(x, vs[1..]);
      SanitizeVisitsFresh(x, vs[1..]);
    }
  }

  lemma {:induction false} SanitizeVisitsDistinct(vs: seq<Visit>)
    requires Distinct(vs)
    ensures Distinct(SanitizeVisits(vs))
    decreases |vs|
  {
    if vs != [] {
      SanitizeVisitsDistinct(vs[1..]);
      var rest := SanitizeVisits(vs[1..]);
      if Allowed(vs[0].tag) {
        SanitizeVisitsFresh(vs[0].id, vs[1..]);
        var out := [Stripped(vs[0])] + rest;
        assert out[0].id == vs[0].id && out[1..] == rest;
        assert SanitizeVisits(vs) == out;
      } else {
        assert SanitizeVisits(vs) == rest;
      }
    }
  }

  lemma {:induction false} SanitizeVisitsNames(vs: seq<Visit>)
    requires forall v :: v in vs ==> DistinctNames(v.attrs)
    ensures forall u :: u in SanitizeVisits(vs) ==> DistinctNames(u.attrs)
    decreases |vs|
  {
    if vs != [] {
      SanitizeVisitsNames(vs[1..]);
      KeepStyleNames(vs[0].attrs);
    }
  }

  /** The output is again content the DOM can hold, so it can be sanitized once more. */
  lemma SanitizeWellFormed(ns: seq<Node>)
    requires WellFormed(ns)
    ensures WellFormed(Sanitize(ns))
  {
    WalkSanitize(ns);
    SanitizeVisitsDistinct(Walk(ns));
    SanitizeVisitsNames(Walk(ns));
  }

  // ---------------------------------------------------------------------
  // Examples
  // ---------------------------------------------------------------------

  /**
   * The tag and attribute-name checks ignore case: writing a name in upper or
   * lower case does not change whether it passes.
   */
  lemma ChecksIgnoreCase(tag: string, a: Attr)
    ensures Allowed(UpperStr(tag)) == Allowed(tag) && Allowed(LowerStr(tag)) == Allowed(tag)
    ensures IsStyle(a.(name := UpperStr(a.name))) == IsStyle(a)
    ensures IsStyle(a.(name := LowerStr(a.name))) == IsStyle(a)
  {
    NameLowerIgnoresCase(tag);
    NameLowerIgnoresCase(a.name);
  }

  /** Lowering a name after writing it in upper or lower case gives its plain lowercase. */
  lemma {:induction false} NameLowerIgnoresCase(s: string)
    ensures LowerName(UpperStr(s)) == LowerName(s)
    ensures LowerName(LowerStr(s)) == LowerName(s)
  {
    assert forall i :: 0 <= i < |s| ==> LowerName(UpperStr(s))[i] == LowerName(s)[i];
    forall i | 0 <= i < |s| ensures LowerName(LowerStr(s))[i] == LowerName(s)[i] {
      UpperOfLower(s[i]);
    }
  }

  /** `DIV` is kept and a `STYLE` attribute counts as `style`. */
  lemma UpperCaseNamesExample()
    ensures Allowed("DIV")
    ensures IsStyle(Attr("STYLE", "color:red"))
  {
    assert LowerName("DIV") == AllowedTags[8];
  }

  /** A KELVIN SIGN in place of `k` still spells `strike`, so `STRI\U{212A}E` is kept. */
  lemma KelvinSignExample()
    ensures Allowed("STRI\U{212A}E")
    ensures !Allowed("STRI\U{212B}E")
  {
    assert LowerName("STRI\U{212A}E") == AllowedTags[6];
  }

  /** `script` is not kept, and neither is an `onclick` attribute. */
  lemma DisallowedNamesExample()
    ensures !Allowed("script")
    ensures !IsStyle(Attr("onclick", "x()"))
  {
  }

  /** A disallowed element is replaced by its children, here a single text node before a sibling. */
  lemma DisallowedExample(x: nat, tag: string, attrs: seq<Attr>, t: string, u: string)
    requires !Allowed(tag)
    ensures Sanitize([Element(x, tag, attrs, [Text(t)]), Text(u)]) == [Text(t), Text(u)]
  {
    assert Sanitize([Text(t)]) == [Text(t)] + Sanitize([]);
    assert Sanitize([Text(u)]) == [Text(u)] + Sanitize([]);
  }

  /** A script element goes and its text stays. */
  lemma ScriptExample()
    ensures Sanitize([Element(1, "script", [], [Text("alert(1)")]), Text("hello")])
         == [Text("alert(1)"), Text("hello")]
  {
    DisallowedNamesExample();
    DisallowedExample(1, "script", [], "alert(1)", "hello");
  }

  /** An allowed element stays, with its style attributes only. */
  lemma AllowedExample(x: nat, tag: string, attrs: seq<Attr>, t: string)
    requires Allowed(tag)
    ensures Sanitize([Element(x, tag, attrs, [Text(t)])]) == [Element(x, tag, KeepStyle(attrs), [Text(t)])]
  {
    var e := Element(x, tag, attrs, [Text(t)]);
    assert Sanitize([Text(t)]) == [Text(t)] + Sanitize([]);
    assert Sanitize([Text(t)]) == [Text(t)];
    assert SanitizeNode(e) == [Element(x, tag, KeepStyle(attrs), Sanitize([Text(t)]))];
    assert Sanitize([e]) == SanitizeNode(e) + Sanitize([]);
  }

  /** Of a `STYLE` and an `onclick` attribute, the loop keeps the first only. */
  lemma KeepStyleExample()
    ensures KeepStyle([Attr("STYLE", "color:red"), Attr("onclick", "x()")]) == [Attr("STYLE", "color:red")]
  {
    var attrs := [Attr("STYLE", "color:red"), Attr("onclick", "x()")];
    UpperCaseNamesExample();
    DisallowedNamesExample();
    assert attrs[1..] == [attrs[1]];
    assert KeepStyle(attrs[1..]) == [] + KeepStyle([]);
  }

  /** An upper-case `DIV` with a `STYLE` and an `onclick` attribute keeps the first attribute only. */
  lemma CaseInsensitiveExample()
    ensures Sanitize([Element(1, "DIV", [Attr("STYLE", "color:red"), Attr("onclick", "x()")], [Text("a")])])
         == [Element(1, "DIV", [Attr("STYLE", "color:red")], [Text("a")])]
  {
    UpperCaseNamesExample();
    KeepStyleExample();
    AllowedExample(1, "DIV", [Attr("STYLE", "color:red"), Attr("onclick", "x()")], "a");
  }

  /**
   * A disallowed element inside a disallowed element: both go, and the text
   * and the comment they held stay, in order.
   */
  lemma NestedExample(x: nat, outer: string, y: nat, inner: string, a: seq<Attr>, b: seq<Attr>,
                      t: string, c: string, u: string)
    requires !Allowed(outer) && !Allowed(inner)
    ensures Sanitize([Element(x, outer, a, [Element(y, inner, b, [Text(t)]), Other(c), Text(u)])])
         == [Text(t), Other(c), Text(u)]
  {
    var kids := [Element(y, inner, b, [Text(t)]), Other(c), Text(u)];
    assert Sanitize([Text(t)]) == [Text(t)] + Sanitize([]);
    assert kids[1..] == [Other(c), Text(u)];
    assert kids[1..][1..] == [Text(u)];
    assert Sanitize([Text(u)]) == [Text(u)] + Sanitize([]);
    assert Sanitize(kids[1..]) == [Other(c)] + Sanitize([Text(u)]);
    assert SanitizeNode(kids[0]) == [Text(t)];
    assert Sanitize(kids) == SanitizeNode(kids[0]) + Sanitize(kids[1..]);
    var e := Element(x, outer, a, kids);
    assert Sanitize([e]) == SanitizeNode(e) + Sanitize([]);
  }
}
