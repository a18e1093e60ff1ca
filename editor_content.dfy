/**
 * What the editor reads from and writes into its content element when a
 * case transformation runs: the text it takes (`textContent || innerText`),
 * the node list that `innerHTML = escapeHtml(text)` leaves behind, and
 * String.prototype.trim for the blank-content guard.
 */
module EditorContent {
  import opened CharClass
  import opened Markup
  import opened Sanitizer

  /**
   * `textContent || innerText`: the text of the content, or the rendered
   * text when the content holds no text at all.  The rendering is not
   * modelled and arrives as a parameter.
   */
  function EditorText(content: seq<Node>, innerText: string): (text: string)
    ensures TextContent(content) != "" ==> text == TextContent(content)
    ensures TextContent(content) == "" ==> text == innerText
  {
    if TextContent(content) != "" then TextContent(content) else innerText
  }

  /**
   * The character data the HTML parser makes of text written as literal
   * characters: input-stream preprocessing turns CR LF and a lone CR into
   * LF, and a U+0000 in body text is dropped by the tree builder.
   */
  function ParsedText(s: string): (r: string)
    ensures |r| <= |s|
    ensures forall i :: 0 <= i < |r| ==> r[i] != '\r' && r[i] != '\0'
    ensures (forall i :: 0 <= i < |s| ==> s[i] != '\r' && s[i] != '\0') ==> r == s
    decreases |s|
  {
    if s == [] then []
    else if s[0] == '\r' then "\n" + ParsedText(if |s| > 1 && s[1] == '\n' then s[2..] else s[1..])
    else if s[0] == '\0' then ParsedText(s[1..])
    else [s[0]] + ParsedText(s[1..])
  }

  /**
   * The nodes that `innerHTML = escapeHtml(text)` produces: escaping makes
   * every character literal, so the parser yields one text node holding the
   * parsed text, or nothing when that is empty.
   */
  function Escaped(text: string): (ns: seq<Node>)
    ensures TextContent(ns) == ParsedText(text)
    ensures Walk(ns) == [] && Clean(ns) && WellFormed(ns)
    ensures forall n :: n in ns ==> n.Text?
  {
    var t := ParsedText(text);
    if t == "" then [] else [Text(t)]
  }

  /**
   * Writing a text back and reading it again: the next conversion reads the
   * parsed text, which is the text itself when it holds no CR and no U+0000.
   */
  lemma EscapedReadsBack(text: string, innerText: string)
    ensures ParsedText(text) != "" ==> EditorText(Escaped(text), innerText) == ParsedText(text)
    ensures ParsedText(text) == "" ==> EditorText(Escaped(text), innerText) == innerText
    ensures ParsedText(ParsedText(text)) == ParsedText(text)
  {
  }

  /** The leading part of String.prototype.trim: drop `\s` from the front. */
  function TrimStart(s: string): (r: string)
    ensures |r| <= |s| && r == s[|s| - |r|..]
    ensures forall i :: 0 <= i < |s| - |r| ==> IsSpace(s[i])
    ensures r != [] ==> !IsSpace(r[0])
  {
    if s != [] && IsSpace(s[0]) then TrimStart(s[1..]) else s
  }

  /** The trailing part of String.prototype.trim: drop `\s` from the back. */
  function TrimEnd(s: string): (r: string)
    ensures |r| <= |s| && r == s[..|r|]
    ensures forall i :: |r| <= i < |s| ==> IsSpace(s[i])
    ensures r != [] ==> !IsSpace(r[|r| - 1])
  {
    if s != [] && IsSpace(s[|s| - 1]) then TrimEnd(s[..|s| - 1]) else s
  }

  /** String.prototype.trim */
  function Trim(s: string): string
  {
    TrimEnd(TrimStart(s))
  }

  /** `!content.trim()`: the trimmed text is the empty string. */
  predicate Blank(s: string)
  {
    Trim(s) == ""
  }

  /** A text is blank exactly when every character of it is `\s`; in particular "" is blank. */
  lemma BlankIff(s: string)
    ensures Blank(s) <==> forall i :: 0 <= i < |s| ==> IsSpace(s[i])
  {
    var t := TrimStart(s);
    assert t != [] ==> t[0] == s[|s| - |t|];
    assert t != [] ==> !IsSpace(t[0]);
  }

  /** Trimming keeps a middle part of the text whose ends are not `\s`. */
  lemma TrimIsInfix(s: string)
    ensures exists a, b :: 0 <= a <= b <= |s| && Trim(s) == s[a..b]
    ensures Trim(s) != [] ==> !IsSpace(Trim(s)[0]) && !IsSpace(Trim(s)[|Trim(s)| - 1])
  {
    var t := TrimStart(s);
    var r := TrimEnd(t);
    var a := |s| - |t|;
    assert r == s[a..a + |r|] by {
      forall i | 0 <= i < |r| ensures r[i] == s[a + i] {
        assert r[i] == t[i] == s[a + i];
      }
    }
    assert r != [] ==> r[0] == t[0];
  }
}
