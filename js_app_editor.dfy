/**
 * The editor of js/app.js: the same sanitizer and conversions as app.js,
 * but without a status line and without the blank-content guard, so a
 * transformation always rewrites the content.
 */
module JsAppEditor {
  import opened CharClass
  import opened Markup
  import opened Sanitizer
  import opened DomSanitizer
  import opened CaseConversion
  import opened EditorContent

  class TextEditor {
    /** whether the page has a content element (`this.textEditor`) */
    var present: bool
    /** the nodes of the content element */
    var content: seq<Node>
    /** the text last handed to copyToClipboard */
    var clipboard: string

    constructor(present: bool, content: seq<Node>)
      ensures this.present == present && this.content == content && clipboard == ""
    {
      this.present := present;
      this.content := content;
      clipboard := "";
    }

    /**
     * handleTextInput: sanitize the content and write it back only when the
     * sanitizer changed something (`rewritten`, after which the cursor is
     * restored).
     */
    method HandleTextInput() returns (rewritten: bool)
      requires present && WellFormed(content)
      modifies this
      ensures content == Sanitize(old(content))
      ensures Clean(content) && WellFormed(content)
      ensures TextContent(content) == TextContent(old(content))
      ensures rewritten <==> !Clean(old(content))
      ensures !rewritten ==> content == old(content)
      ensures present == old(present) && clipboard == old(clipboard)
    {
      var clean := SanitizeContent(content);
      SanitizeIsClean(content);
      SanitizeWellFormed(content);
      TextPreserved(content);
      FixpointIff(content);
      rewritten := clean != content;
      if rewritten {
        content := clean;
      }
    }

    /**
     * applyTransformation: without a content element nothing happens;
     * otherwise the content becomes the converted text, blank or not, and
     * the converted text is copied.
     */
    method ApplyTransformation(kind: string, innerText: string)
      modifies this
      ensures present == old(present)
      ensures !present ==> content == old(content) && clipboard == old(clipboard)
      ensures present ==>
        var converted := TransformText(kind, EditorText(old(content), innerText));
        content == Escaped(converted) && clipboard == converted
    {
      if present {
        var text := EditorText(content, innerText);
        var converted := Convert(kind, text);
        content := Escaped(converted);
        clipboard := converted;
      }
    }
  }

  /**
   * Without the guard a blank text is converted too, and every known kind
   * gives it back unchanged: the content becomes the parsed form of the same
   * whitespace (a CR reads back as LF), or nothing when the text is empty.
   */
  lemma BlankConvertsToItself(kind: string, text: string)
    requires kind in TransformKinds
    ensures Blank(text) ==> TransformText(kind, text) == text
  {
    if Blank(text) {
      TransformChangesCaseOnly(kind, text);
      BlankIff(text);
      SpacesUpToCase(TransformText(kind, text), text);
    }
  }

  /** An unknown kind converts any text, blank or not, to the empty text, and so empties the content. */
  lemma UnknownKindEmpties(kind: string, content: seq<Node>, innerText: string)
    requires kind !in TransformKinds
    ensures Escaped(TransformText(kind, EditorText(content, innerText))) == []
  {
    TransformChangesCaseOnly(kind, EditorText(content, innerText));
  }
}
