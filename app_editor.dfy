/**
 * The editor of app.js: the content element's nodes, the status line and
 * the last text handed to the clipboard.  Input is sanitized in place and
 * a case transformation replaces the content by its converted text, unless
 * the content holds nothing but whitespace.
 */
module AppEditor {
  import opened CharClass
  import opened Markup
  import opened Sanitizer
  import opened DomSanitizer
  import opened CaseConversion
  import opened EditorContent

  const EditingStatus := "Editing..."
  const EmptyStatus := "Add some text first"
  const ConvertedStatus := "Text converted & copied"

  class TextEditor {
    /** whether the page has a content element (`this.textEditor`) */
    var present: bool
    /** the nodes of the content element */
    var content: seq<Node>
    /** the text of the status line */
    var status: string
    /** the text last handed to copyToClipboard */
    var clipboard: string

    constructor(present: bool, content: seq<Node>, status: string)
      ensures this.present == present && this.content == content
      ensures this.status == status && clipboard == ""
    {
      this.present := present;
      this.content := content;
      this.status := status;
      clipboard := "";
    }

    /**
     * handleTextInput: sanitize the content and write it back only when the
     * sanitizer changed something (`rewritten`, after which the cursor is
     * restored); the status then reads "Editing...".
     */
    method HandleTextInput() returns (rewritten: bool)
      requires present && WellFormed(content)
      modifies this
      ensures content == Sanitize(old(content))
      ensures Clean(content) && WellFormed(content)
      ensures TextContent(content) == TextContent(old(content))
      ensures rewritten <==> !Clean(old(content))
      ensures !rewritten ==> content == old(content)
      ensures status == EditingStatus
      ensures present == old(present) && clipboard == old(clipboard)
    {
      var clean := SanitizeContent(content);
      SanitizeIsClean(content);
      SanitizeWellFormed(content);
      TextPreserved(content);
      FixpointIff(content);
      rewritten := clean != content;
      if rewritten {
        content := clean;
      }
      status := EditingStatus;
    }

    /**
     * applyTransformation: without a content element nothing happens; a
     * blank text only sets the status; otherwise the content becomes the
     * converted text, which is also copied, and the status says so.  An
     * unknown transformation converts to the empty string.
     */
    method ApplyTransformation(kind: string, innerText: string)
      modifies this
      ensures present == old(present)
      ensures !present ==> content == old(content) && status == old(status) && clipboard == old(clipboard)
      ensures present && Blank(EditorText(old(content), innerText)) ==>
        content == old(content) && status == EmptyStatus && clipboard == old(clipboard)
      ensures present && !Blank(EditorText(old(content), innerText)) ==>
        var converted := TransformText(kind, EditorText(old(content), innerText));
        content == Escaped(converted) && clipboard == converted && status == ConvertedStatus
    {
      if present {
        var text := EditorText(content, innerText);
        if Blank(text) {
          status := EmptyStatus;
        } else {
          var converted := Convert(kind, text);
          content := Escaped(converted);
          clipboard := converted;
          status := ConvertedStatus;
        }
      }
    }
  }

  /**
   * A known transformation of a text that is not blank is not blank either,
   * so the guard never holds back a converted text from the clipboard and
   * the content.
   */
  lemma ConvertedNotBlank(kind: string, text: string)
    requires kind in TransformKinds && !Blank(text)
    ensures !Blank(TransformText(kind, text))
  {
    var t := TransformText(kind, text);
    TransformChangesCaseOnly(kind, text);
    BlankIff(text);
    BlankIff(t);
    var i :| 0 <= i < |text| && !IsSpace(text[i]);
    assert LowerStr(t)[i] == LowerStr(text)[i];
  }
}
