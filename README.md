# Text formatter widget: sanitizer and case conversions

This project models the logic at the centre of a browser text-formatting widget. The widget appears twice, as `app.js` and `js/app.js`; the two copies differ in their editor handlers.

The widget has a content-editable editor. Whatever the user types or pastes there goes through an allow-list sanitizer (`sanitizeContent`):

- a tree walk over every element collects each element whose lowercased tag is not one of `b strong i em u s strike br div span`;
- on each element it keeps, the walk removes every attribute whose lowercased name is not `style`;
- a second pass then splices each collected element out of its parent: its children move in front of it, in order, and the element itself is removed.

Four buttons convert the editor's text:

- `uppercase` and `lowercase`;
- `sentence`: lowercase everything, then uppercase the first word character after leading whitespace, and the first word character after each `.`, `!` or `?` plus optional whitespace;
- `capitalize`: lowercase everything, then uppercase the first character of every word.

The converted text replaces the content and is copied to the clipboard. In `app.js`, text that is empty or only whitespace is refused, with the status "Add some text first". `js/app.js` has no such guard.

Modules:

- `CharClass` (`chars.dfy`): the regular-expression classes `\w` and `\s`, the class `[.!?]`, and ASCII case mapping.
- `CaseConversion` (`case_conversion.dfy`):
  - sentence case and title case, each a left-to-right model of a global regular-expression replace on the lowercased text;
  - a per-character description of each, with the lemmas that connect the two;
  - the `switch` over the transformation kinds.
- `Markup` (`markup.dfy`): the parsed content as a tree of text, other and element nodes. Every element has an identity. The file also defines the walker's pre-order element walk, the text content, and what it means for a tree to be one the DOM can hold.
- `Sanitizer` (`sanitizer.dfy`): the reference sanitizer as a recursive function, with its properties:
  - allowed tags only and style attributes only;
  - leaves and text preserved;
  - idempotence;
  - case-insensitive checks.
- `DomSanitizer` (`dom_sanitizer.dfy`): `sanitizeContent` as the source runs it. The walk loop strips and collects, the attribute loop removes by name, and the splice loop moves children out. It is proved equal to the reference function.
- `EditorContent` (`editor_content.dfy`): the text a conversion reads (`textContent || innerText`), the nodes that writing escaped text back produces, and `String.prototype.trim`.
- `AppEditor` (`app_editor.dfy`) and `JsAppEditor` (`js_app_editor.dfy`): the editor object of each file, with `handleTextInput` and `applyTransformation` as methods that update its fields.

## Model

| member | source | states |
|---|---|---|
| CharClass.LowerStr | app.js:244 | toLowerCase keeps the length and lowercases every character, ASCII letters only |
| CharClass.UpperStr | app.js:153 | toUpperCase keeps the length and uppercases every character, ASCII letters only |
| CharClass.LowerOfUpperStr | app.js:153-156 | lowercasing after uppercasing gives the plain lowercase |
| CharClass.LowerOfLower | app.js:156 | lowercasing twice is lowercasing once |
| CharClass.SpacesUpToCase | app.js:144 | a whitespace string is the only string of its length with its lowercase, so case mapping leaves it unchanged |
| CaseConversion.SkipSpaces | app.js:244 | `\s*` consumes a maximal run of whitespace: everything skipped is `\s`, and the stop is the end or a non-`\s` |
| CaseConversion.SentenceMatchAt | app.js:244 | length of the match of `(^\s*\w\|[.!?]\s*\w)` at a position, zero when there is none; a match ends in a word character |
| CaseConversion.SentenceReplace | app.js:244-246 | the global replace keeps the length of the text |
| CaseConversion.SentencePendingMeaning | app.js:244 | "a sentence is pending at i" holds exactly when only whitespace lies between i and the start of the text or the last `.`, `!`, `?` |
| CaseConversion.SentenceReplaceAt | app.js:244-246 | from a scan position where no skipped match can still be open, each character of the replace is uppercased exactly when it starts a sentence |
| CaseConversion.ToSentenceCase | app.js:243-247 | sentence case keeps the length of the text (the same code stands at js/app.js:179-183) |
| CaseConversion.SentenceCaseMeaning | app.js:243-247 | each character is uppercased if it is a word character at the start of the text (after leading whitespace) or after `.`/`!`/`?` plus whitespace, and lowercased otherwise (the same code stands at js/app.js:179-183) |
| CaseConversion.SentenceCaseIgnoresInputCase | js/app.js:179-183 | sentence case of the lowercased or uppercased text equals sentence case of the text |
| CaseConversion.SentenceCaseIdempotent | js/app.js:179-183 | applying sentence case twice equals applying it once |
| CaseConversion.SentenceCaseExample | app.js:244 | `x.y` becomes `X.Y`: a stop starts a sentence even without a space after it |
| CaseConversion.SentenceCaseLeadingSpaceExample | app.js:244 | ` x` becomes ` X`: `^\s*\w` skips leading whitespace |
| CaseConversion.SentenceCaseQuoteExample | app.js:244 | a leading quotation mark blocks the capital: `"a" b` is unchanged |
| CaseConversion.SentenceCaseQuoteAfterStopExample | app.js:244 | a quotation mark after a stop blocks the capital too: `a."b` becomes `A."b` |
| CaseConversion.TitleReplace | app.js:253-255 | the global replace of `\b\w` keeps the length of the text |
| CaseConversion.TitleReplaceAt | app.js:253-255 | each character of the replace is uppercased exactly when it is a word character starting a maximal word run |
| CaseConversion.ToTitleCase | app.js:252-256 | title case keeps the length of the text (the same code stands at js/app.js:188-192) |
| CaseConversion.TitleCaseMeaning | app.js:252-256 | each character is uppercased if it is a word character at index 0 or after a non-word character, and lowercased otherwise (the same code stands at js/app.js:188-192) |
| CaseConversion.TitleCaseIgnoresInputCase | js/app.js:188-192 | title case of the lowercased or uppercased text equals title case of the text |
| CaseConversion.TitleCaseIdempotent | js/app.js:188-192 | applying title case twice equals applying it once |
| CaseConversion.TitleCaseExample | app.js:253 | `aB cD` becomes `Ab Cd` |
| CaseConversion.TitleCaseApostropheExample | app.js:253 | an apostrophe is a word boundary: `don't` becomes `Don'T` |
| CaseConversion.TransformText | app.js:149-164 | the switch as a function of the kind and the text; its meaning is stated by `TransformChangesCaseOnly` and `Convert` (the same code stands at js/app.js:119-134) |
| CaseConversion.TransformChangesCaseOnly | app.js:149-164 | each of the four known kinds keeps the length and changes only the case of letters; any other kind yields the empty text (the same code stands at js/app.js:119-134) |
| CaseConversion.Convert | app.js:149-164 | the switch statement assigns exactly the conversion of the kind, and the empty text for any other kind (the same code stands at js/app.js:119-134) |
| CaseConversion.UpperThenLower | app.js:151-158 | converting to lowercase after uppercase equals converting to lowercase directly |
| CaseConversion.CaseOnly | app.js:243-256 | a text that agrees with another up to case at every position lowercases to the same text |
| Markup.Walk | app.js:356-366 | the elements in the order the walker's `nextNode` visits them, pre-order; `WalkAppend` and `DistinctAt` state its properties |
| Markup.TextContent | app.js:143 | textContent, the text of all text nodes in document order; `TextContentOfLeaves` states it |
| Markup.WalkAppend | app.js:356-366 | the element walk of two sibling lists is the walk of the first followed by the walk of the second |
| Markup.TextContentOfLeaves | app.js:143 | textContent is the text of the text leaves read in document order |
| Markup.DistinctAppend | app.js:363-368 | identities are distinct across two lists exactly when each list is distinct and no identity is in both |
| Markup.DistinctAt | app.js:363-368 | in a walk with distinct identities, two different positions show different elements |
| Sanitizer.LowerName | app.js:367 | toLowerCase on a tag or attribute name keeps its length and lowercases each character, ASCII letters and the KELVIN SIGN, which lowers to `k` |
| Sanitizer.Sanitize | app.js:350-390 | the reference sanitizer on a sibling list; `SanitizeIsClean`, `LeavesPreserved`, `FixpointIff` and `SanitizeIdempotent` state what it does, and `DomSanitizer.SanitizeContent` ties the loops to it (the same code stands at js/app.js:277-317) |
| Sanitizer.SanitizeNode | app.js:366-387 | one node of the reference sanitizer: an allowed element keeps its tag and only its style attributes, a disallowed one is replaced by its sanitized children; `DisallowedExample` and `AllowedExample` state both cases |
| Sanitizer.KeepStyle | app.js:371-376 | an attribute is kept exactly when it was there and its lowercased name is `style`; style-only lists are kept whole |
| Sanitizer.SanitizeVisits | app.js:366-377 | every element the sanitized walk shows has an allowed tag and style attributes only |
| Sanitizer.SanitizeAppend | app.js:381-387 | sanitizing siblings one list after another equals sanitizing them together |
| Sanitizer.WalkSanitize | app.js:366-387 | the walk of the sanitized tree is the original walk without the disallowed elements and with attributes stripped |
| Sanitizer.SanitizeIsClean | app.js:351-387 | after sanitizing, every element has an allowed tag and only style attributes |
| Sanitizer.CleanFixpoint | app.js:112-118 | a clean tree is left exactly as it is |
| Sanitizer.FixpointIff | app.js:112-118 | the sanitizer changes a tree exactly when the tree is not clean (the same code stands at js/app.js:89-95) |
| Sanitizer.SanitizeIdempotent | js/app.js:277-317 | sanitizing the output again changes nothing |
| Sanitizer.LeavesPreserved | app.js:356-387 | the text and other nodes, in document order, are the same before and after |
| Sanitizer.TextPreserved | js/app.js:308-314 | the concatenated text of the content is unchanged |
| Sanitizer.SanitizeWellFormed | app.js:381-387 | a tree with distinct elements and distinct attribute names keeps both properties |
| Sanitizer.ChecksIgnoreCase | app.js:367-373 | the tag test and the `style` test give the same answer on the uppercased and lowercased names |
| Sanitizer.NameLowerIgnoresCase | app.js:367 | lowering a name after upper- or lowercasing it gives the name's plain lowercase |
| Sanitizer.UpperCaseNamesExample | app.js:367-373 | `DIV` is allowed and a `STYLE` attribute is kept |
| Sanitizer.KelvinSignExample | app.js:367 | `STRI` KELVIN SIGN `E` lowercases to `strike` and is allowed; with ANGSTROM SIGN in that place it is not |
| Sanitizer.DisallowedNamesExample | app.js:351-373 | `script` is not allowed and `onclick` is not kept |
| Sanitizer.DisallowedExample | app.js:381-387 | a disallowed element is replaced by its children in place |
| Sanitizer.ScriptExample | app.js:381-387 | a `script` element with text and a following text node become the two text nodes |
| Sanitizer.AllowedExample | app.js:369-377 | an allowed element keeps its tag and children and only its style attributes |
| Sanitizer.KeepStyleExample | app.js:371-376 | of `STYLE` and `onclick`, only `STYLE` is kept |
| Sanitizer.CaseInsensitiveExample | app.js:367-373 | an uppercase `DIV` with `STYLE` and `onclick` keeps its `STYLE` only |
| Sanitizer.NestedExample | js/app.js:290-314 | a disallowed element nested in a disallowed element is removed as well, and all leaves survive in order |
| DomSanitizer.RemoveAttribute | app.js:374 | removeAttribute by name: the first attribute with that name is removed; `RemoveAttributeSubset` and `RemoveAfterOthers` state its meaning |
| DomSanitizer.RemoveAttributeSubset | app.js:374 | removeAttribute keeps only attributes that were present, and changes nothing when no attribute has the name |
| DomSanitizer.RemoveAfterOthers | app.js:374 | removing by name takes out exactly that attribute when no earlier attribute has its name |
| DomSanitizer.StripStyleStep | app.js:373 | a turn on a style attribute keeps the loop state: the styles seen so far, then the rest |
| DomSanitizer.StripOtherStep | app.js:373-375 | a turn on another attribute removes exactly it and keeps the loop state |
| DomSanitizer.StripAttributes | app.js:371-376 | the attribute loop over a snapshot leaves exactly the style attributes in order (the same code stands at js/app.js:298-303) |
| DomSanitizer.StripVisits | app.js:369-377 | the walk after stripping shows the same elements, with the attributes of stripped ones reduced to styles |
| DomSanitizer.WalkStripIds | app.js:366-377 | stripping attributes changes no element's position in the walk |
| DomSanitizer.StripStep | app.js:371-376 | stripping one more element in the tree is stripping its identity in the reference state |
| DomSanitizer.SanitizeStripIds | app.js:366-377 | stripping attributes from allowed elements does not change what the sanitizer produces |
| DomSanitizer.Unwrap | app.js:381-387 | one element spliced out of the tree, its children put in its place; `WalkUnwrap`, `LeavesUnwrap`, `UnwrapAt` and `SanitizeUnwrap` state its meaning |
| DomSanitizer.DropId | app.js:386 | removing one element from the walk keeps exactly the other elements |
| DomSanitizer.WalkUnwrap | app.js:381-387 | after splicing out an element, the walk is the old walk without it |
| DomSanitizer.SanitizeUnwrap | app.js:381-387 | splicing out a disallowed element does not change what the sanitizer produces |
| DomSanitizer.LeavesUnwrap | js/app.js:308-314 | splicing out an element keeps all leaves in order |
| DomSanitizer.UnwrapAt | app.js:381-387 | splicing out the element at a sibling position puts its children at that position |
| DomSanitizer.MoveChildrenOut | app.js:383-386 | the `insertBefore` loop and `removeChild` put the element's children, in order, where it stood (the same code stands at js/app.js:310-313) |
| DomSanitizer.RemoveElement | app.js:382-386 | finding the parent and splicing gives the tree with that element spliced out |
| DomSanitizer.MarkAllowed | app.js:369-377 | a walk step on an allowed element marks it stripped and keeps the walk state |
| DomSanitizer.MarkCollected | app.js:367-368 | a walk step on a disallowed element collects it and keeps the walk state |
| DomSanitizer.AfterWalk | app.js:363-378 | after the walk, all allowed elements are stripped and exactly the disallowed ones are collected |
| DomSanitizer.RemoveStep | app.js:381-387 | each removal keeps distinct identities, the removal state and the sanitizer's result |
| DomSanitizer.SanitizeContent | app.js:350-390 | the walk, attribute and splice loops end in exactly the reference sanitizer's result (the same code stands at js/app.js:277-317) |
| EditorContent.EditorText | app.js:143 | the text read is textContent when that is not empty, else innerText (the same code stands at js/app.js:118) |
| EditorContent.ParsedText | app.js:167 | the parser's text from literal characters: no CR and no U+0000 is left, and a text without them is kept as it is |
| EditorContent.Escaped | app.js:167 | escaped text written back yields text nodes only, whose text is the parsed converted text; the result is clean and well formed (the same code stands at js/app.js:137) |
| EditorContent.EscapedReadsBack | app.js:143-167 | the next conversion reads back the parsed text of what was written, or innerText when that is empty; parsing twice is parsing once |
| EditorContent.TrimStart | app.js:144 | trimming the front drops a `\s` prefix, leaving a suffix that starts with a non-`\s` or is empty |
| EditorContent.TrimEnd | app.js:144 | trimming the back drops a `\s` suffix, leaving a prefix that ends with a non-`\s` or is empty |
| EditorContent.Trim | app.js:144 | String.prototype.trim; `TrimIsInfix` and `BlankIff` state its meaning |
| EditorContent.Blank | app.js:144 | `!content.trim()`; `BlankIff` states it is all-`\s` |
| EditorContent.BlankIff | app.js:144 | the trimmed text is empty exactly when every character is `\s` |
| EditorContent.TrimIsInfix | app.js:144 | trimming keeps a contiguous middle part whose ends are not `\s` |
| AppEditor.TextEditor.HandleTextInput | app.js:111-122 | the content becomes the sanitized content; it is rewritten exactly when it was not clean; text is preserved; the status reads "Editing..." |
| AppEditor.TextEditor.ApplyTransformation | app.js:140-173 | with no editor, nothing changes; blank text only sets "Add some text first"; otherwise the converted text becomes the content and the clipboard, with status "Text converted & copied" |
| AppEditor.ConvertedNotBlank | app.js:144-164 | the known kinds never turn a non-blank text into a blank one |
| JsAppEditor.TextEditor.HandleTextInput | js/app.js:88-98 | the content becomes the sanitized content and is rewritten exactly when it was not clean; text is preserved |
| JsAppEditor.TextEditor.ApplyTransformation | js/app.js:115-145 | with no editor, nothing changes; otherwise the converted text, blank or not, becomes the content and the clipboard |
| JsAppEditor.BlankConvertsToItself | js/app.js:118-134 | with no guard, a blank text still goes through every known kind and comes back unchanged |
| JsAppEditor.UnknownKindEmpties | js/app.js:119-137 | with an unknown kind, the converted text is empty and the content ends up with no nodes |

## Left out

- HTML parsing and serialization through `innerHTML`. The sanitizer works on the parsed tree, and writing escaped text back is modelled by its result, at most one text node (`EditorContent.Escaped`). Of the parser, only what it does to literal text is modelled: CR LF and CR become LF, and U+0000 is dropped (`EditorContent.ParsedText`).
- `escapeHtml` as a string function. Only the node list it leads to is modelled.
- Template contents and the details of how the parser repairs markup.
- HandleTextInput compares the sanitized tree with the parsed tree, while the source compares the serialized strings. The two agree whenever serialization is faithful to the tree, which is not modelled.
- `parentNode`: RemoveElement finds the parent by descending from the root, because the tree has no links to parents. The splice it performs is the one the source performs.
- The TreeWalker reads the tree while the loop changes attributes. The model walks a snapshot `Walk(content)` taken before the loop. The walk only changes attributes, never structure, so the live order and the snapshot order agree; `WalkStripIds` proves the snapshot stays accurate.
- Element identity is an `id` field, and the methods require distinct ids (`Markup.WellFormed`). Object identity and aliasing of DOM nodes are not modelled otherwise.
- DomSanitizer.StripAttributes requires distinct attribute names, which the DOM guarantees. With duplicates, `removeAttribute` by name could behave differently; that case is not modelled.
- `removeAttribute` lowercases its argument on HTML elements. The model removes by the exact name, which is the same thing because the parser lowercases attribute names.
- Unicode case mapping. Conversions map ASCII letters only; `toUpperCase` and `toLowerCase` on other characters (where the length can change, e.g. `ß`) are not modelled. The tag and attribute-name comparisons use `Sanitizer.LowerName`, which also maps KELVIN SIGN (U+212A) to `k`. That is the one character outside ASCII whose lowercase is ASCII; every other non-ASCII character lowercases to something that contains non-ASCII, so it cannot spell an allowed name.
- UTF-16 code units. Strings are sequences of characters.
- `innerText` rendering. It enters only through the choice `textContent || innerText`, and the rendered text is a parameter.
- Clipboard copy and its fallback. It is asynchronous browser API; the model records only the text handed to it (`clipboard`).
- Success feedback, button feedback, timeouts, restoreCursor, updateFormatButtons, event wiring, keyboard shortcuts, execCommand formatting and scroll animations. These are browser-only UI.
