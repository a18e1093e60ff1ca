/**
 * The two case helpers of the widget and the `switch` that picks a
 * conversion.  Both helpers lowercase the text and then run a global regular
 * expression replace that uppercases every match.  The replace is modelled the
 * way the engine runs it: try a match at a position; on success emit the
 * uppercased match and resume after it; on failure emit the character and
 * move one position on.
 */
module CaseConversion {
  import opened CharClass

  // ---------------------------------------------------------------------
  // Sentence case: text.toLowerCase().replace(/(^\s*\w|[.!?]\s*\w)/g, upper)
  // ---------------------------------------------------------------------

  /** The first index at or after i whose character is not `\s` (|s| if none). */
  function SkipSpaces(s: string, i: nat): (k: nat)
    requires i <= |s|
    ensures i <= k <= |s|
    ensures forall j :: i <= j < k ==> IsSpace(s[j])
    ensures k < |s| ==> !IsSpace(s[k])
    decreases |s| - i
  {
    if i < |s| && IsSpace(s[i]) then SkipSpaces(s, i + 1) else i
  }

  /** `\s*\w` matches from i on: the run of `\s` starting at i ends in a word character. */
  predicate WordAfterSpaces(s: string, i: nat)
    requires i <= |s|
  {
    SkipSpaces(s, i) < |s| && IsWord(s[SkipSpaces(s, i)])
  }

  /**
   * Length of the match of /(^\s*\w|[.!?]\s*\w)/ found when the engine tries
   * position p, or 0 when no match starts there.  `\s*` is greedy, and giving
   * characters back never helps because no `\s` character is a `\w` one.  The
   * first alternative is anchored at the start of the text and is tried first.
   */
  function SentenceMatchAt(s: string, p: nat): (n: nat)
    requires p < |s|
    ensures p + n <= |s|
    ensures n > 0 ==> IsWord(s[p + n - 1])
  {
    if p == 0 && WordAfterSpaces(s, 0) then SkipSpaces(s, 0) + 1
    else if IsTerminal(s[p]) && WordAfterSpaces(s, p + 1) then SkipSpaces(s, p + 1) - p + 1
    else 0
  }

  /** The global replace of sentence case, from scan position p on. */
  function SentenceReplace(s: string, p: nat): (r: string)
    requires p <= |s|
    ensures |r| == |s| - p
    decreases |s| - p
  {
    if p == |s| then ""
    else
      var n := SentenceMatchAt(s, p);
      if n == 0 then [s[p]] + SentenceReplace(s, p + 1)
      else UpperStr(s[p..p + n]) + SentenceReplace(s, p + n)
  }

  /**
   * A word character at index i would be capitalized: the scan state of a
   * "capitalize the next word character" flag that starts set, is set by
   * `.`, `!` and `?`, is kept by `\s`, and is cleared by anything else.
   */
  predicate SentencePending(s: string, i: nat)
    requires i <= |s|
    decreases i
  {
    i == 0 || IsTerminal(s[i - 1]) || (IsSpace(s[i - 1]) && SentencePending(s, i - 1))
  }

  /** The character at i begins a sentence and is uppercased by sentence case. */
  predicate StartsSentence(s: string, i: nat)
    requires i < |s|
  {
    IsWord(s[i]) && SentencePending(s, i)
  }

  /**
   * The flag is the regular expression's condition: either only `\s`
   * precedes i, or the last character before i that is not `\s` is one of
   * `.`, `!`, `?`.
   */
  lemma {:induction false} SentencePendingMeaning(s: string, i: nat)
    requires i <= |s|
    ensures SentencePending(s, i) <==>
      (forall j :: 0 <= j < i ==> IsSpace(s[j])) ||
      (exists j :: 0 <= j < i && IsTerminal(s[j]) && forall m :: j < m < i ==> IsSpace(s[m]))
    decreases i
  {
    if i > 0 {
      SentencePendingMeaning(s, i - 1);
      if IsTerminal(s[i - 1]) {
      } else if !IsSpace(s[i - 1]) {
        forall j | 0 <= j < i && IsTerminal(s[j])
          ensures !(forall m :: j < m < i ==> IsSpace(s[m]))
        {
          assert j < i - 1 && !IsSpace(s[i - 1]);
        }
      } else {
        forall j | 0 <= j < i && IsTerminal(s[j]) && (forall m :: j < m < i ==> IsSpace(s[m]))
          ensures j < i - 1 && forall m :: j < m < i - 1 ==> IsSpace(s[m])
        {
        }
      }
    }
  }

  /** The flag carries across a run of `\s`. */
  lemma {:induction false} PendingAcrossSpaces(s: string, a: nat, b: nat)
    requires a <= b <= |s|
    requires SentencePending(s, a)
    requires forall j :: a <= j < b ==> IsSpace(s[j])
    ensures SentencePending(s, b)
    decreases b - a
  {
    if a < b {
      PendingAcrossSpaces(s, a + 1, b);
    }
  }

  /** Punctuation and `\s` are not letters, so uppercasing leaves them alone. */
  lemma UpperNonWord(c: char)
    requires IsSpace(c) || IsTerminal(c)
    ensures Upper(c) == c
  {
  }

  /** What sentence case puts at index i of already lowercased text. */
  function SentenceChar(s: string, i: nat): char
    requires i < |s|
  {
    if StartsSentence(s, i) then Upper(s[i]) else s[i]
  }

  /** What sentence case puts at indices a.. of already lowercased text. */
  function SentenceCased(s: string, a: nat): (r: string)
    requires a <= |s|
  {
    seq(|s| - a, j requires 0 <= j < |s| - a => SentenceChar(s, a + j))
  }

  /** A chunk that is right at p, followed by what is right after it, is what is right at p. */
  lemma CasedSplit(s: string, p: nat, head: string)
    requires p + |head| <= |s|
    requires forall j :: 0 <= j < |head| ==> head[j] == SentenceChar(s, p + j)
    ensures head + SentenceCased(s, p + |head|) == SentenceCased(s, p)
  {
    var tail := SentenceCased(s, p + |head|);
    forall j | 0 <= j < |s| - p
      ensures (head + tail)[j] == SentenceCased(s, p)[j]
    {
      if j >= |head| {
        assert (head + tail)[j] == tail[j - |head|];
        assert tail[j - |head|] == SentenceChar(s, p + |head| + (j - |head|));
      }
    }
  }

  /**
   * The characters of a run of `\s` (after a `[.!?]` at p, or from p = 0)
   * that ends in a word character come out of uppercasing as sentence case
   * wants them, and no sentence is pending after the word character.
   */
  lemma RunThenWord(s: string, p: nat, first: nat, k: nat, head: string)
    requires p <= first <= k < |s|
    requires p == first || (p + 1 == first && IsTerminal(s[p]))
    requires forall j :: first <= j < k ==> IsSpace(s[j])
    requires IsWord(s[k]) && SentencePending(s, first)
    requires head == UpperStr(s[p..k + 1])
    ensures forall j :: 0 <= j < |head| ==> head[j] == SentenceChar(s, p + j)
    ensures !SentencePending(s, k + 1)
  {
    PendingAcrossSpaces(s, first, k);
    forall j | 0 <= j < |head|
      ensures head[j] == SentenceChar(s, p + j)
    {
      RunThenWordAt(s, p, first, k, head, j);
    }
  }

  lemma RunThenWordAt(s: string, p: nat, first: nat, k: nat, head: string, j: nat)
    requires p <= first <= k < |s|
    requires p == first || (p + 1 == first && IsTerminal(s[p]))
    requires forall j :: first <= j < k ==> IsSpace(s[j])
    requires IsWord(s[k]) && SentencePending(s, k)
    requires head == UpperStr(s[p..k + 1])
    requires j < |head|
    ensures head[j] == SentenceChar(s, p + j)
  {
    var i := p + j;
    assert head[j] == Upper(s[i]);
    if i < k {
      assert IsSpace(s[i]) || IsTerminal(s[i]);
      NonWordUnchanged(s, i);
    } else {
      assert i == k;
      assert StartsSentence(s, i);
    }
  }

  /** Sentence case leaves punctuation and `\s` as they are, and so does uppercasing. */
  lemma NonWordUnchanged(s: string, i: nat)
    requires i < |s|
    requires IsSpace(s[i]) || IsTerminal(s[i])
    ensures SentenceChar(s, i) == Upper(s[i])
  {
    UpperNonWord(s[i]);
  }

  /**
   * A successful match at p covers punctuation or `\s` followed by one word
   * character that begins a sentence; uppercasing the whole match therefore
   * changes only that word character, and no sentence is pending after it.
   */
  lemma MatchCoversSentenceStart(s: string, p: nat)
    requires p < |s| && SentenceMatchAt(s, p) > 0
    ensures UpperStr(s[p..p + SentenceMatchAt(s, p)]) + SentenceCased(s, p + SentenceMatchAt(s, p))
         == SentenceCased(s, p)
    ensures !SentencePending(s, p + SentenceMatchAt(s, p))
  {
    var n := SentenceMatchAt(s, p);
    var head := UpperStr(s[p..p + n]);
    if p == 0 && WordAfterSpaces(s, 0) {
      RunThenWord(s, 0, 0, SkipSpaces(s, 0), head);
    } else {
      RunThenWord(s, p, p + 1, SkipSpaces(s, p + 1), head);
    }
    CasedSplit(s, p, head);
  }

  /**
   * A failed attempt at p emits the character unchanged, which is right
   * because it does not begin a sentence; and the scan state at p + 1 is
   * again not in the middle of a pending match.
   */
  lemma FailedAttempt(s: string, p: nat)
    requires p < |s| && SentenceMatchAt(s, p) == 0
    requires p == 0 || !SentencePending(s, p) || !WordAfterSpaces(s, p)
    ensures [s[p]] + SentenceCased(s, p + 1) == SentenceCased(s, p)
    ensures !SentencePending(s, p + 1) || !WordAfterSpaces(s, p + 1)
  {
    if IsSpace(s[p]) {
      assert SkipSpaces(s, p) == SkipSpaces(s, p + 1);
    }
    CasedSplit(s, p, [s[p]]);
  }

  /**
   * From a scan position that is not in the middle of a pending match, the
   * replace uppercases exactly the characters that begin a sentence.  The
   * side condition holds at 0 and after every match, and is kept by every
   * failed attempt.
   */
  lemma {:induction false} SentenceReplaceAt(s: string, p: nat)
    requires p <= |s|
    requires p == 0 || !SentencePending(s, p) || !WordAfterSpaces(s, p)
    ensures SentenceReplace(s, p) == SentenceCased(s, p)
    decreases |s| - p
  {
    if p < |s| {
      var n := SentenceMatchAt(s, p);
      var next := if n == 0 then p + 1 else p + n;
      var head := if n == 0 then [s[p]] else UpperStr(s[p..p + n]);
      assert SentenceReplace(s, p) == head + SentenceReplace(s, next);
      if n == 0 {
        FailedAttempt(s, p);
      } else {
        MatchCoversSentenceStart(s, p);
      }
      assert head + SentenceCased(s, next) == SentenceCased(s, p);
      SentenceReplaceAt(s, next);
    }
  }

  /** Lowercasing does not change which characters begin a sentence. */
  lemma {:induction false} PendingIgnoresCase(s: string, i: nat)
    requires i <= |s|
    ensures SentencePending(LowerStr(s), i) == SentencePending(s, i)
    decreases i
  {
    if i > 0 {
      PendingIgnoresCase(s, i - 1);
    }
  }

  /** Sentence case: lowercase the text, then run the global replace over it. */
  function ToSentenceCase(text: string): (r: string)
    ensures |r| == |text|
  {
    SentenceReplace(LowerStr(text), 0)
  }

  /** One character of sentence case, read off the original text. */
  lemma {:induction false} SentenceCaseAt(text: string, i: nat)
    requires i < |text|
    requires ToSentenceCase(text) == SentenceCased(LowerStr(text), 0)
    ensures ToSentenceCase(text)[i] == if StartsSentence(text, i) then Upper(text[i]) else Lower(text[i])
  {
    var lower := LowerStr(text);
    assert ToSentenceCase(text)[i] == SentenceChar(lower, i);
    PendingIgnoresCase(text, i);
    UpperOfLower(text[i]);
  }

  /**
   * Sentence case lowercases every character except those that begin a
   * sentence, which it uppercases.
   */
  lemma SentenceCaseMeaning(text: string)
    ensures forall i :: 0 <= i < |text| ==>
      ToSentenceCase(text)[i] == if StartsSentence(text, i) then Upper(text[i]) else Lower(text[i])
  {
    SentenceReplaceAt(LowerStr(text), 0);
    forall i | 0 <= i < |text|
      ensures ToSentenceCase(text)[i] == if StartsSentence(text, i) then Upper(text[i]) else Lower(text[i])
    {
      SentenceCaseAt(text, i);
    }
  }

  // ---------------------------------------------------------------------
  // Title case: text.toLowerCase().replace(/\b\w/g, upper)
  // ---------------------------------------------------------------------

  /** `\b` at position p: exactly one of the characters around p is `\w` (outside the text counts as not `\w`). */
  predicate WordBoundary(s: string, p: nat)
    requires p <= |s|
  {
    (p > 0 && IsWord(s[p - 1])) != (p < |s| && IsWord(s[p]))
  }

  /** `\b\w` matches at p (a match is always one character long). */
  predicate TitleMatchAt(s: string, p: nat)
    requires p < |s|
  {
    WordBoundary(s, p) && IsWord(s[p])
  }

  /** The global replace of title case, from scan position p on. */
  function TitleReplace(s: string, p: nat): (r: string)
    requires p <= |s|
    ensures |r| == |s| - p
    decreases |s| - p
  {
    if p == |s| then ""
    else if TitleMatchAt(s, p) then UpperStr(s[p..p + 1]) + TitleReplace(s, p + 1)
    else [s[p]] + TitleReplace(s, p + 1)
  }

  /** The character at i is the first of a maximal run of `\w` characters. */
  predicate StartsWord(s: string, i: nat)
    requires i < |s|
  {
    IsWord(s[i]) && (i == 0 || !IsWord(s[i - 1]))
  }

  /** What title case puts at index i of already lowercased text. */
  function TitleChar(s: string, i: nat): char
    requires i < |s|
  {
    if StartsWord(s, i) then Upper(s[i]) else s[i]
  }

  /** What title case puts at indices a.. of already lowercased text. */
  function TitleCased(s: string, a: nat): (r: string)
    requires a <= |s|
  {
    seq(|s| - a, j requires 0 <= j < |s| - a => TitleChar(s, a + j))
  }

  /** The title-case replace uppercases exactly the first character of every `\w` run. */
  lemma {:induction false} TitleReplaceAt(s: string, p: nat)
    requires p <= |s|
    ensures TitleReplace(s, p) == TitleCased(s, p)
    decreases |s| - p
  {
    if p < |s| {
      TitleReplaceAt(s, p + 1);
      var head := if TitleMatchAt(s, p) then UpperStr(s[p..p + 1]) else [s[p]];
      assert head == [TitleChar(s, p)];
      var tail := TitleCased(s, p + 1);
      forall j | 0 <= j < |s| - p
        ensures (head + tail)[j] == TitleCased(s, p)[j]
      {
        if j >= 1 {
          assert (head + tail)[j] == tail[j - 1];
          assert tail[j - 1] == TitleChar(s, p + 1 + (j - 1));
        }
      }
    }
  }

  /** Title case: lowercase the text, then run the global replace over it. */
  function ToTitleCase(text: string): (r: string)
    ensures |r| == |text|
  {
    TitleReplace(LowerStr(text), 0)
  }

  /** One character of title case, read off the original text. */
  lemma {:induction false} TitleCaseAt(text: string, i: nat)
    requires i < |text|
    requires ToTitleCase(text) == TitleCased(LowerStr(text), 0)
    ensures ToTitleCase(text)[i] == if StartsWord(text, i) then Upper(text[i]) else Lower(text[i])
  {
    var lower := LowerStr(text);
    assert ToTitleCase(text)[i] == TitleChar(lower, i);
    UpperOfLower(text[i]);
  }

  /**
   * Title case lowercases every character except the first character of each
   * maximal `[A-Za-z0-9_]` run, which it uppercases.
   */
  lemma TitleCaseMeaning(text: string)
    ensures forall i :: 0 <= i < |text| ==>
      ToTitleCase(text)[i] == if StartsWord(text, i) then Upper(text[i]) else Lower(text[i])
  {
    TitleReplaceAt(LowerStr(text), 0);
    forall i | 0 <= i < |text|
      ensures ToTitleCase(text)[i] == if StartsWord(text, i) then Upper(text[i]) else Lower(text[i])
    {
      TitleCaseAt(text, i);
    }
  }

  // ---------------------------------------------------------------------
  // The transformation switch of applyTransformation
  // ---------------------------------------------------------------------

  /** The values of a control button's data-transform attribute that the switch handles. */
  const TransformKinds: seq<string> := ["uppercase", "lowercase", "sentence", "capitalize"]

  /**
   * The `switch (transform)`: transformedText starts as '' and is assigned by
   * the case that matches; an unknown kind leaves it ''.
   */
  function TransformText(kind: string, content: string): string
  {
    if kind == "uppercase" then UpperStr(content)
    else if kind == "lowercase" then LowerStr(content)
    else if kind == "sentence" then ToSentenceCase(content)
    else if kind == "capitalize" then ToTitleCase(content)
    else ""
  }

  /**
   * The switch statement itself: transformedText starts as '' and the case
   * matching the kind assigns it; the result is the conversion above.
   */
  method Convert(kind: string, content: string) returns (transformedText: string)
    ensures transformedText == TransformText(kind, content)
  {
    transformedText := "";
    if kind == "uppercase" {
      transformedText := UpperStr(content);
    } else if kind == "lowercase" {
      transformedText := LowerStr(content);
    } else if kind == "sentence" {
      transformedText := ToSentenceCase(content);
    } else if kind == "capitalize" {
      transformedText := ToTitleCase(content);
    }
  }

  /** Every known kind only changes the case of letters; an unknown kind gives the empty text. */
  lemma TransformChangesCaseOnly(kind: string, content: string)
    ensures kind in TransformKinds ==>
      |TransformText(kind, content)| == |content| && LowerStr(TransformText(kind, content)) == LowerStr(content)
    ensures kind !in TransformKinds ==> TransformText(kind, content) == ""
  {
    if kind == "uppercase" {
      LowerOfUpperStr(content);
    } else if kind == "lowercase" {
      LowerOfLower(content);
    } else if kind == "sentence" {
      SentenceCaseMeaning(content);
      CaseOnly(content, ToSentenceCase(content));
    } else if kind == "capitalize" {
      TitleCaseMeaning(content);
      CaseOnly(content, ToTitleCase(content));
    }
  }

  /** A string that agrees with s up to case, character by character, lowercases to the same string. */
  lemma CaseOnly(s: string, t: string)
    requires |t| == |s|
    requires forall i :: 0 <= i < |s| ==> t[i] == Upper(s[i]) || t[i] == Lower(s[i])
    ensures LowerStr(t) == LowerStr(s)
  {
    forall i | 0 <= i < |s| ensures LowerStr(t)[i] == LowerStr(s)[i] {
      UpperOfLower(s[i]);
    }
  }

  // ---------------------------------------------------------------------
  // Properties
  // ---------------------------------------------------------------------

  /** Sentence case depends only on the lowercased text: lowercasing or uppercasing first changes nothing. */
  lemma {:induction false} SentenceCaseIgnoresInputCase(text: string)
    ensures ToSentenceCase(LowerStr(text)) == ToSentenceCase(text)
    ensures ToSentenceCase(UpperStr(text)) == ToSentenceCase(text)
  {
    var lo, up := LowerStr(text), UpperStr(text);
    SentenceCaseMeaning(text);
    SentenceCaseMeaning(lo);
    SentenceCaseMeaning(up);
    forall i | 0 <= i < |text|
      ensures ToSentenceCase(lo)[i] == ToSentenceCase(text)[i]
      ensures ToSentenceCase(up)[i] == ToSentenceCase(text)[i]
    {
      PendingIgnoresCase(text, i);
      PendingUpperIgnoresCase(text, i);
      UpperOfLower(text[i]);
    }
  }

  /** Uppercasing does not change which characters begin a sentence. */
  lemma {:induction false} PendingUpperIgnoresCase(s: string, i: nat)
    requires i <= |s|
    ensures SentencePending(UpperStr(s), i) == SentencePending(s, i)
    decreases i
  {
    if i > 0 {
      PendingUpperIgnoresCase(s, i - 1);
    }
  }

  /** Applying sentence case twice is the same as applying it once. */
  lemma {:induction false} SentenceCaseIdempotent(text: string)
    ensures ToSentenceCase(ToSentenceCase(text)) == ToSentenceCase(text)
  {
    var once := ToSentenceCase(text);
    SentenceCaseMeaning(text);
    CaseOnly(text, once);
    SentenceCaseIgnoresInputCase(once);
    SentenceCaseIgnoresInputCase(text);
  }

  /** Title case depends only on the lowercased text: lowercasing or uppercasing first changes nothing. */
  lemma {:induction false} TitleCaseIgnoresInputCase(text: string)
    ensures ToTitleCase(LowerStr(text)) == ToTitleCase(text)
    ensures ToTitleCase(UpperStr(text)) == ToTitleCase(text)
  {
    var lo, up := LowerStr(text), UpperStr(text);
    TitleCaseMeaning(text);
    TitleCaseMeaning(lo);
    TitleCaseMeaning(up);
    forall i | 0 <= i < |text|
      ensures ToTitleCase(lo)[i] == ToTitleCase(text)[i]
      ensures ToTitleCase(up)[i] == ToTitleCase(text)[i]
    {
      UpperOfLower(text[i]);
    }
  }

  /** Applying title case twice is the same as applying it once. */
  lemma {:induction false} TitleCaseIdempotent(text: string)
    ensures ToTitleCase(ToTitleCase(text)) == ToTitleCase(text)
  {
    var once := ToTitleCase(text);
    TitleCaseMeaning(text);
    CaseOnly(text, once);
    TitleCaseIgnoresInputCase(once);
    TitleCaseIgnoresInputCase(text);
  }

  /** Converting to lowercase after converting to uppercase gives the plain lowercase. */
  lemma UpperThenLower(content: string)
    ensures TransformText("lowercase", TransformText("uppercase", content)) == TransformText("lowercase", content)
  {
    LowerOfUpperStr(content);
  }

  /** Terminal punctuation starts a sentence even without a space after it. */
  lemma SentenceCaseExample()
    ensures ToSentenceCase("x.y") == "X.Y"
  {
    var s := "x.y";
    assert LowerStr(s) == s;
    assert SentenceMatchAt(s, 0) == 1;
    assert SentenceMatchAt(s, 1) == 2;
    assert SentenceReplace(s, 1) == UpperStr(s[1..3]) + SentenceReplace(s, 3);
  }

  /** `^\s*\w` skips leading `\s`. */
  lemma SentenceCaseLeadingSpaceExample()
    ensures ToSentenceCase(" x") == " X"
  {
  }

  /** A text opening with a quotation mark starts no sentence, since `^\s*\w` fails at the quote. */
  lemma SentenceCaseQuoteExample()
    ensures ToSentenceCase("\"a\" b") == "\"a\" b"
  {
  }

  /** A quotation mark after the punctuation also blocks the match, so the quoted word stays lowercase. */
  lemma SentenceCaseQuoteAfterStopExample()
    ensures ToSentenceCase("a.\"b") == "A.\"b"
  {
    var s := "a.\"b";
    assert LowerStr(s) == s;
    assert SentenceMatchAt(s, 0) == 1;
    assert SentenceMatchAt(s, 1) == 0 && SentenceMatchAt(s, 2) == 0 && SentenceMatchAt(s, 3) == 0;
    assert SentenceReplace(s, 1) == s[1..];
  }

  /** Title case uppercases the first letter of every word and lowercases the rest. */
  lemma TitleCaseExample()
    ensures ToTitleCase("aB cD") == "Ab Cd"
  {
  }

  /** An apostrophe is a word boundary, so the letter after it is uppercased too. */
  lemma TitleCaseApostropheExample()
    ensures ToTitleCase("don't") == "Don'T"
  {
  }
}
