/** Whole-pipeline cases of `process_sentences`, each traced stage by stage:
    split, strip, case normalisation, tokens, rewriting and the final join. */
module Scenarios {
  import opened Text
  import opened Splitter
  import opened Formatter

  /** A fragment without surrounding whitespace, traced through the stages of
      the formatting, gives the traced result. */
  lemma Traced(f: string, c: string, ws: seq<string>, rw: seq<string>, out: string)
    requires f != [] && !IsSpace(f[0]) && !IsSpace(f[|f| - 1])
    requires Capitalize(f) == c && Words(c) == ws && RewriteAll(ws) == rw
    requires EnsureTerminal(JoinSpaced(rw)) == out
    ensures Strip(f) != [] && FormatSentence(f) == out
    ensures FormatAll([f]) == [out]
  {
    StripOfTrimmed(f);
    FormatSingleFragment(f);
  }

  /** A text whose only terminal punctuation is its last character, traced
      through the stages of the formatting, gives one sentence. */
  lemma TracedText(t: string, c: string, ws: seq<string>, rw: seq<string>, out: string)
    requires forall j :: 0 <= j < |t| - 1 ==> !IsTerminal(t[j])
    requires t != [] && !IsSpace(t[0]) && !IsSpace(t[|t| - 1])
    requires Capitalize(t) == c && Words(c) == ws && RewriteAll(ws) == rw
    requires EnsureTerminal(JoinSpaced(rw)) == out
    ensures FormatAll(Split(t)) == [out]
  {
    OnlyFinalTerminalOneFragment(t);
    Traced(t, c, ws, rw, out);
  }

  // "john smith went home.": both proper nouns are capitalised.

  lemma ProperNounsTailLower()
    ensures forall i :: 1 <= i < |"john smith went home."| ==> !IsUpperLetter("john smith went home."[i])
  {
  }

  lemma ProperNounsGlue()
    ensures [UpperChar('j')] + "john smith went home."[1..] == "John smith went home."
  {
    assert UpperChar('j') == 'J';
  }

  lemma ProperNounsWords()
    ensures Words("John smith went home.") == ["John", "smith", "went", "home."]
  {
    var ws := ["John", "smith", "went", "home."];
    assert JoinSpaced(ws) == "John smith went home.";
    WordsOfJoin(ws);
  }

  lemma ProperNounsRewritten()
    ensures RewriteAll(["John", "smith", "went", "home."]) == ["John", "Smith", "went", "home."]
  {
    assert Lower("John") == "john" && Capitalize("John") == "John";
    assert Lower("smith") == "smith" && Capitalize("smith") == "Smith";
    assert Lower("went") == "went";
    PunctuatedTokenUnchanged("home.", 4);
  }

  lemma ProperNounsJoined()
    ensures EnsureTerminal(JoinSpaced(["John", "Smith", "went", "home."])) == "John Smith went home."
  {
    var ws := ["John", "Smith", "went", "home."];
    assert JoinSpaced(ws[2..]) == "went home.";
    assert JoinSpaced(ws[1..]) == "Smith went home.";
    var s := "John Smith went home.";
    assert JoinSpaced(ws) == s && s[|s| - 1] == '.';
  }

  /** Proper nouns are capitalised; other words keep the case the sentence
      normalisation gave them. */
  lemma ProperNounsCapitalized()
    ensures FormatAll(Split("john smith went home.")) == ["John Smith went home."]
  {
    var t := "john smith went home.";
    assert forall j :: 0 <= j < |t| - 1 ==> !IsTerminal(t[j]);
    ProperNounsTailLower();
    CapitalizeKeepsLowerTail(t);
    ProperNounsGlue();
    ProperNounsWords();
    ProperNounsRewritten();
    ProperNounsJoined();
    TracedText(t, "John smith went home.", ["John", "smith", "went", "home."],
      ["John", "Smith", "went", "home."], "John Smith went home.");
  }

  // "the meeting is important.": the bare token is rewritten, the token that
  // carries the sentence's period is not.

  lemma ImportantTailLower()
    ensures forall i :: 1 <= i < |"the meeting is important."| ==> !IsUpperLetter("the meeting is important."[i])
  {
  }

  lemma ImportantGlue()
    ensures [UpperChar('t')] + "the meeting is important."[1..] == "The meeting is important."
  {
    assert UpperChar('t') == 'T';
  }

  lemma ImportantWords()
    ensures Words("The meeting is important.") == ["The", "meeting", "is", "important."]
  {
    var ws := ["The", "meeting", "is", "important."];
    assert JoinSpaced(ws) == "The meeting is important.";
    WordsOfJoin(ws);
  }

  lemma MeetingEmphasized()
    ensures RewriteWord("meeting") == "**MEETING**"
  {
    assert Lower("meeting") == "meeting";
    assert Upper("meeting") == "MEETING";
  }

  lemma ImportantRewritten()
    ensures RewriteAll(["The", "meeting", "is", "important."]) == ["The", "**MEETING**", "is", "important."]
  {
    assert Lower("The") == "the";
    MeetingEmphasized();
    assert Lower("is") == "is";
    PunctuatedTokenUnchanged("important.", 9);
  }

  lemma ImportantJoinedTokens()
    ensures JoinSpaced(["The", "**MEETING**", "is", "important."]) == "The **MEETING** is important."
  {
    var ws := ["The", "**MEETING**", "is", "important."];
    assert JoinSpaced(ws[2..]) == "is important.";
    assert JoinSpaced(ws[1..]) == "**MEETING** is important.";
  }

  lemma ImportantJoined()
    ensures EnsureTerminal(JoinSpaced(["The", "**MEETING**", "is", "important."])) == "The **MEETING** is important."
  {
    ImportantJoinedTokens();
    var s := "The **MEETING** is important.";
    assert s[|s| - 1] == '.';
  }

  /** "meeting" is an important word; "important." is not rewritten, since
      the set is looked up with the period still attached. */
  lemma ImportantWordsEmphasized()
    ensures FormatAll(Split("the meeting is important.")) == ["The **MEETING** is important."]
  {
    var t := "the meeting is important.";
    assert forall j :: 0 <= j < |t| - 1 ==> !IsTerminal(t[j]);
    ImportantTailLower();
    CapitalizeKeepsLowerTail(t);
    ImportantGlue();
    ImportantWords();
    ImportantRewritten();
    ImportantJoined();
    TracedText(t, "The meeting is important.", ["The", "meeting", "is", "important."],
      ["The", "**MEETING**", "is", "important."], "The **MEETING** is important.");
  }

  // "I saw Dr. Who.": the title lookbehind keeps it one sentence, but the
  // case normalisation turns "Dr." into "dr.", which no longer blocks the
  // split, so formatting the output again splits it in two.

  lemma TitleSplit()
    ensures Split("I saw Dr. Who.") == ["I saw Dr. Who."]
  {
    var t := "I saw Dr. Who.";
    assert TitleBefore(t, 9);
    assert forall j :: 0 <= j < |t| - 1 && j != 8 ==> !IsTerminal(t[j]);
    NoSplitPointOneFragment(t);
  }

  lemma TitleNormalized()
    ensures Capitalize("I saw Dr. Who.") == "I saw dr. who."
  {
    var a, b, c, d := " saw ", "Dr.", " ", "Who.";
    assert "I saw Dr. Who."[1..] == a + b + c + d;
    LowerAppend(a + b + c, d);
    LowerAppend(a + b, c);
    LowerAppend(a, b);
    LowerKeepsLowerCase(a);
    LowerKeepsLowerCase(c);
    assert Lower(b) == "dr." && Lower(d) == "who.";
    assert UpperChar('I') == 'I';
    assert ['I'] + (a + "dr." + c + "who.") == "I saw dr. who.";
  }

  lemma TitleWords()
    ensures Words("I saw dr. who.") == ["I", "saw", "dr.", "who."]
  {
    var ws := ["I", "saw", "dr.", "who."];
    assert JoinSpaced(ws) == "I saw dr. who.";
    WordsOfJoin(ws);
  }

  lemma TitleRewritten()
    ensures RewriteAll(["I", "saw", "dr.", "who."]) == ["I", "saw", "dr.", "who."]
  {
    assert Lower("I") == "i";
    assert Lower("saw") == "saw";
    PunctuatedTokenUnchanged("dr.", 2);
    PunctuatedTokenUnchanged("who.", 3);
  }

  lemma TitleJoinedTokens()
    ensures JoinSpaced(["I", "saw", "dr.", "who."]) == "I saw dr. who."
  {
    var ws := ["I", "saw", "dr.", "who."];
    assert JoinSpaced(ws[2..]) == "dr. who.";
    assert JoinSpaced(ws[1..]) == "saw dr. who.";
  }

  lemma TitleJoined()
    ensures EnsureTerminal(JoinSpaced(["I", "saw", "dr.", "who."])) == "I saw dr. who."
  {
    TitleJoinedTokens();
    var s := "I saw dr. who.";
    assert s[|s| - 1] == '.';
  }

  lemma TitleFormatted()
    ensures FormatAll(Split("I saw Dr. Who.")) == ["I saw dr. who."]
  {
    TitleSplit();
    TitleNormalized();
    TitleWords();
    TitleRewritten();
    TitleJoined();
    Traced("I saw Dr. Who.", "I saw dr. who.", ["I", "saw", "dr.", "who."],
      ["I", "saw", "dr.", "who."], "I saw dr. who.");
  }

  lemma LowerTitleSplit()
    ensures Split("I saw dr. who.") == ["I saw dr.", "who."]
  {
    var t := "I saw dr. who.";
    assert forall j :: 0 <= j < |t| - 1 && j != 8 ==> !IsTerminal(t[j]);
    SplitFromSkip(t, 0, 0, 9);
    assert IsSplitPoint(t, 9);
    SplitFromSkip(t, 10, 10, |t|);
    assert t[0..9] == "I saw dr." && t[10..] == "who.";
  }

  lemma FirstHalfTailLower()
    ensures forall i :: 1 <= i < |"I saw dr."| ==> !IsUpperLetter("I saw dr."[i])
  {
  }

  lemma FirstHalfGlue()
    ensures [UpperChar('I')] + "I saw dr."[1..] == "I saw dr."
  {
    assert UpperChar('I') == 'I';
  }

  lemma FirstHalfWords()
    ensures Words("I saw dr.") == ["I", "saw", "dr."]
  {
    var ws := ["I", "saw", "dr."];
    assert JoinSpaced(ws) == "I saw dr.";
    WordsOfJoin(ws);
  }

  lemma FirstHalfRewritten()
    ensures RewriteAll(["I", "saw", "dr."]) == ["I", "saw", "dr."]
  {
    assert Lower("I") == "i";
    assert Lower("saw") == "saw";
    PunctuatedTokenUnchanged("dr.", 2);
  }

  lemma FirstHalfJoined()
    ensures EnsureTerminal(JoinSpaced(["I", "saw", "dr."])) == "I saw dr."
  {
    assert JoinSpaced(["I", "saw", "dr."]) == "I saw dr.";
  }

  lemma FirstHalfFormatted()
    ensures Strip("I saw dr.") != []
    ensures FormatSentence("I saw dr.") == "I saw dr."
  {
    FirstHalfTailLower();
    CapitalizeKeepsLowerTail("I saw dr.");
    FirstHalfGlue();
    FirstHalfWords();
    FirstHalfRewritten();
    FirstHalfJoined();
    Traced("I saw dr.", "I saw dr.", ["I", "saw", "dr."], ["I", "saw", "dr."], "I saw dr.");
  }

  lemma SecondHalfFormatted()
    ensures Strip("who.") != []
    ensures FormatSentence("who.") == "Who."
  {
    var t := "who.";
    assert Capitalize(t) == "Who.";
    WordsOfToken("Who.");
    PunctuatedTokenUnchanged("Who.", 3);
    assert RewriteAll(["Who."]) == ["Who."];
    assert JoinSpaced(["Who."]) == "Who.";
    Traced(t, "Who.", ["Who."], ["Who."], "Who.");
  }

  /** Formatting is not idempotent: formatting a formatted text can change it. */
  lemma FormattingNotIdempotent()
    ensures FormatAll(Split("I saw Dr. Who.")) == ["I saw dr. who."]
    ensures FormatAll(Split("I saw dr. who.")) == ["I saw dr.", "Who."]
  {
    TitleFormatted();
    LowerTitleSplit();
    FirstHalfFormatted();
    SecondHalfFormatted();
    FormatTwoFragments("I saw dr.", "who.");
  }
}
