/** The formatter's three fixed word sets and its abbreviation test. The sets
    are read-only constants; the abbreviation test is never consulted by the
    sentence splitter (see module Splitter). */
module WordLists {
  import opened Text

  /** Titles, suffixes and organisation abbreviations. */
  const COMMON_ABBREVIATIONS: set<string> := {
    "dr", "mr", "mrs", "ms", "prof", "rev", "hon", "esq", "jr", "sr",
    "phd", "md", "dds", "usa", "uk", "un", "nato", "ny", "la", "nyc",
    "inc", "llc", "corp", "ltd", "co", "dept", "univ", "assn", "bldg"
  }

  /** Proper nouns whose first letter is forced to upper case. */
  const SPECIAL_CAPITALIZATION: set<string> := {
    "john", "smith", "microsoft", "google", "apple", "nasa", "ibm",
    "einstein", "shakespeare", "disney", "amazon", "facebook"
  }

  /** Words that are upper-cased and wrapped in `**`. */
  const IMPORTANT_WORDS: set<string> := {
    "important", "urgent", "critical", "warning", "note", "attention",
    "deadline", "meeting", "presentation", "review", "priority"
  }

  /** A non-empty word of lower-case ASCII letters only. */
  predicate IsLowerWord(w: string) {
    |w| > 0 && forall i :: 0 <= i < |w| ==> IsLowerLetter(w[i])
  }

  /** Every entry of the three sets is a non-empty lower-case word, so a token
      holding a digit, a punctuation mark or an upper-case letter is never
      found in any of them. */
  lemma WordListsAreLowerWords()
    ensures forall w :: w in COMMON_ABBREVIATIONS ==> IsLowerWord(w)
    ensures forall w :: w in SPECIAL_CAPITALIZATION ==> IsLowerWord(w)
    ensures forall w :: w in IMPORTANT_WORDS ==> IsLowerWord(w)
  {
  }

  /** No word is both a proper noun and an important word, so the order in
      which the formatter tests the two sets never decides a token's fate. */
  lemma WordListsDisjoint()
    ensures SPECIAL_CAPITALIZATION * IMPORTANT_WORDS == {}
  {
  }

  /** `s.rstrip(chars)`: s without its longest suffix of characters in chars. */
  function StripTrailing(s: string, chars: set<char>): (r: string)
    ensures |r| <= |s| && r == s[..|r|]
    ensures forall i :: |r| <= i < |s| ==> s[i] in chars
    ensures r == [] || r[|r| - 1] !in chars
    decreases |s|
  {
    if s != [] && s[|s| - 1] in chars then StripTrailing(s[..|s| - 1], chars) else s
  }

  /** The three contract clauses of StripTrailing determine its result. */
  lemma StripTrailingUnique(s: string, chars: set<char>, p: string)
    requires |p| <= |s| && p == s[..|p|]
    requires forall i :: |p| <= i < |s| ==> s[i] in chars
    requires p == [] || p[|p| - 1] !in chars
    ensures StripTrailing(s, chars) == p
  {
    var r := StripTrailing(s, chars);
    assert |p| > 0 ==> s[|p| - 1] == p[|p| - 1];
    assert |r| > 0 ==> s[|r| - 1] == r[|r| - 1];
    assert |r| == |p|;
  }

  /** `is_abbreviation`: the lower-cased word, without trailing `.` and `,`,
      is a common abbreviation. */
  predicate IsAbbreviation(word: string) {
    StripTrailing(Lower(word), {'.', ','}) in COMMON_ABBREVIATIONS
  }

  /** A word is an abbreviation exactly when it is a listed abbreviation in any
      letter case followed by nothing but periods and commas. */
  lemma AbbreviationShape(word: string)
    ensures IsAbbreviation(word) <==>
      exists a :: a in COMMON_ABBREVIATIONS && |a| <= |word| && Lower(word)[..|a|] == a &&
        forall i :: |a| <= i < |word| ==> word[i] == '.' || word[i] == ','
  {
    var lw := Lower(word);
    var punct := {'.', ','};
    var r := StripTrailing(lw, punct);
    WordListsAreLowerWords();
    if IsAbbreviation(word) {
      forall i | |r| <= i < |word| ensures word[i] == '.' || word[i] == ',' {
        assert lw[i] == LowerChar(word[i]);
      }
    }
    forall a | a in COMMON_ABBREVIATIONS && |a| <= |word| && lw[..|a|] == a &&
        (forall i :: |a| <= i < |word| ==> word[i] == '.' || word[i] == ',')
      ensures IsAbbreviation(word)
    {
      forall i | |a| <= i < |lw| ensures lw[i] in punct {
        assert lw[i] == LowerChar(word[i]);
      }
      assert a[|a| - 1] !in punct;
      StripTrailingUnique(lw, punct, a);
    }
  }
}
