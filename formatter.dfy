/** The sentence formatter `process_sentences`: split the text, then trim,
    case-normalise, tokenise, rewrite and punctuate every non-blank fragment,
    keeping the fragments' order. The functions here are the reference
    definition; ProcessSentences is the loop the program runs, proved equal
    to it. */
module Formatter {
  import opened Text
  import opened WordLists
  import opened Splitter

  /** The rewriting of one token of the case-normalised sentence: proper nouns
      are capitalised, important words upper-cased and wrapped in `**`, and
      every other token is kept as it is. Membership is tested on the whole
      lower-cased token. */
  function RewriteWord(w: string): string {
    var lowerWord := Lower(w);
    if lowerWord in SPECIAL_CAPITALIZATION then Capitalize(w)
    else if lowerWord in IMPORTANT_WORDS then "**" + Upper(w) + "**"
    else w
  }

  function RewriteAll(ws: seq<string>): (rs: seq<string>)
    ensures |rs| == |ws|
  {
    seq(|ws|, k requires 0 <= k < |ws| => RewriteWord(ws[k]))
  }

  /** `re.search(r'[.!?]$', s)`: `$` matches at the end of the string and also
      just before a newline that ends it. */
  predicate MatchesTerminalAtEnd(s: string) {
    (|s| >= 1 && IsTerminal(s[|s| - 1])) ||
    (|s| >= 2 && s[|s| - 1] == '\n' && IsTerminal(s[|s| - 2]))
  }

  /** Append `.` unless the sentence already ends in terminal punctuation. */
  function EnsureTerminal(s: string): (r: string)
    ensures r == s || r == s + "."
    ensures MatchesTerminalAtEnd(r)
    ensures MatchesTerminalAtEnd(s) ==> r == s
    ensures !MatchesTerminalAtEnd(s) ==> r == s + "."
  {
    if MatchesTerminalAtEnd(s) then s else s + "."
  }

  /** What every formatted sentence looks like: non-empty, ending in `.`, `!`
      or `?`, no leading or trailing whitespace, no newline, and exactly one
      plain space between consecutive tokens. */
  predicate WellFormedSentence(s: string) {
    |s| > 0 && IsTerminal(s[|s| - 1]) && SingleSpaced(s)
  }

  /** The tokens of the case-normalised, trimmed fragment. */
  function NormalizedWords(f: string): seq<string> {
    Words(Capitalize(Strip(f)))
  }

  /** One non-blank fragment, formatted. */
  function FormatSentence(f: string): string
    requires Strip(f) != []
  {
    EnsureTerminal(JoinSpaced(RewriteAll(NormalizedWords(f))))
  }

  /** What one fragment contributes: nothing when it is blank, otherwise its
      formatted sentence. */
  function FormatFragment(f: string): seq<string> {
    if Strip(f) == [] then [] else [FormatSentence(f)]
  }

  /** The concatenation of f applied to each element of xs, in order. */
  function FlatMap<T, U>(f: T -> seq<U>, xs: seq<T>): seq<U>
    decreases |xs|
  {
    if xs == [] then [] else FlatMap(f, xs[..|xs| - 1]) + f(xs[|xs| - 1])
  }

  /** The formatted sentences of a sequence of fragments, blank ones dropped. */
  function FormatAll(frags: seq<string>): seq<string> {
    FlatMap(FormatFragment, frags)
  }

  /** The inner loop of `process_sentences` over the words of one sentence:
      every word is rewritten on its own, in order. The branch that keeps an
      all-upper-case word and the fall-through branch both keep the word. */
  method RewriteWords(words: seq<string>) returns (processedWords: seq<string>)
    ensures processedWords == RewriteAll(words)
  {
    processedWords := [];
    for j := 0 to |words|
      invariant |processedWords| == j
      invariant forall k :: 0 <= k < j ==> processedWords[k] == RewriteWord(words[k])
    {
      var word := words[j];
      var lowerWord := Lower(word);
      if lowerWord in SPECIAL_CAPITALIZATION {
        processedWords := processedWords + [Capitalize(word)];
        continue;
      }
      if lowerWord in IMPORTANT_WORDS {
        processedWords := processedWords + ["**" + Upper(word) + "**"];
        continue;
      }
      if IsUpperCase(word) && |word| > 1 {
        processedWords := processedWords + [word];
        continue;
      }
      processedWords := processedWords + [word];
    }
  }

  /** `process_sentences(text)`. */
  method ProcessSentences(text: string) returns (formattedSentences: seq<string>)
    ensures formattedSentences == FormatAll(Split(text))
    ensures forall s :: s in formattedSentences ==> WellFormedSentence(s)
    ensures |formattedSentences| <= |Split(text)|
  {
    var sentences := Split(text);
    formattedSentences := [];
    for n := 0 to |sentences|
      invariant formattedSentences == FormatAll(sentences[..n])
    {
      var sentence := Strip(sentences[n]);
      if sentence == [] {
        BlankFragmentSkipped(sentences, n);
        continue;
      }
      if sentence != [] {
        sentence := [UpperChar(sentence[0])] + Lower(sentence[1..]);
      }
      var words := Words(sentence);
      var processedWords := RewriteWords(words);
      sentence := JoinSpaced(processedWords);
      ghost var joined := sentence;
      if !MatchesTerminalAtEnd(sentence) {
        sentence := sentence + ".";
      }
      assert sentence == EnsureTerminal(joined);
      FragmentFormatted(sentences, n);
      formattedSentences := formattedSentences + [sentence];
    }
    assert sentences[..|sentences|] == sentences;
    FormatAllWellFormed(sentences);
  }

  /** A blank fragment leaves the formatted prefix as it was. */
  lemma BlankFragmentSkipped(frags: seq<string>, n: nat)
    requires n < |frags| && Strip(frags[n]) == []
    ensures FormatAll(frags[..n + 1]) == FormatAll(frags[..n])
  {
    assert frags[..n + 1] == frags[..n] + [frags[n]];
    FlatMapSnoc(FormatFragment, frags[..n], frags[n]);
  }

  /** A non-blank fragment adds its sentence, computed step by step as the
      loop body does, to the end of the formatted prefix. */
  lemma FragmentFormatted(frags: seq<string>, n: nat)
    requires n < |frags| && Strip(frags[n]) != []
    ensures var s := Strip(frags[n]);
      FormatAll(frags[..n + 1]) == FormatAll(frags[..n]) +
        [EnsureTerminal(JoinSpaced(RewriteAll(Words([UpperChar(s[0])] + Lower(s[1..])))))]
  {
    assert frags[..n + 1] == frags[..n] + [frags[n]];
    FlatMapSnoc(FormatFragment, frags[..n], frags[n]);
  }

  /** Rewriting keeps a token a token. */
  lemma RewriteWordIsToken(w: string)
    requires IsToken(w)
    ensures IsToken(RewriteWord(w))
  {
    var r := RewriteWord(w);
    if Lower(w) in SPECIAL_CAPITALIZATION {
      forall i | 0 <= i < |r| ensures !IsSpace(r[i]) {
        assert i > 0 ==> r[i] == LowerChar(w[i]);
      }
    }
  }

  /** The three ways a token is rewritten. A proper noun comes out in one
      canonical form, first letter upper and the rest lower, whatever its
      case was; an important word comes out upper-cased between `**` markers;
      any other token is unchanged. */
  lemma RewriteWordCases(w: string)
    ensures Lower(w) in SPECIAL_CAPITALIZATION ==> RewriteWord(w) == Capitalize(Lower(w))
    ensures Lower(w) in IMPORTANT_WORDS ==> RewriteWord(w) == "**" + Upper(Lower(w)) + "**"
    ensures Lower(w) !in SPECIAL_CAPITALIZATION && Lower(w) !in IMPORTANT_WORDS ==>
      RewriteWord(w) == w
  {
    WordListsDisjoint();
    assert Lower(w) in IMPORTANT_WORDS ==> Lower(w) !in SPECIAL_CAPITALIZATION;
    CaseMappingIgnoresPriorCase(w);
    if w != [] {
      LowerIsIdempotent(w[1..]);
      assert Lower(w)[1..] == Lower(w[1..]);
      assert UpperChar(Lower(w)[0]) == UpperChar(w[0]);
    }
  }

  /** A token holding anything but letters, such as "important." with its
      period, is in none of the word sets and is never rewritten. */
  lemma PunctuatedTokenUnchanged(w: string, i: nat)
    requires i < |w| && !IsLetter(w[i])
    ensures RewriteWord(w) == w
  {
    WordListsAreLowerWords();
    assert Lower(w)[i] == w[i];
    assert !IsLowerWord(Lower(w));
  }

  /** Every formatted fragment is a well-formed sentence. */
  lemma FormatSentenceWellFormed(f: string)
    requires Strip(f) != []
    ensures WellFormedSentence(FormatSentence(f))
  {
    var s := Strip(f);
    var normalized := Capitalize(s);
    assert normalized[0] == UpperChar(s[0]);
    var words := Words(normalized);
    var rewritten := RewriteAll(words);
    forall k | 0 <= k < |rewritten| ensures IsToken(rewritten[k]) {
      RewriteWordIsToken(words[k]);
    }
    var joined := JoinSpaced(rewritten);
    JoinIsSingleSpaced(rewritten);
    assert !IsSpace(joined[|joined| - 1]);
    if !MatchesTerminalAtEnd(joined) {
      AppendKeepsSingleSpaced(joined, '.');
    }
  }

  lemma FlatMapSnoc<T, U>(f: T -> seq<U>, xs: seq<T>, x: T)
    ensures FlatMap(f, xs + [x]) == FlatMap(f, xs) + f(x)
  {
    assert (xs + [x])[..|xs|] == xs;
  }

  lemma {:induction false} FlatMapAppend<T, U>(f: T -> seq<U>, a: seq<T>, b: seq<T>)
    ensures FlatMap(f, a + b) == FlatMap(f, a) + FlatMap(f, b)
    decreases |b|
  {
    if b == [] {
      assert a + b == a;
    } else {
      var c, init := a + b, b[..|b| - 1];
      assert c[..|c| - 1] == a + init;
      assert c[|c| - 1] == b[|b| - 1];
      FlatMapAppend(f, a, init);
    }
  }

  lemma {:induction false} FlatMapElements<T, U>(f: T -> seq<U>, xs: seq<T>)
    ensures forall u :: u in FlatMap(f, xs) ==> exists k :: 0 <= k < |xs| && u in f(xs[k])
    ensures forall k, u :: 0 <= k < |xs| && u in f(xs[k]) ==> u in FlatMap(f, xs)
    ensures FlatMap(f, xs) == [] <==> forall k :: 0 <= k < |xs| ==> f(xs[k]) == []
    ensures (forall k :: 0 <= k < |xs| ==> |f(xs[k])| <= 1) ==> |FlatMap(f, xs)| <= |xs|
    decreases |xs|
  {
    if xs != [] {
      var init := xs[..|xs| - 1];
      FlatMapElements(f, init);
      assert forall k :: 0 <= k < |init| ==> init[k] == xs[k];
    }
  }

  /** Formatting distributes over concatenation of fragment sequences: the
      sentences of a later fragment always come after those of an earlier one. */
  lemma FormatAllAppend(a: seq<string>, b: seq<string>)
    ensures FormatAll(a + b) == FormatAll(a) + FormatAll(b)
  {
    FlatMapAppend(FormatFragment, a, b);
  }

  /** A fragment contributes nothing exactly when it is blank, and otherwise
      its one well-formed sentence. */
  lemma FormatFragmentContents(f: string)
    ensures FormatFragment(f) == [] <==> IsBlank(f)
    ensures |FormatFragment(f)| <= 1
    ensures forall s :: s in FormatFragment(f) ==> Strip(f) != [] && s == FormatSentence(f)
    ensures forall s :: s in FormatFragment(f) ==> WellFormedSentence(s)
  {
    StripTrims(f);
    if Strip(f) != [] {
      FormatSentenceWellFormed(f);
    }
  }

  /** What the formatted sequence holds: at most one sentence per fragment,
      all well formed; nothing exactly when every fragment is blank; every
      sentence comes from a non-blank fragment and every non-blank fragment
      gives one. */
  lemma FormatAllContents(frags: seq<string>)
    ensures |FormatAll(frags)| <= |frags|
    ensures forall s :: s in FormatAll(frags) ==> WellFormedSentence(s)
    ensures FormatAll(frags) == [] <==> forall k :: 0 <= k < |frags| ==> IsBlank(frags[k])
    ensures forall s :: s in FormatAll(frags) ==>
      exists k :: 0 <= k < |frags| && Strip(frags[k]) != [] && s == FormatSentence(frags[k])
    ensures forall k :: 0 <= k < |frags| && Strip(frags[k]) != [] ==>
      FormatSentence(frags[k]) in FormatAll(frags)
  {
    FlatMapElements(FormatFragment, frags);
    forall k | 0 <= k < |frags| {
      FormatFragmentContents(frags[k]);
    }
  }

  /** The two facts the program's own loop promises about its result. */
  lemma FormatAllWellFormed(frags: seq<string>)
    ensures |FormatAll(frags)| <= |frags|
    ensures forall s :: s in FormatAll(frags) ==> WellFormedSentence(s)
  {
    FormatAllContents(frags);
  }

  /** Appending `c` to a single-space join is the same as appending it to the
      last token. */
  lemma {:induction false} JoinThenAppend(ws: seq<string>, c: char)
    requires |ws| > 0
    ensures JoinSpaced(ws) + [c] == JoinSpaced(ws[..|ws| - 1] + [ws[|ws| - 1] + [c]])
    decreases |ws|
  {
    if |ws| > 1 {
      var tail := ws[1..];
      JoinThenAppend(tail, c);
      var ws' := ws[..|ws| - 1] + [ws[|ws| - 1] + [c]];
      assert ws'[1..] == tail[..|tail| - 1] + [tail[|tail| - 1] + [c]];
      assert |ws'| > 1 && ws'[0] == ws[0];
    } else {
      assert ws[..0] + [ws[0] + [c]] == [ws[0] + [c]];
    }
  }

  /** The tokens of a formatted sentence are exactly the rewritten tokens of
      the case-normalised fragment, one for one and in order; when a `.` was
      appended it is attached to the last token. */
  lemma FormattedTokens(f: string)
    requires Strip(f) != []
    ensures |NormalizedWords(f)| > 0
    ensures var rw := RewriteAll(NormalizedWords(f));
      Words(FormatSentence(f)) ==
        if MatchesTerminalAtEnd(JoinSpaced(rw)) then rw
        else rw[..|rw| - 1] + [rw[|rw| - 1] + "."]
  {
    var s := Strip(f);
    assert Capitalize(s)[0] == UpperChar(s[0]);
    var rw := RewriteAll(NormalizedWords(f));
    forall k | 0 <= k < |rw| ensures IsToken(rw[k]) {
      RewriteWordIsToken(NormalizedWords(f)[k]);
    }
    if MatchesTerminalAtEnd(JoinSpaced(rw)) {
      WordsOfJoin(rw);
    } else {
      JoinThenAppend(rw, '.');
      var dotted := rw[..|rw| - 1] + [rw[|rw| - 1] + "."];
      assert forall k :: 0 <= k < |rw| - 1 ==> dotted[k] == rw[k];
      assert IsToken(dotted[|rw| - 1]);
      WordsOfJoin(dotted);
    }
  }

  /** A text without `.`, `?` or `!` is one fragment: it becomes a single
      sentence when it is not blank and no sentence when it is. */
  lemma NoPunctuationOneSentence(t: string)
    requires forall j :: 0 <= j < |t| ==> !IsTerminal(t[j])
    ensures Split(t) == [t]
    ensures FormatAll(Split(t)) == if Strip(t) == [] then [] else [FormatSentence(t)]
  {
    NoSplitPointOneFragment(t);
    if Strip(t) != [] {
      FormatSingleFragment(t);
    } else {
      FlatMapSnoc(FormatFragment, [], t);
      assert [] + [t] == [t];
    }
  }

  /** One non-blank fragment gives exactly its formatted sentence. */
  lemma FormatSingleFragment(f: string)
    requires Strip(f) != []
    ensures FormatAll([f]) == [FormatSentence(f)]
  {
    FlatMapSnoc(FormatFragment, [], f);
    assert [] + [f] == [f];
  }

  /** Two non-blank fragments give their formatted sentences, in order. */
  lemma FormatTwoFragments(f: string, g: string)
    requires Strip(f) != [] && Strip(g) != []
    ensures FormatAll([f, g]) == [FormatSentence(f), FormatSentence(g)]
  {
    FormatSingleFragment(f);
    FlatMapSnoc(FormatFragment, [f], g);
    assert [f] + [g] == [f, g];
  }

  /** The empty text has no sentences. */
  lemma EmptyTextNoSentences()
    ensures FormatAll(Split("")) == []
  {
    NoPunctuationOneSentence("");
  }
}
