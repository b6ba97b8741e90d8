/** ASCII models of the Python string built-ins the formatter is built from:
    the character classes behind `\s` and `\w`, case mapping, `str.strip()`,
    `str.split()` with no separator and `' '.join(...)`. */
module Text {

  /** Python whitespace restricted to ASCII (the set `str.isspace`, `str.strip`,
      `str.split` and the regex class `\s` agree on): tab, line feed, vertical
      tab, form feed, carriage return, the separators 0x1C-0x1F and space. */
  predicate IsSpace(c: char) {
    9 <= c as int <= 13 || 28 <= c as int <= 32
  }

  predicate IsUpperLetter(c: char) { 'A' <= c <= 'Z' }

  predicate IsLowerLetter(c: char) { 'a' <= c <= 'z' }

  predicate IsLetter(c: char) { IsUpperLetter(c) || IsLowerLetter(c) }

  /** The regex class `\w` over ASCII: letters, digits and the underscore. */
  predicate IsWordChar(c: char) { IsLetter(c) || ('0' <= c <= '9') || c == '_' }

  /** `str.upper` on one character. */
  function UpperChar(c: char): (u: char)
    ensures !IsLowerLetter(u)
    ensures IsLetter(u) == IsLetter(c) && IsSpace(u) == IsSpace(c)
    ensures !IsLetter(c) ==> u == c
    ensures IsUpperLetter(c) ==> u == c
    ensures IsLowerLetter(c) ==> u as int - 'A' as int == c as int - 'a' as int
  {
    if IsLowerLetter(c) then (c as int - 32) as char else c
  }

  /** `str.lower` on one character. */
  function LowerChar(c: char): (l: char)
    ensures !IsUpperLetter(l)
    ensures IsLetter(l) == IsLetter(c) && IsSpace(l) == IsSpace(c)
    ensures !IsLetter(c) ==> l == c
    ensures IsLowerLetter(c) ==> l == c
    ensures IsUpperLetter(c) ==> l as int - 'a' as int == c as int - 'A' as int
  {
    if IsUpperLetter(c) then (c as int + 32) as char else c
  }

  function Upper(s: string): string {
    seq(|s|, i requires 0 <= i < |s| => UpperChar(s[i]))
  }

  function Lower(s: string): string {
    seq(|s|, i requires 0 <= i < |s| => LowerChar(s[i]))
  }

  /** `str.capitalize`: the first character upper-cased, the rest lower-cased.
      The formatter's `sentence[0].upper() + sentence[1:].lower()` is the same
      expression on a non-empty sentence. */
  function Capitalize(s: string): (r: string)
    ensures |r| == |s|
  {
    if s == [] then [] else [UpperChar(s[0])] + Lower(s[1..])
  }

  /** `str.isupper`: at least one cased character and no lower-case one. */
  predicate IsUpperCase(s: string) {
    (exists i :: 0 <= i < |s| && IsUpperLetter(s[i])) &&
    (forall i :: 0 <= i < |s| ==> !IsLowerLetter(s[i]))
  }

  lemma LowerIsIdempotent(s: string)
    ensures Lower(Lower(s)) == Lower(s)
  {
  }

  lemma CaseMappingIgnoresPriorCase(s: string)
    ensures Upper(Lower(s)) == Upper(s) && Lower(Upper(s)) == Lower(s)
  {
  }

  /** Lower-casing leaves a string without upper-case letters as it is. */
  lemma LowerKeepsLowerCase(s: string)
    requires forall i :: 0 <= i < |s| ==> !IsUpperLetter(s[i])
    ensures Lower(s) == s
  {
  }

  /** A string whose characters after the first are not upper-case letters
      capitalises to its first character upper-cased followed by the rest
      as it is. */
  lemma CapitalizeKeepsLowerTail(s: string)
    requires s != []
    requires forall i :: 1 <= i < |s| ==> !IsUpperLetter(s[i])
    ensures Capitalize(s) == [UpperChar(s[0])] + s[1..]
  {
    LowerKeepsLowerCase(s[1..]);
  }

  /** Lower-casing works character by character, so it distributes over
      concatenation. */
  lemma LowerAppend(a: string, b: string)
    ensures Lower(a + b) == Lower(a) + Lower(b)
  {
  }

  /** The first position at or after i that does not hold whitespace, or |s|. */
  function SkipSpaces(s: string, i: nat): (n: nat)
    requires i <= |s|
    ensures i <= n <= |s|
    ensures forall k :: i <= k < n ==> IsSpace(s[k])
    ensures n == |s| || !IsSpace(s[n])
    decreases |s| - i
  {
    if i == |s| || !IsSpace(s[i]) then i else SkipSpaces(s, i + 1)
  }

  /** The end of s[..j] once its trailing whitespace is dropped. */
  function SkipSpacesBack(s: string, j: nat): (n: nat)
    requires j <= |s|
    ensures n <= j
    ensures forall k :: n <= k < j ==> IsSpace(s[k])
    ensures n == 0 || !IsSpace(s[n - 1])
  {
    if j == 0 || !IsSpace(s[j - 1]) then j else SkipSpacesBack(s, j - 1)
  }

  /** True when every character of s is whitespace (vacuously for ""). */
  predicate IsBlank(s: string) {
    forall i :: 0 <= i < |s| ==> IsSpace(s[i])
  }

  /** `str.strip()` with no argument (StripTrims states what it gives). */
  function Strip(s: string): string {
    var a, b := SkipSpaces(s, 0), SkipSpacesBack(s, |s|);
    if a == |s| then [] else s[a..b]
  }

  /** Dropping whitespace from both ends leaves a non-empty middle exactly when
      s is not blank; the middle starts and ends with non-whitespace. */
  lemma StripBounds(s: string)
    ensures var a, b := SkipSpaces(s, 0), SkipSpacesBack(s, |s|);
      (a == |s| <==> IsBlank(s)) &&
      (a < |s| ==> a < b && !IsSpace(s[a]) && !IsSpace(s[b - 1]) && Strip(s) == s[a..b])
  {
    var a, b := SkipSpaces(s, 0), SkipSpacesBack(s, |s|);
    if a < |s| {
      assert !IsSpace(s[a]);
    }
  }

  /** A string that neither starts nor ends with whitespace is its own
      `strip()`. */
  lemma StripOfTrimmed(s: string)
    requires s != [] && !IsSpace(s[0]) && !IsSpace(s[|s| - 1])
    ensures Strip(s) == s
  {
    assert SkipSpaces(s, 0) == 0;
    assert SkipSpacesBack(s, |s|) == |s|;
  }

  /** The stripped string is empty exactly for blank input, and otherwise
      neither starts nor ends with whitespace. */
  lemma StripTrims(s: string)
    ensures Strip(s) == [] <==> IsBlank(s)
    ensures var r := Strip(s);
      r == [] || (!IsSpace(r[0]) && !IsSpace(r[|r| - 1]))
  {
    StripBounds(s);
    var a, b := SkipSpaces(s, 0), SkipSpacesBack(s, |s|);
    if a < |s| {
      var r := s[a..b];
      assert r[0] == s[a] && r[|r| - 1] == s[b - 1];
    }
  }

  /** Strip removes whitespace only, and only from the two ends: the result
      is a contiguous part of s and every character outside it is
      whitespace. */
  lemma StripRemovesOnlyWhitespace(s: string)
    ensures var a := SkipSpaces(s, 0);
      a + |Strip(s)| <= |s| && Strip(s) == s[a..a + |Strip(s)|] &&
      (forall i :: 0 <= i < a ==> IsSpace(s[i])) &&
      (forall i :: a + |Strip(s)| <= i < |s| ==> IsSpace(s[i]))
  {
    StripBounds(s);
    var a, b := SkipSpaces(s, 0), SkipSpacesBack(s, |s|);
    if a < |s| {
      assert a + |Strip(s)| == b;
    } else {
      assert s[a..a] == [];
    }
  }

  /** Stripping twice is stripping once. */
  lemma StripIsIdempotent(s: string)
    ensures Strip(Strip(s)) == Strip(s)
  {
    StripTrims(s);
    var r := Strip(s);
    if r != [] {
      assert SkipSpaces(r, 0) == 0 && SkipSpacesBack(r, |r|) == |r|;
      assert r[0..|r|] == r;
    }
  }

  /** A non-empty run of non-whitespace characters. */
  predicate IsToken(w: string) {
    |w| > 0 && forall i :: 0 <= i < |w| ==> !IsSpace(w[i])
  }

  /** The length of the run of non-whitespace characters that starts s. */
  function TokenLength(s: string): (n: nat)
    ensures n <= |s|
    ensures forall i :: 0 <= i < n ==> !IsSpace(s[i])
    ensures n == |s| || IsSpace(s[n])
  {
    if s == [] || IsSpace(s[0]) then 0 else 1 + TokenLength(s[1..])
  }

  /** `str.split()` with no separator: the maximal runs of non-whitespace
      characters, in order; runs of whitespace separate, none are kept. */
  function Words(s: string): (ws: seq<string>)
    ensures forall k :: 0 <= k < |ws| ==> IsToken(ws[k])
    ensures s != [] && !IsSpace(s[0]) ==> |ws| > 0 && ws[0] == s[..TokenLength(s)]
    decreases |s|
  {
    if s == [] then []
    else if IsSpace(s[0]) then Words(s[1..])
    else
      var n := TokenLength(s);
      [s[..n]] + Words(s[n..])
  }

  /** `' '.join(ws)`. */
  function JoinSpaced(ws: seq<string>): string
    decreases |ws|
  {
    if ws == [] then [] else if |ws| == 1 then ws[0] else ws[0] + " " + JoinSpaced(ws[1..])
  }

  /** The only whitespace is the plain space, every space sits strictly inside
      the string and between two non-whitespace characters. */
  predicate SingleSpaced(s: string) {
    forall i :: 0 <= i < |s| && IsSpace(s[i]) ==>
      s[i] == ' ' && 0 < i < |s| - 1 && !IsSpace(s[i - 1]) && !IsSpace(s[i + 1])
  }

  /** A token followed by a whitespace boundary is the first word. */
  lemma WordsOfTokenThen(w: string, rest: string)
    requires IsToken(w) && (rest == [] || IsSpace(rest[0]))
    ensures Words(w + rest) == [w] + Words(rest)
  {
    var s := w + rest;
    var n := TokenLength(s);
    assert forall i :: 0 <= i < |w| ==> s[i] == w[i];
    assert |w| < |s| ==> s[|w|] == rest[0];
    assert n == |w|;
    assert s[..n] == w && s[n..] == rest;
  }

  lemma WordsAfterSpace(s: string)
    requires s != [] && IsSpace(s[0])
    ensures Words(s) == Words(s[1..])
  {
  }

  lemma JoinCons(ws: seq<string>)
    requires |ws| > 1
    ensures JoinSpaced(ws) == ws[0] + (" " + JoinSpaced(ws[1..]))
  {
  }

  lemma WordsOfToken(w: string)
    requires IsToken(w)
    ensures Words(w) == [w]
  {
    WordsOfTokenThen(w, []);
    assert w + [] == w;
  }

  lemma WordsOfTokenSpaceThen(w: string, r: string)
    requires IsToken(w)
    ensures Words(w + (" " + r)) == [w] + Words(r)
  {
    var rest := " " + r;
    WordsOfTokenThen(w, rest);
    WordsAfterSpace(rest);
    assert rest[1..] == r;
  }

  /** One token in front of a join whose words are known. */
  lemma WordsOfJoinStep(ws: seq<string>)
    requires |ws| > 1 && IsToken(ws[0])
    requires Words(JoinSpaced(ws[1..])) == ws[1..]
    ensures Words(JoinSpaced(ws)) == ws
  {
    WordsOfTokenSpaceThen(ws[0], JoinSpaced(ws[1..]));
    JoinCons(ws);
    assert [ws[0]] + ws[1..] == ws;
  }

  /** Splitting a single-space join of tokens gives the tokens back. */
  lemma {:induction false} WordsOfJoin(ws: seq<string>)
    requires forall k :: 0 <= k < |ws| ==> IsToken(ws[k])
    ensures Words(JoinSpaced(ws)) == ws
    decreases |ws|
  {
    if |ws| == 1 {
      WordsOfToken(ws[0]);
    } else if |ws| > 1 {
      assert forall k :: 0 <= k < |ws[1..]| ==> IsToken(ws[1..][k]);
      WordsOfJoin(ws[1..]);
      WordsOfJoinStep(ws);
    }
  }

  /** Joining a non-empty sequence of tokens with single spaces gives a
      non-empty, single-spaced string. */
  lemma {:induction false} JoinIsSingleSpaced(ws: seq<string>)
    requires |ws| > 0
    requires forall k :: 0 <= k < |ws| ==> IsToken(ws[k])
    ensures |JoinSpaced(ws)| > 0 && SingleSpaced(JoinSpaced(ws))
    decreases |ws|
  {
    if |ws| > 1 {
      var w, r := ws[0], JoinSpaced(ws[1..]);
      JoinIsSingleSpaced(ws[1..]);
      var j := w + " " + r;
      assert !IsSpace(r[0]);
      forall i | 0 <= i < |j|
        ensures IsSpace(j[i]) ==>
          j[i] == ' ' && 0 < i < |j| - 1 && !IsSpace(j[i - 1]) && !IsSpace(j[i + 1])
      {
        if i < |w| {
          assert j[i] == w[i];
        } else if i == |w| {
          assert j[i - 1] == w[|w| - 1] && j[i + 1] == r[0];
        } else {
          var k := i - |w| - 1;
          assert j[i] == r[k];
          if IsSpace(r[k]) {
            assert j[i - 1] == r[k - 1] && j[i + 1] == r[k + 1];
          }
        }
      }
    } else {
      assert JoinSpaced(ws) == ws[0];
    }
  }

  /** Appending a non-whitespace character to a single-spaced string that does
      not end in whitespace keeps it single-spaced. */
  lemma AppendKeepsSingleSpaced(s: string, c: char)
    requires |s| > 0 && SingleSpaced(s) && !IsSpace(c)
    ensures SingleSpaced(s + [c])
  {
    var t := s + [c];
    forall i | 0 <= i < |t|
      ensures IsSpace(t[i]) ==>
        t[i] == ' ' && 0 < i < |t| - 1 && !IsSpace(t[i - 1]) && !IsSpace(t[i + 1])
    {
      if i < |s| {
        assert t[i] == s[i];
        if IsSpace(s[i]) {
          assert t[i - 1] == s[i - 1] && t[i + 1] == s[i + 1];
        }
      }
    }
  }
}
