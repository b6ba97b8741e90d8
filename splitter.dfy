/** The sentence splitter: `re.split` with the pattern
    `(?<!\w\.\w.)(?<![A-Z][a-z]\.)(?<=\.|\?|\!)\s`. Every match is a single
    whitespace character and every lookbehind reads the original text, so the
    matches are exactly the positions where the predicate IsSplitPoint holds,
    and the fragments are the pieces of text between consecutive matches. */
module Splitter {
  import opened Text
  import opened WordLists

  /** The sentence-ending punctuation `.`, `?` and `!`. */
  predicate IsTerminal(c: char) { c == '.' || c == '?' || c == '!' }

  /** `(?<=\.|\?|\!)`: the character before position i ends a sentence. */
  predicate AfterTerminal(t: string, i: nat)
    requires i <= |t|
  {
    i >= 1 && IsTerminal(t[i - 1])
  }

  /** `\w\.\w.` ends at position i: the shape of "U.S." before a space
      (the last `.` of the pattern matches any character but a newline). */
  predicate InitialsBefore(t: string, i: nat)
    requires i <= |t|
  {
    i >= 4 && IsWordChar(t[i - 4]) && t[i - 3] == '.' && IsWordChar(t[i - 2]) && t[i - 1] != '\n'
  }

  /** `[A-Z][a-z]\.` ends at position i: the shape of "Mr." or "Dr.". */
  predicate TitleBefore(t: string, i: nat)
    requires i <= |t|
  {
    i >= 3 && IsUpperLetter(t[i - 3]) && IsLowerLetter(t[i - 2]) && t[i - 1] == '.'
  }

  /** The whole pattern matches the one character at position i. */
  predicate IsSplitPoint(t: string, i: nat)
    requires i < |t|
  {
    !InitialsBefore(t, i) && !TitleBefore(t, i) && AfterTerminal(t, i) && IsSpace(t[i])
  }

  /** The split points at or after position i, in increasing order. */
  function SplitPointsFrom(t: string, i: nat): (ps: seq<nat>)
    requires i <= |t|
    ensures forall k :: 0 <= k < |ps| ==> i <= ps[k] < |t| && IsSplitPoint(t, ps[k])
    ensures forall j :: i <= j < |t| && IsSplitPoint(t, j) ==> j in ps
    ensures forall k, l :: 0 <= k < l < |ps| ==> ps[k] < ps[l]
    decreases |t| - i
  {
    if i == |t| then []
    else
      var rest := SplitPointsFrom(t, i + 1);
      if IsSplitPoint(t, i) then [i] + rest else rest
  }

  /** All matches of the split pattern in t. */
  function SplitPoints(t: string): seq<nat> {
    SplitPointsFrom(t, 0)
  }

  /** The characters of t at the given positions: what the split removes. */
  function CharsAt(t: string, ps: seq<nat>): (cs: string)
    requires forall k :: 0 <= k < |ps| ==> ps[k] < |t|
    ensures |cs| == |ps|
    decreases |ps|
  {
    if ps == [] then [] else [t[ps[0]]] + CharsAt(t, ps[1..])
  }

  /** The whitespace characters the split consumes, one per split point. */
  function Separators(t: string): string {
    CharsAt(t, SplitPoints(t))
  }

  /** The fragments of t[start..], scanning from position i; the current
      fragment began at start. */
  function SplitFrom(t: string, start: nat, i: nat): (frags: seq<string>)
    requires start <= i <= |t|
    ensures |frags| > 0
    decreases |t| - i
  {
    if i == |t| then [t[start..]]
    else if IsSplitPoint(t, i) then [t[start..i]] + SplitFrom(t, i + 1, i + 1)
    else SplitFrom(t, start, i + 1)
  }

  /** `re.split(sentence_endings, text)`. */
  function Split(t: string): seq<string> {
    SplitFrom(t, 0, 0)
  }

  /** Interleave fragments with the separator characters between them. */
  function Rejoin(frags: seq<string>, seps: string): string
    requires |frags| == |seps| + 1
    decreases |seps|
  {
    if seps == [] then frags[0] else frags[0] + [seps[0]] + Rejoin(frags[1..], seps[1..])
  }

  lemma RejoinCons(f: string, c: char, frags: seq<string>, seps: string)
    requires |frags| == |seps| + 1
    ensures Rejoin([f] + frags, [c] + seps) == f + [c] + Rejoin(frags, seps)
  {
    assert ([f] + frags)[1..] == frags;
    assert ([c] + seps)[1..] == seps;
  }

  lemma SliceAround(t: string, start: nat, i: nat)
    requires start <= i < |t|
    ensures t[start..i] + [t[i]] + t[i + 1..] == t[start..]
  {
  }

  lemma {:induction false} SplitFromRoundTrip(t: string, start: nat, i: nat)
    requires start <= i <= |t|
    ensures |SplitFrom(t, start, i)| == |SplitPointsFrom(t, i)| + 1
    ensures Rejoin(SplitFrom(t, start, i), CharsAt(t, SplitPointsFrom(t, i))) == t[start..]
    decreases |t| - i
  {
    if i < |t| {
      if IsSplitPoint(t, i) {
        SplitFromRoundTrip(t, i + 1, i + 1);
        var ps := SplitPointsFrom(t, i + 1);
        var rest := SplitFrom(t, i + 1, i + 1);
        assert SplitFrom(t, start, i) == [t[start..i]] + rest;
        assert SplitPointsFrom(t, i) == [i] + ps;
        assert ([i] + ps)[1..] == ps;
        assert CharsAt(t, [i] + ps) == [t[i]] + CharsAt(t, ps);
        RejoinCons(t[start..i], t[i], rest, CharsAt(t, ps));
        SliceAround(t, start, i);
      } else {
        SplitFromRoundTrip(t, start, i + 1);
      }
    }
  }

  /** The split round trip: there is one fragment more than split points, and
      putting each removed whitespace character back between consecutive
      fragments gives the text back. */
  lemma SplitRoundTrip(t: string)
    ensures |Split(t)| == |SplitPoints(t)| + 1
    ensures Rejoin(Split(t), Separators(t)) == t
  {
    SplitFromRoundTrip(t, 0, 0);
  }

  lemma {:induction false} SplitFromInnerFragments(t: string, start: nat, i: nat)
    requires start <= i <= |t|
    requires start == 0 || IsSpace(t[start - 1])
    ensures forall k :: 0 <= k < |SplitFrom(t, start, i)| - 1 ==>
      |SplitFrom(t, start, i)[k]| > 0 && IsTerminal(SplitFrom(t, start, i)[k][|SplitFrom(t, start, i)[k]| - 1])
    decreases |t| - i
  {
    if i < |t| {
      if IsSplitPoint(t, i) {
        SplitFromInnerFragments(t, i + 1, i + 1);
        var head := t[start..i];
        assert start > 0 ==> t[start - 1] != t[i - 1];
        assert |head| > 0 && head[|head| - 1] == t[i - 1];
      } else {
        SplitFromInnerFragments(t, start, i + 1);
      }
    }
  }

  /** Every fragment but the last is non-empty and ends in `.`, `?` or `!`:
      the character just before a split point. */
  lemma InnerFragmentsEndInTerminal(t: string)
    ensures forall k :: 0 <= k < |Split(t)| - 1 ==>
      |Split(t)[k]| > 0 && IsTerminal(Split(t)[k][|Split(t)[k]| - 1])
  {
    SplitFromInnerFragments(t, 0, 0);
  }

  /** Fragment k of a split that starts at start and cuts at ps: the text
      after the previous cut (or from start) up to the next cut (or the end). */
  function Between(t: string, ps: seq<nat>, start: nat, k: nat): string
    requires k <= |ps|
  {
    var lo := if k == 0 then start else ps[k - 1] + 1;
    var hi := if k < |ps| then ps[k] else |t|;
    if lo <= hi <= |t| then t[lo..hi] else []
  }

  /** A cut at i in front of the later cuts ps shifts every later fragment's
      index by one. */
  lemma BetweenShift(t: string, i: nat, ps: seq<nat>, start: nat, k: nat)
    requires 0 < k <= |ps| + 1
    ensures Between(t, [i] + ps, start, k) == Between(t, ps, i + 1, k - 1)
  {
    assert ([i] + ps)[k - 1] == (if k == 1 then i else ps[k - 2]);
    if k <= |ps| {
      assert ([i] + ps)[k] == ps[k - 1];
    }
  }

  lemma SplitFromBetweenStep(t: string, start: nat, i: nat, ps: seq<nat>, rest: seq<string>)
    requires start <= i < |t| && IsSplitPoint(t, i)
    requires ps == SplitPointsFrom(t, i + 1) && rest == SplitFrom(t, i + 1, i + 1)
    requires |rest| == |ps| + 1
    requires forall k :: 0 <= k < |rest| ==> rest[k] == Between(t, ps, i + 1, k)
    ensures |SplitFrom(t, start, i)| == |SplitPointsFrom(t, i)| + 1
    ensures forall k :: 0 <= k < |SplitFrom(t, start, i)| ==>
      SplitFrom(t, start, i)[k] == Between(t, SplitPointsFrom(t, i), start, k)
  {
    var fs := SplitFrom(t, start, i);
    assert fs == [t[start..i]] + rest;
    assert SplitPointsFrom(t, i) == [i] + ps;
    forall k | 0 <= k < |fs|
      ensures fs[k] == Between(t, [i] + ps, start, k)
    {
      if k > 0 {
        assert fs[k] == rest[k - 1];
        BetweenShift(t, i, ps, start, k);
      }
    }
  }

  lemma {:induction false} SplitFromBetween(t: string, start: nat, i: nat)
    requires start <= i <= |t|
    ensures |SplitFrom(t, start, i)| == |SplitPointsFrom(t, i)| + 1
    ensures forall k :: 0 <= k < |SplitFrom(t, start, i)| ==>
      SplitFrom(t, start, i)[k] == Between(t, SplitPointsFrom(t, i), start, k)
    decreases |t| - i
  {
    if i < |t| {
      if IsSplitPoint(t, i) {
        SplitFromBetween(t, i + 1, i + 1);
        SplitFromBetweenStep(t, start, i, SplitPointsFrom(t, i + 1), SplitFrom(t, i + 1, i + 1));
      } else {
        SplitFromBetween(t, start, i + 1);
      }
    }
  }

  /** Over increasing cuts inside the text, each fragment is a genuine
      slice. */
  lemma BetweenIsSlice(t: string, ps: seq<nat>, k: nat)
    requires k <= |ps|
    requires forall j :: 0 <= j < |ps| ==> ps[j] < |t|
    requires forall j, l :: 0 <= j < l < |ps| ==> ps[j] < ps[l]
    ensures var lo, hi := (if k == 0 then 0 else ps[k - 1] + 1), (if k < |ps| then ps[k] else |t|);
      lo <= hi <= |t| && Between(t, ps, 0, k) == t[lo..hi]
  {
    if 0 < k < |ps| {
      assert ps[k - 1] < ps[k];
    }
  }

  /** Fragments given by Between over increasing cuts inside the text are
      the slices between consecutive cuts. */
  lemma CutsAreSlices(t: string, ps: seq<nat>, fs: seq<string>)
    requires forall j :: 0 <= j < |ps| ==> ps[j] < |t|
    requires forall j, l :: 0 <= j < l < |ps| ==> ps[j] < ps[l]
    requires |fs| == |ps| + 1
    requires forall k :: 0 <= k < |fs| ==> fs[k] == Between(t, ps, 0, k)
    ensures forall k :: 0 <= k < |fs| ==>
      var lo, hi := (if k == 0 then 0 else ps[k - 1] + 1), (if k < |ps| then ps[k] else |t|);
      lo <= hi <= |t| && fs[k] == t[lo..hi]
  {
    forall k | 0 <= k < |fs|
      ensures var lo, hi := (if k == 0 then 0 else ps[k - 1] + 1), (if k < |ps| then ps[k] else |t|);
        lo <= hi <= |t| && fs[k] == t[lo..hi]
    {
      BetweenIsSlice(t, ps, k);
    }
  }

  /** Where the cuts fall: fragment k of the split is the text between split
      point k - 1 (or the start) and split point k (or the end). */
  lemma SplitFragmentsAt(t: string)
    ensures var ps, fs := SplitPoints(t), Split(t);
      |fs| == |ps| + 1 &&
      forall k :: 0 <= k < |fs| ==>
        var lo, hi := (if k == 0 then 0 else ps[k - 1] + 1), (if k < |ps| then ps[k] else |t|);
        lo <= hi <= |t| && fs[k] == t[lo..hi]
  {
    SplitFromBetween(t, 0, 0);
    CutsAreSlices(t, SplitPoints(t), Split(t));
  }

  /** Scanning across positions that are not split points leaves the current
      fragment open. */
  lemma {:induction false} SplitFromSkip(t: string, start: nat, i: nat, j: nat)
    requires start <= i <= j <= |t|
    requires forall p :: i <= p < j ==> !IsSplitPoint(t, p)
    ensures SplitFrom(t, start, i) == SplitFrom(t, start, j)
    decreases j - i
  {
    if i < j {
      SplitFromSkip(t, start, i + 1, j);
    }
  }

  /** A text with no split point is a single fragment. */
  lemma NoSplitPointOneFragment(t: string)
    requires forall p :: 0 <= p < |t| ==> !IsSplitPoint(t, p)
    ensures Split(t) == [t]
  {
    SplitFromSkip(t, 0, 0, |t|);
    assert t[0..] == t;
  }

  /** A text whose only `.`, `?` or `!` is its last character is one
      fragment. */
  lemma OnlyFinalTerminalOneFragment(t: string)
    requires forall j :: 0 <= j < |t| - 1 ==> !IsTerminal(t[j])
    ensures Split(t) == [t]
  {
    NoSplitPointOneFragment(t);
  }

  /** "U.S. x" is one fragment: the initials lookbehind blocks the split. */
  lemma InitialsKeptTogether()
    ensures Split("U.S. x") == ["U.S. x"]
  {
  }

  /** "Mr. x" is one fragment: the title lookbehind blocks the split. */
  lemma TitleKeptTogether()
    ensures Split("Mr. x") == ["Mr. x"]
  {
  }

  /** The abbreviation list is never consulted: "inc." is an abbreviation and
      the text still splits after it. */
  lemma AbbreviationsDoNotBlockSplit()
    ensures IsAbbreviation("inc.")
    ensures Split("co inc. was") == ["co inc.", "was"]
  {
    assert Lower("inc.") == "inc.";
    StripTrailingUnique("inc.", {'.', ','}, "inc");
    var t := "co inc. was";
    assert SplitFrom(t, 8, 8) == ["was"];
    assert IsSplitPoint(t, 7) && t[0..7] == "co inc.";
    assert SplitFrom(t, 0, 7) == ["co inc.", "was"];
    assert !IsSplitPoint(t, 2);
    assert SplitFrom(t, 0, 0) == SplitFrom(t, 0, 7);
  }
}
