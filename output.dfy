/** Writing the formatted sentences to the output file: every sentence is
    followed by a blank line, and reading the file back line by line gives
    each sentence and then an empty line. */
module Output {
  import opened Text
  import opened Splitter
  import opened Formatter

  /** What one sentence contributes to the file. */
  function Terminated(s: string): string {
    s + "\n\n"
  }

  /** The file content for a sequence of sentences, in order. */
  function Serialize(sentences: seq<string>): string {
    FlatMap(Terminated, sentences)
  }

  /** An output file opened for writing: its content so far. */
  class OutputFile {
    var content: string

    /** `open(name, 'w')`: the file starts out empty. */
    constructor Open()
      ensures content == []
    {
      content := [];
    }

    /** `outfile.write(s)`: s is appended. */
    method Write(s: string)
      modifies this
      ensures content == old(content) + s
    {
      content := content + s;
    }
  }

  /** The loop over the formatted sentences, one `write` per sentence. */
  method WriteSentences(outfile: OutputFile, formattedSentences: seq<string>)
    modifies outfile
    ensures outfile.content == old(outfile.content) + Serialize(formattedSentences)
  {
    ghost var start := outfile.content;
    for n := 0 to |formattedSentences|
      invariant outfile.content == start + Serialize(formattedSentences[..n])
    {
      var sentence := formattedSentences[n];
      assert formattedSentences[..n + 1] == formattedSentences[..n] + [sentence];
      FlatMapSnoc(Terminated, formattedSentences[..n], sentence);
      outfile.Write(sentence + "\n\n");
    }
    assert formattedSentences[..|formattedSentences|] == formattedSentences;
  }

  /** What the output file holds once the `with` block has closed it. */
  method WriteOutput(formattedSentences: seq<string>) returns (content: string)
    ensures content == Serialize(formattedSentences)
    ensures |content| == |formattedSentences| * 2 + SumOfLengths(formattedSentences)
  {
    var outfile := new OutputFile.Open();
    WriteSentences(outfile, formattedSentences);
    content := outfile.content;
    SerializeLength(formattedSentences);
  }

  function SumOfLengths(ss: seq<string>): nat
    decreases |ss|
  {
    if ss == [] then 0 else SumOfLengths(ss[..|ss| - 1]) + |ss[|ss| - 1]|
  }

  /** Two newline characters are added per sentence and nothing else. */
  lemma {:induction false} SerializeLength(ss: seq<string>)
    ensures |Serialize(ss)| == |ss| * 2 + SumOfLengths(ss)
    decreases |ss|
  {
    if ss != [] {
      SerializeLength(ss[..|ss| - 1]);
    }
  }

  /** The content of the file for the sentences of a then those of b. */
  lemma SerializeAppend(a: seq<string>, b: seq<string>)
    ensures Serialize(a + b) == Serialize(a) + Serialize(b)
  {
    FlatMapAppend(Terminated, a, b);
  }

  /** The length of the first line of c: up to and including its first
      newline, or all of c when it holds none. */
  function LineLength(c: string): (n: nat)
    ensures n <= |c|
    ensures c != [] ==> n > 0
    ensures n < |c| ==> c[n - 1] == '\n'
    decreases |c|
  {
    if c == [] then 0 else if c[0] == '\n' then 1 else 1 + LineLength(c[1..])
  }

  /** The first line holds no newline before its last character, and it ends
      in one unless it runs to the end of the text. */
  lemma {:induction false} FirstLineShape(c: string)
    ensures var n := LineLength(c);
      (forall i :: 0 <= i < n - 1 ==> c[i] != '\n') &&
      (n == |c| && n > 0 && c[n - 1] != '\n' ==> forall i :: 0 <= i < n ==> c[i] != '\n')
    decreases |c|
  {
    if c != [] && c[0] != '\n' {
      FirstLineShape(c[1..]);
      assert forall i :: 1 <= i < |c| ==> c[i] == c[1..][i - 1];
    }
  }

  /** Reading a text file line by line: every line keeps its newline, and a
      last line without one is still a line. */
  function Lines(c: string): seq<string>
    decreases |c|
  {
    if c == [] then [] else [c[..LineLength(c)]] + Lines(c[LineLength(c)..])
  }

  /** A string with neither a line feed nor a carriage return: reading such
      text back with universal newlines translates nothing, and lines end only
      at the written '\n'. */
  predicate NoLineBreak(s: string) {
    forall i :: 0 <= i < |s| ==> s[i] != '\n' && s[i] != '\r'
  }

  /** The lines a sentence without a newline occupies in the file. */
  function SentenceLines(s: string): seq<string> {
    [s + "\n", "\n"]
  }

  lemma LineLengthOfLine(s: string, rest: string)
    requires forall i :: 0 <= i < |s| ==> s[i] != '\n'
    ensures LineLength(s + "\n" + rest) == |s| + 1
    decreases |s|
  {
    var c := s + "\n" + rest;
    if s != [] {
      LineLengthOfLine(s[1..], rest);
      assert c[1..] == s[1..] + "\n" + rest;
    }
  }

  /** A line that ends in a newline is read as a line of its own. */
  lemma LinesCons(s: string, rest: string)
    requires forall i :: 0 <= i < |s| ==> s[i] != '\n'
    ensures Lines(s + "\n" + rest) == [s + "\n"] + Lines(rest)
  {
    var c := s + "\n" + rest;
    LineLengthOfLine(s, rest);
    assert c[..|s| + 1] == s + "\n";
    assert c[|s| + 1..] == rest;
  }

  /** Reading back the file written for sentences without a newline gives
      each sentence's two lines, in order. */
  lemma {:induction false} SerializedLines(ss: seq<string>)
    requires forall k :: 0 <= k < |ss| ==> NoLineBreak(ss[k])
    ensures Lines(Serialize(ss)) == FlatMap(SentenceLines, ss)
    decreases |ss|
  {
    if ss != [] {
      var init, last := ss[..|ss| - 1], ss[|ss| - 1];
      SerializedLines(init);
      SerializeEndsInNewline(init);
      LinesAppend(Serialize(init), Terminated(last));
      LinesOfBlock(last);
    }
  }

  /** The serialisation is empty or ends in a newline. */
  lemma SerializeEndsInNewline(ss: seq<string>)
    ensures Serialize(ss) == [] || Serialize(ss)[|Serialize(ss)| - 1] == '\n'
  {
    if ss != [] {
      var init, last := ss[..|ss| - 1], ss[|ss| - 1];
      assert Serialize(ss) == Serialize(init) + (last + "\n\n");
    }
  }

  /** One sentence's block is read back as the sentence's line and an empty
      line. */
  lemma LinesOfBlock(s: string)
    requires NoLineBreak(s)
    ensures Lines(Terminated(s)) == SentenceLines(s)
  {
    assert Terminated(s) == s + "\n" + "\n";
    LinesCons(s, "\n");
    assert Lines("\n") == ["\n"] by {
      LinesCons([], []);
      assert [] + "\n" + [] == "\n" && [] + "\n" == "\n";
    }
  }

  lemma AppendAssoc<T>(a: seq<T>, b: seq<T>, c: seq<T>)
    ensures a + (b + c) == (a + b) + c
  {
  }

  lemma LinesAppendEmpty(c: string, d: string)
    requires c == []
    ensures Lines(c + d) == Lines(c) + Lines(d)
  {
    assert c + d == d;
  }

  /** Lines are cut the same way on either side of a boundary that follows a
      newline. */
  lemma {:induction false} LinesAppend(c: string, d: string)
    requires c == [] || c[|c| - 1] == '\n'
    ensures Lines(c + d) == Lines(c) + Lines(d)
    decreases |c|
  {
    if c != [] {
      var n := LineLength(c);
      var first, tail := c[..n], c[n..];
      LinesAfterFirstLine(c, d);
      LinesAppend(tail, d);
      AppendAssoc([first], Lines(tail), Lines(d));
    } else {
      LinesAppendEmpty(c, d);
    }
  }

  /** Text appended after a complete last line does not change how the lines
      of c are cut: the first line stays the same. */
  lemma LinesAfterFirstLine(c: string, d: string)
    requires c != [] && c[|c| - 1] == '\n'
    ensures var n := LineLength(c);
      Lines(c + d) == [c[..n]] + Lines(c[n..] + d) &&
      Lines(c) == [c[..n]] + Lines(c[n..]) &&
      (c[n..] == [] || c[n..][|c[n..]| - 1] == '\n')
  {
    var n := LineLength(c);
    LineLengthPrefix(c, d);
    assert (c + d)[..n] == c[..n];
    assert (c + d)[n..] == c[n..] + d;
  }

  lemma {:induction false} LineLengthPrefix(c: string, d: string)
    requires c != [] && c[|c| - 1] == '\n'
    ensures LineLength(c + d) == LineLength(c)
    decreases |c|
  {
    var cd := c + d;
    if c[0] != '\n' {
      assert |c| > 1;
      LineLengthPrefix(c[1..], d);
      assert cd[1..] == c[1..] + d;
    }
  }

  /** The blank line after each sentence: the file for n sentences has 2n
      lines, the sentence itself and then an empty line. */
  lemma {:induction false} SentenceLinesLayout(ss: seq<string>)
    ensures |FlatMap(SentenceLines, ss)| == 2 * |ss|
    ensures forall k :: 0 <= k < |ss| ==>
      FlatMap(SentenceLines, ss)[2 * k] == ss[k] + "\n" && FlatMap(SentenceLines, ss)[2 * k + 1] == "\n"
    decreases |ss|
  {
    if ss != [] {
      var init := ss[..|ss| - 1];
      SentenceLinesLayout(init);
      assert forall k :: 0 <= k < |init| ==> init[k] == ss[k];
    }
  }

  /** A formatted sentence holds no line feed and no carriage return. */
  lemma WellFormedHasNoNewline(s: string)
    requires WellFormedSentence(s)
    ensures NoLineBreak(s)
  {
    forall i | 0 <= i < |s| ensures s[i] != '\n' && s[i] != '\r' {
      if s[i] == '\n' || s[i] == '\r' {
        assert IsSpace(s[i]);
      }
    }
  }

  /** The output file of the program: for every input text it has two lines
      per formatted sentence, the sentence and a blank line, in order. */
  lemma OutputFileLines(text: string)
    ensures var ss := FormatAll(Split(text));
      |Lines(Serialize(ss))| == 2 * |ss| &&
      forall k :: 0 <= k < |ss| ==>
        Lines(Serialize(ss))[2 * k] == ss[k] + "\n" && Lines(Serialize(ss))[2 * k + 1] == "\n"
  {
    var ss := FormatAll(Split(text));
    FormatAllContents(Split(text));
    forall k | 0 <= k < |ss| ensures NoLineBreak(ss[k]) {
      assert ss[k] in ss;
      WellFormedHasNoNewline(ss[k]);
    }
    SerializedLines(ss);
    SentenceLinesLayout(ss);
  }
}
