# Sentence formatter model

This project models the text formatter in `modify.py`. The program reads a text file and splits the text into sentences. It formats each sentence and writes the sentences to an output file, each followed by a blank line. Formatting a sentence means:

- trim the surrounding whitespace;
- upper-case the first character and lower-case the rest;
- capitalise listed proper nouns;
- upper-case listed important words and wrap them in `**`;
- join the words with single spaces;
- add a final `.` when the sentence has no terminal punctuation.

The modules follow the program's parts:

- `Text` holds ASCII models of the Python string built-ins the formatter uses: `\s` and `\w`, `upper`, `lower`, `capitalize`, `isupper`, `strip`, `split()` and `' '.join`.
- `WordLists` holds the three fixed word sets and `is_abbreviation`.
- `Splitter` holds the sentence-splitting regular expression. It is written as a predicate on positions: `IsSplitPoint(t, i)` holds when the whitespace at `i` follows `.`, `?` or `!`, and neither the initials lookbehind (`U.S.`) nor the title lookbehind (`Mr.`) blocks it.
- `Formatter` holds `process_sentences`. The method `ProcessSentences` keeps the source's two nested loops: the inner word loop is the method `RewriteWords`. It is proved equal to the reference function `FormatAll(Split(text))`, and the output properties are proved about that function.
- `Output` holds the loop that writes each sentence followed by `"\n\n"`. The file is modelled as a class whose content the writes extend. Reading the content back line by line is also modelled.
- `FileGate` holds the accept and reject rules of the two filename prompts, as pure functions of one entered line.
- `Scenarios` traces small inputs through the whole pipeline.

A token is looked up in the word sets with its punctuation still attached. "meeting" is itself one of the important words, while the last token "important." carries the sentence's period and is in no set. So "the URGENT meeting is important." gives "The **URGENT** **MEETING** is important.", and the last word is left as it is. `Scenarios.ImportantWordsEmphasized` and `Formatter.PunctuatedTokenUnchanged` state this behaviour.

The abbreviation list is consulted only by `is_abbreviation`, which nothing calls. The splitter never looks at it, so "co inc. was" still splits after "inc.". This is kept as written; see `Splitter.AbbreviationsDoNotBlockSplit`.

## Model

| member | source | states |
|---|---|---|
| WordLists.COMMON_ABBREVIATIONS | modify.py:11-15 | the abbreviations, as a read-only set |
| WordLists.SPECIAL_CAPITALIZATION | modify.py:17-20 | the proper nouns, as a read-only set |
| WordLists.IMPORTANT_WORDS | modify.py:22-25 | the important words, as a read-only set |
| WordLists.IsAbbreviation | modify.py:27-29 | `is_abbreviation`: the lower-cased word with trailing `.` and `,` removed is a listed abbreviation |
| WordLists.WordListsAreLowerWords | modify.py:11-25 | every entry of the three word sets is a non-empty word of lower-case ASCII letters |
| WordLists.WordListsDisjoint | modify.py:17-25 | no word is both a proper noun and an important word, so the order of the two membership tests never matters |
| WordLists.StripTrailing | modify.py:29 | `rstrip(chars)` returns a prefix of the input; every removed character is in `chars`; the result does not end in one |
| WordLists.StripTrailingUnique | modify.py:29 | those three properties determine the `rstrip` result uniquely |
| WordLists.AbbreviationShape | modify.py:27-29 | a word is an abbreviation exactly when it is a listed abbreviation, in any letter case, followed only by `.` and `,` characters |
| Text.IsSpace | modify.py:36-48 | the whitespace of `\s`, `strip()` and `split()`, over ASCII: codes 9 to 13 and 28 to 32 |
| Text.IsWordChar | modify.py:36 | `\w` over ASCII: letters, digits and `_` |
| Text.Upper | modify.py:58 | `str.upper` applied to each character |
| Text.Lower | modify.py:46-51 | `str.lower` applied to each character |
| Text.Capitalize | modify.py:46-54 | the first character upper-cased and the rest lower-cased, the same length as the input |
| Text.IsUpperCase | modify.py:61 | `str.isupper`: some upper-case letter and no lower-case letter |
| Text.UpperChar | modify.py:46 | upper-casing a character keeps upper-case letters and non-letters, and takes each lower-case letter to its own capital |
| Text.LowerChar | modify.py:46 | lower-casing a character keeps lower-case letters and non-letters, and takes each capital to its own lower-case letter |
| Text.LowerIsIdempotent | modify.py:46 | lower-casing twice is lower-casing once |
| Text.LowerKeepsLowerCase | modify.py:46 | lower-casing a string with no upper-case letter leaves it unchanged |
| Text.LowerAppend | modify.py:46 | lower-casing distributes over concatenation |
| Text.CapitalizeKeepsLowerTail | modify.py:46 | a sentence whose characters after the first are not upper-case letters is normalised by upper-casing its first character alone |
| Text.CaseMappingIgnoresPriorCase | modify.py:51-58 | upper-casing ignores any earlier lower-casing, and lower-casing ignores any earlier upper-casing |
| Text.Strip | modify.py:41 | `str.strip()`: the text between the leading and the trailing whitespace |
| Text.StripOfTrimmed | modify.py:41 | a string that neither starts nor ends with whitespace is its own `strip()` |
| Text.SkipSpaces | modify.py:41 | the scan stops at the first non-whitespace character at or after its start, or at the end, having passed only whitespace |
| Text.SkipSpacesBack | modify.py:41 | the backward scan stops just after the last non-whitespace character before its start, or at 0, having passed only whitespace |
| Text.StripBounds | modify.py:41-43 | the leading scan reaches the end exactly for blank input; otherwise `strip()` is the slice between the two scans, whose end characters are not whitespace |
| Text.StripTrims | modify.py:41-43 | `strip()` is empty exactly for blank input, and a non-empty result neither starts nor ends with whitespace |
| Text.StripRemovesOnlyWhitespace | modify.py:41 | `strip()` is a contiguous slice of the input, and everything before and after that slice is whitespace |
| Text.StripIsIdempotent | modify.py:41 | stripping twice is stripping once |
| Text.TokenLength | modify.py:48 | the length of the maximal non-whitespace run at the start of a string |
| Text.Words | modify.py:48 | `split()` yields only non-empty tokens without whitespace; a string that starts with a non-space starts with its first token |
| Text.WordsOfTokenThen | modify.py:48 | a token followed by whitespace or by the end of the string is the first word |
| Text.WordsOfTokenSpaceThen | modify.py:48 | `split()` of a token, a space and a rest is the token followed by the words of the rest |
| Text.WordsOfJoin | modify.py:67 | splitting a single-space join of tokens returns exactly those tokens |
| Text.JoinSpaced | modify.py:67 | `' '.join`: the tokens with one space between consecutive ones |
| Text.JoinIsSingleSpaced | modify.py:67 | joining tokens gives a non-empty string whose only whitespace is single plain spaces between tokens |
| Text.AppendKeepsSingleSpaced | modify.py:69-70 | appending the `.` keeps a sentence single-spaced |
| Splitter.IsTerminal | modify.py:36 | the characters `.`, `?` and `!`, which `[.!?]$` at modify.py:69 also tests |
| Splitter.AfterTerminal | modify.py:36 | the lookbehind `(?<=\.\|\?\|\!)`: the character before the position is `.`, `?` or `!` |
| Splitter.InitialsBefore | modify.py:36 | the text `\w\.\w.` ends just before the position, with the pattern's final `.` matching anything but a newline |
| Splitter.TitleBefore | modify.py:36 | the text `[A-Z][a-z]\.` ends just before the position |
| Splitter.IsSplitPoint | modify.py:36 | the split pattern matches the character at a position: whitespace after `.`, `?` or `!`, with neither lookbehind blocking |
| Splitter.Split | modify.py:37 | `re.split`: the fragments between consecutive split points |
| Splitter.SplitPointsFrom | modify.py:36 | the split points from a position onward are exactly the positions where the pattern matches, in increasing order |
| Splitter.SplitFrom | modify.py:37 | splitting always yields at least one fragment |
| Splitter.SplitFragmentsAt | modify.py:36-37 | fragment k is the text from just after split point k-1 (or the start) up to split point k (or the end) |
| Splitter.SplitRoundTrip | modify.py:36-37 | there is one more fragment than split points, and putting each removed whitespace character back between consecutive fragments gives the text back exactly |
| Splitter.InnerFragmentsEndInTerminal | modify.py:36-37 | every fragment except the last is non-empty and ends in `.`, `?` or `!` |
| Splitter.SplitFromSkip | modify.py:37 | scanning over positions that are not split points leaves the current fragment open |
| Splitter.NoSplitPointOneFragment | modify.py:36-37 | a text with no split point is a single fragment |
| Splitter.OnlyFinalTerminalOneFragment | modify.py:36-37 | a text whose only terminal punctuation is its last character is a single fragment |
| Splitter.InitialsKeptTogether | modify.py:36 | the initials lookbehind keeps "U.S. x" as one fragment |
| Splitter.TitleKeptTogether | modify.py:36 | the title lookbehind keeps "Mr. x" as one fragment |
| Splitter.AbbreviationsDoNotBlockSplit | modify.py:36-37 | "inc." is an abbreviation, yet "co inc. was" splits after it |
| Formatter.RewriteWord | modify.py:51-65 | one token's rewriting: capitalised when its lower-case form is a proper noun, else upper-cased between `**` when it is an important word, else unchanged |
| Formatter.RewriteAll | modify.py:49-65 | one rewritten token for each token |
| Formatter.RewriteWords | modify.py:49-65 | the word loop, with all four branches, produces each word's rewriting, one for one and in order |
| Formatter.RewriteWordCases | modify.py:51-65 | a proper noun comes out in the single form "first letter upper, rest lower"; an important word comes out upper-cased between `**`; any other token is unchanged |
| Formatter.PunctuatedTokenUnchanged | modify.py:51-59 | a token containing a non-letter, such as "important.", is never rewritten |
| Formatter.RewriteWordIsToken | modify.py:50-65 | rewriting keeps a token a token |
| Formatter.MatchesTerminalAtEnd | modify.py:69 | `re.search(r'[.!?]$', s)`: terminal punctuation at the end, or just before a final newline |
| Formatter.EnsureTerminal | modify.py:69-70 | the result is the sentence or the sentence plus `.`, and it matches `[.!?]$`; a sentence already ending in terminal punctuation is unchanged; `.` is added exactly when there was no match |
| Formatter.FormatSentence | modify.py:45-70 | one non-blank fragment formatted: stripped, case-normalised, rewritten word by word, joined and terminated |
| Formatter.FormatFragment | modify.py:41-72 | what one fragment adds to the output: nothing when blank, else its formatted sentence |
| Formatter.FormatAll | modify.py:39-74 | the fragments' contributions concatenated in order |
| Formatter.BlankFragmentSkipped | modify.py:42-43 | a blank fragment adds nothing to the output: the loop's `continue` |
| Formatter.FragmentFormatted | modify.py:41-72 | a non-blank fragment appends exactly one sentence: the stripped fragment, case-normalised, rewritten word by word, joined, and given a final `.` when needed |
| Formatter.FormatAllWellFormed | modify.py:39-74 | there are at most as many sentences as fragments, and every sentence is well formed |
| Formatter.ProcessSentences | modify.py:31-74 | the loop equals the reference formatting of the split text; every returned sentence is well formed; there are at most as many sentences as fragments |
| Formatter.FormatSentenceWellFormed | modify.py:41-72 | each formatted sentence is non-empty, ends in terminal punctuation, and has no leading, trailing or repeated whitespace and no newline |
| Formatter.FormattedTokens | modify.py:48-70 | the words of a formatted sentence are the rewritten words of the normalised fragment; when a `.` was added, it is attached to the last word |
| Formatter.FormatFragmentContents | modify.py:40-43 | a fragment contributes nothing exactly when it is blank; otherwise it contributes its one formatted sentence |
| Formatter.FormatAllContents | modify.py:39-74 | at most one sentence per fragment, all well formed; no output exactly when every fragment is blank; every output comes from a non-blank fragment, and every non-blank fragment gives one |
| Formatter.FormatAllAppend | modify.py:40-72 | formatting distributes over concatenation of fragment sequences, so order is kept |
| Formatter.FormatSingleFragment | modify.py:40-72 | one non-blank fragment gives exactly its formatted sentence |
| Formatter.FormatTwoFragments | modify.py:40-72 | two non-blank fragments give their two sentences, in order |
| Formatter.NoPunctuationOneSentence | modify.py:36-43 | a text without `.`, `?` or `!` is one fragment, formatted to one sentence, or to none when blank |
| Formatter.EmptyTextNoSentences | modify.py:37-74 | the empty text gives no sentences |
| Scenarios.ProperNounsCapitalized | modify.py:53-54 | "john smith went home." becomes "John Smith went home." |
| Scenarios.ImportantWordsEmphasized | modify.py:57-58 | "the meeting is important." becomes "The **MEETING** is important." |
| Scenarios.TitleFormatted | modify.py:36-72 | "I saw Dr. Who." stays one sentence, since the title lookbehind blocks the split, and is formatted to "I saw dr. who." |
| Scenarios.FormattingNotIdempotent | modify.py:36-46 | "I saw Dr. Who." becomes "I saw dr. who."; formatting that again splits it into "I saw dr." and "Who." |
| Output.OutputFile.Open | modify.py:164 | a file opened for writing starts empty |
| Output.OutputFile.Write | modify.py:166 | a write appends its argument to the content |
| Output.Terminated | modify.py:166 | one sentence as written: the sentence followed by `"\n\n"` |
| Output.Serialize | modify.py:165-166 | each sentence followed by `"\n\n"`, concatenated in order |
| Output.WriteSentences | modify.py:164-166 | the loop appends each sentence followed by `"\n\n"`, in order |
| Output.WriteOutput | modify.py:164-166 | the written file holds the serialisation of the sentences, two characters longer per sentence than the sentences themselves |
| Output.SerializeLength | modify.py:165-166 | the serialisation adds exactly two characters per sentence |
| Output.SerializeAppend | modify.py:165-166 | serialising two sequences one after the other is serialising their concatenation |
| Output.Lines | modify.py:171-172 | reading the file line by line: each line keeps its newline, and a last line without one is still a line |
| Output.NoLineBreak | modify.py:171 | a string with no line feed and no carriage return, on which universal-newline reading translates nothing |
| Output.LineLength | modify.py:171-172 | a line is non-empty for non-empty content, and a line that stops short of the end ends in a newline |
| Output.FirstLineShape | modify.py:171-172 | no newline occurs inside the first line before its last character, and an unterminated last line has no newline at all |
| Output.LinesAppend | modify.py:171-172 | when the first part is empty or ends in a newline, the lines of two concatenated parts are the lines of each part in turn |
| Output.LinesOfBlock | modify.py:165-172 | one written sentence without a line feed or carriage return reads back as its own line followed by an empty line |
| Output.SerializedLines | modify.py:164-172 | reading back sentences that contain no line feed or carriage return gives each sentence's line followed by an empty line |
| Output.SentenceLinesLayout | modify.py:165-166 | n sentences occupy 2n lines: line 2k is sentence k with its newline, and line 2k+1 is empty |
| Output.WellFormedHasNoNewline | modify.py:67-70 | a formatted sentence contains no line feed and no carriage return |
| Output.OutputFileLines | modify.py:162-166 | for every input text, the output file has exactly two lines per formatted sentence, in order |
| FileGate.QUIT_WORDS | modify.py:82 | the keywords that quit the input prompt |
| FileGate.ClassifyInput | modify.py:80-88 | an accepted input name is the stripped entry and is non-empty |
| FileGate.InputDecisionCases | modify.py:80-88 | the prompt quits exactly on a quit keyword in any case and with any padding; it asks again exactly on a blank entry; otherwise it tries the entry as a file name |
| FileGate.ClassifyOutput | modify.py:126-134 | an accepted output name is the stripped entry, non-empty, and different from the input name |
| FileGate.OutputDecisionCases | modify.py:126-134 | the prompt asks again exactly on a blank entry or on the exact input name; otherwise it tries the stripped entry |
| FileGate.DecisionsIgnorePadding | modify.py:80-82 | whitespace around an entry never changes either prompt's decision |
| FileGate.QuitOnlyAtInputPrompt | modify.py:80-82 | " Quit " quits at the input prompt, while "quit" is an ordinary output file name |

## Left out

- The prompting loops in `get_input_filename` and `get_output_filename` (modify.py:76-149) are not modelled. They are console I/O and re-prompting; only their accept and reject rules are kept, in `FileGate`.
- Files are not touched: existence, type and permission checks, reads, the test write of the output file, and the exception handlers (modify.py:90-115, 136-145, 176-178) are all calls into the operating system. `OutputFile` stands for the opened file, and the text to format is a parameter.
- The preview step (modify.py:170-174) reads five lines back and raises when there are fewer. It is console output plus file reading. `Output.Lines` cuts lines only at `'\n'`.
- Newline translation is not modelled. Text mode writes `'\n'` as the platform's line separator, and reading back with universal newlines also ends lines at `'\r'` and `'\r\n'` and turns them into `'\n'`. The lemmas about reading back (`Output.LinesOfBlock`, `Output.SerializedLines`, `Output.OutputFileLines`) therefore speak only of sentences without `'\n'` or `'\r'`, where the translation changes nothing; every formatted sentence is one (`Output.WellFormedHasNoNewline`).
- Unicode is out of scope. Character classes, case mapping, `strip` and `split()` are modelled over ASCII. Non-ASCII whitespace and letters (for example `'ß'.upper()`, which changes length) are outside the model.
- The regular-expression engine is not modelled. The split pattern and `[.!?]$` are written as predicates on positions and on the sentence's end.
- The `isupper` test of the word loop is modelled; both of its outcomes append the word unchanged, so it changes nothing in the result.
- Console messages are not modelled; only the decision each message goes with is kept.
