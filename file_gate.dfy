/** What the two filename prompts do with one line the user entered, before
    any file is touched: the line is stripped, then checked against the quit
    keywords (input prompt only), against emptiness and, for the output
    prompt, against the input file's name. */
module FileGate {
  import opened Text

  /** The answers to the input prompt that end the program. */
  const QUIT_WORDS: set<string> := {"quit", "exit", "q"}

  datatype InputDecision =
    | Quit                       // say goodbye and return nothing
    | NoInputName                // report the empty name and prompt again
    | TryInput(name: string)     // go on to open the named file

  datatype OutputDecision =
    | NoOutputName               // report the empty name and prompt again
    | SameAsInput                // refuse to overwrite the input and prompt again
    | TryOutput(name: string)    // go on to create the named file

  /** One answer to the input-filename prompt. */
  function ClassifyInput(entered: string): (d: InputDecision)
    ensures d.TryInput? ==> d.name == Strip(entered) && d.name != []
  {
    var filename := Strip(entered);
    if Lower(filename) in QUIT_WORDS then Quit
    else if filename == [] then NoInputName
    else TryInput(filename)
  }

  /** One answer to the output-filename prompt, given the accepted input name. */
  function ClassifyOutput(entered: string, inputFilename: string): (d: OutputDecision)
    ensures d.TryOutput? ==> d.name == Strip(entered) && d.name != [] && d.name != inputFilename
  {
    var filename := Strip(entered);
    if filename == [] then NoOutputName
    else if filename == inputFilename then SameAsInput
    else TryOutput(filename)
  }

  /** The input prompt quits exactly on a quit keyword in any letter case,
      with any surrounding whitespace; it asks again exactly on a blank line;
      any other line is tried as a file name. */
  lemma InputDecisionCases(entered: string)
    ensures ClassifyInput(entered) == Quit <==> Lower(Strip(entered)) in QUIT_WORDS
    ensures ClassifyInput(entered) == NoInputName <==> IsBlank(entered)
    ensures ClassifyInput(entered).TryInput? <==>
      !IsBlank(entered) && Lower(Strip(entered)) !in QUIT_WORDS
  {
    StripTrims(entered);
    assert Lower([]) == [];
  }

  /** The output prompt asks again exactly on a blank line or on the input
      file's own name; the comparison is of the exact stripped text. */
  lemma OutputDecisionCases(entered: string, inputFilename: string)
    ensures ClassifyOutput(entered, inputFilename) == NoOutputName <==> IsBlank(entered)
    ensures ClassifyOutput(entered, inputFilename) == SameAsInput <==>
      !IsBlank(entered) && Strip(entered) == inputFilename
    ensures ClassifyOutput(entered, inputFilename) == TryOutput(Strip(entered)) <==>
      !IsBlank(entered) && Strip(entered) != inputFilename
  {
    StripTrims(entered);
  }

  /** Whitespace around an answer changes nothing. */
  lemma DecisionsIgnorePadding(entered: string, inputFilename: string)
    ensures ClassifyInput(Strip(entered)) == ClassifyInput(entered)
    ensures ClassifyOutput(Strip(entered), inputFilename) == ClassifyOutput(entered, inputFilename)
  {
    StripIsIdempotent(entered);
  }

  /** The quit keywords are recognised only at the input prompt: "Quit" ends
      the program there, but is an ordinary output file name. */
  lemma QuitOnlyAtInputPrompt()
    ensures ClassifyInput(" Quit ") == Quit
    ensures ClassifyOutput("quit", "notes.txt") == TryOutput("quit")
  {
    var e := " Quit ";
    assert SkipSpaces(e, 0) == 1 && SkipSpacesBack(e, |e|) == 5;
    assert Strip(e) == "Quit";
    assert Lower("Quit") == "quit";
    assert SkipSpaces("quit", 0) == 0 && SkipSpacesBack("quit", 4) == 4;
    assert Strip("quit") == "quit";
  }
}
