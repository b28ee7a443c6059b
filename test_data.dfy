/** The two system-test adaptors of the file source: they point a source
    configuration at a test file, refusing a configuration that already names
    one. The inline-data adaptor also writes the test tuples to that file,
    one per line. */
module TestData {
  import opened Base

  /** The configuration key naming the file a source reads. */
  const FilePathKey: string := "file_path"

  /** A source configuration: parameter name to value. */
  type Config = map<string, string>

  /** The text written to the inline-data test file: every tuple followed by
      a line break. */
  function Lines(tuples: seq<string>): (text: string)
    ensures tuples == [] <==> text == []
    ensures tuples != [] ==> text[|text| - 1] == '\n'
    decreases |tuples|
  {
    if tuples == [] then [] else tuples[0] + "\n" + Lines(tuples[1..])
  }

  /** The position of the first line break in `text`, or its length when it
      has none. */
  function FirstBreak(text: string): (i: nat)
    ensures i <= |text|
    ensures forall j | 0 <= j < i :: text[j] != '\n'
    ensures i < |text| ==> text[i] == '\n'
  {
    if text == [] || text[0] == '\n' then 0 else 1 + FirstBreak(text[1..])
  }

  /** Reads a text back as lines: the pieces between line breaks, a final
      line without a break counting as a line. */
  function SplitLines(text: string): seq<string>
    decreases |text|
  {
    if text == [] then []
    else
      var i := FirstBreak(text);
      if i == |text| then [text] else [text[..i]] + SplitLines(text[i + 1..])
  }

  predicate OneLine(tuple: string)
  {
    forall j | 0 <= j < |tuple| :: tuple[j] != '\n'
  }

  /** The first line break after a line without one is the one that ends it. */
  lemma FirstBreakAfterLine(line: string, rest: string)
    requires OneLine(line)
    ensures FirstBreak(line + "\n" + rest) == |line|
  {
    var i := FirstBreak(line + "\n" + rest);
    assert (line + "\n" + rest)[|line|] == '\n';
  }

  /** Reading the test file back line by line gives the tuples that were
      written, as long as no tuple itself holds a line break. */
  lemma {:induction false} LinesRoundTrip(tuples: seq<string>)
    requires forall k | 0 <= k < |tuples| :: OneLine(tuples[k])
    ensures SplitLines(Lines(tuples)) == tuples
    decreases |tuples|
  {
    if tuples != [] {
      var text := Lines(tuples);
      var rest := Lines(tuples[1..]);
      FirstBreakAfterLine(tuples[0], rest);
      assert text[..|tuples[0]|] == tuples[0];
      assert text[|tuples[0]| + 1..] == rest;
      LinesRoundTrip(tuples[1..]);
    }
  }

  /** `Lines` grows one line at a time. */
  lemma {:induction false} LinesSnoc(tuples: seq<string>, tuple: string)
    ensures Lines(tuples + [tuple]) == Lines(tuples) + tuple + "\n"
    decreases |tuples|
  {
    if tuples == [] {
      assert [] + [tuple] == [tuple];
    } else {
      assert (tuples + [tuple])[1..] == tuples[1..] + [tuple];
      LinesSnoc(tuples[1..], tuple);
    }
  }

  /** The write loop of the inline-data adaptor: every tuple, then a line
      break, in order. */
  method WriteLines(tuples: seq<string>) returns (text: string)
    ensures text == Lines(tuples)
  {
    text := [];
    for i := 0 to |tuples|
      invariant text == Lines(tuples[..i])
    {
      LinesSnoc(tuples[..i], tuples[i]);
      assert tuples[..i + 1] == tuples[..i] + [tuples[i]];
      text := text + tuples[i] + "\n";
    }
    assert tuples[..|tuples|] == tuples;
  }

  /** `RegisterFileInlineData`: `fileCreated` says whether the test file at
      `testFilePath` could be opened for writing. The result is the updated
      configuration and the text written to the test file. */
  method RegisterFileInlineData(config: Config, testFilePath: string, tuples: seq<string>, fileCreated: bool)
    returns (r: Result<(Config, string)>)
    ensures FilePathKey in config ==> r == Failure(FilePathAlreadySet)
    ensures FilePathKey !in config && !fileCreated ==> r == Failure(CannotOpenTestFile(testFilePath))
    ensures FilePathKey !in config && fileCreated ==>
      && r.Success?
      && r.value.0.Keys == config.Keys + {FilePathKey}
      && r.value.0[FilePathKey] == testFilePath
      && (forall key | key in config :: r.value.0[key] == config[key])
      && r.value.1 == Lines(tuples)
  {
    if FilePathKey in config {
      return Failure(FilePathAlreadySet);
    }
    var updated := config[FilePathKey := testFilePath];
    if !fileCreated {
      return Failure(CannotOpenTestFile(testFilePath));
    }
    var text := WriteLines(tuples);
    r := Success((updated, text));
  }

  /** `RegisterFileFileData`: the same guard, without writing a file. */
  method RegisterFileFileData(config: Config, testFilePath: string) returns (r: Result<Config>)
    ensures FilePathKey in config ==> r == Failure(FilePathAlreadySet)
    ensures FilePathKey !in config ==>
      && r.Success?
      && r.value.Keys == config.Keys + {FilePathKey}
      && r.value[FilePathKey] == testFilePath
      && (forall key | key in config :: r.value[key] == config[key])
  {
    if FilePathKey in config {
      return Failure(FilePathAlreadySet);
    }
    r := Success(config[FilePathKey := testFilePath]);
  }
}
