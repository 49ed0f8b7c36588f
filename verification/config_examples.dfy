/**
 * Worked examples of `loadConfig` on concrete config text; the longer ones
 * are derived from the general lemmas of `Config` and `JsStrings`.
 */
module ConfigExamples {
  import opened JsStrings
  import opened Config

  /** `A=1` stores `A ↦ "1"`. */
  lemma PlainAssignment()
    ensures ParseLine("A=1") == Assign("A", "1")
  {
  }

  /** `B = 2 ` stores `B ↦ "2"`: line, key and value are all trimmed. */
  lemma SpacedAssignment()
    ensures ParseLine("B = 2 ") == Assign("B", "2")
  {
    TrimOfPadded([], "B = 2", " ");
    assert [] + "B = 2" + " " == "B = 2 ";
    assert "B = 2" == "B " + "=" + " 2" + [];
    TrimOfPadded([], "B", " ");
    assert [] + "B" + " " == "B ";
    TrimOfPadded(" ", "2", []);
    assert " " + "2" + [] == " 2";
    ParseLineAssign("B = 2 ", "B ", " 2", []);
  }

  /** `a = b = c` stores `a ↦ "b"`: the text after the second '=' is lost. */
  lemma SecondEqualsDropsRest()
    ensures ParseLine("a = b = c") == Assign("a", "b")
  {
    TrimOfPadded([], "a = b = c", []);
    assert [] + "a = b = c" + [] == "a = b = c";
    assert "a = b = c" == "a " + "=" + " b " + "= c";
    TrimOfPadded([], "a", " ");
    assert [] + "a" + " " == "a ";
    TrimOfPadded(" ", "b", " ");
    assert " " + "b" + " " == " b ";
    ParseLineAssign("a = b = c", "a ", " b ", "= c");
  }

  /** `=v` stores `v` under the empty key. */
  lemma EmptyKey()
    ensures ParseLine("=v") == Assign("", "v")
  {
  }

  /** An indented `#` line is a comment, even when it holds a '='. */
  lemma IndentedComment()
    ensures ParseLine("  # x = y") == Comment
  {
    TrimOfPadded("  ", "# x = y", []);
    assert "  " + "# x = y" + [] == "  # x = y";
    ParseLineCases("  # x = y");
  }

  /** A line with text but no '=' throws. */
  lemma MissingEqualsThrows()
    ensures ParseLine("oops") == Throws
  {
  }

  /** A config file with an assignment, a comment, a blank line and a padded assignment. */
  const SampleText := "A=1\n# comment\n\nB = 2 "

  lemma SampleJoined()
    ensures JoinLines(["A=1", "# comment", "", "B = 2 "], [false, false, false]) == SampleText
  {
    var lines := ["A=1", "# comment", "", "B = 2 "];
    var crlf := [false, false, false];
    assert lines[1..] == ["# comment", "", "B = 2 "];
    assert lines[2..] == ["", "B = 2 "];
    assert lines[3..] == ["B = 2 "];
    assert crlf[1..] == [false, false];
  }

  /** The sample text has four lines, the third one empty. */
  lemma SampleLines()
    ensures SplitLines(SampleText) == ["A=1", "# comment", "", "B = 2 "]
  {
    var lines := ["A=1", "# comment", "", "B = 2 "];
    var crlf := [false, false, false];
    SampleJoined();
    assert forall i :: 0 <= i < |lines| ==> '\n' !in lines[i];
    assert forall i :: 0 <= i < |crlf| && !crlf[i] ==> !EndsWithCR(lines[i]);
    SplitLinesJoinLines(lines, crlf);
  }

  /** `# comment` is a comment. */
  lemma CommentLine()
    ensures ParseLine("# comment") == Comment
  {
  }

  /** The empty line is blank. */
  lemma BlankLine()
    ensures ParseLine("") == Blank
  {
  }

  /** What four lines do, one by one. */
  lemma EffectsOfFour(l0: string, l1: string, l2: string, l3: string)
    ensures Effects([l0, l1, l2, l3]) == [ParseLine(l0), ParseLine(l1), ParseLine(l2), ParseLine(l3)]
  {
  }

  /** What the four sample lines do. */
  lemma SampleEffects()
    ensures Effects(["A=1", "# comment", "", "B = 2 "]) == [Assign("A", "1"), Comment, Blank, Assign("B", "2")]
  {
    EffectsOfFour("A=1", "# comment", "", "B = 2 ");
    PlainAssignment();
    CommentLine();
    BlankLine();
    SpacedAssignment();
  }

  /** The sample effects, applied to an empty `CONFIG`. */
  lemma SampleApply()
    ensures Apply(map[], [Assign("A", "1"), Comment, Blank, Assign("B", "2")]) == Loaded(map["A" := "1", "B" := "2"])
  {
    var effects := [Assign("A", "1"), Comment, Blank, Assign("B", "2")];
    var a: map<string, string> := map["A" := "1"];
    assert effects[..1][..0] == [];
    assert Apply(map[], effects[..1]) == Loaded(a);
    assert effects[..2][..1] == effects[..1];
    assert Apply(map[], effects[..2]) == Loaded(a);
    assert effects[..3][..2] == effects[..2];
    assert Apply(map[], effects[..3]) == Loaded(a);
    assert effects[..3] == effects[..|effects| - 1];
  }

  /** The sample text `A=1`, a comment, a blank line and `B = 2 ` loads `{A: "1", B: "2"}`. */
  lemma SampleConfig()
    ensures Apply(map[], Effects(SplitLines(SampleText))) == Loaded(map["A" := "1", "B" := "2"])
  {
    SampleLines();
    SampleEffects();
    SampleApply();
  }
}
