/** Worked examples of the node, each stated and proved as a lemma. */
module TextProcessorExamples {
  import opened PyStr
  import opened TextProcessorNode

  /** How "x\n\ny\nz" splits: the empty line between x and y is a line of its own. */
  lemma SplitWithBlankLine(x: string, y: string, z: string)
    requires NoLineBreak(x) && NoLineBreak(y) && NoLineBreak(z) && z != []
    ensures SplitLines(x + "\n\n" + y + "\n" + z) == [x, [], y, z]
  {
    var r2 := y + "\n" + z;
    var r1 := [] + "\n" + r2;
    TwoLines(y, z);
    SplitLinesCons([], r2);
    assert SplitLines(r1) == [[], y, z];
    Regroup(x, y, z);
    SplitLinesCons(x, r1);
    assert [x] + [[], y, z] == [x, [], y, z];
  }

  lemma TwoLines(y: string, z: string)
    requires NoLineBreak(y) && NoLineBreak(z) && z != []
    ensures SplitLines(y + "\n" + z) == [y, z]
  {
    SplitLinesSingle(z);
    SplitLinesCons(y, z);
  }

  lemma Regroup(x: string, y: string, z: string)
    ensures x + "\n\n" + y + "\n" + z == x + "\n" + ([] + "\n" + (y + "\n" + z))
  {
    assert "\n\n" == "\n" + "\n";
  }

  /** The empty line is the one the filter drops. */
  lemma DropBlankLine(x: string, y: string, z: string)
    requires !IsBlank(x) && !IsBlank(y) && !IsBlank(z)
    ensures NonBlankLines([x, [], y, z]) == [x, y, z]
  {
    StripEmptyIffBlank(x);
    StripEmptyIffBlank([]);
    NonBlankLinesCons(x, [[], y, z]);
    NonBlankLinesCons([], [y, z]);
    AllKeptStayKept([y, z]);
  }

  lemma JoinThree(x: string, y: string, z: string)
    ensures JoinLines([x, y, z]) == x + "\n" + y + "\n" + z
  {
    assert [x, y, z][1..] == [y, z];
    assert [y, z][1..] == [z];
    assert JoinLines([y, z]) == y + "\n" + z;
    assert JoinLines([x, y, z]) == x + "\n" + (y + "\n" + z);
  }

  /** A blank line between non-blank lines is removed, and index 1 then
      selects the second surviving line ("a\n\nb\nc" gives "a\nb\nc" and "b"). */
  lemma FilterThenSelect(x: string, y: string, z: string, sub: RegexSub)
    requires NoLineBreak(x) && NoLineBreak(y) && NoLineBreak(z)
    requires !IsBlank(x) && !IsBlank(y) && !IsBlank(z)
    ensures Process(x + "\n\n" + y + "\n" + z, true, "", "", 1, sub) == (x + "\n" + y + "\n" + z, y)
  {
    var text, full := x + "\n\n" + y + "\n" + z, x + "\n" + y + "\n" + z;
    SplitWithBlankLine(x, y, z);
    DropBlankLine(x, y, z);
    JoinThree(x, y, z);
    assert RemoveEmptyLines(text) == full;
    assert SplitLines(full) == [x, y, z] by {
      assert x != [];
      SplitJoinRoundTrip([x, y, z]);
    }
    assert GetLineByIndex(full, 1) == (full, y);
  }

  /** Without filtering, a successful substitution on a one-line text gives the
      substituted line as both outputs ("foo bar" with "foo" -> "baz"). */
  lemma SubstituteOneLine(sub: RegexSub)
    requires sub("foo", "baz", "foo bar") == Substituted("baz bar")
    ensures Process("foo bar", false, "foo", "baz", 0, sub) == ("baz bar", "baz bar")
  {
    SplitLinesSingle("baz bar");
  }

  /** An index past the last line yields the placeholder; the text is untouched. */
  lemma IndexPastEnd(sub: RegexSub)
    ensures Process("x\ny", false, "", "", 5, sub) == ("x\ny", "Error: Line 5 not found")
  {
    LinesOfTwo();
    RenderFive();
  }

  lemma LinesOfTwo()
    ensures SplitLines("x\ny") == ["x", "y"]
  {
    assert "x\ny" == "x" + "\n" + "y";
    assert NoLineBreak("x") && NoLineBreak("y") by {
      assert "x"[0] == 'x' && "y"[0] == 'y';
    }
    TwoLines("x", "y");
  }

  lemma RenderFive()
    ensures MissingLine(5) == "Error: Line 5 not found"
  {
    assert IntToString(5) == "5";
  }
}
