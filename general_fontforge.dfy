/** Checks over FontForge's validation of the font: com.google.fonts/check/038 (its stderr)
    and check/039 (its `validation_state` bits). */
module GeneralFontForge {
  import opened Results
  import opened Strings

  // ---------------------------------------------------------------- check/038

  const IgnoredFontForgeLines := [
    "The following table(s) in the font have been ignored by FontForge",
    "Ignoring 'DSIG' digital signature table"
  ]

  /** The error text check/038 reports: the lines of `errMessages` that mention none of the
      ignored phrases, each with its newline. */
  function FilteredErrors(errMessages: string): string
  {
    Unlines(KeepLines(Split(errMessages, '\n'), IgnoredFontForgeLines))
  }

  /** check/038: drop the lines about ignored tables and the DSIG signature; a single FAIL
      when what is left is not blank, otherwise a single PASS. */
  method CheckFontForgeMessages(errMessages: string) returns (results: seq<Diagnostic>)
    ensures results == if |Strip(FilteredErrors(errMessages), Unicode)| > 0
      then [Diagnostic(FAIL, Text("fontforge did print these messages to stderr:\n" + FilteredErrors(errMessages)))]
      else [Diagnostic(PASS, Text("fontforge validation did not output any error message."))]
    ensures |results| == 1
    ensures results[0].status == FAIL <==> ReportsSomething(Split(errMessages, '\n'))
    ensures results[0].status == PASS <==> results[0].status != FAIL
  {
    var lines := Split(errMessages, '\n');
    var filtered := "";
    var i := 0;
    while i < |lines|
      invariant 0 <= i <= |lines|
      invariant filtered == Unlines(KeepLines(lines[..i], IgnoredFontForgeLines))
    {
      var line := lines[i];
      assert lines[..i + 1][..i] == lines[..i];
      if Contains(line, IgnoredFontForgeLines[0]) {
        assert MentionsAny(line, IgnoredFontForgeLines);
      } else if Contains(line, IgnoredFontForgeLines[1]) {
        assert MentionsAny(line, IgnoredFontForgeLines);
      } else {
        filtered := filtered + line + "\n";
      }
      i := i + 1;
    }
    assert lines[..i] == lines;
    BlankAfterFiltering(errMessages);
    if |Strip(filtered, Unicode)| > 0 {
      results := [Diagnostic(FAIL, Text("fontforge did print these messages to stderr:\n" + filtered))];
    } else {
      results := [Diagnostic(PASS, Text("fontforge validation did not output any error message."))];
    }
  }

  /** Some line mentions no ignored phrase and is not blank. */
  predicate ReportsSomething(lines: seq<string>)
  {
    exists i :: 0 <= i < |lines| && !MentionsAny(lines[i], IgnoredFontForgeLines) && !AllSpace(lines[i], Unicode)
  }

  /** The filtered text is blank iff every line that mentions no ignored phrase is blank. */
  lemma BlankAfterFiltering(errMessages: string)
    ensures |Strip(FilteredErrors(errMessages), Unicode)| > 0 <==> ReportsSomething(Split(errMessages, '\n'))
  {
    var lines := Split(errMessages, '\n');
    var kept := KeepLines(lines, IgnoredFontForgeLines);
    StripEmpty(FilteredErrors(errMessages), Unicode);
    UnlinesBlank(kept, Unicode);
    KeepLinesMembers(lines, IgnoredFontForgeLines);
    assert FilteredErrors(errMessages) == Unlines(kept);
    if |Strip(FilteredErrors(errMessages), Unicode)| > 0 {
      assert !AllSpace(Unlines(kept), Unicode);
      var k :| 0 <= k < |kept| && !AllSpace(kept[k], Unicode);
      assert kept[k] in kept;
      assert kept[k] in lines && !MentionsAny(kept[k], IgnoredFontForgeLines);
      var i :| 0 <= i < |lines| && lines[i] == kept[k];
      assert !MentionsAny(lines[i], IgnoredFontForgeLines) && !AllSpace(lines[i], Unicode);
    } else {
      forall i | 0 <= i < |lines| && !MentionsAny(lines[i], IgnoredFontForgeLines)
        ensures AllSpace(lines[i], Unicode)
      {
        assert lines[i] in lines;
        assert lines[i] in kept;
      }
    }
  }

  /** stderr that holds only the separator 0x1C is filtered to that line and its newline. */
  lemma SeparatorOnlyFiltered()
    ensures FilteredErrors("\U{1C}") == "\U{1C}\n"
  {
  }

  /** As text, the separator 0x1C is whitespace: the filtered stderr strips to nothing, so
      check/038 passes. */
  lemma SeparatorIsTextSpace()
    ensures Strip("\U{1C}\n", Unicode) == ""
  {
  }

  /** A byte string keeps the separator 0x1C when stripped. */
  lemma SeparatorIsNotByteSpace()
    ensures Strip("\U{1C}", ByteString) == "\U{1C}"
  {
  }

  // ---------------------------------------------------------------- check/039

  /** One `ff_check` call of check/039: the `validation_state` bit it tests and its texts.
      `barcodeExempt` marks the two tests skipped for the Libre Barcode families. */
  datatype FontForgeTest = FontForgeTest(description: string, mask: bv32, errMsg: string, okMsg: string, barcodeExempt: bool)

  /** The tests of check/039, in the order of the calls: four tests, the first exempt test
      (points at extremas, 0x20), four tests, the second exempt test (invalid glyph names, 0x200)
      and ten tests. */
  const FontForgeTests: seq<FontForgeTest> :=
    TestsBefore + [ExtremaTest] + TestsBetween + [GlyphNamesTest] + TestsAfter

  const TestsBefore: seq<FontForgeTest> := [
    FontForgeTest("Contours are closed?", 0x2,
      "Contours are not closed!", "Contours are closed.", false),
    FontForgeTest("Contours do not intersect", 0x4,
      "There are countour intersections!", "Contours do not intersect.", false),
    FontForgeTest("Contours have correct directions", 0x8,
      "Contours have incorrect directions!", "Contours have correct directions.", false),
    FontForgeTest("References in the glyph haven't been flipped", 0x10,
      "References in the glyph have been flipped!", "References in the glyph haven't been flipped.", false)
  ]

  const ExtremaTest := FontForgeTest("Glyphs have points at extremas", 0x20,
    "Glyphs do not have points at extremas!", "Glyphs have points at extremas.", true)

  const TestsBetween: seq<FontForgeTest> := [
    FontForgeTest("Glyph names referred to from glyphs present in the font", 0x40,
      "Glyph names referred to from glyphs not present in the font!",
      "Glyph names referred to from glyphs present in the font.", false),
    FontForgeTest("Points (or control points) are not too far apart", 0x40000,
      "Points (or control points) are too far apart!",
      "Points (or control points) are not too far apart.", false),
    FontForgeTest("Not more than 1,500 points in any glyph (a PostScript limit)", 0x80,
      "There are glyphs with more than 1,500 points!Exceeds a PostScript limit.",
      "Not more than 1,500 points in any glyph (a PostScript limit).", false),
    FontForgeTest("PostScript has a limit of 96 hints in glyphs", 0x100,
      "Exceeds PostScript limit of 96 hints per glyph",
      "Font respects PostScript limit of 96 hints per glyph", false)
  ]

  const GlyphNamesTest := FontForgeTest("Font doesn't have invalid glyph names", 0x200,
    "Font has invalid glyph names!", "Font doesn't have invalid glyph names.", true)

  const TestsAfter: seq<FontForgeTest> := [
    FontForgeTest("Glyphs have allowed numbers of points defined in maxp", 0x400,
      "Glyphs exceed allowed numbers of points defined in maxp",
      "Glyphs have allowed numbers of points defined in maxp.", false),
    FontForgeTest("Glyphs have allowed numbers of paths defined in maxp", 0x800,
      "Glyphs exceed allowed numbers of paths defined in maxp!",
      "Glyphs have allowed numbers of paths defined in maxp.", false),
    FontForgeTest("Composite glyphs have allowed numbers of points defined in maxp?", 0x1000,
      "Composite glyphs exceed allowed numbers of points defined in maxp!",
      "Composite glyphs have allowed numbers of points defined in maxp.", false),
    FontForgeTest("Composite glyphs have allowed numbers of paths defined in maxp", 0x2000,
      "Composite glyphs exceed allowed numbers of paths defined in maxp!",
      "Composite glyphs have allowed numbers of paths defined in maxp.", false),
    FontForgeTest("Glyphs instructions have valid lengths", 0x4000,
      "Glyphs instructions have invalid lengths!", "Glyphs instructions have valid lengths.", false),
    FontForgeTest("Points in glyphs are integer aligned", 0x80000,
      "Points in glyphs are not integer aligned!", "Points in glyphs are integer aligned.", false),
    FontForgeTest("Glyphs have all required anchors.", 0x100000,
      "Glyphs do not have all required anchors!", "Glyphs have all required anchors.", false),
    FontForgeTest("Glyph names are unique?", 0x200000,
      "Glyph names are not unique!", "Glyph names are unique.", false),
    FontForgeTest("Unicode code points are unique?", 0x400000,
      "Unicode code points are not unique!", "Unicode code points are unique.", false),
    FontForgeTest("Do hints overlap?", 0x800000,
      "Hints should NOT overlap!", "Hints do not overlap.", false)
  ]

  /** `ff_check(description, condition, err_msg, ok_msg)`: FAIL with the error text when the
      condition is false, PASS with the confirmation otherwise. */
  function FFCheck(condition: bool, errMsg: string, okMsg: string): Diagnostic
  {
    if !condition then Diagnostic(FAIL, Text("fontforge-check: " + errMsg))
    else Diagnostic(PASS, Text("fontforge-check: " + okMsg))
  }

  /** The tests check/039 runs: all of them, or all but the two exempt ones for the
      Libre Barcode families (the `if not whitelist_librebarcode` blocks). */
  function TestsRun(whitelistLibrebarcode: bool): seq<FontForgeTest>
  {
    if whitelistLibrebarcode then TestsBefore + TestsBetween + TestsAfter
    else FontForgeTests
  }

  /** check/039: one `ff_check` per test, in call order; each condition is "the test's bit
      of `validation_state` is clear". */
  function CheckFontForgeState(validationState: bv32, whitelistLibrebarcode: bool): (r: seq<Diagnostic>)
    ensures var tests := TestsRun(whitelistLibrebarcode);
      && |r| == |tests|
      && (forall i :: 0 <= i < |r| ==>
            && (r[i].status == FAIL <==> BitSet(validationState, tests[i].mask))
            && (r[i].status == PASS <==> !BitSet(validationState, tests[i].mask))
            && r[i].message == Text("fontforge-check: "
                 + if BitSet(validationState, tests[i].mask) then tests[i].errMsg else tests[i].okMsg))
  {
    FontForgeStateResults(validationState, TestsRun(whitelistLibrebarcode));
    RunTests(validationState, TestsRun(whitelistLibrebarcode))
  }

  function RunTests(validationState: bv32, tests: seq<FontForgeTest>): seq<Diagnostic>
  {
    seq(|tests|, i requires 0 <= i < |tests| =>
      FFCheck(!BitSet(validationState, tests[i].mask), tests[i].errMsg, tests[i].okMsg))
  }

  /** `bool(validation_state & mask)`. */
  predicate BitSet(validationState: bv32, mask: bv32)
  {
    validationState & mask != 0
  }

  /** check/039 yields one result per test run, in order: result `i` is a FAIL iff the bit of
      test `i` is set, and its text is that test's error or confirmation text. */
  lemma FontForgeStateResults(validationState: bv32, tests: seq<FontForgeTest>)
    ensures var r := RunTests(validationState, tests);
      && |r| == |tests|
      && (forall i :: 0 <= i < |r| ==>
            && (r[i].status == FAIL <==> BitSet(validationState, tests[i].mask))
            && (r[i].status == PASS <==> !BitSet(validationState, tests[i].mask))
            && r[i].message == Text("fontforge-check: "
                 + if BitSet(validationState, tests[i].mask) then tests[i].errMsg else tests[i].okMsg))
  {
  }

  /** 20 tests run, or 18 for the Libre Barcode families: the exempt tests are exactly the
      0x20 and 0x200 tests at positions 4 and 9, those two are left out, and the others keep
      their order. */
  lemma LibreBarcodeTests()
    ensures |TestsRun(false)| == 20 && |TestsRun(true)| == 18
    ensures forall i :: 0 <= i < |FontForgeTests| ==>
      (FontForgeTests[i].barcodeExempt <==> i == 4 || i == 9)
    ensures FontForgeTests[4].mask == 0x20 && FontForgeTests[9].mask == 0x200
    ensures forall i :: 0 <= i < |TestsRun(true)| ==>
      TestsRun(true)[i].mask != 0x20 && TestsRun(true)[i].mask != 0x200
    ensures FontForgeTests[..4] == TestsRun(true)[..4]
    ensures FontForgeTests[5..9] == TestsRun(true)[4..8]
    ensures FontForgeTests[10..] == TestsRun(true)[8..]
  {
  }
}
