/** Checks on the set of tables a font holds: com.google.fonts/check/052 (required tables) and
    check/053 (unwanted tables). A font's tables are given by their tags, as `ttFont.keys()`
    lists them. */
module GeneralTables {
  import opened Results
  import opened Strings

  // ---------------------------------------------------------------- check/052

  const RequiredTables := ["cmap", "head", "hhea", "hmtx", "maxp", "name", "OS/2", "post"]

  const OptionalTables := [
    "cvt ", "fpgm", "loca", "prep", "VORG", "EBDT", "EBLC", "EBSC", "BASE",
    "GPOS", "GSUB", "JSTF", "DSIG", "gasp", "hdmx", "LTSH", "PCLT", "VDMX",
    "vhea", "vmtx", "kern"
  ]

  /** The required tables; a variable font also needs STAT. */
  function Required(isVariable: bool): seq<string>
  {
    if isVariable then RequiredTables + ["STAT"] else RequiredTables
  }

  /** The candidates that are among the tags (`present`), or not among them (`!present`),
      in the order of `candidates`. */
  function Among(candidates: seq<string>, tags: seq<string>, present: bool): (r: seq<string>)
    ensures |r| <= |candidates|
  {
    if candidates == [] then []
    else
      var kept := Among(candidates[..|candidates| - 1], tags, present);
      var c := candidates[|candidates| - 1];
      if (c in tags) == present then kept + [c] else kept
  }

  lemma {:induction false} AmongMembers(candidates: seq<string>, tags: seq<string>, present: bool)
    ensures forall c :: c in Among(candidates, tags, present) <==> c in candidates && (c in tags) == present
  {
    if candidates != [] {
      var p := candidates[..|candidates| - 1];
      AmongMembers(p, tags, present);
      assert candidates == p + [candidates[|candidates| - 1]];
    }
  }

  /** What check/052 reports missing: the absent required tables, then the outline
      alternative when the font has neither `glyf` nor `CFF `. */
  function MissingTables(tags: seq<string>, isVariable: bool): seq<string>
  {
    Among(Required(isVariable), tags, false)
      + if "glyf" !in tags && "CFF " !in tags then ["CFF ' or 'glyf"] else []
  }

  /** check/052: an INFO listing the optional tables present, when there are some; then a FAIL
      listing the missing required tables, or a PASS. */
  function CheckRequiredTables(tags: seq<string>, isVariable: bool): (r: seq<Diagnostic>)
    ensures 1 <= |r| <= 2
  {
    var optional := Among(OptionalTables, tags, true);
    (if optional != [] then [Diagnostic(INFO, Text("This font contains the following optional tables ["
                                                   + (Join(optional, ", ") + "]")))] else [])
      + [CheckMissing(MissingTables(tags, isVariable))]
  }

  function CheckMissing(missing: seq<string>): Diagnostic
  {
    if missing != [] then
      Diagnostic(FAIL, Text("This font is missing the following required tables: ['" + (Join(missing, "', '") + "']")))
    else Diagnostic(PASS, Text("Font contains all required tables."))
  }

  /** check/052 informs iff an optional table is present, and ends in a PASS iff every
      required table (STAT too for a variable font) and an outline table are present; a
      FAIL otherwise. */
  lemma RequiredTablesVerdict(tags: seq<string>, isVariable: bool)
    ensures var r := CheckRequiredTables(tags, isVariable);
      && (r[0].status == INFO <==> exists t :: t in OptionalTables && t in tags)
      && (r[|r| - 1].status == PASS <==>
            (forall t :: t in Required(isVariable) ==> t in tags) && ("glyf" in tags || "CFF " in tags))
      && (r[|r| - 1].status == FAIL <==> r[|r| - 1].status != PASS)
  {
    AmongNonEmpty(OptionalTables, tags, true);
    AmongNonEmpty(Required(isVariable), tags, false);
  }

  /** Some candidate is kept iff some candidate is (or is not) among the tags. */
  lemma AmongNonEmpty(candidates: seq<string>, tags: seq<string>, present: bool)
    ensures Among(candidates, tags, present) != [] <==> exists c :: c in candidates && (c in tags) == present
  {
    AmongMembers(candidates, tags, present);
    var kept := Among(candidates, tags, present);
    if kept != [] {
      assert kept[0] in kept;
    }
  }

  /** The reported missing tables are exactly the absent required ones, plus the outline
      alternative. */
  lemma MissingTablesMembers(tags: seq<string>, isVariable: bool)
    ensures forall t :: t in MissingTables(tags, isVariable) <==>
      (t in Required(isVariable) && t !in tags) || (t == "CFF ' or 'glyf" && "glyf" !in tags && "CFF " !in tags)
  {
    AmongMembers(Required(isVariable), tags, false);
  }

  // ---------------------------------------------------------------- check/053

  const UnwantedTables := {"FFTM", "TTFA", "prop", "TSI0", "TSI1", "TSI2", "TSI3"}

  /** The unwanted tags among `tags`, in order. */
  function UnwantedFound(tags: seq<string>): seq<string>
  {
    if tags == [] then []
    else
      var found := UnwantedFound(tags[..|tags| - 1]);
      if tags[|tags| - 1] in UnwantedTables then found + [tags[|tags| - 1]] else found
  }

  /** check/053: a single FAIL listing the unwanted tables found, or a single PASS. */
  method CheckUnwantedTables(tags: seq<string>) returns (results: seq<Diagnostic>)
    ensures var found := UnwantedFound(tags);
      results == if |found| > 0
        then [Diagnostic(FAIL, Text("Unwanted tables were found in the font and should be removed: " + Join(found, ", ")))]
        else [Diagnostic(PASS, Text("There are no unwanted tables."))]
    ensures |results| == 1
    ensures results[0].status == FAIL <==> exists i :: 0 <= i < |tags| && tags[i] in UnwantedTables
    ensures results[0].status == PASS <==> results[0].status != FAIL
  {
    var unwantedTablesFound: seq<string> := [];
    var i := 0;
    while i < |tags|
      invariant 0 <= i <= |tags|
      invariant unwantedTablesFound == UnwantedFound(tags[..i])
    {
      assert tags[..i + 1][..i] == tags[..i];
      if tags[i] in UnwantedTables {
        unwantedTablesFound := unwantedTablesFound + [tags[i]];
      }
      i := i + 1;
    }
    assert tags[..i] == tags;
    UnwantedFoundMembers(tags);
    if |unwantedTablesFound| > 0 {
      assert unwantedTablesFound[0] in unwantedTablesFound;
      results := [Diagnostic(FAIL, Text("Unwanted tables were found in the font and should be removed: "
                                        + Join(unwantedTablesFound, ", ")))];
    } else {
      results := [Diagnostic(PASS, Text("There are no unwanted tables."))];
    }
  }

  /** A tag is reported iff the font has it and it is unwanted. */
  lemma {:induction false} UnwantedFoundMembers(tags: seq<string>)
    ensures forall t :: t in UnwantedFound(tags) <==> t in tags && t in UnwantedTables
  {
    if tags != [] {
      var p := tags[..|tags| - 1];
      UnwantedFoundMembers(p);
      assert tags == p + [tags[|tags| - 1]];
    }
  }
}
