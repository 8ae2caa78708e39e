/** Checks on the mandatory and whitespace glyphs: com.google.fonts/check/046, 047, 048 and 049. */
module GeneralWhitespace {
  import opened Results
  import opened Strings
  import opened Fonts

  // ---------------------------------------------------------------- check/046

  /** The code points check/046 asks for (.null, CR and space), with the names it reports. */
  const MandatoryCodepoints: seq<(int, string)> := [(0x0000, "0x0000"), (0x000D, "0x000D"), (0x0020, "0x0020")]

  /** The reported names of the code points of `cps` that `getGlyph` does not map, in order. */
  function MissingCodepoints(font: Font, cps: seq<(int, string)>): seq<string>
  {
    if cps == [] then []
    else
      var missing := MissingCodepoints(font, cps[..|cps| - 1]);
      if GetGlyph(font, cps[|cps| - 1].0).None? then missing + [cps[|cps| - 1].1] else missing
  }

  /** check/046: a single WARN listing the missing mandatory code points, or a single PASS. */
  method CheckMandatoryGlyphs(font: Font) returns (results: seq<Diagnostic>)
    ensures var missing := MissingCodepoints(font, MandatoryCodepoints);
      results == if missing != []
        then [Diagnostic(WARN, Text("Font is missing glyphs for the following mandatory codepoints: "
                                    + (Join(missing, ", ") + ".")))]
        else [Diagnostic(PASS, Text("Font contains the first few mandatory glyphs (.null or NULL, CR and space)."))]
    ensures |results| == 1
    ensures results[0].status == PASS <==> 0x0000 in font.glyphFor && 0x000D in font.glyphFor && 0x0020 in font.glyphFor
  {
    var missing := MissingMandatory(font);
    if missing != [] {
      results := [Diagnostic(WARN, Text("Font is missing glyphs for the following mandatory codepoints: "
                                        + (Join(missing, ", ") + ".")))];
    } else {
      results := [Diagnostic(PASS, Text("Font contains the first few mandatory glyphs (.null or NULL, CR and space)."))];
    }
  }

  /** The `missing` list of check/046. */
  method MissingMandatory(font: Font) returns (missing: seq<string>)
    ensures missing == MissingCodepoints(font, MandatoryCodepoints)
    ensures missing == [] <==> 0x0000 in font.glyphFor && 0x000D in font.glyphFor && 0x0020 in font.glyphFor
  {
    var nullGlyph := GetGlyph(font, 0x0000);
    var cr := GetGlyph(font, 0x000D);
    var space := GetGlyph(font, 0x0020);
    missing := [];
    assert MandatoryCodepoints[..1][..0] == [];
    if nullGlyph.None? {
      missing := missing + ["0x0000"];
    }
    assert missing == MissingCodepoints(font, MandatoryCodepoints[..1]);
    assert MandatoryCodepoints[..2][..1] == MandatoryCodepoints[..1];
    if cr.None? {
      missing := missing + ["0x000D"];
    }
    assert missing == MissingCodepoints(font, MandatoryCodepoints[..2]);
    assert MandatoryCodepoints[..3][..2] == MandatoryCodepoints[..2];
    if space.None? {
      missing := missing + ["0x0020"];
    }
    assert missing == MissingCodepoints(font, MandatoryCodepoints[..3]);
    assert MandatoryCodepoints[..3] == MandatoryCodepoints;
  }

  /** A name is reported exactly when its code point is unmapped, and the report keeps the
      order of `cps`. */
  lemma {:induction false} MissingCodepointsMembers(font: Font, cps: seq<(int, string)>)
    requires forall i, j :: 0 <= i < j < |cps| ==> cps[i].1 != cps[j].1
    ensures forall i :: 0 <= i < |cps| ==> (cps[i].1 in MissingCodepoints(font, cps) <==> cps[i].0 !in font.glyphFor)
    ensures forall n :: n in MissingCodepoints(font, cps) ==> exists i :: 0 <= i < |cps| && cps[i].1 == n
  {
    if cps != [] {
      var p := cps[..|cps| - 1];
      MissingCodepointsMembers(font, p);
      forall i | 0 <= i < |cps|
        ensures cps[i].1 in MissingCodepoints(font, cps) <==> cps[i].0 !in font.glyphFor
      {
        if i < |p| {
          assert cps[i] == p[i];
          assert cps[i].1 != cps[|cps| - 1].1;
        } else {
          assert forall j :: 0 <= j < |p| ==> p[j] == cps[j];
        }
      }
      forall n | n in MissingCodepoints(font, cps)
        ensures exists i :: 0 <= i < |cps| && cps[i].1 == n
      {
        if n in MissingCodepoints(font, p) {
          var j :| 0 <= j < |p| && p[j].1 == n;
          assert cps[j] == p[j];
        } else {
          assert cps[|cps| - 1].1 == n;
        }
      }
    }
  }

  // ---------------------------------------------------------------- check/047

  /** check/047: a single FAIL listing the whitespace code points without a glyph (as
      computed by the `missing_whitespace_chars` condition), or a single PASS. */
  function CheckWhitespaceGlyphs(missingWhitespaceChars: seq<string>): (r: seq<Diagnostic>)
    ensures |r| == 1
    ensures r[0].status == FAIL <==> missingWhitespaceChars != []
    ensures r[0].status == PASS <==> missingWhitespaceChars == []
    ensures missingWhitespaceChars != [] ==>
      r[0].message.text == "Whitespace glyphs missing for the following codepoints: "
                           + (Join(missingWhitespaceChars, ", ") + ".")
  {
    if missingWhitespaceChars != [] then
      [Diagnostic(FAIL, Text("Whitespace glyphs missing for the following codepoints: "
                             + (Join(missingWhitespaceChars, ", ") + ".")))]
    else [Diagnostic(PASS, Text("Font contains glyphs for whitespace characters."))]
  }

  // ---------------------------------------------------------------- check/048

  const SpaceNames := ["uni0020", "space"]
  const NbspNames := ["uni00A0", "nonbreakingspace", "nbspace", "nbsp"]

  function Bad20(space: Option<string>): Diagnostic
  {
    Diagnostic(FAIL, Coded("bad20", "Glyph 0x0020 is called \"" + (OrNone(space) + "\": Change to \"space\" or \"uni0020\"")))
  }

  function BadA0(nbsp: Option<string>): Diagnostic
  {
    Diagnostic(FAIL, Coded("badA0", "Glyph 0x00A0 is called \"" + (OrNone(nbsp) + "\": Change to \"nbsp\" or \"uni00A0\"")))
  }

  const ProperNamesPass := Diagnostic(PASS, Text("Font has **proper** whitespace glyph names."))

  /** `getGlyphEncodings(font, names)`: every code point that a Unicode subtable maps to one
      of `names`. */
  method GlyphEncodings(tables: seq<CmapSubtable>, names: seq<string>) returns (result: set<int>)
    ensures result == Encodings(tables, names)
    ensures forall cp :: cp in result <==> EncodedAs(tables, cp, names)
  {
    result := {};
    var i := 0;
    while i < |tables|
      invariant 0 <= i <= |tables|
      invariant result == Encodings(tables[..i], names)
    {
      assert tables[..i + 1][..i] == tables[..i];
      if tables[i].isUnicode {
        var found := SubtableGlyphEncodings(tables[i], names);
        result := result + found;
      } else {
        assert SubtableEncodings(tables[i], names) == {};
      }
      i := i + 1;
    }
    assert tables[..i] == tables;
    forall cp ensures cp in result <==> EncodedAs(tables, cp, names) {
      EncodingsMembers(tables, names, cp);
    }
  }

  /** The inner loop of `getGlyphEncodings` over the items of one Unicode subtable. */
  method SubtableGlyphEncodings(subtable: CmapSubtable, names: seq<string>) returns (found: set<int>)
    requires subtable.isUnicode
    ensures found == SubtableEncodings(subtable, names)
  {
    found := {};
    var todo := subtable.cmap.Keys;
    while todo != {}
      invariant todo <= subtable.cmap.Keys
      invariant found == set cp | cp in subtable.cmap && cp !in todo && subtable.cmap[cp] in names
      decreases todo
    {
      EmptyWithoutCodepoints(todo);
      var codepoint :| codepoint in todo;
      if subtable.cmap[codepoint] in names {
        found := found + {codepoint};
      }
      todo := todo - {codepoint};
    }
  }

  /** check/048: SKIP for a format 3 `post` table (it holds no glyph names). Otherwise a
      `bad20` FAIL unless some Unicode subtable maps U+0020 to "uni0020" or "space"; a `badA0`
      FAIL unless U+00A0 is mapped to one of the no-break space names or to a space name;
      and a PASS when neither FAIL was yielded. */
  method CheckWhitespaceNames(font: Font) returns (results: seq<Diagnostic>)
    ensures font.postFormat == 3.0 ==> results == [Diagnostic(SKIP, Text("Font has version 3 post table."))]
    ensures font.postFormat != 3.0 ==>
      var spaceOk := EncodedAs(font.cmapTables, 0x0020, SpaceNames);
      var nbspOk := EncodedAs(font.cmapTables, 0x00A0, NbspNames) || EncodedAs(font.cmapTables, 0x00A0, SpaceNames);
      results == (if spaceOk then [] else [Bad20(GetGlyph(font, 0x0020))])
               + (if nbspOk then [] else [BadA0(GetGlyph(font, 0x00A0))])
               + (if spaceOk && nbspOk then [ProperNamesPass] else [])
  {
    if font.postFormat == 3.0 {
      results := [Diagnostic(SKIP, Text("Font has version 3 post table."))];
    } else {
      results := [];
      var failed := false;
      var spaceEnc := GlyphEncodings(font.cmapTables, SpaceNames);
      var nbspEnc := GlyphEncodings(font.cmapTables, NbspNames);
      var space := GetGlyph(font, 0x0020);
      if 0x0020 !in spaceEnc {
        failed := true;
        results := results + [Bad20(space)];
      }
      var nbsp := GetGlyph(font, 0x00A0);
      if 0x00A0 !in nbspEnc {
        if 0x00A0 in spaceEnc {
          // the same glyph may serve as space and no-break space
        } else {
          failed := true;
          results := results + [BadA0(nbsp)];
        }
      }
      if !failed {
        results := results + [ProperNamesPass];
      }
    }
  }

  // ---------------------------------------------------------------- check/049

  /** The code points check/049 treats as whitespace, in its order. */
  const WhitespaceCharacters: seq<int> := [
    0x0009, 0x000A, 0x000B, 0x000C, 0x000D, 0x0020, 0x0085, 0x00A0, 0x1680,
    0x2000, 0x2001, 0x2002, 0x2003, 0x2004, 0x2005, 0x2006, 0x2007, 0x2008,
    0x2009, 0x200A, 0x2028, 0x2029, 0x202F, 0x205F, 0x3000, 0x180E, 0x200B,
    0x2060, 0xFEFF
  ]

  /** The glyphs reachable from the whitespace glyphs exist and form no composite cycle:
      `rank` ranks every glyph the font maps a whitespace code point to. */
  predicate InkCheckable(font: Font, rank: map<string, nat>)
  {
    Ranked(font.glyf, rank) && CodepointsRanked(font, rank, WhitespaceCharacters)
  }

  /** Every glyph the font maps a code point of `cps` to is ranked. */
  predicate CodepointsRanked(font: Font, rank: map<string, nat>, cps: seq<int>)
  {
    forall k :: 0 <= k < |cps| && cps[k] in font.glyphFor ==> font.glyphFor[cps[k]] in rank
  }

  /** `glyphHasInk(font, name)`, with its loop over the components. */
  method GlyphHasInk(glyf: map<string, Glyph>, rank: map<string, nat>, name: string) returns (ink: bool)
    requires Ranked(glyf, rank) && name in rank
    ensures ink == HasInk(glyf, rank, name)
    decreases rank[name]
  {
    var glyph := glyf[name];
    if !glyph.Composite? {
      if glyph.numberOfContours == 0 {
        return false;
      }
      return glyph.points > 2;
    }
    var components := glyph.components;
    var i := 0;
    while i < |components|
      invariant 0 <= i <= |components|
      invariant AnyHasInk(glyf, rank, components, rank[name]) == AnyHasInk(glyf, rank, components[i..], rank[name])
    {
      assert components[i..][1..] == components[i + 1..];
      var componentInk := GlyphHasInk(glyf, rank, components[i]);
      if componentInk {
        return true;
      }
      i := i + 1;
    }
    return false;
  }

  /** The names of the glyphs with ink drawn for the code points of `cps`, in order. */
  function InkedGlyphs(font: Font, rank: map<string, nat>, cps: seq<int>): seq<string>
    requires Ranked(font.glyf, rank)
  {
    if cps == [] then []
    else
      var inked := InkedGlyphs(font, rank, cps[..|cps| - 1]);
      var cp := cps[|cps| - 1];
      if Inked(font, rank, cp) then inked + [font.glyphFor[cp]] else inked
  }

  /** The font maps `cp` to a ranked glyph that has ink. */
  predicate Inked(font: Font, rank: map<string, nat>, cp: int)
    requires Ranked(font.glyf, rank)
  {
    cp in font.glyphFor && font.glyphFor[cp] in rank && HasInk(font.glyf, rank, font.glyphFor[cp])
  }

  function InkFail(g: string): Diagnostic
  {
    Diagnostic(FAIL, Text("Glyph \"" + (g + "\" has ink. It needs to be replaced by an empty glyph.")))
  }

  function InkFails(names: seq<string>): (r: seq<Diagnostic>)
    ensures |r| == |names|
    ensures forall i :: 0 <= i < |names| ==> r[i] == InkFail(names[i])
  {
    seq(|names|, i requires 0 <= i < |names| => InkFail(names[i]))
  }

  /** check/049: one FAIL per whitespace code point whose glyph has ink, in the order of the
      whitespace list; a single PASS when there is none. */
  method CheckWhitespaceInk(font: Font, rank: map<string, nat>) returns (results: seq<Diagnostic>)
    requires InkCheckable(font, rank)
    ensures var inked := InkedGlyphs(font, rank, WhitespaceCharacters);
      results == InkFails(inked) + if inked == [] then [Diagnostic(PASS, Text("There is no whitespace glyph with ink."))] else []
  {
    results := [];
    var failed := false;
    var i := 0;
    while i < |WhitespaceCharacters|
      invariant 0 <= i <= |WhitespaceCharacters|
      invariant results == InkFails(InkedGlyphs(font, rank, WhitespaceCharacters[..i]))
      invariant failed <==> InkedGlyphs(font, rank, WhitespaceCharacters[..i]) != []
    {
      var codepoint := WhitespaceCharacters[i];
      InkedGlyphsStep(font, rank, WhitespaceCharacters, i);
      var g := GetGlyph(font, codepoint);
      if g.Some? {
        var ink := GlyphHasInk(font.glyf, rank, g.value);
        if ink {
          failed := true;
          InkFailsAppend(InkedGlyphs(font, rank, WhitespaceCharacters[..i]), g.value);
          results := results + [InkFail(g.value)];
        }
      }
      i := i + 1;
    }
    assert WhitespaceCharacters[..i] == WhitespaceCharacters;
    if !failed {
      results := results + [Diagnostic(PASS, Text("There is no whitespace glyph with ink."))];
    }
  }

  /** One more code point adds its glyph when that glyph has ink, and nothing otherwise. */
  lemma InkedGlyphsStep(font: Font, rank: map<string, nat>, cps: seq<int>, i: nat)
    requires Ranked(font.glyf, rank) && i < |cps|
    ensures Inked(font, rank, cps[i]) ==>
      InkedGlyphs(font, rank, cps[..i + 1]) == InkedGlyphs(font, rank, cps[..i]) + [font.glyphFor[cps[i]]]
    ensures !Inked(font, rank, cps[i]) ==>
      InkedGlyphs(font, rank, cps[..i + 1]) == InkedGlyphs(font, rank, cps[..i])
  {
    var q := cps[..i + 1];
    assert q[..i] == cps[..i] && q[i] == cps[i];
  }

  lemma InkFailsAppend(names: seq<string>, name: string)
    ensures InkFails(names + [name]) == InkFails(names) + [InkFail(name)]
  {
  }

  /** A glyph is reported iff a code point of `cps` maps to it and a chain of its components
      leads to a glyph that draws ink. */
  lemma {:induction false} InkedGlyphsMembers(font: Font, rank: map<string, nat>, cps: seq<int>, g: string)
    requires Ranked(font.glyf, rank) && CodepointsRanked(font, rank, cps)
    ensures g in InkedGlyphs(font, rank, cps) <==>
      (exists k :: 0 <= k < |cps| && cps[k] in font.glyphFor && font.glyphFor[cps[k]] == g)
      && g in font.glyf && exists path :: InkPath(font.glyf, g, path)
  {
    if cps != [] {
      var p := cps[..|cps| - 1];
      var cp := cps[|cps| - 1];
      assert CodepointsRanked(font, rank, p) by {
        forall k | 0 <= k < |p| && p[k] in font.glyphFor ensures font.glyphFor[p[k]] in rank {
          assert p[k] == cps[k];
        }
      }
      InkedGlyphsMembers(font, rank, p, g);
      if g in rank {
        HasInkPath(font.glyf, rank, g);
      }
      if exists k :: 0 <= k < |p| && p[k] in font.glyphFor && font.glyphFor[p[k]] == g {
        var k :| 0 <= k < |p| && p[k] in font.glyphFor && font.glyphFor[p[k]] == g;
        assert cps[k] == p[k];
      }
      if exists k :: 0 <= k < |cps| && cps[k] in font.glyphFor && font.glyphFor[cps[k]] == g {
        var k :| 0 <= k < |cps| && cps[k] in font.glyphFor && font.glyphFor[cps[k]] == g;
        if k < |p| {
          assert p[k] == cps[k];
        }
      }
    }
  }

  /** check/049 passes iff no whitespace code point maps to a glyph with ink. */
  lemma WhitespaceInkPass(font: Font, rank: map<string, nat>)
    requires InkCheckable(font, rank)
    ensures InkedGlyphs(font, rank, WhitespaceCharacters) == [] <==>
      forall k :: 0 <= k < |WhitespaceCharacters| && WhitespaceCharacters[k] in font.glyphFor ==>
        !HasInk(font.glyf, rank, font.glyphFor[WhitespaceCharacters[k]])
  {
    var inked := InkedGlyphs(font, rank, WhitespaceCharacters);
    forall k | 0 <= k < |WhitespaceCharacters| && WhitespaceCharacters[k] in font.glyphFor
      ensures HasInk(font.glyf, rank, font.glyphFor[WhitespaceCharacters[k]]) ==> inked != []
    {
      var g := font.glyphFor[WhitespaceCharacters[k]];
      assert WhitespaceCharacters[k] in WhitespaceCharacters;
      InkedGlyphsMembers(font, rank, WhitespaceCharacters, g);
      HasInkPath(font.glyf, rank, g);
    }
    if inked != [] {
      var g := inked[0];
      InkedGlyphsMembers(font, rank, WhitespaceCharacters, g);
      var k :| 0 <= k < |WhitespaceCharacters| && WhitespaceCharacters[k] in font.glyphFor
        && font.glyphFor[WhitespaceCharacters[k]] == g;
      HasInkPath(font.glyf, rank, g);
    }
  }
}
