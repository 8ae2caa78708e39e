/** Checks on the glyph names of a font, taken in glyph order: com.google.fonts/check/058
    (valid names), check/059 (unique names) and check/060 (no "#suffix" names). */
module GeneralGlyphNames {
  import opened Results
  import opened Strings
  import opened Lists

  /** The regular-expression class `\w`, on ASCII. */
  predicate IsWordChar(c: char)
  {
    ('a' <= c <= 'z') || ('A' <= c <= 'Z') || ('0' <= c <= '9') || c == '_'
  }

  // ---------------------------------------------------------------- check/058

  predicate IsNameStart(c: char)
  {
    ('a' <= c <= 'z') || ('A' <= c <= 'Z') || c == '_'
  }

  /** `re.match(r'(?![.0-9])[a-zA-Z_][a-zA-Z_0-9]{,30}', name)` succeeds. The pattern is
      anchored at the start only, and its repetition may match nothing, so it succeeds
      exactly when the first character is a letter or an underscore. */
  predicate MatchesNamePattern(name: string)
  {
    |name| > 0 && IsNameStart(name[0])
  }

  /** A name check/058 reports: not one of the two exceptions, and not matching the pattern. */
  predicate BadGlyphName(name: string)
  {
    name != ".null" && name != ".notdef" && !MatchesNamePattern(name)
  }

  /** The bad names of `names`, in order. */
  function BadGlyphNames(names: seq<string>): seq<string>
  {
    if names == [] then []
    else
      var bad := BadGlyphNames(names[..|names| - 1]);
      if BadGlyphName(names[|names| - 1]) then bad + [names[|names| - 1]] else bad
  }

  const GlyphNameRules :=
    " A glyph name may be up to 31 characters in length, must be entirely comprised of characters"
    + " from the following set: A-Z a-z 0-9 .(period) _(underscore). and must not start with a digit"
    + " or period. There are a few exceptions such as the special character \".notdef\". The glyph"
    + " names \"twocents\", \"a1\", and \"_\" are all valid, while \"2cents\" and \".twocents\" are not."

  /** check/058: a single PASS when no name is bad, otherwise a single FAIL listing the bad
      names. */
  method CheckGlyphNames(glyphOrder: seq<string>) returns (results: seq<Diagnostic>)
    ensures var bad := BadGlyphNames(glyphOrder);
      results == if |bad| == 0 then [Diagnostic(PASS, Text("Glyph names are all valid."))]
        else [Diagnostic(FAIL, Text("The following glyph names do not comply with naming conventions: "
                                    + (PyList(bad) + GlyphNameRules)))]
    ensures |results| == 1
    ensures results[0].status == PASS <==> forall i :: 0 <= i < |glyphOrder| ==> !BadGlyphName(glyphOrder[i])
    ensures results[0].status == FAIL <==> results[0].status != PASS
  {
    var badNames: seq<string> := [];
    var i := 0;
    while i < |glyphOrder|
      invariant 0 <= i <= |glyphOrder|
      invariant badNames == BadGlyphNames(glyphOrder[..i])
    {
      var glyphName := glyphOrder[i];
      assert glyphOrder[..i + 1][..i] == glyphOrder[..i];
      i := i + 1;
      if glyphName == ".null" || glyphName == ".notdef" {
        continue;
      }
      if !MatchesNamePattern(glyphName) {
        badNames := badNames + [glyphName];
      }
    }
    assert glyphOrder[..i] == glyphOrder;
    BadGlyphNamesMembers(glyphOrder);
    if |badNames| == 0 {
      results := [Diagnostic(PASS, Text("Glyph names are all valid."))];
    } else {
      assert badNames[0] in badNames;
      results := [Diagnostic(FAIL, Text("The following glyph names do not comply with naming conventions: "
                                        + (PyList(badNames) + GlyphNameRules)))];
    }
  }

  /** A name is reported iff it occurs in the glyph order and is bad. */
  lemma {:induction false} BadGlyphNamesMembers(names: seq<string>)
    ensures forall n :: n in BadGlyphNames(names) <==> n in names && BadGlyphName(n)
  {
    if names != [] {
      var p := names[..|names| - 1];
      BadGlyphNamesMembers(p);
      assert names == p + [names[|names| - 1]];
    }
  }

  /** The pattern only looks at the first character: the names the rules of the message
      call valid pass, so do those the rules reject for their length or their later
      characters, and the names starting with a digit or a period are reported. */
  lemma NamePatternExamples()
    ensures !BadGlyphName("twocents") && !BadGlyphName("a1") && !BadGlyphName("_")
    ensures BadGlyphName("2cents") && BadGlyphName(".twocents") && BadGlyphName("")
    ensures !BadGlyphName(".notdef") && !BadGlyphName(".null")
    ensures !BadGlyphName("a-b.c") && !BadGlyphName("abcdefghijklmnopqrstuvwxyzabcdefghij")
  {
  }

  // ---------------------------------------------------------------- check/059

  /** The length of the run of word characters at the start of `s`. */
  function WordRun(s: string): (n: nat)
    ensures n <= |s|
    ensures n < |s| ==> !IsWordChar(s[n])
  {
    if s != [] && IsWordChar(s[0]) then 1 + WordRun(s[1..]) else 0
  }

  /** `re.sub(r'#\w+', '', s)`: every '#' followed by word characters is removed together
      with the longest such run, scanning from the left. */
  function StripHashWords(s: string): (r: string)
    ensures |r| <= |s|
    decreases |s|
  {
    if s == [] then []
    else if s[0] == '#' && |s| > 1 && IsWordChar(s[1]) then
      StripHashWords(s[1 + WordRun(s[1..])..])
    else [s[0]] + StripHashWords(s[1..])
  }

  /** No '#' in `s` is followed by a word character: `#\w+` does not occur. */
  predicate NoHashWord(s: string)
  {
    forall k :: 0 <= k < |s| - 1 && s[k] == '#' ==> !IsWordChar(s[k + 1])
  }

  /** No `#\w` is left after stripping, and the first character is a word character before
      iff it is one after. */
  lemma {:induction false} StripHashWordsClean(s: string)
    ensures var r := StripHashWords(s);
      && NoHashWord(r)
      && (r != [] ==> (IsWordChar(r[0]) <==> IsWordChar(s[0])))
    decreases |s|
  {
    if s != [] {
      if s[0] == '#' && |s| > 1 && IsWordChar(s[1]) {
        var n := WordRun(s[1..]);
        StripHashWordsClean(s[1 + n..]);
        if 1 + n < |s| {
          assert !IsWordChar(s[1 + n]) && s[1 + n..][0] == s[1 + n];
        }
      } else {
        var rest := StripHashWords(s[1..]);
        StripHashWordsClean(s[1..]);
        var r := [s[0]] + rest;
        forall k | 0 <= k < |r| - 1 && r[k] == '#' ensures !IsWordChar(r[k + 1]) {
          if k > 0 {
            assert r[k] == rest[k - 1] && r[k + 1] == rest[k];
          } else {
            assert s[1..][0] == s[1];
          }
        }
      }
    }
  }

  /** A text without `#\w+` is left alone. */
  lemma {:induction false} StripHashWordsNone(s: string)
    requires NoHashWord(s)
    ensures StripHashWords(s) == s
    decreases |s|
  {
    if s != [] {
      assert NoHashWord(s[1..]) by {
        forall k | 0 <= k < |s[1..]| - 1 && s[1..][k] == '#' ensures !IsWordChar(s[1..][k + 1]) {
          assert s[k + 1] == '#';
        }
      }
      StripHashWordsNone(s[1..]);
    }
  }

  /** Removing the `#\w+` runs twice removes nothing more. */
  lemma StripHashWordsIdempotent(s: string)
    ensures StripHashWords(StripHashWords(s)) == StripHashWords(s)
  {
    StripHashWordsClean(s);
    StripHashWordsNone(StripHashWords(s));
  }

  /** The word run of `s` is not extended by a text that does not start with a word
      character. */
  lemma {:induction false} WordRunAppend(s: string, t: string)
    requires t == [] || !IsWordChar(t[0])
    ensures WordRun(s + t) == WordRun(s)
  {
    if s != [] {
      assert (s + t)[1..] == s[1..] + t;
      WordRunAppend(s[1..], t);
    }
  }

  /** Cutting a text just before a character that is not a word character cuts no `#\w+`
      run, so the two parts are stripped independently. With StripHashWordRun and
      StripHashWordsKeep this fixes every character kept: a name splits before each
      non-word character into pieces `c w` with `w` a run of word characters; the piece
      goes when `c` is '#' and `w` is not empty, and stays whole otherwise. */
  lemma {:induction false} StripHashWordsAppend(s: string, t: string)
    requires t == [] || !IsWordChar(t[0])
    ensures StripHashWords(s + t) == StripHashWords(s) + StripHashWords(t)
    decreases |s|
  {
    if s == [] {
      assert s + t == t;
    } else if s[0] == '#' && |s| > 1 && IsWordChar(s[1]) {
      var n := StripRunAppend(s, t);
      StripHashWordsAppend(s[1 + n..], t);
    } else {
      StripKeptAppend(s, t);
      StripHashWordsAppend(s[1..], t);
      var head, rest, tail := [s[0]], StripHashWords(s[1..]), StripHashWords(t);
      assert head + (rest + tail) == (head + rest) + tail;
    }
  }

  /** The `#\w+` run at the start of `s` is the one at the start of `s + t`. */
  lemma StripRunAppend(s: string, t: string) returns (n: nat)
    requires t == [] || !IsWordChar(t[0])
    requires |s| > 1 && s[0] == '#' && IsWordChar(s[1])
    ensures 1 + n <= |s|
    ensures StripHashWords(s) == StripHashWords(s[1 + n..])
    ensures StripHashWords(s + t) == StripHashWords(s[1 + n..] + t)
  {
    n := WordRun(s[1..]);
    var u := s + t;
    assert u[0] == '#' && u[1] == s[1] && u[1..] == s[1..] + t;
    WordRunAppend(s[1..], t);
    assert u[1 + n..] == s[1 + n..] + t;
  }

  /** A first character that starts no `#\w+` run in `s` starts none in `s + t` either. */
  lemma StripKeptAppend(s: string, t: string)
    requires t == [] || !IsWordChar(t[0])
    requires s != [] && !(s[0] == '#' && |s| > 1 && IsWordChar(s[1]))
    ensures StripHashWords(s) == [s[0]] + StripHashWords(s[1..])
    ensures StripHashWords(s + t) == [s[0]] + StripHashWords(s[1..] + t)
  {
    var u := s + t;
    assert u[0] == s[0] && u[1..] == s[1..] + t;
    if |s| > 1 {
      assert u[1] == s[1];
    }
  }

  /** A '#' with the whole run of word characters after it is removed. */
  lemma StripHashWordRun(w: string, t: string)
    requires w != [] && forall k :: 0 <= k < |w| ==> IsWordChar(w[k])
    requires t == [] || !IsWordChar(t[0])
    ensures StripHashWords("#" + (w + t)) == StripHashWords(t)
  {
    var s := "#" + (w + t);
    assert s[0] == '#' && s[1] == w[0] && s[1..] == w + t;
    WordRunAppend(w, t);
    WordRunWhole(w);
    assert s[1 + |w|..] == t;
  }

  /** A text of word characters is one word run. */
  lemma WordRunWhole(w: string)
    requires forall k :: 0 <= k < |w| ==> IsWordChar(w[k])
    ensures WordRun(w) == |w|
  {
  }

  /** A character that does not start a `#\w+` run is kept. */
  lemma StripHashWordsKeep(c: char, t: string)
    requires c != '#' || t == [] || !IsWordChar(t[0])
    ensures StripHashWords([c] + t) == [c] + StripHashWords(t)
  {
    assert ([c] + t)[1..] == t;
  }

  /** Text on both sides of a removed run stays in place. */
  lemma StripHashWordsAroundRun()
    ensures StripHashWords("a#b c") == "a c"
  {
  }

  /** A suffixed name keeps its base name as its glyph ID. */
  lemma StripHashWordsSuffix()
    ensures StripHashWords("one#2") == "one"
  {
  }

  /** The glyph ID check/059 and check/060 derive from each name. */
  function GlyphIDs(names: seq<string>): (r: seq<string>)
    ensures |r| == |names|
    ensures forall i :: 0 <= i < |names| ==> r[i] == StripHashWords(names[i])
  {
    seq(|names|, i requires 0 <= i < |names| => StripHashWords(names[i]))
  }

  /** check/059: glyph IDs are collected once in `glyphs`, and again in `duplicated_glyphIDs`
      each time one repeats; a single PASS when nothing repeats, otherwise a single FAIL
      listing the repeats. */
  method CheckUniqueGlyphNames(glyphOrder: seq<string>) returns (results: seq<Diagnostic>)
    ensures var duplicated := Repeats(GlyphIDs(glyphOrder));
      results == if |duplicated| == 0 then [Diagnostic(PASS, Text("Font contains unique glyph names."))]
        else [Diagnostic(FAIL, Text("The following glyph IDs occur twice: " + PyList(duplicated)))]
    ensures |results| == 1
    ensures results[0].status == PASS <==> Distinct(GlyphIDs(glyphOrder))
    ensures results[0].status == FAIL <==> !Distinct(GlyphIDs(glyphOrder))
  {
    var ids := GlyphIDs(glyphOrder);
    var glyphs: seq<string> := [];
    var duplicatedGlyphIDs: seq<string> := [];
    var i := 0;
    while i < |glyphOrder|
      invariant 0 <= i <= |glyphOrder|
      invariant glyphs == Dedup(ids[..i])
      invariant duplicatedGlyphIDs == Repeats(ids[..i])
    {
      var glyphID := StripHashWords(glyphOrder[i]);
      assert glyphID == ids[i];
      DedupRepeatsStep(ids, i);
      if glyphID in glyphs {
        duplicatedGlyphIDs := duplicatedGlyphIDs + [glyphID];
      } else {
        glyphs := glyphs + [glyphID];
      }
      i := i + 1;
    }
    assert ids[..i] == ids;
    RepeatsEmpty(ids);
    if |duplicatedGlyphIDs| == 0 {
      results := [Diagnostic(PASS, Text("Font contains unique glyph names."))];
    } else {
      results := [Diagnostic(FAIL, Text("The following glyph IDs occur twice: " + PyList(duplicatedGlyphIDs)))];
    }
  }

  // ---------------------------------------------------------------- check/060

  /** `re.search(r'#\w+$', g)` succeeds: some '#' is followed by word characters up to the
      end of `g`, or up to a newline that ends `g` (Python's `$`). */
  predicate HashWordAtEnd(g: string)
  {
    exists i, j :: 0 <= i < j <= |g| && g[i] == '#' && HashWordUpTo(g, i, j)
  }

  predicate HashWordUpTo(g: string, i: nat, j: nat)
    requires i < j <= |g|
  {
    && j - i >= 2
    && (forall k :: i < k < j ==> IsWordChar(g[k]))
    && (j == |g| || (j == |g| - 1 && g[j] == '\n'))
  }

  /** The length of the run of word characters at the end of `s`. */
  function TrailingWordRun(s: string): (n: nat)
    ensures n <= |s|
    ensures forall k :: |s| - n <= k < |s| ==> IsWordChar(s[k])
    ensures n < |s| ==> !IsWordChar(s[|s| - n - 1])
  {
    if s != [] && IsWordChar(s[|s| - 1]) then 1 + TrailingWordRun(s[..|s| - 1]) else 0
  }

  /** The search as the check needs it: drop one final newline, then look for a non-empty
      trailing run of word characters with '#' just before it. */
  function EndsWithHashWord(g: string): (found: bool)
    ensures found <==> HashWordAtEnd(g)
  {
    var t := if g != [] && g[|g| - 1] == '\n' then g[..|g| - 1] else g;
    var n := TrailingWordRun(t);
    var found := n > 0 && n < |t| && t[|t| - n - 1] == '#';
    assert found ==> HashWordUpTo(g, |t| - n - 1, |t|);
    assert HashWordAtEnd(g) ==> found by {
      if HashWordAtEnd(g) {
        var i, j :| 0 <= i < j <= |g| && g[i] == '#' && HashWordUpTo(g, i, j);
        assert j == |t|;
        assert forall k :: i < k < |t| ==> IsWordChar(t[k]);
        assert |t| - n <= i + 1;
      }
    }
    found
  }

  /** The glyph IDs of the names that end in `#word`, in order. */
  function IncorrectlyNamed(names: seq<string>): seq<string>
  {
    if names == [] then []
    else
      var bad := IncorrectlyNamed(names[..|names| - 1]);
      var g := names[|names| - 1];
      if EndsWithHashWord(g) then bad + [StripHashWords(g)] else bad
  }

  /** check/060: a single PASS when no name ends in `#word`, otherwise a single FAIL listing
      the glyph IDs of those that do. */
  method CheckIncorrectlyNamedGlyphs(glyphOrder: seq<string>) returns (results: seq<Diagnostic>)
    ensures var bad := IncorrectlyNamed(glyphOrder);
      results == if |bad| == 0 then [Diagnostic(PASS, Text("Font does not have any incorrectly named glyph."))]
        else [Diagnostic(FAIL, Text("The following glyph IDs are incorrectly named: " + PyList(bad)))]
    ensures |results| == 1
    ensures results[0].status == PASS <==> forall i :: 0 <= i < |glyphOrder| ==> !HashWordAtEnd(glyphOrder[i])
    ensures results[0].status == FAIL <==> results[0].status != PASS
  {
    var badGlyphIDs: seq<string> := [];
    var i := 0;
    while i < |glyphOrder|
      invariant 0 <= i <= |glyphOrder|
      invariant badGlyphIDs == IncorrectlyNamed(glyphOrder[..i])
    {
      var g := glyphOrder[i];
      assert glyphOrder[..i + 1][..i] == glyphOrder[..i];
      assert glyphOrder[..i + 1][i] == g;
      if EndsWithHashWord(g) {
        var glyphID := StripHashWords(g);
        badGlyphIDs := badGlyphIDs + [glyphID];
      }
      i := i + 1;
    }
    assert glyphOrder[..i] == glyphOrder;
    IncorrectlyNamedEmpty(glyphOrder);
    if |badGlyphIDs| == 0 {
      results := [Diagnostic(PASS, Text("Font does not have any incorrectly named glyph."))];
    } else {
      results := [Diagnostic(FAIL, Text("The following glyph IDs are incorrectly named: " + PyList(badGlyphIDs)))];
    }
  }

  /** Nothing is reported iff no name ends in `#word`. */
  lemma {:induction false} IncorrectlyNamedEmpty(names: seq<string>)
    ensures |IncorrectlyNamed(names)| == 0 <==> forall k :: 0 <= k < |names| ==> !HashWordAtEnd(names[k])
  {
    if names != [] {
      var p := names[..|names| - 1];
      IncorrectlyNamedEmpty(p);
      assert forall k :: 0 <= k < |p| ==> p[k] == names[k];
    }
  }

  /** The IDs check/060 reports carry no `#word` any more. */
  lemma {:induction false} IncorrectlyNamedClean(names: seq<string>)
    ensures forall k :: 0 <= k < |IncorrectlyNamed(names)| ==> NoHashWord(IncorrectlyNamed(names)[k])
    ensures |IncorrectlyNamed(names)| <= |names|
  {
    if names != [] {
      IncorrectlyNamedClean(names[..|names| - 1]);
      StripHashWordsClean(names[|names| - 1]);
    }
  }
}
