/** The pure decisions of the font bakery build: the name a license file is copied under,
    the ttfautohint parameters and command, the pyftsubset command and output, and the test
    set each upstream source is checked with. */
module Bakery {
  import opened Results
  import opened Strings
  import opened Paths

  /** The keys of the bake configuration these steps read; a missing list is empty. */
  datatype Config = Config(
    licenseFile: Option<string>,
    ttfautohint: Option<string>,
    subset: seq<string>,
    processFiles: seq<string>)

  /** A bakery: where it builds, the project directory holding the configuration, and the
      configuration. */
  datatype Bakery = Bakery(builddir: string, projectRoot: string, config: Config)

  /** What a build step does to the outside world. */
  datatype Step =
    | Write(prefix: string, text: string)
    | ChangeDir(dir: string)
    | Run(command: string, cwd: string)
    | Copy(source: string, destination: string)
    | Move(source: string, destination: string)

  // ---------------------------------------------------------------- copy_license

  const OflFilenames := ["Open Font License.markdown", "OFL.txt", "OFL.md"]
  const ApacheFilenames := ["APACHE.txt", "LICENSE"]

  /** `license_file.split('/')[-1]`. */
  function LicenseFileIn(licenseFile: string): string
  {
    var parts := Split(licenseFile, '/');
    parts[|parts| - 1]
  }

  /** The canonical name of a license file: OFL.txt for the OFL names, LICENSE.txt for the
      Apache names, the name itself otherwise. */
  function LicenseFileOut(licenseFileIn: string): string
  {
    if licenseFileIn in OflFilenames then "OFL.txt"
    else if licenseFileIn in ApacheFilenames then "LICENSE.txt"
    else licenseFileIn
  }

  /** `copy_license`: copy the configured license from the project into the build directory
      under its canonical name, or write an error line when none is configured. */
  function CopyLicense(b: Bakery): (step: Step)
    ensures step.Write? <==> !Truthy(b.config.licenseFile)
    ensures step.Write? ==> step == Write("Error: ", "License file not copied\n")
    ensures step.Copy? ==> step.source == PathJoin(b.projectRoot, b.config.licenseFile.value)
    ensures step.Copy? ==> step.destination == PathJoin(b.builddir, LicenseFileOut(Basename(b.config.licenseFile.value)))
    ensures step.Copy? ==> Basename(step.destination) == LicenseFileOut(Basename(b.config.licenseFile.value))
    ensures step.Write? || step.Copy?
  {
    if Truthy(b.config.licenseFile) then
      var licenseFileInFullPath := b.config.licenseFile.value;
      var licenseFileIn := LicenseFileIn(licenseFileInFullPath);
      LicenseFileInIsBasename(licenseFileInFullPath);
      LicenseFileOutHasNoSlash(licenseFileIn);
      BasenameJoin(b.builddir, LicenseFileOut(licenseFileIn));
      Copy(PathJoin(b.projectRoot, licenseFileInFullPath), PathJoin(b.builddir, LicenseFileOut(licenseFileIn)))
    else
      Write("Error: ", "License file not copied\n")
  }

  /** The input name is the base name of the configured path: what follows its last '/'. */
  lemma LicenseFileInIsBasename(licenseFile: string)
    ensures LicenseFileIn(licenseFile) == Basename(licenseFile)
    ensures '/' !in LicenseFileIn(licenseFile)
  {
    LastSplitIsBasename(licenseFile);
    NoSlashAfter(licenseFile);
  }

  lemma LicenseFileOutHasNoSlash(name: string)
    requires '/' !in name
    ensures '/' !in LicenseFileOut(name)
  {
  }

  /** Canonical names are their own canonical names; OFL.txt is the output exactly for the
      OFL names, LICENSE.txt exactly for the Apache names and for itself, and any other name
      is kept. */
  lemma LicenseFileOutCanonical(name: string)
    ensures LicenseFileOut(LicenseFileOut(name)) == LicenseFileOut(name)
    ensures LicenseFileOut(name) == "OFL.txt" <==> name in OflFilenames
    ensures LicenseFileOut(name) == "LICENSE.txt" <==> name in ApacheFilenames || name == "LICENSE.txt"
    ensures name !in OflFilenames && name !in ApacheFilenames ==> LicenseFileOut(name) == name
  {
  }

  // ---------------------------------------------------------------- ttfautohint_process

  /** The ttfautohint parameters: none unless configured and non-empty; " -f deva" is added
      when the devanagari subset is built. */
  function AutohintParams(config: Config): Option<string>
  {
    if !Truthy(config.ttfautohint) then None
    else if "devanagari" in config.subset then Some(config.ttfautohint.value + " -f deva")
    else Some(config.ttfautohint.value)
  }

  /** There are parameters iff some are configured; they extend the configured ones, by
      " -f deva" exactly when the devanagari subset is built. */
  lemma AutohintParamsMeaning(config: Config)
    ensures var params := AutohintParams(config);
      && (params.Some? <==> Truthy(config.ttfautohint))
      && (params.Some? ==> config.ttfautohint.value <= params.value)
      && (params.Some? ==> (params.value == config.ttfautohint.value + " -f deva" <==> "devanagari" in config.subset))
      && (params.Some? && "devanagari" !in config.subset ==> params.value == config.ttfautohint.value)
  {
    if Truthy(config.ttfautohint) && "devanagari" !in config.subset {
      var v := config.ttfautohint.value;
      assert |v + " -f deva"| != |v|;
    }
  }

  /** The path, without its extension, of a font file found in the build directory. */
  function AutohintTarget(builddir: string, file: string): string
  {
    PathJoin(builddir, DropLast(file, 4))
  }

  const AutohintHead := "ttfautohint "
  const AutohintSource := " '"
  const AutohintMiddle := ".ttf' '"
  const AutohintTail := ".autohint.ttf'"

  /** `ttfautohint {params} '{name}.ttf' '{name}.autohint.ttf'`, with the parameters stripped. */
  function AutohintCommand(params: string, name: string): string
  {
    AutohintHead + (Strip(params, ByteString) + (AutohintSource + (name + (AutohintMiddle + (name + AutohintTail)))))
  }

  /** The steps for each font file found: hint it into `.autohint.ttf`, then move that over
      the original. */
  function AutohintFileSteps(builddir: string, params: string, files: seq<string>): (steps: seq<Step>)
    ensures |steps| == 2 * |files|
  {
    if files == [] then []
    else
      var name := AutohintTarget(builddir, files[|files| - 1]);
      AutohintFileSteps(builddir, params, files[..|files| - 1])
        + [Run(AutohintCommand(params, name), builddir), Move(name + ".autohint.ttf", name + ".ttf")]
  }

  /** `ttfautohint_process` over the `*.ttf` files of the build directory: nothing without
      parameters, otherwise a heading, a change into the build directory, and the command
      and the move for each file in turn. */
  method AutohintProcess(b: Bakery, ttfFiles: seq<string>) returns (steps: seq<Step>)
    ensures !Truthy(b.config.ttfautohint) ==> steps == []
    ensures Truthy(b.config.ttfautohint) ==>
      steps == [Write("### ", "Autohint TTFs (ttfautohint)\n"), ChangeDir(b.builddir)]
               + AutohintFileSteps(b.builddir, AutohintParams(b.config).value, ttfFiles)
    ensures steps == [] <==> !Truthy(b.config.ttfautohint)
  {
    var params := if b.config.ttfautohint.Some? then b.config.ttfautohint.value else "";
    if params == "" {
      return [];
    }
    steps := [Write("### ", "Autohint TTFs (ttfautohint)\n")];
    if "devanagari" in b.config.subset {
      params := params + " -f deva";
    }
    steps := steps + [ChangeDir(b.builddir)];
    assert params == AutohintParams(b.config).value;
    var fileSteps: seq<Step> := [];
    var i := 0;
    while i < |ttfFiles|
      invariant 0 <= i <= |ttfFiles|
      invariant fileSteps == AutohintFileSteps(b.builddir, params, ttfFiles[..i])
    {
      var name := AutohintTarget(b.builddir, ttfFiles[i]);
      AutohintFileStepsStep(b.builddir, params, ttfFiles, i);
      fileSteps := fileSteps + [Run(AutohintCommand(params, name), b.builddir), Move(name + ".autohint.ttf", name + ".ttf")];
      i := i + 1;
    }
    assert ttfFiles[..i] == ttfFiles;
    steps := steps + fileSteps;
  }

  /** One more file adds its command and its move. */
  lemma AutohintFileStepsStep(builddir: string, params: string, files: seq<string>, i: nat)
    requires i < |files|
    ensures var name := AutohintTarget(builddir, files[i]);
      AutohintFileSteps(builddir, params, files[..i + 1]) == AutohintFileSteps(builddir, params, files[..i])
        + [Run(AutohintCommand(params, name), builddir), Move(name + ".autohint.ttf", name + ".ttf")]
  {
    var q := files[..i + 1];
    assert q[..i] == files[..i] && q[i] == files[i];
  }

  /** Steps `2 * i` and `2 * i + 1` are the command and the move of file `i`. */
  lemma {:induction false} AutohintFileStepsAt(builddir: string, params: string, files: seq<string>, i: nat)
    requires i < |files|
    ensures var steps := AutohintFileSteps(builddir, params, files);
      var name := AutohintTarget(builddir, files[i]);
      && steps[2 * i] == Run(AutohintCommand(params, name), builddir)
      && steps[2 * i + 1] == Move(name + ".autohint.ttf", name + ".ttf")
  {
    var p := files[..|files| - 1];
    var prev := AutohintFileSteps(builddir, params, p);
    var last := AutohintTarget(builddir, files[|files| - 1]);
    var tail := [Run(AutohintCommand(params, last), builddir), Move(last + ".autohint.ttf", last + ".ttf")];
    assert AutohintFileSteps(builddir, params, files) == prev + tail;
    if i < |p| {
      AutohintFileStepsAt(builddir, params, p, i);
      assert files[i] == p[i];
    }
  }

  /** For a file named `*.ttf`, the command reads and the move overwrites the file that was
      found. */
  lemma AutohintTargetRoundTrip(builddir: string, file: string)
    requires EndsWith(file, ".ttf")
    ensures AutohintTarget(builddir, file) + ".ttf" == PathJoin(builddir, file)
  {
    var stem := DropLast(file, 4);
    assert file == stem + ".ttf";
    if |stem| > 0 {
      assert file[0] == stem[0];
    }
  }

  // ---------------------------------------------------------------- execute_pyftsubset

  /** The command template of `execute_pyftsubset`, between and around its two placeholders. */
  const PyftsubsetHead := "pyftsubset "
  const PyftsubsetMiddle := ".ttf "
  const PyftsubsetOptions := " --notdef-outline --name-IDs='*' --hinting"

  /** The template with the extra arguments appended when there are some. */
  function PyftsubsetTemplate(args: string): string
  {
    PyftsubsetHead + ("%(out)s" + (PyftsubsetMiddle + ("%(glyphs)s" + PyftsubsetTail(args))))
  }

  /** The options, then the extra arguments when there are some. */
  function PyftsubsetTail(args: string): string
  {
    PyftsubsetOptions + if args != "" then " " + args else ""
  }

  /** `t % {'out': out, 'glyphs': glyphs}`: each placeholder is replaced by its value and
      every other character is copied. */
  function Substitute(t: string, out: string, glyphs: string): string
    decreases |t|
  {
    if t == [] then []
    else if |t| >= 7 && t[..7] == "%(out)s" then out + Substitute(t[7..], out, glyphs)
    else if |t| >= 10 && t[..10] == "%(glyphs)s" then glyphs + Substitute(t[10..], out, glyphs)
    else [t[0]] + Substitute(t[1..], out, glyphs)
  }

  /** Text without '%' is copied as it is. */
  lemma {:induction false} SubstitutePlain(a: string, rest: string, out: string, glyphs: string)
    requires '%' !in a
    ensures Substitute(a + rest, out, glyphs) == a + Substitute(rest, out, glyphs)
    decreases |a|
  {
    if a == [] {
      assert a + rest == rest;
    } else {
      assert a[0] in a;
      assert '%' !in a[1..] by {
        assert forall x :: x in a[1..] ==> x in a;
      }
      SubstitutePlain(a[1..], rest, out, glyphs);
      var t := a + rest;
      assert t[0] == a[0];
      assert |t| >= 7 ==> t[..7][0] == a[0] && "%(out)s"[0] == '%';
      assert |t| >= 10 ==> t[..10][0] == a[0] && "%(glyphs)s"[0] == '%';
      assert t[1..] == a[1..] + rest;
      assert a == [a[0]] + a[1..];
    }
  }

  /** The output placeholder is replaced by the output path. */
  lemma SubstituteOut(rest: string, out: string, glyphs: string)
    ensures Substitute("%(out)s" + rest, out, glyphs) == out + Substitute(rest, out, glyphs)
  {
    var t := "%(out)s" + rest;
    assert t[..7] == "%(out)s";
    assert t[7..] == rest;
  }

  /** The glyphs placeholder is replaced by the glyph list. */
  lemma SubstituteGlyphs(rest: string, out: string, glyphs: string)
    ensures Substitute("%(glyphs)s" + rest, out, glyphs) == glyphs + Substitute(rest, out, glyphs)
  {
    var t := "%(glyphs)s" + rest;
    assert t[..7][2] == 'g' && "%(out)s"[2] == 'o';
    assert t[..10] == "%(glyphs)s";
    assert t[10..] == rest;
  }

  /** `glyphs.replace('\n', ' ')`. */
  function NewlinesToSpaces(s: string): (r: string)
    ensures |r| == |s| && '\n' !in r
    ensures forall i :: 0 <= i < |s| && s[i] != '\n' ==> r[i] == s[i]
    ensures forall i :: 0 <= i < |s| && s[i] == '\n' ==> r[i] == ' '
  {
    seq(|s|, i requires 0 <= i < |s| => if s[i] == '\n' then ' ' else s[i])
  }

  /** The second half of a template: `middle %(glyphs)s tail`. */
  lemma SubstituteSecondHalf(middle: string, tail: string, out: string, glyphs: string)
    requires '%' !in middle && '%' !in tail
    ensures Substitute(middle + ("%(glyphs)s" + tail), out, glyphs) == middle + (glyphs + tail)
  {
    assert Substitute(tail, out, glyphs) == tail by {
      SubstitutePlain(tail, "", out, glyphs);
      assert tail + "" == tail;
    }
    SubstituteGlyphs(tail, out, glyphs);
    SubstitutePlain(middle, "%(glyphs)s" + tail, out, glyphs);
  }

  /** Filling in a template of the shape `head %(out)s middle %(glyphs)s tail` copies the
      three texts between the placeholders when none of them holds a '%'. */
  lemma SubstituteShape(head: string, middle: string, tail: string, out: string, glyphs: string)
    requires '%' !in head && '%' !in middle && '%' !in tail
    ensures Substitute(head + ("%(out)s" + (middle + ("%(glyphs)s" + tail))), out, glyphs)
      == head + (out + (middle + (glyphs + tail)))
  {
    var r1 := middle + ("%(glyphs)s" + tail);
    SubstituteSecondHalf(middle, tail, out, glyphs);
    SubstituteOut(r1, out, glyphs);
    SubstitutePlain(head, "%(out)s" + r1, out, glyphs);
  }

  /** The filled-in template: `builddir/name.ttf`, the glyph list, the fixed options and the
      extra arguments when there are some, each copied as it is. */
  lemma PyftsubsetCommandText(args: string, out: string, glyphs: string)
    requires '%' !in args
    ensures Substitute(PyftsubsetTemplate(args), out, glyphs) ==
      PyftsubsetHead + (out + (PyftsubsetMiddle + (glyphs + PyftsubsetTail(args))))
  {
    var extra := if args != "" then " " + args else "";
    assert '%' !in extra by {
      if args != "" {
        assert forall k :: 0 <= k < |extra| ==> extra[k] == ' ' || extra[k] == args[k - 1];
      }
    }
    var tail := PyftsubsetTail(args);
    assert '%' !in tail by {
      assert forall x :: x in tail ==> x in PyftsubsetOptions || x in extra;
    }
    SubstituteShape(PyftsubsetHead, PyftsubsetMiddle, tail, out, glyphs);
  }

  /** `execute_pyftsubset`: append the extra arguments when there are some, fill in the
      output path and the glyph list (newlines turned into spaces), run the command in the
      build directory, and move the `.ttf.subset` output to `name.subset`. */
  function PyftsubsetSteps(builddir: string, subset: string, name: string, glyphs: string, args: string): (steps: seq<Step>)
    requires '%' !in args
    ensures var out := PathJoin(builddir, name);
      && |steps| == 2
      && steps[0] == Run(PyftsubsetHead + (out + (PyftsubsetMiddle + (NewlinesToSpaces(glyphs) + PyftsubsetTail(args)))), builddir)
      && steps[1] == Move(out + ".ttf.subset", out + "." + subset)
  {
    var out := PathJoin(builddir, name);
    PyftsubsetCommandText(args, out, NewlinesToSpaces(glyphs));
    [Run(Substitute(PyftsubsetTemplate(args), out, NewlinesToSpaces(glyphs)), builddir),
     Move(out + ".ttf.subset", out + "." + subset)]
  }

  // ---------------------------------------------------------------- upstream_tests

  /** One `run_set(path, test_set)` call. */
  datatype TestRun = TestRun(path: string, testSet: string)

  /** `'upstream-ttx' if font[-4:] in '.ttx' else 'upstream'`. */
  function TestSet(font: string): string
  {
    if Contains(".ttx", TakeLast(font, 4)) then "upstream-ttx" else "upstream"
  }

  /** The runs recorded after the repository run and the runs of `fonts`, in turn; a later
      entry for a key replaces an earlier one. */
  function UpstreamRuns(sourceDir: string, fonts: seq<string>): map<string, TestRun>
  {
    if fonts == [] then map["/" := TestRun(sourceDir, "upstream-repo")]
    else
      var font := fonts[|fonts| - 1];
      UpstreamRuns(sourceDir, fonts[..|fonts| - 1])[font := TestRun(PathJoin(sourceDir, font), TestSet(font))]
  }

  /** `upstream_tests`: the whole source directory with the repository tests, then each
      processed file with its test set. */
  method UpstreamTests(b: Bakery) returns (result: map<string, TestRun>)
    ensures result == UpstreamRuns(PathJoin(b.builddir, "sources"), b.config.processFiles)
  {
    var sourceDir := PathJoin(b.builddir, "sources");
    result := map[];
    result := result["/" := TestRun(sourceDir, "upstream-repo")];
    var fonts := b.config.processFiles;
    var i := 0;
    while i < |fonts|
      invariant 0 <= i <= |fonts|
      invariant result == UpstreamRuns(sourceDir, fonts[..i])
    {
      var font := fonts[i];
      UpstreamRunsStep(sourceDir, fonts, i);
      result := result[font := TestRun(PathJoin(sourceDir, font), TestSet(font))];
      i := i + 1;
    }
    assert fonts[..i] == fonts;
  }

  /** One more file sets its own entry. */
  lemma UpstreamRunsStep(sourceDir: string, fonts: seq<string>, i: nat)
    requires i < |fonts|
    ensures UpstreamRuns(sourceDir, fonts[..i + 1])
      == UpstreamRuns(sourceDir, fonts[..i])[fonts[i] := TestRun(PathJoin(sourceDir, fonts[i]), TestSet(fonts[i]))]
  {
    var q := fonts[..i + 1];
    assert q[..i] == fonts[..i] && q[i] == fonts[i];
  }

  /** Every processed file has an entry, run on its path with its test set; the repository
      entry stays unless a processed file is named "/"; there is nothing else. */
  lemma UpstreamRunsEntries(sourceDir: string, fonts: seq<string>)
    ensures var runs := UpstreamRuns(sourceDir, fonts);
      && (forall f :: f in runs <==> f == "/" || f in fonts)
      && (forall f :: f in fonts ==> runs[f] == TestRun(PathJoin(sourceDir, f), TestSet(f)))
      && ("/" !in fonts ==> runs["/"] == TestRun(sourceDir, "upstream-repo"))
  {
    UpstreamRunsKeys(sourceDir, fonts);
    UpstreamRunsFiles(sourceDir, fonts);
    UpstreamRunsRoot(sourceDir, fonts);
  }

  lemma {:induction false} UpstreamRunsKeys(sourceDir: string, fonts: seq<string>)
    ensures forall f :: f in UpstreamRuns(sourceDir, fonts) <==> f == "/" || f in fonts
  {
    if fonts != [] {
      var p := fonts[..|fonts| - 1];
      UpstreamRunsKeys(sourceDir, p);
      assert fonts == p + [fonts[|fonts| - 1]];
    }
  }

  lemma {:induction false} UpstreamRunsFiles(sourceDir: string, fonts: seq<string>)
    ensures forall f :: f in fonts ==>
      f in UpstreamRuns(sourceDir, fonts) && UpstreamRuns(sourceDir, fonts)[f] == TestRun(PathJoin(sourceDir, f), TestSet(f))
  {
    if fonts != [] {
      var p := fonts[..|fonts| - 1];
      UpstreamRunsFiles(sourceDir, p);
      assert fonts == p + [fonts[|fonts| - 1]];
    }
  }

  lemma {:induction false} UpstreamRunsRoot(sourceDir: string, fonts: seq<string>)
    ensures "/" !in fonts ==>
      "/" in UpstreamRuns(sourceDir, fonts) && UpstreamRuns(sourceDir, fonts)["/"] == TestRun(sourceDir, "upstream-repo")
  {
    if fonts != [] {
      var p := fonts[..|fonts| - 1];
      UpstreamRunsRoot(sourceDir, p);
      assert fonts == p + [fonts[|fonts| - 1]];
    }
  }

  /** A text of `t`'s length occurs in `t` only as `t` itself. */
  lemma ContainsSameLength(t: string, s: string)
    requires |s| == |t|
    ensures Contains(t, s) <==> s == t
  {
    if Contains(t, s) {
      var i :| 0 <= i <= |t| && s <= t[i..];
    }
    if s == t {
      assert s <= t[0..];
    }
  }

  /** For a name of four characters or more the ttx rule is "ends with .ttx". */
  lemma TestSetLong(font: string)
    requires |font| >= 4
    ensures TestSet(font) == "upstream-ttx" <==> EndsWith(font, ".ttx")
  {
    ContainsSameLength(".ttx", TakeLast(font, 4));
  }

  /** A shorter name gets the ttx set when it occurs in ".ttx": the empty name, "x", "tx",
      ".t" and the like. */
  lemma TestSetShort(font: string)
    requires |font| < 4
    ensures TestSet(font) == "upstream-ttx" <==> Contains(".ttx", font)
  {
  }

  lemma TestSetExamples()
    ensures TestSet("") == "upstream-ttx" && TestSet("tx") == "upstream-ttx"
    ensures TestSet("a.ttx") == "upstream-ttx" && TestSet("a.ufo") == "upstream"
  {
    assert "" <= ".ttx"[0..];
    assert "tx" <= ".ttx"[2..];
    TestSetLong("a.ttx");
    TestSetLong("a.ufo");
  }
}
