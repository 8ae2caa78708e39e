# Font Bakery check bodies and bake decisions, in Dafny

Font Bakery checks font files for quality problems. Each check gets facts about a font:
- its path;
- what an external validator printed;
- its tables, glyph names, character map or outlines.

From those facts the check yields an ordered list of results. Each result is a status (PASS, INFO, WARN, FAIL, ERROR, SKIP) with a message.

This project models the bodies of the checks in `Lib/fontbakery/specifications/general.py`:

| check | what it checks |
|---|---|
| com.google.fonts/check/002 | all files sit in one directory |
| check/035, 036, 037 | ftxvalidator, ots-sanitize, Microsoft Font Validator |
| check/038, 039 | FontForge's stderr and validation bits |
| check/046, 047, 048, 049 | mandatory and whitespace glyphs |
| check/052, 053 | required and unwanted tables |
| check/058, 059, 060 | glyph names |

It also models two other pieces:
- the `typographic_family_name` check;
- the pure decisions inside the bake pipeline of `cli/bakery.py`:
  - the name a license file is copied under;
  - the ttfautohint parameters and commands;
  - the pyftsubset command and where its output goes;
  - the test set each upstream source is run with.

Each check is a function or a method returning `seq<Diagnostic>`. That list stands in for what the generator yields.

The form follows the source:
- Checks that build a list or a string in a loop are methods with `while` loops. Each is proved against a specification function over the prefix already handled.
- Straight-line checks are functions.
- The facts of each property are lemmas about those functions.

Inputs are the facts the check reads, as plain values:
- an external tool becomes a `ToolRun` outcome: not installed, error exit with its output, or a normal run with its result;
- FontForge's `validation_state` is a `bv32`;
- a font's tables are their tags;
- glyph names are the glyph order;
- the character map is a list of `cmap` subtables, plus the code point to glyph map that `getGlyph` answers;
- outlines are a map from glyph names to simple or composite glyphs.

Modules:
- `Results`: statuses, messages, diagnostics and tool outcomes.
- `Strings`: Python's `split`, `join`, `strip`, `in` and list formatting, on strings.
- `Lists`: first-seen-order de-duplication.
- `Paths`: `os.path.dirname`, `basename` and `join`.
- `StringOrder`: Python's string order and `sorted` over a set.
- `Fonts`: the parts of a font the whitespace checks read.
- `GeneralFamily`, `GeneralValidators`, `GeneralFontForge`, `GeneralWhitespace`, `GeneralTables`, `GeneralGlyphNames`: the checks of `general.py`, grouped by theme.
- `TypographicFamilyName`: the name ID 16 consistency check.
- `Bakery`: the bake decisions.

## Model

| member | source | states |
|---|---|---|
| GeneralFamily.CheckSameDirectory | Lib/fontbakery/specifications/general.py:28-42 | Exactly one result. The directories are collected once each. The result is PASS iff every font has the same directory and there is at least one font; otherwise FAIL, even for no fonts. |
| GeneralFamily.ListedDirectories | Lib/fontbakery/specifications/general.py:28-32 | The listed directories are pairwise distinct. They are exactly the directories of the fonts, ordered by where each first occurs. |
| GeneralValidators.CheckFtxvalidator | Lib/fontbakery/specifications/general.py:49-81 | Exactly one result. It is PASS iff the run lists no fatal-error severity. It is FAIL iff a fatal error is listed and the report run succeeds. It is WARN iff either run exits non-zero, and ERROR iff the tool is missing. |
| GeneralValidators.CheckOtsSanitize | Lib/fontbakery/specifications/general.py:87-105 | Exactly one result. It is ERROR iff the tool is missing. It is FAIL iff the tool exits non-zero, or prints something other than nothing without saying "File sanitized successfully". It is PASS otherwise. |
| GeneralValidators.ReportMessage | Lib/fontbakery/specifications/general.py:141-145 | The text starts with "MS-FonVal: " and the message. It is exactly that iff the details are empty or absent. Otherwise " DETAILS: " and the details follow. |
| GeneralValidators.ReportDiagnosticShape | Lib/fontbakery/specifications/general.py:157-164 | ErrorType P gives PASS, E gives FAIL, W gives WARN, and any other or no type gives INFO. Each holds in both directions. The text carries the validator prefix. |
| GeneralValidators.CheckFontValidator | Lib/fontbakery/specifications/general.py:111-164 | A missing validator gives a single ERROR. A non-zero exit gives an INFO with the filtered output, followed by the report rows. A normal run gives the report rows alone. |
| GeneralValidators.FilterValidatorOutput | Lib/fontbakery/specifications/general.py:119-125 | The output is the lines that mention neither "Validating glyph with index" nor "Table Test:", each followed by a newline. |
| GeneralValidators.ReportRows | Lib/fontbakery/specifications/general.py:149-164 | One diagnostic per report row whose `[msg, details]` pair did not occur in an earlier row, in row order. |
| GeneralValidators.FirstReportsKeys | Lib/fontbakery/specifications/general.py:149-155 | The pairs of the reported rows are the pairs of all rows, de-duplicated in first-seen order. |
| GeneralValidators.FirstReportsFirst | Lib/fontbakery/specifications/general.py:149-164 | Each reported row is the first row of the report with its `[msg, details]` pair, so its status comes from that row's `ErrorType`. |
| GeneralValidators.UnfilteredValidatorOutput | Lib/fontbakery/specifications/general.py:119-125 | When no output line mentions an ignored phrase, the filtered text is the whole output followed by one newline. |
| GeneralValidators.ReportedOnce | Lib/fontbakery/specifications/general.py:149-155 | No pair is reported twice, and every pair of the report is reported. |
| GeneralFontForge.CheckFontForgeState | Lib/fontbakery/specifications/general.py:191-306 | One result per test run, in order. Result `i` is FAIL iff the bit of test `i` is set in `validation_state`, and PASS iff it is clear. Its text is "fontforge-check: " and that test's error or confirmation text. |
| GeneralFontForge.CheckFontForgeMessages | Lib/fontbakery/specifications/general.py:171-184 | Exactly one result. It is FAIL iff some stderr line mentions neither ignored phrase and is not blank. It is PASS otherwise. |
| GeneralFontForge.SeparatorOnlyFiltered | Lib/fontbakery/specifications/general.py:171-179 | stderr holding only the separator 0x1C is filtered to that line and a newline. |
| GeneralFontForge.SeparatorIsTextSpace | Lib/fontbakery/specifications/general.py:180 | That filtered text strips to nothing, because the separator is whitespace for `unicode` text, so check/038 passes. |
| GeneralFontForge.SeparatorIsNotByteSpace | cli/bakery.py:271 | A byte string keeps the separator 0x1C when stripped. |
| GeneralFontForge.BlankAfterFiltering | Lib/fontbakery/specifications/general.py:171-180 | The filtered text is non-blank after stripping iff some line survives the filter and is not blank. |
| GeneralFontForge.FontForgeStateResults | Lib/fontbakery/specifications/general.py:191-197 | One result per test, in order. Result i is FAIL iff its bit is set in `validation_state` and PASS iff it is clear. It carries the error text or the confirmation text accordingly. |
| GeneralFontForge.LibreBarcodeTests | Lib/fontbakery/specifications/general.py:199-310 | 20 tests run, or 18 for Libre Barcode. The exempt tests are exactly those at positions 4 and 9 (bits 0x20 and 0x200). Both are dropped for Libre Barcode, and the remaining tests keep their order. |
| GeneralWhitespace.CheckMandatoryGlyphs | Lib/fontbakery/specifications/general.py:321-338 | Exactly one result. It is PASS iff U+0000, U+000D and U+0020 all have a glyph. Otherwise it is a WARN listing the missing ones in that order. |
| GeneralWhitespace.MissingMandatory | Lib/fontbakery/specifications/general.py:325-331 | The missing list is empty iff all three code points map to a glyph. |
| GeneralWhitespace.MissingCodepointsMembers | Lib/fontbakery/specifications/general.py:325-331 | A code point's name is listed iff `getGlyph` does not map it. Nothing else is listed. |
| GeneralWhitespace.CheckWhitespaceGlyphs | Lib/fontbakery/specifications/general.py:344-349 | Exactly one result. It is FAIL iff whitespace characters are missing, and then it lists them. It is PASS otherwise. |
| GeneralWhitespace.GlyphEncodings | Lib/fontbakery/specifications/general.py:359-366 | A code point is collected iff some Unicode subtable maps it to one of the names. |
| GeneralWhitespace.SubtableGlyphEncodings | Lib/fontbakery/specifications/general.py:363-365 | The loop over one subtable's items collects exactly the code points mapped to one of the names. |
| Fonts.EncodingsMembers | Lib/fontbakery/specifications/general.py:359-366 | The union over the subtables holds exactly the code points some Unicode subtable maps to a listed name. |
| GeneralWhitespace.CheckWhitespaceNames | Lib/fontbakery/specifications/general.py:368-395 | A format 3 `post` table gives exactly one SKIP. Otherwise there is a `bad20` FAIL iff U+0020 is not mapped to a space name. There is a `badA0` FAIL iff U+00A0 is mapped to neither a no-break-space name nor a space name. The last result is PASS iff neither FAIL was yielded. |
| GeneralWhitespace.GlyphHasInk | Lib/fontbakery/specifications/general.py:407-433 | The loop-and-return procedure agrees with `HasInk` on every glyph of an acyclic font. |
| Fonts.HasInkPath | Lib/fontbakery/specifications/general.py:407-433 | A glyph has ink iff a chain of components leads from it to a simple glyph with a contour and more than two points. |
| Fonts.InkPathOf | Lib/fontbakery/specifications/general.py:427-433 | A glyph with ink has such a chain of components. |
| Fonts.PathHasInk | Lib/fontbakery/specifications/general.py:427-433 | A glyph with such a chain has ink. |
| GeneralWhitespace.CheckWhitespaceInk | Lib/fontbakery/specifications/general.py:442-451 | One FAIL per whitespace code point whose glyph has ink, in the order of the whitespace list. A single PASS iff there is none. |
| GeneralWhitespace.InkedGlyphsMembers | Lib/fontbakery/specifications/general.py:443-449 | A glyph is reported iff some listed code point maps to it and a chain of its components leads to ink. |
| GeneralWhitespace.WhitespaceInkPass | Lib/fontbakery/specifications/general.py:442-451 | Nothing is reported iff no whitespace code point maps to a glyph with ink. |
| GeneralTables.CheckRequiredTables | Lib/fontbakery/specifications/general.py:474-492 | One or two results: an optional INFO, then a FAIL or a PASS. |
| GeneralTables.RequiredTablesVerdict | Lib/fontbakery/specifications/general.py:474-492 | The first result is INFO iff an optional table is present. The last is PASS iff every required table is present (STAT too for a variable font) and `glyf` or `CFF ` is present. Otherwise the last is FAIL. |
| GeneralTables.MissingTablesMembers | Lib/fontbakery/specifications/general.py:479-486 | A tag is reported missing iff it is required and absent. "CFF ' or 'glyf" is reported iff neither outline table is present. |
| GeneralTables.AmongMembers | Lib/fontbakery/specifications/general.py:474 | The list comprehension keeps exactly the candidates that are present (or absent). |
| GeneralTables.CheckUnwantedTables | Lib/fontbakery/specifications/general.py:498-510 | Exactly one result. It is FAIL iff some tag is unwanted, and then it lists those tags in font order. It is PASS otherwise. |
| GeneralTables.UnwantedFoundMembers | Lib/fontbakery/specifications/general.py:500-503 | A tag is listed iff the font has it and it is unwanted. |
| GeneralGlyphNames.CheckGlyphNames | Lib/fontbakery/specifications/general.py:517-540 | Exactly one result. It is PASS iff no name is bad. Otherwise it is a FAIL listing the bad names in glyph order. |
| GeneralGlyphNames.BadGlyphNamesMembers | Lib/fontbakery/specifications/general.py:518-524 | A name is listed iff it is in the glyph order, is neither ".null" nor ".notdef", and does not start with an ASCII letter or '_'. |
| GeneralGlyphNames.NamePatternExamples | Lib/fontbakery/specifications/general.py:523-540 | The start-anchored pattern accepts "twocents", "a1" and "_". It rejects "2cents", ".twocents" and the empty name. It also accepts names the message calls invalid, such as "a-b.c" and a 36-character name. |
| GeneralGlyphNames.StripHashWordsClean | Lib/fontbakery/specifications/general.py:555 | `re.sub(r'#\w+', '', g)` leaves no `#\w` in its result, and its first character is a word character iff the name's is. |
| GeneralGlyphNames.StripHashWordsAppend | Lib/fontbakery/specifications/general.py:555 | A name cut just before a non-word character is stripped piece by piece. With the next two rows this fixes the kept characters: each piece that is '#' followed by word characters is removed whole, and every other piece is kept in place. |
| GeneralGlyphNames.StripHashWordRun | Lib/fontbakery/specifications/general.py:555 | A '#' with the whole run of word characters after it is removed. |
| GeneralGlyphNames.StripHashWordsKeep | Lib/fontbakery/specifications/general.py:555 | A character that does not start a `#\w+` run is kept, ahead of the stripped rest. |
| GeneralGlyphNames.StripHashWordsAroundRun | Lib/fontbakery/specifications/general.py:555 | "a#b c" becomes "a c": the text on both sides of a removed run stays. |
| GeneralGlyphNames.StripHashWordsSuffix | Lib/fontbakery/specifications/general.py:555 | "one#2" has the glyph ID "one". |
| GeneralGlyphNames.StripHashWordsNone | Lib/fontbakery/specifications/general.py:555 | A name without `#\w` is unchanged. |
| GeneralGlyphNames.StripHashWordsIdempotent | Lib/fontbakery/specifications/general.py:555 | Stripping twice is stripping once. |
| GeneralGlyphNames.CheckUniqueGlyphNames | Lib/fontbakery/specifications/general.py:552-565 | Exactly one result. It is PASS iff the glyph IDs are pairwise distinct. Otherwise it is a FAIL listing every repeated occurrence. |
| GeneralGlyphNames.EndsWithHashWord | Lib/fontbakery/specifications/general.py:574 | `re.search(r'#\w+$', g)` holds iff a '#' is followed by word characters up to the end, or up to a final newline. |
| GeneralGlyphNames.CheckIncorrectlyNamedGlyphs | Lib/fontbakery/specifications/general.py:572-582 | Exactly one result. It is PASS iff no name ends in `#word`. Otherwise it is a FAIL listing the stripped IDs of those names. |
| GeneralGlyphNames.IncorrectlyNamedEmpty | Lib/fontbakery/specifications/general.py:573-578 | Nothing is reported iff no name ends in `#word`. |
| GeneralGlyphNames.IncorrectlyNamedClean | Lib/fontbakery/specifications/general.py:573-576 | The reported IDs contain no `#word`, and there are at most as many as there are names. |
| Lists.DedupFirstSeenOrder | Lib/fontbakery/specifications/general.py:28-32 | De-duplication keeps values in the order of their first occurrence. |
| Lists.DedupSingle | Lib/fontbakery/specifications/general.py:34 | Exactly one distinct value is collected iff the list is non-empty and constant. |
| Lists.RepeatsEmpty | Lib/fontbakery/specifications/general.py:556-561 | No repeat is recorded iff the list has no repetitions. |
| Lists.RepeatsMembers | Lib/fontbakery/specifications/general.py:556-561 | A value is recorded as a repeat iff it occurs at two different positions. |
| Lists.DedupRepeatsSplit | Lib/fontbakery/specifications/general.py:556-559 | Every ID goes to exactly one of `glyphs` and `duplicated_glyphIDs`. |
| TypographicFamilyName.CheckTypographicFamilyName | Lib/fontbakery/checks/typographic_family_name.py:14-25 | At most one result, a FAIL with the sorted distinct values, iff the number of distinct values is not 1. So no fonts at all also FAIL. Nothing is yielded iff there are fonts and they all agree. |
| TypographicFamilyName.SingleValue | Lib/fontbakery/checks/typographic_family_name.py:14-21 | Exactly one value is collected iff there is a font and all fonts give the same value, where a missing record counts as "<no value>". |
| TypographicFamilyName.OrderIndependent | Lib/fontbakery/checks/typographic_family_name.py:14-20 | Two font lists with the same records, in any order or repeated, collect the same values. |
| StringOrder.Sorted | Lib/fontbakery/checks/typographic_family_name.py:24 | `sorted(values)` returns the one strictly increasing list of the set's elements. |
| StringOrder.SortedUnique | Lib/fontbakery/checks/typographic_family_name.py:24 | Two strictly sorted lists with the same elements are equal. |
| StringOrder.LessTotal | Lib/fontbakery/checks/typographic_family_name.py:24 | Python's string order relates any two different strings. |
| StringOrder.LessTransitive | Lib/fontbakery/checks/typographic_family_name.py:24 | Python's string order is transitive. |
| Bakery.CopyLicense | cli/bakery.py:295-321 | Without a configured license only the error line is written. Otherwise the configured path under the project is copied to the build directory joined with the canonical name of the path's last `/`-piece. |
| Bakery.LicenseFileInIsBasename | cli/bakery.py:301-302 | The last piece of `split('/')` is the part after the last '/', and it holds no '/'. |
| Bakery.LicenseFileOutCanonical | cli/bakery.py:303-313 | The mapping is "OFL.txt" iff the name is an OFL name, and "LICENSE.txt" iff the name is an Apache name or already "LICENSE.txt". Any other name is kept as it is. Mapping twice is mapping once. |
| Bakery.AutohintParamsMeaning | cli/bakery.py:259-265 | There are parameters iff they are configured non-empty. " -f deva" is appended iff "devanagari" is a configured subset. |
| Bakery.AutohintProcess | cli/bakery.py:251-275 | No step without parameters. Otherwise a heading, a change into the build directory, then per font file the ttfautohint run and the move back. |
| Bakery.AutohintFileSteps | cli/bakery.py:268-275 | Two steps per font file. |
| Bakery.AutohintFileStepsAt | cli/bakery.py:268-275 | Step `2i` runs ttfautohint on file `i` in the build directory. Step `2i+1` moves that file's ".autohint.ttf" output over its ".ttf" name. |
| Bakery.AutohintTargetRoundTrip | cli/bakery.py:269-275 | For a `*.ttf` file, the command reads and the move overwrites exactly the file that was found. |
| Bakery.PyftsubsetCommandText | cli/bakery.py:224-229 | Filling in the template gives "pyftsubset " + out + ".ttf " + glyphs + the fixed options + " " + args, where the last part appears only when args is non-empty. |
| Bakery.SubstituteShape | cli/bakery.py:228-229 | `%`-formatting replaces each placeholder with its value and copies the text between them. |
| Bakery.PyftsubsetSteps | cli/bakery.py:223-234 | A run in the build directory of the filled-in command, with newlines in the glyph list turned into spaces. Then a move of `out.ttf.subset` to `out.<subset>`. |
| Bakery.NewlinesToSpaces | cli/bakery.py:228 | Same length and no newline left. Every newline becomes a space, and every other character is kept. |
| Bakery.UpstreamTests | cli/bakery.py:323-335 | The loop builds the recorded runs one entry per file, a later entry for the same key replacing an earlier one. |
| Bakery.UpstreamRunsEntries | cli/bakery.py:327-335 | The keys are "/" and the processed files. Each file is run on its path with its test set. "/" keeps the repository tests unless a file is named "/". |
| Bakery.TestSetLong | cli/bakery.py:329-335 | For a name of four characters or more, the ttx set is chosen iff the name ends in ".ttx". |
| Bakery.TestSetShort | cli/bakery.py:329-335 | A shorter name gets the ttx set iff it is a substring of ".ttx". |
| Bakery.TestSetExamples | cli/bakery.py:329-335 | "" and "tx" get the ttx set, as does "a.ttx"; "a.ufo" gets the plain upstream set. |

## Left out

- The check runner is not part of this model. It lives in `fontbakery.checkrunner`, outside the modelled core, and it covers scheduling, conditions, priorities and aggregating statuses. Conditions a check depends on, such as `missing_whitespace_chars`, `is_variable_font` and `whitelist_librebarcode`, are inputs.
- Running a program and reading and removing files are outside the model. Each tool is represented only by its outcome. Lines written to the console are modelled as `Write` steps in the step lists of CopyLicense and AutohintProcess. The `raise error` after check/037's ERROR is not modelled; that check then yields its ERROR and nothing more.
- Parsers are not modelled: ftxvalidator's plist, Font Validator's XML report, and the fontTools table objects. Their contents are inputs.
- `getGlyph` is the `glyphFor` map of the font. fontTools' `numberOfContours`, `getCoordinates` and `getComponentNames` are the fields of a `Glyph`.
- GeneralWhitespace.CheckWhitespaceInk: requires a rank map over the glyphs reachable from the whitespace glyphs. Every glyph a whitespace code point maps to must be ranked. Every ranked glyph, and every component of a ranked composite, must exist in `glyf`, and the ranked composites must form no cycle. Glyphs that no whitespace glyph reaches are not constrained. In the source, a missing glyph raises a KeyError. A cyclic composite makes `glyphHasInk` recurse until Python raises RecursionError. Either way the check ends in an error rather than a result. The source stops at the first component with ink, so it still gives a result when a missing or cyclic component comes after one. The model excludes that case too.
- GeneralTables.CheckRequiredTables: lists the optional and the missing tables in the order the constants list them. The source iterates over Python sets, whose order is its own.
- GeneralFontForge.CheckFontForgeMessages / BlankAfterFiltering: `strip()` whitespace covers ASCII only. On ASCII it is exact: check/038 strips `unicode` text (`unicode_literals`), so its whitespace is the six C whitespace characters (space, tab, newline, carriage return, 0x0B, 0x0C) and the separators 0x1C to 0x1F. Bakery.AutohintCommand strips a Python 2 byte string from the YAML configuration, so it uses only the six C whitespace characters. Non-ASCII whitespace (0x85, 0xA0, 0x2000 and the others) is not treated as whitespace.
- The regular-expression class `\w` covers ASCII characters only.
- Python's list formatting is modelled without escaping quotes or other characters.
- The post table's `formatType` is a `real`, compared with 3.0 exactly.
- Bakery.PyftsubsetSteps: requires that the extra arguments hold no '%'. The source appends them before `%`-formatting, so a '%' in them would be read as a format directive.
- `subset_process` and the menu subset are not modelled. Nor are `Bakery.run` and the other copy, fix, metadata and pyfontaine steps, the YAML dump of `upstream_tests`, or its "Run upstream tests" heading.
- `run_set` of `upstream_tests` is represented by the path and test set it is called with.
- The profile modules under `Lib/fontbakery/profiles/` hold only data, and no modelled code interprets them.
