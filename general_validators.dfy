/** Checks that run an external validator: com.google.fonts/check/035 (ftxvalidator),
    check/036 (ots-sanitize) and check/037 (Microsoft Font Validator). */
module GeneralValidators {
  import opened Results
  import opened Strings
  import opened Lists

  // ---------------------------------------------------------------- check/035

  const FatalErrorKey := "kATSFontTestSeverityFatalError"

  /** check/035. `first` is the run of `ftxvalidator -t all`; when it succeeds its result is
      the list found under `kATSFontTestResultKey` in the plist it prints. `report` is the
      second, human-readable run (`-T -r`), which happens only when a fatal error is listed. */
  function CheckFtxvalidator(first: ToolRun<seq<string>>, report: ToolRun<string>): (r: seq<Diagnostic>)
    ensures |r| == 1
    ensures r[0].status == PASS <==> first.Ran? && FatalErrorKey !in first.result
    ensures r[0].status == FAIL <==> first.Ran? && FatalErrorKey in first.result && report.Ran?
    ensures r[0].status == WARN <==>
      first.ErrorExit? || (first.Ran? && FatalErrorKey in first.result && report.ErrorExit?)
    ensures r[0].status == ERROR <==>
      first.NotInstalled? || (first.Ran? && FatalErrorKey in first.result && report.NotInstalled?)
  {
    match first
    case NotInstalled(_) => [FtxMissing()]
    case ErrorExit(output) => [FtxErrorCode(output)]
    case Ran(results) =>
      if FatalErrorKey !in results then [Diagnostic(PASS, Text("ftxvalidator passed this file"))]
      else
        match report
        case NotInstalled(_) => [FtxMissing()]
        case ErrorExit(output) => [FtxErrorCode(output)]
        case Ran(output) =>
          [Diagnostic(FAIL, Text("ftxvalidator output follows:\n\n" + (output + "\n")))]
  }

  function FtxMissing(): Diagnostic
  {
    Diagnostic(ERROR, Text("ftxvalidator is not available!"))
  }

  function FtxErrorCode(output: string): Diagnostic
  {
    Diagnostic(WARN, Text("ftxvalidator returned an error code. Output follows :\n\n" + (output + "\n")))
  }

  // ---------------------------------------------------------------- check/036

  const OtsSuccess := "File sanitized successfully"

  const OtsMissingPrefix :=
    "ots-sanitize is not available! You really MUST check the fonts"
    + " with this tool. To install it, see"
    + " https://github.com/googlefonts/gf-docs/blob/master/ProjectChecklist.md#ots"
    + " Actual error message was: '"

  /** check/036: a missing ots-sanitize is an ERROR, a non-zero exit a FAIL, output that is
      non-empty and does not report success a FAIL, anything else a PASS. */
  function CheckOtsSanitize(run: ToolRun<string>): (r: seq<Diagnostic>)
    ensures |r| == 1
    ensures r[0].status == ERROR <==> run.NotInstalled?
    ensures r[0].status == PASS <==> run.Ran? && (run.result == "" || Contains(run.result, OtsSuccess))
    ensures r[0].status == FAIL <==>
      run.ErrorExit? || (run.Ran? && run.result != "" && !Contains(run.result, OtsSuccess))
  {
    match run
    case NotInstalled(error) =>
      [Diagnostic(ERROR, Text(OtsMissingPrefix + (error + "'")))]
    case ErrorExit(output) =>
      [Diagnostic(FAIL, Text("ots-sanitize returned an error code. Output follows :\n\n" + output))]
    case Ran(output) =>
      if output != "" && !Contains(output, OtsSuccess) then
        [Diagnostic(FAIL, Text("ots-sanitize output follows:\n\n" + output))]
      else
        [Diagnostic(PASS, Text("ots-sanitize passed this file"))]
  }

  // ---------------------------------------------------------------- check/037

  /** One `Report` element of the validator's XML report; an absent attribute is `None`. */
  datatype Report = Report(errorType: Option<string>, message: Option<string>, details: Option<string>)

  /** What repeats are recognised by: the pair `[msg, details]`. */
  function Key(r: Report): (Option<string>, Option<string>)
  {
    (r.message, r.details)
  }

  function Keys(rs: seq<Report>): (ks: seq<(Option<string>, Option<string>)>)
    ensures |ks| == |rs|
    ensures forall i :: 0 <= i < |rs| ==> ks[i] == Key(rs[i])
  {
    seq(|rs|, i requires 0 <= i < |rs| => Key(rs[i]))
  }

  const ValidatorPrefix := "MS-FonVal: "

  /** `report_message(msg, details)`: the message, prefixed, with the details appended only
      when there are some. */
  function ReportMessage(msg: Option<string>, details: Option<string>): (text: string)
    ensures ValidatorPrefix + OrNone(msg) <= text
    ensures text == ValidatorPrefix + OrNone(msg) <==> !Truthy(details)
    ensures Truthy(details) ==> text == ValidatorPrefix + (OrNone(msg) + (" DETAILS: " + details.value))
  {
    if Truthy(details) then ValidatorPrefix + (OrNone(msg) + (" DETAILS: " + details.value))
    else ValidatorPrefix + OrNone(msg)
  }

  /** The status a report row yields, chosen by its `ErrorType` attribute. */
  function ReportStatus(errorType: Option<string>): Status
  {
    if errorType == Some("P") then PASS
    else if errorType == Some("E") then FAIL
    else if errorType == Some("W") then WARN
    else INFO
  }

  function ReportDiagnostic(r: Report): Diagnostic
  {
    Diagnostic(ReportStatus(r.errorType), Text(ReportMessage(r.message, r.details)))
  }

  function ReportDiagnostics(rs: seq<Report>): (ds: seq<Diagnostic>)
    ensures |ds| == |rs|
    ensures forall i :: 0 <= i < |rs| ==> ds[i] == ReportDiagnostic(rs[i])
  {
    seq(|rs|, i requires 0 <= i < |rs| => ReportDiagnostic(rs[i]))
  }

  /** The rows whose `[msg, details]` pair was not seen in an earlier row, in order. */
  function FirstReports(rs: seq<Report>): seq<Report>
  {
    if rs == [] then []
    else
      var p := rs[..|rs| - 1];
      var last := rs[|rs| - 1];
      if Key(last) in Keys(p) then FirstReports(p) else FirstReports(p) + [last]
  }

  const IgnoredValidatorLines := ["Validating glyph with index", "Table Test:"]

  const ValidatorErrorHeader := "Microsoft Font Validator returned an error code. Output follows :\n\n"

  function ValidatorErrorCode(output: string): Diagnostic
  {
    Diagnostic(INFO, Text(ValidatorErrorHeader
      + (Unlines(KeepLines(Split(output, '\n'), IgnoredValidatorLines)) + "\n")))
  }

  function ValidatorMissing(): Diagnostic
  {
    Diagnostic(ERROR, Text("Mono runtime and/or Microsoft Font Validator are not available!"))
  }

  /** check/037. `run` is the validator run, `reports` the rows of the XML report it left in
      the font's directory. A missing validator yields a single ERROR; a non-zero exit yields
      an INFO with the output, progress lines dropped, before the rows are reported; each
      `[msg, details]` pair is then reported once, in first-occurrence order. */
  method CheckFontValidator(run: ToolRun<string>, reports: seq<Report>) returns (results: seq<Diagnostic>)
    ensures run.NotInstalled? ==> results == [ValidatorMissing()]
    ensures run.ErrorExit? ==> results == [ValidatorErrorCode(run.output)] + ReportDiagnostics(FirstReports(reports))
    ensures run.Ran? ==> results == ReportDiagnostics(FirstReports(reports))
  {
    match run {
      case NotInstalled(_) =>
        return [ValidatorMissing()];
      case ErrorExit(output) =>
        var filtered := FilterValidatorOutput(output);
        var rows := ReportRows(reports);
        results := [Diagnostic(INFO, Text(ValidatorErrorHeader + (filtered + "\n")))] + rows;
      case Ran(_) =>
        results := ReportRows(reports);
    }
  }

  /** When no line of Font Validator's output is a progress line, check/037 shows the whole
      output, followed by one newline. */
  lemma UnfilteredValidatorOutput(output: string)
    requires forall i :: 0 <= i < |Split(output, '\n')| ==>
      !MentionsAny(Split(output, '\n')[i], IgnoredValidatorLines)
    ensures Unlines(KeepLines(Split(output, '\n'), IgnoredValidatorLines)) == output + "\n"
  {
    var lines := Split(output, '\n');
    KeepLinesNoPhrase(lines, IgnoredValidatorLines);
    UnlinesJoin(lines);
    JoinSplit(output, '\n');
  }

  /** The `for line in e.output.split("\n")` loop of check/037: drop the per-glyph and
      per-table progress lines, keep the others with their newlines. */
  method FilterValidatorOutput(output: string) returns (filtered: string)
    ensures filtered == Unlines(KeepLines(Split(output, '\n'), IgnoredValidatorLines))
  {
    var lines := Split(output, '\n');
    filtered := "";
    var i := 0;
    while i < |lines|
      invariant 0 <= i <= |lines|
      invariant filtered == Unlines(KeepLines(lines[..i], IgnoredValidatorLines))
    {
      var line := lines[i];
      assert lines[..i + 1][..i] == lines[..i];
      if Contains(line, "Validating glyph with index") {
        assert MentionsAny(line, IgnoredValidatorLines) by { assert IgnoredValidatorLines[0] == "Validating glyph with index"; }
      } else if Contains(line, "Table Test:") {
        assert MentionsAny(line, IgnoredValidatorLines) by { assert IgnoredValidatorLines[1] == "Table Test:"; }
      } else {
        filtered := filtered + line + "\n";
      }
      i := i + 1;
    }
    assert lines[..i] == lines;
  }

  /** The `for report in doc.iter('Report')` loop of check/037: one diagnostic per row whose
      `[msg, details]` pair is not in `already_reported`, which the loop extends. */
  method ReportRows(reports: seq<Report>) returns (results: seq<Diagnostic>)
    ensures results == ReportDiagnostics(FirstReports(reports))
  {
    results := [];
    var alreadyReported: seq<(Option<string>, Option<string>)> := [];
    var j := 0;
    while j < |reports|
      invariant 0 <= j <= |reports|
      invariant alreadyReported == Dedup(Keys(reports[..j]))
      invariant results == ReportDiagnostics(FirstReports(reports[..j]))
    {
      var report := reports[j];
      assert reports[..j + 1][..j] == reports[..j];
      assert Keys(reports[..j + 1])[..j] == Keys(reports[..j]);
      DedupElements(Keys(reports[..j]));
      if Key(report) !in alreadyReported {
        alreadyReported := alreadyReported + [Key(report)];
        results := results + [Diagnostic(ReportStatus(report.errorType), Text(ReportMessage(report.message, report.details)))];
      }
      j := j + 1;
    }
    assert reports[..j] == reports;
  }

  /** The rows reported by check/037 carry pairwise different `[msg, details]` pairs, and every
      pair of the report is among them: `Keys(FirstReports(rs))` is `Dedup(Keys(rs))`. */
  lemma {:induction false} FirstReportsKeys(rs: seq<Report>)
    ensures Keys(FirstReports(rs)) == Dedup(Keys(rs))
  {
    if rs != [] {
      var p := rs[..|rs| - 1];
      FirstReportsKeys(p);
      assert Keys(rs)[..|rs| - 1] == Keys(p);
      DedupElements(Keys(p));
      if Key(rs[|rs| - 1]) !in Keys(p) {
        assert Keys(FirstReports(p) + [rs[|rs| - 1]]) == Keys(FirstReports(p)) + [Key(rs[|rs| - 1])];
      }
    }
  }

  /** Each row reported by check/037 is the first row of the report with its `[msg, details]`
      pair, so its `ErrorType` is that first row's. */
  lemma {:induction false} FirstReportsFirst(rs: seq<Report>)
    ensures forall k :: 0 <= k < |FirstReports(rs)| ==>
      Key(FirstReports(rs)[k]) in Keys(rs)
      && FirstReports(rs)[k] == rs[FirstIndex(Keys(rs), Key(FirstReports(rs)[k]))]
  {
    if rs != [] {
      var p := rs[..|rs| - 1];
      var last := rs[|rs| - 1];
      var fp := FirstReports(p);
      var ks := Keys(rs);
      FirstReportsFirst(p);
      assert ks[..|rs| - 1] == Keys(p);
      forall k | 0 <= k < |fp| ensures Key(fp[k]) in ks && fp[k] == rs[FirstIndex(ks, Key(fp[k]))] {
        var x := Key(fp[k]);
        FirstIndexPrefix(ks, |rs| - 1, x);
        var j := FirstIndex(Keys(p), x);
        assert p[j] == rs[j] && ks[j] == x;
      }
      if Key(last) !in Keys(p) {
        var j := FirstIndex(ks, Key(last));
        assert ks[|rs| - 1] == Key(last);
        assert j == |rs| - 1;
        assert FirstReports(rs) == fp + [last];
      }
    }
  }

  /** Each `[msg, details]` pair of the report is yielded exactly once. */
  lemma ReportedOnce(rs: seq<Report>)
    ensures Distinct(Keys(FirstReports(rs)))
    ensures forall i :: 0 <= i < |rs| ==> Key(rs[i]) in Keys(FirstReports(rs))
  {
    FirstReportsKeys(rs);
    DedupDistinct(Keys(rs));
    DedupElements(Keys(rs));
    assert forall i :: 0 <= i < |rs| ==> Keys(rs)[i] in Keys(rs);
  }

  /** A row's status: P is PASS, E is FAIL, W is WARN and any other (or no) type is INFO;
      its text carries the validator prefix and shows details only when they are non-empty. */
  lemma ReportDiagnosticShape(r: Report)
    ensures ReportDiagnostic(r).status == PASS <==> r.errorType == Some("P")
    ensures ReportDiagnostic(r).status == FAIL <==> r.errorType == Some("E")
    ensures ReportDiagnostic(r).status == WARN <==> r.errorType == Some("W")
    ensures ReportDiagnostic(r).status == INFO <==> r.errorType !in {Some("P"), Some("E"), Some("W")}
    ensures ValidatorPrefix <= ReportDiagnostic(r).message.text
    ensures ReportDiagnostic(r).message.text == ValidatorPrefix + OrNone(r.message) <==> !Truthy(r.details)
  {
  }
}
