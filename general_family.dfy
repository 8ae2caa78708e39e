/** com.google.fonts/check/002: all font files given on the command line lie in one directory. */
module GeneralFamily {
  import opened Results
  import opened Strings
  import opened Lists
  import opened Paths

  const SameDirectoryPass := "All files are in the same directory."

  const SameDirectoryFailPrefix :=
    "Not all fonts passed in the command line are in the same directory. This may lead to"
    + " bad results as the tool will interpret all font files as belonging to a single"
    + " font family. The detected directories are: "

  function SameDirectoryFail(directories: seq<string>): string
  {
    SameDirectoryFailPrefix + PyList(directories)
  }

  /** The directory of each font path, in order. */
  function Dirnames(fonts: seq<string>): (r: seq<string>)
    ensures |r| == |fonts|
    ensures forall i :: 0 <= i < |fonts| ==> r[i] == Dirname(fonts[i])
  {
    seq(|fonts|, i requires 0 <= i < |fonts| => Dirname(fonts[i]))
  }

  /** All paths have the same directory (vacuously false for no paths). */
  predicate OneDirectory(fonts: seq<string>)
  {
    && |fonts| > 0
    && forall i, j :: 0 <= i < |fonts| && 0 <= j < |fonts| ==> Dirname(fonts[i]) == Dirname(fonts[j])
  }

  /** check/002: collect each directory once, in first-seen order; a single PASS when there
      is exactly one, otherwise (also for no fonts at all) a single FAIL listing them. */
  method CheckSameDirectory(fonts: seq<string>) returns (results: seq<Diagnostic>)
    ensures var directories := Dedup(Dirnames(fonts));
      results == if |directories| == 1 then [Diagnostic(PASS, Text(SameDirectoryPass))]
                 else [Diagnostic(FAIL, Text(SameDirectoryFail(directories)))]
    ensures |results| == 1
    ensures results[0].status == PASS <==> OneDirectory(fonts)
    ensures results[0].status == FAIL <==> !OneDirectory(fonts)
  {
    var directories: seq<string> := [];
    var i := 0;
    while i < |fonts|
      invariant 0 <= i <= |fonts|
      invariant directories == Dedup(Dirnames(fonts)[..i])
    {
      var directory := Dirname(fonts[i]);
      assert directory == Dirnames(fonts)[i];
      DedupRepeatsStep(Dirnames(fonts), i);
      if directory !in directories {
        directories := directories + [directory];
      }
      i := i + 1;
    }
    assert Dirnames(fonts)[..i] == Dirnames(fonts);
    OneDirectoryIff(fonts);
    if |directories| == 1 {
      results := [Diagnostic(PASS, Text(SameDirectoryPass))];
    } else {
      results := [Diagnostic(FAIL, Text(SameDirectoryFail(directories)))];
    }
  }

  /** Exactly one directory is collected iff there are fonts and they share a directory. */
  lemma OneDirectoryIff(fonts: seq<string>)
    ensures |Dedup(Dirnames(fonts))| == 1 <==> OneDirectory(fonts)
  {
    var ds := Dirnames(fonts);
    DedupSingle(ds);
    if |ds| > 0 && forall i :: 0 <= i < |ds| ==> ds[i] == ds[0] {
      assert OneDirectory(fonts);
    }
    if OneDirectory(fonts) {
      assert forall i :: 0 <= i < |ds| ==> ds[i] == ds[0];
    }
  }

  /** The FAIL message of check/002 names every directory of the input exactly once, in the
      order in which the fonts first mention it. */
  lemma ListedDirectories(fonts: seq<string>)
    ensures var directories := Dedup(Dirnames(fonts));
      && Distinct(directories)
      && (forall d :: d in directories <==> d in Dirnames(fonts))
      && (forall i, j :: 0 <= i < j < |directories| ==>
            FirstIndex(Dirnames(fonts), directories[i]) < FirstIndex(Dirnames(fonts), directories[j]))
  {
    var ds := Dirnames(fonts);
    DedupDistinct(ds);
    DedupElements(ds);
    forall i, j | 0 <= i < j < |Dedup(ds)|
      ensures FirstIndex(ds, Dedup(ds)[i]) < FirstIndex(ds, Dedup(ds)[j])
    {
      DedupFirstSeenOrder(ds, i, j);
    }
  }
}
