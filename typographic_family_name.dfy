/** The `typographic_family_name` check: the Typographic Family name (name ID 16, Windows
    platform, Unicode BMP encoding, English US) must be the same across the fonts of a family.
    Each font is given by that name record's text, or None when the font has no such record. */
module TypographicFamilyName {
  import opened Results
  import opened Strings
  import opened StringOrder

  /** The value a font contributes: its name ID 16 text, or "<no value>". */
  function ValueOf(record: Option<string>): string
  {
    match record
    case None => "<no value>"
    case Some(text) => text
  }

  /** The distinct values contributed by `records`. */
  function Values(records: seq<Option<string>>): set<string>
  {
    set i | 0 <= i < |records| :: ValueOf(records[i])
  }

  const InconsistentPrefix := "Name ID 16 (Typographic Family name) is not consistent across fonts. Values found: "

  /** check_typographic_family_name: collect the values in a set; a single FAIL listing them
      sorted unless exactly one value was collected, and nothing at all when it was. */
  method CheckTypographicFamilyName(records: seq<Option<string>>) returns (results: seq<Diagnostic>)
    ensures results == if |Values(records)| != 1
      then [Diagnostic(FAIL, Text(InconsistentPrefix + PyList(SortedOf(Values(records)))))]
      else []
    ensures |results| <= 1
    ensures results == [] <==> |records| > 0 && forall i :: 0 <= i < |records| ==> ValueOf(records[i]) == ValueOf(records[0])
  {
    var values: set<string> := {};
    var i := 0;
    while i < |records|
      invariant 0 <= i <= |records|
      invariant values == Values(records[..i])
    {
      assert Values(records[..i + 1]) == Values(records[..i]) + {ValueOf(records[i])} by {
        assert forall k :: 0 <= k < i ==> records[..i + 1][k] == records[..i][k];
        assert records[..i + 1][i] == records[i];
      }
      match records[i] {
        case None =>
          values := values + {"<no value>"};
        case Some(text) =>
          values := values + {text};
      }
      i := i + 1;
    }
    assert records[..i] == records;
    SingleValue(records);
    if |values| != 1 {
      var sorted := Sorted(values);
      results := [Diagnostic(FAIL, Text(InconsistentPrefix + PyList(sorted)))];
    } else {
      results := [];
    }
  }

  /** Exactly one value is collected iff there is a font and all fonts agree. */
  lemma SingleValue(records: seq<Option<string>>)
    ensures |Values(records)| == 1 <==>
      |records| > 0 && forall i :: 0 <= i < |records| ==> ValueOf(records[i]) == ValueOf(records[0])
  {
    var vs := Values(records);
    if |records| > 0 && forall i :: 0 <= i < |records| ==> ValueOf(records[i]) == ValueOf(records[0]) {
      assert vs == {ValueOf(records[0])};
    }
    if |vs| == 1 {
      var v :| v in vs;
      var j :| 0 <= j < |records| && ValueOf(records[j]) == v;
      assert |vs - {v}| == 0;
      assert vs - {v} == {};
      assert forall w :: w in vs ==> w == v by {
        forall w | w in vs ensures w == v {
          assert w !in vs - {v};
        }
      }
      forall i | 0 <= i < |records| ensures ValueOf(records[i]) == ValueOf(records[0]) {
        assert ValueOf(records[i]) in vs && ValueOf(records[0]) in vs;
      }
    }
  }

  /** The outcome depends only on which records occur, not on the order of the fonts or on
      fonts given twice. */
  lemma OrderIndependent(a: seq<Option<string>>, b: seq<Option<string>>)
    requires forall r :: r in a <==> r in b
    ensures Values(a) == Values(b)
  {
    forall v | v in Values(a) ensures v in Values(b) {
      var i :| 0 <= i < |a| && ValueOf(a[i]) == v;
      assert a[i] in b;
      var j :| 0 <= j < |b| && b[j] == a[i];
    }
    forall v | v in Values(b) ensures v in Values(a) {
      var j :| 0 <= j < |b| && ValueOf(b[j]) == v;
      assert b[j] in a;
      var i :| 0 <= i < |a| && a[i] == b[j];
    }
  }
}
