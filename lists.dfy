/** Lists built by "append it unless it was seen before" loops. */
module Lists {

  /** No element occurs twice. */
  predicate Distinct<T(==)>(s: seq<T>)
  {
    forall i, j :: 0 <= i < j < |s| ==> s[i] != s[j]
  }

  /** The distinct elements of `s` in first-seen order: the list that
      `if x not in seen: seen.append(x)` builds over `s`. */
  function Dedup<T(==)>(s: seq<T>): seq<T>
  {
    if s == [] then []
    else
      var d := Dedup(s[..|s| - 1]);
      if s[|s| - 1] in d then d else d + [s[|s| - 1]]
  }

  /** The occurrences of `s` whose value was seen before, in order: the list that the
      `else` branch of the same loop builds. */
  function Repeats<T(==)>(s: seq<T>): seq<T>
  {
    if s == [] then []
    else
      var p := s[..|s| - 1];
      if s[|s| - 1] in p then Repeats(p) + [s[|s| - 1]] else Repeats(p)
  }

  /** The index of the first occurrence of `x` in `s`. */
  function FirstIndex<T(==)>(s: seq<T>, x: T): (k: nat)
    requires x in s
    ensures k < |s| && s[k] == x && x !in s[..k]
  {
    if s[0] == x then 0 else 1 + FirstIndex(s[1..], x)
  }

  /** `Dedup` keeps exactly the values that occur in `s`. */
  lemma {:induction false} DedupElements<T>(s: seq<T>)
    ensures forall x :: x in Dedup(s) <==> x in s
  {
    if s != [] {
      var p := s[..|s| - 1];
      DedupElements(p);
      assert s == p + [s[|s| - 1]];
    }
  }

  lemma DedupElementAt<T>(s: seq<T>, k: nat)
    requires k < |Dedup(s)|
    ensures Dedup(s)[k] in s
  {
    DedupElements(s);
    assert Dedup(s)[k] in Dedup(s);
  }

  /** `Dedup` never yields a value twice. */
  lemma {:induction false} DedupDistinct<T>(s: seq<T>)
    ensures Distinct(Dedup(s))
  {
    if s != [] {
      DedupDistinct(s[..|s| - 1]);
    }
  }

  lemma {:induction false} FirstIndexPrefix<T>(s: seq<T>, n: nat, x: T)
    requires n <= |s| && x in s[..n]
    ensures FirstIndex(s, x) == FirstIndex(s[..n], x)
  {
    if s[0] != x {
      assert s[1..][..n - 1] == s[..n][1..];
      FirstIndexPrefix(s[1..], n - 1, x);
    }
  }

  /** `Dedup` lists values in the order of their first occurrence in `s`. */
  lemma {:induction false} DedupFirstSeenOrder<T>(s: seq<T>, i: nat, j: nat)
    requires i < j < |Dedup(s)|
    ensures Dedup(s)[i] in s && Dedup(s)[j] in s
    ensures FirstIndex(s, Dedup(s)[i]) < FirstIndex(s, Dedup(s)[j])
  {
    var p := s[..|s| - 1];
    var d := Dedup(p);
    DedupElements(p);
    DedupElements(s);
    assert Dedup(s)[i] in Dedup(s) && Dedup(s)[j] in Dedup(s);
    assert p == s[..|s| - 1];
    if j < |d| {
      assert Dedup(s)[i] == d[i] && Dedup(s)[j] == d[j];
      DedupFirstSeenOrder(p, i, j);
      assert d[i] in d && d[j] in d;
      FirstIndexPrefix(s, |s| - 1, d[i]);
      FirstIndexPrefix(s, |s| - 1, d[j]);
    } else {
      var last := s[|s| - 1];
      assert last !in p && Dedup(s) == d + [last];
      assert Dedup(s)[i] == d[i];
      DedupElementAt(p, i);
      FirstIndexPrefix(s, |s| - 1, d[i]);
      assert FirstIndex(s, last) == |s| - 1;
    }
  }

  /** Exactly one distinct value is collected iff `s` is non-empty and constant. */
  lemma {:induction false} DedupSingle<T>(s: seq<T>)
    ensures |Dedup(s)| == 1 <==> |s| > 0 && forall i :: 0 <= i < |s| ==> s[i] == s[0]
  {
    DedupElements(s);
    DedupDistinct(s);
    var d := Dedup(s);
    if |d| == 1 {
      assert s != [];
      forall i | 0 <= i < |s| ensures s[i] == s[0] {
        assert s[i] in d && s[0] in d;
      }
    }
    if |s| > 0 && forall i :: 0 <= i < |s| ==> s[i] == s[0] {
      DedupConstant(s);
    }
  }

  lemma {:induction false} DedupConstant<T>(s: seq<T>)
    requires |s| > 0 && forall i :: 0 <= i < |s| ==> s[i] == s[0]
    ensures Dedup(s) == [s[0]]
  {
    var p := s[..|s| - 1];
    if p != [] {
      assert p[0] == s[0];
      DedupConstant(p);
    }
  }

  /** One more element goes to `Dedup` when it is new and to `Repeats` when it is not. */
  lemma DedupRepeatsStep<T>(s: seq<T>, i: nat)
    requires i < |s|
    ensures s[i] in Dedup(s[..i]) ==>
      Dedup(s[..i + 1]) == Dedup(s[..i]) && Repeats(s[..i + 1]) == Repeats(s[..i]) + [s[i]]
    ensures s[i] !in Dedup(s[..i]) ==>
      Dedup(s[..i + 1]) == Dedup(s[..i]) + [s[i]] && Repeats(s[..i + 1]) == Repeats(s[..i])
  {
    var q := s[..i + 1];
    assert q[..i] == s[..i] && q[i] == s[i];
    DedupElements(s[..i]);
  }

  /** Every element of `s` goes to exactly one of the two lists. */
  lemma {:induction false} DedupRepeatsSplit<T>(s: seq<T>)
    ensures |Dedup(s)| + |Repeats(s)| == |s|
  {
    if s != [] {
      var p := s[..|s| - 1];
      DedupRepeatsSplit(p);
      DedupElements(p);
    }
  }

  /** `x` occurs at two different positions of `s`. */
  ghost predicate Repeated<T>(s: seq<T>, x: T)
  {
    exists i, j :: 0 <= i < j < |s| && s[i] == x && s[j] == x
  }

  /** A value is reported as a repeat iff it occurs at least twice. */
  lemma {:induction false} RepeatsMembers<T>(s: seq<T>, x: T)
    ensures x in Repeats(s) <==> Repeated(s, x)
  {
    if s != [] {
      var p := s[..|s| - 1];
      var last := s[|s| - 1];
      RepeatsMembers(p, x);
      if x in Repeats(s) {
        if x in Repeats(p) {
          var i, j :| 0 <= i < j < |p| && p[i] == x && p[j] == x;
          assert s[i] == p[i] && s[j] == p[j];
        } else {
          assert x == last && last in p;
          var i :| 0 <= i < |p| && p[i] == x;
          assert s[i] == p[i];
        }
      }
      if Repeated(s, x) {
        var i, j :| 0 <= i < j < |s| && s[i] == x && s[j] == x;
        assert s[i] == p[i];
        if j < |p| {
          assert s[j] == p[j];
          assert Repeated(p, x);
        } else {
          assert last in p;
        }
      }
    }
  }

  /** Nothing is reported as a repeat iff `s` has no repetitions. */
  lemma {:induction false} RepeatsEmpty<T>(s: seq<T>)
    ensures Repeats(s) == [] <==> Distinct(s)
  {
    if s != [] {
      var p := s[..|s| - 1];
      var last := s[|s| - 1];
      RepeatsEmpty(p);
      if Repeats(s) == [] {
        assert last !in p && Repeats(p) == [];
        forall i, j | 0 <= i < j < |s| ensures s[i] != s[j] {
          if j == |s| - 1 {
            assert s[i] == p[i];
          } else {
            assert s[i] == p[i] && s[j] == p[j];
          }
        }
      }
      if Distinct(s) {
        assert Distinct(p);
        forall k | 0 <= k < |p| ensures p[k] != last {
          assert s[k] == p[k];
        }
      }
    }
  }
}
