/** POSIX path manipulation as Python's `posixpath` does it, on plain strings. */
module Paths {
  import opened Strings

  /** The index just past the last '/' of `p`, or 0 when `p` has none. */
  function LastSlashEnd(p: string): (i: nat)
    ensures i <= |p|
    ensures i > 0 ==> p[i - 1] == '/'
    decreases |p|
  {
    if p == [] then 0
    else if p[|p| - 1] == '/' then |p|
    else LastSlashEnd(p[..|p| - 1])
  }

  /** No '/' follows the last one. */
  lemma {:induction false} NoSlashAfter(p: string)
    ensures forall k :: LastSlashEnd(p) <= k < |p| ==> p[k] != '/'
    decreases |p|
  {
    if p != [] && p[|p| - 1] != '/' {
      NoSlashAfter(p[..|p| - 1]);
      assert forall k :: 0 <= k < |p| - 1 ==> p[..|p| - 1][k] == p[k];
    }
  }

  /** The position just past a '/' (or the start) after which no '/' follows is the one
      `LastSlashEnd` finds. */
  lemma {:induction false} LastSlashEndUnique(p: string, m: nat)
    requires m <= |p|
    requires m > 0 ==> p[m - 1] == '/'
    requires forall k :: m <= k < |p| ==> p[k] != '/'
    ensures LastSlashEnd(p) == m
    decreases |p|
  {
    if m < |p| {
      var q := p[..|p| - 1];
      assert forall k :: 0 <= k < |q| ==> q[k] == p[k];
      LastSlashEndUnique(q, m);
    }
  }

  predicate AllSlashes(s: string)
  {
    forall k :: 0 <= k < |s| ==> s[k] == '/'
  }

  /** `s.rstrip('/')`. */
  function StripTrailingSlashes(s: string): (r: string)
    ensures r <= s
    ensures r != [] ==> r[|r| - 1] != '/'
    ensures forall k :: |r| <= k < |s| ==> s[k] == '/'
  {
    if s != [] && s[|s| - 1] == '/' then StripTrailingSlashes(s[..|s| - 1]) else s
  }

  /** `os.path.dirname(p)`: everything before the last '/', with trailing slashes removed
      unless the head consists of slashes only. */
  function Dirname(p: string): string
  {
    var head := p[..LastSlashEnd(p)];
    if head != [] && !AllSlashes(head) then StripTrailingSlashes(head) else head
  }

  /** `os.path.basename(p)`: everything after the last '/'. */
  function Basename(p: string): string
  {
    p[LastSlashEnd(p)..]
  }

  /** `os.path.join(a, b)` for two components. */
  function PathJoin(a: string, b: string): string
  {
    if |b| > 0 && b[0] == '/' then b
    else if a == [] || a[|a| - 1] == '/' then a + b
    else a + ("/" + b)
  }

  /** The last element of a non-empty sequence. */
  function Last(parts: seq<string>): string
    requires |parts| >= 1
  {
    parts[|parts| - 1]
  }

  /** The last piece of `p.split('/')` is the base name of `p`. */
  lemma {:induction false} LastSplitIsBasename(p: string)
    ensures Last(Split(p, '/')) == Basename(p)
    decreases |p|
  {
    var k := IndexOf(p, '/');
    if k < |p| {
      LastSplitIsBasename(p[k + 1..]);
      LastPieceAfterSlash(p, k);
      BasenameAfterSlash(p, k);
    } else {
      LastPieceWithoutSlash(p);
    }
  }

  /** Past the first '/', the last piece of the split is that of the rest. */
  lemma LastPieceAfterSlash(p: string, k: nat)
    requires k == IndexOf(p, '/') && k < |p|
    ensures Last(Split(p, '/')) == Last(Split(p[k + 1..], '/'))
  {
    LastAfterFirst(p[..k], Split(p[k + 1..], '/'));
  }

  /** Putting a piece in front does not change the last one. */
  lemma LastAfterFirst(x: string, ps: seq<string>)
    requires |ps| >= 1
    ensures Last([x] + ps) == Last(ps)
  {
  }

  /** Without a '/', the only piece is the path, which is its own base name. */
  lemma LastPieceWithoutSlash(p: string)
    requires IndexOf(p, '/') == |p|
    ensures Last(Split(p, '/')) == Basename(p)
  {
    IndexOfFirst(p, '/');
    assert p[..IndexOf(p, '/')] == p;
    LastSlashEndUnique(p, 0);
    assert p[0..] == p;
  }

  /** Past a '/', the base name is that of the rest. */
  lemma BasenameAfterSlash(p: string, k: nat)
    requires k < |p| && p[k] == '/'
    ensures Basename(p) == Basename(p[k + 1..])
  {
    var rest := p[k + 1..];
    var j := LastSlashEnd(rest);
    NoSlashAfter(rest);
    forall i | k + 1 + j <= i < |p| ensures p[i] != '/' {
      assert p[i] == rest[i - k - 1];
    }
    if j > 0 {
      assert p[k + j] == rest[j - 1];
    }
    LastSlashEndUnique(p, k + 1 + j);
    assert rest[j..] == p[k + 1 + j..];
  }

  /** Joining a name without '/' onto a directory gives a path whose base name is that name. */
  lemma BasenameJoin(dir: string, name: string)
    requires '/' !in name
    ensures Basename(PathJoin(dir, name)) == name
  {
    var p := PathJoin(dir, name);
    var head := if dir == [] || dir[|dir| - 1] == '/' then dir else dir + "/";
    assert name != [] ==> name[0] != '/' by {
      if name != [] {
        assert name[0] in name;
      }
    }
    assert p == head + name;
    assert forall k :: |head| <= k < |p| ==> p[k] == name[k - |head|];
    assert head != [] ==> p[|head| - 1] == '/';
    LastSlashEndUnique(p, |head|);
  }
}
