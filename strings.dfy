/** The few Python string operations the checks and the bakery rely on. */
module Strings {

  /** Python's `sub in s` on strings: `sub` occurs in `s` as a contiguous block. */
  predicate Contains(s: string, sub: string)
  {
    exists i :: 0 <= i <= |s| && sub <= s[i..]
  }

  /** The index of the first `c` in `s`, or `|s|` when there is none. */
  function IndexOf(s: string, c: char): (k: nat)
    ensures k <= |s|
    ensures k < |s| ==> s[k] == c
  {
    if s == [] then 0
    else if s[0] == c then 0
    else 1 + IndexOf(s[1..], c)
  }

  /** No `c` comes before `IndexOf(s, c)`. */
  lemma {:induction false} IndexOfFirst(s: string, c: char)
    ensures c !in s[..IndexOf(s, c)]
  {
    if s != [] && s[0] != c {
      IndexOfFirst(s[1..], c);
      assert s[..IndexOf(s, c)] == [s[0]] + s[1..][..IndexOf(s[1..], c)];
    }
  }

  /** Python's `s.split(sep)` for a one-character separator. */
  function Split(s: string, sep: char): (parts: seq<string>)
    ensures |parts| >= 1
    decreases |s|
  {
    var k := IndexOf(s, sep);
    if k == |s| then [s] else [s[..k]] + Split(s[k + 1..], sep)
  }

  /** No piece of a split holds the separator. */
  lemma {:induction false} SplitPieces(s: string, sep: char)
    ensures var parts := Split(s, sep); forall i :: 0 <= i < |parts| ==> sep !in parts[i]
    decreases |s|
  {
    var k := IndexOf(s, sep);
    IndexOfFirst(s, sep);
    if k < |s| {
      SplitPieces(s[k + 1..], sep);
      assert s[..k] == s[..IndexOf(s, sep)];
      assert Split(s, sep) == [s[..k]] + Split(s[k + 1..], sep);
    } else {
      assert s[..k] == s;
    }
  }

  /** Python's `sep.join(parts)`. */
  function Join(parts: seq<string>, sep: string): string
  {
    if |parts| == 0 then ""
    else if |parts| == 1 then parts[0]
    else parts[0] + sep + Join(parts[1..], sep)
  }

  /** Splitting on a character and joining the pieces back with it gives the text back. */
  lemma {:induction false} JoinSplit(s: string, sep: char)
    ensures Join(Split(s, sep), [sep]) == s
    decreases |s|
  {
    var k := IndexOf(s, sep);
    if k < |s| {
      var rest := s[k + 1..];
      JoinSplit(rest, sep);
      var parts := Split(rest, sep);
      assert Split(s, sep) == [s[..k]] + parts;
      assert ([s[..k]] + parts)[1..] == parts;
      assert s == s[..k] + [sep] + rest;
    }
  }

  /** Python 2 distinguishes byte strings (`str`) from text (`unicode`), and their `strip()`
      and `isspace()` disagree on what is whitespace. */
  datatype StrKind = ByteString | Unicode

  /** The characters `strip()` removes, on ASCII: the six C whitespace characters for a byte
      string, and for text also the separators 0x1C to 0x1F, for which `unicode.isspace()`
      holds. */
  predicate IsSpace(c: char, kind: StrKind)
  {
    || c == ' ' || c == '\t' || c == '\n' || c == '\r' || c as int == 0x0B || c as int == 0x0C
    || (kind == Unicode && 0x1C <= c as int <= 0x1F)
  }

  function StripLeft(s: string, kind: StrKind): string
  {
    if s != [] && IsSpace(s[0], kind) then StripLeft(s[1..], kind) else s
  }

  function StripRight(s: string, kind: StrKind): string
  {
    if s != [] && IsSpace(s[|s| - 1], kind) then StripRight(s[..|s| - 1], kind) else s
  }

  /** Python's `s.strip()`: `s` with its leading and trailing whitespace removed. */
  function Strip(s: string, kind: StrKind): string
  {
    StripRight(StripLeft(s, kind), kind)
  }

  /** `StripLeft` drops a run of whitespace at the start, and only that. */
  lemma {:induction false} StripLeftFacts(s: string, kind: StrKind)
    ensures var r := StripLeft(s, kind);
      && |r| <= |s| && r == s[|s| - |r|..]
      && (forall i :: 0 <= i < |s| - |r| ==> IsSpace(s[i], kind))
      && (r != [] ==> !IsSpace(r[0], kind))
  {
    if s != [] && IsSpace(s[0], kind) {
      StripLeftFacts(s[1..], kind);
      var r := StripLeft(s, kind);
      assert s[1..][|s| - 1 - |r|..] == s[|s| - |r|..];
      forall i | 0 <= i < |s| - |r| ensures IsSpace(s[i], kind) {
        if i > 0 {
          assert s[i] == s[1..][i - 1];
        }
      }
    }
  }

  /** `StripRight` drops a run of whitespace at the end, and only that. */
  lemma {:induction false} StripRightFacts(s: string, kind: StrKind)
    ensures var r := StripRight(s, kind);
      && r <= s
      && (forall i :: |r| <= i < |s| ==> IsSpace(s[i], kind))
      && (r != [] ==> !IsSpace(r[|r| - 1], kind))
  {
    if s != [] && IsSpace(s[|s| - 1], kind) {
      var p := s[..|s| - 1];
      StripRightFacts(p, kind);
      var r := StripRight(s, kind);
      assert r <= p;
      forall i | |r| <= i < |s| ensures IsSpace(s[i], kind) {
        if i < |p| {
          assert s[i] == p[i];
        }
      }
    }
  }

  /** `s.strip()` is empty exactly when every character of `s` is whitespace. */
  lemma StripEmpty(s: string, kind: StrKind)
    ensures Strip(s, kind) == [] <==> forall i :: 0 <= i < |s| ==> IsSpace(s[i], kind)
  {
    var l := StripLeft(s, kind);
    StripLeftFacts(s, kind);
    StripRightFacts(l, kind);
    if Strip(s, kind) == [] {
      assert l == [];
    } else {
      var r := Strip(s, kind);
      assert !IsSpace(r[0], kind);
      assert r <= l;
      assert s[|s| - |l|] == r[0];
    }
  }

  /** Python's list formatting `"{}".format(items)` for a list of strings. */
  function PyList(items: seq<string>): string
  {
    "[" + (Join(Quoted(items), ", ") + "]")
  }

  function Quoted(items: seq<string>): (r: seq<string>)
    ensures |r| == |items|
  {
    seq(|items|, i requires 0 <= i < |items| => "'" + (items[i] + "'"))
  }

  /** Python's `s[:-n]`: `s` with its last `n` characters cut (empty when it is shorter). */
  function DropLast(s: string, n: nat): (r: string)
    ensures |r| == if |s| <= n then 0 else |s| - n
    ensures r <= s
  {
    if |s| <= n then "" else s[..|s| - n]
  }

  /** Python's `s[-n:]`: the last `n` characters of `s` (all of it when it is shorter). */
  function TakeLast(s: string, n: nat): (r: string)
    ensures |r| == if |s| <= n then |s| else n
    ensures r == s[|s| - |r|..]
  {
    if |s| <= n then s else s[|s| - n..]
  }

  /** Python's `s.endswith(t)`. */
  predicate EndsWith(s: string, t: string)
  {
    |t| <= |s| && s[|s| - |t|..] == t
  }

  /** `line` contains one of `phrases`. */
  predicate MentionsAny(line: string, phrases: seq<string>)
  {
    exists k :: 0 <= k < |phrases| && Contains(line, phrases[k])
  }

  /** The lines that mention none of `phrases`, in order: what a loop over the lines that
      `continue`s on each phrase keeps. */
  function KeepLines(lines: seq<string>, phrases: seq<string>): seq<string>
  {
    if lines == [] then []
    else
      var kept := KeepLines(lines[..|lines| - 1], phrases);
      var last := lines[|lines| - 1];
      if MentionsAny(last, phrases) then kept else kept + [last]
  }

  /** Joining one more piece adds the separator and the piece at the end. */
  lemma {:induction false} JoinSnoc(parts: seq<string>, x: string, sep: string)
    requires |parts| >= 1
    ensures Join(parts + [x], sep) == Join(parts, sep) + (sep + x)
  {
    var q := parts + [x];
    if |parts| == 1 {
      assert q[1..] == [x];
    } else {
      assert q[1..] == parts[1..] + [x];
      JoinSnoc(parts[1..], x, sep);
      var h, j := parts[0], Join(parts[1..], sep);
      assert h + sep + (j + (sep + x)) == (h + sep + j) + (sep + x);
    }
  }

  /** Accumulating lines with their newlines is joining them with newlines, plus a final
      newline. */
  lemma {:induction false} UnlinesJoin(lines: seq<string>)
    requires |lines| >= 1
    ensures Unlines(lines) == Join(lines, "\n") + "\n"
  {
    var p := lines[..|lines| - 1];
    var last := lines[|lines| - 1];
    if |lines| == 1 {
      assert Unlines(lines) == Unlines([]) + last + "\n";
    } else {
      UnlinesJoin(p);
      JoinSnoc(p, last, "\n");
      assert p + [last] == lines;
      var j := Join(p, "\n");
      assert j + "\n" + last + "\n" == j + ("\n" + last) + "\n";
    }
  }

  /** Each line followed by a newline: what `filtered += line + "\n"` accumulates. */
  function Unlines(lines: seq<string>): string
  {
    if lines == [] then ""
    else Unlines(lines[..|lines| - 1]) + lines[|lines| - 1] + "\n"
  }

  /** `KeepLines` keeps exactly the lines that mention no phrase. */
  lemma {:induction false} KeepLinesMembers(lines: seq<string>, phrases: seq<string>)
    ensures forall l :: l in KeepLines(lines, phrases) <==> l in lines && !MentionsAny(l, phrases)
  {
    if lines != [] {
      var p := lines[..|lines| - 1];
      KeepLinesMembers(p, phrases);
      assert lines == p + [lines[|lines| - 1]];
    }
  }

  /** `KeepLines` preserves the order of the lines it keeps and keeps a line that mentions no
      phrase wherever it occurs. */
  lemma {:induction false} KeepLinesNoPhrase(lines: seq<string>, phrases: seq<string>)
    requires forall i :: 0 <= i < |lines| ==> !MentionsAny(lines[i], phrases)
    ensures KeepLines(lines, phrases) == lines
  {
    if lines != [] {
      var p := lines[..|lines| - 1];
      KeepLinesNoPhrase(p, phrases);
      assert lines == p + [lines[|lines| - 1]];
    }
  }

  predicate AllSpace(s: string, kind: StrKind)
  {
    forall i :: 0 <= i < |s| ==> IsSpace(s[i], kind)
  }

  /** The accumulated text is blank exactly when every line is. */
  lemma {:induction false} UnlinesBlank(lines: seq<string>, kind: StrKind)
    ensures AllSpace(Unlines(lines), kind) <==> forall i :: 0 <= i < |lines| ==> AllSpace(lines[i], kind)
  {
    if lines != [] {
      var p := lines[..|lines| - 1];
      var last := lines[|lines| - 1];
      UnlinesBlank(p, kind);
      var u := Unlines(p);
      assert Unlines(lines) == u + last + "\n";
      assert forall i :: 0 <= i < |u| ==> Unlines(lines)[i] == u[i];
      assert forall i :: 0 <= i < |last| ==> Unlines(lines)[|u| + i] == last[i];
      if AllSpace(Unlines(lines), kind) {
        assert AllSpace(u, kind);
        assert AllSpace(last, kind);
        forall i | 0 <= i < |lines| ensures AllSpace(lines[i], kind) {
          if i < |p| { assert lines[i] == p[i]; }
        }
      }
      if forall i :: 0 <= i < |lines| ==> AllSpace(lines[i], kind) {
        assert forall i :: 0 <= i < |p| ==> p[i] == lines[i];
        assert AllSpace(last, kind);
        assert AllSpace(u, kind);
        forall i | 0 <= i < |Unlines(lines)| ensures IsSpace(Unlines(lines)[i], kind) {
          if i < |u| {
          } else if i < |u| + |last| {
            assert Unlines(lines)[i] == last[i - |u|];
          } else {
            assert Unlines(lines)[i] == '\n';
          }
        }
      }
    }
  }
}
