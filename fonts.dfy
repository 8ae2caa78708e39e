/** The parts of a TrueType font the whitespace checks look at: the `cmap` subtables, the
    character-to-glyph lookup, the `post` table format and the outlines of the `glyf` table. */
module Fonts {
  import opened Results

  /** One subtable of `cmap`: whether it is a Unicode encoding, and its code point to glyph
      name mapping. */
  datatype CmapSubtable = CmapSubtable(isUnicode: bool, cmap: map<int, string>)

  /** A `glyf` entry: a simple glyph with its contour count and the number of points its
      coordinates list, or a composite listing the names of its components. */
  datatype Glyph = Simple(numberOfContours: nat, points: nat) | Composite(components: seq<string>)

  datatype Font = Font(
    cmapTables: seq<CmapSubtable>,
    /** What `getGlyph(font, codepoint)` answers: the glyph drawn for a code point. */
    glyphFor: map<int, string>,
    postFormat: real,
    glyf: map<string, Glyph>)

  /** `getGlyph(font, codepoint)`: the glyph name, or None when the code point is unmapped. */
  function GetGlyph(font: Font, codepoint: int): Option<string>
  {
    if codepoint in font.glyphFor then Some(font.glyphFor[codepoint]) else None
  }

  /** Some Unicode subtable maps `codepoint` to one of `names`. */
  predicate EncodedAs(tables: seq<CmapSubtable>, codepoint: int, names: seq<string>)
  {
    exists i :: 0 <= i < |tables| && tables[i].isUnicode && codepoint in tables[i].cmap
      && tables[i].cmap[codepoint] in names
  }

  /** The code points one subtable maps to one of `names`; none when it is not Unicode. */
  function SubtableEncodings(t: CmapSubtable, names: seq<string>): set<int>
  {
    set codepoint | codepoint in t.cmap && t.isUnicode && t.cmap[codepoint] in names
  }

  /** The union of `SubtableEncodings` over the subtables, in order. */
  function Encodings(tables: seq<CmapSubtable>, names: seq<string>): set<int>
  {
    if tables == [] then {}
    else Encodings(tables[..|tables| - 1], names) + SubtableEncodings(tables[|tables| - 1], names)
  }

  /** A code point is collected iff some Unicode subtable maps it to one of the names. */
  lemma {:induction false} EncodingsMembers(tables: seq<CmapSubtable>, names: seq<string>, codepoint: int)
    ensures codepoint in Encodings(tables, names) <==> EncodedAs(tables, codepoint, names)
  {
    if tables != [] {
      var p := tables[..|tables| - 1];
      var t := tables[|tables| - 1];
      EncodingsMembers(p, names, codepoint);
      if EncodedAs(p, codepoint, names) {
        var i :| 0 <= i < |p| && p[i].isUnicode && codepoint in p[i].cmap && p[i].cmap[codepoint] in names;
        assert tables[i] == p[i];
      }
      if EncodedAs(tables, codepoint, names) {
        var i :| 0 <= i < |tables| && tables[i].isUnicode && codepoint in tables[i].cmap
          && tables[i].cmap[codepoint] in names;
        if i < |p| {
          assert p[i] == tables[i];
        }
      }
    }
  }

  /** A set of code points without members is empty (lets a loop pick an element of a
      non-empty set). */
  lemma EmptyWithoutCodepoints(s: set<int>)
    ensures (forall x :: x !in s) ==> s == {}
  {
    if forall x :: x !in s {
      assert s == {};
    }
  }

  /** `rank` orders the glyphs it ranks so that each of them exists, and every component of a
      ranked composite exists, is ranked, and ranks below it: the ranked composites form no
      cycle. Glyphs outside its domain are not constrained, so it may rank just the glyphs
      reachable from those a check inspects. */
  predicate Ranked(glyf: map<string, Glyph>, rank: map<string, nat>)
  {
    forall name :: name in rank ==> name in glyf && ComponentsBelow(glyf, rank, glyf[name], rank[name])
  }

  predicate ComponentsBelow(glyf: map<string, Glyph>, rank: map<string, nat>, g: Glyph, bound: nat)
  {
    g.Composite? ==> forall c :: c in g.components ==> c in glyf && c in rank && rank[c] < bound
  }

  /** A simple glyph with a contour and at least three points. */
  predicate DrawsInk(g: Glyph)
  {
    g.Simple? && g.numberOfContours != 0 && g.points > 2
  }

  /** `glyphHasInk(font, name)`: a simple glyph has ink when it draws some; a composite when
      one of its components has ink. */
  function HasInk(glyf: map<string, Glyph>, rank: map<string, nat>, name: string): bool
    requires Ranked(glyf, rank) && name in rank
    decreases rank[name], 1
  {
    match glyf[name]
    case Simple(contours, points) => contours != 0 && points > 2
    case Composite(components) => AnyHasInk(glyf, rank, components, rank[name])
  }

  /** Some glyph of `names` has ink. */
  function AnyHasInk(glyf: map<string, Glyph>, rank: map<string, nat>, names: seq<string>, bound: nat): bool
    requires Ranked(glyf, rank)
    requires forall c :: c in names ==> c in glyf && c in rank && rank[c] < bound
    decreases bound, 0, |names|
  {
    names != [] && (HasInk(glyf, rank, names[0]) || AnyHasInk(glyf, rank, names[1..], bound))
  }

  /** A chain of glyphs from `name` down through components to a glyph that draws ink. */
  ghost predicate InkPath(glyf: map<string, Glyph>, name: string, path: seq<string>)
  {
    && |path| > 0 && path[0] == name
    && (forall k :: 0 <= k < |path| ==> path[k] in glyf)
    && (forall k :: 0 <= k < |path| - 1 ==>
          glyf[path[k]].Composite? && path[k + 1] in glyf[path[k]].components)
    && DrawsInk(glyf[path[|path| - 1]])
  }

  /** A glyph has ink iff some chain of components leads from it to a glyph that draws ink. */
  lemma {:induction false} HasInkPath(glyf: map<string, Glyph>, rank: map<string, nat>, name: string)
    requires Ranked(glyf, rank) && name in rank
    ensures HasInk(glyf, rank, name) <==> exists path :: InkPath(glyf, name, path)
  {
    if HasInk(glyf, rank, name) {
      var path := InkPathOf(glyf, rank, name);
    }
    if exists path :: InkPath(glyf, name, path) {
      var path :| InkPath(glyf, name, path);
      PathHasInk(glyf, rank, name, path);
    }
  }

  /** A chain of components to ink, for a glyph that has ink. */
  lemma {:induction false} InkPathOf(glyf: map<string, Glyph>, rank: map<string, nat>, name: string)
      returns (path: seq<string>)
    requires Ranked(glyf, rank) && name in rank && HasInk(glyf, rank, name)
    ensures InkPath(glyf, name, path)
    decreases rank[name]
  {
    match glyf[name]
    case Simple(_, _) =>
      path := [name];
    case Composite(components) =>
      var c := InkedComponent(glyf, rank, components, rank[name]);
      var rest := InkPathOf(glyf, rank, c);
      path := [name] + rest;
      forall k | 0 <= k < |path| - 1
        ensures glyf[path[k]].Composite? && path[k + 1] in glyf[path[k]].components
      {
        if k > 0 {
          assert path[k] == rest[k - 1] && path[k + 1] == rest[k];
        }
      }
  }

  /** The first component with ink, when some has. */
  lemma {:induction false} InkedComponent(glyf: map<string, Glyph>, rank: map<string, nat>, names: seq<string>, bound: nat)
      returns (c: string)
    requires Ranked(glyf, rank)
    requires forall c :: c in names ==> c in glyf && c in rank && rank[c] < bound
    requires AnyHasInk(glyf, rank, names, bound)
    ensures c in names && HasInk(glyf, rank, c)
    decreases |names|
  {
    if HasInk(glyf, rank, names[0]) {
      c := names[0];
    } else {
      c := InkedComponent(glyf, rank, names[1..], bound);
    }
  }

  /** A glyph from which a chain of components leads to ink has ink. */
  lemma {:induction false} PathHasInk(glyf: map<string, Glyph>, rank: map<string, nat>, name: string, path: seq<string>)
    requires Ranked(glyf, rank) && name in rank && InkPath(glyf, name, path)
    ensures HasInk(glyf, rank, name)
    decreases |path|
  {
    if |path| > 1 {
      var rest := path[1..];
      assert InkPath(glyf, path[1], rest) by {
        forall k | 0 <= k < |rest| - 1
          ensures glyf[rest[k]].Composite? && rest[k + 1] in glyf[rest[k]].components
        {
          assert rest[k] == path[k + 1] && rest[k + 1] == path[k + 2];
        }
      }
      PathHasInk(glyf, rank, path[1], rest);
      var components := glyf[name].components;
      ComponentInk(glyf, rank, components, rank[name], path[1]);
    }
  }

  /** A list holding a glyph with ink contains some glyph with ink. */
  lemma {:induction false} ComponentInk(glyf: map<string, Glyph>, rank: map<string, nat>, names: seq<string>, bound: nat, c: string)
    requires Ranked(glyf, rank)
    requires forall c :: c in names ==> c in glyf && c in rank && rank[c] < bound
    requires c in names && HasInk(glyf, rank, c)
    ensures AnyHasInk(glyf, rank, names, bound)
    decreases |names|
  {
    if names[0] != c {
      ComponentInk(glyf, rank, names[1..], bound, c);
    }
  }
}
