/**
 * Lexical path handling on a Unix-style platform: the string splitting and
 * joining that the resolver does with strings.Split/strings.Join, and the
 * purely lexical functions of path/filepath (Clean, Join, Dir, Base, IsAbs).
 * Paths are character sequences; nothing here consults a filesystem.
 */
module Paths {

  /** The platform's path separator. */
  const Separator: char := '/'

  /** s starts with pre (strings.HasPrefix). */
  predicate HasPrefix(s: string, pre: string) {
    |pre| <= |s| && s[..|pre|] == pre
  }

  /** s ends with suf (strings.HasSuffix). */
  predicate HasSuffix(s: string, suf: string) {
    |suf| <= |s| && s[|s| - |suf|..] == suf
  }

  /** A rooted path (filepath.IsAbs on Unix). */
  predicate IsAbs(p: string) {
    |p| > 0 && p[0] == Separator
  }

  /** An element Clean keeps: not empty, not ".", no separator inside ("..", though, is one). */
  predicate IsComponent(x: string) {
    x != "" && x != "." && Separator !in x
  }

  /** A name a directory read can return: a component other than "..". */
  predicate IsName(x: string) {
    IsComponent(x) && x != ".."
  }

  type Name = x: string | IsName(x) witness "f"

  // ---------------------------------------------------------------------------
  // strings.Split(s, "/") and strings.Join(parts, "/")
  // ---------------------------------------------------------------------------

  /** The pieces of s between separators, left to right; there is always at least one. */
  function SplitPath(s: string): (parts: seq<string>)
    ensures |parts| >= 1
    ensures forall i :: 0 <= i < |parts| ==> Separator !in parts[i]
  {
    if s == [] then [""]
    else
      var rest := SplitPath(s[1..]);
      if s[0] == Separator then [""] + rest
      else [[s[0]] + rest[0]] + rest[1..]
  }

  /** The parts with one separator between neighbours. */
  function JoinParts(parts: seq<string>): (r: string)
  {
    if parts == [] then ""
    else if |parts| == 1 then parts[0]
    else parts[0] + [Separator] + JoinParts(parts[1..])
  }

  /** Joining the pieces of a split gives back the string. */
  lemma {:induction false} JoinSplit(s: string)
    ensures JoinParts(SplitPath(s)) == s
  {
    if s != [] {
      var rest := SplitPath(s[1..]);
      JoinSplit(s[1..]);
      if s[0] == Separator {
        assert ([""] + rest)[1..] == rest;
      } else if |rest| > 1 {
        assert ([[s[0]] + rest[0]] + rest[1..])[1..] == rest[1..];
      }
    }
  }

  /** Splitting a string that starts with a separator-free piece p glues p to the first part. */
  lemma {:induction false} SplitPrefixed(p: string, s: string)
    requires Separator !in p
    ensures SplitPath(p + s) == [p + SplitPath(s)[0]] + SplitPath(s)[1..]
  {
    var sp := SplitPath(s);
    if p != [] {
      assert (p + s)[0] == p[0];
      assert (p + s)[1..] == p[1..] + s;
      SplitPrefixed(p[1..], s);
      var rest := SplitPath(p[1..] + s);
      assert rest[0] == p[1..] + sp[0];
      assert rest[1..] == sp[1..];
      assert [p[0]] + (p[1..] + sp[0]) == p + sp[0];
    } else {
      assert p + s == s;
      assert p + sp[0] == sp[0];
      assert [sp[0]] + sp[1..] == sp;
    }
  }

  /** Splitting a join of separator-free parts gives back the parts. */
  lemma {:induction false} SplitJoin(parts: seq<string>)
    requires |parts| >= 1
    requires forall i :: 0 <= i < |parts| ==> Separator !in parts[i]
    ensures SplitPath(JoinParts(parts)) == parts
  {
    if |parts| == 1 {
      SplitPrefixed(parts[0], "");
      assert parts[0] + "" == parts[0];
    } else {
      var t := [Separator] + JoinParts(parts[1..]);
      SplitJoin(parts[1..]);
      assert t[1..] == JoinParts(parts[1..]);
      var st := SplitPath(t);
      assert st[0] == "" && st[1..] == parts[1..];
      SplitPrefixed(parts[0], t);
      assert JoinParts(parts) == parts[0] + t;
      assert parts[0] + st[0] == parts[0];
      assert [parts[0]] + parts[1..] == parts;
    }
  }

  /** Joining a concatenation puts one separator between the two joins. */
  lemma {:induction false} JoinConcat(a: seq<string>, b: seq<string>)
    requires |a| >= 1 && |b| >= 1
    ensures JoinParts(a + b) == JoinParts(a) + [Separator] + JoinParts(b)
  {
    if |a| > 1 {
      assert (a + b)[1..] == a[1..] + b;
      JoinConcat(a[1..], b);
    } else {
      assert (a + b)[1..] == b;
    }
  }

  /** Appending "/x" to a string appends the part x to its split. */
  lemma SplitAppend(s: string, x: string)
    requires Separator !in x
    ensures SplitPath(s + [Separator] + x) == SplitPath(s) + [x]
  {
    JoinSplit(s);
    JoinConcat(SplitPath(s), [x]);
    SplitJoin(SplitPath(s) + [x]);
  }

  /** Every character of a join is a separator or a character of one of the parts. */
  lemma {:induction false} JoinChars(parts: seq<string>, i: nat)
    requires i < |JoinParts(parts)|
    ensures JoinParts(parts)[i] == Separator
         || exists k, j :: 0 <= k < |parts| && 0 <= j < |parts[k]| && parts[k][j] == JoinParts(parts)[i]
  {
    if |parts| > 1 {
      var j := JoinParts(parts[1..]);
      if i < |parts[0]| {
        assert parts[0][i] == JoinParts(parts)[i];
      } else if i > |parts[0]| {
        JoinChars(parts[1..], i - |parts[0]| - 1);
        assert JoinParts(parts)[i] == j[i - |parts[0]| - 1];
        if j[i - |parts[0]| - 1] != Separator {
          var k, m :| 0 <= k < |parts[1..]| && 0 <= m < |parts[1..][k]| && parts[1..][k][m] == j[i - |parts[0]| - 1];
          assert parts[k + 1][m] == JoinParts(parts)[i];
        }
      }
    } else {
      assert parts[0][i] == JoinParts(parts)[i];
    }
  }

  /** Every character of every piece of a split is a character of the string. */
  lemma {:induction false} SplitChars(s: string, k: nat, j: nat)
    requires k < |SplitPath(s)| && j < |SplitPath(s)[k]|
    ensures SplitPath(s)[k][j] in s
  {
    var rest := SplitPath(s[1..]);
    if s[0] == Separator {
      SplitChars(s[1..], k - 1, j);
    } else if k == 0 {
      if j > 0 {
        SplitChars(s[1..], 0, j - 1);
      }
    } else {
      SplitChars(s[1..], k, j);
    }
  }

  // ---------------------------------------------------------------------------
  // filepath.Clean, as a fold over the components of a split
  // ---------------------------------------------------------------------------

  /** The split's parts without the empty ones (repeated separators) and the "." ones. */
  function Components(parts: seq<string>): (comps: seq<string>)
    ensures forall i :: 0 <= i < |comps| ==> comps[i] != "" && comps[i] != "." && comps[i] in parts
  {
    if parts == [] then []
    else
      var x := parts[|parts| - 1];
      Components(parts[..|parts| - 1]) + (if x == "" || x == "." then [] else [x])
  }

  /** One step of Clean's left-to-right scan: ".." removes the element before it when it can. */
  function Step(rooted: bool, acc: seq<string>, x: string): (r: seq<string>)
  {
    if x != ".." then acc + [x]
    else if |acc| > 0 && acc[|acc| - 1] != ".." then acc[..|acc| - 1]
    else if rooted then acc
    else acc + [".."]
  }

  /** The components left after every ".." has been applied, scanning left to right. */
  function Normalize(rooted: bool, comps: seq<string>): (out: seq<string>)
    ensures forall i :: 0 <= i < |out| ==> out[i] == ".." || out[i] in comps
  {
    if comps == [] then []
    else Step(rooted, Normalize(rooted, comps[..|comps| - 1]), comps[|comps| - 1])
  }

  /** Components back to a path: a leading separator when rooted, "." when nothing is left. */
  function Render(rooted: bool, out: seq<string>): (r: string)
  {
    if rooted then [Separator] + JoinParts(out)
    else if out == [] then "."
    else JoinParts(out)
  }

  /** The components of the cleaned form of p. */
  function CleanParts(p: string): (r: seq<string>)
  {
    Normalize(IsAbs(p), Components(SplitPath(p)))
  }

  /** filepath.Clean: the shortest lexically equivalent path. */
  function Clean(p: string): (r: string)
  {
    Render(IsAbs(p), CleanParts(p))
  }

  /**
   * What Clean produces: components only; no ".." in a rooted path; and in an
   * unrooted one, every ".." comes before every other component.
   */
  ghost predicate IsCleanSeq(rooted: bool, out: seq<string>)
  {
    (forall i :: 0 <= i < |out| ==> IsComponent(out[i]))
    && (rooted ==> forall i :: 0 <= i < |out| ==> out[i] != "..")
    && (forall i, j :: 0 <= i < j < |out| && out[j] == ".." ==> out[i] == "..")
  }

  lemma {:induction false} NormalizeIsClean(rooted: bool, comps: seq<string>)
    requires forall i :: 0 <= i < |comps| ==> IsComponent(comps[i])
    ensures IsCleanSeq(rooted, Normalize(rooted, comps))
  {
    if comps != [] {
      var acc := Normalize(rooted, comps[..|comps| - 1]);
      NormalizeIsClean(rooted, comps[..|comps| - 1]);
      var x := comps[|comps| - 1];
      if x == ".." && |acc| > 0 && acc[|acc| - 1] != ".." {
        var out := acc[..|acc| - 1];
        assert forall i :: 0 <= i < |out| ==> out[i] == acc[i];
      }
    }
  }

  /** Clean's output is a fixed point of the ".." scan. */
  lemma {:induction false} NormalizeFixed(rooted: bool, out: seq<string>)
    requires IsCleanSeq(rooted, out)
    ensures Normalize(rooted, out) == out
  {
    if out != [] {
      var init := out[..|out| - 1];
      assert IsCleanSeq(rooted, init);
      NormalizeFixed(rooted, init);
      assert init + [out[|out| - 1]] == out;
    }
  }

  lemma {:induction false} ComponentsConcat(a: seq<string>, b: seq<string>)
    ensures Components(a + b) == Components(a) + Components(b)
  {
    if b == [] {
      assert a + b == a;
    } else {
      assert (a + b)[..|a + b| - 1] == a + b[..|b| - 1];
      ComponentsConcat(a, b[..|b| - 1]);
    }
  }

  lemma {:induction false} ComponentsOfComponents(xs: seq<string>)
    requires forall i :: 0 <= i < |xs| ==> IsComponent(xs[i])
    ensures Components(xs) == xs
  {
    if xs != [] {
      ComponentsOfComponents(xs[..|xs| - 1]);
      assert xs[..|xs| - 1] + [xs[|xs| - 1]] == xs;
    }
  }

  /** Re-parsing a rendered clean sequence gives back its rootedness and its components. */
  lemma RenderParts(rooted: bool, out: seq<string>)
    requires forall i :: 0 <= i < |out| ==> IsComponent(out[i])
    ensures IsAbs(Render(rooted, out)) == rooted
    ensures Components(SplitPath(Render(rooted, out))) == out
  {
    if rooted {
      RenderRooted(out);
    } else if out == [] {
      RenderEmpty();
    } else {
      RenderRelative(out);
    }
  }

  lemma RenderRooted(out: seq<string>)
    requires forall i :: 0 <= i < |out| ==> IsComponent(out[i])
    ensures IsAbs(Render(true, out))
    ensures Components(SplitPath(Render(true, out))) == out
  {
    var c := Render(true, out);
    assert c[1..] == JoinParts(out);
    assert SplitPath(c) == [""] + SplitPath(JoinParts(out));
    if out == [] {
      assert SplitPath(c) == ["", ""];
      assert Components(["", ""]) == Components([""]) == [];
    } else {
      SplitJoin(out);
      ComponentsConcat([""], out);
      assert Components([""]) == [];
      ComponentsOfComponents(out);
    }
  }

  lemma RenderEmpty()
    ensures !IsAbs(Render(false, []))
    ensures Components(SplitPath(Render(false, []))) == []
  {
    assert "."[0] == '.' && "."[1..] == "";
    assert SplitPath("") == [""];
    assert ['.'] + "" == ".";
    assert SplitPath(".") == ["."];
    assert Components(["."]) == [];
  }

  lemma RenderRelative(out: seq<string>)
    requires out != [] && forall i :: 0 <= i < |out| ==> IsComponent(out[i])
    ensures !IsAbs(Render(false, out))
    ensures Components(SplitPath(Render(false, out))) == out
  {
    var c := Render(false, out);
    SplitJoin(out);
    ComponentsOfComponents(out);
    assert c[0] == out[0][0];
  }

  /** Clean never returns the empty string and keeps a path rooted or unrooted. */
  lemma CleanShape(p: string)
    ensures Clean(p) != "" && IsAbs(Clean(p)) == IsAbs(p)
    ensures IsCleanSeq(IsAbs(p), CleanParts(p))
  {
    NormalizeIsClean(IsAbs(p), Components(SplitPath(p)));
    RenderParts(IsAbs(p), CleanParts(p));
  }

  /**
   * The split of a cleaned path: its components, after an empty first part
   * when it is rooted; a path with no components is "/" or ".".
   */
  lemma CleanSplit(p: string)
    ensures forall i :: 0 <= i < |CleanParts(p)| ==> IsComponent(CleanParts(p)[i])
    ensures CleanParts(p) == [] ==> Clean(p) == if IsAbs(p) then [Separator] else "."
    ensures CleanParts(p) != [] ==>
      SplitPath(Clean(p)) == if IsAbs(p) then [""] + CleanParts(p) else CleanParts(p)
  {
    var out := CleanParts(p);
    CleanShape(p);
    if out != [] {
      SplitJoin(out);
      if IsAbs(p) {
        var c := Clean(p);
        assert c[0] == Separator && c[1..] == JoinParts(out);
      }
    }
  }

  /** Cleaning is idempotent: a cleaned path is its own clean form. */
  lemma CleanIdempotent(p: string)
    ensures Clean(Clean(p)) == Clean(p)
  {
    var r := IsAbs(p);
    var out := CleanParts(p);
    CleanShape(p);
    RenderParts(r, out);
    NormalizeFixed(r, out);
  }

  /** Every character of a component Clean keeps is a character of p or a '.'. */
  lemma CleanPartsChars(p: string, k: nat, j: nat)
    requires k < |CleanParts(p)| && j < |CleanParts(p)[k]|
    ensures CleanParts(p)[k][j] in p || CleanParts(p)[k][j] == '.'
  {
    var x := CleanParts(p)[k];
    if x != ".." {
      var parts := SplitPath(p);
      assert x in Components(parts);
      var m :| 0 <= m < |parts| && parts[m] == x;
      SplitChars(p, m, j);
    } else {
      assert ".."[j] == '.';
    }
  }

  /** Every character of Clean(p) is a character of p, a '.' or a separator. */
  lemma CleanChars(p: string, i: nat)
    requires i < |Clean(p)|
    ensures Clean(p)[i] in p || Clean(p)[i] == '.' || Clean(p)[i] == Separator
  {
    var r := IsAbs(p);
    var out := CleanParts(p);
    var c := Clean(p);
    if !(r && i == 0) && out != [] {
      var i' := if r then i - 1 else i;
      assert c[i] == JoinParts(out)[i'];
      JoinChars(out, i');
      if JoinParts(out)[i'] != Separator {
        var k, j :| 0 <= k < |out| && 0 <= j < |out[k]| && out[k][j] == c[i];
        CleanPartsChars(p, k, j);
      }
    }
  }

  // ---------------------------------------------------------------------------
  // filepath.Join, Dir and Base
  // ---------------------------------------------------------------------------

  /** filepath.Join of two elements: empty elements are ignored and the result is cleaned. */
  function Join(a: string, b: string): (r: string)
  {
    if a != "" then Clean(a + [Separator] + b)
    else if b != "" then Clean(b)
    else ""
  }

  /** The path of entry n inside the cleaned directory d, written out. */
  function Child(d: string, n: string): (r: string)
  {
    if d == "." then n
    else if d == [Separator] then [Separator] + n
    else d + [Separator] + n
  }

  /** A length that grows strictly from a cleaned directory to each of its entries. */
  function Weight(p: string): (r: nat)
  {
    if p == "." then 0 else |p|
  }

  /** A join starts with the first character of its first part. */
  lemma JoinFirst(parts: seq<string>)
    requires |parts| >= 1 && parts[0] != ""
    ensures JoinParts(parts) != "" && JoinParts(parts)[0] == parts[0][0]
  {
    if |parts| > 1 {
      assert JoinParts(parts) == parts[0] + [Separator] + JoinParts(parts[1..]);
    }
  }

  lemma RenderAppend(rooted: bool, out: seq<string>, n: Name)
    requires forall i :: 0 <= i < |out| ==> IsComponent(out[i])
    ensures Render(rooted, out + [n]) == Child(Render(rooted, out), n)
  {
    if out == [] {
      assert out + [n] == [n];
    } else {
      JoinConcat(out, [n]);
      JoinFirst(out);
      assert JoinParts([n]) == n;
      var j := JoinParts(out);
      if rooted {
        assert [Separator] + j != [Separator];
        assert [Separator] + j != ".";
        assert [Separator] + (j + [Separator] + n) == ([Separator] + j) + [Separator] + n;
      } else {
        assert j != "." by {
          if |out| == 1 {
            assert j == out[0];
          }
        }
      }
    }
  }

  /** Joining a directory with an entry name is the written-out child of the cleaned directory. */
  lemma JoinName(d: string, n: Name)
    ensures Join(d, n) == Child(Clean(d), n)
  {
    SplitJoin([n]);
    assert Components([n]) == [n] by {
      assert [n][..0] == [];
    }
    assert Normalize(false, [n]) == [n] by {
      assert [n][..0] == [];
    }
    if d == "" {
      assert Components([""]) == [] by {
        assert [""][..0] == [];
      }
      assert Clean("") == ".";
    } else {
      var r := IsAbs(d);
      var parts := SplitPath(d);
      SplitAppend(d, n);
      assert (parts + [n])[..|parts|] == parts;
      assert Components(parts + [n]) == Components(parts) + [n];
      var comps := Components(parts);
      assert (comps + [n])[..|comps|] == comps;
      assert Normalize(r, comps + [n]) == Normalize(r, comps) + [n];
      assert IsAbs(d + [Separator] + n) == r;
      CleanShape(d);
      RenderAppend(r, CleanParts(d), n);
    }
  }

  /** The index of the last separator in p, or -1 when there is none. */
  function LastSeparator(p: string): (i: int)
    ensures -1 <= i < |p|
    ensures 0 <= i ==> p[i] == Separator
    ensures forall k :: i < k < |p| ==> p[k] != Separator
  {
    if p == [] then -1
    else if p[|p| - 1] == Separator then |p| - 1
    else LastSeparator(p[..|p| - 1])
  }

  /** p without its trailing separators. */
  function TrimTrailingSeparators(p: string): (q: string)
    ensures |q| <= |p| && q == p[..|q|]
    ensures q == [] || q[|q| - 1] != Separator
    ensures forall k :: |q| <= k < |p| ==> p[k] == Separator
  {
    if p != [] && p[|p| - 1] == Separator then TrimTrailingSeparators(p[..|p| - 1]) else p
  }

  /** filepath.Dir: everything before the last separator, cleaned. */
  function Dir(p: string): (r: string)
  {
    Clean(p[..LastSeparator(p) + 1])
  }

  /** filepath.Dir never returns the empty string. */
  lemma DirNonEmpty(p: string)
    ensures Dir(p) != ""
  {
    CleanShape(p[..LastSeparator(p) + 1]);
  }

  /** Every character of Dir(p) is a character of p, a '.' or a separator. */
  lemma DirChars(p: string, i: nat)
    requires i < |Dir(p)|
    ensures Dir(p)[i] in p || Dir(p)[i] == '.' || Dir(p)[i] == Separator
  {
    var d := p[..LastSeparator(p) + 1];
    CleanChars(d, i);
    if Dir(p)[i] in d {
      var j :| 0 <= j < |d| && d[j] == Dir(p)[i];
      assert p[j] == d[j];
    }
  }

  /** filepath.Base: the last element, after trailing separators are dropped. */
  function Base(p: string): (r: string)
  {
    if p == "" then "."
    else
      var q := TrimTrailingSeparators(p);
      if q == "" then [Separator] else q[LastSeparator(q) + 1..]
  }

  // ---------------------------------------------------------------------------
  // Paths beneath a path
  // ---------------------------------------------------------------------------

  /** p is q itself or lies beneath it: q followed by a separator starts p. */
  predicate Below(p: string, q: string)
  {
    p == q || (|q| < |p| && p[..|q|] == q && p[|q|] == Separator)
  }

  /** What Child puts before an entry name in directory d. */
  function ChildPrefix(d: string): (r: string)
    ensures forall n: string :: Child(d, n) == r + n
  {
    if d == "." then "" else if d == [Separator] then [Separator] else d + [Separator]
  }

  /** A path at or beneath pre + n2 is not at or beneath pre + n1 for a shorter name n1. */
  lemma NameSeparate(pre: string, n1: Name, n2: Name, p: string)
    requires |n1| < |n2| && Below(p, pre + n2)
    ensures !Below(p, pre + n1)
  {
    var k := |pre| + |n1|;
    assert p[..|pre + n2|] == pre + n2;
    assert p[k] == (pre + n2)[k] == n2[|n1|];
    assert n2[|n1|] in n2;
  }

  lemma NameEqual(pre: string, n1: Name, n2: Name, p: string)
    requires |n1| == |n2|
    ensures Below(p, pre + n1) && Below(p, pre + n2) ==> n1 == n2
  {
    if Below(p, pre + n1) && Below(p, pre + n2) {
      assert pre + n1 == p[..|pre + n1|] == pre + n2;
      assert n1 == (pre + n1)[|pre|..] && n2 == (pre + n2)[|pre|..];
    }
  }

  /**
   * The entries of one directory lie apart: no path is at or beneath two
   * entries with different names.
   */
  lemma ChildrenApart(d: string, n1: Name, n2: Name, p: string)
    ensures Below(p, Child(d, n1)) && Below(p, Child(d, n2)) ==> n1 == n2
  {
    var pre := ChildPrefix(d);
    if |n1| < |n2| {
      if Below(p, pre + n2) {
        NameSeparate(pre, n1, n2, p);
      }
    } else if |n2| < |n1| {
      if Below(p, pre + n1) {
        NameSeparate(pre, n2, n1, p);
      }
    } else {
      NameEqual(pre, n1, n2, p);
    }
  }

  /** A directory's entry, written out, is never "." or "/". */
  lemma ChildProper(d: string, n: Name)
    ensures Child(d, n) != "." && Child(d, n) != [Separator]
  {
    if d == "." {
      assert n[0] in n;
    }
  }

  /** An entry lies beneath its directory, unless the directory is "." or "/". */
  lemma ChildBelow(d: string, n: Name)
    requires d != "." && d != [Separator]
    ensures Below(Child(d, n), d)
    ensures Child(d, n) != "." && Child(d, n) != [Separator]
  {
    assert (d + [Separator] + n)[..|d|] == d;
  }

  lemma BelowTransitive(p: string, q: string, r: string)
    requires Below(p, q) && Below(q, r)
    ensures Below(p, r)
  {
    if p != q && q != r {
      assert p[..|r|] == p[..|q|][..|r|];
      assert p[|r|] == p[..|q|][|r|];
    }
  }

  /** An entry of a cleaned directory, written out, is already clean. */
  lemma ChildClean(d: string, n: Name)
    requires Clean(d) == d
    ensures Clean(Child(d, n)) == Child(d, n)
  {
    JoinName(d, n);
    CleanShape(d);
    CleanIdempotent(d + [Separator] + n);
  }
}
