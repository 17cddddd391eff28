/**
 * The walker: the regular-file test shared by every resolution step, the
 * depth-first walk that skips hidden directories below the root, and the
 * one-level directory listing.
 */
module Walker {
  import opened Wrappers
  import opened Paths
  import opened FileSystem

  // ---------------------------------------------------------------------------
  // IsIncludableFile
  // ---------------------------------------------------------------------------

  /**
   * Whether path, whose entry reports mode, is a regular file: a symbolic link
   * is followed and counts only when it ends at a regular file.
   */
  predicate IsIncludableFile(fs: FS, path: string, mode: Mode)
  {
    if mode == Symlink then
      match Stat(fs, path)
      case Err(_) => false
      case Ok(info) => if info.Dir? then false else info.File?
    else mode == Regular
  }

  /** p may be returned to the caller: includable under the type its directory entry reports. */
  predicate Includable(fs: FS, p: string)
  {
    IsIncludableFile(fs, p, EntryMode(fs, p))
  }

  /**
   * An entry that can be looked up is includable exactly when following it ends
   * at a regular file: never a directory, a special file or a dangling link.
   */
  lemma IncludableIsRegularTarget(fs: FS, p: string)
    requires p !in fs.denied
    ensures Includable(fs, p) <==> Stat(fs, p) == Ok(File)
  {
  }

  /** An includable path is never a directory, whether or not it is reached through a link. */
  lemma IncludableNotDirectory(fs: FS, p: string)
    requires Includable(fs, p)
    ensures EntryMode(fs, p) != Directory
    ensures Stat(fs, p).Ok? ==> Stat(fs, p).value == File
  {
  }

  /**
   * The test on the reported type: a path reported as anything but a symbolic
   * link is includable exactly when it is reported regular; a link, exactly
   * when following it ends at a regular file, so never when it dangles, loops
   * or leads to a directory.
   */
  lemma IsIncludableFileExactly(fs: FS, path: string, mode: Mode)
    ensures mode != Symlink ==> (IsIncludableFile(fs, path, mode) <==> mode == Regular)
    ensures mode == Symlink ==> (IsIncludableFile(fs, path, mode) <==> Stat(fs, path) == Ok(File))
  {
  }

  // ---------------------------------------------------------------------------
  // walkFiltered / WalkCollect: the emitted sequence
  // ---------------------------------------------------------------------------

  /** A name the walk treats as hidden. */
  predicate IsHidden(name: string)
  {
    |name| > 0 && name[0] == '.'
  }

  /** The entries of fs whose paths are heavier than p. */
  ghost function Deeper(fs: FS, p: string): (r: set<string>)
  {
    set k | k in fs.nodes && Weight(k) > Weight(p)
  }

  /** A termination measure: what a visit of p may still descend into. */
  ghost function Rank(fs: FS, p: string, mode: Mode): (r: set<string>)
  {
    if mode == Directory && p in fs.nodes then Deeper(fs, p) + {p} else {}
  }

  lemma RankBelow(fs: FS, dir: string, n: Name)
    ensures Rank(fs, Child(dir, n), EntryMode(fs, Child(dir, n))) <= Deeper(fs, dir)
  {
    assert Weight(Child(dir, n)) > Weight(dir);
  }

  /**
   * The paths emitted while filepath.WalkDir visits path, an entry below the
   * root called name whose directory entry reports mode, in emission order.
   * A directory whose name is hidden is skipped; a directory that cannot be
   * read is reported and contributes nothing; any other entry is emitted
   * when it is includable.
   *
   * Below the root every path is the cleaned parent joined with a name, so
   * filepath.Join(parent, name) is Child(parent, name) (Paths.JoinName), and
   * the callback's path != root test holds: the root's own visit is made by Walk.
   */
  function Visit(fs: FS, path: string, name: Name, mode: Mode): (r: seq<string>)
    decreases Rank(fs, path, mode), 1
  {
    if mode == Directory && IsHidden(name) then []
    else if mode == Directory then
      match ReadDir(fs, path)
      case Err(_) => []
      case Ok(names) => Children(fs, path, names)
    else if IsIncludableFile(fs, path, mode) then [path]
    else []
  }

  /** The paths emitted while visiting the entries names of the cleaned directory dir, in order. */
  function Children(fs: FS, dir: string, names: seq<Name>): (r: seq<string>)
    decreases Deeper(fs, dir), |names| + 1
  {
    if names == [] then []
    else
      var n := names[|names| - 1];
      var child := Child(dir, n);
      RankBelow(fs, dir, n);
      Children(fs, dir, names[..|names| - 1]) + Visit(fs, child, n, EntryMode(fs, child))
  }

  /**
   * The paths WalkCollect returns for root. The root is classified by lstat
   * and is never skipped for its name; a root that cannot be looked up, or a
   * root directory that cannot be read, yields nothing.
   */
  function Walk(fs: FS, root: string): (r: seq<string>)
  {
    match Lstat(fs, root)
    case Err(_) => []
    case Ok(info) =>
      if ModeOf(info) == Directory then
        match ReadDir(fs, root)
        case Err(_) => []
        case Ok(names) => Children(fs, Clean(root), names)
      else if IsIncludableFile(fs, root, ModeOf(info)) then [root]
      else []
  }

  /**
   * The walk with its root classified by stat rather than lstat: a root that
   * is a symbolic link to a directory that can be read is descended, its
   * entries reached below the link's own path. Every other root is walked as
   * Walk walks it.
   */
  function ResolvedWalk(fs: FS, root: string): (r: seq<string>)
  {
    if Lstat(fs, root).Ok? && Lstat(fs, root).value.Link? && ReadDir(fs, root).Ok? then
      Children(fs, Clean(root), ReadDir(fs, root).value)
    else Walk(fs, root)
  }

  /** The capture of WalkCollect's callback: the paths emitted so far. */
  class Collector {
    var results: seq<string>

    constructor ()
      ensures results == []
    {
      results := [];
    }

    /** Append path to the results. */
    method Emit(path: string)
      modifies this
      ensures results == old(results) + [path]
    {
      results := results + [path];
    }
  }

  /** filepath.WalkDir's visit of the entry path below the root with walkFiltered's callback. */
  method WalkFrom(fs: FS, path: string, name: Name, mode: Mode, emit: Collector)
    modifies emit
    ensures emit.results == old(emit.results) + Visit(fs, path, name, mode)
    decreases Rank(fs, path, mode), 1
  {
    if mode == Directory && IsHidden(name) {
      return;  // SkipDir
    }
    if mode == Directory {
      var listing := ReadDir(fs, path);
      if listing.Err? {
        return;  // reported; the walk goes on
      }
      WalkEntries(fs, path, listing.value, emit);
      return;
    }
    if IsIncludableFile(fs, path, mode) {
      emit.Emit(path);
    }
  }

  /** The loop over the entries of the cleaned directory dir. */
  method WalkEntries(fs: FS, dir: string, names: seq<Name>, emit: Collector)
    modifies emit
    ensures emit.results == old(emit.results) + Children(fs, dir, names)
    decreases Deeper(fs, dir), 3
  {
    var i := 0;
    while i < |names|
      invariant 0 <= i <= |names|
      invariant emit.results == old(emit.results) + Children(fs, dir, names[..i])
    {
      WalkEntry(fs, dir, names[i], emit);
      ChildrenStep(fs, dir, names, i);
      AppendAssociative(old(emit.results), Children(fs, dir, names[..i]), Children(fs, dir, [names[i]]));
      i := i + 1;
    }
    assert names[..|names|] == names;
  }

  /** The visit of the entry n of the cleaned directory dir. */
  method WalkEntry(fs: FS, dir: string, n: Name, emit: Collector)
    modifies emit
    ensures emit.results == old(emit.results) + Children(fs, dir, [n])
    decreases Deeper(fs, dir), 2
  {
    var child := Child(dir, n);
    RankBelow(fs, dir, n);
    WalkFrom(fs, child, n, EntryMode(fs, child), emit);
    ChildrenSingle(fs, dir, n);
  }

  lemma AppendAssociative<T>(a: seq<T>, b: seq<T>, c: seq<T>)
    ensures (a + b) + c == a + (b + c)
  {
  }

  /** One more entry visited: the emission for names[..i + 1] extends that for names[..i]. */
  lemma ChildrenStep(fs: FS, dir: string, names: seq<Name>, i: nat)
    requires i < |names|
    ensures Children(fs, dir, names[..i + 1]) == Children(fs, dir, names[..i]) + Children(fs, dir, [names[i]])
  {
    assert names[..i + 1] == names[..i] + [names[i]];
    ChildrenConcat(fs, dir, names[..i], [names[i]]);
  }

  /**
   * walker.WalkCollect: every path the walk emits, in emission order. The
   * callback swallows every error, so the walk itself never fails. The root
   * is classified by lstat, so a root that is a symbolic link to a directory
   * is not descended (WalkMissesSymlinkedDirectory).
   */
  method WalkCollect(fs: FS, root: string) returns (paths: seq<string>)
    ensures paths == Walk(fs, root)
  {
    var emit := new Collector();
    var info := Lstat(fs, root);
    if info.Ok? {
      var mode := ModeOf(info.value);
      if mode == Directory {
        var listing := ReadDir(fs, root);
        if listing.Ok? {
          WalkEntries(fs, Clean(root), listing.value, emit);
        }
      } else if IsIncludableFile(fs, root, mode) {
        emit.Emit(root);
      }
    }
    paths := emit.results;
  }

  // ---------------------------------------------------------------------------
  // Properties of the walk
  // ---------------------------------------------------------------------------

  /** The path reached from the cleaned directory dir by following the entry names ns. */
  function Descend(dir: string, ns: seq<Name>): (r: string)
    decreases |ns|
  {
    if ns == [] then dir else Descend(Child(dir, ns[0]), ns[1..])
  }

  /** Every name but the last (the directories passed through) is visible. */
  predicate VisibleTrail(ns: seq<Name>)
  {
    forall i :: 0 <= i < |ns| - 1 ==> !IsHidden(ns[i])
  }

  lemma {:induction false} VisitIncludable(fs: FS, path: string, name: Name, mode: Mode)
    requires mode == EntryMode(fs, path)
    ensures forall p :: p in Visit(fs, path, name, mode) ==> Includable(fs, p)
    decreases Rank(fs, path, mode), 1
  {
    if mode == Directory && !IsHidden(name) {
      match ReadDir(fs, path)
      case Err(_) =>
      case Ok(names) => ChildrenIncludable(fs, path, names);
    }
  }

  lemma {:induction false} ChildrenIncludable(fs: FS, dir: string, names: seq<Name>)
    ensures forall p :: p in Children(fs, dir, names) ==> Includable(fs, p)
    decreases Deeper(fs, dir), |names| + 1
  {
    if names != [] {
      var n := names[|names| - 1];
      var child := Child(dir, n);
      RankBelow(fs, dir, n);
      ChildrenIncludable(fs, dir, names[..|names| - 1]);
      VisitIncludable(fs, child, n, EntryMode(fs, child));
    }
  }

  /**
   * Directories, dangling links and special files are never emitted: every path
   * the walk returns is an includable file.
   */
  lemma WalkIncludable(fs: FS, root: string)
    ensures forall p :: p in Walk(fs, root) ==> Includable(fs, p)
  {
    match Lstat(fs, root)
    case Err(_) =>
    case Ok(info) =>
      if ModeOf(info) == Directory {
        match ReadDir(fs, root)
        case Err(_) =>
        case Ok(names) => ChildrenIncludable(fs, Clean(root), names);
      }
  }

  lemma {:induction false} VisitVisible(fs: FS, path: string, name: Name, mode: Mode)
    ensures forall p :: p in Visit(fs, path, name, mode) ==>
      exists ns: seq<Name> :: p == Descend(path, ns) && VisibleTrail(ns) &&
        (|ns| > 0 ==> mode == Directory && !IsHidden(name))
    decreases Rank(fs, path, mode), 1
  {
    if mode == Directory && !IsHidden(name) {
      match ReadDir(fs, path)
      case Err(_) =>
      case Ok(names) => ChildrenVisible(fs, path, names);
    } else if mode != Directory && IsIncludableFile(fs, path, mode) {
      assert path == Descend(path, []);
    }
  }

  lemma {:induction false} ChildrenVisible(fs: FS, dir: string, names: seq<Name>)
    ensures forall p :: p in Children(fs, dir, names) ==>
      exists ns: seq<Name> :: |ns| > 0 && ns[0] in names && p == Descend(dir, ns) && VisibleTrail(ns)
    decreases Deeper(fs, dir), |names| + 1
  {
    if names != [] {
      var init := names[..|names| - 1];
      var n := names[|names| - 1];
      var child := Child(dir, n);
      RankBelow(fs, dir, n);
      ChildrenVisible(fs, dir, init);
      VisitVisible(fs, child, n, EntryMode(fs, child));
      forall p | p in Children(fs, dir, names)
        ensures exists ns: seq<Name> :: |ns| > 0 && ns[0] in names && p == Descend(dir, ns) && VisibleTrail(ns)
      {
        if p in Children(fs, dir, init) {
          var ns: seq<Name> :| |ns| > 0 && ns[0] in init && p == Descend(dir, ns) && VisibleTrail(ns);
          assert ns[0] in names;
        } else {
          var ns: seq<Name> :| p == Descend(child, ns) && VisibleTrail(ns) && (|ns| > 0 ==> !IsHidden(n));
          var full: seq<Name> := [n] + ns;
          assert full[1..] == ns;
          assert VisibleTrail(full) by {
            forall i | 0 <= i < |full| - 1
              ensures !IsHidden(full[i])
            {
              if i > 0 {
                assert full[i] == ns[i - 1];
              }
            }
          }
        }
      }
    }
  }

  /**
   * Hidden directories below the root are pruned: every emitted path other
   * than the root itself is reached from the root through entry names of which
   * all but the last, the file's own name, are visible.
   */
  lemma WalkSkipsHiddenDirectories(fs: FS, root: string)
    ensures forall p :: p in Walk(fs, root) ==>
      (p == root || exists ns: seq<Name> :: |ns| > 0 && p == Descend(Clean(root), ns) && VisibleTrail(ns))
  {
    match Lstat(fs, root)
    case Err(_) =>
    case Ok(info) =>
      if ModeOf(info) == Directory {
        match ReadDir(fs, root)
        case Err(_) =>
        case Ok(names) => ChildrenVisible(fs, Clean(root), names);
      }
  }

  /**
   * The entry names ns lead from the cleaned directory dir, whose listing is
   * names, to an includable file through visible directories that can be read.
   */
  ghost predicate Reaches(fs: FS, dir: string, names: seq<Name>, ns: seq<Name>)
    decreases |ns|
  {
    |ns| > 0 && ns[0] in names &&
    var child := Child(dir, ns[0]);
    if |ns| == 1 then Includable(fs, child)
    else
      EntryMode(fs, child) == Directory && !IsHidden(ns[0]) && ReadDir(fs, child).Ok? &&
      Reaches(fs, child, ReadDir(fs, child).value, ns[1..])
  }

  lemma {:induction false} ChildrenContains(fs: FS, dir: string, names: seq<Name>, n: Name, p: string)
    requires n in names && p in Visit(fs, Child(dir, n), n, EntryMode(fs, Child(dir, n)))
    ensures p in Children(fs, dir, names)
    decreases |names|
  {
    if names[|names| - 1] != n {
      assert n in names[..|names| - 1] by {
        var i :| 0 <= i < |names| && names[i] == n;
        assert names[..|names| - 1][i] == n;
      }
      ChildrenContains(fs, dir, names[..|names| - 1], n, p);
    }
  }

  lemma {:induction false} ChildrenReach(fs: FS, dir: string, names: seq<Name>, ns: seq<Name>)
    requires Reaches(fs, dir, names, ns)
    ensures Descend(dir, ns) in Children(fs, dir, names)
    decreases |ns|
  {
    var child := Child(dir, ns[0]);
    assert Descend(dir, ns) == Descend(child, ns[1..]);
    if |ns| > 1 {
      ChildrenReach(fs, child, ReadDir(fs, child).value, ns[1..]);
      assert Visit(fs, child, ns[0], Directory) == Children(fs, child, ReadDir(fs, child).value);
    } else {
      assert Descend(child, ns[1..]) == child;
      IncludableNotDirectory(fs, child);
    }
    ChildrenContains(fs, dir, names, ns[0], Descend(dir, ns));
  }

  /**
   * Every includable file reached from a root directory through visible,
   * readable directories is emitted. The root itself is descended even when
   * its own name is hidden, and the file's own name may be hidden.
   */
  lemma WalkComplete(fs: FS, root: string, names: seq<Name>, ns: seq<Name>)
    requires Lstat(fs, root).Ok? && ModeOf(Lstat(fs, root).value) == Directory
    requires ReadDir(fs, root) == Ok(names) && Reaches(fs, Clean(root), names, ns)
    ensures Descend(Clean(root), ns) in Walk(fs, root)
  {
    ChildrenReach(fs, Clean(root), names, ns);
  }

  /** The first step from the root is filepath.Join of the root and an entry name. */
  lemma DescendFromRoot(root: string, n: Name, ns: seq<Name>)
    ensures Descend(Clean(root), [n] + ns) == Descend(Join(root, n), ns)
  {
    JoinName(root, n);
    assert ([n] + ns)[1..] == ns;
  }

  /**
   * Because the root is classified by lstat, a root that is a symbolic link is
   * never descended: it yields itself when it leads to a regular file and
   * nothing otherwise, even when it leads to a directory.
   */
  lemma WalkSymlinkRoot(fs: FS, root: string, target: string)
    requires Lstat(fs, root) == Ok(Link(target))
    ensures Walk(fs, root) == if Stat(fs, root) == Ok(File) then [root] else []
  {
  }

  /**
   * Walk, which lstats its root as filepath.WalkDir does, drops everything
   * beneath a root that is a symbolic link to a directory: a file reached
   * from the link through visible directories is missing from Walk but
   * present in ResolvedWalk.
   */
  lemma WalkMissesSymlinkedDirectory(fs: FS, root: string, target: string, names: seq<Name>, ns: seq<Name>)
    requires Lstat(fs, root) == Ok(Link(target)) && ReadDir(fs, root) == Ok(names)
    requires Reaches(fs, Clean(root), names, ns)
    ensures Walk(fs, root) == []
    ensures Descend(Clean(root), ns) in ResolvedWalk(fs, root)
  {
    WalkSymlinkRoot(fs, root, target);
    ChildrenReach(fs, Clean(root), names, ns);
  }

  /** ResolvedWalk emits only includable files, like Walk. */
  lemma ResolvedWalkIncludable(fs: FS, root: string)
    ensures forall p :: p in ResolvedWalk(fs, root) ==> Includable(fs, p)
  {
    if Lstat(fs, root).Ok? && Lstat(fs, root).value.Link? && ReadDir(fs, root).Ok? {
      ChildrenIncludable(fs, Clean(root), ReadDir(fs, root).value);
    } else {
      WalkIncludable(fs, root);
    }
  }

  /** ResolvedWalk prunes hidden directories below the root, like Walk. */
  lemma ResolvedWalkSkipsHiddenDirectories(fs: FS, root: string)
    ensures forall p :: p in ResolvedWalk(fs, root) ==>
      (p == root || exists ns: seq<Name> :: |ns| > 0 && p == Descend(Clean(root), ns) && VisibleTrail(ns))
  {
    if Lstat(fs, root).Ok? && Lstat(fs, root).value.Link? && ReadDir(fs, root).Ok? {
      ChildrenVisible(fs, Clean(root), ReadDir(fs, root).value);
    } else {
      WalkSkipsHiddenDirectories(fs, root);
    }
  }

  /**
   * A root that resolves to a readable directory, directly or through
   * symbolic links, is walked: every includable file reached from it through
   * visible, readable directories is emitted. A root that is not a symbolic
   * link is walked exactly as Walk walks it.
   */
  lemma ResolvedWalkComplete(fs: FS, root: string, names: seq<Name>, ns: seq<Name>)
    requires ReadDir(fs, root) == Ok(names) && Reaches(fs, Clean(root), names, ns)
    ensures Descend(Clean(root), ns) in ResolvedWalk(fs, root)
    ensures !Lstat(fs, root).value.Link? ==> ResolvedWalk(fs, root) == Walk(fs, root)
  {
    ChildrenReach(fs, Clean(root), names, ns);
  }

  /**
   * Entries contribute independently: the emission for a listing is the
   * emissions for its parts, so an entry that fails costs only its own share.
   */
  lemma {:induction false} ChildrenConcat(fs: FS, dir: string, a: seq<Name>, b: seq<Name>)
    ensures Children(fs, dir, a + b) == Children(fs, dir, a) + Children(fs, dir, b)
    decreases |b|
  {
    if b == [] {
      assert a + b == a;
    } else {
      var init := b[..|b| - 1];
      var n := b[|b| - 1];
      var child := Child(dir, n);
      assert (a + b)[..|a + b| - 1] == a + init;
      assert (a + b)[|a + b| - 1] == n;
      ChildrenConcat(fs, dir, a, init);
      AppendAssociative(Children(fs, dir, a), Children(fs, dir, init), Visit(fs, child, n, EntryMode(fs, child)));
    }
  }

  lemma ChildrenSingle(fs: FS, dir: string, n: Name)
    ensures Children(fs, dir, [n]) == Visit(fs, Child(dir, n), n, EntryMode(fs, Child(dir, n)))
  {
    assert [n][..0] == [];
  }

  lemma ChildrenWithout(fs: FS, dir: string, names: seq<Name>, i: nat)
    requires i < |names|
    requires Children(fs, dir, [names[i]]) == []
    ensures Children(fs, dir, names) == Children(fs, dir, names[..i]) + Children(fs, dir, names[i + 1..])
  {
    SplitAround(names, i);
    ChildrenDrop(fs, dir, names[..i], names[i], names[i + 1..]);
  }

  lemma ChildrenDrop(fs: FS, dir: string, a: seq<Name>, x: Name, b: seq<Name>)
    requires Children(fs, dir, [x]) == []
    ensures Children(fs, dir, a + ([x] + b)) == Children(fs, dir, a) + Children(fs, dir, b)
  {
    ChildrenConcat(fs, dir, [x], b);
    ChildrenConcat(fs, dir, a, [x] + b);
    DropEmptyMiddle(Children(fs, dir, a + ([x] + b)), Children(fs, dir, a), Children(fs, dir, [x] + b),
      Children(fs, dir, [x]), Children(fs, dir, b));
  }

  lemma SplitAround<T>(s: seq<T>, i: nat)
    requires i < |s|
    ensures s == s[..i] + ([s[i]] + s[i + 1..])
  {
    assert s[..i] + ([s[i]] + s[i + 1..]) == s[..i] + s[i..];
  }

  lemma DropEmptyMiddle<T>(whole: seq<T>, left: seq<T>, rest: seq<T>, mid: seq<T>, right: seq<T>)
    requires whole == left + rest && rest == mid + right && mid == []
    ensures whole == left + right
  {
  }

  /** A directory that cannot be read contributes nothing, and its siblings are still visited. */
  lemma UnreadableDirectorySkipped(fs: FS, dir: string, names: seq<Name>, i: nat)
    requires i < |names|
    requires EntryMode(fs, Child(dir, names[i])) == Directory && ReadDir(fs, Child(dir, names[i])).Err?
    ensures Children(fs, dir, names) == Children(fs, dir, names[..i]) + Children(fs, dir, names[i + 1..])
  {
    ChildrenSingle(fs, dir, names[i]);
    ChildrenWithout(fs, dir, names, i);
  }

  // ---------------------------------------------------------------------------
  // No path is emitted twice
  // ---------------------------------------------------------------------------

  /** Following entry names from a path other than "." or "/" stays at or beneath it. */
  lemma {:induction false} DescendBelow(c: string, ns: seq<Name>)
    requires c != "." && c != [Separator]
    ensures Below(Descend(c, ns), c)
    decreases |ns|
  {
    if ns != [] {
      var next := Child(c, ns[0]);
      ChildBelow(c, ns[0]);
      ChildProper(c, ns[0]);
      DescendBelow(next, ns[1..]);
      BelowTransitive(Descend(c, ns), next, c);
    }
  }

  /** Everything the visit of an entry emits lies at or beneath that entry. */
  lemma VisitBelow(fs: FS, dir: string, n: Name)
    ensures forall p :: p in Visit(fs, Child(dir, n), n, EntryMode(fs, Child(dir, n))) ==> Below(p, Child(dir, n))
  {
    var child := Child(dir, n);
    VisitVisible(fs, child, n, EntryMode(fs, child));
    ChildProper(dir, n);
    forall p | p in Visit(fs, child, n, EntryMode(fs, child))
      ensures Below(p, child)
    {
      var ns: seq<Name> :| p == Descend(child, ns);
      DescendBelow(child, ns);
    }
  }

  /** Everything the entries of dir emit lies at or beneath one of them. */
  lemma ChildrenBelow(fs: FS, dir: string, names: seq<Name>, p: string)
    requires p in Children(fs, dir, names)
    ensures exists m :: m in names && Below(p, Child(dir, m))
  {
    ChildrenVisible(fs, dir, names);
    var ns: seq<Name> :| |ns| > 0 && ns[0] in names && p == Descend(dir, ns);
    ChildProper(dir, ns[0]);
    DescendBelow(Child(dir, ns[0]), ns[1..]);
  }

  lemma {:induction false} VisitNoDuplicates(fs: FS, path: string, name: Name, mode: Mode)
    requires DistinctNames(fs)
    ensures NoDuplicates(Visit(fs, path, name, mode))
    decreases Rank(fs, path, mode), 1
  {
    if mode == Directory && !IsHidden(name) {
      match ReadDir(fs, path)
      case Err(_) =>
      case Ok(names) =>
        ReadDirDistinct(fs, path);
        ChildrenNoDuplicates(fs, path, names);
    }
  }

  /**
   * The entries of a directory whose names are distinct emit no path twice:
   * each entry's emissions lie beneath it, apart from its siblings'.
   */
  lemma {:induction false} ChildrenNoDuplicates(fs: FS, dir: string, names: seq<Name>)
    requires DistinctNames(fs) && NoDuplicates(names)
    ensures NoDuplicates(Children(fs, dir, names))
    decreases Deeper(fs, dir), |names| + 1
  {
    if names != [] {
      var init := names[..|names| - 1];
      var n := names[|names| - 1];
      var child := Child(dir, n);
      var last := Visit(fs, child, n, EntryMode(fs, child));
      RankBelow(fs, dir, n);
      ChildrenNoDuplicates(fs, dir, init);
      VisitNoDuplicates(fs, child, n, EntryMode(fs, child));
      VisitBelow(fs, dir, n);
      forall p | p in Children(fs, dir, init)
        ensures p !in last
      {
        ChildrenBelow(fs, dir, init, p);
        var m :| m in init && Below(p, Child(dir, m));
        assert m != n by {
          var i :| 0 <= i < |init| && init[i] == m;
          assert names[i] == m;
        }
        ChildrenApart(dir, m, n, p);
      }
      NoDuplicatesConcat(Children(fs, dir, init), last);
    }
  }

  /**
   * When no directory lists a name twice, the walk emits no path twice: no
   * entry is visited more than once.
   */
  lemma WalkNoDuplicates(fs: FS, root: string)
    requires DistinctNames(fs)
    ensures NoDuplicates(Walk(fs, root))
  {
    if Lstat(fs, root).Ok? && ModeOf(Lstat(fs, root).value) == Directory && ReadDir(fs, root).Ok? {
      ReadDirDistinct(fs, root);
      ChildrenNoDuplicates(fs, Clean(root), ReadDir(fs, root).value);
    }
  }

  // ---------------------------------------------------------------------------
  // ListDir
  // ---------------------------------------------------------------------------

  /** The includable entries of the cleaned directory dir among names, as paths, in listing order. */
  function IncludableEntries(fs: FS, dir: string, names: seq<Name>): (r: seq<string>)
  {
    if names == [] then []
    else
      var full := Child(dir, names[|names| - 1]);
      IncludableEntries(fs, dir, names[..|names| - 1]) + (if Includable(fs, full) then [full] else [])
  }

  /** What ListDir returns for dir: entries are joined to dir with filepath.Join (Paths.JoinName). */
  function Listing(fs: FS, dir: string): (r: Result<seq<string>, Error>)
  {
    match ReadDir(fs, dir)
    case Err(e) => Err(Error.Listing(dir, e))
    case Ok(names) => Ok(IncludableEntries(fs, Clean(dir), names))
  }

  lemma IncludableEntriesExactly(fs: FS, dir: string, names: seq<Name>, p: string)
    ensures p in IncludableEntries(fs, dir, names)
        <==> exists n :: n in names && p == Child(dir, n) && Includable(fs, p)
  {
    if p in IncludableEntries(fs, dir, names) {
      IncludableEntriesSound(fs, dir, names, p);
    }
    if exists n :: n in names && p == Child(dir, n) && Includable(fs, p) {
      var n :| n in names && p == Child(dir, n) && Includable(fs, p);
      IncludableEntriesContains(fs, dir, names, n);
    }
  }

  lemma {:induction false} IncludableEntriesSound(fs: FS, dir: string, names: seq<Name>, p: string)
    requires p in IncludableEntries(fs, dir, names)
    ensures exists n :: n in names && p == Child(dir, n) && Includable(fs, p)
  {
    var init := names[..|names| - 1];
    var last := names[|names| - 1];
    if p in IncludableEntries(fs, dir, init) {
      IncludableEntriesSound(fs, dir, init, p);
      var n :| n in init && p == Child(dir, n) && Includable(fs, p);
      assert n in names;
    } else {
      assert last in names;
    }
  }

  lemma {:induction false} IncludableEntriesContains(fs: FS, dir: string, names: seq<Name>, n: Name)
    requires n in names && Includable(fs, Child(dir, n))
    ensures Child(dir, n) in IncludableEntries(fs, dir, names)
  {
    var init := names[..|names| - 1];
    if names[|names| - 1] != n {
      assert n in init by {
        var i :| 0 <= i < |names| && names[i] == n;
        assert init[i] == n;
      }
      IncludableEntriesContains(fs, dir, init, n);
    }
  }

  /**
   * A listing holds exactly the includable direct entries of dir: each is
   * filepath.Join of dir and one of its names, hidden or not, and nothing deeper.
   */
  lemma ListingExactly(fs: FS, dir: string, names: seq<Name>, p: string)
    requires ReadDir(fs, dir) == Ok(names)
    ensures Listing(fs, dir).Ok?
    ensures p in Listing(fs, dir).value <==> exists n :: n in names && p == Join(dir, n) && Includable(fs, p)
  {
    IncludableEntriesExactly(fs, Clean(dir), names, p);
    forall n: Name {
      JoinName(dir, n);
    }
  }

  lemma {:induction false} IncludableEntriesNoDuplicates(fs: FS, dir: string, names: seq<Name>)
    requires NoDuplicates(names)
    ensures NoDuplicates(IncludableEntries(fs, dir, names))
  {
    if names != [] {
      var init := names[..|names| - 1];
      var n := names[|names| - 1];
      var full := Child(dir, n);
      IncludableEntriesNoDuplicates(fs, dir, init);
      forall p | p in IncludableEntries(fs, dir, init)
        ensures p != full
      {
        IncludableEntriesSound(fs, dir, init, p);
        var m :| m in init && p == Child(dir, m) && Includable(fs, p);
        assert m != n by {
          var i :| 0 <= i < |init| && init[i] == m;
          assert names[i] == m;
        }
        ChildrenApart(dir, m, n, p);
      }
      NoDuplicatesConcat(IncludableEntries(fs, dir, init), if Includable(fs, full) then [full] else []);
    }
  }

  /** When no directory lists a name twice, a listing holds no path twice. */
  lemma ListingNoDuplicates(fs: FS, dir: string)
    requires DistinctNames(fs)
    ensures Listing(fs, dir).Ok? ==> NoDuplicates(Listing(fs, dir).value)
  {
    if ReadDir(fs, dir).Ok? {
      ReadDirDistinct(fs, dir);
      IncludableEntriesNoDuplicates(fs, Clean(dir), ReadDir(fs, dir).value);
    }
  }

  /** walker.ListDir: the includable direct entries of dir; fails exactly when dir cannot be read. */
  method ListDir(fs: FS, dir: string) returns (r: Result<seq<string>, Error>)
    ensures r == Listing(fs, dir)
    ensures r.Err? <==> ReadDir(fs, dir).Err?
  {
    var entries := ReadDir(fs, dir);
    if entries.Err? {
      return Err(Error.Listing(dir, entries.error));
    }
    var results := CollectIncludable(fs, Clean(dir), entries.value);
    return Ok(results);
  }

  /** The loop of ListDir over the entries names of the cleaned directory dir. */
  method CollectIncludable(fs: FS, dir: string, names: seq<Name>) returns (results: seq<string>)
    ensures results == IncludableEntries(fs, dir, names)
  {
    results := [];
    var i := 0;
    while i < |names|
      invariant 0 <= i <= |names|
      invariant results == IncludableEntries(fs, dir, names[..i])
    {
      var full := Child(dir, names[i]);  // filepath.Join(dir, name)
      IncludableEntriesStep(fs, dir, names, i);
      if IsIncludableFile(fs, full, EntryMode(fs, full)) {
        results := results + [full];
      }
      i := i + 1;
    }
    assert names[..|names|] == names;
  }

  /** One more entry considered: the listing of names[..i + 1] extends that of names[..i]. */
  lemma IncludableEntriesStep(fs: FS, dir: string, names: seq<Name>, i: nat)
    requires i < |names|
    ensures IncludableEntries(fs, dir, names[..i + 1])
         == IncludableEntries(fs, dir, names[..i])
            + (if Includable(fs, Child(dir, names[i])) then [Child(dir, names[i])] else [])
  {
    assert names[..i + 1][..i] == names[..i];
  }
}
