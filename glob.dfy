/**
 * Argument resolution: tilde expansion, the split of a glob pattern into a
 * literal base directory and a glob, the post-filter of glob matches, prefix
 * matching, and the precedence chain that picks one of them for an argument.
 */
module Glob {
  import opened Wrappers
  import opened Paths
  import opened FileSystem
  import opened Walker

  // ---------------------------------------------------------------------------
  // containsMeta
  // ---------------------------------------------------------------------------

  /** The glob metacharacters, '{' included for brace alternation. */
  predicate IsMeta(c: char)
  {
    c == '*' || c == '?' || c == '[' || c == '{'
  }

  /** containsMeta: whether s holds a glob metacharacter. */
  function ContainsMeta(s: string): (b: bool)
    ensures b <==> exists i :: 0 <= i < |s| && IsMeta(s[i])
  {
    if s == [] then false
    else if IsMeta(s[0]) then true
    else
      var rest := ContainsMeta(s[1..]);
      assert forall i :: 0 < i < |s| ==> s[i] == s[1..][i - 1];
      rest
  }

  /** A string has a metacharacter exactly when one of its two pieces does. */
  lemma ContainsMetaConcat(a: string, b: string)
    ensures ContainsMeta(a + b) <==> ContainsMeta(a) || ContainsMeta(b)
  {
    if ContainsMeta(a + b) {
      var i :| 0 <= i < |a + b| && IsMeta((a + b)[i]);
      if i >= |a| {
        assert b[i - |a|] == (a + b)[i];
      }
    }
    if ContainsMeta(a) {
      var i :| 0 <= i < |a| && IsMeta(a[i]);
      assert (a + b)[i] == a[i];
    }
    if ContainsMeta(b) {
      var i :| 0 <= i < |b| && IsMeta(b[i]);
      assert (a + b)[|a| + i] == b[i];
    }
  }

  /** Joining parts with separators adds no metacharacter: the join has one exactly when a part has. */
  lemma {:induction false} MetaJoin(parts: seq<string>)
    ensures ContainsMeta(JoinParts(parts)) <==> exists k :: 0 <= k < |parts| && ContainsMeta(parts[k])
  {
    if |parts| == 1 {
    } else if |parts| > 1 {
      MetaJoin(parts[1..]);
      ContainsMetaConcat(parts[0], [Separator]);
      ContainsMetaConcat(parts[0] + [Separator], JoinParts(parts[1..]));
      assert !ContainsMeta([Separator]);
      if exists k :: 0 <= k < |parts| && ContainsMeta(parts[k]) {
        var k :| 0 <= k < |parts| && ContainsMeta(parts[k]);
        if k > 0 {
          assert parts[1..][k - 1] == parts[k];
        }
      }
      if exists k :: 0 <= k < |parts[1..]| && ContainsMeta(parts[1..][k]) {
        var k :| 0 <= k < |parts[1..]| && ContainsMeta(parts[1..][k]);
        assert parts[k + 1] == parts[1..][k];
      }
    }
  }

  // ---------------------------------------------------------------------------
  // expandTilde
  // ---------------------------------------------------------------------------

  /** The pattern starts with the home-directory shorthand: exactly "~", or "~/". */
  predicate UsesTilde(pattern: string)
  {
    pattern == "~" || HasPrefix(pattern, "~/")
  }

  /**
   * expandTilde: a leading "~" is replaced by the home directory, which is
   * None when it cannot be determined; any other pattern is left alone.
   */
  function ExpandTilde(home: Option<string>, pattern: string): (r: Result<string, Error>)
    ensures !UsesTilde(pattern) ==> r == Ok(pattern)
    ensures r.Err? <==> UsesTilde(pattern) && home.None?
    ensures r.Err? ==> r.error == HomeUnavailable
    ensures r.Ok? && UsesTilde(pattern) ==>
      home.Some? && HasPrefix(r.value, home.value) && "~" + r.value[|home.value|..] == pattern
    ensures r.Ok? && HasSuffix(pattern, "/") ==> HasSuffix(r.value, "/")
  {
    if UsesTilde(pattern) then
      match home
      case None => Err(HomeUnavailable)
      case Some(h) =>
        assert pattern[..1] == "~";
        assert "~" + pattern[1..] == pattern;
        if |pattern| > 1 then Ok(h + pattern[1..]) else Ok(h)
    else Ok(pattern)
  }

  // ---------------------------------------------------------------------------
  // splitPattern
  // ---------------------------------------------------------------------------

  /** The index of the first part at or after from that holds a metacharacter, or |parts|. */
  function MetaIndex(parts: seq<string>, from: nat): (i: nat)
    requires from <= |parts|
    ensures from <= i <= |parts|
    ensures forall k :: from <= k < i ==> !ContainsMeta(parts[k])
    ensures i < |parts| ==> ContainsMeta(parts[i])
    decreases |parts| - from
  {
    if from == |parts| || ContainsMeta(parts[from]) then from else MetaIndex(parts, from + 1)
  }

  /** The first part splitPattern scans: 1 past the empty part a rooted path splits off. */
  function ScanStart(isAbs: bool, parts: seq<string>): (r: nat)
  {
    if isAbs && |parts| > 0 && parts[0] == "" then 1 else 0
  }

  /** What splitPattern returns for pattern: the base directory and the glob relative to it. */
  function GlobSplit(pattern: string): (r: (string, string))
  {
    SplitCleaned(Clean(pattern))
  }

  /** splitPattern's result, given the cleaned pattern c. */
  function SplitCleaned(c: string): (r: (string, string))
  {
    var isAbs := IsAbs(c);
    var parts := SplitPath(c);
    var start := ScanStart(isAbs, parts);
    var idx := MetaIndex(parts, start);
    if idx == start then
      if isAbs then ([Separator], JoinParts(parts[start..])) else (".", c)
    else
      var joined := JoinParts(parts[..idx]);
      var base := if joined == "" then [Separator] else joined;
      if idx == |parts| then (Paths.Dir(c), Base(c))
      else (base, JoinParts(parts[idx..]))
  }

  /** splitPattern: scan the cleaned pattern's parts for the first one with a metacharacter. */
  method SplitPattern(pattern: string) returns (base: string, glob: string)
    ensures (base, glob) == GlobSplit(pattern)
  {
    var c := Clean(pattern);
    var isAbs := IsAbs(c);
    var parts := SplitPath(c);
    var start := 0;
    if isAbs && |parts| > 0 && parts[0] == "" {
      start := 1;
    }
    var idx := start;
    while idx < |parts|
      invariant start <= idx <= |parts|
      invariant MetaIndex(parts, idx) == MetaIndex(parts, start)
    {
      if ContainsMeta(parts[idx]) {
        break;
      }
      idx := idx + 1;
    }
    if idx == start {
      if isAbs {
        return [Separator], JoinParts(parts[start..]);
      }
      return ".", c;
    }
    base := JoinParts(parts[..idx]);
    if base == "" {
      base := [Separator];
    }
    if idx == |parts| {
      return Paths.Dir(c), Base(c);
    }
    glob := JoinParts(parts[idx..]);
  }

  /** The directory of a path without metacharacters has none either. */
  lemma DirLiteral(c: string)
    requires !ContainsMeta(c)
    ensures !ContainsMeta(Paths.Dir(c))
  {
    var dir := Paths.Dir(c);
    forall i | 0 <= i < |dir|
      ensures !IsMeta(dir[i])
    {
      DirChars(c, i);
    }
  }

  lemma FallbackCleaned(c: string)
    requires !ContainsMeta(c)
    ensures SplitCleaned(c) == (Paths.Dir(c), Base(c))
  {
    var parts := SplitPath(c);
    var start := ScanStart(IsAbs(c), parts);
    if IsAbs(c) {
      assert SplitPath(c) == [""] + SplitPath(c[1..]);
    }
    MetaJoin(parts);
    JoinSplit(c);
    assert MetaIndex(parts, start) == |parts|;
    SplitFallbackCase(c);
  }

  /** The branch of splitPattern where no part after the root holds a metacharacter. */
  lemma SplitFallbackCase(c: string)
    requires ScanStart(IsAbs(c), SplitPath(c)) < |SplitPath(c)|
    requires MetaIndex(SplitPath(c), ScanStart(IsAbs(c), SplitPath(c))) == |SplitPath(c)|
    ensures SplitCleaned(c) == (Paths.Dir(c), Base(c))
  {
  }

  /**
   * When cleaning leaves no metacharacter in the pattern, splitPattern falls
   * back to the cleaned pattern's directory and last element.
   */
  lemma SplitLiteralFallback(pattern: string)
    requires !ContainsMeta(Clean(pattern))
    ensures GlobSplit(pattern) == (Paths.Dir(Clean(pattern)), Base(Clean(pattern)))
  {
    FallbackCleaned(Clean(pattern));
  }

  lemma BaseLiteralCleaned(c: string)
    ensures SplitCleaned(c).0 != ""
    ensures !ContainsMeta(SplitCleaned(c).0)
  {
    var parts := SplitPath(c);
    var start := ScanStart(IsAbs(c), parts);
    var idx := MetaIndex(parts, start);
    assert !ContainsMeta([Separator]) && !ContainsMeta(".");
    if idx != start {
      if idx == |parts| {
        BaseLiteralFallback(c);
      } else {
        BaseLiteralInner(c, idx);
      }
    }
  }

  lemma BaseLiteralFallback(c: string)
    requires ScanStart(IsAbs(c), SplitPath(c)) < |SplitPath(c)|
    requires MetaIndex(SplitPath(c), ScanStart(IsAbs(c), SplitPath(c))) == |SplitPath(c)|
    ensures Paths.Dir(c) != "" && !ContainsMeta(Paths.Dir(c))
    ensures SplitCleaned(c).0 == Paths.Dir(c)
  {
    NoMetaParts(c);
    DirLiteral(c);
    DirNonEmpty(c);
    SplitFallbackCase(c);
  }

  /** When no part after the root holds a metacharacter, neither does c. */
  lemma NoMetaParts(c: string)
    requires MetaIndex(SplitPath(c), ScanStart(IsAbs(c), SplitPath(c))) == |SplitPath(c)|
    ensures !ContainsMeta(c)
  {
    var parts := SplitPath(c);
    var start := ScanStart(IsAbs(c), parts);
    forall k | 0 <= k < |parts|
      ensures !ContainsMeta(parts[k])
    {
      if k < start {
        assert parts[k] == "";
      }
    }
    MetaJoin(parts);
    JoinSplit(c);
  }

  lemma BaseLiteralInner(c: string, idx: nat)
    requires ScanStart(IsAbs(c), SplitPath(c)) < idx < |SplitPath(c)|
    requires idx == MetaIndex(SplitPath(c), ScanStart(IsAbs(c), SplitPath(c)))
    ensures SplitCleaned(c).0 != ""
    ensures !ContainsMeta(SplitCleaned(c).0)
  {
    var parts := SplitPath(c);
    var start := ScanStart(IsAbs(c), parts);
    var prefix := parts[..idx];
    forall k | 0 <= k < |prefix|
      ensures !ContainsMeta(prefix[k])
    {
      if k >= start {
        assert prefix[k] == parts[k];
      } else {
        assert prefix[k] == "";
      }
    }
    MetaJoin(prefix);
    assert !ContainsMeta([Separator]);
  }

  /** The base splitPattern returns is never empty and never holds a metacharacter. */
  lemma SplitBaseLiteral(pattern: string)
    ensures GlobSplit(pattern).0 != ""
    ensures !ContainsMeta(GlobSplit(pattern).0)
  {
    BaseLiteralCleaned(Clean(pattern));
  }

  /** The first component of c, after the root, holds a metacharacter. */
  predicate LeadsWithMeta(c: string)
  {
    var parts := SplitPath(c);
    var start := ScanStart(IsAbs(c), parts);
    start < |parts| && ContainsMeta(parts[start])
  }

  /** The split of c is its components, after an empty first part when c is rooted. */
  ghost predicate CleanForm(c: string)
  {
    var parts := SplitPath(c);
    var start := ScanStart(IsAbs(c), parts);
    start < |parts| && (IsAbs(c) ==> start == 1)
    && forall k :: start <= k < |parts| ==> IsComponent(parts[k])
  }

  lemma CleanFormOfParts(c: string, rooted: bool, out: seq<string>)
    requires out != [] && IsAbs(c) == rooted
    requires forall i :: 0 <= i < |out| ==> IsComponent(out[i])
    requires SplitPath(c) == if rooted then [""] + out else out
    ensures CleanForm(c)
  {
    var parts := SplitPath(c);
    if rooted {
      forall k | 1 <= k < |parts|
        ensures IsComponent(parts[k])
      {
        assert parts[k] == out[k - 1];
      }
    }
  }

  lemma CleanFormOfClean(p: string)
    ensures Clean(p) == [Separator] || Clean(p) == "." || CleanForm(Clean(p))
  {
    CleanSplit(p);
    CleanShape(p);
    if CleanParts(p) != [] {
      CleanFormOfParts(Clean(p), IsAbs(p), CleanParts(p));
    }
  }

  lemma RoundTripCleaned(c: string)
    requires ContainsMeta(c) && CleanForm(c)
    ensures Child(SplitCleaned(c).0, SplitCleaned(c).1) == c
    ensures ContainsMeta(SplitPath(SplitCleaned(c).1)[0])
    ensures LeadsWithMeta(c) ==> SplitCleaned(c).0 == if IsAbs(c) then [Separator] else "."
    ensures !LeadsWithMeta(c) ==> SplitCleaned(c).0 + [Separator] + SplitCleaned(c).1 == c
  {
    var parts := SplitPath(c);
    var start := ScanStart(IsAbs(c), parts);
    var idx := MetaIndex(parts, start);
    MetaJoin(parts);
    JoinSplit(c);
    assert idx < |parts| by {
      var k :| 0 <= k < |parts| && ContainsMeta(parts[k]);
      if k < start {
        assert parts[0] == "";
      }
    }
    if idx == start {
      RoundTripLeading(c, idx);
    } else {
      RoundTripInner(c, idx);
    }
  }

  /** The round trip when the first component after the root holds the metacharacter. */
  lemma RoundTripLeading(c: string, idx: nat)
    requires CleanForm(c) && JoinParts(SplitPath(c)) == c
    requires idx == ScanStart(IsAbs(c), SplitPath(c)) == MetaIndex(SplitPath(c), idx) && idx < |SplitPath(c)|
    ensures Child(SplitCleaned(c).0, SplitCleaned(c).1) == c
    ensures ContainsMeta(SplitPath(SplitCleaned(c).1)[0])
    ensures SplitCleaned(c).0 == if IsAbs(c) then [Separator] else "."
  {
    var parts := SplitPath(c);
    if IsAbs(c) {
      var rest := parts[1..];
      assert parts == [""] + rest;
      SplitJoin(rest);
      JoinConcat([""], rest);
    }
  }

  /** The round trip when literal components precede the first one with a metacharacter. */
  lemma RoundTripInner(c: string, idx: nat)
    requires CleanForm(c) && JoinParts(SplitPath(c)) == c
    requires ScanStart(IsAbs(c), SplitPath(c)) < idx < |SplitPath(c)|
    requires idx == MetaIndex(SplitPath(c), ScanStart(IsAbs(c), SplitPath(c)))
    ensures Child(SplitCleaned(c).0, SplitCleaned(c).1) == c
    ensures ContainsMeta(SplitPath(SplitCleaned(c).1)[0])
    ensures !LeadsWithMeta(c) && SplitCleaned(c).0 + [Separator] + SplitCleaned(c).1 == c
  {
    var parts := SplitPath(c);
    var lead := parts[..idx];
    var rest := parts[idx..];
    assert lead + rest == parts;
    JoinConcat(lead, rest);
    SplitJoin(rest);
    assert rest[0] == parts[idx];
    LeadIsDirectory(c, idx);
  }

  /** The literal leading parts of a cleaned path, when there is one past the root, join to neither "", "." nor "/". */
  lemma LeadIsDirectory(c: string, idx: nat)
    requires CleanForm(c)
    requires ScanStart(IsAbs(c), SplitPath(c)) < idx <= |SplitPath(c)|
    ensures var joined := JoinParts(SplitPath(c)[..idx]);
      joined != "" && joined != "." && joined != [Separator]
  {
    var parts := SplitPath(c);
    var lead := parts[..idx];
    var joined := JoinParts(lead);
    if IsAbs(c) {
      var tail := lead[1..];
      assert lead == [""] + tail;
      JoinConcat([""], tail);
      assert IsComponent(tail[0]);
      JoinFirst(tail);
    } else {
      assert IsComponent(lead[0]);
      JoinFirst(lead);
      if |lead| == 1 {
        assert joined == lead[0];
      } else {
        assert joined == lead[0] + [Separator] + JoinParts(lead[1..]);
      }
    }
  }

  /**
   * For a cleaned pattern that still holds a metacharacter, the glob starts at
   * the first component with a metacharacter, and base and glob put back
   * together give the cleaned pattern: the glob alone when a relative pattern
   * leads with a metacharacter (base "."), "/" + glob when a rooted one does
   * (base "/"), and base + "/" + glob otherwise.
   */
  lemma SplitRoundTrip(pattern: string)
    requires ContainsMeta(Clean(pattern))
    ensures Child(GlobSplit(pattern).0, GlobSplit(pattern).1) == Clean(pattern)
    ensures ContainsMeta(SplitPath(GlobSplit(pattern).1)[0])
    ensures LeadsWithMeta(Clean(pattern)) ==>
      GlobSplit(pattern).0 == if IsAbs(Clean(pattern)) then [Separator] else "."
    ensures !LeadsWithMeta(Clean(pattern)) ==>
      GlobSplit(pattern).0 + [Separator] + GlobSplit(pattern).1 == Clean(pattern)
  {
    var c := Clean(pattern);
    CleanFormOfClean(pattern);
    assert !ContainsMeta([Separator]) && !ContainsMeta(".");
    RoundTripCleaned(c);
  }

  // ---------------------------------------------------------------------------
  // expandGlob: the post-filter of the matcher's results
  // ---------------------------------------------------------------------------

  /**
   * doublestar.Glob over os.DirFS(base): the paths relative to base that glob
   * matches, or None when glob is malformed. Its matching rules are not part
   * of this model, so the matcher is a parameter.
   */
  type Matcher = (string, string) -> Option<seq<string>>

  /** Whether expandGlob keeps the candidate path full: lstat succeeds and it is includable. */
  predicate KeepsMatch(fs: FS, full: string)
  {
    match Lstat(fs, full)
    case Err(_) => false
    case Ok(info) => IsIncludableFile(fs, full, ModeOf(info))
  }

  /** Each match joined to the base directory, in order. */
  function Joined(base: string, ms: seq<string>): (r: seq<string>)
  {
    if ms == [] then [] else Joined(base, ms[..|ms| - 1]) + [Join(base, ms[|ms| - 1])]
  }

  /** The candidate paths expandGlob keeps, in order. */
  function Candidates(fs: FS, fulls: seq<string>): (r: seq<string>)
  {
    if fulls == [] then []
    else
      var full := fulls[|fulls| - 1];
      Candidates(fs, fulls[..|fulls| - 1]) + (if KeepsMatch(fs, full) then [full] else [])
  }

  /** What expandGlob returns for pattern. */
  function GlobExpansion(fs: FS, matcher: Matcher, pattern: string): (r: Result<seq<string>, Error>)
  {
    var (base, glob) := GlobSplit(pattern);
    match matcher(base, glob)
    case None => Err(BadPattern(pattern))
    case Some(ms) => Ok(Candidates(fs, Joined(base, ms)))
  }

  /** A kept candidate is one whose lstat succeeds and that is includable. */
  lemma KeepsMatchIncludable(fs: FS, p: string)
    ensures KeepsMatch(fs, p) <==> Lstat(fs, p).Ok? && Includable(fs, p)
  {
  }

  lemma {:induction false} CandidatesExactly(fs: FS, fulls: seq<string>, p: string)
    ensures p in Candidates(fs, fulls) <==> p in fulls && KeepsMatch(fs, p)
  {
    if fulls != [] {
      var init := fulls[..|fulls| - 1];
      CandidatesExactly(fs, init, p);
      assert fulls == init + [fulls[|fulls| - 1]];
    }
  }

  lemma {:induction false} JoinedSound(base: string, ms: seq<string>, p: string)
    requires p in Joined(base, ms)
    ensures exists m :: m in ms && p == Join(base, m)
  {
    var init := ms[..|ms| - 1];
    if p in Joined(base, init) {
      JoinedSound(base, init, p);
      var m :| m in init && p == Join(base, m);
      assert m in ms;
    } else {
      assert ms[|ms| - 1] in ms;
    }
  }

  lemma {:induction false} JoinedContains(base: string, ms: seq<string>, m: string)
    requires m in ms
    ensures Join(base, m) in Joined(base, ms)
  {
    var init := ms[..|ms| - 1];
    if ms[|ms| - 1] != m {
      assert m in init by {
        var i :| 0 <= i < |ms| && ms[i] == m;
        assert init[i] == m;
      }
      JoinedContains(base, init, m);
    }
  }

  /** A path is among the kept candidates for ms exactly when some match joins to it and it is kept. */
  lemma GlobCandidatesExactly(fs: FS, base: string, ms: seq<string>, p: string)
    ensures p in Candidates(fs, Joined(base, ms)) <==>
      (exists m :: m in ms && p == Join(base, m)) && Lstat(fs, p).Ok? && Includable(fs, p)
  {
    KeepsMatchIncludable(fs, p);
    CandidatesExactly(fs, Joined(base, ms), p);
    if p in Joined(base, ms) {
      JoinedSound(base, ms, p);
    }
    if exists m :: m in ms && p == Join(base, m) {
      var m :| m in ms && p == Join(base, m);
      JoinedContains(base, ms, m);
    }
  }

  /** One more match considered: the candidates kept from ms[..i + 1] extend those from ms[..i]. */
  lemma GlobCandidatesStep(fs: FS, base: string, ms: seq<string>, i: nat)
    requires i < |ms|
    ensures Candidates(fs, Joined(base, ms[..i + 1]))
         == Candidates(fs, Joined(base, ms[..i])) + (if KeepsMatch(fs, Join(base, ms[i])) then [Join(base, ms[i])] else [])
  {
    assert ms[..i + 1][..i] == ms[..i];
    var fulls := Joined(base, ms[..i]);
    var full := Join(base, ms[i]);
    assert Joined(base, ms[..i + 1]) == fulls + [full];
    assert (fulls + [full])[..|fulls|] == fulls;
  }

  /**
   * expandGlob fails exactly when the matcher rejects the glob; otherwise it
   * returns exactly the matches, joined to the base, whose lstat succeeds and
   * that are includable: a candidate that cannot be looked up is dropped.
   */
  lemma GlobExpansionExactly(fs: FS, matcher: Matcher, pattern: string, base: string, glob: string, p: string)
    requires (base, glob) == GlobSplit(pattern)
    ensures GlobExpansion(fs, matcher, pattern).Err? <==> matcher(base, glob).None?
    ensures GlobExpansion(fs, matcher, pattern).Err? ==> GlobExpansion(fs, matcher, pattern).error == BadPattern(pattern)
    ensures GlobExpansion(fs, matcher, pattern).Ok? ==>
      (p in GlobExpansion(fs, matcher, pattern).value <==>
        (exists m :: m in matcher(base, glob).value && p == Join(base, m)) && Lstat(fs, p).Ok? && Includable(fs, p))
  {
    if matcher(base, glob).Some? {
      GlobCandidatesExactly(fs, base, matcher(base, glob).value, p);
    }
  }

  lemma {:induction false} CandidatesNoDuplicates(fs: FS, fulls: seq<string>)
    requires NoDuplicates(fulls)
    ensures NoDuplicates(Candidates(fs, fulls))
  {
    if fulls != [] {
      var init := fulls[..|fulls| - 1];
      var full := fulls[|fulls| - 1];
      CandidatesNoDuplicates(fs, init);
      forall p | p in Candidates(fs, init)
        ensures p != full
      {
        CandidatesExactly(fs, init, p);
        var i :| 0 <= i < |init| && init[i] == p;
        assert fulls[i] == p;
      }
      NoDuplicatesConcat(Candidates(fs, init), if KeepsMatch(fs, full) then [full] else []);
    }
  }

  /** expandGlob keeps no path twice unless the matcher's matches join to one path twice. */
  lemma GlobExpansionNoDuplicates(fs: FS, matcher: Matcher, pattern: string, base: string, glob: string)
    requires (base, glob) == GlobSplit(pattern)
    requires matcher(base, glob).Some? && NoDuplicates(Joined(base, matcher(base, glob).value))
    ensures GlobExpansion(fs, matcher, pattern).Ok?
    ensures NoDuplicates(GlobExpansion(fs, matcher, pattern).value)
  {
    CandidatesNoDuplicates(fs, Joined(base, matcher(base, glob).value));
  }

  /** expandGlob: split the pattern, run the matcher, and keep the includable matches. */
  method ExpandGlob(fs: FS, matcher: Matcher, pattern: string) returns (r: Result<seq<string>, Error>)
    ensures r == GlobExpansion(fs, matcher, pattern)
  {
    var base, glob := SplitPattern(pattern);
    var found := matcher(base, glob);
    if found.None? {
      return Err(BadPattern(pattern));
    }
    var results := KeepMatches(fs, base, found.value);
    return Ok(results);
  }

  /** The loop of expandGlob over the matches: join each to base and keep it if includable. */
  method KeepMatches(fs: FS, base: string, matches: seq<string>) returns (results: seq<string>)
    ensures results == Candidates(fs, Joined(base, matches))
  {
    results := [];
    var i := 0;
    while i < |matches|
      invariant 0 <= i <= |matches|
      invariant results == Candidates(fs, Joined(base, matches[..i]))
    {
      var full := Join(base, matches[i]);
      GlobCandidatesStep(fs, base, matches, i);
      var info := Lstat(fs, full);
      if info.Err? {
        i := i + 1;
        continue;  // cannot be looked up: skipped
      }
      if IsIncludableFile(fs, full, ModeOf(info.value)) {
        results := results + [full];
      }
      i := i + 1;
    }
    assert matches[..|matches|] == matches;
  }

  // ---------------------------------------------------------------------------
  // expandPrefix
  // ---------------------------------------------------------------------------

  /**
   * Whether expandPrefix treats the entry full, whose directory entry reports
   * mode, as a directory: a symbolic link is followed, and one that cannot be
   * followed is skipped (None).
   */
  function EntryIsDir(fs: FS, full: string, mode: Mode): (r: Option<bool>)
  {
    if mode == Symlink then
      match Stat(fs, full)
      case Err(_) => None
      case Ok(target) => Some(target.Dir?)
    else Some(mode == Directory)
  }

  /** What expandPrefix adds for the entry n of the cleaned directory dir. */
  function PrefixEntry(fs: FS, dir: string, prefix: string, n: Name): (r: seq<string>)
  {
    if !HasPrefix(n, prefix) then []
    else
      var full := Child(dir, n);
      var mode := EntryMode(fs, full);
      match EntryIsDir(fs, full, mode)
      case None => []
      case Some(true) => Walk(fs, full)
      case Some(false) => if IsIncludableFile(fs, full, mode) then [full] else []
  }

  /** What expandPrefix adds for the entries names of the cleaned directory dir, in order. */
  function PrefixMatches(fs: FS, dir: string, prefix: string, names: seq<Name>): (r: seq<string>)
  {
    if names == [] then []
    else PrefixMatches(fs, dir, prefix, names[..|names| - 1]) + PrefixEntry(fs, dir, prefix, names[|names| - 1])
  }

  /**
   * What expandPrefix returns for path: the entries of Dir(path) whose names
   * start with Base(path). Entries are joined to the directory with
   * filepath.Join, which for the cleaned Dir(path) is Child (PrefixJoin).
   */
  function PrefixExpansion(fs: FS, path: string): (r: Result<seq<string>, Error>)
  {
    var dir := Paths.Dir(path);
    match ReadDir(fs, dir)
    case Err(e) => Err(ReadingDirectory(dir, e))
    case Ok(names) => Ok(PrefixMatches(fs, dir, Base(path), names))
  }

  /** Joining the directory expandPrefix reads with an entry name writes the entry out. */
  lemma PrefixJoin(path: string, n: Name)
    ensures Join(Paths.Dir(path), n) == Child(Paths.Dir(path), n)
  {
    var d := path[..LastSeparator(path) + 1];
    JoinName(Paths.Dir(path), n);
    CleanIdempotent(d);
  }

  /** expandPrefix: read Dir(path) and gather what each entry starting with Base(path) yields. */
  method ExpandPrefix(fs: FS, path: string) returns (r: Result<seq<string>, Error>)
    ensures r == PrefixExpansion(fs, path)
  {
    var dir := Paths.Dir(path);
    var prefix := Base(path);
    var entries := ReadDir(fs, dir);
    if entries.Err? {
      return Err(ReadingDirectory(dir, entries.error));
    }
    var results := CollectPrefix(fs, dir, prefix, entries.value);
    return Ok(results);
  }

  /** The loop of expandPrefix over the entries names of the cleaned directory dir. */
  method CollectPrefix(fs: FS, dir: string, prefix: string, names: seq<Name>) returns (results: seq<string>)
    ensures results == PrefixMatches(fs, dir, prefix, names)
  {
    results := [];
    var i := 0;
    while i < |names|
      invariant 0 <= i <= |names|
      invariant results == PrefixMatches(fs, dir, prefix, names[..i])
    {
      assert names[..i + 1][..i] == names[..i];
      var found := CollectEntry(fs, dir, prefix, names[i]);
      results := results + found;
      i := i + 1;
    }
    assert names[..|names|] == names;
  }

  /** One turn of expandPrefix's loop: what the entry n adds, where each early exit adds nothing. */
  method CollectEntry(fs: FS, dir: string, prefix: string, n: Name) returns (found: seq<string>)
    ensures found == PrefixEntry(fs, dir, prefix, n)
  {
    if !HasPrefix(n, prefix) {
      return [];
    }
    var full := Child(dir, n);  // filepath.Join(dir, name)
    var mode := EntryMode(fs, full);
    var isDir := false;
    if mode == Symlink {
      var resolved := Stat(fs, full);
      if resolved.Err? {
        return [];  // dangling link: skipped
      }
      isDir := resolved.value.Dir?;
    } else {
      isDir := mode == Directory;
    }
    if isDir {
      found := WalkCollect(fs, full);
      return;
    }
    if IsIncludableFile(fs, full, mode) {
      return [full];
    }
    return [];
  }

  /**
   * An entry whose name lacks the prefix is ignored, and so is a symbolic
   * link that cannot be followed.
   */
  lemma PrefixEntrySkips(fs: FS, dir: string, prefix: string, n: Name)
    ensures !HasPrefix(n, prefix) ==> PrefixEntry(fs, dir, prefix, n) == []
    ensures EntryMode(fs, Child(dir, n)) == Symlink && Stat(fs, Child(dir, n)).Err? ==> PrefixEntry(fs, dir, prefix, n) == []
  {
  }

  /** expandPrefix fails exactly when the parent directory cannot be read, and names that directory. */
  lemma PrefixExpansionFails(fs: FS, path: string)
    ensures PrefixExpansion(fs, path).Err? <==> ReadDir(fs, Paths.Dir(path)).Err?
    ensures PrefixExpansion(fs, path).Err? ==>
      PrefixExpansion(fs, path).error == ReadingDirectory(Paths.Dir(path), ReadDir(fs, Paths.Dir(path)).error)
  {
  }

  lemma PrefixEntryIncludable(fs: FS, dir: string, prefix: string, n: Name)
    ensures forall p :: p in PrefixEntry(fs, dir, prefix, n) ==> Includable(fs, p)
  {
    WalkIncludable(fs, Child(dir, n));
  }

  /**
   * Everything expandPrefix gathers comes from an entry whose name starts with
   * the prefix: it is the entry itself, includable, or a path the walk of the
   * entry emits (and so includable too).
   */
  lemma {:induction false} PrefixSound(fs: FS, dir: string, prefix: string, names: seq<Name>, p: string)
    requires p in PrefixMatches(fs, dir, prefix, names)
    ensures Includable(fs, p)
    ensures exists n :: n in names && HasPrefix(n, prefix) && (p == Child(dir, n) || p in Walk(fs, Child(dir, n)))
  {
    var init := names[..|names| - 1];
    var n := names[|names| - 1];
    if p in PrefixMatches(fs, dir, prefix, init) {
      PrefixSound(fs, dir, prefix, init, p);
      var m :| m in init && HasPrefix(m, prefix) && (p == Child(dir, m) || p in Walk(fs, Child(dir, m)));
      assert m in names;
    } else {
      PrefixEntryIncludable(fs, dir, prefix, n);
    }
  }

  lemma {:induction false} PrefixMatchesContains(fs: FS, dir: string, prefix: string, names: seq<Name>, n: Name, p: string)
    requires n in names && p in PrefixEntry(fs, dir, prefix, n)
    ensures p in PrefixMatches(fs, dir, prefix, names)
    decreases |names|
  {
    if names[|names| - 1] != n {
      assert n in names[..|names| - 1] by {
        var i :| 0 <= i < |names| && names[i] == n;
        assert names[..|names| - 1][i] == n;
      }
      PrefixMatchesContains(fs, dir, prefix, names[..|names| - 1], n, p);
    }
  }

  /**
   * Every entry whose name starts with the prefix is used: an includable one
   * is returned itself, and a directory is walked and all the walk emits is
   * returned (the walk of a link to a directory is empty).
   */
  lemma PrefixComplete(fs: FS, dir: string, prefix: string, names: seq<Name>, n: Name)
    requires n in names && HasPrefix(n, prefix)
    ensures Includable(fs, Child(dir, n)) ==> Child(dir, n) in PrefixMatches(fs, dir, prefix, names)
    ensures EntryIsDir(fs, Child(dir, n), EntryMode(fs, Child(dir, n))) == Some(true) ==>
      forall q :: q in Walk(fs, Child(dir, n)) ==> q in PrefixMatches(fs, dir, prefix, names)
  {
    var full := Child(dir, n);
    if Includable(fs, full) {
      IncludableNotDirectory(fs, full);
      PrefixMatchesContains(fs, dir, prefix, names, n, full);
    }
    if EntryIsDir(fs, full, EntryMode(fs, full)) == Some(true) {
      forall q | q in Walk(fs, full)
        ensures q in PrefixMatches(fs, dir, prefix, names)
      {
        PrefixMatchesContains(fs, dir, prefix, names, n, q);
      }
    }
  }

  /** Everything the walk of an entry of a cleaned directory emits lies at or beneath that entry. */
  lemma EntryWalkBelow(fs: FS, dir: string, n: Name)
    requires Clean(dir) == dir
    ensures forall p :: p in Walk(fs, Child(dir, n)) ==> Below(p, Child(dir, n))
  {
    var full := Child(dir, n);
    ChildClean(dir, n);
    ChildProper(dir, n);
    WalkSkipsHiddenDirectories(fs, full);
    forall p | p in Walk(fs, full)
      ensures Below(p, full)
    {
      if p != full {
        var ns: seq<Name> :| |ns| > 0 && p == Descend(Clean(full), ns) && VisibleTrail(ns);
        DescendBelow(full, ns);
      }
    }
  }

  /** What one entry yields holds no path twice and lies at or beneath the entry. */
  lemma PrefixEntryApart(fs: FS, dir: string, prefix: string, n: Name)
    requires DistinctNames(fs) && Clean(dir) == dir
    ensures NoDuplicates(PrefixEntry(fs, dir, prefix, n))
    ensures forall p :: p in PrefixEntry(fs, dir, prefix, n) ==> Below(p, Child(dir, n))
  {
    var full := Child(dir, n);
    if HasPrefix(n, prefix) && EntryIsDir(fs, full, EntryMode(fs, full)) == Some(true) {
      assert PrefixEntry(fs, dir, prefix, n) == Walk(fs, full);
      WalkNoDuplicates(fs, full);
      EntryWalkBelow(fs, dir, n);
    } else {
      assert PrefixEntry(fs, dir, prefix, n) == [] || PrefixEntry(fs, dir, prefix, n) == [full];
    }
  }

  /** Everything expandPrefix gathers lies at or beneath one of the entries. */
  lemma PrefixMatchesBelow(fs: FS, dir: string, prefix: string, names: seq<Name>, p: string)
    requires Clean(dir) == dir && p in PrefixMatches(fs, dir, prefix, names)
    ensures exists m :: m in names && Below(p, Child(dir, m))
  {
    PrefixSound(fs, dir, prefix, names, p);
    var m :| m in names && HasPrefix(m, prefix) && (p == Child(dir, m) || p in Walk(fs, Child(dir, m)));
    EntryWalkBelow(fs, dir, m);
  }

  /**
   * When no directory lists a name twice, expandPrefix gathers no path twice:
   * what one entry yields lies beneath it, apart from what its siblings yield.
   */
  lemma {:induction false} PrefixMatchesNoDuplicates(fs: FS, dir: string, prefix: string, names: seq<Name>)
    requires DistinctNames(fs) && NoDuplicates(names) && Clean(dir) == dir
    ensures NoDuplicates(PrefixMatches(fs, dir, prefix, names))
  {
    if names != [] {
      var init := names[..|names| - 1];
      var n := names[|names| - 1];
      var earlier := PrefixMatches(fs, dir, prefix, init);
      var last := PrefixEntry(fs, dir, prefix, n);
      assert PrefixMatches(fs, dir, prefix, names) == earlier + last;
      PrefixMatchesNoDuplicates(fs, dir, prefix, init);
      PrefixEntryApart(fs, dir, prefix, n);
      forall p | p in earlier
        ensures p !in last
      {
        PrefixMatchesBelow(fs, dir, prefix, init, p);
        var m :| m in init && Below(p, Child(dir, m));
        assert m != n by {
          var i :| 0 <= i < |init| && init[i] == m;
          assert names[i] == m;
        }
        ChildrenApart(dir, m, n, p);
      }
      NoDuplicatesConcat(earlier, last);
    }
  }

  lemma PrefixExpansionNoDuplicates(fs: FS, path: string)
    requires DistinctNames(fs)
    ensures PrefixExpansion(fs, path).Ok? ==> NoDuplicates(PrefixExpansion(fs, path).value)
  {
    var dir := Paths.Dir(path);
    CleanIdempotent(path[..LastSeparator(path) + 1]);
    if ReadDir(fs, dir).Ok? {
      ReadDirDistinct(fs, dir);
      PrefixMatchesNoDuplicates(fs, dir, Base(path), ReadDir(fs, dir).value);
    }
  }

  // ---------------------------------------------------------------------------
  // Expand
  // ---------------------------------------------------------------------------

  /**
   * What Expand returns for one argument. The first rule that applies
   * wins: a failed tilde expansion; a metacharacter (glob expansion); a
   * trailing slash (a one-level listing); an existing directory (a walk); an
   * existing regular file (itself); a stat failure other than non-existence
   * (an error); anything else (prefix matching). home is the home directory
   * when it can be determined, and matcher is the glob matcher.
   */
  function Expansion(fs: FS, home: Option<string>, matcher: Matcher, pattern: string): (r: Result<seq<string>, Error>)
  {
    match ExpandTilde(home, pattern)
    case Err(e) => Err(e)
    case Ok(expanded) => ExpandedExpansion(fs, matcher, expanded)
  }

  /** Expansion once the tilde is expanded: the glob, the listing, or the plain path. */
  function ExpandedExpansion(fs: FS, matcher: Matcher, expanded: string): (r: Result<seq<string>, Error>)
  {
    if ContainsMeta(expanded) then GlobExpansion(fs, matcher, expanded)
    else if HasSuffix(expanded, "/") then Walker.Listing(fs, Clean(expanded))
    else LiteralExpansion(fs, Clean(expanded))
  }

  /** Expansion of a plain path, cleaned, by what stat reports for it. */
  function LiteralExpansion(fs: FS, cleaned: string): (r: Result<seq<string>, Error>)
  {
    match Stat(fs, cleaned)
    case Ok(Dir(_, _)) => Ok(Walk(fs, cleaned))
    case Ok(File) => Ok([cleaned])
    case Ok(_) => PrefixExpansion(fs, cleaned)
    case Err(NotExist) => PrefixExpansion(fs, cleaned)
    case Err(e) => Err(StatFailed(cleaned, e))
  }

  /** Expand: resolve one argument to file paths, with the rules of Expansion. */
  method Expand(fs: FS, home: Option<string>, matcher: Matcher, pattern: string) returns (r: Result<seq<string>, Error>)
    ensures r == Expansion(fs, home, matcher, pattern)
  {
    var tilde := ExpandTilde(home, pattern);
    if tilde.Err? {
      return Err(tilde.error);
    }
    var expanded := tilde.value;
    // Decided before cleaning, which drops the trailing slash.
    var trailingSlash := HasSuffix(expanded, "/");
    if ContainsMeta(expanded) {
      r := ExpandGlob(fs, matcher, expanded);
      return;
    }
    var cleaned := Clean(expanded);
    if trailingSlash {
      r := ListDir(fs, cleaned);
      return;
    }
    var info := Stat(fs, cleaned);
    if info.Ok? {
      if info.value.Dir? {
        var paths := WalkCollect(fs, cleaned);
        return Ok(paths);
      }
      if info.value.File? {
        return Ok([cleaned]);
      }
    } else if info.error != NotExist {
      return Err(StatFailed(cleaned, info.error));
    }
    r := ExpandPrefix(fs, cleaned);
  }

  /** An argument without tilde, metacharacters or a trailing slash: a plain path. */
  predicate IsLiteral(pattern: string)
  {
    !UsesTilde(pattern) && !ContainsMeta(pattern) && !HasSuffix(pattern, "/")
  }

  /** Every path Expand returns names a regular file, directly or through symbolic links. */
  lemma ExpandIncludable(fs: FS, home: Option<string>, matcher: Matcher, pattern: string)
    requires Expansion(fs, home, matcher, pattern).Ok?
    ensures forall p :: p in Expansion(fs, home, matcher, pattern).value ==> Includable(fs, p)
  {
    var expanded := ExpandTilde(home, pattern).value;
    var cleaned := Clean(expanded);
    var r := Expansion(fs, home, matcher, pattern);
    if ContainsMeta(expanded) {
      var (base, glob) := GlobSplit(expanded);
      forall p | p in r.value
        ensures Includable(fs, p)
      {
        GlobExpansionExactly(fs, matcher, expanded, base, glob, p);
      }
    } else if HasSuffix(expanded, "/") {
      var names := ReadDir(fs, cleaned).value;
      forall p | p in r.value
        ensures Includable(fs, p)
      {
        ListingExactly(fs, cleaned, names, p);
      }
    } else if Stat(fs, cleaned).Ok? && Stat(fs, cleaned).value.Dir? {
      WalkIncludable(fs, cleaned);
    } else if Stat(fs, cleaned) == Ok(File) {
      IncludableIsRegularTarget(fs, cleaned);
    } else {
      var dir := Paths.Dir(cleaned);
      var names := ReadDir(fs, dir).value;
      forall p | p in r.value
        ensures Includable(fs, p)
      {
        PrefixSound(fs, dir, Base(cleaned), names, p);
      }
    }
  }

  /** Expand fails for want of a home directory exactly for a tilde argument when there is none. */
  lemma ExpandHomeUnavailable(fs: FS, home: Option<string>, matcher: Matcher, pattern: string)
    ensures Expansion(fs, home, matcher, pattern) == Err(HomeUnavailable) <==> UsesTilde(pattern) && home.None?
  {
    if ExpandTilde(home, pattern).Ok? {
      ExpandedErrors(fs, matcher, ExpandTilde(home, pattern).value);
    }
  }

  /**
   * Once the tilde is expanded, each error Expand reports comes from one
   * stage and names what failed: a malformed pattern only for a glob, a
   * listing only for a trailing slash, and otherwise what LiteralErrors says.
   */
  lemma ExpandedErrors(fs: FS, matcher: Matcher, expanded: string)
    ensures ExpandedExpansion(fs, matcher, expanded).Err? ==> ExpandedExpansion(fs, matcher, expanded).error != HomeUnavailable
    ensures ExpandedExpansion(fs, matcher, expanded).Err? && ExpandedExpansion(fs, matcher, expanded).error.BadPattern? ==>
      ContainsMeta(expanded) && ExpandedExpansion(fs, matcher, expanded).error.pattern == expanded
    ensures ExpandedExpansion(fs, matcher, expanded).Err? && ExpandedExpansion(fs, matcher, expanded).error.Listing? ==>
      !ContainsMeta(expanded) && HasSuffix(expanded, "/") && ExpandedExpansion(fs, matcher, expanded).error.dir == Clean(expanded)
    ensures (ExpandedExpansion(fs, matcher, expanded).Err? && !ExpandedExpansion(fs, matcher, expanded).error.BadPattern?
             && !ExpandedExpansion(fs, matcher, expanded).error.Listing?) ==>
      !ContainsMeta(expanded) && !HasSuffix(expanded, "/")
      && ExpandedExpansion(fs, matcher, expanded) == LiteralExpansion(fs, Clean(expanded))
  {
    if !ContainsMeta(expanded) && !HasSuffix(expanded, "/") {
      LiteralErrors(fs, Clean(expanded));
    }
  }

  /**
   * A plain path fails either because stat fails for a reason other than
   * non-existence, naming the path, or because prefix matching cannot read
   * the parent directory, naming that directory.
   */
  lemma LiteralErrors(fs: FS, cleaned: string)
    ensures LiteralExpansion(fs, cleaned).Err? ==>
      (LiteralExpansion(fs, cleaned).error.StatFailed? || LiteralExpansion(fs, cleaned).error.ReadingDirectory?)
    ensures LiteralExpansion(fs, cleaned).Err? && LiteralExpansion(fs, cleaned).error.StatFailed? ==>
      Stat(fs, cleaned).Err? && LiteralExpansion(fs, cleaned).error == StatFailed(cleaned, Stat(fs, cleaned).error)
      && Stat(fs, cleaned).error != NotExist
    ensures LiteralExpansion(fs, cleaned).Err? && LiteralExpansion(fs, cleaned).error.ReadingDirectory? ==>
      LiteralExpansion(fs, cleaned).error.dir == Paths.Dir(cleaned)
      && (Stat(fs, cleaned) == Err(NotExist) || (Stat(fs, cleaned).Ok? && !Stat(fs, cleaned).value.Dir? && !Stat(fs, cleaned).value.File?))
  {
  }

  /** A plain path is neither tilde-expanded, globbed nor listed: it is classified by stat. */
  lemma ExpandLiteral(fs: FS, home: Option<string>, matcher: Matcher, pattern: string)
    requires IsLiteral(pattern)
    ensures Expansion(fs, home, matcher, pattern) == LiteralExpansion(fs, Clean(pattern))
  {
    assert ExpandTilde(home, pattern) == Ok(pattern);
  }

  /**
   * A plain path that leads to a regular file, itself or through symbolic
   * links, expands to that path alone, cleaned.
   */
  lemma ExpandExistingFile(fs: FS, home: Option<string>, matcher: Matcher, pattern: string)
    requires IsLiteral(pattern) && Stat(fs, Clean(pattern)) == Ok(File)
    ensures Expansion(fs, home, matcher, pattern) == Ok([Clean(pattern)])
  {
    ExpandLiteral(fs, home, matcher, pattern);
  }

  /**
   * A plain path whose stat fails other than by absence (a refused lookup
   * anywhere along its chain of links, or a chain too long to follow) is an
   * error naming the cleaned path and the cause.
   */
  lemma ExpandStatFailed(fs: FS, home: Option<string>, matcher: Matcher, pattern: string)
    requires IsLiteral(pattern) && Stat(fs, Clean(pattern)).Err? && Stat(fs, Clean(pattern)).error != NotExist
    ensures Expansion(fs, home, matcher, pattern) == Err(StatFailed(Clean(pattern), Stat(fs, Clean(pattern)).error))
  {
    ExpandLiteral(fs, home, matcher, pattern);
  }

  /**
   * How a plain path is classified by what the filesystem holds at it: a
   * directory is walked; a regular file, or a link leading to one, is
   * returned alone; a special file or a missing path goes to prefix
   * matching; a path that cannot be looked up, or a link whose chain cannot
   * be followed for a reason other than absence, is an error naming it.
   */
  lemma LiteralCases(fs: FS, c: string)
    ensures Lstat(fs, c).Ok? && Lstat(fs, c).value.Dir? ==> LiteralExpansion(fs, c) == Ok(Walk(fs, c))
    ensures Lstat(fs, c) == Ok(File) ==> LiteralExpansion(fs, c) == Ok([c])
    ensures Lstat(fs, c).Ok? && Lstat(fs, c).value.Link? && Stat(fs, c) == Ok(File) ==> LiteralExpansion(fs, c) == Ok([c])
    ensures Lstat(fs, c) == Ok(Other) ==> LiteralExpansion(fs, c) == PrefixExpansion(fs, c)
    ensures c !in fs.nodes && c !in fs.denied ==> LiteralExpansion(fs, c) == PrefixExpansion(fs, c)
    ensures c in fs.denied ==> LiteralExpansion(fs, c) == Err(StatFailed(c, PermissionDenied))
    ensures Lstat(fs, c).Ok? && Lstat(fs, c).value.Link? && Stat(fs, c).Err? && Stat(fs, c).error != NotExist ==>
      LiteralExpansion(fs, c) == Err(StatFailed(c, Stat(fs, c).error))
  {
  }

  /**
   * Expand's precedence once the tilde is expanded: a metacharacter means
   * glob expansion, even with a trailing slash; otherwise a trailing slash
   * means a listing of the cleaned path; otherwise the cleaned path is
   * classified by stat.
   */
  lemma ExpandPrecedence(fs: FS, home: Option<string>, matcher: Matcher, pattern: string, expanded: string)
    requires ExpandTilde(home, pattern) == Ok(expanded)
    ensures ContainsMeta(expanded) ==> Expansion(fs, home, matcher, pattern) == GlobExpansion(fs, matcher, expanded)
    ensures !ContainsMeta(expanded) && HasSuffix(expanded, "/") ==>
      Expansion(fs, home, matcher, pattern) == Walker.Listing(fs, Clean(expanded))
    ensures !ContainsMeta(expanded) && !HasSuffix(expanded, "/") ==>
      Expansion(fs, home, matcher, pattern) == LiteralExpansion(fs, Clean(expanded))
  {
  }

  lemma LiteralNoDuplicates(fs: FS, c: string)
    requires DistinctNames(fs)
    ensures LiteralExpansion(fs, c).Ok? ==> NoDuplicates(LiteralExpansion(fs, c).value)
  {
    WalkNoDuplicates(fs, c);
    PrefixExpansionNoDuplicates(fs, c);
  }

  /**
   * When no directory lists a name twice, Expand returns no path twice for a
   * pattern without metacharacters; for a glob, none twice unless the
   * matcher's matches join to one path twice.
   */
  lemma ExpandNoDuplicates(fs: FS, home: Option<string>, matcher: Matcher, pattern: string, expanded: string, base: string, glob: string)
    requires DistinctNames(fs)
    requires ExpandTilde(home, pattern) == Ok(expanded) && (base, glob) == GlobSplit(expanded)
    ensures Expansion(fs, home, matcher, pattern).Ok? && !ContainsMeta(expanded) ==>
      NoDuplicates(Expansion(fs, home, matcher, pattern).value)
    ensures Expansion(fs, home, matcher, pattern).Ok? && ContainsMeta(expanded) && NoDuplicates(Joined(base, matcher(base, glob).value)) ==>
      NoDuplicates(Expansion(fs, home, matcher, pattern).value)
  {
    if ContainsMeta(expanded) {
      if matcher(base, glob).Some? && NoDuplicates(Joined(base, matcher(base, glob).value)) {
        GlobExpansionNoDuplicates(fs, matcher, expanded, base, glob);
      }
    } else if HasSuffix(expanded, "/") {
      ListingNoDuplicates(fs, Clean(expanded));
    } else {
      LiteralNoDuplicates(fs, Clean(expanded));
    }
  }

  /**
   * A plain path that is a symbolic link to a directory expands to nothing:
   * stat reports a directory, but the walk lstats the link itself and does
   * not descend into it.
   */
  lemma ExpandSymlinkedDirectory(fs: FS, home: Option<string>, matcher: Matcher, pattern: string, target: string)
    requires IsLiteral(pattern)
    requires Lstat(fs, Clean(pattern)) == Ok(Link(target)) && Stat(fs, Clean(pattern)).Ok? && Stat(fs, Clean(pattern)).value.Dir?
    ensures Expansion(fs, home, matcher, pattern) == Ok([])
  {
    ExpandLiteral(fs, home, matcher, pattern);
    LiteralSymlinkedDirectory(fs, Clean(pattern), target);
  }

  lemma LiteralSymlinkedDirectory(fs: FS, c: string, target: string)
    requires Lstat(fs, c) == Ok(Link(target)) && Stat(fs, c).Ok? && Stat(fs, c).value.Dir?
    ensures LiteralExpansion(fs, c) == Ok([])
  {
    WalkSymlinkRoot(fs, c, target);
  }

  /**
   * A plain path naming a directory (not a link to one) expands to its walk:
   * every includable file reached through visible, readable directories
   * beneath it is returned.
   */
  lemma ExpandDirectoryComplete(fs: FS, home: Option<string>, matcher: Matcher, pattern: string, names: seq<Name>, ns: seq<Name>)
    requires IsLiteral(pattern)
    requires Lstat(fs, Clean(pattern)) == Ok(Dir(names, true))
    requires Reaches(fs, Clean(pattern), names, ns)
    ensures Expansion(fs, home, matcher, pattern).Ok?
    ensures Descend(Clean(pattern), ns) in Expansion(fs, home, matcher, pattern).value
  {
    ExpandLiteral(fs, home, matcher, pattern);
    CleanIdempotent(pattern);
    LiteralDirectoryComplete(fs, Clean(pattern), names, ns);
  }

  lemma LiteralDirectoryComplete(fs: FS, c: string, names: seq<Name>, ns: seq<Name>)
    requires Clean(c) == c
    requires Lstat(fs, c) == Ok(Dir(names, true)) && Reaches(fs, c, names, ns)
    ensures LiteralExpansion(fs, c).Ok? && Descend(c, ns) in LiteralExpansion(fs, c).value
  {
    assert ReadDir(fs, c) == Ok(names);
    WalkComplete(fs, c, names, ns);
  }

  /**
   * A plain path that does not exist is read as a directory and a name
   * prefix: everything returned comes from an entry of Dir(path) whose name
   * starts with Base(path), as that entry or from the walk of it.
   */
  lemma ExpandMissingIsPrefix(fs: FS, home: Option<string>, matcher: Matcher, pattern: string)
    requires IsLiteral(pattern) && Stat(fs, Clean(pattern)) == Err(NotExist)
    ensures Expansion(fs, home, matcher, pattern) == PrefixExpansion(fs, Clean(pattern))
    ensures Expansion(fs, home, matcher, pattern).Ok? ==>
      ReadDir(fs, Paths.Dir(Clean(pattern))).Ok? &&
      forall p :: p in Expansion(fs, home, matcher, pattern).value ==>
        exists n: Name :: n in ReadDir(fs, Paths.Dir(Clean(pattern))).value
          && HasPrefix(n, Base(Clean(pattern)))
          && (p == Child(Paths.Dir(Clean(pattern)), n) || p in Walk(fs, Child(Paths.Dir(Clean(pattern)), n)))
  {
    ExpandLiteral(fs, home, matcher, pattern);
    LiteralMissing(fs, Clean(pattern));
  }

  lemma LiteralMissing(fs: FS, c: string)
    requires Stat(fs, c) == Err(NotExist)
    ensures LiteralExpansion(fs, c) == PrefixExpansion(fs, c)
    ensures PrefixExpansion(fs, c).Ok? ==>
      ReadDir(fs, Paths.Dir(c)).Ok? &&
      forall p :: p in PrefixExpansion(fs, c).value ==>
        exists n: Name :: n in ReadDir(fs, Paths.Dir(c)).value
          && HasPrefix(n, Base(c)) && (p == Child(Paths.Dir(c), n) || p in Walk(fs, Child(Paths.Dir(c), n)))
  {
    var dir := Paths.Dir(c);
    if PrefixExpansion(fs, c).Ok? {
      var names := ReadDir(fs, dir).value;
      forall p | p in PrefixExpansion(fs, c).value
        ensures exists n: Name :: n in names && HasPrefix(n, Base(c)) && (p == Child(dir, n) || p in Walk(fs, Child(dir, n)))
      {
        PrefixSound(fs, dir, Base(c), names, p);
      }
    }
  }
}
