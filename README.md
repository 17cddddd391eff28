# suggest-file argument resolution, in Dafny

`suggest-file` turns each path-like command-line argument into a list of
regular-file paths for an interactive picker. This project models that
resolution engine, the `glob` and `walker` packages, over an in-memory
filesystem. It proves what each step returns.

- **Modules.** `Paths` holds the lexical path functions the code relies on:
  `strings.Split`, `strings.Join`, and `filepath.Clean`, `Join`, `Dir` and
  `Base`. `FileSystem` holds lstat, stat and a directory read over a map
  from paths to nodes. `Walker` and `Glob` follow the two Go packages.
  `Wrappers` holds `Option` and `Result`.
- **Includability.** `Walker.IsIncludableFile` is the shared test. A path
  counts only when it is a regular file, or a symbolic link whose chain ends
  at one.
- **The walk.** `Walker.Walk` is the sequence of paths
  `filepath.WalkDir` hands to the emit callback. The root is looked up with
  lstat and is always entered, whatever its name. A directory below it
  whose name starts with `.` is pruned. An unreadable directory is skipped
  and the walk goes on. `Walker.WalkFrom`, `WalkEntries` and `WalkCollect`
  are the imperative walk. Each call to `Collector.Emit` appends to the
  collected results, and the methods are proved to emit exactly `Walk`.
  The callback swallows every error, so `WalkCollect` never fails. The
  model returns the paths alone, and the walk-error branch of
  `expandPrefix` is unreachable.
- **The argument chain.** `Glob.Expand` applies the precedence chain, in
  order:
  1. tilde expansion;
  2. a glob (`expandGlob`) when a metacharacter is present;
  3. a one-level listing (`ListDir`) for a trailing slash;
  4. a walk for a directory;
  5. the path itself for a regular file;
  6. an error when stat fails other than by absence;
  7. prefix matching (`expandPrefix`) for everything else.

  `Glob.Expansion` is the same chain as a function, and the lemmas are
  stated about it.
- **Symbolic links to directories.** `filepath.WalkDir` lstats its root, so
  a root that is a symbolic link to a directory is emitted only when it
  leads to a regular file, and is never descended (`Walker.Walk`). An
  argument naming such a link therefore expands to nothing
  (`Glob.ExpandSymlinkedDirectory`), and so does a prefix-matched entry that
  is one. The package comment at `suggest-file/glob/glob.go:13-14` and the
  check at `suggest-file/glob/glob.go:139-153` treat such a link as a
  directory to walk. The resolver (`WalkCollect`, `Expand`, `ExpandPrefix`)
  is modelled as the code behaves. "## Findings" records the discrepancy,
  with the corrected walk `Walker.ResolvedWalk` and its completeness proved
  beside it.
- **Two facts about the code.**
  - `IsIncludableFile` follows a whole chain of links, as stat(2) does (up
    to 40 on Linux).
  - `Expand` does not remove duplicates from its results. None are made
    either: a real directory never lists a name twice
    (`FileSystem.DistinctNames`), and under that condition every path the
    walk, the listing and prefix matching return lies at or beneath the
    entry it came from, apart from its siblings, so none is returned twice.
    A glob returns no path twice as long as the matcher's matches, joined to
    the base, are distinct.

## Model

| member | source | states |
|---|---|---|
| `Glob.ContainsMeta` | suggest-file/glob/glob.go:241-243 | true exactly when some character of the string is one of `*`, `?`, `[`, `{` |
| `Glob.MetaJoin` | suggest-file/glob/glob.go:221 | parts joined with `/` hold a metacharacter exactly when one of the parts does |
| `Glob.ExpandTilde` | suggest-file/glob/glob.go:173-185 | a pattern other than `~` or `~/…` is returned unchanged; fails exactly when the tilde is used with no home directory, and only with `HomeUnavailable`; otherwise the result is the home directory followed by the pattern after its `~`, so a trailing `/` is kept |
| `Glob.MetaIndex` | suggest-file/glob/glob.go:205-211 | the scan stops at the first part, at or after the start, that holds a metacharacter, or at the end when none does |
| `Glob.SplitCleaned` | suggest-file/glob/glob.go:192-236 | the split of a cleaned pattern: the components before the first one holding a metacharacter form the base (`/` or `.` when there are none), the rest form the glob; with no metacharacter, the directory and the last element |
| `Glob.GlobSplit` | suggest-file/glob/glob.go:190-192 | `splitPattern`: the pattern is cleaned before it is split |
| `Glob.SplitPattern` | suggest-file/glob/glob.go:190-237 | the loop computes the same base and glob as the split specification `GlobSplit` |
| `Glob.SplitBaseLiteral` | suggest-file/glob/glob.go:213-225 | the base is never empty and never holds a metacharacter |
| `Glob.SplitRoundTrip` | suggest-file/glob/glob.go:213-236 | for a cleaned pattern with a metacharacter: the glob's first component holds one; base `/` or `.` when the first component after the root holds one; base + `/` + glob is the cleaned pattern otherwise; the base and glob written out together always give back the cleaned pattern |
| `Glob.SplitLiteralFallback` | suggest-file/glob/glob.go:227-233 | when the cleaned pattern holds no metacharacter, the split is its directory and its last element |
| `Glob.KeepsMatchIncludable` | suggest-file/glob/glob.go:104-112 | a glob candidate is kept exactly when lstat succeeds on it and it is includable |
| `Glob.CandidatesExactly` | suggest-file/glob/glob.go:101-113 | the kept paths are exactly the candidates that pass the filter |
| `Glob.GlobCandidatesExactly` | suggest-file/glob/glob.go:101-113 | a path is kept exactly when it is some match joined to the base, lstat succeeds on it, and it is includable |
| `Glob.GlobExpansion` | suggest-file/glob/glob.go:88-116 | what `expandGlob` returns: `BadPattern` when the matcher rejects the glob; otherwise each match joined to the base, in match order, kept when lstat succeeds and it is includable |
| `Glob.GlobExpansionExactly` | suggest-file/glob/glob.go:88-116 | fails exactly when the matcher rejects the glob, with `BadPattern` naming the pattern; otherwise returns exactly the joined matches whose lstat succeeds and that are includable, so a candidate that cannot be looked up is dropped silently |
| `Glob.CandidatesNoDuplicates` | suggest-file/glob/glob.go:101-113 | filtering distinct candidates keeps them distinct |
| `Glob.GlobExpansionNoDuplicates` | suggest-file/glob/glob.go:88-116 | when the matcher accepts the glob and its matches joined to the base are distinct, `expandGlob` succeeds and returns no path twice |
| `Glob.ExpandGlob` | suggest-file/glob/glob.go:88-116 | returns what `GlobExpansion` specifies |
| `Glob.KeepMatches` | suggest-file/glob/glob.go:100-115 | the loop over the matches returns the kept candidates in match order |
| `Glob.PrefixEntry` | suggest-file/glob/glob.go:133-164 | what one entry adds to prefix matching: nothing without the prefix or for a dangling link; the walk of a directory or of a link to one, which for a link is empty, since the walk lstats it; itself when includable |
| `Glob.PrefixExpansion` | suggest-file/glob/glob.go:121-168 | what `expandPrefix` returns: a `ReadingDirectory` error when the parent cannot be read; otherwise what each entry adds, in listing order |
| `Glob.PrefixJoin` | suggest-file/glob/glob.go:137 | `filepath.Join` of the parent directory and an entry name is the entry's path under that already-clean directory |
| `Glob.ExpandPrefix` | suggest-file/glob/glob.go:121-168 | returns what `PrefixExpansion` specifies |
| `Glob.CollectPrefix` | suggest-file/glob/glob.go:130-167 | the loop over the entries gathers, in entry order, what each entry contributes |
| `Glob.CollectEntry` | suggest-file/glob/glob.go:133-164 | one turn of the loop: skips a name without the prefix and a dangling link; walks a directory or a link to one; otherwise adds the entry when includable |
| `Glob.PrefixEntrySkips` | suggest-file/glob/glob.go:133-146 | an entry without the prefix and a link that cannot be followed add nothing |
| `Glob.PrefixExpansionFails` | suggest-file/glob/glob.go:122-128 | fails exactly when the parent directory cannot be read, naming that directory and the cause |
| `Glob.PrefixSound` | suggest-file/glob/glob.go:132-165 | every path gathered is includable and comes from an entry whose name starts with the prefix, either as the entry itself or from the walk of it |
| `Glob.PrefixComplete` | suggest-file/glob/glob.go:139-164 | an includable entry with the prefix is returned; for a directory with the prefix, everything its walk emits is returned (for a link to a directory that walk is empty, see "## Findings") |
| `Glob.EntryWalkBelow` | suggest-file/glob/glob.go:151-158 | every path the walk of an entry emits is the entry's path or lies beneath it |
| `Glob.PrefixEntryApart` | suggest-file/glob/glob.go:133-164 | what one entry adds holds no path twice, when no directory lists a name twice, and lies at or beneath the entry |
| `Glob.PrefixMatchesNoDuplicates` | suggest-file/glob/glob.go:130-167 | when no directory lists a name twice, prefix matching over a directory's entries gathers no path twice |
| `Glob.PrefixExpansionNoDuplicates` | suggest-file/glob/glob.go:121-168 | when no directory lists a name twice, a successful `expandPrefix` returns no path twice |
| `Glob.Expansion` | suggest-file/glob/glob.go:40-45 | `Expand` as a function: a tilde failure is returned, otherwise the expanded argument goes on |
| `Glob.ExpandedExpansion` | suggest-file/glob/glob.go:49-63 | after tilde expansion: glob expansion for a metacharacter, the listing of the cleaned path for a trailing slash, and otherwise the plain-path stage |
| `Glob.LiteralExpansion` | suggest-file/glob/glob.go:66-82 | the plain-path stage: stat classifies the cleaned path as a directory to walk, a regular file to return, an error other than absence to report, or else a prefix to match |
| `Glob.Expand` | suggest-file/glob/glob.go:40-83 | the method composes the steps' methods and returns what `Expansion` specifies |
| `Glob.ExpandPrecedence` | suggest-file/glob/glob.go:49-63 | after tilde expansion, a metacharacter means glob expansion even with a trailing slash; otherwise a trailing slash means the listing of the cleaned path; otherwise the cleaned path goes to the stat classification |
| `Glob.ExpandLiteral` | suggest-file/glob/glob.go:42-58 | a plain argument, with no tilde, no metacharacter and no trailing slash, is classified by stat on its cleaned form |
| `Glob.LiteralCases` | suggest-file/glob/glob.go:66-82 | a directory is walked; a regular file, or a link leading to one, gives exactly itself; a special file or a missing path goes to prefix matching; a path whose lookup is refused, or a link whose chain fails other than by absence, fails with a stat error naming it and the cause |
| `Glob.LiteralErrors` | suggest-file/glob/glob.go:66-82 | a plain path fails only with a stat error other than absence, naming the path, or with a failure of prefix matching to read the parent, naming that directory |
| `Glob.ExpandedErrors` | suggest-file/glob/glob.go:52-63 | after tilde expansion, a bad-pattern error comes only from a glob, and a listing error only from a trailing slash on the cleaned path; any other error comes from the plain-path stage; no later stage reports `HomeUnavailable` |
| `Glob.ExpandHomeUnavailable` | suggest-file/glob/glob.go:42-45 | `Expand` fails for want of a home directory exactly when the argument uses the tilde and there is none |
| `Glob.ExpandIncludable` | suggest-file/glob/glob.go:40-83 | every path any route returns is includable |
| `Glob.LiteralNoDuplicates` | suggest-file/glob/glob.go:66-82 | when no directory lists a name twice, the plain-path stage returns no path twice, whether it walks, returns the file or matches a prefix |
| `Glob.ExpandNoDuplicates` | suggest-file/glob/glob.go:40-83 | when no directory lists a name twice, `Expand` returns no path twice for an argument without metacharacters, and none twice for a glob whose joined matches are distinct |
| `Glob.ExpandExistingFile` | suggest-file/glob/glob.go:66-76 | a plain argument that leads to a regular file, itself or through links, gives exactly its cleaned path |
| `Glob.ExpandStatFailed` | suggest-file/glob/glob.go:66-79 | a plain argument whose stat fails other than by absence (a refused lookup along its links, or too many links) fails with a stat error naming the cleaned path and the cause |
| `Glob.ExpandSymlinkedDirectory` | suggest-file/glob/glob.go:66-70 | a plain argument that is a symbolic link to a directory gives an empty result |
| `Glob.LiteralSymlinkedDirectory` | suggest-file/glob/glob.go:66-70 | a cleaned path that is a link to a directory is walked from the link and gives nothing |
| `Glob.ExpandDirectoryComplete` | suggest-file/glob/glob.go:66-70 | for a plain argument naming a readable directory (not a link to one), every includable file reached through visible, readable directories is in the result |
| `Glob.LiteralDirectoryComplete` | suggest-file/glob/glob.go:66-70 | the walk of a cleaned readable directory contains every includable file reached through visible, readable directories |
| `Glob.ExpandMissingIsPrefix` | suggest-file/glob/glob.go:77-82 | a plain argument that does not exist goes to prefix matching; its directory was read, and each path returned comes from a listed entry of that directory whose name starts with its last element, as the entry itself or from its walk |
| `Glob.LiteralMissing` | suggest-file/glob/glob.go:77-82 | a missing cleaned path goes to prefix matching, the directory was read, and each path comes from a listed entry with the prefix, as the entry itself or from its walk |
| `Walker.IsIncludableFile` | suggest-file/walker/walker.go:20-29 | the regular-file test on a path and the type its entry reports: a link is followed with stat and counts when it ends at a regular file; any other type counts when it is regular |
| `Walker.IsIncludableFileExactly` | suggest-file/walker/walker.go:20-29 | a reported type other than a link is includable exactly when it is regular; a link is includable exactly when following it ends at a regular file, so never when it dangles, loops or leads to a directory |
| `Walker.IncludableIsRegularTarget` | suggest-file/walker/walker.go:20-29 | for an entry whose lookup is not refused, includable exactly when stat reports a regular file |
| `Walker.IncludableNotDirectory` | suggest-file/walker/walker.go:20-29 | an includable path is never reported as a directory, and any target it leads to is a regular file |
| `Walker.Visit` | suggest-file/walker/walker.go:41-53 | the paths emitted while visiting one entry below the root: nothing for a directory with a hidden name or one that cannot be read, the entries' emissions in order for a readable directory, the path itself when it is includable |
| `Walker.Children` | suggest-file/walker/walker.go:35-55 | the emissions of a directory's entries, each joined below the directory, concatenated in listing order |
| `Walker.Walk` | suggest-file/walker/walker.go:34-55 | the walk as written: the root is classified by lstat and never skipped for its name; a root directory's entries are visited; any other root is emitted when includable |
| `Walker.ResolvedWalk` | suggest-file/walker/walker.go:34-55 | the corrected walk: a root that is a symbolic link to a readable directory has that directory's entries visited below the link's path; every other root is walked as `Walk` walks it |
| `Walker.Collector.constructor` | suggest-file/walker/walker.go:73 | the collection starts empty |
| `Walker.Collector.Emit` | suggest-file/walker/walker.go:74-76 | emitting appends exactly that path |
| `Walker.WalkFrom` | suggest-file/walker/walker.go:41-53 | visiting one entry appends exactly its `Visit` sequence: nothing for a hidden directory; its entries' sequences for a readable directory; the path for an includable file |
| `Walker.WalkEntries` | suggest-file/walker/walker.go:35-55 | the entries of a directory, visited in order, append exactly their `Children` sequence |
| `Walker.WalkCollect` | suggest-file/walker/walker.go:72-78 | returns exactly the paths emitted, in emission order, and these are `Walk` of the root, so a root that is a link to a directory gives nothing |
| `Walker.WalkIncludable` | suggest-file/walker/walker.go:46-52 | every emitted path is includable, so no directory is ever emitted |
| `Walker.WalkSkipsHiddenDirectories` | suggest-file/walker/walker.go:41-44 | every emitted path is the root itself or lies below the root through directories whose names do not start with `.` |
| `Walker.WalkComplete` | suggest-file/walker/walker.go:34-55 | from a readable root directory, whatever its name, every includable path reached through visible directories is emitted, including hidden files |
| `Walker.VisitBelow` | suggest-file/walker/walker.go:41-53 | every path emitted while visiting an entry is that entry's path or lies beneath it |
| `Walker.ChildrenNoDuplicates` | suggest-file/walker/walker.go:35-55 | when no directory lists a name twice, the entries of a directory with distinct names emit no path twice |
| `Walker.WalkNoDuplicates` | suggest-file/walker/walker.go:34-55 | when no directory lists a name twice, the walk emits no path twice, so no entry is visited more than once |
| `Walker.ResolvedWalkIncludable` | suggest-file/walker/walker.go:46-52 | every path the corrected walk emits is includable |
| `Walker.ResolvedWalkSkipsHiddenDirectories` | suggest-file/walker/walker.go:41-44 | every path the corrected walk emits is the root or lies below it through visible directories |
| `Walker.ResolvedWalkComplete` | suggest-file/walker/walker.go:34-55 | from a root that resolves to a readable directory, directly or through links, every includable path reached through visible directories is emitted; a root that is not a link is walked exactly as `Walk` walks it |
| `Walker.WalkMissesSymlinkedDirectory` | suggest-file/walker/walker.go:35 | as written, a root that is a link to a readable directory emits nothing, while a file reachable beneath it is in the corrected walk |
| `Walker.DescendFromRoot` | suggest-file/walker/walker.go:35 | the first step below the root is `filepath.Join` of the root and the entry name |
| `Walker.WalkSymlinkRoot` | suggest-file/walker/walker.go:35 | a root that is a symbolic link is emitted only when it leads to a regular file, and is never descended |
| `Walker.UnreadableDirectorySkipped` | suggest-file/walker/walker.go:36-39 | an entry that is an unreadable directory contributes nothing, and the walk goes on with the remaining entries |
| `Walker.Listing` | suggest-file/walker/walker.go:83-100 | what `ListDir` returns: a `Listing` error naming the directory when it cannot be read; otherwise its includable entries joined to it, in listing order |
| `Walker.IncludableEntriesExactly` | suggest-file/walker/walker.go:91-97 | a path is listed exactly when it is an entry of the directory and includable |
| `Walker.ListingExactly` | suggest-file/walker/walker.go:83-100 | for a readable directory, the listing holds exactly `filepath.Join(dir, name)` for each includable entry, hidden or not, and nothing deeper |
| `Walker.IncludableEntriesNoDuplicates` | suggest-file/walker/walker.go:91-97 | distinct entry names give distinct listed paths |
| `Walker.ListingNoDuplicates` | suggest-file/walker/walker.go:83-100 | when no directory lists a name twice, a successful listing holds no path twice |
| `Walker.ListDir` | suggest-file/walker/walker.go:83-100 | returns what `Listing` specifies, and fails exactly when the directory cannot be read |
| `Walker.CollectIncludable` | suggest-file/walker/walker.go:91-97 | the loop over the entries returns the includable ones in entry order |
| `FileSystem.Follow` | suggest-file/walker/walker.go:22-23 | following links succeeds only for a path the filesystem holds and can look up, and never ends at a link |
| `FileSystem.ReadDirDistinct` | suggest-file/walker/walker.go:84 | when no directory lists a name twice, a successful read, through links or not, returns distinct names |
| `Paths.Clean` | suggest-file/glob/glob.go:58 | `filepath.Clean`: drops empty and `.` components, resolves `..` against the component before it (never above the root), keeps a leading `/`, and gives `.` for nothing left |
| `Paths.Join` | suggest-file/glob/glob.go:102 | `filepath.Join` of two elements: the non-empty ones joined with `/` and cleaned, or the empty string when both are empty |
| `Paths.Dir` | suggest-file/glob/glob.go:122 | `filepath.Dir`: everything up to the last `/`, cleaned |
| `Paths.Base` | suggest-file/glob/glob.go:123 | `filepath.Base`: the last element after trailing slashes are dropped, `/` for a path of slashes, `.` for the empty path |
| `Paths.SplitPath` | suggest-file/glob/glob.go:195 | the split has at least one part and no part contains `/` |
| `Paths.JoinSplit` | suggest-file/glob/glob.go:195 | joining the split of a string with `/` gives the string back |
| `Paths.SplitJoin` | suggest-file/glob/glob.go:216 | splitting the join of separator-free parts gives the parts back |
| `Paths.CleanShape` | suggest-file/glob/glob.go:58 | a cleaned path is never empty and is rooted exactly when the input is |
| `Paths.CleanSplit` | suggest-file/glob/glob.go:192-195 | every component of a cleaned path is a proper name; the cleaned path splits into its root marker and components, or is `/` or `.` |
| `Paths.CleanIdempotent` | suggest-file/glob/glob.go:192 | cleaning a cleaned path changes nothing |
| `Paths.JoinName` | suggest-file/walker/walker.go:92 | `filepath.Join(dir, name)` is the cleaned directory with the entry name appended below it |
| `Paths.ChildrenApart` | suggest-file/walker/walker.go:92 | no path lies at or beneath the paths of two different entries of one directory |
| `Paths.DirNonEmpty` | suggest-file/glob/glob.go:230 | `filepath.Dir` never returns the empty string |
| `Paths.DirChars` | suggest-file/glob/glob.go:230 | every character of `filepath.Dir(p)` is a character of `p`, a `.` or a `/` |

## Findings

| source | as written | input that shows it | evidently intended | confidence | as-written member | corrected member |
|---|---|---|---|---|---|---|
| suggest-file/walker/walker.go:34-55 | `filepath.WalkDir` lstats the root, so a root that is a symbolic link to a directory is reported as a link, fails the regular-file test and is never descended | `suggest-file l`, where `l` is a link to a directory holding a regular file `f`: `l/f` is not returned, the result is empty; likewise `suggest-file lin` with no `lin` but a link `link` to such a directory, where `link/f` is not returned | a root that resolves to a directory is walked, as the comments at suggest-file/glob/glob.go:13-14 and the symlink check at suggest-file/glob/glob.go:139-153 describe, so `l/f` is returned | high; not executed | `Walker.WalkMissesSymlinkedDirectory` | `Walker.ResolvedWalkComplete` |

## Left out

- `suggest-file/main.go` is not part of this model: flag handling, the loop over arguments, printing and exit codes. `suggest-file/shell.go` and `suggest-file/embed.go` are not part of it either: the shell-script subcommand and the embedded scripts.
- doublestar's matching rules and `os.DirFS`: the matcher is a parameter (`Glob.Matcher`) that returns the matches relative to the base, or nothing for a malformed glob. Only the filtering that follows it is modelled.
- `os.UserHomeDir` is the parameter `home`; its possible failure is `None`.
- System calls are replaced by the map-based `FileSystem.FS`:
  - each path string names its own entry, so aliasing through a symbolic link to a directory is whatever the map lists;
  - a link's target is kept as the path it resolves to, not as the relative text stored in the link;
  - refused lookups are a set of paths;
  - a failing intermediate component (ENOTDIR) is not derived from the parents.
- The order of a directory's entries is the order stored in its node; that `os.ReadDir` sorts by name is not enforced.
- A directory whose read fails partway: `filepath.WalkDir` still visits the entries read before the failure; the model treats a failed read as giving none.
- Error values are constructors naming the failing stage, path and cause; the formatted message text and error wrapping are not modelled.
- `walker.Walk`, which prints each path, and the messages written to standard error for skipped entries.
- `Glob.GlobExpansionNoDuplicates`: requires the matcher's matches, joined to the base, to be distinct, because doublestar's matching is a parameter here.
- `Glob.CollectEntry`: has no error result, because `WalkCollect` cannot fail (its callback swallows every error), so `expandPrefix` never propagates a walk error.
