/**
 * An in-memory stand-in for the operating-system calls the resolver makes:
 * lstat(2), stat(2) and reading a directory. The filesystem is a map from
 * path strings to what they name. Each path string names its own entry: a
 * path that goes through a symbolic link to a directory ("link/f") is found
 * only if the map lists it, and a link's target is kept as the path it
 * resolves to.
 */
module FileSystem {
  import opened Wrappers
  import opened Paths

  /** What a path names. A directory lists its entries in the order a directory read returns them. */
  datatype Node =
    | File
    | Dir(names: seq<Name>, readable: bool)
    | Link(target: string)
    | Other  // a socket, a device or a named pipe

  /** The file-type bits of an lstat result or of a directory entry. */
  datatype Mode = Regular | Directory | Symlink | Irregular

  /** Why a filesystem call failed. */
  datatype Errno = NotExist | PermissionDenied | TooManyLinks | NotDirectory

  /**
   * The filesystem: what each path names, and the paths whose lookup is
   * refused (a parent directory without search permission).
   */
  datatype FS = FS(nodes: map<string, Node>, denied: set<string>)

  /** The number of symbolic links stat(2) follows before giving up (Linux's MAXSYMLINKS). */
  const MaxSymlinkHops: nat := 40

  function ModeOf(n: Node): (r: Mode)
  {
    match n
    case File => Regular
    case Dir(_, _) => Directory
    case Link(_) => Symlink
    case Other => Irregular
  }

  /** lstat(2): what p itself names, without following a final symbolic link. */
  function Lstat(fs: FS, p: string): (r: Result<Node, Errno>)
  {
    if p in fs.denied then Err(PermissionDenied)
    else if p in fs.nodes then Ok(fs.nodes[p])
    else Err(NotExist)
  }

  /** Follow symbolic links from p, at most hops of them. */
  function Follow(fs: FS, p: string, hops: nat): (r: Result<Node, Errno>)
    ensures r.Ok? ==> !r.value.Link? && p in fs.nodes && p !in fs.denied
    decreases hops
  {
    match Lstat(fs, p)
    case Err(e) => Err(e)
    case Ok(Link(t)) => if hops == 0 then Err(TooManyLinks) else Follow(fs, t, hops - 1)
    case Ok(n) => Ok(n)
  }

  /** stat(2): what p names once every symbolic link has been followed. */
  function Stat(fs: FS, p: string): (r: Result<Node, Errno>)
  {
    Follow(fs, p, MaxSymlinkHops)
  }

  /** os.ReadDir: the entry names of the directory p names, following a symbolic link. */
  function ReadDir(fs: FS, p: string): (r: Result<seq<Name>, Errno>)
    ensures r.Ok? ==> p in fs.nodes
  {
    match Stat(fs, p)
    case Err(e) => Err(e)
    case Ok(Dir(names, readable)) => if readable then Ok(names) else Err(PermissionDenied)
    case Ok(_) => Err(NotDirectory)
  }

  /** No element of s occurs twice. */
  predicate NoDuplicates<T(==)>(s: seq<T>)
  {
    forall i, j :: 0 <= i < j < |s| ==> s[i] != s[j]
  }

  /** Two sequences without repeats, sharing no element, concatenate to one without repeats. */
  lemma NoDuplicatesConcat<T>(a: seq<T>, b: seq<T>)
    requires NoDuplicates(a) && NoDuplicates(b)
    requires forall x :: x in a ==> x !in b
    ensures NoDuplicates(a + b)
  {
    forall i, j | 0 <= i < j < |a + b|
      ensures (a + b)[i] != (a + b)[j]
    {
      if i < |a| && |a| <= j {
        assert (a + b)[i] in a && (a + b)[j] == b[j - |a|];
      }
    }
  }

  /** No directory lists a name twice, as a directory on a real filesystem never does. */
  predicate DistinctNames(fs: FS)
  {
    forall p :: p in fs.nodes && fs.nodes[p].Dir? ==> NoDuplicates(fs.nodes[p].names)
  }

  lemma {:induction false} FollowDistinct(fs: FS, p: string, hops: nat)
    requires DistinctNames(fs)
    ensures Follow(fs, p, hops).Ok? && Follow(fs, p, hops).value.Dir? ==> NoDuplicates(Follow(fs, p, hops).value.names)
    decreases hops
  {
    if p !in fs.denied && p in fs.nodes && fs.nodes[p].Link? && hops > 0 {
      FollowDistinct(fs, fs.nodes[p].target, hops - 1);
    }
  }

  /** Reading a directory, through symbolic links or not, gives each name once. */
  lemma ReadDirDistinct(fs: FS, p: string)
    requires DistinctNames(fs)
    ensures ReadDir(fs, p).Ok? ==> NoDuplicates(ReadDir(fs, p).value)
  {
    FollowDistinct(fs, p, MaxSymlinkHops);
  }

  /**
   * The type a directory read reports for the entry at path p. The type comes
   * with the listing, so a lookup refusal does not hide it; a path the map does
   * not list is reported as of no known type.
   */
  function EntryMode(fs: FS, p: string): (r: Mode)
  {
    if p in fs.nodes then ModeOf(fs.nodes[p]) else Irregular
  }

  /** The errors argument resolution reports, each with what its message names. */
  datatype Error =
    | HomeUnavailable                              // the home directory cannot be determined
    | BadPattern(pattern: string)                  // the matcher rejected the glob of pattern
    | ReadingDirectory(dir: string, cause: Errno)  // prefix matching could not read dir
    | Listing(dir: string, cause: Errno)           // a trailing-slash listing could not read dir
    | StatFailed(path: string, cause: Errno)       // stat of path failed other than by absence
}
