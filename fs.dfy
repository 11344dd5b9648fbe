/**
 * Paths and an abstract filesystem: the part of boost::filesystem the store
 * assembler uses. A path is the sequence of its components; appending
 * `preferred_separator` and a name is appending one component.
 */
module Fs {

  /** One component of a path: a file or directory name. */
  type Segment = string

  type Path = seq<Segment>

  datatype Kind = RegularFile | Directory | OtherFile

  /**
   * What exists (and as what kind), and for each directory the names that
   * directory iteration yields, in iteration order.
   */
  datatype FileSystem = FileSystem(kinds: map<Path, Kind>, listings: map<Path, seq<Segment>>)

  predicate Exists(fs: FileSystem, p: Path) {
    p in fs.kinds
  }

  predicate IsRegularFile(fs: FileSystem, p: Path) {
    p in fs.kinds && fs.kinds[p] == RegularFile
  }

  predicate IsDirectory(fs: FileSystem, p: Path) {
    p in fs.kinds && fs.kinds[p] == Directory
  }

  /** The names a directory iterator over `dir` visits, in order. */
  function Listing(fs: FileSystem, dir: Path): seq<Segment> {
    if dir in fs.listings then fs.listings[dir] else []
  }

  /** The paths a directory iterator over `dir` yields: `dir` joined with each listed name. */
  function Entries(fs: FileSystem, dir: Path): seq<Path> {
    var names := Listing(fs, dir);
    seq(|names|, i requires 0 <= i < |names| => dir + [names[i]])
  }

  /** `path::filename()`: the last component. */
  function FileName(p: Path): Segment {
    if p == [] then "" else p[|p| - 1]
  }

  /** `std::string::rfind` of one character: the last index holding `c`, or -1 (npos) when there is none. */
  function LastIndexOf(s: string, c: char): (r: int)
    ensures -1 <= r < |s|
    ensures r == -1 <==> c !in s
    ensures 0 <= r ==> s[r] == c && c !in s[r + 1..]
    decreases |s|
  {
    if s == [] then -1
    else if s[|s| - 1] == c then |s| - 1
    else
      assert s == s[..|s| - 1] + [s[|s| - 1]];
      LastIndexOf(s[..|s| - 1], c)
  }

  /** An index holding `c` with no `c` after it is what `rfind` returns. */
  lemma {:induction false} LastIndexOfAt(s: string, c: char, k: nat)
    requires k < |s| && s[k] == c
    requires forall j :: k < j < |s| ==> s[j] != c
    ensures LastIndexOf(s, c) == k
    decreases |s|
  {
    if k < |s| - 1 {
      LastIndexOfAt(s[..|s| - 1], c, k);
    }
  }

  /** `path::extension()` of a file name: from its last '.' to the end, or empty when it has no '.'. */
  function Extension(name: Segment): (ext: string)
    ensures ext == [] <==> '.' !in name
    ensures ext != [] ==> ext[0] == '.' && '.' !in ext[1..]
    ensures |ext| <= |name| && ext == name[|name| - |ext|..]
  {
    var dot := LastIndexOf(name, '.');
    if dot == -1 then "" else name[dot..]
  }

  /** `path::stem()` of a file name: everything before its last '.'. */
  function Stem(name: Segment): (stem: string)
    ensures |stem| <= |name| && stem == name[..|stem|]
    ensures '.' !in name ==> stem == name
    ensures '.' in name ==> |stem| < |name| && name[|stem|] == '.' && '.' !in name[|stem| + 1..]
  {
    var dot := LastIndexOf(name, '.');
    if dot == -1 then name else name[..dot]
  }

  /** A file name splits into its stem followed by its extension. */
  lemma StemThenExtension(name: Segment)
    ensures Stem(name) + Extension(name) == name
    ensures |Stem(name)| + |Extension(name)| == |name|
  {
    var dot := LastIndexOf(name, '.');
    if dot != -1 {
      assert name[..dot] + name[dot..] == name;
    }
  }

  /** The stem and extension of `base + ext` when `ext` begins with the only '.' after `base`. */
  lemma {:induction false} StemOfJoined(base: string, ext: string)
    requires ext != [] && ext[0] == '.' && '.' !in ext[1..]
    ensures Stem(base + ext) == base
    ensures Extension(base + ext) == ext
  {
    var s := base + ext;
    forall j | |base| < j < |s| ensures s[j] != '.' {
      assert s[j] == ext[1..][j - |base| - 1];
    }
    LastIndexOfAt(s, '.', |base|);
    assert s[..|base|] == base;
    assert s[|base|..] == ext;
  }

  /** A non-empty sequence is its front followed by its last element. */
  lemma FrontAndLast<T>(s: seq<T>)
    requires |s| >= 1
    ensures s[..|s| - 1] + [s[|s| - 1]] == s
  {
  }
}
