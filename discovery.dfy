/**
 * What the store assembler finds in the dexen directory: the dex files of the
 * primary store (`load_root_dexen`, discovery and sort) and the module
 * subdirectories (`list_modules`).
 */
module Discovery {
  import opened Fs
  import opened DexOrder
  import opened Sorting

  // ---------------------------------------------------------------------
  // Dex files

  /** A regular file whose extension is exactly ".dex". */
  predicate IsDexFile(fs: FileSystem, p: Path) {
    IsRegularFile(fs, p) && Extension(FileName(p)) == ".dex"
  }

  /** The dex files among `entries`, in the order of `entries`. */
  function DexFilter(fs: FileSystem, entries: seq<Path>): seq<Path>
    decreases |entries|
  {
    if entries == [] then []
    else
      var kept := DexFilter(fs, entries[..|entries| - 1]);
      var last := entries[|entries| - 1];
      if IsDexFile(fs, last) then kept + [last] else kept
  }

  /** The dex files directly inside `dir`, in directory-iteration order. */
  function DexFiles(fs: FileSystem, dir: Path): seq<Path> {
    DexFilter(fs, Entries(fs, dir))
  }

  /** The filter keeps exactly the dex files, each as often as it occurs. */
  lemma {:induction false} DexFilterCounts(fs: FileSystem, entries: seq<Path>)
    ensures forall p :: multiset(DexFilter(fs, entries))[p] == if IsDexFile(fs, p) then multiset(entries)[p] else 0
    decreases |entries|
  {
    if entries != [] {
      var init := entries[..|entries| - 1];
      DexFilterCounts(fs, init);
      FrontAndLast(entries);
    }
  }

  /** The filter keeps the order: filtering a concatenation concatenates the filtered parts. */
  lemma {:induction false} DexFilterAppend(fs: FileSystem, front: seq<Path>, back: seq<Path>)
    ensures DexFilter(fs, front + back) == DexFilter(fs, front) + DexFilter(fs, back)
    decreases |back|
  {
    if back != [] {
      var init := back[..|back| - 1];
      DexFilterAppend(fs, front, init);
      assert (front + back)[..|front + back| - 1] == front + init;
      assert (front + back)[|front + back| - 1] == back[|back| - 1];
    } else {
      assert front + back == front;
    }
  }

  /**
   * The discovery loop of `load_root_dexen`: walk the directory and keep the
   * regular files whose extension is ".dex".
   */
  method DiscoverDexen(fs: FileSystem, dir: Path) returns (dexen: seq<Path>)
    ensures dexen == DexFiles(fs, dir)
  {
    var entries := Entries(fs, dir);
    dexen := [];
    for i := 0 to |entries|
      invariant dexen == DexFilter(fs, entries[..i])
    {
      var file := entries[i];
      if IsRegularFile(fs, file) && Extension(FileName(file)) == ".dex" {
        dexen := dexen + [file];
      }
      assert entries[..i + 1][..i] == entries[..i];
    }
    assert entries[..|entries|] == entries;
  }

  /** Sorts the discovered files in place with the dex comparator, as `load_root_dexen` does with `std::sort`. */
  method SortDexen(a: array<Path>)
    modifies a
    ensures Sorted(a[..])
    ensures multiset(a[..]) == old(multiset(a[..]))
  {
    DexLessIsStrictWeakOrder();
    SortBy(a, DexLess);
  }

  // ---------------------------------------------------------------------
  // Modules

  /** The descriptor of a module directory `D`: the file `D/D.json`. */
  function Descriptor(moduleDir: Path): Path {
    moduleDir + [FileName(moduleDir) + ".json"]
  }

  /** A directory holding a regular file named after itself with ".json" appended. */
  predicate IsModuleDir(fs: FileSystem, p: Path) {
    var descriptor := Descriptor(p);
    IsDirectory(fs, p) && IsRegularFile(fs, descriptor) && Exists(fs, descriptor)
  }

  /** The names among `names` that are modules of `dir`, in the order of `names`. */
  function ModuleFilter(fs: FileSystem, dir: Path, names: seq<Segment>): seq<Segment>
    decreases |names|
  {
    if names == [] then []
    else
      var kept := ModuleFilter(fs, dir, names[..|names| - 1]);
      var last := names[|names| - 1];
      if IsModuleDir(fs, dir + [last]) then kept + [last] else kept
  }

  /** The modules of `dir`, in directory-iteration order. */
  function ModuleNames(fs: FileSystem, dir: Path): seq<Segment> {
    ModuleFilter(fs, dir, Listing(fs, dir))
  }

  /** A name is kept exactly when it is listed and names a module directory. */
  lemma {:induction false} ModuleFilterMembers(fs: FileSystem, dir: Path, names: seq<Segment>)
    ensures forall m :: m in ModuleFilter(fs, dir, names) <==> m in names && IsModuleDir(fs, dir + [m])
    decreases |names|
  {
    if names != [] {
      var init := names[..|names| - 1];
      ModuleFilterMembers(fs, dir, init);
      FrontAndLast(names);
    }
  }

  /** The filter keeps the listing order and adds nothing. */
  lemma {:induction false} ModuleFilterAppend(fs: FileSystem, dir: Path, front: seq<Segment>, back: seq<Segment>)
    ensures ModuleFilter(fs, dir, front + back) == ModuleFilter(fs, dir, front) + ModuleFilter(fs, dir, back)
    decreases |back|
  {
    if back != [] {
      var init := back[..|back| - 1];
      ModuleFilterAppend(fs, dir, front, init);
      assert (front + back)[..|front + back| - 1] == front + init;
      assert (front + back)[|front + back| - 1] == back[|back| - 1];
    } else {
      assert front + back == front;
    }
  }

  /**
   * `list_modules`: walk the directory and keep the name of each entry `D`
   * that is a directory with a regular file `D/D.json`.
   */
  method ListModules(fs: FileSystem, dir: Path) returns (modules: seq<Segment>)
    ensures modules == ModuleNames(fs, dir)
  {
    var entries := Entries(fs, dir);
    ghost var names := Listing(fs, dir);
    modules := [];
    for i := 0 to |entries|
      invariant modules == ModuleFilter(fs, dir, names[..i])
    {
      var file := entries[i];
      var metadata := file + [FileName(file) + ".json"];
      assert file == dir + [names[i]] && FileName(file) == names[i];
      if IsDirectory(fs, file) && IsRegularFile(fs, metadata) && Exists(fs, metadata) {
        modules := modules + [FileName(file)];
      }
      assert names[..i + 1][..i] == names[..i];
    }
    assert names[..|names|] == names;
  }
}
