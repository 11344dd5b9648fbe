/**
 * Filling stores with classes: `DexStore::add_classes`, the loading loops of
 * `load_root_dexen` and `load_store_dexen`, and what they produce.
 */
module Stores {
  import opened Wrappers
  import opened Fs
  import opened DexOrder
  import opened External
  import opened Discovery

  /** A finished store as the stores vector holds it: its name and its classes in load order. */
  datatype StoreContents = StoreContents(name: string, classes: seq<DexClass>)

  /** A store being filled. */
  class DexStore {
    var name: string
    var classes: seq<DexClass>

    /** `DexStore(name)`: an empty store with the given name. */
    constructor (name: string)
      ensures this.name == name && classes == []
    {
      this.name := name;
      classes := [];
    }

    /** `DexStore(metadata)`: an empty store named as its descriptor declares. */
    constructor FromMetadata(metadata: DexMetadata)
      ensures name == metadata.name && classes == []
    {
      name := metadata.name;
      classes := [];
    }

    function Contents(): StoreContents
      reads this
    {
      StoreContents(name, classes)
    }

    /** `add_classes`: appends the classes of one dex file. */
    method AddClasses(added: seq<DexClass>)
      modifies this
      ensures name == old(name)
      ensures classes == old(classes) + added
    {
      classes := classes + added;
    }
  }

  // ---------------------------------------------------------------------
  // Loading a list of dex files, stopping at the first failure

  /**
   * What loading `files` in order does: the file that failed, if any, the
   * classes appended until then, and the files whose load was attempted.
   */
  datatype Gathered = Gathered(failed: Option<Path>, classes: seq<DexClass>, attempted: seq<Path>)

  function Gather(env: Collaborators, files: seq<Path>): Gathered
    decreases |files|
  {
    if files == [] then Gathered(None, [], [])
    else
      var prev := Gather(env, files[..|files| - 1]);
      var last := files[|files| - 1];
      if prev.failed.Some? then prev
      else match LoadClassesFromDex(env, last)
        case None => Gathered(Some(last), prev.classes, prev.attempted + [last])
        case Some(loaded) => Gathered(None, prev.classes + loaded, prev.attempted + [last])
  }

  predicate AllLoad(env: Collaborators, files: seq<Path>) {
    forall i :: 0 <= i < |files| ==> LoadClassesFromDex(env, files[i]).Some?
  }

  /** The concatenation of the parts, in order. */
  function Flatten(parts: seq<seq<DexClass>>): seq<DexClass> {
    if parts == [] then [] else parts[0] + Flatten(parts[1..])
  }

  lemma {:induction false} FlattenAppend(parts: seq<seq<DexClass>>, last: seq<DexClass>)
    ensures Flatten(parts + [last]) == Flatten(parts) + last
  {
    if parts == [] {
      assert [] + [last] == [last];
    } else {
      FlattenAppend(parts[1..], last);
      assert (parts + [last])[1..] == parts[1..] + [last];
    }
  }

  /** The classes of each file, in file order. */
  function LoadedParts(env: Collaborators, files: seq<Path>): seq<seq<DexClass>>
    requires AllLoad(env, files)
  {
    seq(|files|, i requires 0 <= i < |files| => LoadClassesFromDex(env, files[i]).value)
  }

  /** Loading succeeds exactly when every file loads. */
  lemma {:induction false} GatherSucceedsIff(env: Collaborators, files: seq<Path>)
    ensures Gather(env, files).failed.None? <==> AllLoad(env, files)
    decreases |files|
  {
    if files != [] {
      var init := files[..|files| - 1];
      var last := files[|files| - 1];
      GatherSucceedsIff(env, init);
      if AllLoad(env, files) {
        assert AllLoad(env, init) by {
          forall i | 0 <= i < |init| ensures LoadClassesFromDex(env, init[i]).Some? {
            assert init[i] == files[i];
          }
        }
        assert LoadClassesFromDex(env, last).Some?;
      } else if AllLoad(env, init) {
        assert LoadClassesFromDex(env, last).None? by {
          forall i | 0 <= i < |files| - 1 ensures LoadClassesFromDex(env, files[i]).Some? {
            assert init[i] == files[i];
          }
        }
      }
    }
  }

  /**
   * When every file loads, every file was attempted and the classes are those
   * of each file, concatenated in file order.
   */
  lemma {:induction false} GatherConcatenates(env: Collaborators, files: seq<Path>)
    requires AllLoad(env, files)
    ensures Gather(env, files).attempted == files
    ensures Gather(env, files).classes == Flatten(LoadedParts(env, files))
    decreases |files|
  {
    if files != [] {
      var init := files[..|files| - 1];
      var last := files[|files| - 1];
      LoadedPartsSnoc(env, files);
      GatherConcatenates(env, init);
      GatherSucceedsIff(env, init);
      FlattenAppend(LoadedParts(env, init), LoadClassesFromDex(env, last).value);
      FrontAndLast(files);
    }
  }

  /** The classes of all the files are those of all but the last, then the last file's. */
  lemma LoadedPartsSnoc(env: Collaborators, files: seq<Path>)
    requires |files| >= 1 && AllLoad(env, files)
    ensures AllLoad(env, files[..|files| - 1])
    ensures LoadedParts(env, files)
      == LoadedParts(env, files[..|files| - 1]) + [LoadClassesFromDex(env, files[|files| - 1]).value]
  {
    var init := files[..|files| - 1];
    assert AllLoad(env, init) by {
      forall i | 0 <= i < |init| ensures LoadClassesFromDex(env, init[i]).Some? {
        assert init[i] == files[i];
      }
    }
  }

  /**
   * On failure, the attempted files are a prefix of `files` that ends with the
   * failing one and whose other files all loaded: nothing after the first
   * failure is attempted.
   */
  lemma {:induction false} GatherFailsFast(env: Collaborators, files: seq<Path>)
    ensures var g := Gather(env, files);
      g.failed.Some? ==>
        && 0 < |g.attempted| <= |files|
        && g.attempted == files[..|g.attempted|]
        && g.failed.value == g.attempted[|g.attempted| - 1]
        && LoadClassesFromDex(env, g.failed.value).None?
        && AllLoad(env, g.attempted[..|g.attempted| - 1])
    decreases |files|
  {
    if files != [] {
      var init := files[..|files| - 1];
      GatherFailsFast(env, init);
      var g := Gather(env, init);
      if g.failed.Some? {
        assert files[..|g.attempted|] == init[..|g.attempted|];
      } else {
        GatherSucceedsIff(env, init);
        GatherConcatenates(env, init);
        FrontAndLast(files);
      }
    }
  }

  /** Once a prefix has failed, the rest of the files change nothing. */
  lemma {:induction false} GatherStops(env: Collaborators, files: seq<Path>, k: nat)
    requires k <= |files| && Gather(env, files[..k]).failed.Some?
    ensures Gather(env, files) == Gather(env, files[..k])
    decreases |files| - k
  {
    if k < |files| {
      var init := files[..|files| - 1];
      assert init[..k] == files[..k];
      GatherStops(env, init, k);
    } else {
      assert files[..k] == files;
    }
  }

  /**
   * The loading loop shared by `load_root_dexen` and `load_store_dexen`: load
   * each file in order and append its classes, stopping at the first file that
   * does not load.
   */
  method AddDexen(store: DexStore, env: Collaborators, files: seq<Path>) returns (failed: Option<Path>, attempted: seq<Path>)
    modifies store
    ensures store.name == old(store.name)
    ensures |old(store.classes)| <= |store.classes| && store.classes[..|old(store.classes)|] == old(store.classes)
    ensures Gathered(failed, store.classes[|old(store.classes)|..], attempted) == Gather(env, files)
  {
    ghost var start := store.classes;
    failed, attempted := None, [];
    for i := 0 to |files|
      invariant store.name == old(store.name)
      invariant |start| <= |store.classes| && store.classes[..|start|] == start
      invariant Gather(env, files[..i]) == Gathered(None, store.classes[|start|..], attempted)
    {
      var file := files[i];
      assert files[..i + 1][..i] == files[..i];
      var loaded := LoadClassesFromDex(env, file);
      attempted := attempted + [file];
      if loaded.None? {
        failed := Some(file);
        GatherStops(env, files, i + 1);
        return;
      }
      store.AddClasses(loaded.value);
    }
    assert files[..|files|] == files;
  }

  /**
   * `load_root_dexen`: discover the dex files of `dir`, sort them with the
   * comparator, and load them into the store in that order. Returns the order
   * used, which is a sorted permutation of the dex files.
   */
  method LoadRootDexen(store: DexStore, fs: FileSystem, env: Collaborators, dir: Path)
    returns (order: seq<Path>, failed: Option<Path>, attempted: seq<Path>)
    modifies store
    ensures Sorted(order) && multiset(order) == multiset(DexFiles(fs, dir))
    ensures store.name == old(store.name)
    ensures |old(store.classes)| <= |store.classes| && store.classes[..|old(store.classes)|] == old(store.classes)
    ensures Gathered(failed, store.classes[|old(store.classes)|..], attempted) == Gather(env, order)
  {
    var dexen := DiscoverDexen(fs, dir);
    var sorted := new Path[|dexen|](i requires 0 <= i < |dexen| => dexen[i]);
    assert sorted[..] == dexen;
    SortDexen(sorted);
    order := sorted[..];
    failed, attempted := AddDexen(store, env, order);
  }

  /** `load_store_dexen`: load the descriptor's files into the store, in declared order. */
  method LoadStoreDexen(store: DexStore, env: Collaborators, metadata: DexMetadata)
    returns (failed: Option<Path>, attempted: seq<Path>)
    modifies store
    ensures store.name == old(store.name)
    ensures |old(store.classes)| <= |store.classes| && store.classes[..|old(store.classes)|] == old(store.classes)
    ensures Gathered(failed, store.classes[|old(store.classes)|..], attempted) == Gather(env, metadata.files)
  {
    failed, attempted := AddDexen(store, env, metadata.files);
  }

  /** Every file of a sorted root order is a dex file of the directory, and every dex file is in it. */
  lemma RootOrderMembers(fs: FileSystem, dir: Path, order: seq<Path>)
    requires multiset(order) == multiset(DexFiles(fs, dir))
    ensures forall p :: p in order <==> p in Entries(fs, dir) && IsDexFile(fs, p)
  {
    DexFilterCounts(fs, Entries(fs, dir));
    forall p ensures p in order <==> p in Entries(fs, dir) && IsDexFile(fs, p) {
      assert p in order <==> multiset(order)[p] > 0;
      assert p in Entries(fs, dir) <==> multiset(Entries(fs, dir))[p] > 0;
    }
  }
}
