/**
 * What `Tool::init` guarantees, stated on `Assemble` and `BuildModuleStores`:
 * when it succeeds and what it then returns, which error it throws otherwise,
 * and the order of its loader calls.
 */
module ToolProperties {
  import opened Wrappers
  import opened Fs
  import opened External
  import opened Discovery
  import opened Stores
  import opened Tool

  /** The module's descriptor parses and every file it declares loads. */
  predicate ModuleLoads(env: Collaborators, dir: Path, name: Segment) {
    var metadata := ParseDescriptor(env, DescriptorPath(dir, name));
    metadata.Some? && AllLoad(env, metadata.value.files)
  }

  /** The store built for a module that loads: its declared name and its files' classes in declared order. */
  function ModuleStore(env: Collaborators, dir: Path, name: Segment): StoreContents
    requires ModuleLoads(env, dir, name)
  {
    var metadata := ParseDescriptor(env, DescriptorPath(dir, name)).value;
    StoreContents(metadata.name, Flatten(LoadedParts(env, metadata.files)))
  }

  /**
   * The module loop succeeds exactly when every module loads, and then holds
   * one store per module, in module order.
   */
  lemma {:induction false} BuildModuleStoresShape(env: Collaborators, dir: Path, names: seq<Segment>)
    ensures var r := BuildModuleStores(env, dir, names);
      && (r.result.Ok? <==> forall i :: 0 <= i < |names| ==> ModuleLoads(env, dir, names[i]))
      && (r.result.Ok? ==>
            && |r.result.value| == |names|
            && forall i :: 0 <= i < |names| ==> r.result.value[i] == ModuleStore(env, dir, names[i]))
    decreases |names|
  {
    if names != [] {
      var init := names[..|names| - 1];
      var last := names[|names| - 1];
      BuildModuleStoresShape(env, dir, init);
      assert forall i :: 0 <= i < |init| ==> init[i] == names[i];
      var prev := BuildModuleStores(env, dir, init);
      if prev.result.Ok? {
        var metadata := ParseDescriptor(env, DescriptorPath(dir, last));
        if metadata.Some? {
          GatherSucceedsIff(env, metadata.value.files);
          if AllLoad(env, metadata.value.files) {
            GatherConcatenates(env, metadata.value.files);
          }
        }
      }
    }
  }

  /**
   * A failing module loop stopped at the first module that does not load:
   * the modules before it all loaded, and the run is the loop over the
   * modules up to and including it.
   */
  lemma {:induction false} BuildModuleStoresFailsFast(env: Collaborators, dir: Path, names: seq<Segment>)
    ensures var r := BuildModuleStores(env, dir, names);
      r.result.Err? ==> exists k ::
        && 0 <= k < |names|
        && BuildModuleStores(env, dir, names[..k]).result.Ok?
        && !ModuleLoads(env, dir, names[k])
        && r == BuildModuleStores(env, dir, names[..k + 1])
    decreases |names|
  {
    if names != [] {
      var init := names[..|names| - 1];
      BuildModuleStoresFailsFast(env, dir, init);
      var prev := BuildModuleStores(env, dir, init);
      if prev.result.Err? {
        var k :| && 0 <= k < |init|
                 && BuildModuleStores(env, dir, init[..k]).result.Ok?
                 && !ModuleLoads(env, dir, init[k])
                 && prev == BuildModuleStores(env, dir, init[..k + 1]);
        assert init[..k] == names[..k] && init[..k + 1] == names[..k + 1] && init[k] == names[k];
      } else {
        LastModuleFails(env, dir, names);
        var k := |names| - 1;
        assert names[..k] == init && names[..k + 1] == names;
      }
    }
  }

  /** When the loop fails only at the last module, that module does not load. */
  lemma LastModuleFails(env: Collaborators, dir: Path, names: seq<Segment>)
    requires names != [] && BuildModuleStores(env, dir, names[..|names| - 1]).result.Ok?
    ensures BuildModuleStores(env, dir, names).result.Err? ==> !ModuleLoads(env, dir, names[|names| - 1])
  {
    var metadata := ParseDescriptor(env, DescriptorPath(dir, names[|names| - 1]));
    if metadata.Some? {
      GatherSucceedsIff(env, metadata.value.files);
    }
  }

  /**
   * The error of the module that stops the loop: its descriptor path when the
   * descriptor does not parse, otherwise the first declared file that does
   * not load, after the files before it.
   */
  lemma ModuleFailureError(env: Collaborators, dir: Path, names: seq<Segment>, k: nat)
    requires k < |names| && BuildModuleStores(env, dir, names[..k]).result.Ok?
    requires !ModuleLoads(env, dir, names[k])
    ensures var path := DescriptorPath(dir, names[k]);
      var metadata := ParseDescriptor(env, path);
      var before := BuildModuleStores(env, dir, names[..k]).trace + [DescriptorParse(path)];
      var r := BuildModuleStores(env, dir, names[..k + 1]);
      && (metadata.None? ==> r == Run(Err(DescriptorParseFailure(path)), before))
      && (metadata.Some? ==> exists j ::
            && 0 <= j < |metadata.value.files|
            && LoadClassesFromDex(env, metadata.value.files[j]).None?
            && AllLoad(env, metadata.value.files[..j])
            && r == Run(Err(ArchiveLoadFailure(metadata.value.files[j])),
                        before + DexAttempts(metadata.value.files[..j + 1])))
  {
    assert names[..k + 1][..k] == names[..k];
    var metadata := ParseDescriptor(env, DescriptorPath(dir, names[k]));
    if metadata.Some? {
      var files := metadata.value.files;
      GatherSucceedsIff(env, files);
      GatherFailsFast(env, files);
      var attempted := Gather(env, files).attempted;
      var j := |attempted| - 1;
      assert attempted == files[..j + 1];
      assert files[j] == attempted[j];
      assert AllLoad(env, files[..j]) by {
        forall i | 0 <= i < j ensures LoadClassesFromDex(env, files[..j][i]).Some? {
          assert files[..j][i] == attempted[..j][i];
        }
      }
    }
  }

  /** No call in `trace` loads a jar. */
  predicate LoadsNoJar(trace: seq<Attempt>) {
    forall i :: 0 <= i < |trace| ==> !trace[i].JarLoad?
  }

  lemma LoadsNoJarAppend(front: seq<Attempt>, back: seq<Attempt>)
    requires LoadsNoJar(front) && LoadsNoJar(back)
    ensures LoadsNoJar(front + back)
  {
    forall i | 0 <= i < |front + back| ensures !(front + back)[i].JarLoad? {
      if i >= |front| {
        assert (front + back)[i] == back[i - |front|];
      }
    }
  }

  /** The module loop only parses descriptors and loads dex files; it never loads a jar. */
  lemma {:induction false} BuildModuleStoresLoadsNoJar(env: Collaborators, dir: Path, names: seq<Segment>)
    ensures LoadsNoJar(BuildModuleStores(env, dir, names).trace)
    decreases |names|
  {
    if names != [] {
      var prev := BuildModuleStores(env, dir, names[..|names| - 1]);
      BuildModuleStoresLoadsNoJar(env, dir, names[..|names| - 1]);
      if prev.result.Ok? {
        var path := DescriptorPath(dir, names[|names| - 1]);
        var parseTrace := prev.trace + [DescriptorParse(path)];
        LoadsNoJarAppend(prev.trace, [DescriptorParse(path)]);
        var metadata := ParseDescriptor(env, path);
        if metadata.Some? {
          var dexTrace := DexAttempts(Gather(env, metadata.value.files).attempted);
          LoadsNoJarAppend(parseTrace, dexTrace);
        }
      }
    }
  }

  /**
   * Initialisation succeeds exactly when the dexen path is a directory, every
   * system jar loads, every root dex file loads and every module loads.
   */
  lemma AssembleSucceedsIff(fs: FileSystem, env: Collaborators, jars: seq<string>, dir: Path, rootOrder: seq<Path>)
    ensures var modules := ModuleNames(fs, dir);
      Assemble(fs, env, jars, dir, rootOrder).result.Ok? <==>
        && IsDirectory(fs, dir)
        && AllJarsLoad(env, jars)
        && AllLoad(env, rootOrder)
        && forall i :: 0 <= i < |modules| ==> ModuleLoads(env, dir, modules[i])
  {
    LoadJarsSucceedsIff(env, jars);
    GatherSucceedsIff(env, rootOrder);
    BuildModuleStoresShape(env, dir, ModuleNames(fs, dir));
  }

  /**
   * A successful initialisation returns one store more than there are
   * modules: first "dex" with the root files' classes in load order, then
   * each module's store in module order.
   */
  lemma AssembleStores(fs: FileSystem, env: Collaborators, jars: seq<string>, dir: Path, rootOrder: seq<Path>)
    requires Assemble(fs, env, jars, dir, rootOrder).result.Ok?
    ensures var stores := Assemble(fs, env, jars, dir, rootOrder).result.value;
      var modules := ModuleNames(fs, dir);
      && |stores| == 1 + |modules|
      && AllLoad(env, rootOrder)
      && stores[0] == StoreContents("dex", Flatten(LoadedParts(env, rootOrder)))
      && forall i :: 0 <= i < |modules| ==> ModuleLoads(env, dir, modules[i]) && stores[i + 1] == ModuleStore(env, dir, modules[i])
  {
    var stores := Assemble(fs, env, jars, dir, rootOrder).result.value;
    var modules := ModuleNames(fs, dir);
    GatherSucceedsIff(env, rootOrder);
    GatherConcatenates(env, rootOrder);
    BuildModuleStoresShape(env, dir, modules);
    var built := BuildModuleStores(env, dir, modules).result.value;
    assert stores == [StoreContents("dex", Gather(env, rootOrder).classes)] + built;
    forall i | 0 <= i < |modules| ensures stores[i + 1] == built[i] {
    }
  }

  /** A dexen path that is not a directory is rejected before anything is loaded. */
  lemma AssembleChecksDirectoryFirst(fs: FileSystem, env: Collaborators, jars: seq<string>, dir: Path, rootOrder: seq<Path>)
    requires !IsDirectory(fs, dir)
    ensures Assemble(fs, env, jars, dir, rootOrder) == Run(Err(NotADirectory(dir)), [])
  {
  }

  /**
   * A system jar that does not load fails initialisation with that jar, the
   * first of the split list that does not load; only the jars up to it were
   * attempted and no dex file or descriptor was touched.
   */
  lemma AssembleJarFailure(fs: FileSystem, env: Collaborators, jars: seq<string>, dir: Path, rootOrder: seq<Path>)
    requires IsDirectory(fs, dir) && !AllJarsLoad(env, jars)
    ensures exists k ::
      && 0 <= k < |jars| && !LoadJarFile(env, jars[k])
      && AllJarsLoad(env, jars[..k])
      && Assemble(fs, env, jars, dir, rootOrder) == Run(Err(JarLoadFailure(jars[k])), JarAttempts(jars[..k + 1]))
  {
    LoadJarsSucceedsIff(env, jars);
    LoadJarsFailsFast(env, jars);
    var attempted := LoadJars(env, jars).attempted;
    var k := |attempted| - 1;
    assert attempted == jars[..k + 1];
    assert jars[k] == attempted[k];
    assert AllJarsLoad(env, jars[..k]) by {
      forall i | 0 <= i < k ensures LoadJarFile(env, jars[..k][i]) {
        assert jars[..k][i] == attempted[i];
      }
    }
  }

  /**
   * After the jars, a root dex file that does not load aborts `init` with the
   * first such file of the sorted order; only the files up to it were
   * attempted, after all the jars, and no descriptor was parsed.
   */
  lemma AssembleRootFailure(fs: FileSystem, env: Collaborators, jars: seq<string>, dir: Path, rootOrder: seq<Path>)
    requires IsDirectory(fs, dir) && AllJarsLoad(env, jars) && !AllLoad(env, rootOrder)
    ensures exists k ::
      && 0 <= k < |rootOrder| && LoadClassesFromDex(env, rootOrder[k]).None?
      && AllLoad(env, rootOrder[..k])
      && Assemble(fs, env, jars, dir, rootOrder)
         == Run(Err(ArchiveLoadFailure(rootOrder[k])), JarAttempts(jars) + DexAttempts(rootOrder[..k + 1]))
  {
    LoadJarsSucceedsIff(env, jars);
    GatherSucceedsIff(env, rootOrder);
    GatherFailsFast(env, rootOrder);
    var attempted := Gather(env, rootOrder).attempted;
    var k := |attempted| - 1;
    assert attempted == rootOrder[..k + 1];
    assert rootOrder[k] == attempted[k];
    assert AllLoad(env, rootOrder[..k]) by {
      forall i | 0 <= i < k ensures LoadClassesFromDex(env, rootOrder[..k][i]).Some? {
        assert rootOrder[..k][i] == attempted[..k][i];
      }
    }
  }

  /**
   * After the jars and the root dex files, the first module that does not
   * load ends the initialisation: its error (`ModuleFailureError`) is
   * reported, and the trace is every jar load, every root load, then the
   * module loop up to and including that module.
   */
  lemma AssembleModuleFailure(fs: FileSystem, env: Collaborators, jars: seq<string>, dir: Path, rootOrder: seq<Path>)
    requires IsDirectory(fs, dir) && AllJarsLoad(env, jars) && AllLoad(env, rootOrder)
    requires !Assemble(fs, env, jars, dir, rootOrder).result.Ok?
    ensures var modules := ModuleNames(fs, dir);
      exists k ::
        && 0 <= k < |modules|
        && (forall i :: 0 <= i < k ==> ModuleLoads(env, dir, modules[i]))
        && !ModuleLoads(env, dir, modules[k])
        && var r := BuildModuleStores(env, dir, modules[..k + 1]);
           Assemble(fs, env, jars, dir, rootOrder)
           == Run(r.result, JarAttempts(jars) + DexAttempts(rootOrder) + r.trace)
  {
    var modules := ModuleNames(fs, dir);
    AssembleModulePhase(fs, env, jars, dir, rootOrder);
    BuildModuleStoresFailsFast(env, dir, modules);
    var k :| && 0 <= k < |modules|
             && BuildModuleStores(env, dir, modules[..k]).result.Ok?
             && !ModuleLoads(env, dir, modules[k])
             && BuildModuleStores(env, dir, modules) == BuildModuleStores(env, dir, modules[..k + 1]);
    PrefixModulesLoad(env, dir, modules, k);
  }

  /** Past the jars and the root dex files, an initialisation is the module loop after their loads. */
  lemma AssembleModulePhase(fs: FileSystem, env: Collaborators, jars: seq<string>, dir: Path, rootOrder: seq<Path>)
    requires IsDirectory(fs, dir) && AllJarsLoad(env, jars) && AllLoad(env, rootOrder)
    requires !Assemble(fs, env, jars, dir, rootOrder).result.Ok?
    ensures var m := BuildModuleStores(env, dir, ModuleNames(fs, dir));
      && m.result.Err?
      && Assemble(fs, env, jars, dir, rootOrder) == Run(m.result, JarAttempts(jars) + DexAttempts(rootOrder) + m.trace)
  {
    LoadJarsSucceedsIff(env, jars);
    GatherSucceedsIff(env, rootOrder);
    GatherConcatenates(env, rootOrder);
  }

  /** The modules before one at which the loop is still successful all loaded. */
  lemma PrefixModulesLoad(env: Collaborators, dir: Path, names: seq<Segment>, k: nat)
    requires k <= |names| && BuildModuleStores(env, dir, names[..k]).result.Ok?
    ensures forall i :: 0 <= i < k ==> ModuleLoads(env, dir, names[i])
  {
    BuildModuleStoresShape(env, dir, names[..k]);
    assert forall i :: 0 <= i < k ==> names[..k][i] == names[i];
  }

  /** The loader calls of an initialisation, phase by phase: jars, root dex files, modules. */
  lemma AssembleTraceParts(fs: FileSystem, env: Collaborators, jars: seq<string>, dir: Path, rootOrder: seq<Path>)
    requires IsDirectory(fs, dir)
    ensures var r := Assemble(fs, env, jars, dir, rootOrder);
      var loaded := LoadJars(env, jars);
      var root := Gather(env, rootOrder);
      && (!AllJarsLoad(env, jars) ==> r.trace == JarAttempts(loaded.attempted))
      && (AllJarsLoad(env, jars) && !AllLoad(env, rootOrder) ==>
            r.trace == JarAttempts(jars) + DexAttempts(root.attempted))
      && (AllJarsLoad(env, jars) && AllLoad(env, rootOrder) ==>
            r.trace == JarAttempts(jars) + DexAttempts(rootOrder) + BuildModuleStores(env, dir, ModuleNames(fs, dir)).trace)
  {
    LoadJarsSucceedsIff(env, jars);
    GatherSucceedsIff(env, rootOrder);
    if AllLoad(env, rootOrder) {
      GatherConcatenates(env, rootOrder);
    }
  }

  /** Jar loads come first, in split order: no other loader call precedes one. */
  lemma AssembleJarsFirst(fs: FileSystem, env: Collaborators, jars: seq<string>, dir: Path, rootOrder: seq<Path>)
    ensures var r := Assemble(fs, env, jars, dir, rootOrder);
      && (forall i :: 0 <= i < |r.trace| && r.trace[i].JarLoad? ==> i < |jars| && r.trace[i] == JarLoad(jars[i]))
      && (forall i, j :: 0 <= i < j < |r.trace| && r.trace[j].JarLoad? ==> r.trace[i].JarLoad?)
  {
    if IsDirectory(fs, dir) {
      var attempted, rest := AssembleJarPhase(fs, env, jars, dir, rootOrder);
      JarPhaseOrder(jars, attempted, rest);
    }
  }

  /** Past the directory check, the loader calls are the jar loads of a prefix of the split list, then calls that load no jar. */
  lemma AssembleJarPhase(fs: FileSystem, env: Collaborators, jars: seq<string>, dir: Path, rootOrder: seq<Path>)
    returns (attempted: seq<string>, rest: seq<Attempt>)
    requires IsDirectory(fs, dir)
    ensures var jars := jars;
      |attempted| <= |jars| && attempted == jars[..|attempted|]
    ensures LoadsNoJar(rest)
    ensures Assemble(fs, env, jars, dir, rootOrder).trace == JarAttempts(attempted) + rest
  {
    LoadJarsSucceedsIff(env, jars);
    LoadJarsFailsFast(env, jars);
    attempted := LoadJars(env, jars).attempted;
    if !AllJarsLoad(env, jars) {
      rest := [];
      assert JarAttempts(attempted) + rest == JarAttempts(attempted);
    } else {
      assert attempted == jars && jars[..|jars|] == jars;
      rest := AfterJarPhase(fs, env, jars, dir, rootOrder);
    }
  }

  /** Once every jar has loaded, the remaining loader calls load no jar. */
  lemma AfterJarPhase(fs: FileSystem, env: Collaborators, jars: seq<string>, dir: Path, rootOrder: seq<Path>)
    returns (rest: seq<Attempt>)
    requires IsDirectory(fs, dir) && AllJarsLoad(env, jars)
    ensures LoadsNoJar(rest)
    ensures Assemble(fs, env, jars, dir, rootOrder).trace == JarAttempts(jars) + rest
  {
    AssembleTraceParts(fs, env, jars, dir, rootOrder);
    if AllLoad(env, rootOrder) {
      var modules := BuildModuleStores(env, dir, ModuleNames(fs, dir));
      BuildModuleStoresLoadsNoJar(env, dir, ModuleNames(fs, dir));
      LoadsNoJarAppend(DexAttempts(rootOrder), modules.trace);
      rest := DexAttempts(rootOrder) + modules.trace;
      assert JarAttempts(jars) + DexAttempts(rootOrder) + modules.trace
        == JarAttempts(jars) + rest;
    } else {
      rest := DexAttempts(Gather(env, rootOrder).attempted);
      assert forall i :: 0 <= i < |rest| ==> rest[i].DexLoad?;
    }
  }

  /** A trace made of the jar loads of a prefix of `jars` followed by calls that load no jar. */
  lemma JarPhaseOrder(jars: seq<string>, attempted: seq<string>, rest: seq<Attempt>)
    requires |attempted| <= |jars| && attempted == jars[..|attempted|]
    requires LoadsNoJar(rest)
    ensures var trace := JarAttempts(attempted) + rest;
      && (forall i :: 0 <= i < |trace| && trace[i].JarLoad? ==> i < |jars| && trace[i] == JarLoad(jars[i]))
      && (forall i, j :: 0 <= i < j < |trace| && trace[j].JarLoad? ==> trace[i].JarLoad?)
  {
  }

  /** A descriptor is parsed only after every jar and every root dex file has loaded, and after all those loads. */
  lemma AssembleRootBeforeModules(fs: FileSystem, env: Collaborators, jars: seq<string>, dir: Path, rootOrder: seq<Path>)
    ensures var r := Assemble(fs, env, jars, dir, rootOrder);
      forall j :: 0 <= j < |r.trace| && r.trace[j].DescriptorParse? ==>
        && AllJarsLoad(env, jars) && AllLoad(env, rootOrder)
        && |jars| + |rootOrder| <= j
  {
    var r := Assemble(fs, env, jars, dir, rootOrder);
    if IsDirectory(fs, dir) {
      AssembleTraceParts(fs, env, jars, dir, rootOrder);
      var prefix := if AllJarsLoad(env, jars) then JarAttempts(jars) + DexAttempts(Gather(env, rootOrder).attempted)
        else JarAttempts(LoadJars(env, jars).attempted);
      assert forall j :: 0 <= j < |prefix| ==> !prefix[j].DescriptorParse?;
      if AllJarsLoad(env, jars) && AllLoad(env, rootOrder) {
        GatherConcatenates(env, rootOrder);
        assert r.trace[..|prefix|] == prefix && |prefix| == |jars| + |rootOrder|;
      } else {
        assert r.trace == prefix;
      }
    }
  }

  /**
   * An empty dexen directory, once every system jar has loaded, yields exactly
   * one store: "dex", with no classes.
   */
  lemma EmptyDirectoryGivesOneEmptyStore(fs: FileSystem, env: Collaborators, jars: seq<string>, dir: Path, rootOrder: seq<Path>)
    requires IsDirectory(fs, dir) && Listing(fs, dir) == []
    requires AllJarsLoad(env, jars)
    requires multiset(rootOrder) == multiset(DexFiles(fs, dir))
    ensures Assemble(fs, env, jars, dir, rootOrder) == Run(Ok([StoreContents("dex", [])]), JarAttempts(jars))
  {
    LoadJarsSucceedsIff(env, jars);
    EmptyDirectoryContents(fs, dir);
    assert |rootOrder| == |multiset(rootOrder)| == 0;
    var jarTrace := JarAttempts(jars);
    assert LoadJars(env, jars) == JarsLoaded(None, jars);
    assert Gather(env, rootOrder) == Gathered(None, [], []);
    assert BuildModuleStores(env, dir, ModuleNames(fs, dir)) == Run(Ok([]), []);
    assert jarTrace + DexAttempts([]) + [] == jarTrace;
    assert [StoreContents("dex", [])] + [] == [StoreContents("dex", [])];
  }

  /** An empty directory has no dex file and no module. */
  lemma EmptyDirectoryContents(fs: FileSystem, dir: Path)
    requires Listing(fs, dir) == []
    ensures DexFiles(fs, dir) == [] && ModuleNames(fs, dir) == []
  {
    assert Entries(fs, dir) == [];
  }

  /**
   * A whole initialisation: a dexen directory holding `classes.dex` and a
   * module `base` whose descriptor `base/base.json` declares the files `a`
   * then `b`. The result is two stores: "dex" with the classes of
   * `classes.dex`, then the module's store, named as its descriptor declares,
   * with the classes of `a` followed by those of `b`.
   */
  lemma EndToEnd(fs: FileSystem, env: Collaborators, jars: seq<string>, dir: Path, rootOrder: seq<Path>,
                 rootClasses: seq<DexClass>, name: string, a: Path, b: Path, aClasses: seq<DexClass>, bClasses: seq<DexClass>)
    requires IsDirectory(fs, dir) && Listing(fs, dir) == ["classes.dex", "base"]
    requires IsRegularFile(fs, dir + ["classes.dex"])
    requires IsDirectory(fs, dir + ["base"]) && IsRegularFile(fs, dir + ["base", "base.json"])
    requires AllJarsLoad(env, jars)
    requires LoadClassesFromDex(env, dir + ["classes.dex"]) == Some(rootClasses)
    requires ParseDescriptor(env, dir + ["base", "base.json"]) == Some(DexMetadata(name, [a, b]))
    requires LoadClassesFromDex(env, a) == Some(aClasses) && LoadClassesFromDex(env, b) == Some(bClasses)
    requires multiset(rootOrder) == multiset(DexFiles(fs, dir))
    ensures Assemble(fs, env, jars, dir, rootOrder).result
      == Ok([StoreContents("dex", rootClasses), StoreContents(name, aClasses + bClasses)])
  {
    var classesDex := dir + ["classes.dex"];
    ExampleDexFiles(fs, dir);
    ExampleModules(fs, dir);
    assert rootOrder == [classesDex] by {
      assert |rootOrder| == 1;
      assert rootOrder[0] in multiset(rootOrder);
    }
    assert "base" + ".json" == "base.json";
    assert DescriptorPath(dir, "base") == dir + ["base", "base.json"];
    ExampleStores(env, rootClasses, a, b, aClasses, bClasses);
    assert AllLoad(env, rootOrder);
    assert LoadedParts(env, rootOrder) == [rootClasses];
    assert ModuleLoads(env, dir, "base");
    assert ModuleStore(env, dir, "base") == StoreContents(name, aClasses + bClasses);
    AssembleSucceedsIff(fs, env, jars, dir, rootOrder);
    AssembleStores(fs, env, jars, dir, rootOrder);
    var stores := Assemble(fs, env, jars, dir, rootOrder).result.value;
    assert stores[0] == StoreContents("dex", rootClasses);
    assert stores[1] == StoreContents(name, aClasses + bClasses);
    assert |stores| == 2;
    assert stores == [StoreContents("dex", rootClasses), StoreContents(name, aClasses + bClasses)];
  }

  /** In the example directory, `classes.dex` is the one dex file. */
  lemma ExampleDexFiles(fs: FileSystem, dir: Path)
    requires Listing(fs, dir) == ["classes.dex", "base"]
    requires IsRegularFile(fs, dir + ["classes.dex"]) && IsDirectory(fs, dir + ["base"])
    ensures DexFiles(fs, dir) == [dir + ["classes.dex"]]
  {
    var classesDex := dir + ["classes.dex"];
    var baseDir := dir + ["base"];
    assert Entries(fs, dir) == [classesDex, baseDir];
    assert IsDexFile(fs, classesDex) by {
      StemOfJoined("classes", ".dex");
      assert "classes" + ".dex" == "classes.dex";
    }
    assert !IsDexFile(fs, baseDir) by {
      assert !IsRegularFile(fs, baseDir);
    }
    DexFilterFirstOfTwo(fs, classesDex, baseDir);
  }

  lemma DexFilterFirstOfTwo(fs: FileSystem, a: Path, b: Path)
    requires IsDexFile(fs, a) && !IsDexFile(fs, b)
    ensures DexFilter(fs, [a, b]) == [a]
  {
    assert [a][..0] == [];
    assert DexFilter(fs, [a]) == [a];
    assert [a, b][..1] == [a];
  }

  /** In the example directory, `base` is the one module. */
  lemma ExampleModules(fs: FileSystem, dir: Path)
    requires Listing(fs, dir) == ["classes.dex", "base"]
    requires IsRegularFile(fs, dir + ["classes.dex"])
    requires IsDirectory(fs, dir + ["base"]) && IsRegularFile(fs, dir + ["base", "base.json"])
    ensures ModuleNames(fs, dir) == ["base"]
  {
    var baseDir := dir + ["base"];
    assert FileName(baseDir) + ".json" == "base.json";
    assert Descriptor(baseDir) == dir + ["base", "base.json"];
    assert IsModuleDir(fs, baseDir) && !IsModuleDir(fs, dir + ["classes.dex"]);
    var names := ["classes.dex", "base"];
    assert names[..1] == ["classes.dex"];
    assert ModuleFilter(fs, dir, ["classes.dex"]) == [] by {
      assert ["classes.dex"][..0] == [];
    }
  }

  /** The classes the example's stores receive. */
  lemma ExampleStores(env: Collaborators, rootClasses: seq<DexClass>, a: Path, b: Path, aClasses: seq<DexClass>, bClasses: seq<DexClass>)
    requires LoadClassesFromDex(env, a) == Some(aClasses) && LoadClassesFromDex(env, b) == Some(bClasses)
    ensures AllLoad(env, [a, b]) && Flatten(LoadedParts(env, [a, b])) == aClasses + bClasses
    ensures Flatten([rootClasses]) == rootClasses
  {
    assert LoadedParts(env, [a, b]) == [aClasses, bClasses];
    assert [aClasses, bClasses][1..] == [bClasses];
    assert [bClasses][1..] == [];
    assert Flatten([bClasses]) == bClasses + [] == bClasses;
    assert [rootClasses][1..] == [];
    assert Flatten([rootClasses]) == rootClasses + [];
  }
}
