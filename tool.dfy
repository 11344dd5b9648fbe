/**
 * `Tool::init`: check the dexen directory, load the system jars, then build
 * the root store "dex" and one store per module.
 *
 * `Assemble` says what an initialisation produces, given the order in which
 * the root dex files were sorted; `Init` is proved to produce exactly that.
 */
module Tool {
  import opened Wrappers
  import opened Fs
  import opened DexOrder
  import opened External
  import opened Discovery
  import opened Stores

  datatype ToolError =
    | NotADirectory(dir: Path)              // std::invalid_argument
    | JarLoadFailure(jar: string)           // std::runtime_error
    | ArchiveLoadFailure(path: Path)        // a dex file that does not load
    | DescriptorParseFailure(path: Path)    // a module descriptor that does not parse

  /** A call into a loader outside this model, in the order the calls happen. */
  datatype Attempt = JarLoad(jar: string) | DexLoad(path: Path) | DescriptorParse(path: Path)

  function JarAttempts(jars: seq<string>): (r: seq<Attempt>)
  {
    seq(|jars|, i requires 0 <= i < |jars| => JarLoad(jars[i]))
  }

  function DexAttempts(paths: seq<Path>): (r: seq<Attempt>)
  {
    seq(|paths|, i requires 0 <= i < |paths| => DexLoad(paths[i]))
  }

  // ---------------------------------------------------------------------
  // Splitting the system jar list at every ':' and every ',', keeping empty tokens

  predicate IsJarDelimiter(c: char) {
    c == ':' || c == ','
  }

  predicate NoDelimiter(s: string) {
    forall i :: 0 <= i < |s| ==> !IsJarDelimiter(s[i])
  }

  /** The tokens between delimiters, empty ones included; the empty string gives one empty token. */
  function SplitJars(s: string): (tokens: seq<string>)
    ensures |tokens| >= 1
    decreases |s|
  {
    if s == [] then [""]
    else
      var prev := SplitJars(s[..|s| - 1]);
      var c := s[|s| - 1];
      if IsJarDelimiter(c) then prev + [""]
      else ExtendLast(prev, [c])
  }

  /** `tokens` with `t` appended to its last token. */
  function ExtendLast(tokens: seq<string>, t: string): seq<string>
    requires |tokens| >= 1
  {
    tokens[..|tokens| - 1] + [tokens[|tokens| - 1] + t]
  }

  /** Extending the last token twice is extending it once by both. */
  lemma ExtendLastTwice(tokens: seq<string>, a: string, b: string)
    requires |tokens| >= 1
    ensures ExtendLast(ExtendLast(tokens, a), b) == ExtendLast(tokens, a + b)
  {
    assert tokens[|tokens| - 1] + a + b == tokens[|tokens| - 1] + (a + b);
  }

  function DelimiterCount(s: string): nat
    decreases |s|
  {
    if s == [] then 0
    else DelimiterCount(s[..|s| - 1]) + if IsJarDelimiter(s[|s| - 1]) then 1 else 0
  }

  /** There is one token more than there are delimiters, and no token holds a delimiter. */
  lemma {:induction false} SplitJarsShape(s: string)
    ensures |SplitJars(s)| == DelimiterCount(s) + 1
    ensures forall i :: 0 <= i < |SplitJars(s)| ==> NoDelimiter(SplitJars(s)[i])
    decreases |s|
  {
    if s != [] {
      var front := s[..|s| - 1];
      var c := s[|s| - 1];
      var prev := SplitJars(front);
      SplitJarsShape(front);
      FrontAndLast(s);
      SplitJarsSnoc(front, c);
      if !IsJarDelimiter(c) {
        var last := prev[|prev| - 1] + [c];
        assert NoDelimiter(last) by {
          forall i | 0 <= i < |last| ensures !IsJarDelimiter(last[i]) {
            if i < |last| - 1 { assert last[i] == prev[|prev| - 1][i]; }
          }
        }
        assert ExtendLast(prev, [c]) == prev[..|prev| - 1] + [last];
      }
    }
  }

  /** The tokens joined with `seps[i]` between tokens `i` and `i + 1`. */
  function JoinJars(tokens: seq<string>, seps: string): string
    requires |tokens| >= 1 && |seps| == |tokens| - 1
    decreases |tokens|
  {
    if |tokens| == 1 then tokens[0]
    else JoinJars(tokens[..|tokens| - 1], seps[..|seps| - 1]) + [seps[|seps| - 1]] + tokens[|tokens| - 1]
  }

  /** One more character either starts a new token (a delimiter) or extends the last one. */
  lemma SplitJarsSnoc(s: string, c: char)
    ensures SplitJars(s + [c]) == if IsJarDelimiter(c) then SplitJars(s) + [""]
      else ExtendLast(SplitJars(s), [c])
  {
    assert (s + [c])[..|s|] == s;
  }

  /** Text without a delimiter extends the last token. */
  lemma {:induction false} SplitJarsExtend(s: string, t: string)
    requires NoDelimiter(t)
    ensures SplitJars(s + t) == ExtendLast(SplitJars(s), t)
    decreases |t|
  {
    var tokens := SplitJars(s);
    if t == [] {
      assert s + t == s;
      assert tokens[|tokens| - 1] + t == tokens[|tokens| - 1];
      FrontAndLast(tokens);
    } else {
      var init := t[..|t| - 1];
      var c := t[|t| - 1];
      SplitJarsExtend(s, init);
      FrontAndLast(t);
      assert s + t == (s + init) + [c];
      assert !IsJarDelimiter(c);
      SplitJarsSnoc(s + init, c);
      ExtendLastTwice(tokens, init, [c]);
    }
  }

  /**
   * Splitting a list joined with delimiters, `:` and `,` mixed in any way,
   * gives back the list, empty tokens included.
   */
  lemma {:induction false} SplitJoinJars(tokens: seq<string>, seps: string)
    requires |tokens| >= 1 && |seps| == |tokens| - 1
    requires forall i :: 0 <= i < |seps| ==> IsJarDelimiter(seps[i])
    requires forall i :: 0 <= i < |tokens| ==> NoDelimiter(tokens[i])
    ensures SplitJars(JoinJars(tokens, seps)) == tokens
    decreases |tokens|
  {
    if |tokens| == 1 {
      var only := tokens[0];
      assert SplitJars(only) == [only] by {
        SplitJarsExtend("", only);
        assert "" + only == only;
        assert ExtendLast([""], only) == [only];
      }
      assert tokens == [only];
    } else {
      var init := tokens[..|tokens| - 1];
      var initSeps := seps[..|seps| - 1];
      forall i | 0 <= i < |init| ensures NoDelimiter(init[i]) {
        assert init[i] == tokens[i];
      }
      forall i | 0 <= i < |initSeps| ensures IsJarDelimiter(initSeps[i]) {
        assert initSeps[i] == seps[i];
      }
      SplitJoinJars(init, initSeps);
      SplitJoinStep(tokens, seps);
    }
  }

  /** If splitting undoes joining for all tokens but the last, it does for all of them. */
  lemma SplitJoinStep(tokens: seq<string>, seps: string)
    requires |tokens| >= 2 && |seps| == |tokens| - 1
    requires IsJarDelimiter(seps[|seps| - 1]) && NoDelimiter(tokens[|tokens| - 1])
    requires SplitJars(JoinJars(tokens[..|tokens| - 1], seps[..|seps| - 1])) == tokens[..|tokens| - 1]
    ensures SplitJars(JoinJars(tokens, seps)) == tokens
  {
    var joined := JoinJars(tokens[..|tokens| - 1], seps[..|seps| - 1]);
    assert JoinJars(tokens, seps) == joined + [seps[|seps| - 1]] + tokens[|tokens| - 1];
    SplitAfterDelimiter(joined, seps[|seps| - 1], tokens[|tokens| - 1]);
    FrontAndLast(tokens);
  }

  /** A delimiter followed by text without one adds that text as a new last token. */
  lemma SplitAfterDelimiter(s: string, sep: char, last: string)
    requires IsJarDelimiter(sep) && NoDelimiter(last)
    ensures SplitJars(s + [sep] + last) == SplitJars(s) + [last]
  {
    var init := SplitJars(s);
    var front := s + [sep];
    SplitJarsSnoc(s, sep);
    SplitJarsExtend(front, last);
    assert (init + [""])[..|init|] == init;
    assert "" + last == last;
  }

  // ---------------------------------------------------------------------
  // Loading the system jars, stopping at the first failure

  /** The jar that failed, if any, and the jars whose load was attempted. */
  datatype JarsLoaded = JarsLoaded(failed: Option<string>, attempted: seq<string>)

  function LoadJars(env: Collaborators, jars: seq<string>): JarsLoaded
    decreases |jars|
  {
    if jars == [] then JarsLoaded(None, [])
    else
      var prev := LoadJars(env, jars[..|jars| - 1]);
      var last := jars[|jars| - 1];
      if prev.failed.Some? then prev
      else if LoadJarFile(env, last) then JarsLoaded(None, prev.attempted + [last])
      else JarsLoaded(Some(last), prev.attempted + [last])
  }

  predicate AllJarsLoad(env: Collaborators, jars: seq<string>) {
    forall i :: 0 <= i < |jars| ==> LoadJarFile(env, jars[i])
  }

  /** Loading the jars succeeds exactly when every jar loads, and then every jar was attempted. */
  lemma {:induction false} LoadJarsSucceedsIff(env: Collaborators, jars: seq<string>)
    ensures LoadJars(env, jars).failed.None? <==> AllJarsLoad(env, jars)
    ensures AllJarsLoad(env, jars) ==> LoadJars(env, jars).attempted == jars
    decreases |jars|
  {
    if jars != [] {
      var init := jars[..|jars| - 1];
      LoadJarsSucceedsIff(env, init);
      FrontAndLast(jars);
      AllJarsLoadSnoc(env, init, jars[|jars| - 1]);
    }
  }

  lemma AllJarsLoadSnoc(env: Collaborators, init: seq<string>, last: string)
    ensures AllJarsLoad(env, init + [last]) <==> AllJarsLoad(env, init) && LoadJarFile(env, last)
  {
    var jars := init + [last];
    assert forall i :: 0 <= i < |init| ==> jars[i] == init[i];
    assert jars[|init|] == last;
  }

  /**
   * On failure, the attempted jars are a prefix of the list that ends with the
   * first jar that does not load, every earlier one having loaded.
   */
  lemma {:induction false} LoadJarsFailsFast(env: Collaborators, jars: seq<string>)
    ensures var r := LoadJars(env, jars);
      r.failed.Some? ==>
        && 0 < |r.attempted| <= |jars|
        && r.attempted == jars[..|r.attempted|]
        && r.failed.value == r.attempted[|r.attempted| - 1]
        && !LoadJarFile(env, r.failed.value)
        && AllJarsLoad(env, r.attempted[..|r.attempted| - 1])
    decreases |jars|
  {
    if jars != [] {
      var init := jars[..|jars| - 1];
      LoadJarsFailsFast(env, init);
      var prev := LoadJars(env, init);
      if prev.failed.Some? {
        assert jars[..|prev.attempted|] == init[..|prev.attempted|];
      } else {
        LoadJarsSucceedsIff(env, init);
        FrontAndLast(jars);
      }
    }
  }

  /** Once a prefix has failed, the remaining jars change nothing. */
  lemma {:induction false} LoadJarsStops(env: Collaborators, jars: seq<string>, k: nat)
    requires k <= |jars| && LoadJars(env, jars[..k]).failed.Some?
    ensures LoadJars(env, jars) == LoadJars(env, jars[..k])
    decreases |jars| - k
  {
    if k < |jars| {
      var init := jars[..|jars| - 1];
      assert init[..k] == jars[..k];
      LoadJarsStops(env, init, k);
    } else {
      assert jars[..k] == jars;
    }
  }

  /** The jar loop of `Tool::init`: load each jar in order, stopping at the first that fails. */
  method LoadSystemJars(env: Collaborators, jars: seq<string>) returns (failed: Option<string>, attempted: seq<string>)
    ensures JarsLoaded(failed, attempted) == LoadJars(env, jars)
  {
    failed, attempted := None, [];
    for i := 0 to |jars|
      invariant LoadJars(env, jars[..i]) == JarsLoaded(None, attempted)
    {
      var jar := jars[i];
      assert jars[..i + 1][..i] == jars[..i];
      attempted := attempted + [jar];
      if !LoadJarFile(env, jar) {
        failed := Some(jar);
        LoadJarsStops(env, jars, i + 1);
        return;
      }
    }
    assert jars[..|jars|] == jars;
  }

  // ---------------------------------------------------------------------
  // What an initialisation produces

  datatype Run = Run(result: Result<seq<StoreContents>, ToolError>, trace: seq<Attempt>)

  /** The descriptor path `Tool::init` builds for a module: `dir/name/name.json`. */
  function DescriptorPath(dir: Path, name: Segment): Path {
    dir + [name, name + ".json"]
  }

  /** It is the descriptor whose presence made `name` a module. */
  lemma DescriptorPathIsDescriptor(dir: Path, name: Segment)
    ensures DescriptorPath(dir, name) == Descriptor(dir + [name])
  {
  }

  /** The module stores built, in order, for the module names `names`, stopping at the first failure. */
  function BuildModuleStores(env: Collaborators, dir: Path, names: seq<Segment>): Run
    decreases |names|
  {
    if names == [] then Run(Ok([]), [])
    else
      var prev := BuildModuleStores(env, dir, names[..|names| - 1]);
      if prev.result.Err? then prev
      else
        var path := DescriptorPath(dir, names[|names| - 1]);
        var parseTrace := prev.trace + [DescriptorParse(path)];
        match ParseDescriptor(env, path)
        case None => Run(Err(DescriptorParseFailure(path)), parseTrace)
        case Some(metadata) =>
          var g := Gather(env, metadata.files);
          var trace := parseTrace + DexAttempts(g.attempted);
          if g.failed.Some? then Run(Err(ArchiveLoadFailure(g.failed.value)), trace)
          else Run(Ok(prev.result.value + [StoreContents(metadata.name, g.classes)]), trace)
  }

  /**
   * The stores `Tool::init` returns, or the error it throws, and the loader
   * calls it makes, when the root dex files are loaded in `rootOrder`.
   */
  function Assemble(fs: FileSystem, env: Collaborators, jars: seq<string>, dir: Path, rootOrder: seq<Path>): Run {
    if !IsDirectory(fs, dir) then Run(Err(NotADirectory(dir)), [])
    else
      var loaded := LoadJars(env, jars);
      var jarTrace := JarAttempts(loaded.attempted);
      if loaded.failed.Some? then Run(Err(JarLoadFailure(loaded.failed.value)), jarTrace)
      else
        var root := Gather(env, rootOrder);
        var rootTrace := jarTrace + DexAttempts(root.attempted);
        if root.failed.Some? then Run(Err(ArchiveLoadFailure(root.failed.value)), rootTrace)
        else
          var modules := BuildModuleStores(env, dir, ModuleNames(fs, dir));
          var trace := rootTrace + modules.trace;
          if modules.result.Err? then Run(modules.result, trace)
          else Run(Ok([StoreContents("dex", root.classes)] + modules.result.value), trace)
  }

  /** The directory check passed and every system jar loaded, so the dex files are discovered. */
  predicate ReachesDexen(fs: FileSystem, env: Collaborators, jars: seq<string>, dir: Path) {
    IsDirectory(fs, dir) && LoadJars(env, jars).failed.None?
  }

  lemma {:induction false} BuildModuleStoresStops(env: Collaborators, dir: Path, names: seq<Segment>, k: nat)
    requires k <= |names| && BuildModuleStores(env, dir, names[..k]).result.Err?
    ensures BuildModuleStores(env, dir, names) == BuildModuleStores(env, dir, names[..k])
    decreases |names| - k
  {
    if k < |names| {
      var init := names[..|names| - 1];
      assert init[..k] == names[..k];
      BuildModuleStoresStops(env, dir, init, k);
    } else {
      assert names[..k] == names;
    }
  }

  /**
   * The module loop of `Tool::init`: for each module, in directory order,
   * parse its descriptor, create a store named as it declares and load the
   * declared files into it, stopping at the first failure.
   */
  method LoadModuleStores(fs: FileSystem, env: Collaborators, dir: Path)
    returns (result: Result<seq<StoreContents>, ToolError>, trace: seq<Attempt>)
    ensures Run(result, trace) == BuildModuleStores(env, dir, ModuleNames(fs, dir))
  {
    var modules := ListModules(fs, dir);
    var stores := [];
    trace := [];
    for i := 0 to |modules|
      invariant Run(Ok(stores), trace) == BuildModuleStores(env, dir, modules[..i])
    {
      var moduleName := modules[i];
      assert modules[..i + 1][..i] == modules[..i];
      var metadataPath := DescriptorPath(dir, moduleName);
      trace := trace + [DescriptorParse(metadataPath)];
      var metadata := ParseDescriptor(env, metadataPath);
      if metadata.None? {
        BuildModuleStoresStops(env, dir, modules, i + 1);
        return Err(DescriptorParseFailure(metadataPath)), trace;
      }
      var store := new DexStore.FromMetadata(metadata.value);
      var failed, attempted := LoadStoreDexen(store, env, metadata.value);
      trace := trace + DexAttempts(attempted);
      if failed.Some? {
        BuildModuleStoresStops(env, dir, modules, i + 1);
        return Err(ArchiveLoadFailure(failed.value)), trace;
      }
      assert store.classes[0..] == store.classes;
      stores := stores + [store.Contents()];
    }
    assert modules[..|modules|] == modules;
    result := Ok(stores);
  }

  /**
   * `Tool::init` up to the reachable-classes step. Besides the stores (or the
   * error) and the loader calls, returns the order in which the root dex
   * files were loaded.
   */
  method Init(fs: FileSystem, env: Collaborators, systemJarPaths: string, apkDir: string, dexenDir: Path)
    returns (result: Result<seq<StoreContents>, ToolError>, trace: seq<Attempt>, rootOrder: seq<Path>)
    ensures ReachesDexen(fs, env, SplitJars(systemJarPaths), dexenDir) ==>
      Sorted(rootOrder) && multiset(rootOrder) == multiset(DexFiles(fs, dexenDir))
    ensures Run(result, trace) == Assemble(fs, env, SplitJars(systemJarPaths), dexenDir, rootOrder)
  {
    if !IsDirectory(fs, dexenDir) {
      return Err(NotADirectory(dexenDir)), [], [];
    }

    var systemJars := SplitJars(systemJarPaths);
    var jarFailed, jarsAttempted := LoadSystemJars(env, systemJars);
    trace := JarAttempts(jarsAttempted);
    if jarFailed.Some? {
      return Err(JarLoadFailure(jarFailed.value)), trace, [];
    }

    var rootStore := new DexStore("dex");
    var rootFailed, rootAttempted;
    rootOrder, rootFailed, rootAttempted := LoadRootDexen(rootStore, fs, env, dexenDir);
    trace := trace + DexAttempts(rootAttempted);
    assert Gather(env, rootOrder) == Gathered(rootFailed, rootStore.classes, rootAttempted);
    if rootFailed.Some? {
      return Err(ArchiveLoadFailure(rootFailed.value)), trace, rootOrder;
    }
    var moduleResult, moduleTrace := LoadModuleStores(fs, env, dexenDir);
    trace := trace + moduleTrace;
    if moduleResult.Err? {
      return moduleResult, trace, rootOrder;
    }
    result := Ok([rootStore.Contents()] + moduleResult.value);
  }
}
