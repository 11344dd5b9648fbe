# Store assembly of redex-tool, modelled in Dafny

`Tool::init` in redex-tool builds the dex stores that a tool works on. Given a
dexen directory (as left by `redex.py -u`) and a list of system jars, it:

1. rejects a dexen path that is not a directory (`std::invalid_argument`);
2. splits the jar list at every `:` and `,`, and loads each jar in order. The
   first jar that does not load aborts the run (`std::runtime_error`), before
   any dex file is touched;
3. builds the root store `"dex"`. It discovers the regular `*.dex` files directly
   inside the directory and sorts them with `dex_comparator`: `classes.dex`
   first, then `secondary-N.dex` by ascending N. It then appends each file's
   classes to the store in that order;
4. builds one more store per module. A module is a subdirectory `D` holding a
   regular file `D/D.json`. The stores follow directory-iteration order. Each
   store is named as its descriptor declares and holds the descriptor's files'
   classes, in declared order.

The result is `1 + (number of modules)` stores, the root store first.

The model is split into modules that follow this structure:

- `Fs` (fs.dfy): the filesystem as a value. It maps paths (sequences of name
  segments) to their kind, and lists each directory's entries in iteration
  order. It also holds `path::extension`, `path::stem` and `rfind`.
- `External` (external.dfy): the three loaders `Tool.cpp` calls but does not
  define. These are `load_classes_from_dex`, `load_jar_file` and
  `DexMetadata::parse`, each a lookup in a table that fails for a missing key.
- `Sorting` (sorting.dfy): an in-place insertion sort on an array, for any
  strict weak ordering. It stands for `std::sort`.
- `DexOrder` (dex_order.dfy): `dex_comparator`, its `atoi`, and its ordering
  properties.
- `Discovery` (discovery.dfy): dex-file discovery and sorting, from
  `load_root_dexen`, and `list_modules`.
- `Stores` (stores.dfy): `DexStore` as a class whose `classes` field
  `add_classes` extends. Also the two loading loops `load_root_dexen` and
  `load_store_dexen`.
- `Tool` (tool.dfy): the jar split, the jar loop and `Tool::init` itself
  (`Init`). `Init` is proved equal to `Assemble`, a function of the directory,
  the split jar list, the loaders and the order the root files were sorted into.
- `ToolProperties` (tool_properties.dfy): what `Assemble` guarantees.

A call that throws in the C++ is a `Result.Err` carrying a `ToolError`. Calls
into the loaders are recorded, in order, as a trace of `Attempt`s. This is how
the model states "jars before dex" and "stop at the first failure".

Two details of `Tool.cpp` and how the model treats them:

- Line 38 compares two stems without a `-` with `strcmp(...) > 1`, which is
  not a strict weak ordering. The comment at lines 24-26 covers only
  `classes.dex` and the `secondary-N.dex` files, so it does not say how two
  stems without a `-` should compare, and the one-character repair `> 0`
  would order them descending. The model chooses ascending lexicographic
  order, `strcmp(as, bs) < 0` (`DexOrder.DexLess`). The choice is latent,
  since only `classes` is expected as such a stem. The literal `> 1` test is
  kept as `DexOrder.DexLessAsWritten` (see "## Findings").
- Module detection also requires `exists(D/D.json)` (line 84), which is implied
  by `is_regular_file`. The model keeps the test as written.

## Model

| member | source | states |
|---|---|---|
| Fs.LastIndexOf | tools/redex-tool/Tool.cpp:31-32 | `rfind`: -1 exactly when the character is absent; otherwise an index holding it with no later occurrence |
| Fs.Extension | tools/redex-tool/Tool.cpp:52 | `path::extension`: empty exactly when the name has no '.'; otherwise a suffix of the name that starts at its last '.' |
| Fs.LastIndexOfAt | tools/redex-tool/Tool.cpp:31-32 | an index holding the character with none after it is what `rfind` returns |
| Fs.Stem | tools/redex-tool/Tool.cpp:29-30 | `path::stem`: a prefix of the name; the whole name when it has no '.', otherwise the text before its last '.' |
| Fs.StemThenExtension | tools/redex-tool/Tool.cpp:29-30 | `path::stem` followed by the extension gives back the file name |
| Fs.StemOfJoined | tools/redex-tool/Tool.cpp:29-30 | `stem` and `extension` of `base + ".ext"` are `base` and `.ext` |
| DexOrder.StemOfDex | tools/redex-tool/Tool.cpp:29-30 | the stem of `name.dex` is `name` |
| DexOrder.SecondaryStem | tools/redex-tool/Tool.cpp:31-41 | the stem of `base-N.dex` is `base-N`, holds a '-', and its suffix reads back as N |
| DexOrder.ClassesStem | tools/redex-tool/Tool.cpp:29-33 | the stem of `classes.dex` is `classes`, which holds no '-' |
| DexOrder.SuffixOf | tools/redex-tool/Tool.cpp:40-41 | the text after the last '-' of a stem, which holds no '-' |
| DexOrder.SkipSpaces | tools/redex-tool/Tool.cpp:40-41 | `atoi`'s leading-whitespace skip: a suffix of the input that does not start with whitespace |
| DexOrder.LeadingDigits | tools/redex-tool/Tool.cpp:40-41 | `atoi`'s digit run: the longest all-digit prefix |
| DexOrder.Decimal | tools/redex-tool/Tool.cpp:40-41 | the decimal numeral of a natural number: non-empty and all digits |
| DexOrder.AtoiOfDecimal | tools/redex-tool/Tool.cpp:40-41 | `atoi` reads back any decimal numeral as the number it names |
| DexOrder.LexLessIrreflexive | tools/redex-tool/Tool.cpp:38 | the lexicographic order used for two primary stems is irreflexive |
| DexOrder.LexLessTransitive | tools/redex-tool/Tool.cpp:38 | the lexicographic order is transitive |
| DexOrder.LexLessConnected | tools/redex-tool/Tool.cpp:38 | of two different strings, one is lexicographically before the other |
| DexOrder.Atoi | tools/redex-tool/Tool.cpp:40-41 | `atoi`: leading white space, an optional sign, then the longest run of digits, 0 without one; a definition, whose read-back property is `DexOrder.AtoiOfDecimal` |
| DexOrder.DexLess | tools/redex-tool/Tool.cpp:28-44 | `dex_comparator` with line 38 read as ascending lexicographic order of the stems (the model's choice: the comment at lines 24-26 does not cover two stems without `-`); a definition, whose properties are the `DexLess...`, `PrimaryBeforeSecondary`, `PrimaryByStem`, `SecondaryByNumber` and `SecondaryFilesByNumber` lemmas |
| DexOrder.PrimaryBeforeSecondary | tools/redex-tool/Tool.cpp:33-36 | a stem without '-' comes before, and never after, a stem with one |
| DexOrder.PrimaryByStem | tools/redex-tool/Tool.cpp:37-38 | two stems without '-' are in lexicographic order, in both directions |
| DexOrder.SecondaryByNumber | tools/redex-tool/Tool.cpp:39-42 | two stems with '-' are ordered exactly by ascending `atoi` of their suffixes; equal numbers are unordered |
| DexOrder.SecondaryFilesByNumber | tools/redex-tool/Tool.cpp:24-26 | `base-M.dex` comes before `base-N.dex` exactly when M < N, for the decimal numerals of any M and N |
| DexOrder.ClassesBeforeSecondary | tools/redex-tool/Tool.cpp:24-26 | `classes.dex` comes before every `base-N.dex` |
| DexOrder.UsualNamesOrder | tools/redex-tool/Tool.cpp:24-26 | `classes`, `secondary-1`, `secondary-2` and `secondary-10` are strictly ordered in that sequence, so it is sorted |
| DexOrder.DexLessIrreflexive | tools/redex-tool/Tool.cpp:28-44 | no file comes before itself |
| DexOrder.DexLessTransitive | tools/redex-tool/Tool.cpp:28-44 | the comparator is transitive |
| DexOrder.DexLessNegativelyTransitive | tools/redex-tool/Tool.cpp:28-44 | being unordered is transitive |
| DexOrder.DexLessAsymmetric | tools/redex-tool/Tool.cpp:28-44 | the comparator never orders a pair both ways |
| DexOrder.DexLessIsStrictWeakOrder | tools/redex-tool/Tool.cpp:57 | the corrected comparator is a strict weak ordering, as `std::sort` requires |
| DexOrder.UsualNamesAreTheOnlyOrder | tools/redex-tool/Tool.cpp:46-57 | any sorted arrangement of `classes`, `secondary-1`, `secondary-2` and `secondary-10` is exactly that sequence, so the usual dex order is determined |
| DexOrder.Strcmp | tools/redex-tool/Tool.cpp:38 | `strcmp` returning the difference of the first differing characters; a definition, whose sign `DexOrder.StrcmpSign` relates to the lexicographic order |
| DexOrder.StrcmpSign | tools/redex-tool/Tool.cpp:38 | on strings without NUL, `strcmp` is negative exactly when the first string is lexicographically first, and zero exactly when they are equal |
| DexOrder.DexLessAsWritten | tools/redex-tool/Tool.cpp:28-44 | `dex_comparator` with line 38 as written, `strcmp(as, bs) > 1`; a definition, whose defect the two lemmas below state |
| DexOrder.AsWrittenAgreesUnlessBothPrimary | tools/redex-tool/Tool.cpp:33-42 | when either stem holds a '-', the comparator as written and the corrected one agree; they differ only on two stems without '-' |
| DexOrder.AsWrittenOnStems | tools/redex-tool/Tool.cpp:37-38 | as written, `c.dex` sorts before `a.dex` and not the other way round, while `a`/`b` and `b`/`c` are unordered; the corrected comparator orders a < b < c |
| DexOrder.AsWrittenNotStrictWeak | tools/redex-tool/Tool.cpp:37-38 | as written, the comparator is not a strict weak ordering |
| Sorting.ChainIsSortedBy | tools/redex-tool/Tool.cpp:57 | for a strict weak ordering, a sequence whose neighbours are each strictly ordered is strictly ordered throughout, hence sorted |
| Sorting.ChainOfFour | tools/redex-tool/Tool.cpp:57 | four elements each before the next are strictly ordered and sorted |
| Sorting.IncomparabilityNotTransitive | tools/redex-tool/Tool.cpp:57 | an order in which x comes before z while x/y and y/z are unordered is not a strict weak ordering |
| Sorting.SortedStrictHeads | tools/redex-tool/Tool.cpp:57 | a sorted permutation of a strictly ordered sequence starts with the same element |
| Sorting.SortedStrictUnique | tools/redex-tool/Tool.cpp:57 | a strictly ordered sequence is the only sorted arrangement of its elements, so any sort of distinct, pairwise-ordered files yields one result |
| Sorting.SortBy | tools/redex-tool/Tool.cpp:57 | for any strict weak ordering, the array ends sorted and a permutation of its old contents |
| Sorting.InsertInto | tools/redex-tool/Tool.cpp:57 | inserting one element into a sorted prefix extends the sorted prefix and keeps the contents |
| Discovery.IsDexFile | tools/redex-tool/Tool.cpp:52 | the discovery test: a regular file whose extension is exactly `.dex`; a definition |
| Discovery.DexFilterCounts | tools/redex-tool/Tool.cpp:50-55 | discovery keeps each regular `.dex` entry exactly as often as it is listed, and nothing else |
| Discovery.DexFilterAppend | tools/redex-tool/Tool.cpp:50-55 | discovery keeps the iteration order of the entries |
| Discovery.DiscoverDexen | tools/redex-tool/Tool.cpp:47-55 | the discovery loop returns exactly the regular `.dex` files of the directory, in iteration order |
| Discovery.SortDexen | tools/redex-tool/Tool.cpp:57 | the sort leaves the files sorted by the comparator and a permutation of what was discovered |
| Discovery.IsModuleDir | tools/redex-tool/Tool.cpp:79-84 | the module test: a directory `D` holding a regular file `D/D.json` that exists; a definition |
| Discovery.ModuleFilterMembers | tools/redex-tool/Tool.cpp:77-87 | a name is a module exactly when it is listed, is a directory, and holds a regular file named after itself plus ".json" |
| Discovery.ModuleFilterAppend | tools/redex-tool/Tool.cpp:77-87 | modules keep directory-iteration order |
| Discovery.ListModules | tools/redex-tool/Tool.cpp:74-89 | `list_modules` returns exactly the module names, in iteration order |
| Stores.DexStore.constructor | tools/redex-tool/Tool.cpp:128 | `DexStore("dex")`: an empty store with that name |
| Stores.DexStore.FromMetadata | tools/redex-tool/Tool.cpp:145 | a module store starts empty, named as its descriptor declares |
| Stores.DexStore.AddClasses | tools/redex-tool/Tool.cpp:62 | `add_classes` appends the new classes and keeps the name |
| Stores.FlattenAppend | tools/redex-tool/Tool.cpp:59-63 | appending one file's classes extends the concatenation by those classes |
| Stores.Gather | tools/redex-tool/Tool.cpp:59-63 | the shared load loop of `load_root_dexen` and `load_store_dexen` (lines 67-71): classes appended file by file, stopping at the first file that does not load; a definition, characterised by the three lemmas below |
| Stores.GatherSucceedsIff | tools/redex-tool/Tool.cpp:59-63 | loading a list of dex files succeeds exactly when every one of them loads |
| Stores.GatherConcatenates | tools/redex-tool/Tool.cpp:59-63 | when all files load, all are attempted and the classes are each file's classes concatenated in list order |
| Stores.GatherFailsFast | tools/redex-tool/Tool.cpp:59-63 | on failure, the attempted files are a prefix ending at the first file that does not load |
| Stores.GatherStops | tools/redex-tool/Tool.cpp:59-63 | once a prefix has failed, later files change nothing |
| Stores.AddDexen | tools/redex-tool/Tool.cpp:67-71 | the loading loop keeps the store's name and old classes, and appends exactly what `Gather` gives, stopping at the first failure |
| Stores.LoadRootDexen | tools/redex-tool/Tool.cpp:46-64 | `load_root_dexen` loads a sorted permutation of the directory's dex files, in that order, into the store |
| Stores.LoadStoreDexen | tools/redex-tool/Tool.cpp:66-72 | `load_store_dexen` loads the descriptor's files, in declared order, into the store |
| Stores.RootOrderMembers | tools/redex-tool/Tool.cpp:48-57 | the sorted order holds exactly the regular `.dex` files of the directory |
| Tool.SplitJars | tools/redex-tool/Tool.cpp:117-119 | `boost::split` with `is_any_of(":,")`: never an empty list; characterised by the lemmas below |
| Tool.SplitJarsShape | tools/redex-tool/Tool.cpp:117-119 | the split gives one token more than there are delimiters, and no token holds a delimiter |
| Tool.SplitJarsSnoc | tools/redex-tool/Tool.cpp:117-119 | one more character starts a new empty token when it is `:` or `,`, and otherwise extends the last token |
| Tool.SplitJarsExtend | tools/redex-tool/Tool.cpp:117-119 | text without a delimiter extends the last token |
| Tool.SplitAfterDelimiter | tools/redex-tool/Tool.cpp:117-119 | a delimiter followed by text without one adds that text as a new last token |
| Tool.SplitJoinJars | tools/redex-tool/Tool.cpp:117-119 | splitting tokens joined by delimiters, `:` and `,` mixed in any way, gives back the tokens, empty ones included |
| Tool.LoadJars | tools/redex-tool/Tool.cpp:120-125 | the jar loop: the jars attempted, in order, and the first that does not load; a definition, characterised by the lemmas below |
| Tool.LoadJarsSucceedsIff | tools/redex-tool/Tool.cpp:120-125 | the jar loop succeeds exactly when every jar loads, and then every jar was attempted, in order |
| Tool.LoadJarsFailsFast | tools/redex-tool/Tool.cpp:120-125 | on failure, the attempts are a prefix of the jar list ending at the jar that failed, which does not load, and every earlier jar loaded |
| Tool.LoadJarsStops | tools/redex-tool/Tool.cpp:120-125 | once a jar has failed, later jars change nothing |
| Tool.LoadSystemJars | tools/redex-tool/Tool.cpp:120-125 | the jar loop attempts exactly what `LoadJars` says and reports the jar that failed |
| Tool.DescriptorPathIsDescriptor | tools/redex-tool/Tool.cpp:137-141 | the path `init` parses is the descriptor whose presence made the name a module |
| Tool.BuildModuleStores | tools/redex-tool/Tool.cpp:136-148 | the module loop: parse each descriptor, then load its files into a new store, stopping at the first failure; a definition, characterised by `ToolProperties.BuildModuleStoresShape` on success and by `ToolProperties.BuildModuleStoresFailsFast` with `ToolProperties.ModuleFailureError` on failure |
| Tool.BuildModuleStoresStops | tools/redex-tool/Tool.cpp:136-148 | once a module has failed, later modules change nothing |
| Tool.LoadModuleStores | tools/redex-tool/Tool.cpp:136-148 | the module loop yields the stores and loader calls `BuildModuleStores` gives for the listed modules |
| Tool.Assemble | tools/redex-tool/Tool.cpp:107-148 | what `init` returns and which loader calls it makes, for a given root order; a definition, characterised by the `ToolProperties` lemmas |
| Tool.Init | tools/redex-tool/Tool.cpp:107-148 | `init` returns exactly what `Assemble` gives; once it gets past the jars, the root order is a sorted permutation of the directory's dex files |
| ToolProperties.BuildModuleStoresShape | tools/redex-tool/Tool.cpp:136-148 | the module loop succeeds exactly when every module loads, and then gives one store per module, in module order, each named as declared and holding its files' classes in declared order |
| ToolProperties.BuildModuleStoresFailsFast | tools/redex-tool/Tool.cpp:136-148 | a failing module loop stopped at the first module that does not load: every module before it loaded, and the run is the loop over the modules up to and including it |
| ToolProperties.LastModuleFails | tools/redex-tool/Tool.cpp:143-146 | when only the last module fails, its descriptor does not parse or one of its files does not load |
| ToolProperties.ModuleFailureError | tools/redex-tool/Tool.cpp:143-146 | the failing module's error: `DescriptorParseFailure` of its `dir/name/name.json` when the descriptor does not parse, else `ArchiveLoadFailure` of its first declared file that does not load; the trace ends with the descriptor parse and the loads up to that file |
| ToolProperties.PrefixModulesLoad | tools/redex-tool/Tool.cpp:136-148 | the modules before a point the loop reaches successfully all loaded |
| ToolProperties.LoadsNoJarAppend | tools/redex-tool/Tool.cpp:127-148 | two traces without jar loads joined together have none |
| ToolProperties.BuildModuleStoresLoadsNoJar | tools/redex-tool/Tool.cpp:136-148 | the module loop never loads a jar |
| ToolProperties.AssembleSucceedsIff | tools/redex-tool/Tool.cpp:107-148 | `init` succeeds exactly when the path is a directory and every jar, root dex file and module loads |
| ToolProperties.AssembleStores | tools/redex-tool/Tool.cpp:127-148 | on success, `init` returns 1 + the number of modules stores: `"dex"` first with the root classes in load order, then each module's store in module order |
| ToolProperties.AssembleChecksDirectoryFirst | tools/redex-tool/Tool.cpp:111-114 | a path that is not a directory is rejected before any loader call |
| ToolProperties.AssembleJarFailure | tools/redex-tool/Tool.cpp:120-125 | a jar that does not load aborts with the first such jar of the split list; only the jars up to it were attempted |
| ToolProperties.AssembleRootFailure | tools/redex-tool/Tool.cpp:127-133 | after the jars, a root dex file that does not load aborts with the first such file of the sorted order; only the files up to it were attempted, after all the jars |
| ToolProperties.AssembleModulePhase | tools/redex-tool/Tool.cpp:112-148 | once the jars and the root files have loaded, a failing initialisation is the failing module loop, after every jar load and every root load |
| ToolProperties.AssembleModuleFailure | tools/redex-tool/Tool.cpp:134-148 | after the jars and the root files, the first module that does not load ends the initialisation with that module's error; the trace is all jar loads, all root loads, then the module loop up to and including that module |
| ToolProperties.AssembleTraceParts | tools/redex-tool/Tool.cpp:116-148 | the loader calls are the jar loads, then the root dex loads, then the module calls, each phase cut short by a failure |
| ToolProperties.AssembleJarsFirst | tools/redex-tool/Tool.cpp:116-132 | jar loads come first, in split order, and no other loader call precedes one |
| ToolProperties.AssembleJarPhase | tools/redex-tool/Tool.cpp:116-132 | the loader calls are the jar loads of a prefix of the split list, followed by calls that load no jar |
| ToolProperties.AfterJarPhase | tools/redex-tool/Tool.cpp:127-148 | after every jar has loaded, the remaining calls load no jar |
| ToolProperties.JarPhaseOrder | tools/redex-tool/Tool.cpp:120-125 | in jar loads of a prefix followed by non-jar calls, each jar load sits at its jar's index and precedes every other call |
| ToolProperties.AssembleRootBeforeModules | tools/redex-tool/Tool.cpp:131-148 | a descriptor is parsed only after every jar and every root dex file has loaded, and after all those loads |
| ToolProperties.EmptyDirectoryContents | tools/redex-tool/Tool.cpp:46-57 | an empty directory holds no dex file and no module |
| ToolProperties.EmptyDirectoryGivesOneEmptyStore | tools/redex-tool/Tool.cpp:128-133 | an empty directory gives exactly one store, `"dex"`, with no classes, after the jar loads alone |
| ToolProperties.ExampleDexFiles | tools/redex-tool/Tool.cpp:50-55 | in a directory listing `classes.dex` and a directory `base`, `classes.dex` is the only dex file |
| ToolProperties.ExampleModules | tools/redex-tool/Tool.cpp:77-87 | in that directory, with `base/base.json` present, `base` is the only module |
| ToolProperties.ExampleStores | tools/redex-tool/Tool.cpp:67-71 | a descriptor declaring `a` then `b` gives the classes of `a` followed by those of `b` |
| ToolProperties.EndToEnd | tools/redex-tool/Tool.cpp:107-148 | for that directory, `init` returns two stores: `"dex"` with the classes of `classes.dex`, then the module's declared name with `a`'s classes followed by `b`'s |

## Left out

- The filesystem is a value, not the disk. Paths are segment sequences, so the
  `preferred_separator` concatenation of lines 80-81 and 137-141 becomes
  appending segments.
- The loaders are lookups in given tables. `load_classes_from_dex`,
  `load_jar_file` and `DexMetadata::parse` are not part of this model, and no
  binary format or JSON is parsed.
- The C++ code does not show how a dex load or a descriptor parse reports
  failure. The model treats either as an error that ends `init` (the
  `ArchiveLoadFailure` and `DescriptorParseFailure` results).
- Jar loading fills a global type table as a side effect. The model keeps only
  its ordering, through the trace of loader calls.
- The `Loading ...` messages on standard output are left out. The trace records
  the jar and dex loads they announce, in the same order, and also the
  descriptor parses, which print nothing.
- The command-line options (`add_standard_options`, lines 93-105) are left out.
  So are the scope and reachable-classes step (lines 150-157).
- `Tool.Init`: the `apk_dir` argument is accepted and unused, as in the source.
- `DexOrder.Atoi`: does not model overflow of `int`. A suffix whose value does
  not fit in an `int` is undefined behaviour in C, and here it is read as an
  unbounded integer.
- `DexOrder.Strcmp`: strings are sequences of characters, so a NUL character
  inside a stem does not end the comparison as it would for a C string.
  Characters compare by code point, not by the bytes of their encoding. For
  non-ASCII stems the magnitude `Strcmp` returns, and so
  `DexOrder.DexLessAsWritten`, can differ from C's `strcmp`: U+0080 against
  U+007F gives 1 here, where glibc gives 67. The sign, and so `LexLess`,
  agrees with `strcmp` for UTF-8 names.
- `Fs.Extension`: `.` and `..` are not special-cased; dot-files are treated
  as in Boost.Filesystem v3 (v4 would give them no extension). A name's
  extension is the text from its last `.`.
- `Discovery.SortDexen`: `std::sort` is modelled by an insertion sort.
  `std::sort` is not stable, and the comparator leaves some distinct files
  unordered, such as `a-1.dex` and `b-1.dex`. So the model does not fix which
  of the sorted orders is produced. `Init` returns the order it used, and
  `Assemble` is stated for any such order.
- Determinism across runs is not stated for directories holding distinct
  files that `DexOrder.DexLess` leaves unordered (such as `a-1.dex` and
  `b-1.dex`): their relative order is left to `std::sort`. Where the files
  are strictly ordered, the sorted order is unique (`Sorting.SortedStrictUnique`;
  for the usual names, `DexOrder.UsualNamesAreTheOnlyOrder`).
- `DexStore` values are copied into the output (`StoreContents`), standing for
  the `std::move` into the stores vector. Aliasing between stores does not
  arise.

## Findings

| source | as written | input that shows it | evidently intended | confidence | as-written member | corrected member |
|---|---|---|---|---|---|---|
| tools/redex-tool/Tool.cpp:38 | two stems without `-` are ordered by `strcmp(as, bs) > 1`, which ignores differences of 1 | `a.dex`, `b.dex`, `c.dex`: with a byte-difference `strcmp`, `c` sorts before `a` while `a`/`b` and `b`/`c` are unordered, so the comparator is not a strict weak ordering and `std::sort` has undefined behaviour | a strict weak ordering of the stems; ascending lexicographic order, `strcmp(as, bs) < 0`, is the model's choice | not executed; depends on `strcmp` returning the byte difference, which common C libraries do | DexOrder.DexLessAsWritten, DexOrder.AsWrittenOnStems, DexOrder.AsWrittenNotStrictWeak | DexOrder.DexLess, DexOrder.DexLessIsStrictWeakOrder |
