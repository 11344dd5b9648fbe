/**
 * The collaborators the store assembler calls but does not implement:
 * `load_classes_from_dex`, `load_jar_file` and `DexMetadata::parse`. Each is
 * a lookup in a given table; a path missing from its table is one whose
 * load or parse fails.
 */
module External {
  import opened Wrappers
  import opened Fs

  /** A class record produced by the dex loader; only its identity matters here. */
  datatype DexClass = DexClass(descriptor: string)

  /** A parsed module descriptor: the store name it declares and its member files, in declared order. */
  datatype DexMetadata = DexMetadata(name: string, files: seq<Path>)

  datatype Collaborators = Collaborators(
    dexen: map<Path, seq<DexClass>>,
    jars: set<string>,
    descriptors: map<Path, DexMetadata>)

  /** `load_classes_from_dex`: the classes of one dex file, or None when it cannot be loaded. */
  function LoadClassesFromDex(env: Collaborators, p: Path): Option<seq<DexClass>> {
    if p in env.dexen then Some(env.dexen[p]) else None
  }

  /** `load_jar_file`: whether one system jar loads. */
  predicate LoadJarFile(env: Collaborators, jar: string) {
    jar in env.jars
  }

  /** `DexMetadata::parse`: the descriptor at `p`, or None when it is malformed. */
  function ParseDescriptor(env: Collaborators, p: Path): Option<DexMetadata> {
    if p in env.descriptors then Some(env.descriptors[p]) else None
  }
}
