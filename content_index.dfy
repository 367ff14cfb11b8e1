/**
 * `createDataSource` of `mdxts/src/index.tsx`: the module loaders merged with the public
 * TypeScript source files, the table from pathname to module key, and the queries on it:
 * `parseModule`, the sibling lookup behind `get`, `paths()` and `all()`.
 */
module ContentIndex {
  import opened Wrappers
  import opened Strings
  import opened Environment
  import opened SourceModel
  import opened Pathnames
  import opened KeyOrder
  import opened Objects
  import opened Visibility
  import opened ModuleMetadata
  import opened Examples

  /** The first argument of `createDataSource` at run time: the webpack loader replaces the glob
      string by an object of module loaders; without the loader it is still the string. */
  datatype ModulesArgument = GlobString(pattern: string) | Loaders(modules: Entries<LoadedModule>)

  /** The state one `createDataSource` call closes over. */
  datatype DataSource = DataSource(
    allModules: Entries<LoadedModule>,
    keysByPathname: Entries<string>,
    sourceFiles: Option<seq<SourceFile>>,
    baseDirectory: string,
    basePath: string,
    project: Project,
    host: Host)

  /** The placeholder loader result `{ default: null }`. */
  const NullModule := LoadedModule(None, None, None, None, map[])

  predicate EndsWith(s: string, suffix: string)
  {
    |suffix| <= |s| && s[|s| - |suffix|..] == suffix
  }

  /** `filePath.replace(/\.tsx?$/, '.mdx')` */
  function MdxPath(filePath: string): (r: string)
    ensures EndsWith(filePath, ".ts") ==> r == filePath[..|filePath| - 3] + ".mdx"
    ensures EndsWith(filePath, ".tsx") ==> r == filePath[..|filePath| - 4] + ".mdx"
    ensures !EndsWith(filePath, ".ts") && !EndsWith(filePath, ".tsx") ==> r == filePath
  {
    if EndsWith(filePath, ".ts") then
      assert filePath[|filePath| - 1] == ".ts"[2];
      filePath[..|filePath| - 3] + ".mdx"
    else if EndsWith(filePath, ".tsx") then filePath[..|filePath| - 4] + ".mdx"
    else filePath
  }

  /** `/ts(x)?/.test(s)`: the string contains `ts` anywhere. */
  predicate MentionsTs(s: string)
  {
    Includes(s, "ts")
  }

  /** `filePath.replace(resolve(process.cwd(), baseDirectory), baseDirectory)`: a source file's
      absolute path turned back into the form of the glob pattern. */
  function SourceKey(filePath: string, baseDirectory: string, host: Host): string
  {
    ReplaceFirst(filePath, host.resolve(host.cwd, baseDirectory), baseDirectory)
  }

  /** `xs.find(p)`: the first element satisfying `p`, and none when no element does. */
  function Find<T>(xs: seq<T>, p: T -> bool): (r: Option<T>)
    ensures r.Some? ==> r.value in xs && p(r.value)
    ensures r.None? <==> forall j :: 0 <= j < |xs| ==> !p(xs[j])
    ensures forall i :: 0 <= i < |xs| && p(xs[i]) && (forall j :: 0 <= j < i ==> !p(xs[j])) ==> r == Some(xs[i])
  {
    if xs == [] then None
    else if p(xs[0]) then Some(xs[0])
    else
      var r := Find(xs[1..], p);
      assert forall i :: 0 < i < |xs| ==> xs[i] == xs[1..][i - 1];
      r
  }

  /** The first key that resolves to `target`. */
  function FindResolvedKey(keys: seq<string>, target: string, host: Host): (r: Option<string>)
    ensures r.Some? ==> r.value in keys && host.resolve(host.cwd, r.value) == target
    ensures r.None? ==> forall k :: k in keys ==> host.resolve(host.cwd, k) != target
    ensures forall i :: 0 <= i < |keys| && host.resolve(host.cwd, keys[i]) == target && (forall j :: 0 <= j < i ==> host.resolve(host.cwd, keys[j]) != target) ==> r == Some(keys[i])
  {
    Find(keys, (k: string) => host.resolve(host.cwd, k) == target)
  }

  /** The loader paired with a source path: that of the first module key resolving to the same
      path with an `.mdx` extension, and the placeholder when there is none. */
  function Companion(modules: Entries<LoadedModule>, filePath: string, host: Host): LoadedModule
  {
    match FindResolvedKey(Keys(modules), host.resolve(host.cwd, MdxPath(filePath)), host)
    case None => NullModule
    case Some(key) => Get(modules, key).value
  }

  /** `{...allModules, ...Object.fromEntries(sourceFilePaths.map(...))}` */
  function MergeLoaders(modules: Entries<LoadedModule>, sourcePaths: seq<string>, host: Host): Entries<LoadedModule>
  {
    PutAll(modules, FromEntries(CompanionPairs(modules, sourcePaths, host)))
  }

  function CompanionPairs(modules: Entries<LoadedModule>, sourcePaths: seq<string>, host: Host): (pairs: seq<(string, LoadedModule)>)
    ensures |pairs| == |sourcePaths|
    ensures forall i :: 0 <= i < |pairs| ==> pairs[i] == (sourcePaths[i], Companion(modules, sourcePaths[i], host))
  {
    seq(|sourcePaths|, i requires 0 <= i < |sourcePaths| => (sourcePaths[i], Companion(modules, sourcePaths[i], host)))
  }

  /** Each source path holds its companion loader, every other key keeps its loader, and the keys
      are the old keys in their order followed by the source paths, each once, in order of first
      appearance (those already present keep their place). */
  lemma MergeLoadersSpec(modules: Entries<LoadedModule>, sourcePaths: seq<string>, host: Host, key: string)
    requires Distinct(Keys(modules))
    ensures Get(MergeLoaders(modules, sourcePaths, host), key) ==
      if key in sourcePaths then Some(Companion(modules, key, host)) else Get(modules, key)
    ensures Keys(MergeLoaders(modules, sourcePaths, host)) == FirstOccurrences(Keys(modules) + FirstOccurrences(sourcePaths))
  {
    var pairs := CompanionPairs(modules, sourcePaths, host);
    var added := FromEntries(pairs);
    assert Keys(pairs) == sourcePaths;
    var empty: Entries<LoadedModule> := [];
    assert Keys(empty) == [];
    PutAllKeys(empty, pairs);
    assert [] + sourcePaths == sourcePaths;
    PutAllGet([], pairs, key);
    LastValueSpec(pairs, key);
    LastValueOfDistinct(added, key);
    PutAllGet(modules, added, key);
    PutAllKeys(modules, added);
  }

  /** In an object with distinct keys the last pair with a key is its only pair. */
  lemma {:induction false} LastValueOfDistinct<V>(o: Entries<V>, k: string)
    requires Distinct(Keys(o))
    ensures LastValue(o, k) == Get(o, k)
  {
    LastValueSpec(o, k);
    if LastValue(o, k).Some? {
      var j :| 0 <= j < |o| && o[j] == (k, LastValue(o, k).value) && forall i :: j < i < |o| ==> o[i].0 != k;
      GetOfDistinct(o, j);
    }
  }

  lemma {:induction false} GetOfDistinct<V>(o: Entries<V>, j: nat)
    requires Distinct(Keys(o)) && j < |o|
    ensures Get(o, o[j].0) == Some(o[j].1)
  {
    if j > 0 {
      assert Keys(o)[0] != Keys(o)[j];
      assert Distinct(Keys(o[1..])) by {
        forall a, b | 0 <= a < b < |o| - 1 ensures Keys(o[1..])[a] != Keys(o[1..])[b] {
          assert Keys(o)[a + 1] != Keys(o)[b + 1];
        }
      }
      GetOfDistinct(o[1..], j - 1);
    }
  }

  /** `Object.fromEntries(keys.map((key) => [filePathToUrlPathname(key, baseDirectory), key]))` */
  function PathnameTable(keys: seq<string>, baseDirectory: string, host: Host): Entries<string>
  {
    FromEntries(PathnamePairs(keys, baseDirectory, host))
  }

  function PathnamePairs(keys: seq<string>, baseDirectory: string, host: Host): (pairs: seq<(string, string)>)
    ensures |pairs| == |keys|
    ensures forall i :: 0 <= i < |keys| ==> pairs[i] == (FilePathToUrlPathname(keys[i], baseDirectory, host), keys[i])
  {
    seq(|keys|, i requires 0 <= i < |keys| => (FilePathToUrlPathname(keys[i], baseDirectory, host), keys[i]))
  }

  /** The pathnames of the table are those of the keys, in order of first appearance. */
  lemma PathnameTableKeys(keys: seq<string>, baseDirectory: string, host: Host)
    ensures Keys(PathnameTable(keys, baseDirectory, host)) == FirstOccurrences(Keys(PathnamePairs(keys, baseDirectory, host)))
  {
    var pairs := PathnamePairs(keys, baseDirectory, host);
    var empty: Entries<string> := [];
    assert Keys(empty) == [];
    PutAllKeys(empty, pairs);
    assert [] + Keys(pairs) == Keys(pairs);
  }

  /** The table over sorted, distinct keys: a pathname maps to a key exactly when some key has
      that pathname, and of several such keys to the lexicographically greatest. */
  lemma PathnameTableSpec(keys: seq<string>, baseDirectory: string, host: Host, pathname: string)
    requires Sorted(keys) && Distinct(keys)
    ensures var r := Get(PathnameTable(keys, baseDirectory, host), pathname);
      && (r.Some? <==> exists i :: 0 <= i < |keys| && FilePathToUrlPathname(keys[i], baseDirectory, host) == pathname)
      && (r.Some? ==> r.value in keys && FilePathToUrlPathname(r.value, baseDirectory, host) == pathname)
      && (r.Some? ==> forall k :: k in keys && FilePathToUrlPathname(k, baseDirectory, host) == pathname ==> LexLe(k, r.value))
  {
    var pairs := PathnamePairs(keys, baseDirectory, host);
    var empty: Entries<string> := [];
    PutAllGet(empty, pairs, pathname);
    LastValueSpec(pairs, pathname);
    var r := Get(PathnameTable(keys, baseDirectory, host), pathname);
    if r.Some? {
      var j :| 0 <= j < |pairs| && pairs[j] == (pathname, r.value) && forall i :: j < i < |pairs| ==> pairs[i].0 != pathname;
      TableWinner(keys, baseDirectory, host, pathname, j);
    } else {
      forall i | 0 <= i < |keys| ensures FilePathToUrlPathname(keys[i], baseDirectory, host) != pathname {
        assert pairs[i].0 != pathname;
      }
    }
  }

  lemma TableWinner(keys: seq<string>, baseDirectory: string, host: Host, pathname: string, j: int)
    requires Sorted(keys) && Distinct(keys) && 0 <= j < |keys|
    requires FilePathToUrlPathname(keys[j], baseDirectory, host) == pathname
    requires forall i :: j < i < |keys| ==> FilePathToUrlPathname(keys[i], baseDirectory, host) != pathname
    ensures forall k :: k in keys && FilePathToUrlPathname(k, baseDirectory, host) == pathname ==> LexLe(k, keys[j])
  {
    forall k | k in keys && FilePathToUrlPathname(k, baseDirectory, host) == pathname
      ensures LexLe(k, keys[j])
    {
      var i :| 0 <= i < |keys| && keys[i] == k;
      if i < j {
        LaterIsGreater(keys, i, j);
      } else {
        LexLeReflexive(k);
      }
    }
  }

  lemma {:induction false} LexLeReflexive(s: string)
    ensures LexLe(s, s)
  {
    if s != [] {
      LexLeReflexive(s[1..]);
    }
  }

  /** Sorting keeps distinct keys distinct. */
  lemma DistinctSorted(keys: seq<string>)
    requires Distinct(keys)
    ensures Distinct(SortKeys(keys))
  {
    var sorted := SortKeys(keys);
    forall i, j | 0 <= i < j < |sorted| ensures sorted[i] != sorted[j] {
      if sorted[i] == sorted[j] {
        TwiceCounted(sorted, i, j);
        CountedOnce(keys, sorted[i]);
      }
    }
  }

  lemma {:induction false} CountedOnce(s: seq<string>, x: string)
    requires Distinct(s)
    ensures multiset(s)[x] <= 1
  {
    if s != [] {
      assert Distinct(s[1..]) by {
        forall a, b | 0 <= a < b < |s| - 1 ensures s[1..][a] != s[1..][b] {
          assert s[a + 1] != s[b + 1];
        }
      }
      CountedOnce(s[1..], x);
      assert s == [s[0]] + s[1..];
      if s[0] == x {
        assert x !in s[1..] by {
          forall a | 0 <= a < |s| - 1 ensures s[1..][a] != x { assert s[a + 1] != s[0]; }
        }
      }
    }
  }

  lemma TwiceCounted(s: seq<string>, i: int, j: int)
    requires 0 <= i < j < |s| && s[i] == s[j]
    ensures multiset(s)[s[i]] >= 2
  {
    assert s == s[..i] + [s[i]] + s[i + 1..j] + [s[j]] + s[j + 1..];
  }

  /** The data source `createDataSource` builds from its arguments. A missing webpack loader is an
      error; source files are gathered only when the glob mentions `ts`. */
  function DataSourceOf(argument: ModulesArgument, globPattern: string, baseDirectory: string, basePath: string,
                        project: Project, matchedFiles: seq<SourceFile>, host: Host): Result<DataSource, EngineError>
  {
    match argument
    case GlobString(_) => Err(LoaderNotConfigured)
    case Loaders(modules) =>
      var sourceFiles := if MentionsTs(globPattern) then Some(matchedFiles) else None;
      var allModules :=
        if sourceFiles.Some? then
          var publicFiles := PublicFiles(project, matchedFiles);
          MergeLoaders(modules, SourceKeys(publicFiles, baseDirectory, host), host)
        else modules;
      Ok(DataSource(allModules, PathnameTable(SortKeys(Keys(allModules)), baseDirectory, host),
                    sourceFiles, baseDirectory, basePath, project, host))
  }

  function SourceKeys(files: seq<SourceFile>, baseDirectory: string, host: Host): (r: seq<string>)
    ensures |r| == |files|
    ensures forall i :: 0 <= i < |files| ==> r[i] == SourceKey(files[i].path, baseDirectory, host)
  {
    seq(|files|, i requires 0 <= i < |files| => SourceKey(files[i].path, baseDirectory, host))
  }

  /** `createDataSource(pattern, globPattern, { baseDirectory, basePath })`. `matchedFiles` is what
      `project.addSourceFilesAtPaths(globPattern)` returns: files of one project, with distinct
      paths. */
  method CreateDataSource(argument: ModulesArgument, globPattern: string, baseDirectory: string, basePath: string,
                          project: Project, matchedFiles: seq<SourceFile>, host: Host)
    returns (r: Result<DataSource, EngineError>)
    requires forall i, j :: 0 <= i < j < |matchedFiles| ==> matchedFiles[i].path != matchedFiles[j].path
    ensures r == DataSourceOf(argument, globPattern, baseDirectory, basePath, project, matchedFiles, host)
  {
    if argument.GlobString? {
      return Err(LoaderNotConfigured);
    }
    var allModules := argument.modules;
    var sourceFiles: Option<seq<SourceFile>> := None;
    if MentionsTs(globPattern) {
      sourceFiles := Some(matchedFiles);
      var publicFiles := FilterPublic(project, matchedFiles);
      var sourceFilePaths := SourceKeys(publicFiles, baseDirectory, host);
      allModules := MergeLoaders(allModules, sourceFilePaths, host);
    }
    var keysByPathname := PathnameTable(SortKeys(Keys(allModules)), baseDirectory, host);
    r := Ok(DataSource(allModules, keysByPathname, sourceFiles, baseDirectory, basePath, project, host));
  }

  /** The table of a data source is built from its module keys, which are distinct. */
  ghost predicate Built(ds: DataSource)
  {
    && Distinct(Keys(ds.allModules))
    && ds.keysByPathname == PathnameTable(SortKeys(Keys(ds.allModules)), ds.baseDirectory, ds.host)
  }

  /** Every data source `createDataSource` returns is built from its modules, when the loaders
      object it was handed has distinct keys (as every JavaScript object does). */
  lemma DataSourceIsBuilt(argument: ModulesArgument, globPattern: string, baseDirectory: string, basePath: string,
                          project: Project, matchedFiles: seq<SourceFile>, host: Host)
    requires argument.Loaders? ==> Distinct(Keys(argument.modules))
    ensures var r := DataSourceOf(argument, globPattern, baseDirectory, basePath, project, matchedFiles, host);
      r.Ok? ==> Built(r.value)
  {
    if argument.Loaders? && MentionsTs(globPattern) {
      var modules := argument.modules;
      var paths := SourceKeys(PublicFiles(project, matchedFiles), baseDirectory, host);
      MergeLoadersSpec(modules, paths, host, []);
    }
  }

  /** One entry of a module's `examples`: the example file's name, its pathname, the loader its
      pathname leads to, the kebab-cased name and its source path. */
  datatype ModuleExample = ModuleExample(
    name: string,
    pathname: string,
    loader: Option<LoadedModule>,
    slug: string,
    sourcePath: string)

  /** What `parseModule` resolves to. */
  datatype Module = Module(
    content: Option<Value>,
    title: string,
    description: Option<string>,
    pathname: string,
    headings: seq<Heading>,
    frontMatter: Option<map<string, FieldValue>>,
    metadata: Option<Metadata>,
    types: Option<seq<string>>,
    examples: Option<seq<ModuleExample>>,
    sourcePath: string,
    exports: map<string, Value>)

  /** `sourceFiles.find(...)`: the first source file whose own pathname is `pathname`, the
      pathname of a file path being what `pathnameOf` (`filePathToUrlPathname` with the base
      directory) gives. */
  function FindSourceFile(files: seq<SourceFile>, pathname: string, pathnameOf: string -> string): (r: Option<SourceFile>)
    ensures r.Some? ==> r.value in files && pathnameOf(r.value.path) == pathname
    ensures r.None? <==> forall f :: f in files ==> pathnameOf(f.path) != pathname
  {
    Find(files, (f: SourceFile) => pathnameOf(f.path) == pathname)
  }

  /** Of several source files with the pathname, `find` takes the first. */
  lemma FindSourceFileIsFirst(files: seq<SourceFile>, pathname: string, pathnameOf: string -> string, i: int)
    requires 0 <= i < |files| && pathnameOf(files[i].path) == pathname
    requires forall j :: 0 <= j < i ==> pathnameOf(files[j].path) != pathname
    ensures FindSourceFile(files, pathname, pathnameOf) == Some(files[i])
  {
    var p := (f: SourceFile) => pathnameOf(f.path) == pathname;
    assert p(files[i]) && forall j :: 0 <= j < i ==> !p(files[j]);
  }

  /** The main export: the first export that is the default export or is named like the file. */
  function FindMainExport(exports: seq<ExportEntry>, name: string): (r: Option<ExportEntry>)
    ensures r.Some? ==> r.value in exports && (r.value.isDefaultExport || r.value.name == name)
    ensures r.None? <==> forall e :: e in exports ==> !e.isDefaultExport && e.name != name
  {
    Find(exports, (e: ExportEntry) => e.isDefaultExport || e.name == name)
  }

  /** When a file has both a default export and an export named like the file, `find` takes
      whichever comes first. */
  lemma FindMainExportIsFirst(exports: seq<ExportEntry>, name: string, i: int)
    requires 0 <= i < |exports| && (exports[i].isDefaultExport || exports[i].name == name)
    requires forall j :: 0 <= j < i ==> !exports[j].isDefaultExport && exports[j].name != name
    ensures FindMainExport(exports, name) == Some(exports[i])
  {
    var p := (e: ExportEntry) => e.isDefaultExport || e.name == name;
    assert p(exports[i]) && forall j :: 0 <= j < i ==> !p(exports[j]);
  }

  /** An example file as a module lists it; the loader is found through the pathname table. */
  function ModuleExampleOf(ds: DataSource, file: SourceFile): ModuleExample
  {
    var pathname := FilePathToUrlPathname(file.path, ds.baseDirectory, ds.host);
    var loader := match Get(ds.keysByPathname, pathname)
      case None => None
      case Some(moduleKey) => Get(ds.allModules, moduleKey);
    ModuleExample(file.baseName, pathname, loader, ds.host.kebabCase(file.baseName), ds.host.sourcePath(file.path))
  }

  function ModuleExamples(ds: DataSource, files: seq<SourceFile>): (r: seq<ModuleExample>)
    ensures |r| == |files|
    ensures forall i :: 0 <= i < |files| ==> r[i] == ModuleExampleOf(ds, files[i])
  {
    seq(|files|, i requires 0 <= i < |files| => ModuleExampleOf(ds, files[i]))
  }

  /** `parseModule` for a pathname the table maps to `moduleKey`. */
  function ParseKnownModule(ds: DataSource, pathname: string, moduleKey: string): (r: Result<Module, EngineError>)
    ensures r.Ok? ==> r.value.pathname == "/" + ds.host.join(ds.basePath, pathname)
    ensures r.Err? ==> r.error.MainExportNotFound? || r.error.DescriptionUnavailable? ||
                       (r.error == LoaderMissing(moduleKey) && Get(ds.allModules, moduleKey).None?)
  {
    var sourceFile := if ds.sourceFiles.Some? then FindSourceFile(ds.sourceFiles.value, pathname, PathnameOf(ds)) else None;
    var mainExport := if sourceFile.Some? then FindMainExport(sourceFile.value.exports, Basename(CleanFilename(moduleKey))) else None;
    if sourceFile.Some? && mainExport.None? then Err(MainExportNotFound(sourceFile.value.path))
    else
      match Get(ds.allModules, moduleKey)
      case None => Err(LoaderMissing(moduleKey))
      case Some(loaded) =>
        var description := ResolveDescription(loaded.metadata, mainExport);
        if description.Err? then Err(description.error)
        else Ok(ModuleOf(ds, pathname, moduleKey, loaded, sourceFile, description.value))
  }

  /** The record `parseModule` resolves to once the loader, the source file and the description
      are known. */
  function ModuleOf(ds: DataSource, pathname: string, moduleKey: string, loaded: LoadedModule,
                    sourceFile: Option<SourceFile>, description: Option<string>): (m: Module)
    ensures m.pathname == "/" + ds.host.join(ds.basePath, pathname)
  {
    var propTypes := if sourceFile.Some? then Some(sourceFile.value.propTypeNames) else None;
    var examples := if sourceFile.Some? then Some(ModuleExamples(ds, GetExamplesFromDirectory(ds.project, sourceFile.value.directory))) else None;
    Module(
      loaded.content,
      ResolveTitle(loaded.metadata, loaded.headings, FilenameTitle(moduleKey, ds.host)),
      description,
      "/" + ds.host.join(ds.basePath, pathname),
      ResolveHeadings(loaded.headings, propTypes, ds.host),
      MergeFrontMatter(loaded.frontMatter, loaded.metadata),
      loaded.metadata,
      propTypes,
      examples,
      ds.host.sourcePath(ds.host.resolve(ds.host.cwd, moduleKey)),
      loaded.exports)
  }

  /** `filePathToUrlPathname` with the data source's base directory, as a function of the path. */
  function PathnameOf(ds: DataSource): string -> string
  {
    (path: string) => FilePathToUrlPathname(path, ds.baseDirectory, ds.host)
  }

  /** `parseModule(pathname)`: nothing for an absent pathname or one the table does not know. */
  function ParseModule(ds: DataSource, pathname: Option<string>): (r: Result<Option<Module>, EngineError>)
    ensures pathname.None? ==> r == Ok(None)
    ensures pathname.Some? && Get(ds.keysByPathname, pathname.value).None? ==> r == Ok(None)
    ensures r.Ok? && r.value.Some? ==>
      pathname.Some? && Get(ds.keysByPathname, pathname.value).Some? &&
      r.value.value.pathname == "/" + ds.host.join(ds.basePath, pathname.value)
  {
    match pathname
    case None => Ok(None)
    case Some(p) =>
      match Get(ds.keysByPathname, p)
      case None => Ok(None)
      case Some(moduleKey) =>
        var m := ParseKnownModule(ds, p, moduleKey);
        if m.Err? then Err(m.error) else Ok(Some(m.value))
  }

  /** The pathnames of a table built from distinct module keys are exactly those of its keys. */
  lemma TablePathname(moduleKeys: seq<string>, table: Entries<string>, baseDirectory: string, host: Host, pathname: string)
    requires Distinct(moduleKeys) && table == PathnameTable(SortKeys(moduleKeys), baseDirectory, host)
    ensures pathname in Keys(table) <==> exists i :: 0 <= i < |SortKeys(moduleKeys)| && FilePathToUrlPathname(SortKeys(moduleKeys)[i], baseDirectory, host) == pathname
  {
    DistinctSorted(moduleKeys);
    TableDomain(SortKeys(moduleKeys), table, baseDirectory, host, pathname);
  }

  lemma TableDomain(keys: seq<string>, table: Entries<string>, baseDirectory: string, host: Host, pathname: string)
    requires Sorted(keys) && Distinct(keys) && table == PathnameTable(keys, baseDirectory, host)
    ensures pathname in Keys(table) <==> exists i :: 0 <= i < |keys| && FilePathToUrlPathname(keys[i], baseDirectory, host) == pathname
  {
    PathnameTableSpec(keys, baseDirectory, host, pathname);
    assert Get(table, pathname).Some? <==> pathname in Keys(table);
  }

  /** Each pathname of a built data source maps to a key with a loader. */
  lemma TableKeyHasLoader(ds: DataSource, pathname: string)
    requires Built(ds)
    ensures var r := Get(ds.keysByPathname, pathname);
      r.Some? ==> Get(ds.allModules, r.value).Some?
  {
    var keys := SortKeys(Keys(ds.allModules));
    DistinctSorted(Keys(ds.allModules));
    PathnameTableSpec(keys, ds.baseDirectory, ds.host, pathname);
    var r := Get(ds.keysByPathname, pathname);
    if r.Some? {
      assert r.value in multiset(keys);
      assert r.value in multiset(Keys(ds.allModules));
    }
  }

  /** In a built data source, a pathname of the table always parses to a module or fails for a
      reason of its source file; its loader is never missing. */
  lemma ParseTablePathname(ds: DataSource, pathname: string)
    requires Built(ds) && pathname in Keys(ds.keysByPathname)
    ensures var r := ParseModule(ds, Some(pathname));
      && r != Ok(None)
      && (r.Err? ==> r.error.MainExportNotFound? || r.error.DescriptionUnavailable?)
  {
    TableKeyHasLoader(ds, pathname);
  }

  /** `getSiblingPathname(startIndex, direction)`: the pathname next to `startIndex` in table
      order; nothing past either end, and nothing when the neighbour's module is a directory's
      readme or index page. */
  function Sibling(ds: DataSource, startIndex: int, direction: int): (r: Option<string>)
    ensures var pathnames := Keys(ds.keysByPathname);
      var i := startIndex + direction;
      && (r.Some? ==> 0 <= i < |pathnames| && r.value == pathnames[i])
      && (0 <= i < |pathnames| ==>
            var moduleKey := Get(ds.keysByPathname, pathnames[i]).value;
            (r.None? <==> moduleKey != [] && EndsInReadmeOrIndex(Basename(CleanFilename(moduleKey)))))
  {
    var pathnames := Keys(ds.keysByPathname);
    var i := startIndex + direction;
    if 0 <= i < |pathnames| then
      var moduleKey := Get(ds.keysByPathname, pathnames[i]);
      if moduleKey.Some? && moduleKey.value != [] && EndsInReadmeOrIndex(Basename(CleanFilename(moduleKey.value))) then None
      else Some(pathnames[i])
    else None
  }

  /** `findIndex`: the first pathname that contains `pathname`, or -1. */
  function ActiveIndex(ds: DataSource, pathname: string): (r: int)
    ensures var pathnames := Keys(ds.keysByPathname);
      && -1 <= r < |pathnames|
      && (r >= 0 ==> Includes(pathnames[r], pathname) && forall j :: 0 <= j < r ==> !Includes(pathnames[j], pathname))
      && (r == -1 ==> forall j :: 0 <= j < |pathnames| ==> !Includes(pathnames[j], pathname))
  {
    FirstIncluding(Keys(ds.keysByPathname), pathname, 0)
  }

  function FirstIncluding(pathnames: seq<string>, pathname: string, from: nat): (r: int)
    requires from <= |pathnames|
    ensures -1 <= r < |pathnames|
    ensures r >= 0 ==> from <= r && Includes(pathnames[r], pathname)
    ensures r >= 0 ==> forall j :: from <= j < r ==> !Includes(pathnames[j], pathname)
    ensures r == -1 ==> forall j :: from <= j < |pathnames| ==> !Includes(pathnames[j], pathname)
    decreases |pathnames| - from
  {
    if from == |pathnames| then -1
    else if Includes(pathnames[from], pathname) then from
    else FirstIncluding(pathnames, pathname, from + 1)
  }

  /** The argument of `get`: one pathname or its segments. */
  datatype PathArgument = Pathname(path: string) | Segments(parts: seq<string>)

  /** `getPathData`: the active module with its neighbours. */
  datatype PageData = PageData(active: Module, previous: Option<Module>, next: Option<Module>)

  function StringPathname(argument: PathArgument): string
  {
    match argument
    case Pathname(path) => path
    case Segments(parts) => Join(parts, '/')
  }

  /** `get(pathname)`: the three modules are parsed together and the first failure, in argument
      order, is the result; an unknown active pathname gives nothing. */
  function GetPathData(ds: DataSource, argument: PathArgument): Result<Option<PageData>, EngineError>
  {
    var s := StringPathname(argument);
    var activeIndex := ActiveIndex(ds, s);
    Settle(ParseModule(ds, Some(s)), ParseModule(ds, Sibling(ds, activeIndex, -1)), ParseModule(ds, Sibling(ds, activeIndex, 1)))
  }

  /** The awaited `Promise.all` of the three parses: the first failure in argument order, nothing
      for an unknown active page, else the active page with its neighbours attached. */
  function Settle(active: Result<Option<Module>, EngineError>, previous: Result<Option<Module>, EngineError>,
                  next: Result<Option<Module>, EngineError>): (r: Result<Option<PageData>, EngineError>)
    ensures r.Ok? <==> active.Ok? && previous.Ok? && next.Ok?
    ensures r.Ok? && r.value.Some? <==> active.Ok? && previous.Ok? && next.Ok? && active.value.Some?
    ensures r.Ok? && r.value.Some? ==> r.value.value == PageData(active.value.value, previous.value, next.value)
    ensures active.Err? ==> r == Err(active.error)
    ensures active.Ok? && previous.Err? ==> r == Err(previous.error)
    ensures active.Ok? && previous.Ok? && next.Err? ==> r == Err(next.error)
  {
    if active.Err? then Err(active.error)
    else if previous.Err? then Err(previous.error)
    else if next.Err? then Err(next.error)
    else if active.value.None? then Ok(None)
    else Ok(Some(PageData(active.value.value, previous.value, next.value)))
  }

  /** A page exists exactly when its pathname is in the table and its modules parse. */
  lemma PageExists(ds: DataSource, argument: PathArgument)
    ensures var r := GetPathData(ds, argument);
      var s := StringPathname(argument);
      && (r.Ok? && r.value.Some? ==> s in Keys(ds.keysByPathname))
      && (s !in Keys(ds.keysByPathname) ==> r.Err? || r == Ok(None))
  {
    var s := StringPathname(argument);
    var active := ParseModule(ds, Some(s));
    assert s !in Keys(ds.keysByPathname) ==> active == Ok(None);
  }

  /** The previous page is the module of the pathname right before the first pathname containing
      the page's own. */
  lemma PreviousPage(ds: DataSource, argument: PathArgument)
    ensures var r := GetPathData(ds, argument);
      var i := ActiveIndex(ds, StringPathname(argument));
      r.Ok? && r.value.Some? && r.value.value.previous.Some? ==>
        1 <= i && r.value.value.previous.value.pathname == "/" + ds.host.join(ds.basePath, Keys(ds.keysByPathname)[i - 1])
  {
    var s := StringPathname(argument);
    var i := ActiveIndex(ds, s);
    var previous, next := Sibling(ds, i, -1), Sibling(ds, i, 1);
    assert GetPathData(ds, argument) == Settle(ParseModule(ds, Some(s)), ParseModule(ds, previous), ParseModule(ds, next));
    NeighbourModule(ds, i, -1);
  }

  /** The next page is the module of the pathname right after the first pathname containing the
      page's own. */
  lemma NextPage(ds: DataSource, argument: PathArgument)
    ensures var r := GetPathData(ds, argument);
      var i := ActiveIndex(ds, StringPathname(argument));
      r.Ok? && r.value.Some? && r.value.value.next.Some? ==>
        i + 1 < |Keys(ds.keysByPathname)| && r.value.value.next.value.pathname == "/" + ds.host.join(ds.basePath, Keys(ds.keysByPathname)[i + 1])
  {
    var s := StringPathname(argument);
    var i := ActiveIndex(ds, s);
    var previous, next := Sibling(ds, i, -1), Sibling(ds, i, 1);
    assert GetPathData(ds, argument) == Settle(ParseModule(ds, Some(s)), ParseModule(ds, previous), ParseModule(ds, next));
    NeighbourModule(ds, i, 1);
  }

  /** A neighbour that parses to a module is the module of the pathname `direction` steps away. */
  lemma NeighbourModule(ds: DataSource, i: int, direction: int)
    ensures var p := ParseModule(ds, Sibling(ds, i, direction));
      p.Ok? && p.value.Some? ==>
        0 <= i + direction < |Keys(ds.keysByPathname)| &&
        p.value.value.pathname == "/" + ds.host.join(ds.basePath, Keys(ds.keysByPathname)[i + direction])
  {
    var sibling := Sibling(ds, i, direction);
    assert ParseModule(ds, sibling).Ok? && ParseModule(ds, sibling).value.Some? ==> sibling.Some?;
  }

  /** A pathname of the table is the first to contain itself unless an earlier pathname
      contains it too. */
  lemma ActivePage(ds: DataSource, k: int)
    requires 0 <= k < |Keys(ds.keysByPathname)|
    ensures var pathnames := Keys(ds.keysByPathname);
      && ActiveIndex(ds, pathnames[k]) <= k
      && (ActiveIndex(ds, pathnames[k]) == k <==> forall j :: 0 <= j < k ==> !Includes(pathnames[j], pathnames[k]))
  {
    var pathnames := Keys(ds.keysByPathname);
    IncludesItself(pathnames[k]);
  }

  lemma IncludesItself(s: string)
    ensures Includes(s, s)
  {
    assert OccursAt(s, s, 0);
  }

  /** The `paths()` filter: pathnames not ending in `readme` or `index`, in table order. */
  function ContentPathnames(pathnames: seq<string>): (r: seq<string>)
    ensures forall p :: p in r <==> p in pathnames && !EndsInReadmeOrIndex(p)
  {
    if pathnames == [] then []
    else
      var last := pathnames[|pathnames| - 1];
      assert forall p :: p in pathnames <==> p in pathnames[..|pathnames| - 1] || p == last;
      ContentPathnames(pathnames[..|pathnames| - 1]) + if EndsInReadmeOrIndex(last) then [] else [last]
  }

  /** The filter keeps table order: filtering two runs of pathnames one after the other is
      filtering each. */
  lemma {:induction false} ContentPathnamesConcat(a: seq<string>, b: seq<string>)
    ensures ContentPathnames(a + b) == ContentPathnames(a) + ContentPathnames(b)
    decreases |b|
  {
    if b == [] {
      assert a + b == a;
    } else {
      var init := b[..|b| - 1];
      assert (a + b)[..|a + b| - 1] == a + init;
      ContentPathnamesConcat(a, init);
    }
  }

  /** `paths()`: each remaining pathname split into its non-empty segments. */
  function Paths(ds: DataSource): (r: seq<seq<string>>)
    ensures var pathnames := ContentPathnames(Keys(ds.keysByPathname));
      && |r| == |pathnames|
      && forall i :: 0 <= i < |r| ==> forall j :: 0 <= j < |r[i]| ==> r[i][j] != [] && '/' !in r[i][j]
  {
    var pathnames := ContentPathnames(Keys(ds.keysByPathname));
    seq(|pathnames|, i requires 0 <= i < |pathnames| => NonEmpty(Split(pathnames[i], '/')))
  }

  /** The segments `paths()` gives for a pathname join back to that pathname, for every pathname a
      built data source holds. */
  lemma PathsRoundTrip(ds: DataSource, i: int)
    requires Built(ds) && KebabKeepsSegments(ds.host)
    requires 0 <= i < |Paths(ds)|
    ensures Join(Paths(ds)[i], '/') == ContentPathnames(Keys(ds.keysByPathname))[i]
  {
    var pathname := ContentPathnames(Keys(ds.keysByPathname))[i];
    assert Paths(ds)[i] == NonEmpty(Split(pathname, '/'));
    assert pathname in Keys(ds.keysByPathname);
    var path := TablePathnameIsJoined(ds, pathname);
    SegmentsJoinBack(path, ds.host);
  }

  /** Every pathname of a built table is the join `filePathToUrlPathname` ends with. */
  lemma TablePathnameIsJoined(ds: DataSource, pathname: string) returns (path: string)
    requires Built(ds) && pathname in Keys(ds.keysByPathname)
    ensures pathname == JoinedSegments(path, ds.host)
  {
    TablePathname(Keys(ds.allModules), ds.keysByPathname, ds.baseDirectory, ds.host, pathname);
    path := NormalisedIsJoined(SortKeys(Keys(ds.allModules)), ds.baseDirectory, ds.host, pathname);
  }

  lemma NormalisedIsJoined(keys: seq<string>, baseDirectory: string, host: Host, pathname: string) returns (path: string)
    requires exists i :: 0 <= i < |keys| && FilePathToUrlPathname(keys[i], baseDirectory, host) == pathname
    ensures pathname == JoinedSegments(path, host)
  {
    var k :| 0 <= k < |keys| && FilePathToUrlPathname(keys[k], baseDirectory, host) == pathname;
    path := RewrittenPath(keys[k], baseDirectory, host);
  }

  /** `split('/').filter(Boolean)` undoes the join that ends `filePathToUrlPathname`. */
  lemma SegmentsJoinBack(path: string, host: Host)
    requires KebabKeepsSegments(host)
    ensures var p := JoinedSegments(path, host);
      Join(NonEmpty(Split(p, '/')), '/') == p
  {
    var p := JoinedSegments(path, host);
    JoinedSegmentsSpec(path, host);
    if p != [] {
      var kept := NonEmpty(KebabEach(Split(path, '/'), host));
      NonEmptyKeepsAll(kept);
    }
  }

  lemma {:induction false} NonEmptyKeepsAll(parts: seq<string>)
    requires forall i :: 0 <= i < |parts| ==> parts[i] != []
    ensures NonEmpty(parts) == parts
  {
    if parts != [] {
      NonEmptyKeepsAll(parts[1..]);
    }
  }

  /** The `all()` filter: a pathname is dropped when its module key names an `examples` path and
      mentions `ts`. */
  predicate IsExampleModule(ds: DataSource, pathname: string)
  {
    var moduleKey := Get(ds.keysByPathname, pathname);
    moduleKey.Some? && moduleKey.value != [] && Includes(moduleKey.value, "examples") && MentionsTs(moduleKey.value)
  }

  function WithoutExamples(ds: DataSource, pathnames: seq<string>): (r: seq<string>)
    ensures forall p :: p in r <==> p in pathnames && !IsExampleModule(ds, p)
    ensures Distinct(pathnames) ==> Distinct(r)
  {
    if pathnames == [] then []
    else
      var init := pathnames[..|pathnames| - 1];
      var last := pathnames[|pathnames| - 1];
      assert forall p :: p in pathnames <==> p in init || p == last;
      var r := WithoutExamples(ds, init) + if IsExampleModule(ds, last) then [] else [last];
      assert Distinct(pathnames) ==> Distinct(r) by {
        if Distinct(pathnames) {
          assert Distinct(init) by {
            forall a, b | 0 <= a < b < |init| ensures init[a] != init[b] { assert pathnames[a] != pathnames[b]; }
          }
          assert last !in init by {
            forall a | 0 <= a < |init| ensures init[a] != last { assert pathnames[a] != pathnames[|pathnames| - 1]; }
          }
        }
      }
      r
  }

  /** The `all()` filter keeps table order. */
  lemma {:induction false} WithoutExamplesConcat(ds: DataSource, a: seq<string>, b: seq<string>)
    ensures WithoutExamples(ds, a + b) == WithoutExamples(ds, a) + WithoutExamples(ds, b)
    decreases |b|
  {
    if b == [] {
      assert a + b == a;
    } else {
      var init := b[..|b| - 1];
      assert (a + b)[..|a + b| - 1] == a + init;
      WithoutExamplesConcat(ds, a, init);
    }
  }

  /** `Promise.all` over the outcomes of several calls: the first failure in list order, or
      every value in order. */
  function PromiseAll<T>(outcomes: seq<Result<T, EngineError>>): (r: Result<seq<T>, EngineError>)
    ensures r.Ok? <==> forall i :: 0 <= i < |outcomes| ==> outcomes[i].Ok?
    ensures r.Ok? ==> |r.value| == |outcomes| && forall i :: 0 <= i < |outcomes| ==> r.value[i] == outcomes[i].value
    ensures r.Err? ==> exists i :: (0 <= i < |outcomes| && outcomes[i] == Err(r.error) &&
                                    forall j :: 0 <= j < i ==> outcomes[j].Ok?)
  {
    if outcomes == [] then Ok([])
    else if outcomes[0].Err? then Err(outcomes[0].error)
    else
      var rest := PromiseAll(outcomes[1..]);
      if rest.Err? then
        var i :| 0 <= i < |outcomes| - 1 && outcomes[1..][i] == Err(rest.error) &&
                 forall j :: 0 <= j < i ==> outcomes[1..][j].Ok?;
        assert outcomes[i + 1] == Err(rest.error);
        Err(rest.error)
      else
        Ok([outcomes[0].value] + rest.value)
  }

  /** `pathnames.map(parseModule)` */
  function ParsedModules(ds: DataSource, pathnames: seq<string>): (r: seq<Result<Option<Module>, EngineError>>)
    ensures |r| == |pathnames|
    ensures forall i :: 0 <= i < |pathnames| ==> r[i] == ParseModule(ds, Some(pathnames[i]))
  {
    seq(|pathnames|, i requires 0 <= i < |pathnames| => ParseModule(ds, Some(pathnames[i])))
  }

  /** `pathnames.map((pathname, index) => [pathname, values[index]])` */
  function Zip<V>(pathnames: seq<string>, values: seq<V>): (r: seq<(string, V)>)
    requires |pathnames| == |values|
    ensures |r| == |pathnames|
    ensures forall i :: 0 <= i < |pathnames| ==> r[i] == (pathnames[i], values[i])
  {
    seq(|pathnames|, i requires 0 <= i < |pathnames| => (pathnames[i], values[i]))
  }

  /** `all()`: every pathname except those of example modules, with its parsed module. */
  function All(ds: DataSource): Result<Entries<Option<Module>>, EngineError>
  {
    var pathnames := WithoutExamples(ds, Keys(ds.keysByPathname));
    var parsed := PromiseAll(ParsedModules(ds, pathnames));
    if parsed.Err? then Err(parsed.error) else Ok(FromEntries(Zip(pathnames, parsed.value)))
  }

  /** A built table lists each pathname once. */
  lemma TableKeysDistinct(ds: DataSource)
    requires Built(ds)
    ensures Distinct(Keys(ds.keysByPathname))
  {
    PathnameTableKeys(SortKeys(Keys(ds.allModules)), ds.baseDirectory, ds.host);
  }

  /** On a table without repeated pathnames (every built one, by `TableKeysDistinct`) `all()`
      lists exactly the pathnames that are not example modules, in table order. */
  lemma AllKeys(ds: DataSource)
    requires Distinct(Keys(ds.keysByPathname))
    ensures var r := All(ds);
      r.Ok? ==> Keys(r.value) == WithoutExamples(ds, Keys(ds.keysByPathname))
  {
    var pathnames := WithoutExamples(ds, Keys(ds.keysByPathname));
    var parsed := PromiseAll(ParsedModules(ds, pathnames));
    if parsed.Ok? {
      AllEntries(ds);
      ZipKeys(pathnames, parsed.value);
    }
  }

  /** The entries of `all()` are the pairs of pathname and parsed module as they are. */
  lemma AllEntries(ds: DataSource)
    requires Distinct(Keys(ds.keysByPathname))
    ensures var r := All(ds);
      var pathnames := WithoutExamples(ds, Keys(ds.keysByPathname));
      var parsed := PromiseAll(ParsedModules(ds, pathnames));
      r.Ok? ==> parsed.Ok? && r.value == Zip(pathnames, parsed.value)
  {
    var pathnames := WithoutExamples(ds, Keys(ds.keysByPathname));
    var parsed := PromiseAll(ParsedModules(ds, pathnames));
    if parsed.Ok? {
      FromEntriesOfZip(pathnames, parsed.value);
    }
  }

  /** On a built data source every entry of `all()` holds a module, the one parsed for its
      pathname. */
  lemma AllModules(ds: DataSource, i: int)
    requires Built(ds)
    ensures var r := All(ds);
      r.Ok? && 0 <= i < |r.value| ==>
        r.value[i].1.Some? && r.value[i].1.value.pathname == "/" + ds.host.join(ds.basePath, r.value[i].0)
  {
    var pathnames := WithoutExamples(ds, Keys(ds.keysByPathname));
    var outcomes := ParsedModules(ds, pathnames);
    var parsed := PromiseAll(outcomes);
    TableKeysDistinct(ds);
    AllEntries(ds);
    if parsed.Ok? && 0 <= i < |pathnames| {
      assert pathnames[i] in Keys(ds.keysByPathname);
      assert outcomes[i] == ParseModule(ds, Some(pathnames[i]));
      ParseTablePathname(ds, pathnames[i]);
    }
  }

  lemma ZipKeys<V>(pathnames: seq<string>, values: seq<V>)
    requires |pathnames| == |values|
    ensures Keys(Zip(pathnames, values)) == pathnames
  {
  }

  lemma FromEntriesOfZip<V>(pathnames: seq<string>, values: seq<V>)
    requires |pathnames| == |values| && Distinct(pathnames)
    ensures FromEntries(Zip(pathnames, values)) == Zip(pathnames, values)
  {
    ZipKeys(pathnames, values);
    FromEntriesOfDistinct(Zip(pathnames, values));
  }

  /** `Object.fromEntries` of pairs with distinct keys keeps them as they are. */
  lemma {:induction false} FromEntriesOfDistinct<V>(pairs: seq<(string, V)>)
    requires Distinct(Keys(pairs))
    ensures FromEntries(pairs) == pairs
  {
    if pairs != [] {
      var init := pairs[..|pairs| - 1];
      var last := pairs[|pairs| - 1];
      assert Distinct(Keys(init)) by {
        forall a, b | 0 <= a < b < |init| ensures Keys(init)[a] != Keys(init)[b] {
          assert Keys(pairs)[a] != Keys(pairs)[b];
        }
      }
      FromEntriesOfDistinct(init);
      assert last.0 !in Keys(init) by {
        forall a | 0 <= a < |init| ensures Keys(init)[a] != last.0 {
          assert Keys(pairs)[a] != Keys(pairs)[|pairs| - 1];
        }
      }
      PutAbsent(init, last.0, last.1);
      assert pairs == init + [last];
    }
  }

  /** Assigning a new key appends it. */
  lemma {:induction false} PutAbsent<V>(o: Entries<V>, k: string, v: V)
    requires k !in Keys(o)
    ensures Put(o, k, v) == o + [(k, v)]
  {
    if o != [] {
      assert o == [o[0]] + o[1..];
      assert Keys(o) == [o[0].0] + Keys(o[1..]);
      PutAbsent(o[1..], k, v);
    }
  }
}
