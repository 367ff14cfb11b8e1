/**
 * What the engine reads from the TypeScript project (ts-morph) and from the loaded modules,
 * reduced to plain per-file records. Every AST query the engine makes becomes a field: the
 * exported declarations of a file, whether one of them carries a `@private` tag, the source files
 * its directory's index file re-exports, the names of its exported prop types.
 */
module SourceModel {
  import opened Wrappers

  /** A runtime value the engine passes along without looking inside it (a component, an
      exported object, a loaded example), identified by an opaque number. */
  datatype Value = Value(id: nat)

  /** A value of a front matter or metadata record: a string, or anything else. */
  datatype FieldValue = Text(text: string) | Other(value: Value)

  /** One entry of the `headings` list a compiled MDX module exports. */
  datatype Heading = Heading(text: string, id: string, depth: int)

  /** The `metadata` export of a compiled MDX module: its `title` and `description`, each
      possibly absent. */
  datatype Metadata = Metadata(title: Option<string>, description: Option<string>)

  /** What awaiting a module loader gives: its default export (the content component; `null`
      for the placeholder of a source file without an MDX companion), the `headings`,
      `metadata` and `frontMatter` exports when present, and the remaining named exports. */
  datatype LoadedModule = LoadedModule(
    content: Option<Value>,
    headings: Option<seq<Heading>>,
    metadata: Option<Metadata>,
    frontMatter: Option<map<string, FieldValue>>,
    exports: map<string, Value>)

  /** What the engine throws. */
  datatype EngineError =
    /** `createDataSource` was handed a glob string because the webpack loader is not configured. */
    | LoaderNotConfigured
    /** `parseModule` found no default export and no export named like the file (`.at` on
        `undefined`). */
    | MainExportNotFound(path: string)
    /** The main export is neither a function nor a variable declaration and the module has no
        metadata description, so its JSDoc list is `undefined`. */
    | DescriptionUnavailable(exportName: string)
    /** An example file without a loader: `Module not found for <path>`. */
    | ModuleNotFound(path: string)
    /** `await allModules[moduleKey]` on a key without a loader. */
    | LoaderMissing(key: string)

  /** The kind of the first declaration behind an export, with the JSDoc descriptions the engine
      would read from it: a function's implementation (or the declaration itself when it has no
      separate implementation), a variable's enclosing statement (none when there is no
      enclosing statement). */
  datatype Declaration =
    | FunctionDeclaration(jsDocs: seq<string>)
    | VariableDeclaration(jsDocs: seq<string>)
    | OtherDeclaration

  /** One entry of `getExportedDeclarations()`: the export name, its first declaration, whether
      that declaration's symbol is the file's default export symbol, where the declaration starts
      and the text `extractExportByIdentifier` returns for it. */
  datatype ExportEntry = ExportEntry(
    name: string,
    declaration: Declaration,
    isDefaultExport: bool,
    line: nat,
    column: nat,
    sourceText: string)

  /** A ts-morph source file: its absolute path, its directory, its base name without the
      extension and the extension (with its dot), its exports in enumeration order, whether any
      export's implementation has a `@private` JSDoc tag, and the names of the prop types
      `getExportedPropTypes` finds. */
  datatype SourceFile = SourceFile(
    path: string,
    directory: string,
    baseName: string,
    extension: string,
    exports: seq<ExportEntry>,
    hasPrivateExport: bool,
    propTypeNames: seq<string>)

  /** The parts of the ts-morph project the engine queries, keyed by directory path:
      the source paths that the exported declarations of `index.ts` (or, when there is none,
      `index.tsx`) resolve to, in enumeration order; the `examples` child directory; the source
      files directly inside a directory; and the `.ts` and `.tsx` files at any depth
      below a directory. A directory missing from a map has no such entry. */
  datatype Project = Project(
    indexTsExports: map<string, seq<string>>,
    indexTsxExports: map<string, seq<string>>,
    examplesDirectory: map<string, string>,
    directFiles: map<string, seq<SourceFile>>,
    nestedFiles: map<string, seq<SourceFile>>)
  {
    /** `directory.getSourceFiles()` */
    function FilesIn(directory: string): seq<SourceFile>
    {
      if directory in directFiles then directFiles[directory] else []
    }

    /** What `directory.addSourceFilesAtPaths` returns for the pattern of every `.ts` and `.tsx`
        file at any depth. */
    function FilesBelow(directory: string): seq<SourceFile>
    {
      if directory in nestedFiles then nestedFiles[directory] else []
    }
  }
}
