/**
 * The export-visibility filter of `createDataSource`: a source file matched by the glob is kept
 * only when its directory's index file re-exports it and none of its own exports is tagged
 * `@private`. The set of re-exported paths is computed once per directory and kept in a memo
 * table; a private file's path is deleted from its directory's set in place.
 */
module Visibility {
  import opened Wrappers
  import opened SourceModel

  /** The exports of the directory's index file: `index.ts` when it exists, else `index.tsx`,
      else none. */
  function IndexFileExports(project: Project, directory: string): (r: Option<seq<string>>)
    ensures directory in project.indexTsExports ==> r == Some(project.indexTsExports[directory])
    ensures directory !in project.indexTsExports && directory in project.indexTsxExports ==>
      r == Some(project.indexTsxExports[directory])
    ensures r.None? <==> directory !in project.indexTsExports && directory !in project.indexTsxExports
  {
    if directory in project.indexTsExports then Some(project.indexTsExports[directory])
    else if directory in project.indexTsxExports then Some(project.indexTsxExports[directory])
    else None
  }

  /** The set a directory's memo entry starts as: every path the index file's exported
      declarations come from, and nothing when the directory has no index file. */
  function IndexExportSet(project: Project, directory: string): set<string>
  {
    match IndexFileExports(project, directory)
    case None => {}
    case Some(paths) => set p | p in paths
  }

  /** The filter's verdict on one file, stated without the memo. */
  predicate IsPublic(project: Project, file: SourceFile)
  {
    file.path in IndexExportSet(project, file.directory) && !file.hasPrivateExport
  }

  /** The files the filter keeps, in their original order. */
  function PublicFiles(project: Project, files: seq<SourceFile>): (r: seq<SourceFile>)
    ensures forall f :: f in r <==> f in files && IsPublic(project, f)
    ensures |r| <= |files|
  {
    if files == [] then []
    else
      var last := files[|files| - 1];
      assert forall f :: f in files <==> f in files[..|files| - 1] || f == last;
      PublicFiles(project, files[..|files| - 1]) + if IsPublic(project, last) then [last] else []
  }

  /** The filter keeps the files' order: filtering two runs of files one after the other is
      filtering each. */
  lemma {:induction false} PublicFilesConcat(project: Project, a: seq<SourceFile>, b: seq<SourceFile>)
    ensures PublicFiles(project, a + b) == PublicFiles(project, a) + PublicFiles(project, b)
    decreases |b|
  {
    if b == [] {
      assert a + b == a;
    } else {
      var init := b[..|b| - 1];
      assert (a + b)[..|a + b| - 1] == a + init;
      PublicFilesConcat(project, a, init);
    }
  }

  /** Adding each exported declaration's source path to a fresh set (`exportedModules.add`). */
  method CollectExportSet(paths: seq<string>) returns (exportedModules: set<string>)
    ensures exportedModules == set p | p in paths
  {
    exportedModules := {};
    var i := 0;
    while i < |paths|
      invariant 0 <= i <= |paths|
      invariant exportedModules == set p | p in paths[..i]
    {
      assert paths[..i + 1] == paths[..i] + [paths[i]];
      exportedModules := exportedModules + {paths[i]};
      i := i + 1;
    }
    assert paths[..i] == paths;
  }

  /** The `indexFiles` memo table of one `createDataSource` call. */
  class ExportVisibility {
    const project: Project
    var indexFiles: map<string, set<string>>

    constructor(project: Project)
      ensures this.project == project && indexFiles == map[]
    {
      this.project := project;
      indexFiles := map[];
    }

    /** The directory's set: taken from the memo when present, otherwise computed from the index
        file and stored. */
    method ExportedModules(directory: string) returns (exportedModules: set<string>)
      modifies this
      ensures directory in old(indexFiles) ==> exportedModules == old(indexFiles)[directory]
      ensures directory !in old(indexFiles) ==> exportedModules == IndexExportSet(project, directory)
      ensures indexFiles == old(indexFiles)[directory := exportedModules]
    {
      if directory in indexFiles {
        exportedModules := indexFiles[directory];
      } else {
        exportedModules := {};
        var exports := IndexFileExports(project, directory);
        if exports.Some? {
          exportedModules := CollectExportSet(exports.value);
        }
        indexFiles := indexFiles[directory := exportedModules];
      }
    }

    /** The filter callback: a private file deletes its own path from its directory's set, and
        the file is kept when its path is still in the set. */
    method Keep(file: SourceFile) returns (keep: bool)
      modifies this
      ensures var exported := if file.directory in old(indexFiles) then old(indexFiles)[file.directory]
                              else IndexExportSet(project, file.directory);
        && indexFiles == old(indexFiles)[file.directory :=
             if file.hasPrivateExport then exported - {file.path} else exported]
        && keep == (file.path in exported && !file.hasPrivateExport)
    {
      var exportedModules := ExportedModules(file.directory);
      if file.hasPrivateExport {
        exportedModules := exportedModules - {file.path};
        indexFiles := indexFiles[file.directory := exportedModules];
      }
      keep := file.path in exportedModules;
    }
  }

  /** `sourceFiles.filter(...)` with a fresh memo table. Source files of one project have
      distinct paths. */
  method FilterPublic(project: Project, files: seq<SourceFile>) returns (kept: seq<SourceFile>)
    requires forall i, j :: 0 <= i < j < |files| ==> files[i].path != files[j].path
    ensures kept == PublicFiles(project, files)
  {
    var visibility := new ExportVisibility(project);
    kept := [];
    var i := 0;
    while i < |files|
      invariant 0 <= i <= |files|
      invariant visibility.project == project
      invariant kept == PublicFiles(project, files[..i])
      invariant forall k :: i <= k < |files| && files[k].directory in visibility.indexFiles ==>
        (files[k].path in visibility.indexFiles[files[k].directory] <==>
         files[k].path in IndexExportSet(project, files[k].directory))
    {
      var keep := visibility.Keep(files[i]);
      assert files[..i + 1][..i] == files[..i];
      if keep {
        kept := kept + [files[i]];
      }
      i := i + 1;
    }
    assert files[..i] == files;
  }
}
