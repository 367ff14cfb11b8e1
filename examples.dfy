/**
 * Example discovery of `get-examples.ts`: which files hold a source file's examples, one example
 * record per export of each, and the previous/next links that chain the records of one file.
 */
module Examples {
  import opened Wrappers
  import opened Strings
  import opened Environment
  import opened SourceModel

  /** A file's name with its extension. */
  function FileName(file: SourceFile): string
  {
    file.baseName + file.extension
  }

  /** The first file with the given name. */
  function FindByName(files: seq<SourceFile>, name: string): (r: Option<SourceFile>)
    ensures r.Some? ==> r.value in files && FileName(r.value) == name
    ensures r.None? ==> forall f :: f in files ==> FileName(f) != name
  {
    if files == [] then None
    else if FileName(files[0]) == name then Some(files[0])
    else FindByName(files[1..], name)
  }

  /** `getExamplesFromExtension(sourceFile)`: the file named `<base>.examples<ext>` in the same
      directory, or nothing. */
  function GetExamplesFromExtension(project: Project, file: SourceFile): (r: Option<SourceFile>)
    ensures r.Some? ==> r.value in project.FilesIn(file.directory) &&
                        FileName(r.value) == file.baseName + ".examples" + file.extension
    ensures r.None? <==> forall f :: f in project.FilesIn(file.directory) ==>
                          FileName(f) != file.baseName + ".examples" + file.extension
  {
    FindByName(project.FilesIn(file.directory), file.baseName + ".examples" + file.extension)
  }

  /** `getExamplesFromDirectory(directory)` */
  function GetExamplesFromDirectory(project: Project, directory: string): seq<SourceFile>
  {
    if directory !in project.examplesDirectory then []
    else
      var examplesDirectory := project.examplesDirectory[directory];
      var sourceFiles := project.FilesIn(examplesDirectory);
      if |sourceFiles| == 0 then project.FilesBelow(examplesDirectory) else sourceFiles
  }

  /** No `examples` directory gives no files; otherwise its own files are used when it has any,
      and the `.ts`/`.tsx` files at any depth below it when it has none. In particular the result
      is empty exactly when there is no `examples` directory or neither search finds a file. */
  lemma ExamplesFromDirectorySpec(project: Project, directory: string)
    ensures directory !in project.examplesDirectory ==> GetExamplesFromDirectory(project, directory) == []
    ensures directory in project.examplesDirectory ==>
      var d := project.examplesDirectory[directory];
      && (project.FilesIn(d) != [] ==> GetExamplesFromDirectory(project, directory) == project.FilesIn(d))
      && (project.FilesIn(d) == [] ==> GetExamplesFromDirectory(project, directory) == project.FilesBelow(d))
    ensures GetExamplesFromDirectory(project, directory) == [] <==>
      directory !in project.examplesDirectory ||
      (project.FilesIn(project.examplesDirectory[directory]) == [] &&
       project.FilesBelow(project.examplesDirectory[directory]) == [])
  {
  }

  /** `allExampleSourceFiles`: the directory's example files, then the `.examples` file. */
  function ExampleSourceFiles(project: Project, file: SourceFile): (r: seq<SourceFile>)
    ensures var fromDirectory := GetExamplesFromDirectory(project, file.directory);
      && |r| == |fromDirectory| + (if GetExamplesFromExtension(project, file).Some? then 1 else 0)
      && r[..|fromDirectory|] == fromDirectory
      && (GetExamplesFromExtension(project, file).Some? ==> r[|r| - 1] == GetExamplesFromExtension(project, file).value)
  {
    var extensionFile := GetExamplesFromExtension(project, file);
    GetExamplesFromDirectory(project, file.directory) + if extensionFile.Some? then [extensionFile.value] else []
  }

  /** A `{ label, pathname }` link to a neighbouring example. */
  datatype Link = Link(labelText: string, pathname: string)

  datatype ExampleItem = ExampleItem(
    name: string,
    moduleExport: Option<Value>,
    slug: string,
    pathname: string,
    sourcePath: string,
    sourceText: string,
    previous: Option<Link>,
    next: Option<Link>)

  /** The link other examples hold to this one. */
  function LinkTo(item: ExampleItem): Link
  {
    Link(item.name, item.pathname)
  }

  /** The record pushed for one export, before the links are set. */
  function Draft(file: SourceFile, entry: ExportEntry, pathname: string, moduleImport: map<string, Value>, host: Host): ExampleItem
  {
    var slug := host.kebabCase(entry.name);
    ExampleItem(
      name := host.parseTitle(Join(Split(slug, '-'), ' ')),
      moduleExport := if entry.name in moduleImport then Some(moduleImport[entry.name]) else None,
      slug := slug,
      pathname := host.join(pathname, slug),
      sourcePath := host.sourcePathAt(file.path, entry.line, entry.column),
      sourceText := entry.sourceText,
      previous := None,
      next := None)
  }

  function Drafts(file: SourceFile, pathname: string, moduleImport: map<string, Value>, host: Host): seq<ExampleItem>
  {
    seq(|file.exports|, i requires 0 <= i < |file.exports| => Draft(file, file.exports[i], pathname, moduleImport, host))
  }

  /** Item `i` of a list with links to its neighbours set; a link without a neighbour is left as
      it was. */
  function Linked(drafts: seq<ExampleItem>, i: int): ExampleItem
    requires 0 <= i < |drafts|
  {
    drafts[i].(
      previous := if i > 0 then Some(LinkTo(drafts[i - 1])) else drafts[i].previous,
      next := if i < |drafts| - 1 then Some(LinkTo(drafts[i + 1])) else drafts[i].next)
  }

  /** Every record with its neighbours' links set. */
  function LinkedAll(drafts: seq<ExampleItem>): seq<ExampleItem>
  {
    seq(|drafts|, i requires 0 <= i < |drafts| => Linked(drafts, i))
  }

  /** What `parseExamplesFromModule` returns. */
  function ExamplesOf(file: SourceFile, pathname: string, moduleImport: map<string, Value>, host: Host): seq<ExampleItem>
  {
    LinkedAll(Drafts(file, pathname, moduleImport, host))
  }

  /** `parseExamplesFromModule(sourceFile, pathname, moduleImport)`: one record per export, pushed in
      enumeration order, then each record given links to its neighbours. */
  method ParseExamplesFromModule(file: SourceFile, pathname: string, moduleImport: map<string, Value>, host: Host)
    returns (examples: seq<ExampleItem>)
    ensures examples == ExamplesOf(file, pathname, moduleImport, host)
  {
    ghost var drafts := Drafts(file, pathname, moduleImport, host);
    examples := [];
    var i := 0;
    while i < |file.exports|
      invariant 0 <= i <= |file.exports|
      invariant examples == drafts[..i]
    {
      examples := examples + [Draft(file, file.exports[i], pathname, moduleImport, host)];
      i := i + 1;
    }
    examples := LinkNeighbours(examples);
  }

  /** The second loop of `parseExamplesFromModule`: each record in turn given the links to the
      records beside it, which are read before they change. */
  method LinkNeighbours(drafts: seq<ExampleItem>) returns (examples: seq<ExampleItem>)
    ensures examples == LinkedAll(drafts)
  {
    examples := drafts;
    var i := 0;
    while i < |examples|
      invariant 0 <= i <= |examples| == |drafts|
      invariant forall j :: 0 <= j < i ==> examples[j] == Linked(drafts, j)
      invariant forall j :: i <= j < |examples| ==> examples[j] == drafts[j]
    {
      var example := examples[i];
      assert example == drafts[i];
      if i > 0 {
        var previousExample := examples[i - 1];
        assert previousExample == Linked(drafts, i - 1);
        example := example.(previous := Some(Link(previousExample.name, previousExample.pathname)));
      }
      if i < |examples| - 1 {
        var nextExample := examples[i + 1];
        assert nextExample == drafts[i + 1];
        example := example.(next := Some(Link(nextExample.name, nextExample.pathname)));
      }
      assert example == Linked(drafts, i);
      examples := examples[i := example];
      i := i + 1;
    }
  }

  /** Every link in the list points at the adjacent example, the first has no `previous`, the last
      no `next`, and a record has a `next` exactly when the one after it has a `previous`. */
  ghost predicate Chained(items: seq<ExampleItem>)
  {
    && (forall k :: 0 <= k < |items| && items[k].previous.Some? ==>
          0 < k && items[k].previous.value == LinkTo(items[k - 1]))
    && (forall k :: 0 <= k < |items| && items[k].next.Some? ==>
          k < |items| - 1 && items[k].next.value == LinkTo(items[k + 1]))
    && (forall k :: 0 <= k < |items| - 1 ==> (items[k].next.Some? <==> items[k + 1].previous.Some?))
  }

  /** One record per export, in order, with slug `kebabCase(name)` and pathname
      `join(pathname, slug)`; record `i` links back iff `i > 0` and forward iff it is not the
      last. */
  lemma ExamplesOfSpec(file: SourceFile, pathname: string, moduleImport: map<string, Value>, host: Host)
    ensures var r := ExamplesOf(file, pathname, moduleImport, host);
      && |r| == |file.exports|
      && (forall i :: 0 <= i < |r| ==>
            && r[i].slug == host.kebabCase(file.exports[i].name)
            && r[i].pathname == host.join(pathname, r[i].slug)
            && (r[i].previous.Some? <==> i > 0)
            && (r[i].next.Some? <==> i < |r| - 1))
  {
    var drafts := Drafts(file, pathname, moduleImport, host);
    var r := ExamplesOf(file, pathname, moduleImport, host);
    forall i | 0 <= i < |r|
      ensures r[i].slug == host.kebabCase(file.exports[i].name)
      ensures r[i].pathname == host.join(pathname, r[i].slug)
      ensures (r[i].previous.Some? <==> i > 0) && (r[i].next.Some? <==> i < |r| - 1)
    {
      assert r[i] == Linked(drafts, i);
      assert drafts[i] == Draft(file, file.exports[i], pathname, moduleImport, host);
    }
  }

  /** Each link names the adjacent record's label and pathname. */
  lemma ExamplesOfChained(file: SourceFile, pathname: string, moduleImport: map<string, Value>, host: Host)
    ensures Chained(ExamplesOf(file, pathname, moduleImport, host))
  {
    var drafts := Drafts(file, pathname, moduleImport, host);
    var r := ExamplesOf(file, pathname, moduleImport, host);
    forall k | 0 <= k < |r|
      ensures r[k].previous.Some? ==> 0 < k && r[k].previous.value == LinkTo(r[k - 1])
      ensures r[k].next.Some? ==> k < |r| - 1 && r[k].next.value == LinkTo(r[k + 1])
      ensures k < |r| - 1 ==> (r[k].next.Some? <==> r[k + 1].previous.Some?)
    {
      assert r[k] == Linked(drafts, k);
      if k > 0 { assert r[k - 1] == Linked(drafts, k - 1); }
      if k < |r| - 1 { assert r[k + 1] == Linked(drafts, k + 1); }
    }
  }

  /** The records of two files side by side stay chained: no link joins them. */
  lemma ChainedConcat(a: seq<ExampleItem>, b: seq<ExampleItem>)
    requires Chained(a) && Chained(b)
    ensures Chained(a + b)
  {
    var c := a + b;
    forall k | 0 <= k < |c| - 1 ensures c[k].next.Some? <==> c[k + 1].previous.Some? {
      if k < |a| - 1 {
        assert c[k] == a[k] && c[k + 1] == a[k + 1];
      } else if k == |a| - 1 {
        assert c[k] == a[k] && c[k + 1] == b[0];
      } else {
        assert c[k] == b[k - |a|] && c[k + 1] == b[k + 1 - |a|];
      }
    }
    forall k | 0 <= k < |c| && c[k].previous.Some? ensures 0 < k && c[k].previous.value == LinkTo(c[k - 1]) {
      if k < |a| {
        assert c[k] == a[k];
      } else {
        assert c[k] == b[k - |a|];
        if k > |a| { assert c[k - 1] == b[k - 1 - |a|]; }
      }
    }
    forall k | 0 <= k < |c| && c[k].next.Some? ensures k < |c| - 1 && c[k].next.value == LinkTo(c[k + 1]) {
      if k < |a| {
        assert c[k] == a[k];
        if k < |a| - 1 { assert c[k + 1] == a[k + 1]; }
      } else {
        assert c[k] == b[k - |a|];
      }
    }
  }

  /** The records of each file that has a loader, in turn. */
  function AllExamples(files: seq<SourceFile>, pathname: string, allModules: map<string, map<string, Value>>, host: Host): seq<ExampleItem>
  {
    if files == [] then []
    else
      var last := files[|files| - 1];
      AllExamples(files[..|files| - 1], pathname, allModules, host) +
      if last.path in allModules then ExamplesOf(last, pathname, allModules[last.path], host) else []
  }

  /** What `getExamplesFromSourceFile` resolves to for the given example files: the records of each
      file in turn, or the error for the first file that has no loader. */
  function ExamplesFromFiles(files: seq<SourceFile>, pathname: string, allModules: map<string, map<string, Value>>, host: Host): Result<seq<ExampleItem>, EngineError>
  {
    if files == [] then Ok([])
    else
      var last := files[|files| - 1];
      match ExamplesFromFiles(files[..|files| - 1], pathname, allModules, host)
      case Err(e) => Err(e)
      case Ok(examples) =>
        if last.path in allModules then Ok(examples + ExamplesOf(last, pathname, allModules[last.path], host))
        else Err(ModuleNotFound(last.path))
  }

  /** `getExamplesFromSourceFile(sourceFile, pathname, allModules)` */
  method GetExamplesFromSourceFile(project: Project, file: SourceFile, pathname: string,
                                   allModules: map<string, map<string, Value>>, host: Host)
    returns (r: Result<seq<ExampleItem>, EngineError>)
    ensures r == ExamplesFromFiles(ExampleSourceFiles(project, file), pathname, allModules, host)
  {
    var files := ExampleSourceFiles(project, file);
    var allExamples := [];
    var i := 0;
    while i < |files|
      invariant 0 <= i <= |files|
      invariant ExamplesFromFiles(files[..i], pathname, allModules, host) == Ok(allExamples)
    {
      var sourceFilePath := files[i].path;
      assert files[..i + 1][..i] == files[..i];
      if sourceFilePath in allModules {
        var examples := ParseExamplesFromModule(files[i], pathname, allModules[sourceFilePath], host);
        allExamples := allExamples + examples;
      } else {
        assert ExamplesFromFiles(files[..i + 1], pathname, allModules, host) == Err(ModuleNotFound(sourceFilePath));
        ErrorPersists(files, i + 1, pathname, allModules, host);
        return Err(ModuleNotFound(sourceFilePath));
      }
      i := i + 1;
    }
    assert files[..i] == files;
    r := Ok(allExamples);
  }

  /** Once a prefix of the files fails, the whole list fails with the same error. */
  lemma {:induction false} ErrorPersists(files: seq<SourceFile>, i: nat, pathname: string,
                                         allModules: map<string, map<string, Value>>, host: Host)
    requires i <= |files|
    requires ExamplesFromFiles(files[..i], pathname, allModules, host).Err?
    ensures ExamplesFromFiles(files, pathname, allModules, host) == ExamplesFromFiles(files[..i], pathname, allModules, host)
    decreases |files| - i
  {
    if i == |files| {
      assert files[..i] == files;
    } else {
      assert files[..i + 1][..i] == files[..i];
      ErrorPersists(files, i + 1, pathname, allModules, host);
    }
  }

  /** When every example file has a loader, the call gives the records of every file in turn. */
  lemma {:induction false} AllLoadersPresent(files: seq<SourceFile>, pathname: string,
                                             allModules: map<string, map<string, Value>>, host: Host)
    requires forall i :: 0 <= i < |files| ==> files[i].path in allModules
    ensures ExamplesFromFiles(files, pathname, allModules, host) == Ok(AllExamples(files, pathname, allModules, host))
  {
    if files != [] {
      var init := files[..|files| - 1];
      assert forall i :: 0 <= i < |init| ==> init[i] == files[i];
      AllLoadersPresent(init, pathname, allModules, host);
    }
  }

  /** When some example file has no loader, the call fails with the error for the first such
      file. */
  lemma FirstMissingLoader(files: seq<SourceFile>, j: int, pathname: string,
                           allModules: map<string, map<string, Value>>, host: Host)
    requires 0 <= j < |files| && files[j].path !in allModules
    requires forall i :: 0 <= i < j ==> files[i].path in allModules
    ensures ExamplesFromFiles(files, pathname, allModules, host) == Err(ModuleNotFound(files[j].path))
  {
    var before := files[..j];
    assert forall i :: 0 <= i < |before| ==> before[i] == files[i];
    AllLoadersPresent(before, pathname, allModules, host);
    var upTo := files[..j + 1];
    assert upTo[..j] == before && upTo[j] == files[j];
    assert ExamplesFromFiles(upTo, pathname, allModules, host) == Err(ModuleNotFound(files[j].path));
    ErrorPersists(files, j + 1, pathname, allModules, host);
  }

  /** Every link of the whole list names the adjacent record; FileEnds adds that no link crosses
      from one file's records to another's. */
  lemma {:induction false} AllExamplesChained(files: seq<SourceFile>, pathname: string,
                                              allModules: map<string, map<string, Value>>, host: Host)
    ensures Chained(AllExamples(files, pathname, allModules, host))
  {
    if files != [] {
      var init := files[..|files| - 1];
      var last := files[|files| - 1];
      AllExamplesChained(init, pathname, allModules, host);
      if last.path in allModules {
        ExamplesOfChained(last, pathname, allModules[last.path], host);
        ChainedConcat(AllExamples(init, pathname, allModules, host), ExamplesOf(last, pathname, allModules[last.path], host));
      } else {
        assert AllExamples(files, pathname, allModules, host) == AllExamples(init, pathname, allModules, host);
      }
    }
  }

  lemma {:induction false} AllExamplesPrefix(files: seq<SourceFile>, m: nat, pathname: string,
                                             allModules: map<string, map<string, Value>>, host: Host)
    requires m <= |files|
    ensures AllExamples(files[..m], pathname, allModules, host) <= AllExamples(files, pathname, allModules, host)
  {
    if m < |files| {
      var init := files[..|files| - 1];
      assert init[..m] == files[..m];
      AllExamplesPrefix(init, m, pathname, allModules, host);
    } else {
      assert files[..m] == files;
    }
  }

  /** Each file's records sit together in the list, in file order, exactly as that file alone
      gives them, so no link joins two files. */
  lemma FileBoundary(files: seq<SourceFile>, j: nat, pathname: string,
                     allModules: map<string, map<string, Value>>, host: Host)
    requires j < |files| && files[j].path in allModules
    ensures var all := AllExamples(files, pathname, allModules, host);
      var start := |AllExamples(files[..j], pathname, allModules, host)|;
      var own := ExamplesOf(files[j], pathname, allModules[files[j].path], host);
      && start + |own| <= |all|
      && all[start..start + |own|] == own
  {
    AllExamplesPrefix(files, j + 1, pathname, allModules, host);
    var upTo := files[..j + 1];
    assert upTo[..j] == files[..j] && upTo[j] == files[j];
    var own := ExamplesOf(files[j], pathname, allModules[files[j].path], host);
    var before := AllExamples(files[..j], pathname, allModules, host);
    assert AllExamples(upTo, pathname, allModules, host) == before + own;
    assert (before + own)[|before|..] == own;
  }

  /** Records of different files are never linked: within the whole list, each file's first record
      has no `previous` and its last record no `next`. */
  lemma FileEnds(files: seq<SourceFile>, j: nat, pathname: string,
                 allModules: map<string, map<string, Value>>, host: Host)
    requires j < |files| && files[j].path in allModules
    ensures var all := AllExamples(files, pathname, allModules, host);
      var start := |AllExamples(files[..j], pathname, allModules, host)|;
      var own := ExamplesOf(files[j], pathname, allModules[files[j].path], host);
      own != [] ==>
        && start + |own| <= |all|
        && all[start].previous.None?
        && all[start + |own| - 1].next.None?
  {
    FileBoundary(files, j, pathname, allModules, host);
    var own := ExamplesOf(files[j], pathname, allModules[files[j].path], host);
    OwnEnds(files[j], pathname, allModules[files[j].path], host);
    SliceEnds(AllExamples(files, pathname, allModules, host), |AllExamples(files[..j], pathname, allModules, host)|, own);
  }

  /** A file's own records: the first has no `previous`, the last no `next`. */
  lemma OwnEnds(file: SourceFile, pathname: string, moduleImport: map<string, Value>, host: Host)
    ensures var own := ExamplesOf(file, pathname, moduleImport, host);
      own != [] ==> own[0].previous.None? && own[|own| - 1].next.None?
  {
    ExamplesOfSpec(file, pathname, moduleImport, host);
  }

  lemma SliceEnds(all: seq<ExampleItem>, start: nat, own: seq<ExampleItem>)
    requires start + |own| <= |all| && all[start..start + |own|] == own
    requires own != [] ==> own[0].previous.None? && own[|own| - 1].next.None?
    ensures own != [] ==> all[start].previous.None? && all[start + |own| - 1].next.None?
  {
    if own != [] {
      assert all[start..start + |own|][0] == all[start];
      assert all[start..start + |own|][|own| - 1] == all[start + |own| - 1];
    }
  }
}
