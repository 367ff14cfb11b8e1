# mdxts content index, example discovery and line highlighting in Dafny

This project models three pieces of mdxts:

- **The content-indexing engine of `createDataSource`** (`mdxts/src/index.tsx`):
  - the path normaliser `filePathToUrlPathname`, `cleanFilename` and `isPascalCase`;
  - the export-visibility filter, with its per-directory memo table;
  - the merge of TypeScript source paths into the module loaders;
  - the table from pathname to module key, built over the sorted keys;
  - `parseModule`: title precedence, description, headings with prop-type links, and the front-matter merge;
  - the sibling lookup behind `get`, `paths()` and `all()`.
- **Example discovery** (`packages/mdxts/src/utils/get-examples.ts`):
  - which files hold a source file's examples;
  - one record per export;
  - the previous/next links inside each file;
  - the hard failure for an example file without a loader.
- **`calculateLinesToHighlight`** (`packages/mdxts/src/components/CodeBlock/LineNumbers.tsx`): the range string of a code fence becomes a predicate on line indices.

The TypeScript AST (ts-morph) becomes plain per-file records (`SourceModel`). The foreign functions the engine calls become fields of a `Host` value (`Environment`): `process.cwd`, `path.resolve`, `path.join`, `kebabCase`, `parseTitle`, the slugger and `getSourcePath`. Every property holds whatever those functions do, unless a lemma states an assumption about one.

Modules:

- `Wrappers`: `Option` and `Result`.
- `Strings`: JavaScript `split`, `join`, `filter(Boolean)`, `replace` with a string pattern, `includes`, `trim`, and `path.basename`.
- `Environment`, `SourceModel`.
- `Objects`: plain objects as ordered entries; `Object.fromEntries` and spread as assignment in turn.
- `KeyOrder`: `sort()` without a comparator.
- `Pathnames`, `Visibility`, `ModuleMetadata`, `Examples`, `ContentIndex`, `LineNumbers`.

Where the code does something by changing state, the model does too:

- The visibility filter is a class, `ExportVisibility`. Its `indexFiles` map is updated by `ExportedModules` and `Keep`, and a loop drives it (`FilterPublic`).
- `createDataSource`, `parseExamplesFromModule` and `getExamplesFromSourceFile` are methods with loops.
- Each method is proved equal to a specification function, and the lemmas are about those functions.

## Model

| member | source | states |
|---|---|---|
| Strings.Split | mdxts/src/index.tsx:431 | `split` gives at least one part, no part contains the separator, and the first part is no longer than the input |
| Strings.JoinSplit | mdxts/src/index.tsx:431-436 | joining the parts of a split with the same separator gives the string back |
| Strings.SplitJoin | mdxts/src/index.tsx:431-436 | splitting a join of separator-free parts gives the parts back |
| Strings.NonEmpty | mdxts/src/index.tsx:435 | `filter(Boolean)` keeps exactly the non-empty parts and never grows the list |
| Strings.JoinHasNoEmptySegment | mdxts/src/index.tsx:435-436 | a join of non-empty, separator-free parts never starts or ends with the separator and never has two in a row |
| Strings.ReplaceFirstSpec | mdxts/src/index.tsx:417-424 | a string-pattern `replace` leaves the input alone when the pattern does not occur; otherwise it replaces the leftmost occurrence only |
| Strings.ReplaceEmptyPattern | mdxts/src/index.tsx:424 | `replace('', '')`, used when there is no base directory, changes nothing |
| Strings.FirstOccurrenceFrom | mdxts/src/index.tsx:314-316 | the search finds an occurrence with none before it, or reports that there is none |
| Strings.TrimLeadingWhitespace | mdxts/src/index.tsx:500 | the removed prefix is all white space, and the result is a suffix that does not start with white space |
| Strings.TrimTrailingWhitespace | mdxts/src/index.tsx:500 | the removed suffix is all white space, and the result is a prefix that does not end with white space |
| Strings.DigitRun | mdxts/src/index.tsx:444 | the leading run is all digits, and the character after it is not a digit |
| Strings.LastPart | mdxts/src/index.tsx:241-243 | `split(sep).pop()` is the suffix after the last separator, or the whole string when there is none; it never contains the separator |
| Strings.LastPartIsSuffix | mdxts/src/index.tsx:241-243 | the last part of a split is the whole string when the split has one part, and otherwise the suffix right after a separator |
| Strings.Basename | mdxts/src/index.tsx:213 | `basename` never contains a `/` |
| Strings.BasenameIsLastComponent | mdxts/src/index.tsx:213 | `basename` is the part of the path, trailing slashes removed, after its last `/`, or that whole trimmed path when it has no `/` |
| Strings.TrimTrailingSlashes | mdxts/src/index.tsx:213 | the result is a prefix of the path that does not end in `/` |
| Strings.TrimmedSuffixIsSlashes | mdxts/src/index.tsx:213 | every character removed is a `/`, so exactly the trailing run of slashes goes |
| Objects.Keys | mdxts/src/index.tsx:176 | `Object.keys` lists the keys of the entries in order |
| Objects.Get | mdxts/src/index.tsx:190 | a lookup fails exactly for a key that is not present; otherwise it returns the value of an entry with that key |
| Objects.Put | mdxts/src/index.tsx:151-172 | assigning keeps the key order when the key exists and appends the key otherwise |
| Objects.PutGet | mdxts/src/index.tsx:151-172 | after an assignment the key holds the new value and every other key keeps its value |
| Objects.LastValueSpec | mdxts/src/index.tsx:175-182 | the last value for a key comes from a pair with that key that no later pair with the key follows; it is absent exactly when no pair has the key |
| Objects.FirstOccurrences | mdxts/src/index.tsx:151-172 | the keys in order of first appearance are distinct and are exactly the keys of the input |
| Objects.PutAllGet | mdxts/src/index.tsx:151-172 | after assigning pairs in turn, a key holds the value last assigned to it, or its old value |
| Objects.PutAllKeys | mdxts/src/index.tsx:151-172 | after assigning pairs in turn, the keys are the old keys followed by the new ones in order of first appearance |
| Objects.FirstOccurrencesOfDistinct | mdxts/src/index.tsx:373-378 | a list of distinct keys is its own list of first occurrences |
| KeyOrder.LexLeTotal | mdxts/src/index.tsx:177 | any two strings are comparable in the order `sort()` uses |
| KeyOrder.LexLeTransitive | mdxts/src/index.tsx:177 | the order is transitive |
| KeyOrder.LexLeAntisymmetric | mdxts/src/index.tsx:177 | two strings that sort before each other are equal |
| KeyOrder.Insert | mdxts/src/index.tsx:177 | inserting into a sorted list keeps it sorted and adds exactly the new key |
| KeyOrder.SortKeys | mdxts/src/index.tsx:176-177 | `keys.sort()` is sorted and a permutation of the keys |
| KeyOrder.LaterIsGreater | mdxts/src/index.tsx:177 | in sorted distinct keys, a later key is strictly greater |
| Pathnames.OrderPrefixLength | mdxts/src/index.tsx:444 | a matched `^\d+\.` prefix is at least two characters: digits, then a dot |
| Pathnames.OrderPrefixMatched | mdxts/src/index.tsx:415-444 | a `<digits>.` prefix that is present is matched in full, so `cleanFilename` and the sort-number rewrite do remove it |
| Pathnames.StripEachOrderPrefix | mdxts/src/index.tsx:415 | each segment loses its own leading `<digits>.` and the number of segments is kept |
| Pathnames.StripSortNumbersBySegment | mdxts/src/index.tsx:415 | the global `/\/\d+\./g` rewrite strips a leading `<digits>.` from every segment after the first, and from no other place |
| Pathnames.StrippedFirstSegment | mdxts/src/index.tsx:415 | removing a leading sort prefix only shortens the first segment |
| Pathnames.StripExtensionDropsExtension | mdxts/src/index.tsx:426 | removing the extension leaves a prefix of the input; what is dropped is a dot and a non-empty run free of `/` and `.` |
| Pathnames.StripExtensionWhenPresent | mdxts/src/index.tsx:426 | when nothing is dropped, no dot of the input starts an extension that runs to the end |
| Pathnames.StripDirectoryPage | mdxts/src/index.tsx:428 | a trailing `/readme` or `/index` is removed whatever its case, and nothing is removed otherwise |
| Pathnames.KebabEach | mdxts/src/index.tsx:434 | each segment is kebab-cased exactly when its first character is an upper-case letter |
| Pathnames.KeptSegmentsAreClean | mdxts/src/index.tsx:431-435 | the segments kept after `filter(Boolean)` are non-empty and free of `/` |
| Pathnames.JoinedSegmentsSpec | mdxts/src/index.tsx:431-436 | the joined pathname has no empty segment, and splitting it gives back the kept segments |
| Pathnames.PathnameHasNoEmptySegment | mdxts/src/index.tsx:410-437 | a normalised pathname has no leading `/`, no trailing `/` and no `//` |
| Pathnames.PathnameSegments | mdxts/src/index.tsx:410-437 | the segments of a normalised pathname are the non-empty segments of the rewritten path, in order, each kebab-cased exactly when it starts with an upper-case letter |
| Pathnames.CleanFilenameParts | mdxts/src/index.tsx:440-448 | `cleanFilename` removes only a leading `<digits>.` and a final `.ext`: the name is the prefix, then the result, then the extension |
| ModuleMetadata.TitlePrecedence | mdxts/src/index.tsx:286 | the title is a non-empty `metadata.title`; otherwise the text of a non-empty depth-1 first heading; otherwise the file-name title |
| ModuleMetadata.FilenameFallbackTitle | mdxts/src/index.tsx:241-250 | the file-name title of a readme/index page is the parsed parent segment; a PascalCase name is used as it is; any other name is parsed |
| ModuleMetadata.DescriptionFromDeclaration | mdxts/src/index.tsx:479-501 | reading the description fails exactly for a main export that is neither a function nor a variable declaration |
| ModuleMetadata.ResolveDescription | mdxts/src/index.tsx:287-289 | a non-empty metadata description wins; otherwise the description comes from the main export's JSDoc |
| ModuleMetadata.DescriptionIsTrimmed | mdxts/src/index.tsx:500 | a description read from JSDoc has no white space at either end |
| ModuleMetadata.TrimmedEnds | mdxts/src/index.tsx:500 | `trim()` leaves no white space at either end |
| ModuleMetadata.HeadingsSpec | mdxts/src/index.tsx:258-277 | the module's headings come first and unchanged; with prop types, one depth-2 `Types` heading follows, then one depth-3 heading per type in order |
| ModuleMetadata.FrontMatterSpec | mdxts/src/index.tsx:279-282 | metadata fields override front matter; other front-matter entries are kept; nothing else is added; missing front matter stays missing |
| ModuleMetadata.MergeIdempotent | mdxts/src/index.tsx:281 | merging the same metadata again changes nothing |
| Visibility.IndexFileExports | mdxts/src/index.tsx:112-114 | `index.ts` is used when it exists, else `index.tsx`, else nothing |
| Visibility.PublicFiles | mdxts/src/index.tsx:99-142 | a file is kept exactly when its directory's index file re-exports it and it has no private export |
| Visibility.PublicFilesConcat | mdxts/src/index.tsx:99-142 | the filter keeps the files' order |
| Visibility.CollectExportSet | mdxts/src/index.tsx:116-122 | the set holds exactly the source paths of the index file's exports |
| Visibility.ExportVisibility.constructor | mdxts/src/index.tsx:97 | the memo table starts empty |
| Visibility.ExportVisibility.ExportedModules | mdxts/src/index.tsx:106-125 | a directory's set is taken from the memo when present; otherwise it is computed from the index file and stored |
| Visibility.ExportVisibility.Keep | mdxts/src/index.tsx:105-141 | a private file deletes its own path from its directory's set and nothing else; a file passes when its path is still in the set |
| Visibility.FilterPublic | mdxts/src/index.tsx:96-142 | the filter with a fresh memo table keeps exactly `PublicFiles`, in order |
| Examples.FindByName | packages/mdxts/src/utils/get-examples.ts:11-15 | the lookup finds a file with the name, or reports that none has it |
| Examples.GetExamplesFromExtension | packages/mdxts/src/utils/get-examples.ts:10-22 | the result is the same-directory file named `<base>.examples<ext>`, or null exactly when there is none |
| Examples.ExamplesFromDirectorySpec | packages/mdxts/src/utils/get-examples.ts:25-39 | no `examples` directory gives `[]`; otherwise its own files if any, else the `.ts`/`.tsx` files below it |
| Examples.ExampleSourceFiles | packages/mdxts/src/utils/get-examples.ts:73-79 | the directory's example files come first, followed by the `.examples` file when present |
| Examples.ParseExamplesFromModule | packages/mdxts/src/utils/get-examples.ts:101-148 | the method's result equals the specification `ExamplesOf` |
| Examples.LinkNeighbours | packages/mdxts/src/utils/get-examples.ts:128-147 | the linking pass gives each record the links to the records beside it |
| Examples.ExamplesOfSpec | packages/mdxts/src/utils/get-examples.ts:109-147 | one record per export, in order; slug `kebabCase(name)`; pathname `join(pathname, slug)`; `previous` iff not first; `next` iff not last |
| Examples.ExamplesOfChained | packages/mdxts/src/utils/get-examples.ts:128-147 | every link names the adjacent record's label and pathname |
| Examples.ChainedConcat | packages/mdxts/src/utils/get-examples.ts:82-96 | the records of two files placed side by side are never linked to each other |
| Examples.GetExamplesFromSourceFile | packages/mdxts/src/utils/get-examples.ts:68-99 | the loop's result equals `ExamplesFromFiles` over the example files |
| Examples.ErrorPersists | packages/mdxts/src/utils/get-examples.ts:82-96 | once a file fails, the whole call fails with that error and no partial list |
| Examples.AllLoadersPresent | packages/mdxts/src/utils/get-examples.ts:82-98 | when every example file has a loader, the call gives every file's records in turn |
| Examples.FirstMissingLoader | packages/mdxts/src/utils/get-examples.ts:82-96 | when some example file has no loader, the call fails with `Module not found` for the first such file |
| Examples.AllExamplesChained | packages/mdxts/src/utils/get-examples.ts:80-98 | every link in the whole list names the record beside it |
| Examples.AllExamplesPrefix | packages/mdxts/src/utils/get-examples.ts:80-98 | the records of the first files are a prefix of the records of all files |
| Examples.FileBoundary | packages/mdxts/src/utils/get-examples.ts:82-92 | each file's records sit together, in file order, exactly as that file alone gives them |
| Examples.FileEnds | packages/mdxts/src/utils/get-examples.ts:80-98 | within the whole list each file's first record has no `previous` and its last no `next`, so no link crosses from one file to another |
| ContentIndex.MdxPath | mdxts/src/index.tsx:155-158 | a `.ts` or `.tsx` ending becomes `.mdx`; any other path is unchanged |
| ContentIndex.Find | mdxts/src/index.tsx:159-162 | `find` gives the first element that satisfies the predicate, and nothing exactly when no element does |
| ContentIndex.FindResolvedKey | mdxts/src/index.tsx:159-162 | the key found is the first that resolves to the `.mdx` path, or no key does |
| ContentIndex.MergeLoadersSpec | mdxts/src/index.tsx:151-172 | each source path gets its companion loader (or the placeholder); other keys keep their loader; new keys are appended in order of first appearance |
| ContentIndex.PathnameTableKeys | mdxts/src/index.tsx:175-182 | the table's pathnames are the keys' pathnames in order of first appearance |
| ContentIndex.PathnameTableSpec | mdxts/src/index.tsx:175-182 | a pathname maps to a key exactly when some sorted key has that pathname; of several, the lexicographically greatest wins |
| ContentIndex.DistinctSorted | mdxts/src/index.tsx:176-177 | sorting keeps distinct keys distinct |
| ContentIndex.CreateDataSource | mdxts/src/index.tsx:69-182 | the method's result equals `DataSourceOf`; a glob string without the webpack loader is an error |
| ContentIndex.DataSourceIsBuilt | mdxts/src/index.tsx:69-182 | a data source's table is built from its distinct module keys |
| ContentIndex.FindSourceFile | mdxts/src/index.tsx:196-201 | the source file found has the pathname asked for; nothing is found exactly when no file has it |
| ContentIndex.FindSourceFileIsFirst | mdxts/src/index.tsx:196-201 | of several files with the pathname (`Button.tsx` and `button.ts`), the first in project order is taken |
| ContentIndex.FindMainExport | mdxts/src/index.tsx:206-217 | the main export is the first export that is the default export or is named like the file; it is absent exactly when no export is either |
| ContentIndex.FindMainExportIsFirst | mdxts/src/index.tsx:206-217 | when one export is the default and another is named like the file, the earlier of the two is the main export |
| ContentIndex.ModuleOf | mdxts/src/index.tsx:284-297 | the record `parseModule` resolves to carries the pathname `/` followed by `join(basePath, pathname)` |
| ContentIndex.ModuleExamples | mdxts/src/index.tsx:221-240 | one example entry per example file, in order |
| ContentIndex.ParseKnownModule | mdxts/src/index.tsx:196-298 | a parsed module's pathname is `/` followed by `join(basePath, pathname)`; the only failures are a missing main export, an unreadable description or a missing loader |
| ContentIndex.ParseModule | mdxts/src/index.tsx:185-194 | an undefined or unknown pathname gives null; a module comes only from a table pathname |
| ContentIndex.TablePathname | mdxts/src/index.tsx:175-182 | a table built from distinct module keys holds exactly the pathnames of those keys |
| ContentIndex.TableKeyHasLoader | mdxts/src/index.tsx:175-194 | every key in the table has a loader |
| ContentIndex.ParseTablePathname | mdxts/src/index.tsx:185-299 | a table pathname never parses to null, and fails only because of its source file |
| ContentIndex.Sibling | mdxts/src/index.tsx:318-337 | the sibling is the pathname exactly one position away, nothing past either end, and nothing exactly when that neighbour's key is a readme or index page |
| ContentIndex.ActiveIndex | mdxts/src/index.tsx:314-316 | the active index is the first pathname containing the requested one, or -1 |
| ContentIndex.Settle | mdxts/src/index.tsx:339-353 | a failure of the active parse wins, then one of the previous parse, then one of the next; an unknown active page gives null; otherwise the page gets its neighbours attached |
| ContentIndex.PageExists | mdxts/src/index.tsx:339-347 | `get` returns a page only for a pathname in the table |
| ContentIndex.PreviousPage | mdxts/src/index.tsx:318-343 | the previous page is the module of the pathname right before the active index |
| ContentIndex.NextPage | mdxts/src/index.tsx:318-343 | the next page is the module of the pathname right after the active index |
| ContentIndex.NeighbourModule | mdxts/src/index.tsx:318-347 | a neighbour that parses to a module is the module of the pathname that many steps away in table order |
| ContentIndex.ActivePage | mdxts/src/index.tsx:314-316 | a table pathname's active index is its own position unless an earlier pathname contains it |
| ContentIndex.ContentPathnames | mdxts/src/index.tsx:389-397 | `paths()` keeps exactly the pathnames that do not end in readme/index, whatever the case |
| ContentIndex.ContentPathnamesConcat | mdxts/src/index.tsx:389-397 | the `paths()` filter keeps table order |
| ContentIndex.Paths | mdxts/src/index.tsx:388-405 | one segment list per kept pathname; every segment is non-empty and free of `/` |
| ContentIndex.PathsRoundTrip | mdxts/src/index.tsx:398-404 | the segments of each path join back to its pathname |
| ContentIndex.TablePathnameIsJoined | mdxts/src/index.tsx:175-182 | every table pathname is the join `filePathToUrlPathname` ends with |
| ContentIndex.SegmentsJoinBack | mdxts/src/index.tsx:398-404 | `split('/').filter(Boolean)` undoes the final join of the normaliser |
| ContentIndex.WithoutExamples | mdxts/src/index.tsx:360-369 | `all()` drops exactly the pathnames whose key contains both `examples` and `ts`, and keeps pathnames distinct |
| ContentIndex.WithoutExamplesConcat | mdxts/src/index.tsx:360-369 | the `all()` filter keeps table order |
| ContentIndex.PromiseAll | mdxts/src/index.tsx:370-372 | `Promise.all` succeeds exactly when every call does, with the values in order; otherwise it fails with the first failure |
| ContentIndex.ParsedModules | mdxts/src/index.tsx:370-372 | one parse per kept pathname, in order |
| ContentIndex.Zip | mdxts/src/index.tsx:373-378 | each pathname is paired with the module at its index |
| ContentIndex.TableKeysDistinct | mdxts/src/index.tsx:175-182 | the table lists each pathname once |
| ContentIndex.AllKeys | mdxts/src/index.tsx:358-379 | `all()` lists exactly the non-example pathnames, in table order |
| ContentIndex.AllEntries | mdxts/src/index.tsx:373-378 | the entries of `all()` are the pathname/module pairs as they are |
| ContentIndex.AllModules | mdxts/src/index.tsx:358-379 | every entry of `all()` holds a module, the one parsed for its pathname |
| ContentIndex.FromEntriesOfDistinct | mdxts/src/index.tsx:373-378 | `Object.fromEntries` keeps pairs with distinct keys as they are |
| LineNumbers.DecimalValueOfNumeral | packages/mdxts/src/components/CodeBlock/LineNumbers.tsx:88 | the numeral of `n` reads back as `n` |
| LineNumbers.ParseDigitsThenRest | packages/mdxts/src/components/CodeBlock/LineNumbers.tsx:88 | `parseInt` reads the leading digits and ignores what follows |
| LineNumbers.ParseNumeral | packages/mdxts/src/components/CodeBlock/LineNumbers.tsx:88 | `parseInt(String(n), 10)` is `n` |
| LineNumbers.ParseEntry | packages/mdxts/src/components/CodeBlock/LineNumbers.tsx:88 | the start is the parse of the first `-` part; an end exists exactly when the entry contains `-` |
| LineNumbers.SeveralPartsIffSeparator | packages/mdxts/src/components/CodeBlock/LineNumbers.tsx:88 | a split has two or more parts exactly when the separator occurs |
| LineNumbers.ParseEntries | packages/mdxts/src/components/CodeBlock/LineNumbers.tsx:86-88 | one parsed entry per comma-separated value, in order |
| LineNumbers.AnyMatchesSpec | packages/mdxts/src/components/CodeBlock/LineNumbers.tsx:92-94 | `some` holds exactly when some entry matches |
| LineNumbers.AnyMatchesConcat | packages/mdxts/src/components/CodeBlock/LineNumbers.tsx:92-94 | `some` over two lists is the disjunction over each |
| LineNumbers.CalculateLinesToHighlight | packages/mdxts/src/components/CodeBlock/LineNumbers.tsx:81-84 | an empty or undefined range string highlights no index |
| LineNumbers.Applied | packages/mdxts/src/components/CodeBlock/LineNumbers.tsx:90-95 | index `i` is tested as line number `i + 1` against the parsed entries |
| LineNumbers.ParseEntriesConcat | packages/mdxts/src/components/CodeBlock/LineNumbers.tsx:86-88 | parsing two lists of values is parsing each |
| LineNumbers.EmptyEntryMatchesNothing | packages/mdxts/src/components/CodeBlock/LineNumbers.tsx:86-94 | an empty entry (`NaN`) matches no line |
| LineNumbers.HighlightedIffSomeEntryMatches | packages/mdxts/src/components/CodeBlock/LineNumbers.tsx:86-95 | a line is highlighted exactly when some comma-separated entry matches its one-based number |
| LineNumbers.HighlightUnion | packages/mdxts/src/components/CodeBlock/LineNumbers.tsx:86-95 | `a,b` highlights the union of what `a` and `b` highlight, so entry order does not matter |
| LineNumbers.SingleLine | packages/mdxts/src/components/CodeBlock/LineNumbers.tsx:93 | `"n"` highlights line `n` and no other |
| LineNumbers.TwoPartEntry | packages/mdxts/src/components/CodeBlock/LineNumbers.tsx:86-88 | `x-y` without `,` is a single entry from `parseInt(x)` to `parseInt(y)` |
| LineNumbers.RangeEntry | packages/mdxts/src/components/CodeBlock/LineNumbers.tsx:88 | `"a-b"` parses to one entry from `a` to `b` |
| LineNumbers.LineRange | packages/mdxts/src/components/CodeBlock/LineNumbers.tsx:93 | `"a-b"` highlights lines `a` to `b` inclusive, and none when `a > b`; an end of 0 is falsy and leaves only line `a` |
| LineNumbers.NaNEndEntry | packages/mdxts/src/components/CodeBlock/LineNumbers.tsx:88-94 | `"a-y"` whose end parses to `NaN` (`"3-x"`) highlights line `a` and no other |
| LineNumbers.OpenEndedEntry | packages/mdxts/src/components/CodeBlock/LineNumbers.tsx:88-94 | an open-ended `"a-"` highlights line `a` and no other |
| LineNumbers.OneEntry | packages/mdxts/src/components/CodeBlock/LineNumbers.tsx:86-95 | a range string that parses to one entry highlights exactly the lines that entry matches |
| Pathnames.FilePathToUrlPathname | mdxts/src/index.tsx:410-437 | the normaliser as its chain of rewrites; what it gives is stated by `PathnameSegments` and `PathnameHasNoEmptySegment` |
| Pathnames.StripSortNumbers | mdxts/src/index.tsx:415 | the global `/\/\d+\./g` rewrite as a left-to-right scan; `StripSortNumbersBySegment` states its effect segment by segment |
| Pathnames.StripExtension | mdxts/src/index.tsx:426 | `replace(/\.[^/.]+$/, '')`; `StripExtensionDropsExtension` and `StripExtensionWhenPresent` state what is removed |
| Pathnames.CleanFilename | mdxts/src/index.tsx:440-448 | the two rewrites of `cleanFilename`; `CleanFilenameParts` states what they remove |
| Pathnames.IsPascalCase | mdxts/src/index.tsx:451-454 | `^[A-Z][a-zA-Z0-9]*$`: non-empty, an upper-case ASCII letter first, ASCII letters and digits after |
| Pathnames.FilenameTitle | mdxts/src/index.tsx:241-250 | the file-name title; `FilenameFallbackTitle` states its three cases |
| ModuleMetadata.GetHeadingTitle | mdxts/src/index.tsx:473-476 | the text of a depth-1 first heading, else nothing; `TitlePrecedence` states its place in the title |
| ModuleMetadata.ResolveTitle | mdxts/src/index.tsx:286 | the `title` of a parsed module; `TitlePrecedence` states its precedence |
| ModuleMetadata.ResolveHeadings | mdxts/src/index.tsx:258-277 | the headings of a parsed module; `HeadingsSpec` states their order and content |
| ModuleMetadata.MergeFrontMatter | mdxts/src/index.tsx:279-282 | `Object.assign(frontMatter, metadata)`; `FrontMatterSpec` and `MergeIdempotent` state its result |
| Examples.GetExamplesFromDirectory | packages/mdxts/src/utils/get-examples.ts:25-39 | the files of the closest `examples` directory; `ExamplesFromDirectorySpec` states its three cases |
| ContentIndex.MergeLoaders | mdxts/src/index.tsx:151-172 | the spread of companion loaders over the module loaders; `MergeLoadersSpec` states the result |
| ContentIndex.PathnameTable | mdxts/src/index.tsx:175-182 | `Object.fromEntries` over the sorted keys; `PathnameTableKeys` and `PathnameTableSpec` state its keys and values |
| ContentIndex.GetPathData | mdxts/src/index.tsx:301-354 | `get`; `Settle`, `PageExists`, `PreviousPage`, `NextPage` and `Sibling` state its result |
| ContentIndex.All | mdxts/src/index.tsx:357-378 | `all()`; `AllKeys`, `AllEntries` and `AllModules` state its result |
| LineNumbers.ParseInt | packages/mdxts/src/components/CodeBlock/LineNumbers.tsx:88 | `parseInt(y, 10)`; `ParseNumeral` and `ParseDigitsThenRest` state what it reads |
| LineNumbers.Matches | packages/mdxts/src/components/CodeBlock/LineNumbers.tsx:92-94 | one entry's test of a line number; `HighlightedIffSomeEntryMatches`, `LineRange` and `NaNEndEntry` state it on range strings |

## Left out

- ts-morph is not modelled. Each source file is a record (`SourceModel.SourceFile`) that gives:
  - its exports in enumeration order, with the first declaration's kind and JSDoc descriptions;
  - whether any export's implementation carries `@private`;
  - its prop type names.

  `hasPrivateTag`, `getImplementation`, `getExportedPropTypes`, `extractExportByIdentifier` and directory lookups are therefore fields, not code.
- The private tag is one flag per file. The source deletes the path once per private declaration; deleting twice has the same effect.
- Foreign functions are uninterpreted `Host` fields: `kebabCase`, `parseTitle`, the slugger, `path.resolve`, `path.join`, `process.cwd` and `getSourcePath`.
  - The slugger is reset before the type headings are slugged. Its de-duplication of repeated names within one module is not modelled; each type name is slugged on its own.
  - `Pathnames.KebabKeepsSegments` is the one assumption made about `kebabCase`: it never introduces a `/`.
- `mdxts/src/utils/get-source-path.ts`, bundling, the remark plugin wiring and the UI are not part of this model.
- The JSX body of `LineNumbers` is not part of this model.
- The copy of `getExamplesFromDirectory` that `index.tsx` imports from `mdxts/src/utils/get-examples` is taken to be the same as `packages/mdxts/src/utils/get-examples.ts`.
- Strings are sequences of characters compared by code point. JavaScript's `sort()` compares UTF-16 code units, which differs only for characters outside the Basic Multilingual Plane.
- ContentIndex.Sibling, ContentIndex.ContentPathnames, ContentIndex.ActiveIndex, ContentIndex.WithoutExamples: `Object.keys` lists integer-like keys first, in numeric order, and the model keeps insertion order for every key.
  - Module keys start with `./` or a directory and are never integer-like.
  - A pathname can be: with base directory `docs`, `./docs/2024/index.mdx` becomes `2024`, which JavaScript lists before every other pathname. That changes the order of `paths()` and `all()` and the neighbours `get` returns; the model does not capture it.
- `obj[undefined]` and inherited prototype properties (`allModules['constructor']`) are not modelled: a lookup sees own keys only.
- `parseInt` on a numeral beyond 2^53 loses precision in JavaScript; the model reads the exact integer.
- ContentIndex.ParseTablePathname, ContentIndex.GetPathData, ContentIndex.All, Examples.AllLoadersPresent, Examples.GetExamplesFromSourceFile: a loader is a plain value (`LoadedModule`, a module's exports). In the source it is a dynamic import that is awaited (`mdxts/src/index.tsx:257`, `packages/mdxts/src/utils/get-examples.ts:90`) and can reject; a rejection aborts `get`, `all()` and `getExamplesFromSourceFile`. "Fails only because of its source file" holds within this abstraction.
- ContentIndex.GetPathData, ContentIndex.All: `Promise.all` rejects with the first rejection in time. The model takes the first failure in list order.
  - The module loaders are awaited sequentially.
  - `Object.assign(active, { previous, next })` mutates the active record in place; the model builds a new `PageData` value.
- ModuleMetadata.MergeFrontMatter: `Object.assign(frontMatter, metadata)` mutates the loader's front-matter object in place, and that object is shared by later calls. The model merges by value. `MergeIdempotent` shows that repeating the merge gives the same result.
- The `...exports` spread of `parseModule` can override the record's own fields (an export named `title`, say). The model keeps the named exports in a separate `exports` field.
- The ts-morph project grows as files are added (`addSourceFileAtPathIfExists`, `addSourceFilesAtPaths`); the model reads a fixed `Project`.
- Crashes become error results:
  - a missing main export (`.at` on `undefined`) is `MainExportNotFound`;
  - a main export that is neither a function nor a variable is `DescriptionUnavailable`;
  - an absent loader is `LoaderMissing`.
- `parseTitle(undefined)` for a top-level `readme`/`index` key (no parent segment) is modelled as `parseTitle("")`.
- Visibility.FilterPublic and ContentIndex.CreateDataSource require the matched source files to have distinct paths, as the files of one ts-morph project do.
- The sibling lookup does not recurse:
  - `Object.keys(...)[i]` is a string or `undefined`, never `null`, so the branch that calls itself again cannot run;
  - a neighbour that is a readme/index page gives no sibling instead of the one beyond it.
- ContentIndex.ActiveIndex follows `findIndex` with `includes`. A page's neighbours are therefore those of the first pathname that contains the requested one, which may be an earlier, longer pathname.
- ContentIndex.PreviousPage, ContentIndex.NextPage: they state where a neighbour that is present comes from. When a neighbour is absent, the reason is stated by `ContentIndex.Sibling`.
- `getExamplesFromSourceFile` is modelled as written, but `parseModule` builds its examples from `getExamplesFromDirectory` only; the `.examples` sibling file is not consulted there.
- Where this code and the wider documentation of the project differ, the model follows the code:
  - a directory without an index file gives an empty export set, so its files are left out;
  - keys are sorted purely lexically, with no numeric order key and no custom comparator.
- Normalisation is not idempotent (`a/b.c.d` gives `a/b.c`, which gives `a/b`), so no idempotence property is stated.
