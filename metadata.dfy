/**
 * The metadata rules of `parseModule`: how a page's title and description are chosen, the
 * headings list with its appended prop-type links, and the front matter merged with the
 * `metadata` export.
 */
module ModuleMetadata {
  import opened Wrappers
  import opened Strings
  import opened Environment
  import opened SourceModel
  import opened Pathnames

  /** JavaScript truthiness of an optional string: absent and empty are false. */
  predicate Truthy(s: Option<string>)
  {
    s.Some? && s.value != []
  }

  /** `getHeadingTitle(headings)`: the first heading's text when that heading has depth 1. */
  function GetHeadingTitle(headings: Option<seq<Heading>>): Option<string>
  {
    if headings.Some? && headings.value != [] && headings.value[0].depth == 1
    then Some(headings.value[0].text) else None
  }

  function MetadataTitle(metadata: Option<Metadata>): Option<string>
  {
    if metadata.Some? then metadata.value.title else None
  }

  function MetadataDescription(metadata: Option<Metadata>): Option<string>
  {
    if metadata.Some? then metadata.value.description else None
  }

  /** `metadata?.title || getHeadingTitle(headings) || filenameTitle` */
  function ResolveTitle(metadata: Option<Metadata>, headings: Option<seq<Heading>>, filenameTitle: string): string
  {
    if Truthy(MetadataTitle(metadata)) then MetadataTitle(metadata).value
    else if Truthy(GetHeadingTitle(headings)) then GetHeadingTitle(headings).value
    else filenameTitle
  }

  /** The title is taken, in this order, from a non-empty metadata title, from a non-empty first
      heading of depth 1, and otherwise from the file name. */
  lemma TitlePrecedence(metadata: Option<Metadata>, headings: Option<seq<Heading>>, filenameTitle: string)
    ensures var title := ResolveTitle(metadata, headings, filenameTitle);
      && (metadata.Some? && metadata.value.title.Some? && metadata.value.title.value != [] ==>
            title == metadata.value.title.value)
      && (!Truthy(MetadataTitle(metadata)) && headings.Some? && headings.value != [] &&
          headings.value[0].depth == 1 && headings.value[0].text != [] ==>
            title == headings.value[0].text)
      && (!Truthy(MetadataTitle(metadata)) &&
          (headings.None? || headings.value == [] || headings.value[0].depth != 1 || headings.value[0].text == []) ==>
            title == filenameTitle)
  {
  }

  /** Without a metadata title and a depth-1 first heading, the title comes from the module key's
      file name, its sort prefix and extension removed: a readme or index page is titled after
      its parent directory, a PascalCase name is used as it is, and any other name goes through
      `parseTitle`. */
  lemma FilenameFallbackTitle(moduleKey: string, metadata: Option<Metadata>, headings: Option<seq<Heading>>, host: Host)
    requires !Truthy(MetadataTitle(metadata)) && !Truthy(GetHeadingTitle(headings))
    ensures var filename := CleanFilename(LastPart(moduleKey, '/'));
      var title := ResolveTitle(metadata, headings, FilenameTitle(moduleKey, host));
      && (EndsInReadmeOrIndex(filename) ==> title == host.parseTitle(ParentSegment(moduleKey).GetOr([])))
      && (!EndsInReadmeOrIndex(filename) && IsPascalCase(filename) ==> title == filename)
      && (!EndsInReadmeOrIndex(filename) && !IsPascalCase(filename) ==> title == host.parseTitle(filename))
  {
  }

  /** `getDescriptionFromDeclaration(declaration)`: the trimmed description of the first JSDoc of a
      function (its implementation's, when it has one) or of a variable's statement; nothing
      without a declaration or without a JSDoc. Any other kind of declaration has no JSDoc list
      and the call throws. */
  function DescriptionFromDeclaration(declaration: Option<ExportEntry>): (r: Result<Option<string>, EngineError>)
    ensures r.Err? <==> declaration.Some? && declaration.value.declaration.OtherDeclaration?
    ensures r.Err? ==> r.error == DescriptionUnavailable(declaration.value.name)
  {
    if declaration.None? then Ok(None)
    else match declaration.value.declaration
      case FunctionDeclaration(docs) => Ok(if docs != [] then Some(Trim(docs[0])) else None)
      case VariableDeclaration(docs) => Ok(if docs != [] then Some(Trim(docs[0])) else None)
      case OtherDeclaration => Err(DescriptionUnavailable(declaration.value.name))
  }

  /** `metadata?.description || getDescriptionFromDeclaration(mainExportDeclaration)` */
  function ResolveDescription(metadata: Option<Metadata>, mainExport: Option<ExportEntry>): (r: Result<Option<string>, EngineError>)
    ensures Truthy(MetadataDescription(metadata)) ==> r == Ok(MetadataDescription(metadata))
    ensures !Truthy(MetadataDescription(metadata)) ==> r == DescriptionFromDeclaration(mainExport)
  {
    if Truthy(MetadataDescription(metadata)) then Ok(MetadataDescription(metadata))
    else DescriptionFromDeclaration(mainExport)
  }

  /** A description read from JSDoc has no white space at either end. */
  lemma DescriptionIsTrimmed(metadata: Option<Metadata>, mainExport: Option<ExportEntry>)
    requires !Truthy(MetadataDescription(metadata))
    ensures var r := ResolveDescription(metadata, mainExport);
      r.Ok? && r.value.Some? && r.value.value != [] ==>
        !IsJsWhitespace(r.value.value[0]) && !IsJsWhitespace(r.value.value[|r.value.value| - 1])
  {
    var r := ResolveDescription(metadata, mainExport);
    if r.Ok? && r.value.Some? && r.value.value != [] {
      TrimmedEnds(mainExport.value.declaration.jsDocs[0]);
    }
  }

  lemma TrimmedEnds(s: string)
    ensures var t := Trim(s); t == [] || (!IsJsWhitespace(t[0]) && !IsJsWhitespace(t[|t| - 1]))
  {
    var u := TrimLeadingWhitespace(s);
    var t := TrimTrailingWhitespace(u);
    if t != [] {
      assert t[0] == u[0];
    }
  }

  /** The `Types` heading and one depth-3 heading per prop type, slugged by name. */
  function TypeHeadings(propTypeNames: seq<string>, host: Host): seq<Heading>
  {
    [Heading("Types", "types", 2)] +
    seq(|propTypeNames|, i requires 0 <= i < |propTypeNames| => Heading(propTypeNames[i], host.slug(propTypeNames[i]), 3))
  }

  /** `resolvedHeadings`: the module's headings, followed by the prop-type headings when the file
      has at least one exported prop type. */
  function ResolveHeadings(headings: Option<seq<Heading>>, propTypes: Option<seq<string>>, host: Host): seq<Heading>
  {
    var base := headings.GetOr([]);
    if propTypes.Some? && |propTypes.value| > 0 then base + TypeHeadings(propTypes.value, host) else base
  }

  /** The module's own headings always come first and unchanged; with prop types they are followed
      by exactly one `Types` heading of depth 2 and then one depth-3 heading per prop type, in
      order, whose text is the type's name. */
  lemma HeadingsSpec(headings: Option<seq<Heading>>, propTypes: Option<seq<string>>, host: Host)
    ensures var base := headings.GetOr([]);
      var r := ResolveHeadings(headings, propTypes, host);
      && |base| <= |r| && r[..|base|] == base
      && (propTypes.None? || propTypes.value == [] ==> r == base)
      && (propTypes.Some? && propTypes.value != [] ==>
            && |r| == |base| + 1 + |propTypes.value|
            && r[|base|] == Heading("Types", "types", 2)
            && forall i :: 0 <= i < |propTypes.value| ==>
                 r[|base| + 1 + i].text == propTypes.value[i] && r[|base| + 1 + i].depth == 3)
  {
  }

  /** The properties `Object.assign(frontMatter, metadata)` copies: the metadata fields that are
      present. */
  function MetadataFields(metadata: Option<Metadata>): map<string, FieldValue>
  {
    if metadata.None? then map[]
    else
      var withTitle := if metadata.value.title.Some? then map["title" := Text(metadata.value.title.value)] else map[];
      if metadata.value.description.Some? then withTitle["description" := Text(metadata.value.description.value)]
      else withTitle
  }

  /** The front matter after `if (frontMatter) Object.assign(frontMatter, metadata)`, and the
      `frontMatter || null` the module record carries. */
  function MergeFrontMatter(frontMatter: Option<map<string, FieldValue>>, metadata: Option<Metadata>): Option<map<string, FieldValue>>
  {
    if frontMatter.None? then None else Some(frontMatter.value + MetadataFields(metadata))
  }

  /** Metadata wins on the keys it has, every other front matter entry is kept, nothing else is
      added, and a missing front matter stays missing. */
  lemma FrontMatterSpec(frontMatter: Option<map<string, FieldValue>>, metadata: Option<Metadata>)
    ensures var r := MergeFrontMatter(frontMatter, metadata);
      && (r.None? <==> frontMatter.None?)
      && (r.Some? ==>
            && (forall key :: key in r.value <==> key in frontMatter.value || key in MetadataFields(metadata))
            && (forall key :: key in MetadataFields(metadata) ==> r.value[key] == MetadataFields(metadata)[key])
            && (forall key :: key in frontMatter.value && key !in MetadataFields(metadata) ==>
                  r.value[key] == frontMatter.value[key]))
      && (MetadataTitle(metadata).Some? && r.Some? ==> r.value["title"] == Text(MetadataTitle(metadata).value))
      && (MetadataDescription(metadata).Some? && r.Some? ==>
            r.value["description"] == Text(MetadataDescription(metadata).value))
  {
  }

  /** Merging the same metadata again changes nothing, so merging in place into a front matter
      object that is shared between calls gives each call the same result. */
  lemma MergeIdempotent(frontMatter: Option<map<string, FieldValue>>, metadata: Option<Metadata>)
    ensures MergeFrontMatter(MergeFrontMatter(frontMatter, metadata), metadata) == MergeFrontMatter(frontMatter, metadata)
  {
    if frontMatter.Some? {
      var m, f := frontMatter.value, MetadataFields(metadata);
      assert (m + f) + f == m + f;
    }
  }
}
