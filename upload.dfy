/** `Upload::execute`: resolve the repository URL, send the package metadata,
    then send every Markdown file of the `doc` directory.  The git listing, the
    manifest, the directory and the two replies are inputs; the result is the
    list of requests sent and the error, if any, with which the command ended. */
module Upload {
  import opened Outcomes
  import opened RustStr
  import opened HttpStatus
  import Remote
  import ModuleName

  /** The `package` fields and the `std` address read from `Move.toml`. */
  datatype Package = Package(name: string, version: string, license: string, firstAuthor: string, stdAddress: string)

  /** What reading `Move.toml` gave: no file, a file the TOML parser rejects, or
      the fields above. */
  datatype Manifest = Unreadable | Unparsable | Parsed(package: Package)

  /** An entry of the `doc` directory: its file name and the file's text. */
  datatype DocEntry = DocEntry(fileName: string, text: string)

  /** One part of the multipart form: the name it is sent under and the text. */
  datatype Part = Part(fileName: string, text: string)

  /** The two requests: the metadata as JSON, the documents as a form. */
  datatype Request = PostMetadata(fields: map<string, string>) | PostDocuments(parts: seq<Part>)

  /** The requests sent, in order, and the error the command ended with. */
  datatype Run = Run(sent: seq<Request>, error: Option<UploadError>)

  // ---------------------------------------------------------------------------
  // Which directory entries are uploaded.

  /** The index of the last `.` of a file name. */
  function LastDot(name: string): (r: Option<nat>)
    ensures r.Some? ==> r.value < |name| && name[r.value] == '.'
    ensures r.Some? ==> forall j | r.value < j < |name| :: name[j] != '.'
    ensures r.None? ==> forall j | 0 <= j < |name| :: name[j] != '.'
    decreases |name|
  {
    if name == [] then None
    else if name[|name| - 1] == '.' then Some(|name| - 1)
    else LastDot(name[..|name| - 1])
  }

  /** `Path::extension` of a file name. */
  function Extension(name: string): Option<string>
  {
    if name == ".." then None
    else match LastDot(name)
      case None => None
      case Some(i) => if i == 0 then None else Some(name[i + 1..])
  }

  /** The extension is the text after the last `.`; there is none when the name
      has no `.`, when its only `.` starts it, or when the name is `..`. */
  lemma ExtensionOfName(name: string)
    ensures var r := Extension(name);
      r.Some? ==> (|r.value| + 2 <= |name| && name[|name| - |r.value| - 1] == '.' &&
                   r.value == name[|name| - |r.value|..] && '.' !in r.value)
    ensures Extension(name).None? <==>
      name == ".." || (forall j | 0 <= j < |name| :: name[j] != '.') ||
      (name[0] == '.' && forall j | 0 < j < |name| :: name[j] != '.')
  {
  }

  predicate IsMarkdown(name: string)
  {
    Extension(name) == Some("md")
  }

  // ---------------------------------------------------------------------------
  // What is sent.

  /** The JSON body of the metadata request. */
  function MetadataFields(url: string, package: Package, description: Option<string>): map<string, string>
  {
    var fields := map[
      "github" := url, "name" := package.name, "address" := package.stdAddress,
      "version" := package.version, "license" := package.license, "author" := package.firstAuthor];
    if description.Some? then fields["description" := description.value] else fields
  }

  /** The metadata request, which is sent only when the manifest parsed. */
  function MetadataRequests(url: string, manifest: Manifest, description: Option<string>): seq<Request>
  {
    if manifest.Parsed? then [PostMetadata(MetadataFields(url, manifest.package, description))] else []
  }

  /** The error of the metadata phase, when it ran and failed. */
  function MetadataError(manifest: Manifest, reply: Reply): Option<UploadError>
  {
    if manifest.Parsed? then PhaseError(reply) else None
  }

  /** The file name the module suffixes are appended to: the package name, or
      nothing when the manifest did not parse. */
  function BaseFileName(manifest: Manifest): string
  {
    if manifest.Parsed? then manifest.package.name else []
  }

  /** The metadata body has the six fixed keys, plus `description` exactly
      when one was given; no key overwrites another. */
  lemma MetadataFieldsShape(url: string, package: Package, description: Option<string>)
    ensures var fields := MetadataFields(url, package, description);
      |fields| == (if description.Some? then 7 else 6) &&
      ("description" in fields <==> description.Some?) &&
      fields["github"] == url && fields["name"] == package.name &&
      fields["address"] == package.stdAddress && fields["version"] == package.version &&
      fields["license"] == package.license && fields["author"] == package.firstAuthor &&
      (description.Some? ==> fields["description"] == description.value)
  {
    var fixed := map[
      "github" := url, "name" := package.name, "address" := package.stdAddress,
      "version" := package.version, "license" := package.license, "author" := package.firstAuthor];
    assert fixed.Keys == {"github", "name", "address", "version", "license", "author"};
    assert "description" !in fixed;
  }

  /** The metadata phase runs only for a parsed manifest: then one request is
      sent, and the documents are named after the same package name that the
      metadata carries; otherwise nothing is sent, no phase error can occur and
      the base file name is empty. */
  lemma MetadataPhase(url: string, manifest: Manifest, description: Option<string>, reply: Reply)
    ensures var requests := MetadataRequests(url, manifest, description);
      |requests| == (if manifest.Parsed? then 1 else 0) &&
      (manifest.Parsed? ==>
         requests[0].PostMetadata? && "name" in requests[0].fields &&
         requests[0].fields["name"] == BaseFileName(manifest))
    ensures !manifest.Parsed? ==> MetadataError(manifest, reply).None? && BaseFileName(manifest) == []
  {
  }

  /** The form parts for the Markdown entries, in directory order. */
  function DocumentParts(base: string, entries: seq<DocEntry>): (parts: seq<Part>)
    ensures |parts| <= |entries|
    ensures forall i | 0 <= i < |parts| :: StartsWith(parts[i].fileName, base)
    decreases |entries|
  {
    if entries == [] then []
    else
      var last := entries[|entries| - 1];
      DocumentParts(base, entries[..|entries| - 1]) +
      if IsMarkdown(last.fileName) then [Part(ModuleName.ModuleFileName(base, last.text), last.text)] else []
  }

  /** The parts of a listing are the parts of its pieces, in order. */
  lemma {:induction false} DocumentPartsAppend(base: string, entries: seq<DocEntry>, more: seq<DocEntry>)
    ensures DocumentParts(base, entries + more) == DocumentParts(base, entries) + DocumentParts(base, more)
    decreases |more|
  {
    if more == [] {
      assert entries + more == entries;
    } else {
      var all := entries + more;
      assert all[..|all| - 1] == entries + more[..|more| - 1];
      assert all[|all| - 1] == more[|more| - 1];
      DocumentPartsAppend(base, entries, more[..|more| - 1]);
    }
  }

  /** An entry that is not a Markdown file adds nothing; a Markdown file adds
      one part, under its module file name and with its text unchanged. */
  lemma DocumentPartsOfEntry(base: string, entry: DocEntry)
    ensures DocumentParts(base, [entry]) ==
      if IsMarkdown(entry.fileName) then [Part(ModuleName.ModuleFileName(base, entry.text), entry.text)] else []
  {
    assert [entry][..0] == [];
  }

  /** When every entry is a Markdown file, part `i` is entry `i`, in directory
      order, sent under its module file name. */
  lemma {:induction false} MarkdownEntriesInOrder(base: string, entries: seq<DocEntry>)
    requires forall i | 0 <= i < |entries| :: IsMarkdown(entries[i].fileName)
    ensures |DocumentParts(base, entries)| == |entries|
    ensures forall i | 0 <= i < |entries| ::
      DocumentParts(base, entries)[i] == Part(ModuleName.ModuleFileName(base, entries[i].text), entries[i].text)
    decreases |entries|
  {
    if entries != [] {
      var init := entries[..|entries| - 1];
      MarkdownEntriesInOrder(base, init);
      assert IsMarkdown(entries[|entries| - 1].fileName);
      forall i | 0 <= i < |init|
        ensures entries[i] == init[i]
      {
      }
    }
  }

  /** A name is uploaded exactly when the text after its last `.` is `md` and
      something comes before that `.`: `a.md` is, a hidden `.md` and a backup
      `a.md.bak` are not. */
  lemma MarkdownNames(name: string, ext: string)
    requires '.' !in ext
    ensures IsMarkdown(name + "." + ext) <==> name != [] && ext == "md"
  {
    var full := name + "." + ext;
    assert full[|name|] == '.';
    forall j | |name| < j < |full|
      ensures full[j] != '.'
    {
      assert full[j] == ext[j - |name| - 1];
    }
    assert LastDot(full) == Some(|name|);
    if full != ".." && name != [] {
      assert full[|name| + 1..] == ext;
    }
  }

  /** Characters that the parts of a one-line heading do not hold. */
  const HeadingBreaks: set<char> := {ModuleName.Backtick, ':', '\n'}

  /** A file whose first line is a heading `# Module ...`<prefix>::<name>`` is
      sent as `<package>+<name>.md`, whatever follows that line. */
  lemma HeadingFileName(base: string, lead: string, prefix: string, name: string, later: string)
    requires ModuleName.IsHeading(lead)
    requires NoneOf(lead, HeadingBreaks) && NoneOf(prefix, HeadingBreaks) && NoneOf(name, HeadingBreaks)
    ensures var heading := lead + [ModuleName.Backtick] + prefix + ModuleName.PathSeparator + name + [ModuleName.Backtick];
      ModuleName.ModuleFileName(base, heading + "\n" + later) == base + "+" + name + ".md"
  {
    var tick := [ModuleName.Backtick];
    var heading := lead + tick + prefix + ModuleName.PathSeparator + name + tick;
    NoneOfFewer(lead, HeadingBreaks, {ModuleName.Backtick, ':'});
    NoneOfFewer(prefix, HeadingBreaks, {ModuleName.Backtick, ':'});
    NoneOfFewer(name, HeadingBreaks, {ModuleName.Backtick, ':'});
    ModuleName.HeadingNamesModule(lead, prefix, name);
    NoneOfFewer(lead, HeadingBreaks, {'\n'});
    NoneOfFewer(prefix, HeadingBreaks, {'\n'});
    NoneOfFewer(name, HeadingBreaks, {'\n'});
    assert NoneOf(tick, {'\n'}) && NoneOf(ModuleName.PathSeparator, {'\n'});
    NoneOfConcat(lead, tick, {'\n'});
    NoneOfConcat(lead + tick, prefix, {'\n'});
    NoneOfConcat(lead + tick + prefix, ModuleName.PathSeparator, {'\n'});
    NoneOfConcat(lead + tick + prefix + ModuleName.PathSeparator, name, {'\n'});
    NoneOfConcat(lead + tick + prefix + ModuleName.PathSeparator + name, tick, {'\n'});
    SplitAnyNone(heading, {'\n'});
    ModuleName.FirstHeadingDecides(base, heading, 0);
    ModuleName.LaterLinesIgnored(base, heading, later);
  }

  /** A one-line file without a heading is sent under the bare package name. */
  lemma PlainFileName(base: string, plain: string)
    requires NoneOf(plain, {'\n'}) && !ModuleName.IsHeading(plain)
    ensures ModuleName.ModuleFileName(base, plain) == base
  {
    SplitAnyNone(plain, {'\n'});
    ModuleName.NoHeadingKeepsBase(base, plain);
  }

  // ---------------------------------------------------------------------------
  // The command.

  /** The loop over the `doc` directory: one form part per Markdown file. */
  method CollectParts(filename: string, entries: seq<DocEntry>) returns (parts: seq<Part>)
    ensures parts == DocumentParts(filename, entries)
  {
    parts := [];
    var i := 0;
    while i < |entries|
      invariant 0 <= i <= |entries|
      invariant parts == DocumentParts(filename, entries[..i])
    {
      var entry := entries[i];
      assert entries[..i + 1][..i] == entries[..i];
      if IsMarkdown(entry.fileName) {
        var filenameOfModule := filename;
        var mdFile;
        filenameOfModule, mdFile := ModuleName.ReadFileAndModuleName(filenameOfModule, entry.text);
        parts := parts + [Part(filenameOfModule, mdFile)];
      }
      i := i + 1;
    }
    assert entries[..i] == entries;
  }

  /** `Upload::execute`. */
  method Execute(gitSuccess: bool, gitStdout: string, manifest: Manifest, description: Option<string>,
                 metadataReply: Reply, docDir: Option<seq<DocEntry>>, documentReply: Reply)
    returns (run: Run)
    ensures var resolved := Remote.Resolve(gitSuccess, gitStdout);
      resolved.Err? ==> run == Run([], Some(resolved.error))
    ensures var resolved := Remote.Resolve(gitSuccess, gitStdout);
      resolved.Ok? && manifest.Unreadable? ==> run == Run([], Some(ManifestUnreadable))
    ensures var resolved := Remote.Resolve(gitSuccess, gitStdout);
      resolved.Ok? && !manifest.Unreadable? ==>
        var metadata := MetadataRequests(resolved.value, manifest, description);
        if MetadataError(manifest, metadataReply).Some? then
          run == Run(metadata, MetadataError(manifest, metadataReply))
        else if docDir.None? then
          run == Run(metadata, Some(DocDirUnreadable))
        else
          run == Run(metadata + [PostDocuments(DocumentParts(BaseFileName(manifest), docDir.value))],
                     PhaseError(documentReply))
    // the document request is the last one, and is sent only after a metadata
    // phase that did not fail
    ensures forall k | 0 <= k < |run.sent| :: run.sent[k].PostDocuments? ==>
      k == |run.sent| - 1 && MetadataError(manifest, metadataReply).None?
    ensures run.error.None? ==> |run.sent| > 0 && run.sent[|run.sent| - 1].PostDocuments?
  {
    var resolved := Remote.ResolveRepoUrl(gitSuccess, gitStdout);
    if resolved.Err? {
      return Run([], Some(resolved.error));
    }
    if manifest.Unreadable? {
      return Run([], Some(ManifestUnreadable));
    }
    var sent: seq<Request> := [];
    var filename: string := [];
    if manifest.Parsed? {
      var package := manifest.package;
      filename := package.name;
      var fields := MetadataFields(resolved.value, package, description);
      sent := [PostMetadata(fields)];
      var failure := PhaseError(metadataReply);
      if failure.Some? {
        return Run(sent, failure);
      }
    }
    if docDir.None? {
      return Run(sent, Some(DocDirUnreadable));
    }
    var parts := CollectParts(filename, docDir.value);
    sent := sent + [PostDocuments(parts)];
    run := Run(sent, PhaseError(documentReply));
  }
}
