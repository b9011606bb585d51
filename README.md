# movedogs `upload`: a Dafny model

This project models the `upload` command of the movedogs CLI. The command
publishes a Move package's documentation in four steps:

1. It reads the package's GitHub URL from the output of `git remote -v`. The
   last remote line that mentions `github.com` wins. An SSH address
   `git@github.com:owner/repo.git` becomes `https://github.com/owner/repo`.
   One trailing `.git` is dropped.
2. It posts the package metadata as JSON: the repository URL under `github`,
   then the name, `std` address, version, license, first author and optional
   description.
3. It posts every Markdown file of the `doc` directory as a multipart form. Each
   file is sent under the package name followed by `+<module>.md` for every
   backtick-separated token of the file's first `# Module` line that contains
   `::`. The text before the first backtick and after the last one counts as a
   token too. The module name is the text after the token's last `::`.
4. After each of the two requests it stops on a 4xx reply, a 5xx reply, a
   missing reply, or a 2xx or 4xx reply whose body cannot be read. A metadata
   failure returns before the document phase runs.

The modules follow the source:

- `Outcomes`: the error values the command ends with, and the texts it attaches
  to them.
- `RustStr`: the parts of Rust's `str` API that the command uses, with their
  standard-library semantics. `split` on a set of characters yields empty
  tokens between adjacent separators. `split` on a string pattern matches from
  the left without overlap. `replace` is split followed by join.
- `Remote`: the resolver loop. `Resolve` is the function that specifies it;
  `ResolveRepoUrl` is the loop as a method proved equal to it.
- `ModuleName`: `read_file_and_module_name`. `ModuleFileName` specifies it;
  `ReadFileAndModuleName` is the nested loop as a method.
- `HttpStatus`: the two `match` blocks on the reply status.
- `Upload`: `Upload::execute`, ordering the phases, plus the directory filter
  on the `.md` extension.

External inputs become parameters of `Upload.Execute`:

- git's exit status and standard output;
- the outcome of reading and parsing `Move.toml`;
- the CLI description;
- the listing and contents of `doc/`;
- the two HTTP replies.

The result is the sequence of requests sent and the error the command ended
with, if any.

## Model

| member | source | states |
|---|---|---|
| Remote.ResolveRepoUrl | src/upload.rs:32-58 | The loop returns exactly `Resolve`: "invalid git repository" when git failed or printed nothing, "invalid remote url" on the first malformed github.com line, otherwise the URL from the last github.com line. |
| Remote.ResolveRejectsRepository | src/upload.rs:32-34 | "invalid git repository" is returned if and only if git failed or printed nothing. |
| Remote.ScanNeverBlamesRepository | src/upload.rs:40-58 | The line scan never ends with "invalid git repository". |
| Remote.ScanFailsOnMalformedLine | src/upload.rs:40-45 | The scan fails if and only if some github.com line does not split into exactly three tab- or space-separated fields. When it fails, the error is "invalid remote url". |
| Remote.ScanWithoutGithubLine | src/upload.rs:36-58 | With no github.com line the URL keeps its initial value (empty) and there is no error. |
| Remote.ScanLastGithubLineWins | src/upload.rs:40-58 | With no malformed line, the result is the URL of the last github.com line. Earlier lines are overwritten. |
| Remote.StripGitSuffix | src/upload.rs:52-56 | Putting `.git` back after the result gives the input when the input ends in `.git`. Otherwise the input is unchanged. |
| Remote.StripGitSuffixOnce | src/upload.rs:52-53 | Only one `.git` is removed: `name.git` gives `name`, even when `name` itself ends in `.git`. |
| Remote.ColonSwap | src/upload.rs:48 | `replace(':', "/")` turns the `:` after a prefix without one into `/`, and goes on over the rest. |
| Remote.SshAddressColon | src/upload.rs:48 | The first `replace` turns `git@github.com:<path>` into `git@github.com/` followed by the path with its own `:`s replaced too. |
| Remote.HostStartsNoScheme | src/upload.rs:48 | No `git@` starts inside `github.com/`. |
| Remote.SchemeSwap | src/upload.rs:48 | The second `replace` turns the leading `git@` into `https://`, keeps `github.com/`, and goes on over the path. |
| Remote.SshAddressScheme | src/upload.rs:48 | `git@github.com/<path>` becomes `https://github.com/` followed by the path with its own `git@`s replaced too. |
| Remote.SshAddressToHttps | src/upload.rs:47-51 | For every path, `git@github.com:<path>` becomes `https://github.com/` followed by the path with every `:` turned into `/` and then every `git@` into `https://`. |
| Remote.SshAddressEveryColon | src/upload.rs:47-51 | For a path without `@`, the result is `https://github.com/` followed by a text as long as the path, where each `:` of the path is `/` and every other character is kept in place. So `git@github.com:a:b` becomes `https://github.com/a/b`. |
| Remote.SshAddressCleanToHttps | src/upload.rs:47-51 | `git@github.com:<path>` becomes `https://github.com/<path>` when the path holds no `:` and no `git@`. |
| Remote.ToHttps | src/upload.rs:47-51 | Specified by `SshAddressToHttps`, `SshAddressEveryColon` and `SshAddressCleanToHttps` for SSH addresses. Any address not starting with `git@github.com` is kept as it is. |
| Remote.RepoUrl | src/upload.rs:47-56 | The HTTPS form of the address without one trailing `.git`. Specified by `StripGitSuffix`, `StripGitSuffixOnce` and `SshAddressRepoUrl`. |
| Remote.UrlOfLine | src/upload.rs:42-56 | A github.com line without exactly three fields gives "invalid remote url"; otherwise the repository URL of its second field. Specified by `ScanFailsOnMalformedLine` and `SingleRemoteLine`. |
| Remote.ScanRemotes | src/upload.rs:38-58 | The line scan. Specified by `ScanNeverBlamesRepository`, `ScanFailsOnMalformedLine`, `ScanWithoutGithubLine` and `ScanLastGithubLineWins`. |
| Remote.Resolve | src/upload.rs:32-58 | The whole resolution. Specified by `ResolveRejectsRepository` and the scan lemmas, and implemented by `ResolveRepoUrl`. |
| Remote.IsGithubLine | src/upload.rs:41 | `line.contains("github.com")`: the test that selects a line. Relied on by `ScanWithoutGithubLine`, `ScanLastGithubLineWins`, `SshAddressIsGithub` and `HttpsAddressIsGithub`. |
| Remote.RemoteFields | src/upload.rs:42 | The split of a line on tabs and spaces, with an empty field between adjacent separators. Described by `RemoteLineFields` and `DoubledTabFields`. |
| Remote.IsMalformed | src/upload.rs:41-43 | A github.com line whose split does not give exactly three fields. `ScanFailsOnMalformedLine` proves that the scan fails if and only if such a line exists. |
| Remote.RemoteLineFields | src/upload.rs:42 | A line `<name>\t<address> <kind>` has exactly the three fields name, address and kind. |
| Remote.DoubledTabFields | src/upload.rs:42-43 | A doubled tab produces an empty field, giving four fields. |
| Remote.OneLineListing | src/upload.rs:38-39 | A listing of one line ending in a newline splits into that line and an empty one. |
| Remote.ResolveOneLine | src/upload.rs:38-58 | A one-line github.com listing resolves to what that line contributes. The empty line after the final newline is ignored. |
| Remote.RemoteLineShape | src/upload.rs:41 | A remote line mentions github.com when its address does, and holds no line break. |
| Remote.SingleRemoteLine | src/upload.rs:38-58 | A listing whose only line is `<name>\t<address> <kind>` resolves to the repository URL of the address. |
| Remote.DoubleTabRejected | src/upload.rs:42-45 | A listing whose only line is `<name>\t\t<address> <kind>` is rejected with "invalid remote url". |
| Remote.SshAddressIsGithub | src/upload.rs:41 | An SSH address `git@github.com:<path>` mentions github.com. |
| Remote.HttpsAddressIsGithub | src/upload.rs:41 | An HTTPS address `https://github.com/<path>` mentions github.com. |
| Remote.AddressFree | src/upload.rs:42 | An address built from pieces without separators or line breaks has none itself. |
| Remote.SshAddressRepoUrl | src/upload.rs:47-56 | `git@github.com:<path>.git` has the repository URL `https://github.com/<path>`. |
| Remote.SshRemoteListing | src/upload.rs:32-58 | A listing `<name>\tgit@github.com:<path>.git <kind>` resolves to `https://github.com/<path>`. |
| Remote.HttpsRemoteListing | src/upload.rs:32-58 | A listing `<name>\thttps://github.com/<path>.git <kind>` resolves to `https://github.com/<path>`. |
| ModuleName.ReadFileAndModuleName | src/upload.rs:168-188 | The loop over lines yields `ModuleFileName(filename, text)` and returns the text unchanged. |
| ModuleName.AppendModuleNames | src/upload.rs:174-183 | The loop over backtick tokens appends exactly the heading's suffix: `+<name>.md` for each token holding `::`, in order. |
| ModuleName.ModuleFileName | src/upload.rs:168-188 | The resulting file name always starts with the base name. |
| ModuleName.FileNameOfLines | src/upload.rs:172-185 | The base plus the suffix of the first `# Module` line, or the base when there is none. Specified by `FirstHeadingDecides`, `NoHeadingKeepsBase` and `LaterLinesIgnoredOfLines`. |
| ModuleName.HeadingSuffix | src/upload.rs:174-182 | What a heading line adds. Specified by `ModuleNamesOfTokens`, `ModuleNameOfToken`, `HeadingNamesModule` and `TripleColonToken`. |
| ModuleName.Decorate | src/upload.rs:179-181 | `+<name>.md` per name, in order. Specified by `DecorateOne` and `DecorateAppend`. |
| ModuleName.FirstHeading | src/upload.rs:172-173 | A found heading index is within the lines. |
| ModuleName.IsHeading | src/upload.rs:173 | `line.starts_with("# Module")`. `FirstHeadingIs` and `FirstHeadingNone` tie the chosen line to it in both directions. |
| ModuleName.FirstHeadingIs | src/upload.rs:172-173 | The first heading is line `k` if and only if line `k` starts with `# Module` and no earlier line does. |
| ModuleName.FirstHeadingNone | src/upload.rs:172-173 | No heading is found if and only if no line starts with `# Module`. |
| ModuleName.FirstHeadingDecides | src/upload.rs:172-185 | When line `k` is the first heading, the file name is the base plus the suffix of line `k` alone. |
| ModuleName.NoHeadingKeepsBase | src/upload.rs:172-186 | Without a heading line the file name is the base. |
| ModuleName.FirstHeadingAppend | src/upload.rs:172-185 | Appending lines after the first heading does not move it. |
| ModuleName.LaterLinesIgnored | src/upload.rs:184 | Once a heading has been seen, later lines (later headings included) do not change the file name. |
| ModuleName.LaterLinesIgnoredOfLines | src/upload.rs:184 | The same, stated on the split lines. |
| ModuleName.ModuleNames | src/upload.rs:175-182 | Gives at most one name per backtick token. |
| ModuleName.ModuleNamesHaveNoSeparator | src/upload.rs:177 | No module name contains `::`. |
| ModuleName.ModuleNamesOfTokens | src/upload.rs:175-182 | The names of a token list are the names of its parts, in order. |
| ModuleName.ModuleNameOfToken | src/upload.rs:176-177 | A token contributes what follows its last `::` match if it contains `::`, and nothing otherwise. |
| ModuleName.TripleColonToken | src/upload.rs:177 | A token `a:::b`, with no `:` in `a` or `b`, contributes `:b`, because `::` matches are taken from the left without overlap. So `m:::coin` contributes `:coin`. |
| ModuleName.DecorateAppend | src/upload.rs:179-181 | The suffix of a list of names is the concatenation of the suffixes of its parts. |
| ModuleName.DecorateOne | src/upload.rs:179-181 | One name `n` adds `+n.md`. |
| ModuleName.HeadingTokens | src/upload.rs:174 | A heading ``<lead>`<path>` `` splits on backticks into the lead, the path and an empty token. |
| ModuleName.PathLastSegment | src/upload.rs:176-177 | `<prefix>::<name>` contains `::`, and its last segment is `name`, when neither part holds a `:`. |
| ModuleName.PathModuleNames | src/upload.rs:175-182 | The tokens of such a heading give the single module name `name`. |
| ModuleName.HeadingNamesModule | src/upload.rs:173-182 | A heading ``# Module ...`<prefix>::<name>` `` is a heading, and it adds `+<name>.md`. |
| ModuleName.UnquotedHeadingNamesModule | src/upload.rs:173-182 | A heading `# Module <prefix>::<name>` without backticks is one token, so it also adds `+<name>.md`. |
| HttpStatus.StatusClass | src/upload.rs:107-116 | A status's class is its first digit, between 1 and 9. |
| HttpStatus.StatusPredicatesByClass | src/upload.rs:107-114 | `is_success`, `is_client_error` and `is_server_error` hold exactly for the status classes 2, 4 and 5. No status satisfies two of them. |
| HttpStatus.IsSuccess | src/upload.rs:107 | `StatusCode::is_success`, statuses 200 to 299. Described by `StatusPredicatesByClass`; `PhaseError` and `PhaseGoesOn` rely on it. |
| HttpStatus.IsClientError | src/upload.rs:112 | `StatusCode::is_client_error`, statuses 400 to 499. Described by `StatusPredicatesByClass`; `PhaseError` and `PhaseErrorMessage` rely on it. |
| HttpStatus.IsServerError | src/upload.rs:114 | `StatusCode::is_server_error`, statuses 500 to 599. Described by `StatusPredicatesByClass`; `PhaseError` and `PhaseErrorMessage` rely on it. |
| HttpStatus.PhaseError | src/upload.rs:105-121 | No reply gives "try again later". 2xx goes on, or fails if the body cannot be read. 4xx fails with the reply body. 5xx gives "try again later". Any other class goes on. |
| HttpStatus.PhaseErrorMessage | src/upload.rs:148-164 | The message printed is the body for a 4xx reply and the fixed "try again later" text for a 5xx reply or a missing reply. |
| HttpStatus.PhaseGoesOn | src/upload.rs:148-164 | The command continues if and only if the reply is a readable 2xx, or has a status outside 2xx, 4xx and 5xx. |
| Upload.Execute | src/upload.rs:15-166 | Checked in order: a resolver error ends the run with no request; an unreadable manifest ends it with no request; a metadata error ends it after the metadata request; an unreadable `doc` ends it there; otherwise one document request is sent with every Markdown part and the run ends with that reply's error. Any document request is the last one, and only follows a metadata phase that did not fail. A run without error ends with the document request. |
| Upload.CollectParts | src/upload.rs:130-143 | The loop over `doc` entries builds exactly `DocumentParts`. |
| Upload.LastDot | src/upload.rs:133 | Gives the index of the last `.` of a name, or `None` when the name has no `.`. |
| Upload.ExtensionOfName | src/upload.rs:133-134 | The extension is the text after the last `.`. There is none for `..`, for a name without `.`, or for a name whose only `.` is its first character. |
| Upload.MarkdownNames | src/upload.rs:133-134 | A name `<stem>.<ext>` with no `.` in `ext` is uploaded if and only if `stem` is non-empty and `ext` is `md`. So `a.md` is uploaded, and `.md` and `a.md.bak` are not. |
| Upload.Extension | src/upload.rs:133 | `Path::extension` of a name. Specified by `ExtensionOfName`. |
| Upload.IsMarkdown | src/upload.rs:133-134 | The filter on the `md` extension. Specified by `MarkdownNames`. |
| Upload.MetadataFieldsShape | src/upload.rs:61-99 | The metadata body has seven keys when a description is given and six otherwise, so no key overwrites another. `description` is present exactly when one was given, and then carries it. `github` carries the repository URL. `name`, `address`, `version`, `license` and `author` carry the package name, `std` address, version, license and first author. |
| Upload.MetadataFields | src/upload.rs:61-99 | The JSON body. Specified by `MetadataFieldsShape`. |
| Upload.MetadataPhase | src/upload.rs:72-103 | One metadata request is sent when the manifest parsed, and none otherwise. When the manifest parsed, the documents' base file name is the `name` the metadata carries. When it did not parse, no metadata error can occur and the base file name is empty. |
| Upload.MetadataRequests | src/upload.rs:74-103 | The metadata request, only for a parsed manifest. Specified by `MetadataPhase`. |
| Upload.MetadataError | src/upload.rs:105-121 | The metadata phase's error, only for a parsed manifest. Specified by `MetadataPhase` and `HttpStatus.PhaseError`. |
| Upload.BaseFileName | src/upload.rs:72-89 | The package name, or empty when parsing failed. Specified by `MetadataPhase`. |
| Upload.DocumentParts | src/upload.rs:131-143 | Gives at most one part per directory entry, and every part's file name starts with the package name. |
| Upload.DocumentPartsAppend | src/upload.rs:131-143 | The parts of consecutive entry lists are concatenated in directory order. |
| Upload.DocumentPartsOfEntry | src/upload.rs:131-143 | An entry that is not a Markdown file adds no part. A Markdown file adds one part, with its text unchanged, under its module file name. |
| Upload.MarkdownEntriesInOrder | src/upload.rs:131-143 | When every entry is Markdown, part `i` is entry `i`'s text under its module file name. |
| Upload.HeadingFileName | src/upload.rs:136-139 | A file whose first line is ``# Module ...`<prefix>::<name>` `` is sent as `<package>+<name>.md`, whatever follows. |
| Upload.PlainFileName | src/upload.rs:136-139 | A one-line file without a heading is sent under the bare package name. |
| RustStr.SplitAny | src/upload.rs:39 | Splitting on a set of characters gives one token more than there are separators. |
| RustStr.SplitAnyTokens | src/upload.rs:42 | No token holds a separator. |
| RustStr.SplitAnyJoin | src/upload.rs:39 | Splitting on one character and joining with it gives back the text. |
| RustStr.SplitAnyNone | src/upload.rs:42 | A text without separators is one token. |
| RustStr.SplitAnyAppend | src/upload.rs:42 | Splitting distributes over a separator. |
| RustStr.SplitOn | src/upload.rs:177 | Splitting on a string pattern gives at least one token. |
| RustStr.SplitOnJoin | src/upload.rs:177 | Splitting on a pattern and joining with it gives back the text. |
| RustStr.SplitOnNone | src/upload.rs:177 | A text without the pattern is one token. |
| RustStr.SplitOnFirstMatch | src/upload.rs:177 | The first match ends the first token. |
| RustStr.ContainsSplitsInTwo | src/upload.rs:176-177 | A text that contains the pattern splits into at least two tokens, so `last().unwrap()` is a real segment. |
| RustStr.LastSegmentIsSuffix | src/upload.rs:177 | The last segment is a suffix of the token. |
| RustStr.LastSegmentHasNoMatch | src/upload.rs:177 | The last segment contains no `::`. |
| RustStr.LastSegmentAfterMatch | src/upload.rs:177 | A leading match is dropped without changing the last segment. |
| RustStr.LastSegmentAfterChar | src/upload.rs:177 | A leading character that starts no match does not change the last segment unless it is the only token. |
| RustStr.LastSegmentOf | src/upload.rs:177 | The last segment of `a + pat + b` is `b` when `a` starts no match and `b` holds none. |
| RustStr.ReplaceIsSplitJoin | src/upload.rs:48 | `replace` equals split followed by join with the replacement. |
| RustStr.ReplaceSelf | src/upload.rs:48 | Replacing a pattern with itself changes nothing. |
| RustStr.ReplaceAbsent | src/upload.rs:48 | Without a match, `replace` changes nothing. |
| RustStr.ReplaceSkipsPrefix | src/upload.rs:48 | A prefix that starts no match passes through `replace` unchanged. |
| RustStr.ReplaceLeadingMatch | src/upload.rs:48 | A leading match is replaced, and `replace` continues after it. |
| RustStr.ReplaceChar | src/upload.rs:48 | Replacing one character by another keeps the length, turns every occurrence into the replacement, and keeps every other character in place. |
| RustStr.Replace | src/upload.rs:48 | `str::replace`. Specified by `ReplaceIsSplitJoin`, `ReplaceChar`, `ReplaceAbsent`, `ReplaceSkipsPrefix` and `ReplaceLeadingMatch`. |
| RustStr.LastSegment | src/upload.rs:177 | `split(pat).last().unwrap()`. Specified by `LastSegmentIsSuffix`, `LastSegmentHasNoMatch`, `LastSegmentAfterMatch`, `LastSegmentAfterChar` and `LastSegmentOf`. |
| RustStr.ContainsInside | src/upload.rs:41 | Text that contains the pattern still contains it once other text is added around it. |
| RustStr.Contains | src/upload.rs:41 | `str::contains`: some position holds a match. Relied on by `ContainsInside`, `ContainsSplitsInTwo` and `ReplaceAbsent`. |
| RustStr.StartsWith | src/upload.rs:47 | `str::starts_with`: the pattern is a prefix. `ToHttps` and `IsHeading` test with it; `SshAddressToHttps` and `HeadingNamesModule` rely on it. |
| RustStr.EndsWith | src/upload.rs:52 | `str::ends_with`: the pattern is a suffix. `StripGitSuffix` states its result through it in both branches. |

## Left out

- Running `git`, reading files and listing `doc/` are not modelled. Their
  results are inputs. The `unwrap` on spawning `git` and on each directory entry
  is not modelled: a spawn failure or a bad entry is not an input.
- `String::from_utf8_lossy` is not modelled. The git output is taken to be text
  already.
- TOML parsing is not modelled. The manifest is an input with three cases:
  unreadable, unparsable, or the fields read. The `unwrap`s on missing keys,
  missing authors and a missing `std` address are not modelled; only complete
  manifests are represented. Only the first author is sent, as in the code.
- The `expect` on reading `Move.toml` panics in the code. Here it ends the run
  with `ManifestUnreadable` and no request.
- The `expect` on reading a Markdown file panics in the code. Here a listed
  file always has its text.
- Building JSON and multipart bodies, and the HTTP client itself, are not
  modelled. A request is the map of metadata fields, or the list of
  (file name, text) parts sent under the form field `file`. The reply is an
  input.
- Every `println!` is left out, including the success message and the parse
  errors.
- `src/docgen.rs`, `src/main.rs` and argument parsing are not part of this
  model. The description is a parameter.
- `StatusCode` values are 100 to 999, as the `http` crate allows.
- When TOML parsing fails, the code sends no metadata request and uses an empty
  base file name for the documents. The model does the same.
- A metadata-phase error returns before the document phase, as the code does.
  The request list is not reset between phases.
