/** The GitHub repository URL that `upload` derives from the output of
    `git remote -v`: the last remote line mentioning github.com wins, an SSH
    address is rewritten to HTTPS, and one trailing `.git` is dropped. */
module Remote {
  import opened Outcomes
  import opened RustStr

  const GithubHost: string := "github.com"
  /** The user part of an SSH address and the scheme that replaces it. */
  const SshUser: string := "git@"
  const HttpsScheme: string := "https://"
  const HostPath: string := GithubHost + "/"
  const SshPrefix: string := SshUser + GithubHost
  const HttpsPrefix: string := HttpsScheme + HostPath
  const GitSuffix: string := ".git"
  /** A remote line is split on tabs and on spaces. */
  const FieldSeparators: set<char> := {'\t', ' '}

  /** A line that takes part in the resolution. */
  predicate IsGithubLine(line: string)
  {
    Contains(line, GithubHost)
  }

  /** The fields of a remote line: name, address and `(fetch)`/`(push)`. */
  function RemoteFields(line: string): seq<string>
  {
    SplitAny(line, FieldSeparators)
  }

  /** A github.com line that does not have exactly three fields. */
  predicate IsMalformed(line: string)
  {
    IsGithubLine(line) && |RemoteFields(line)| != 3
  }

  /** An SSH address has every `:` turned into `/` and `git@` into `https://`;
      any other address is kept as it is. */
  function ToHttps(address: string): string
  {
    if StartsWith(address, SshPrefix) then Replace(Replace(address, ":", "/"), SshUser, HttpsScheme)
    else address
  }

  /** Drops one trailing `.git`, and nothing else. */
  function StripGitSuffix(url: string): (r: string)
    ensures EndsWith(url, GitSuffix) ==> r + GitSuffix == url
    ensures !EndsWith(url, GitSuffix) ==> r == url
  {
    if EndsWith(url, GitSuffix) then url[..|url| - |GitSuffix|] else url
  }

  /** Exactly one `.git` is removed, even from a name that has two. */
  lemma StripGitSuffixOnce(url: string, name: string)
    requires url == name + GitSuffix
    ensures StripGitSuffix(url) == name
  {
    assert url[|name|..] == GitSuffix;
  }

  /** The repository URL recorded for a remote address. */
  function RepoUrl(address: string): string
  {
    StripGitSuffix(ToHttps(address))
  }

  /** What one github.com line contributes. */
  function UrlOfLine(line: string): Result<string>
  {
    var fields := RemoteFields(line);
    if |fields| != 3 then Err(InvalidRemoteUrl) else Ok(RepoUrl(fields[1]))
  }

  /** The scan over the lines, `url` being the value found so far. */
  function ScanRemotes(lines: seq<string>, url: string): Result<string>
    decreases |lines|
  {
    if lines == [] then Ok(url)
    else if !IsGithubLine(lines[0]) then ScanRemotes(lines[1..], url)
    else match UrlOfLine(lines[0])
      case Err(e) => Err(e)
      case Ok(u) => ScanRemotes(lines[1..], u)
  }

  /** The resolution as a whole, from git's exit status and standard output. */
  function Resolve(success: bool, stdout: string): Result<string>
  {
    if !success || stdout == [] then Err(InvalidGitRepository)
    else ScanRemotes(SplitAny(stdout, {'\n'}), [])
  }

  /** The loop of `Upload::execute` that overwrites the repository URL on every
      github.com line. */
  method ResolveRepoUrl(success: bool, stdout: string) returns (r: Result<string>)
    ensures r == Resolve(success, stdout)
  {
    if !success || |stdout| == 0 {
      return Err(InvalidGitRepository);
    }
    var lines := SplitAny(stdout, {'\n'});
    var url: string := [];
    var i := 0;
    while i < |lines|
      invariant 0 <= i <= |lines|
      invariant ScanRemotes(lines[i..], url) == Resolve(success, stdout)
    {
      var line := lines[i];
      assert lines[i..][0] == line && lines[i..][1..] == lines[i + 1..];
      if Contains(line, GithubHost) {
        var tokens := SplitAny(line, FieldSeparators);
        if |tokens| != 3 {
          return Err(InvalidRemoteUrl);
        }
        var httpsUrl := if StartsWith(tokens[1], SshPrefix)
          then Replace(Replace(tokens[1], ":", "/"), SshUser, HttpsScheme)
          else tokens[1];
        url := if EndsWith(httpsUrl, GitSuffix) then httpsUrl[..|httpsUrl| - 4] else httpsUrl;
      }
      i := i + 1;
    }
    return Ok(url);
  }

  // ---------------------------------------------------------------------------
  // What the resolution computes.

  /** Only a failed or silent `git` yields "invalid git repository". */
  lemma {:induction false} ScanNeverBlamesRepository(lines: seq<string>, url: string)
    ensures ScanRemotes(lines, url) != Err(InvalidGitRepository)
    decreases |lines|
  {
    if lines != [] {
      ScanNeverBlamesRepository(lines[1..], url);
      if IsGithubLine(lines[0]) && UrlOfLine(lines[0]).Ok? {
        ScanNeverBlamesRepository(lines[1..], UrlOfLine(lines[0]).value);
      }
    }
  }

  lemma ResolveRejectsRepository(success: bool, stdout: string)
    ensures Resolve(success, stdout) == Err(InvalidGitRepository) <==> !success || stdout == []
  {
    if success && stdout != [] {
      ScanNeverBlamesRepository(SplitAny(stdout, {'\n'}), []);
    }
  }

  /** The scan fails exactly when some github.com line is malformed, and then
      always with "invalid remote url". */
  lemma {:induction false} ScanFailsOnMalformedLine(lines: seq<string>, url: string)
    ensures ScanRemotes(lines, url).Err? <==> exists k | 0 <= k < |lines| :: IsMalformed(lines[k])
    ensures ScanRemotes(lines, url).Err? ==> ScanRemotes(lines, url).error == InvalidRemoteUrl
    decreases |lines|
  {
    if lines != [] {
      var next := if IsGithubLine(lines[0]) && UrlOfLine(lines[0]).Ok? then UrlOfLine(lines[0]).value else url;
      ScanFailsOnMalformedLine(lines[1..], next);
      if exists k | 0 <= k < |lines[1..]| :: IsMalformed(lines[1..][k]) {
        var k :| 0 <= k < |lines[1..]| && IsMalformed(lines[1..][k]);
        assert IsMalformed(lines[k + 1]);
      }
      if exists k | 0 <= k < |lines| :: IsMalformed(lines[k]) {
        var k :| 0 <= k < |lines| && IsMalformed(lines[k]);
        if k > 0 {
          assert IsMalformed(lines[1..][k - 1]);
        }
      }
    }
  }

  /** With no github.com line the URL stays what it was: empty, and no error. */
  lemma {:induction false} ScanWithoutGithubLine(lines: seq<string>, url: string)
    requires forall k | 0 <= k < |lines| :: !IsGithubLine(lines[k])
    ensures ScanRemotes(lines, url) == Ok(url)
    decreases |lines|
  {
    if lines != [] {
      assert !IsGithubLine(lines[0]);
      ScanWithoutGithubLine(lines[1..], url);
    }
  }

  /** When no line is malformed, the URL comes from the last github.com line. */
  lemma {:induction false} ScanLastGithubLineWins(lines: seq<string>, url: string, k: int)
    requires 0 <= k < |lines| && IsGithubLine(lines[k])
    requires forall j | k < j < |lines| :: !IsGithubLine(lines[j])
    requires forall j | 0 <= j < |lines| :: !IsMalformed(lines[j])
    ensures ScanRemotes(lines, url) == UrlOfLine(lines[k])
    ensures UrlOfLine(lines[k]).Ok?
    decreases |lines|
  {
    var line := lines[0];
    assert !IsMalformed(line);
    var next := url;
    if IsGithubLine(line) {
      assert UrlOfLine(line).Ok?;
      next := UrlOfLine(line).value;
    }
    assert ScanRemotes(lines, url) == ScanRemotes(lines[1..], next);
    if k == 0 {
      assert forall j | 0 <= j < |lines[1..]| :: !IsGithubLine(lines[1..][j]) by {
        forall j | 0 <= j < |lines[1..]|
          ensures !IsGithubLine(lines[1..][j])
        {
          assert lines[1..][j] == lines[j + 1];
        }
      }
      ScanWithoutGithubLine(lines[1..], next);
    } else {
      assert lines[1..][k - 1] == lines[k];
      assert forall j | 0 <= j < |lines[1..]| :: !IsMalformed(lines[1..][j]) by {
        forall j | 0 <= j < |lines[1..]|
          ensures !IsMalformed(lines[1..][j])
        {
          assert lines[1..][j] == lines[j + 1];
        }
      }
      assert forall j | k - 1 < j < |lines[1..]| :: !IsGithubLine(lines[1..][j]) by {
        forall j | k - 1 < j < |lines[1..]|
          ensures !IsGithubLine(lines[1..][j])
        {
          assert lines[1..][j] == lines[j + 1];
        }
      }
      ScanLastGithubLineWins(lines[1..], next, k - 1);
    }
  }

  // ---------------------------------------------------------------------------
  // The address rewrite.

  /** The `:` after a prefix without one becomes `/`, and `replace` goes on
      over the rest. */
  lemma ColonSwap(prefix: string, path: string)
    requires ':' !in prefix
    ensures Replace(prefix + ":" + path, ":", "/") == prefix + "/" + Replace(path, ":", "/")
  {
    var tail := ":" + path;
    forall i | 0 <= i < |prefix|
      ensures !MatchAt(prefix + tail, ":", i)
    {
      assert (prefix + tail)[i] == prefix[i];
    }
    assert prefix + ":" + path == prefix + tail;
    ReplaceSkipsPrefix(prefix, tail, ":", "/");
    ReplaceLeadingMatch(":", path, "/");
  }

  /** The `:` after `git@github.com` becomes `/`. */
  lemma SshAddressColon(path: string)
    ensures Replace(SshPrefix + ":" + path, ":", "/") == SshPrefix + "/" + Replace(path, ":", "/")
  {
    assert ':' !in SshPrefix by {
      assert forall j | 0 <= j < |SshPrefix| :: SshPrefix[j] != ':';
    }
    ColonSwap(SshPrefix, path);
  }

  /** No `git@` starts inside the host part `github.com/`. */
  lemma HostStartsNoScheme(path: string)
    ensures forall i | 0 <= i < |HostPath| :: !MatchAt(HostPath + path, SshUser, i)
  {
    forall i | 0 <= i < |HostPath|
      ensures !MatchAt(HostPath + path, SshUser, i)
    {
      if i == 0 {
        assert (HostPath + path)[3] == HostPath[3] != SshUser[3];
      } else {
        assert (HostPath + path)[i] == HostPath[i] != SshUser[0];
      }
    }
  }

  /** The leading `git@` becomes `https://`; the host is kept and `replace`
      goes on over the path. */
  lemma SchemeSwap(path: string)
    ensures Replace(SshUser + (HostPath + path), SshUser, HttpsScheme)
         == HttpsScheme + (HostPath + Replace(path, SshUser, HttpsScheme))
  {
    ReplaceLeadingMatch(SshUser, HostPath + path, HttpsScheme);
    HostStartsNoScheme(path);
    ReplaceSkipsPrefix(HostPath, path, SshUser, HttpsScheme);
  }

  /** The `git@` at the front of `git@github.com/<path>` becomes `https://`. */
  lemma SshAddressScheme(path: string)
    ensures Replace(SshPrefix + "/" + path, SshUser, HttpsScheme)
         == HttpsPrefix + Replace(path, SshUser, HttpsScheme)
  {
    SchemeSwap(path);
    assert SshPrefix + "/" + path == SshUser + (HostPath + path);
    assert HttpsPrefix + Replace(path, SshUser, HttpsScheme)
        == HttpsScheme + (HostPath + Replace(path, SshUser, HttpsScheme));
  }

  /** `git@github.com:<path>` becomes `https://github.com/` followed by the path
      with every `:` turned into `/` and then every `git@` into `https://`. */
  lemma SshAddressToHttps(path: string)
    ensures ToHttps(SshPrefix + ":" + path)
         == HttpsPrefix + Replace(Replace(path, ":", "/"), SshUser, HttpsScheme)
  {
    assert StartsWith(SshPrefix + ":" + path, SshPrefix);
    SshAddressColon(path);
    SshAddressScheme(Replace(path, ":", "/"));
  }

  /** Without an `@` in the path, every `:` of it becomes `/` and every other
      character is kept in place. */
  lemma SshAddressEveryColon(path: string)
    requires '@' !in path
    ensures var r := ToHttps(SshPrefix + ":" + path);
      |r| == |HttpsPrefix| + |path| && r[..|HttpsPrefix|] == HttpsPrefix &&
      forall j | 0 <= j < |path| :: r[|HttpsPrefix| + j] == if path[j] == ':' then '/' else path[j]
  {
    SshAddressToHttps(path);
    var slashed := Replace(path, [':'], ['/']);
    ReplaceChar(path, ':', '/');
    assert ":" == [':'] && "/" == ['/'];
    assert '@' !in slashed by {
      forall j | 0 <= j < |slashed| ensures slashed[j] != '@' {
        assert slashed[j] == if path[j] == ':' then '/' else path[j];
      }
    }
    AbsentChar(slashed, SshUser, 3);
    ReplaceAbsent(slashed, SshUser, HttpsScheme);
    var r := HttpsPrefix + slashed;
    forall j | 0 <= j < |path|
      ensures r[|HttpsPrefix| + j] == if path[j] == ':' then '/' else path[j]
    {
      assert r[|HttpsPrefix| + j] == slashed[j];
    }
  }

  /** `git@github.com:<path>` becomes `https://github.com/<path>` when the path
      holds no `:` and no `git@`. */
  lemma SshAddressCleanToHttps(path: string)
    requires ':' !in path && !Contains(path, SshUser)
    ensures ToHttps(SshPrefix + ":" + path) == HttpsPrefix + path
  {
    SshAddressToHttps(path);
    AbsentChar(path, ":", 0);
    ReplaceAbsent(path, ":", "/");
    ReplaceAbsent(path, SshUser, HttpsScheme);
  }

  /** A line `<name>\t<address> <kind>` whose parts hold no tab or space has
      exactly the three expected fields. */
  lemma RemoteLineFields(name: string, address: string, kind: string)
    requires NoneOf(name, FieldSeparators) && NoneOf(address, FieldSeparators) && NoneOf(kind, FieldSeparators)
    ensures RemoteFields(name + "\t" + address + " " + kind) == [name, address, kind]
  {
    assert name + "\t" + address + " " + kind == name + ['\t'] + (address + [' '] + kind);
    SplitAnyAppend(name, '\t', address + [' '] + kind, FieldSeparators);
    SplitAnyAppend(address, ' ', kind, FieldSeparators);
    SplitAnyNone(name, FieldSeparators);
    SplitAnyNone(address, FieldSeparators);
    SplitAnyNone(kind, FieldSeparators);
  }

  /** Two separators in a row give an empty field: `<name>\t\t<address> <kind>`
      has four fields. */
  lemma DoubledTabFields(name: string, address: string, kind: string)
    requires NoneOf(name, FieldSeparators) && NoneOf(address, FieldSeparators) && NoneOf(kind, FieldSeparators)
    ensures RemoteFields(name + "\t\t" + address + " " + kind) == [name, [], address, kind]
  {
    var rest := address + " " + kind;
    assert name + "\t\t" + address + " " + kind == name + ['\t'] + ([] + ['\t'] + rest);
    SplitAnyAppend(name, '\t', [] + ['\t'] + rest, FieldSeparators);
    SplitAnyAppend([], '\t', rest, FieldSeparators);
    RemoteLineFields([], address, kind);
    assert RemoteFields(rest) == [address, kind] by {
      SplitAnyAppend(address, ' ', kind, FieldSeparators);
      SplitAnyNone(address, FieldSeparators);
      SplitAnyNone(kind, FieldSeparators);
    }
    SplitAnyNone(name, FieldSeparators);
  }

  // ---------------------------------------------------------------------------
  // Listings of one remote line.

  /** Characters that no field of a remote line holds. */
  const LineBreaks: set<char> := FieldSeparators + {'\n'}

  /** A listing of one line ending in a newline holds that line and an empty one. */
  lemma OneLineListing(line: string)
    requires NoneOf(line, {'\n'})
    ensures SplitAny(line + "\n", {'\n'}) == [line, []]
  {
    assert line + "\n" == line + ['\n'] + [];
    SplitAnyAppend(line, '\n', [], {'\n'});
    SplitAnyNone(line, {'\n'});
  }

  /** A one-line listing resolves to what its line contributes. */
  lemma ResolveOneLine(line: string)
    requires NoneOf(line, {'\n'}) && IsGithubLine(line)
    ensures Resolve(true, line + "\n") == UrlOfLine(line)
  {
    OneLineListing(line);
    var lines := SplitAny(line + "\n", {'\n'});
    assert !IsGithubLine([]) by {
      assert !MatchAt([], GithubHost, 0);
    }
    assert lines[1..] == [[]] && lines[1..][1..] == [];
    if UrlOfLine(line).Ok? {
      assert ScanRemotes(lines, []) == ScanRemotes([[]], UrlOfLine(line).value);
    }
  }

  /** `<name><sep><address> <kind>` with fields free of separators and line
      breaks mentions github.com when the address does, and is one line. */
  lemma RemoteLineShape(name: string, sep: string, address: string, kind: string)
    requires NoneOf(name, LineBreaks) && NoneOf(address, LineBreaks) && NoneOf(kind, LineBreaks)
    requires sep == "\t" || sep == "\t\t"
    requires IsGithubLine(address)
    ensures IsGithubLine(name + sep + address + " " + kind)
    ensures NoneOf(name + sep + address + " " + kind, {'\n'})
  {
    ContainsInside(name + sep, address, " " + kind, GithubHost);
    assert name + sep + address + " " + kind == name + sep + address + (" " + kind);
    assert NoneOf(sep, {'\n'}) && NoneOf(" ", {'\n'});
    NoneOfConcat(name, sep, {'\n'});
    NoneOfConcat(name + sep, address, {'\n'});
    NoneOfConcat(name + sep + address, " ", {'\n'});
    NoneOfConcat(name + sep + address + " ", kind, {'\n'});
  }

  /** A listing whose only line is `<name>\t<address> <kind>` resolves to the
      repository URL of the address. */
  lemma SingleRemoteLine(name: string, address: string, kind: string)
    requires NoneOf(name, LineBreaks) && NoneOf(address, LineBreaks) && NoneOf(kind, LineBreaks)
    requires IsGithubLine(address)
    ensures Resolve(true, name + "\t" + address + " " + kind + "\n") == Ok(RepoUrl(address))
  {
    RemoteLineShape(name, "\t", address, kind);
    RemoteLineFields(name, address, kind);
    ResolveOneLine(name + "\t" + address + " " + kind);
  }

  /** A listing whose only line is `<name>\t\t<address> <kind>` is rejected: the
      doubled tab makes a fourth, empty field. */
  lemma DoubleTabRejected(name: string, address: string, kind: string)
    requires NoneOf(name, LineBreaks) && NoneOf(address, LineBreaks) && NoneOf(kind, LineBreaks)
    requires IsGithubLine(address)
    ensures Resolve(true, name + "\t\t" + address + " " + kind + "\n") == Err(InvalidRemoteUrl)
  {
    RemoteLineShape(name, "\t\t", address, kind);
    DoubledTabFields(name, address, kind);
    ResolveOneLine(name + "\t\t" + address + " " + kind);
  }

  /** The SSH address `git@github.com:<path>` names github.com. */
  lemma SshAddressIsGithub(tail: string)
    ensures IsGithubLine(SshPrefix + ":" + tail)
  {
    MatchInMiddle("git@", GithubHost, ":" + tail);
    assert "git@" + GithubHost + (":" + tail) == SshPrefix + ":" + tail;
  }

  /** The HTTPS address `https://github.com/<path>` names github.com. */
  lemma HttpsAddressIsGithub(tail: string)
    ensures IsGithubLine(HttpsPrefix + tail)
  {
    MatchInMiddle("https://", GithubHost, "/" + tail);
    assert "https://" + GithubHost + ("/" + tail) == HttpsPrefix + tail;
  }

  /** An address made of pieces free of separators is free of them. */
  lemma AddressFree(prefix: string, path: string)
    requires NoneOf(prefix, LineBreaks) && NoneOf(path, LineBreaks)
    ensures NoneOf(prefix + path + GitSuffix, LineBreaks)
  {
    assert NoneOf(GitSuffix, LineBreaks);
    NoneOfConcat(prefix, path, LineBreaks);
    NoneOfConcat(prefix + path, GitSuffix, LineBreaks);
  }

  /** `git@github.com:<path>.git` has the repository URL `https://github.com/<path>`. */
  lemma SshAddressRepoUrl(path: string)
    requires NoneOf(path, {':', '@'})
    ensures RepoUrl(SshPrefix + ":" + path + GitSuffix) == HttpsPrefix + path
  {
    var tail := path + GitSuffix;
    assert NoneOf(GitSuffix, {':', '@'});
    NoneOfConcat(path, GitSuffix, {':', '@'});
    assert ':' !in tail && '@' !in tail;
    AbsentChar(tail, SshUser, 3);
    SshAddressCleanToHttps(tail);
    assert SshPrefix + ":" + path + GitSuffix == SshPrefix + ":" + tail;
    StripGitSuffixOnce(HttpsPrefix + tail, HttpsPrefix + path);
  }

  /** The SSH prefix `git@github.com:` and the HTTPS prefix
      `https://github.com/` hold no tab, space or newline. */
  lemma PrefixesFree()
    ensures NoneOf(SshPrefix + ":", LineBreaks) && NoneOf(HttpsPrefix, LineBreaks)
  {
  }

  /** The SSH form of a remote resolves to its HTTPS URL without `.git`. */
  lemma SshRemoteListing(name: string, path: string, kind: string)
    requires NoneOf(name, LineBreaks) && NoneOf(kind, LineBreaks)
    requires NoneOf(path, LineBreaks + {':', '@'})
    ensures var address := SshPrefix + ":" + path + GitSuffix;
      Resolve(true, name + "\t" + address + " " + kind + "\n") == Ok(HttpsPrefix + path)
  {
    var address := SshPrefix + ":" + path + GitSuffix;
    SshAddressIsGithub(path + GitSuffix);
    assert address == SshPrefix + ":" + (path + GitSuffix);
    NoneOfFewer(path, LineBreaks + {':', '@'}, LineBreaks);
    NoneOfFewer(path, LineBreaks + {':', '@'}, {':', '@'});
    PrefixesFree();
    AddressFree(SshPrefix + ":", path);
    SshAddressRepoUrl(path);
    SingleRemoteLine(name, address, kind);
  }

  /** The HTTPS form of a remote only loses its `.git`. */
  lemma HttpsRemoteListing(name: string, path: string, kind: string)
    requires NoneOf(name, LineBreaks) && NoneOf(kind, LineBreaks) && NoneOf(path, LineBreaks)
    ensures var address := HttpsPrefix + path + GitSuffix;
      Resolve(true, name + "\t" + address + " " + kind + "\n") == Ok(HttpsPrefix + path)
  {
    var address := HttpsPrefix + path + GitSuffix;
    HttpsAddressIsGithub(path + GitSuffix);
    assert address == HttpsPrefix + (path + GitSuffix);
    assert !StartsWith(address, SshPrefix) by {
      assert address[0] == 'h';
    }
    StripGitSuffixOnce(address, HttpsPrefix + path);
    PrefixesFree();
    AddressFree(HttpsPrefix, path);
    SingleRemoteLine(name, address, kind);
  }
}
