/** The file name under which `upload` sends one generated Markdown file: the
    package name, followed by `+<module>.md` for every backtick-separated token
    of the file's first `# Module` line that contains `::`, the text before the
    first backtick and after the last one included. */
module ModuleName {
  import opened Outcomes
  import opened RustStr

  const ModuleHeading: string := "# Module"
  const PathSeparator: string := "::"
  const Backtick: char := '`'

  predicate IsHeading(line: string)
  {
    StartsWith(line, ModuleHeading)
  }

  /** The index of the first heading line, if there is one. */
  function FirstHeading(lines: seq<string>): (r: Option<nat>)
    ensures r.Some? ==> r.value < |lines|
    decreases |lines|
  {
    if lines == [] then None
    else if IsHeading(lines[0]) then Some(0)
    else match FirstHeading(lines[1..])
      case None => None
      case Some(k) => Some(k + 1)
  }

  /** `FirstHeading` finds line `k` exactly when line `k` is a heading and no
      line before it is. */
  lemma {:induction false} FirstHeadingIs(lines: seq<string>, k: int)
    ensures FirstHeading(lines) == Some(k) <==>
      0 <= k < |lines| && IsHeading(lines[k]) && forall j | 0 <= j < k :: !IsHeading(lines[j])
    decreases |lines|
  {
    if lines != [] && k > 0 {
      FirstHeadingIs(lines[1..], k - 1);
      if 0 <= k < |lines| && IsHeading(lines[k]) && forall j | 0 <= j < k :: !IsHeading(lines[j]) {
        assert !IsHeading(lines[0]);
        assert lines[1..][k - 1] == lines[k];
        forall j | 0 <= j < k - 1
          ensures !IsHeading(lines[1..][j])
        {
          assert lines[1..][j] == lines[j + 1];
        }
      }
      if FirstHeading(lines) == Some(k) {
        forall j | 0 <= j < k
          ensures !IsHeading(lines[j])
        {
          if j > 0 {
            assert lines[j] == lines[1..][j - 1];
          }
        }
      }
    }
  }

  /** `FirstHeading` finds nothing exactly when no line is a heading. */
  lemma {:induction false} FirstHeadingNone(lines: seq<string>)
    ensures FirstHeading(lines) == None <==> forall j | 0 <= j < |lines| :: !IsHeading(lines[j])
    decreases |lines|
  {
    if lines != [] {
      FirstHeadingNone(lines[1..]);
      if forall j | 0 <= j < |lines| :: !IsHeading(lines[j]) {
        forall j | 0 <= j < |lines[1..]|
          ensures !IsHeading(lines[1..][j])
        {
          assert lines[1..][j] == lines[j + 1];
        }
      }
      if FirstHeading(lines) == None {
        forall j | 0 <= j < |lines|
          ensures !IsHeading(lines[j])
        {
          if j > 0 {
            assert lines[j] == lines[1..][j - 1];
          }
        }
      }
    }
  }

  /** The module names of the tokens that contain `::`, in token order: each is
      what follows the last `::` of its token. */
  function ModuleNames(tokens: seq<string>): (names: seq<string>)
    ensures |names| <= |tokens|
    decreases |tokens|
  {
    if tokens == [] then []
    else
      var init := ModuleNames(tokens[..|tokens| - 1]);
      var last := tokens[|tokens| - 1];
      if Contains(last, PathSeparator) then init + [LastSegment(last, PathSeparator)]
      else init
  }

  /** No module name contains `::`: each is a whole last segment. */
  lemma {:induction false} ModuleNamesHaveNoSeparator(tokens: seq<string>)
    ensures forall i | 0 <= i < |ModuleNames(tokens)| :: !Contains(ModuleNames(tokens)[i], PathSeparator)
    decreases |tokens|
  {
    if tokens != [] {
      ModuleNamesHaveNoSeparator(tokens[..|tokens| - 1]);
      LastSegmentHasNoMatch(tokens[|tokens| - 1], PathSeparator);
    }
  }

  /** `+<name>.md` for every name, in order. */
  function Decorate(names: seq<string>): string
    decreases |names|
  {
    if names == [] then []
    else Decorate(names[..|names| - 1]) + "+" + names[|names| - 1] + ".md"
  }

  /** What a heading line adds to the file name. */
  function HeadingSuffix(heading: string): string
  {
    Decorate(ModuleNames(SplitAny(heading, {Backtick})))
  }

  /** The upload file name of a Markdown file with text `text`. */
  function ModuleFileName(base: string, text: string): (r: string)
    ensures StartsWith(r, base)
  {
    FileNameOfLines(base, SplitAny(text, {'\n'}))
  }

  /** The same, given the text as its lines. */
  function FileNameOfLines(base: string, lines: seq<string>): string
  {
    match FirstHeading(lines)
    case None => base
    case Some(k) => base + HeadingSuffix(lines[k])
  }

  /** Without a heading line the file name is the base. */
  lemma NoHeadingKeepsBase(base: string, text: string)
    requires forall j | 0 <= j < |SplitAny(text, {'\n'})| :: !IsHeading(SplitAny(text, {'\n'})[j])
    ensures ModuleFileName(base, text) == base
  {
    FirstHeadingNone(SplitAny(text, {'\n'}));
  }

  /** Otherwise the first heading line, and it alone, decides what is appended. */
  lemma FirstHeadingDecides(base: string, text: string, k: int)
    requires 0 <= k < |SplitAny(text, {'\n'})|
    requires IsHeading(SplitAny(text, {'\n'})[k])
    requires forall j | 0 <= j < k :: !IsHeading(SplitAny(text, {'\n'})[j])
    ensures ModuleFileName(base, text) == base + HeadingSuffix(SplitAny(text, {'\n'})[k])
  {
    FirstHeadingIs(SplitAny(text, {'\n'}), k);
  }

  /** `read_file_and_module_name`: appends to `filename` for the first heading
      line only, and hands back the file's text unchanged. */
  method ReadFileAndModuleName(filename: string, mdFile: string) returns (filenameOut: string, contents: string)
    ensures filenameOut == ModuleFileName(filename, mdFile)
    ensures contents == mdFile
  {
    filenameOut := filename;
    var lines := SplitAny(mdFile, {'\n'});
    var i := 0;
    while i < |lines|
      invariant 0 <= i <= |lines|
      invariant forall j | 0 <= j < i :: !IsHeading(lines[j])
      invariant filenameOut == filename
    {
      if StartsWith(lines[i], ModuleHeading) {
        filenameOut := AppendModuleNames(filenameOut, lines[i]);
        FirstHeadingIs(lines, i);
        break;
      }
      i := i + 1;
    }
    if i == |lines| {
      FirstHeadingNone(lines);
    }
    contents := mdFile;
  }

  /** The loop over the backtick tokens of a heading line: `+<name>.md` is pushed
      for every token that holds `::`. */
  method AppendModuleNames(filename: string, line: string) returns (filenameOut: string)
    ensures filenameOut == filename + HeadingSuffix(line)
  {
    filenameOut := filename;
    var tokens := SplitAny(line, {Backtick});
    var t := 0;
    while t < |tokens|
      invariant 0 <= t <= |tokens|
      invariant filenameOut == filename + Decorate(ModuleNames(tokens[..t]))
    {
      var token := tokens[t];
      assert tokens[..t + 1][..t] == tokens[..t];
      if Contains(token, PathSeparator) {
        var moduleName := LastSegment(token, PathSeparator);
        ghost var names := ModuleNames(tokens[..t]);
        assert ModuleNames(tokens[..t + 1]) == names + [moduleName];
        assert (names + [moduleName])[..|names|] == names;
        filenameOut := filenameOut + "+";
        filenameOut := filenameOut + moduleName;
        filenameOut := filenameOut + ".md";
      }
      t := t + 1;
    }
    assert tokens[..t] == tokens;
  }

  // ---------------------------------------------------------------------------
  // Only the first heading counts.

  /** Lines after the first heading do not change where it is. */
  lemma {:induction false} FirstHeadingAppend(lines: seq<string>, more: seq<string>)
    requires FirstHeading(lines).Some?
    ensures FirstHeading(lines + more) == FirstHeading(lines)
    decreases |lines|
  {
    var all := lines + more;
    assert all[0] == lines[0];
    if !IsHeading(lines[0]) {
      assert all[1..] == lines[1..] + more;
      FirstHeadingAppend(lines[1..], more);
    }
  }

  /** Whatever follows a text that already holds a heading, later lines
      (including later headings) leave the file name as it was. */
  lemma LaterLinesIgnored(base: string, text: string, later: string)
    requires FirstHeading(SplitAny(text, {'\n'})).Some?
    ensures ModuleFileName(base, text + "\n" + later) == ModuleFileName(base, text)
  {
    var lines := SplitAny(text, {'\n'});
    var more := SplitAny(later, {'\n'});
    assert text + "\n" + later == text + ['\n'] + later;
    SplitAnyAppend(text, '\n', later, {'\n'});
    LaterLinesIgnoredOfLines(base, lines, more);
  }

  lemma LaterLinesIgnoredOfLines(base: string, lines: seq<string>, more: seq<string>)
    requires FirstHeading(lines).Some?
    ensures FileNameOfLines(base, lines + more) == FileNameOfLines(base, lines)
  {
    FirstHeadingAppend(lines, more);
    var k := FirstHeading(lines).value;
    assert (lines + more)[k] == lines[k];
  }

  /** The suffix of a list of names is the suffixes of its parts, one after
      the other. */
  lemma {:induction false} DecorateAppend(names: seq<string>, more: seq<string>)
    ensures Decorate(names + more) == Decorate(names) + Decorate(more)
    decreases |more|
  {
    if more == [] {
      assert names + more == names;
    } else {
      var all := names + more;
      var init, last := more[..|more| - 1], more[|more| - 1];
      assert all[..|all| - 1] == names + init && all[|all| - 1] == last;
      DecorateAppend(names, init);
      calc {
        Decorate(all);
        Decorate(names + init) + "+" + last + ".md";
        Decorate(names) + Decorate(init) + "+" + last + ".md";
        Decorate(names) + (Decorate(init) + "+" + last + ".md");
      }
    }
  }

  /** The names come from the tokens holding `::`, one each, and each is the
      text after a `::` at the end of its token. */
  lemma {:induction false} ModuleNamesOfTokens(tokens: seq<string>, more: seq<string>)
    ensures ModuleNames(tokens + more) == ModuleNames(tokens) + ModuleNames(more)
    decreases |more|
  {
    if more == [] {
      assert tokens + more == tokens;
    } else {
      var all := tokens + more;
      assert all[..|all| - 1] == tokens + more[..|more| - 1];
      assert all[|all| - 1] == more[|more| - 1];
      ModuleNamesOfTokens(tokens, more[..|more| - 1]);
    }
  }

  /** A single token contributes its last path segment when it holds `::`, and
      nothing otherwise. */
  lemma ModuleNameOfToken(token: string)
    ensures Contains(token, PathSeparator) ==> ModuleNames([token]) == [LastSegment(token, PathSeparator)]
    ensures !Contains(token, PathSeparator) ==> ModuleNames([token]) == []
  {
    assert [token][..0] == [];
  }

  // ---------------------------------------------------------------------------
  // Headings of the usual shape.

  /** A heading `<lead>`<path>`` splits on backticks into the lead, the path
      and an empty token. */
  lemma HeadingTokens(lead: string, path: string)
    requires NoneOf(lead, {Backtick}) && NoneOf(path, {Backtick})
    ensures SplitAny(lead + [Backtick] + path + [Backtick], {Backtick}) == [lead, path, []]
  {
    assert lead + [Backtick] + path + [Backtick] == lead + [Backtick] + (path + [Backtick] + []);
    SplitAnyAppend(lead, Backtick, path + [Backtick] + [], {Backtick});
    SplitAnyAppend(path, Backtick, [], {Backtick});
    SplitAnyNone(lead, {Backtick});
    SplitAnyNone(path, {Backtick});
  }

  /** The path `<prefix>::<name>` holds `::`, and its last segment is `name`
      when neither part holds a `:`. */
  lemma PathLastSegment(prefix: string, name: string)
    requires ':' !in prefix && ':' !in name
    ensures Contains(prefix + PathSeparator + name, PathSeparator)
    ensures LastSegment(prefix + PathSeparator + name, PathSeparator) == name
  {
    var path := prefix + PathSeparator + name;
    MatchInMiddle(prefix, PathSeparator, name);
    forall i | 0 <= i < |prefix|
      ensures !MatchAt(path, PathSeparator, i)
    {
      assert path[i] == prefix[i];
    }
    AbsentChar(name, PathSeparator, 0);
    LastSegmentOf(prefix, PathSeparator, name);
  }

  /** The tokens of such a heading give the single module name `name`. */
  lemma PathModuleNames(lead: string, prefix: string, name: string)
    requires ':' !in lead && ':' !in prefix && ':' !in name
    ensures ModuleNames([lead, prefix + PathSeparator + name, []]) == [name]
  {
    var path := prefix + PathSeparator + name;
    AbsentChar(lead, PathSeparator, 0);
    AbsentChar([], PathSeparator, 0);
    PathLastSegment(prefix, name);
    ModuleNameOfToken(lead);
    ModuleNameOfToken(path);
    ModuleNameOfToken([]);
    assert [lead, path, []] == [lead] + [path] + [[]];
    ModuleNamesOfTokens([lead] + [path], [[]]);
    ModuleNamesOfTokens([lead], [path]);
  }

  /** Matches of `::` are taken from the left without overlap, so in a token
      with three colons in a row (`m:::coin`) the module name keeps the third
      one (`:coin`). */
  lemma TripleColonToken(a: string, b: string)
    requires ':' !in a && ':' !in b
    ensures ModuleNames([a + PathSeparator + ":" + b]) == [":" + b]
  {
    var rest := ":" + b;
    var token := a + PathSeparator + rest;
    assert a + PathSeparator + ":" + b == token;
    MatchInMiddle(a, PathSeparator, rest);
    forall i | 0 <= i < |a|
      ensures !MatchAt(token, PathSeparator, i)
    {
      assert token[i] == a[i];
    }
    assert !Contains(rest, PathSeparator) by {
      forall i | 0 <= i <= |rest|
        ensures !MatchAt(rest, PathSeparator, i)
      {
        if 0 <= i < |rest| - 1 {
          assert rest[i + 1] == b[i];
        }
      }
    }
    LastSegmentOf(a, PathSeparator, rest);
    ModuleNameOfToken(token);
  }

  lemma DecorateOne(name: string)
    ensures Decorate([name]) == "+" + name + ".md"
  {
    assert [name][..0] == [];
  }

  /** A heading `# Module ...`<prefix>::<name>`` adds `+<name>.md`. */
  lemma HeadingNamesModule(lead: string, prefix: string, name: string)
    requires IsHeading(lead)
    requires NoneOf(lead, {Backtick, ':'}) && NoneOf(prefix, {Backtick, ':'}) && NoneOf(name, {Backtick, ':'})
    ensures var heading := lead + [Backtick] + prefix + PathSeparator + name + [Backtick];
      IsHeading(heading) && HeadingSuffix(heading) == "+" + name + ".md"
  {
    var path := prefix + PathSeparator + name;
    var heading := lead + [Backtick] + prefix + PathSeparator + name + [Backtick];
    assert heading == lead + [Backtick] + path + [Backtick];
    assert ModuleHeading <= lead <= heading;
    assert NoneOf(PathSeparator, {Backtick});
    NoneOfConcat(prefix, PathSeparator, {Backtick});
    NoneOfConcat(prefix + PathSeparator, name, {Backtick});
    HeadingTokens(lead, path);
    assert ':' !in lead by {
      assert forall j | 0 <= j < |lead| :: lead[j] != ':';
    }
    assert ':' !in prefix by {
      assert forall j | 0 <= j < |prefix| :: prefix[j] != ':';
    }
    assert ':' !in name by {
      assert forall j | 0 <= j < |name| :: name[j] != ':';
    }
    PathModuleNames(lead, prefix, name);
    DecorateOne(name);
  }

  /** Backticks are not needed: a heading `# Module <prefix>::<name>` without
      any also adds `+<name>.md`, because the whole line is one token. */
  lemma UnquotedHeadingNamesModule(lead: string, name: string)
    requires IsHeading(lead)
    requires NoneOf(lead, {Backtick, ':'}) && NoneOf(name, {Backtick, ':'})
    ensures var heading := lead + PathSeparator + name;
      IsHeading(heading) && HeadingSuffix(heading) == "+" + name + ".md"
  {
    var heading := lead + PathSeparator + name;
    assert ModuleHeading <= lead <= heading;
    assert NoneOf(PathSeparator, {Backtick});
    NoneOfFewer(lead, {Backtick, ':'}, {Backtick});
    NoneOfFewer(name, {Backtick, ':'}, {Backtick});
    NoneOfConcat(lead, PathSeparator, {Backtick});
    NoneOfConcat(lead + PathSeparator, name, {Backtick});
    SplitAnyNone(heading, {Backtick});
    assert ':' !in lead by {
      assert forall j | 0 <= j < |lead| :: lead[j] != ':';
    }
    assert ':' !in name by {
      assert forall j | 0 <= j < |name| :: name[j] != ':';
    }
    PathLastSegment(lead, name);
    ModuleNameOfToken(heading);
    DecorateOne(name);
  }
}
