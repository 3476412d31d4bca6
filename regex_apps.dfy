/**
 * Handlers chosen by regular expression (src/apps/regex.rs): the handlers of
 * the configuration file whose pattern sets compile, tried in order against
 * the text of the path or URL to open.
 *
 * The regex engine is two oracles: `compiles` says whether `RegexSet::new`
 * accepts a pattern list, `matches` whether a compiled set matches a text.
 */
module RegexApps {
  import opened Wrappers
  import opened Errors
  import opened Strings
  import opened DesktopEntries

  /** A handler as the configuration file lists it. */
  datatype ConfigHandler = ConfigHandler(exec: string, terminal: bool, regexes: seq<string>)

  /**
   * `HandlerRegexSet`: a compiled set. As a datatype value it is equal to another
   * one exactly when their pattern lists are, which is the source's `PartialEq`.
   */
  datatype RegexSet = RegexSet(patterns: seq<string>)

  datatype RegexHandler = RegexHandler(exec: string, terminal: bool, regexes: RegexSet)


  /** compile_regex: exec and terminal copied, the pattern list compiled or the error returned. */
  function CompileRegex(h: ConfigHandler, compiles: seq<string> -> bool): (r: Result<RegexHandler, Error>)
    ensures r.Ok? <==> compiles(h.regexes)
    ensures r.Ok? ==> r.value.exec == h.exec && r.value.terminal == h.terminal && r.value.regexes.patterns == h.regexes
    ensures r.Err? ==> r.error == BadRegex
  {
    if compiles(h.regexes) then Ok(RegexHandler(h.exec, h.terminal, RegexSet(h.regexes))) else Err(BadRegex)
  }

  /** populate: `filter_map` over the configured handlers, dropping those that do not compile. */
  function Populate(handlers: seq<ConfigHandler>, compiles: seq<string> -> bool): (r: seq<RegexHandler>)
    ensures |r| <= |handlers|
    ensures forall i | 0 <= i < |r| :: exists j | 0 <= j < |handlers| :: CompileRegex(handlers[j], compiles) == Ok(r[i])
  {
    if |handlers| == 0 then []
    else
      var rest := Populate(handlers[1..], compiles);
      assert forall i | 0 <= i < |rest| :: exists j | 0 <= j < |handlers| :: CompileRegex(handlers[j], compiles) == Ok(rest[i]) by {
        forall i | 0 <= i < |rest|
          ensures exists j | 0 <= j < |handlers| :: CompileRegex(handlers[j], compiles) == Ok(rest[i])
        {
          var j :| 0 <= j < |handlers[1..]| && CompileRegex(handlers[1..][j], compiles) == Ok(rest[i]);
          assert handlers[1..][j] == handlers[j + 1];
        }
      }
      match CompileRegex(handlers[0], compiles)
      case Ok(compiled) => [compiled] + rest
      case Err(_) => rest
  }

  /** The handlers whose pattern list compiles. */
  function Compiling(compiles: seq<string> -> bool): ConfigHandler -> bool
  {
    (h: ConfigHandler) => compiles(h.regexes)
  }

  function ToRegexHandler(h: ConfigHandler): RegexHandler
  {
    RegexHandler(h.exec, h.terminal, RegexSet(h.regexes))
  }

  /** Each handler turned into its compiled form, in order. */
  function CompileAll(handlers: seq<ConfigHandler>): (r: seq<RegexHandler>)
    ensures |r| == |handlers| && forall i | 0 <= i < |r| :: r[i] == ToRegexHandler(handlers[i])
  {
    seq(|handlers|, i requires 0 <= i < |handlers| => ToRegexHandler(handlers[i]))
  }

  /** populate keeps exactly the compiling handlers, in configuration order. */
  lemma {:induction false} PopulateIsFilter(handlers: seq<ConfigHandler>, compiles: seq<string> -> bool)
    ensures Populate(handlers, compiles) == CompileAll(Filter(handlers, Compiling(compiles)))
  {
    if |handlers| > 0 {
      PopulateIsFilter(handlers[1..], compiles);
      var rest := Filter(handlers[1..], Compiling(compiles));
      if compiles(handlers[0].regexes) {
        assert Filter(handlers, Compiling(compiles)) == [handlers[0]] + rest;
        assert CompileAll([handlers[0]] + rest) == [ToRegexHandler(handlers[0])] + CompileAll(rest);
      } else {
        assert Filter(handlers, Compiling(compiles)) == rest;
      }
    }
  }

  /** When every pattern list compiles, nothing is dropped. */
  lemma PopulateAllCompile(handlers: seq<ConfigHandler>, compiles: seq<string> -> bool)
    requires forall i | 0 <= i < |handlers| :: compiles(handlers[i].regexes)
    ensures Populate(handlers, compiles) == CompileAll(handlers)
  {
    PopulateIsFilter(handlers, compiles);
    FilterAllKept(handlers, Compiling(compiles));
  }

  /** get_handler: the first handler in list order whose set matches the text. */
  function GetHandler(apps: seq<RegexHandler>, text: string, matches: (seq<string>, string) -> bool)
    : (r: Option<RegexHandler>)
    ensures r.Some? <==> exists i | 0 <= i < |apps| :: matches(apps[i].regexes.patterns, text)
    ensures r.Some? ==> exists i | 0 <= i < |apps| ::
                          && apps[i] == r.value
                          && matches(apps[i].regexes.patterns, text)
                          && forall j | 0 <= j < i :: !matches(apps[j].regexes.patterns, text)
  {
    if |apps| == 0 then None
    else if matches(apps[0].regexes.patterns, text) then Some(apps[0])
    else
      var r := GetHandler(apps[1..], text, matches);
      assert forall i | 1 <= i < |apps| :: apps[i] == apps[1..][i - 1];
      if r.Some? then
        var i :| 0 <= i < |apps[1..]| && apps[1..][i] == r.value && matches(apps[1..][i].regexes.patterns, text)
                 && forall j | 0 <= j < i :: !matches(apps[1..][j].regexes.patterns, text);
        assert forall j | 1 <= j < i + 1 :: apps[j] == apps[1..][j - 1];
        r
      else r
  }

  /**
   * get_entry: a descriptor made up for the handler, with no name, no file
   * name and no mimes, carrying the handler's exec template and terminal flag.
   */
  function GetEntry(h: RegexHandler): DesktopEntry
  {
    DesktopEntry(name := "", exec := h.exec, fileName := "", term := h.terminal, mimes := [])
  }

  /**
   * The made-up descriptor starts the same processes as any real descriptor
   * with the same exec template and terminal flag: launching never looks at
   * the name, file name or mimes.
   */
  lemma {:induction false} EntryRunsLikeAny(h: RegexHandler, e: DesktopEntry, env: Env, batches: seq<seq<string>>)
    requires e.exec == h.exec && e.term == h.terminal
    ensures Run(GetEntry(h), env, batches) == Run(e, env, batches)
    decreases |batches|
  {
    if |batches| > 0 {
      EntryRunsLikeAny(h, e, env, batches[..|batches| - 1]);
      var last := batches[|batches| - 1];
      assert TerminalPrefix(GetEntry(h), env) == TerminalPrefix(e, env);
      assert BuildCommand(GetEntry(h), env, last) == BuildCommand(e, env, last);
    }
  }

  /** open: the made-up descriptor executed in open mode on the arguments. */
  method Open(h: RegexHandler, env: Env, args: seq<string>) returns (attempted: seq<Command>, r: Result<(), Error>)
    ensures (attempted, r) == Run(GetEntry(h), env, Batches(h.exec, Mode.Open, args))
  {
    attempted, r := Exec(GetEntry(h), env, Mode.Open, args);
  }

  /** The module's test: one handler for video links, matched by one URL and not by another. */
  lemma VideoLinkExample(compiles: seq<string> -> bool, matches: (seq<string>, string) -> bool)
    requires compiles(["(https://)?(www\\.)?youtu(be\\.com|\\.be)/*"])
    requires matches(["(https://)?(www\\.)?youtu(be\\.com|\\.be)/*"], "https://youtu.be/dQw4w9WgXcQ")
    requires !matches(["(https://)?(www\\.)?youtu(be\\.com|\\.be)/*"], "https://en.wikipedia.org/")
    ensures var h := ConfigHandler("freetube %u", false, ["(https://)?(www\\.)?youtu(be\\.com|\\.be)/*"]);
            var apps := Populate([h], compiles);
            && apps == [RegexHandler("freetube %u", false, RegexSet(h.regexes))]
            && GetHandler(apps, "https://youtu.be/dQw4w9WgXcQ", matches) == Some(apps[0])
            && GetHandler(apps, "https://en.wikipedia.org/", matches) == None
  {
    var h := ConfigHandler("freetube %u", false, ["(https://)?(www\\.)?youtu(be\\.com|\\.be)/*"]);
    assert [h][1..] == [];
  }
}
