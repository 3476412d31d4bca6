/**
 * One application descriptor (src/common/desktop_entry.rs): folding the
 * attributes of its `[Desktop Entry]` section into an entry, substituting the
 * field codes of the exec template, and splitting the caller's arguments into
 * invocations.
 *
 * The exec template and the terminal-emulator command are split into words by
 * `Env.shlex` (the source calls `shlex::split(..).unwrap()`); whether a spawn
 * succeeds is `Env.spawnOk`; whether standard output is a terminal is
 * `Env.stdoutIsTty`.
 */
module DesktopEntries {
  import opened Wrappers
  import opened Errors
  import opened Strings

  datatype DesktopEntry = DesktopEntry(
    name: string,
    exec: string,
    fileName: string,
    term: bool,
    mimes: seq<string>)

  datatype Mode = Launch | Open

  /** A process to start: the program and its argument vector. */
  datatype Command = Command(program: string, args: seq<string>)

  /** What the launch code needs from the world outside the model. */
  datatype Env = Env(
    shlex: string -> seq<string>,
    terminalEmulator: string,
    stdoutIsTty: bool,
    spawnOk: Command -> bool)

  // ---------------------------------------------------------------------------
  // Field codes: the regex `%(f|F|u|U)` and its replace_all

  predicate IsCodeLetter(c: char)
  {
    c == 'f' || c == 'F' || c == 'u' || c == 'U'
  }

  /** A token that is exactly `%f`, `%F`, `%u` or `%U`. */
  predicate IsFieldCode(token: string)
  {
    |token| == 2 && token[0] == '%' && IsCodeLetter(token[1])
  }

  predicate StartsWithCode(s: string)
  {
    |s| >= 2 && s[0] == '%' && IsCodeLetter(s[1])
  }

  /** The regex matches somewhere in `s`. */
  predicate ContainsCode(s: string)
    decreases |s|
  {
    StartsWithCode(s) || (|s| > 0 && ContainsCode(s[1..]))
  }

  /** Every leftmost, non-overlapping field code of `s` replaced by `rep`. */
  function ReplaceCodes(s: string, rep: string): string
    decreases |s|
  {
    if |s| == 0 then ""
    else if StartsWithCode(s) then rep + ReplaceCodes(s[2..], rep)
    else [s[0]] + ReplaceCodes(s[1..], rep)
  }

  /** Text without a field code is left unchanged by the replacement. */
  lemma {:induction false} ReplaceWithoutCode(s: string, rep: string)
    requires !ContainsCode(s)
    ensures ReplaceCodes(s, rep) == s
  {
    if |s| > 0 {
      ReplaceWithoutCode(s[1..], rep);
      assert s == [s[0]] + s[1..];
    }
  }

  /**
   * Code-free text that does not end in `%` is copied through, and the rest of
   * the token is replaced on its own: replacement works piece by piece.
   */
  lemma {:induction false} ReplaceAfterPlainText(a: string, b: string, rep: string)
    requires !ContainsCode(a)
    requires |a| == 0 || a[|a| - 1] != '%'
    ensures ReplaceCodes(a + b, rep) == a + ReplaceCodes(b, rep)
  {
    if |a| > 0 {
      var s := a + b;
      assert s[0] == a[0] && s[1..] == a[1..] + b;
      assert !StartsWithCode(s) by {
        if |a| == 1 { assert a[0] != '%'; } else { assert !StartsWithCode(a); assert s[1] == a[1]; }
      }
      ReplaceAfterPlainText(a[1..], b, rep);
      assert a == [a[0]] + a[1..];
    } else {
      assert a + b == b;
    }
  }

  /** Every field code is also matched by the regex. */
  lemma FieldCodeMatches(token: string)
    requires IsFieldCode(token)
    ensures ContainsCode(token)
  {
  }

  // ---------------------------------------------------------------------------
  // get_cmd

  /** The words one template word turns into, given the caller's arguments. */
  function ExpandToken(token: string, args: seq<string>): seq<string>
  {
    if IsFieldCode(token) then args
    else if ContainsCode(token) then [ReplaceCodes(token, Join(args, ' '))]
    else [token]
  }

  /** The `flat_map` over the template words. */
  function Substitute(tokens: seq<string>, args: seq<string>): seq<string>
  {
    if |tokens| == 0 then [] else ExpandToken(tokens[0], args) + Substitute(tokens[1..], args)
  }

  predicate CodeFree(tokens: seq<string>)
  {
    forall i | 0 <= i < |tokens| :: !ContainsCode(tokens[i])
  }

  lemma {:induction false} SubstituteAppend(a: seq<string>, b: seq<string>, args: seq<string>)
    ensures Substitute(a + b, args) == Substitute(a, args) + Substitute(b, args)
  {
    if |a| > 0 {
      SubstituteAppend(a[1..], b, args);
      assert (a + b)[1..] == a[1..] + b;
    } else {
      assert a + b == b;
    }
  }

  /** A template without field codes ignores the arguments entirely. */
  lemma {:induction false} SubstituteCodeFree(tokens: seq<string>, args: seq<string>)
    requires CodeFree(tokens)
    ensures Substitute(tokens, args) == tokens
  {
    if |tokens| > 0 {
      assert !IsFieldCode(tokens[0]) by {
        if IsFieldCode(tokens[0]) { FieldCodeMatches(tokens[0]); }
      }
      SubstituteCodeFree(tokens[1..], args);
      assert tokens == [tokens[0]] + tokens[1..];
    }
  }

  /** A word that is exactly a field code is replaced by all arguments, spliced in place. */
  lemma SubstituteSplice(pre: seq<string>, code: string, post: seq<string>, args: seq<string>)
    requires CodeFree(pre) && CodeFree(post) && IsFieldCode(code)
    ensures Substitute(pre + [code] + post, args) == pre + args + post
  {
    SubstituteAppend(pre + [code], post, args);
    SubstituteAppend(pre, [code], args);
    SubstituteCodeFree(pre, args);
    SubstituteCodeFree(post, args);
  }

  /**
   * At the first field code of a word: the plain text before it is kept, the
   * code becomes `rep`, and the replacement carries on after the code.
   */
  lemma ReplaceAtCode(a: string, code: string, b: string, rep: string)
    requires IsFieldCode(code) && !ContainsCode(a) && (|a| == 0 || a[|a| - 1] != '%')
    ensures ReplaceCodes(a + code + b, rep) == a + rep + ReplaceCodes(b, rep)
  {
    assert a + code + b == a + (code + b);
    ReplaceAfterPlainText(a, code + b, rep);
    var s := code + b;
    assert StartsWithCode(s) && s[2..] == b;
  }

  /**
   * Any word that contains a field code without being one stays a single word,
   * rewritten by `replace_all` with the arguments joined by single spaces; the
   * code-free words around it are untouched.
   */
  lemma SubstituteEmbeddedAnywhere(pre: seq<string>, t: string, post: seq<string>, args: seq<string>)
    requires CodeFree(pre) && CodeFree(post) && ContainsCode(t) && !IsFieldCode(t)
    ensures Substitute(pre + [t] + post, args) == pre + [ReplaceCodes(t, Join(args, ' '))] + post
  {
    SubstituteAppend(pre + [t], post, args);
    SubstituteAppend(pre, [t], args);
    SubstituteCodeFree(pre, args);
    SubstituteCodeFree(post, args);
    assert Substitute([t], args) == ExpandToken(t, args) + Substitute([], args);
  }

  /** A word with one field code in code-free text matches, and only that code is replaced. */
  lemma ReplaceOneCode(a: string, code: string, b: string, rep: string)
    requires IsFieldCode(code) && !ContainsCode(a) && !ContainsCode(b)
    requires |a| == 0 || a[|a| - 1] != '%'
    ensures ContainsCode(a + code + b)
    ensures ReplaceCodes(a + code + b, rep) == a + rep + b
  {
    assert StartsWithCode(code + b);
    ContainsCodeSuffix(a, code + b);
    assert a + code + b == a + (code + b);
    ReplaceAtCode(a, code, b, rep);
    ReplaceWithoutCode(b, rep);
  }

  /**
   * A word with one embedded field code, text around it on either side, becomes
   * one word with the code replaced by the arguments joined with single spaces.
   */
  lemma SubstituteEmbedded(pre: seq<string>, a: string, code: string, b: string, post: seq<string>, args: seq<string>)
    requires CodeFree(pre) && CodeFree(post) && IsFieldCode(code)
    requires !ContainsCode(a) && !ContainsCode(b) && |a| + |b| > 0
    requires |a| == 0 || a[|a| - 1] != '%'
    ensures Substitute(pre + [a + code + b] + post, args) == pre + [a + Join(args, ' ') + b] + post
  {
    ReplaceOneCode(a, code, b, Join(args, ' '));
    SubstituteEmbeddedAnywhere(pre, a + code + b, post, args);
  }

  lemma {:induction false} ContainsCodeSuffix(a: string, b: string)
    requires ContainsCode(b)
    ensures ContainsCode(a + b)
  {
    if |a| > 0 {
      ContainsCodeSuffix(a[1..], b);
      assert (a + b)[1..] == a[1..] + b;
    } else {
      assert a + b == b;
    }
  }

  /** The words put in front when the entry wants a terminal and none is attached. */
  function TerminalPrefix(entry: DesktopEntry, env: Env): seq<string>
  {
    if entry.term && !env.stdoutIsTty then env.shlex(env.terminalEmulator) else []
  }

  /**
   * `get_cmd`: the first word of the full command line is the program, the rest
   * its arguments; an empty command line makes `remove(0)` panic.
   */
  function BuildCommand(entry: DesktopEntry, env: Env, args: seq<string>): (r: Result<Command, Error>)
    ensures r.Ok? <==> |TerminalPrefix(entry, env) + Substitute(env.shlex(entry.exec), args)| > 0
    ensures r.Ok? ==> [r.value.program] + r.value.args
                      == TerminalPrefix(entry, env) + Substitute(env.shlex(entry.exec), args)
  {
    var line := TerminalPrefix(entry, env) + Substitute(env.shlex(entry.exec), args);
    if |line| == 0 then Err(Panic("removal index (is 0) should be < len (is 0)"))
    else Ok(Command(line[0], line[1..]))
  }

  /** get_cmd, step by step as the source builds it. */
  method GetCmd(entry: DesktopEntry, env: Env, args: seq<string>) returns (r: Result<Command, Error>)
    ensures r == BuildCommand(entry, env, args)
  {
    var split := Substitute(env.shlex(entry.exec), args);
    if entry.term && !env.stdoutIsTty {
      split := env.shlex(env.terminalEmulator) + split;
    }
    assert split == TerminalPrefix(entry, env) + Substitute(env.shlex(entry.exec), args);
    if |split| == 0 {
      return Err(Panic("removal index (is 0) should be < len (is 0)"));
    }
    r := Ok(Command(split[0], split[1..]));
  }

  /** Without a terminal requirement the command line is the substituted template alone. */
  lemma CommandWithoutTerminal(entry: DesktopEntry, env: Env, args: seq<string>)
    requires !entry.term || env.stdoutIsTty
    ensures BuildCommand(entry, env, args).Ok? ==>
      [BuildCommand(entry, env, args).value.program] + BuildCommand(entry, env, args).value.args
        == Substitute(env.shlex(entry.exec), args)
  {
    assert TerminalPrefix(entry, env) == [];
  }

  /** With a terminal requirement and no terminal, the emulator's words come first. */
  lemma CommandInTerminal(entry: DesktopEntry, env: Env, args: seq<string>)
    requires entry.term && !env.stdoutIsTty && |env.shlex(env.terminalEmulator)| > 0
    ensures BuildCommand(entry, env, args).Ok?
    ensures BuildCommand(entry, env, args).value.program == env.shlex(env.terminalEmulator)[0]
    ensures env.shlex(env.terminalEmulator)[1..] <= BuildCommand(entry, env, args).value.args
  {
    var em := env.shlex(env.terminalEmulator);
    var line := em + Substitute(env.shlex(entry.exec), args);
    assert line[0] == em[0];
    assert line[1..] == em[1..] + Substitute(env.shlex(entry.exec), args);
  }

  // ---------------------------------------------------------------------------
  // exec

  predicate IsSubstring(pattern: string, s: string)
    decreases |s|
  {
    pattern <= s || (|s| > 0 && IsSubstring(pattern, s[1..]))
  }

  /** The template takes several files or URLs at once. */
  predicate SupportsMultiple(exec: string)
  {
    IsSubstring("%F", exec) || IsSubstring("%U", exec)
  }

  /** The argument lists of the successive invocations `exec` performs. */
  function Batches(exec: string, mode: Mode, arguments: seq<string>): (r: seq<seq<string>>)
    ensures |arguments| == 0 ==> r == [[]]
    ensures |arguments| > 0 && (SupportsMultiple(exec) || mode == Launch) ==> r == [arguments]
    ensures |arguments| > 0 && !SupportsMultiple(exec) && mode == Open ==>
      |r| == |arguments| && forall i | 0 <= i < |r| :: r[i] == [arguments[i]]
  {
    if |arguments| == 0 then [[]]
    else if SupportsMultiple(exec) || mode == Launch then [arguments]
    else Singles(arguments)
  }

  /** Each argument in an invocation of its own. */
  function Singles(arguments: seq<string>): (r: seq<seq<string>>)
    ensures |r| == |arguments| && forall i | 0 <= i < |r| :: r[i] == [arguments[i]]
  {
    seq(|arguments|, i requires 0 <= i < |arguments| => [arguments[i]])
  }

  /** One `exec_inner`: build the command, then spawn it. */
  function Step(entry: DesktopEntry, env: Env, args: seq<string>): (seq<Command>, Result<(), Error>)
  {
    match BuildCommand(entry, env, args)
    case Err(e) => ([], Err(e))
    case Ok(cmd) => ([cmd], if env.spawnOk(cmd) then Ok(()) else Err(Io))
  }

  /**
   * The invocations in order, the first failure abandoning the rest. The list
   * holds every command whose spawn was attempted, the failed one included.
   */
  function Run(entry: DesktopEntry, env: Env, batches: seq<seq<string>>): (seq<Command>, Result<(), Error>)
    decreases |batches|
  {
    if |batches| == 0 then ([], Ok(()))
    else
      var (attempted, r) := Run(entry, env, batches[..|batches| - 1]);
      if r.Err? then (attempted, r)
      else
        var (last, r') := Step(entry, env, batches[|batches| - 1]);
        (attempted + last, r')
  }

  predicate BatchSucceeds(entry: DesktopEntry, env: Env, args: seq<string>)
  {
    BuildCommand(entry, env, args).Ok? && env.spawnOk(BuildCommand(entry, env, args).value)
  }

  /**
   * The run succeeds exactly when every invocation can be built and spawned;
   * then one command per batch was attempted, in order.
   */
  lemma {:induction false} RunSucceeds(entry: DesktopEntry, env: Env, batches: seq<seq<string>>)
    ensures Run(entry, env, batches).1.Ok? <==> forall i | 0 <= i < |batches| :: BatchSucceeds(entry, env, batches[i])
  {
    if |batches| > 0 {
      var p, last := batches[..|batches| - 1], batches[|batches| - 1];
      RunSucceeds(entry, env, p);
      RunStepOk(entry, env, batches);
      assert forall i | 0 <= i < |p| :: p[i] == batches[i];
      assert (forall i | 0 <= i < |batches| :: BatchSucceeds(entry, env, batches[i]))
         <==> (forall i | 0 <= i < |p| :: BatchSucceeds(entry, env, p[i])) && BatchSucceeds(entry, env, last);
    }
  }

  /** The run over all batches succeeds iff the run before the last one does and the last batch does. */
  lemma RunStepOk(entry: DesktopEntry, env: Env, batches: seq<seq<string>>)
    requires |batches| > 0
    ensures Run(entry, env, batches).1.Ok?
        <==> Run(entry, env, batches[..|batches| - 1]).1.Ok? && BatchSucceeds(entry, env, batches[|batches| - 1])
  {
  }

  /** A successful run is a successful run of all but the last batch, then the last batch's command. */
  lemma RunLastOk(entry: DesktopEntry, env: Env, batches: seq<seq<string>>)
    requires |batches| > 0 && Run(entry, env, batches).1.Ok?
    ensures Run(entry, env, batches[..|batches| - 1]).1.Ok?
    ensures BuildCommand(entry, env, batches[|batches| - 1]).Ok?
    ensures Run(entry, env, batches).0
         == Run(entry, env, batches[..|batches| - 1]).0 + [BuildCommand(entry, env, batches[|batches| - 1]).value]
  {
  }

  /** `cmds` holds, in order, the command each batch builds to. */
  predicate BuiltInOrder(entry: DesktopEntry, env: Env, batches: seq<seq<string>>, cmds: seq<Command>)
  {
    |cmds| == |batches| &&
    forall i | 0 <= i < |batches| :: BuildCommand(entry, env, batches[i]) == Ok(cmds[i])
  }

  lemma BuiltInOrderSnoc(entry: DesktopEntry, env: Env, p: seq<seq<string>>, cmds: seq<Command>, last: seq<string>, c: Command)
    requires BuiltInOrder(entry, env, p, cmds) && BuildCommand(entry, env, last) == Ok(c)
    ensures BuiltInOrder(entry, env, p + [last], cmds + [c])
  {
    var b, cs := p + [last], cmds + [c];
    forall i | 0 <= i < |b|
      ensures BuildCommand(entry, env, b[i]) == Ok(cs[i])
    {
      if i < |p| {
        assert b[i] == p[i] && cs[i] == cmds[i];
      }
    }
  }

  /** A run that succeeds spawned one command per batch, in batch order. */
  lemma {:induction false} RunCommands(entry: DesktopEntry, env: Env, batches: seq<seq<string>>)
    requires Run(entry, env, batches).1.Ok?
    ensures BuiltInOrder(entry, env, batches, Run(entry, env, batches).0)
  {
    if |batches| > 0 {
      var p := batches[..|batches| - 1];
      var last := batches[|batches| - 1];
      RunLastOk(entry, env, batches);
      RunCommands(entry, env, p);
      BuiltInOrderSnoc(entry, env, p, Run(entry, env, p).0, last, BuildCommand(entry, env, last).value);
      assert p + [last] == batches;
    }
  }

  /** A failing invocation is the last one attempted: nothing after it is tried. */
  lemma {:induction false} RunStopsAtFailure(entry: DesktopEntry, env: Env, batches: seq<seq<string>>, k: nat)
    requires k < |batches| && !BatchSucceeds(entry, env, batches[k])
    ensures Run(entry, env, batches).1.Err?
    ensures |Run(entry, env, batches).0| <= k + 1
  {
    var p := batches[..|batches| - 1];
    if k < |batches| - 1 {
      assert p[k] == batches[k];
      RunStopsAtFailure(entry, env, p, k);
    } else {
      RunLength(entry, env, p);
    }
  }

  lemma {:induction false} RunLength(entry: DesktopEntry, env: Env, batches: seq<seq<string>>)
    ensures |Run(entry, env, batches).0| <= |batches|
  {
    if |batches| > 0 {
      RunLength(entry, env, batches[..|batches| - 1]);
    }
  }

  /** exec_inner */
  method ExecInner(entry: DesktopEntry, env: Env, args: seq<string>) returns (attempted: seq<Command>, r: Result<(), Error>)
    ensures (attempted, r) == Step(entry, env, args)
  {
    var cmd := GetCmd(entry, env, args);
    if cmd.Err? {
      return [], Err(cmd.error);
    }
    attempted := [cmd.value];
    if env.spawnOk(cmd.value) {
      r := Ok(());
    } else {
      r := Err(Io);
    }
  }

  /** exec: one invocation, or one per argument, aborting at the first failure. */
  method Exec(entry: DesktopEntry, env: Env, mode: Mode, arguments: seq<string>)
    returns (attempted: seq<Command>, r: Result<(), Error>)
    ensures (attempted, r) == Run(entry, env, Batches(entry.exec, mode, arguments))
  {
    if |arguments| == 0 {
      attempted, r := ExecInner(entry, env, []);
      SingleBatch(entry, env, []);
    } else if SupportsMultiple(entry.exec) || mode == Launch {
      attempted, r := ExecInner(entry, env, arguments);
      SingleBatch(entry, env, arguments);
    } else {
      attempted, r := ExecEach(entry, env, arguments);
    }
  }

  /** The `for arg in arguments` loop: one invocation per argument, `?` stopping at the first error. */
  method ExecEach(entry: DesktopEntry, env: Env, arguments: seq<string>)
    returns (attempted: seq<Command>, r: Result<(), Error>)
    ensures (attempted, r) == Run(entry, env, Singles(arguments))
  {
    var batches := Singles(arguments);
    attempted, r := [], Ok(());
    var i := 0;
    while i < |arguments|
      invariant 0 <= i <= |arguments|
      invariant (attempted, r) == Run(entry, env, batches[..i])
      invariant r.Ok?
    {
      var more, ri := ExecInner(entry, env, [arguments[i]]);
      assert batches[..i + 1][..i] == batches[..i];
      attempted, r := attempted + more, ri;
      if r.Err? {
        assert (attempted, r) == Run(entry, env, batches[..i + 1]);
        RunAbandonsRest(entry, env, batches, i + 1);
        return;
      }
      i := i + 1;
    }
    assert batches[..i] == batches;
  }

  lemma SingleBatch(entry: DesktopEntry, env: Env, args: seq<string>)
    ensures Run(entry, env, [args]) == Step(entry, env, args)
  {
    assert [args][..0] == [];
    var (last, r) := Step(entry, env, args);
    assert [] + last == last;
  }

  /** Once a prefix of the run has failed, the remaining batches change nothing. */
  lemma {:induction false} RunAbandonsRest(entry: DesktopEntry, env: Env, batches: seq<seq<string>>, k: nat)
    requires k <= |batches| && Run(entry, env, batches[..k]).1.Err?
    ensures Run(entry, env, batches) == Run(entry, env, batches[..k])
    decreases |batches| - k
  {
    if k < |batches| {
      var p := batches[..|batches| - 1];
      assert p[..k] == batches[..k];
      RunAbandonsRest(entry, env, p, k);
    } else {
      assert batches[..k] == batches;
    }
  }

  /**
   * A single-file template opened with several arguments starts the program
   * once per argument, each with that argument alone.
   */
  lemma OpenOnePerArgument(entry: DesktopEntry, env: Env, arguments: seq<string>)
    requires |arguments| > 0 && !SupportsMultiple(entry.exec)
    requires forall i | 0 <= i < |arguments| :: BatchSucceeds(entry, env, [arguments[i]])
    ensures Run(entry, env, Batches(entry.exec, Open, arguments)).1.Ok?
    ensures |Run(entry, env, Batches(entry.exec, Open, arguments)).0| == |arguments|
    ensures forall i | 0 <= i < |arguments| ::
      Run(entry, env, Batches(entry.exec, Open, arguments)).0[i] == BuildCommand(entry, env, [arguments[i]]).value
  {
    RunSucceeds(entry, env, Batches(entry.exec, Open, arguments));
    RunCommands(entry, env, Batches(entry.exec, Open, arguments));
  }

  // ---------------------------------------------------------------------------
  // parse_file

  /** One attribute of the `[Desktop Entry]` section; `value` is absent for a bare key. */
  datatype Attr = Attr(name: string, value: Option<string>)

  /** The `MimeType` value: the parseable pieces, the last of them popped. */
  function ParseMimeList(value: string, parseMime: string -> Option<string>): seq<string>
  {
    var parsed := ParseEach(Split(value, ';'), parseMime);
    if |parsed| == 0 then [] else parsed[..|parsed| - 1]
  }

  /** `filter_map(|m| Mime::from_str(m).ok())` */
  function ParseEach(pieces: seq<string>, parseMime: string -> Option<string>): (r: seq<string>)
    ensures |r| <= |pieces|
  {
    if |pieces| == 0 then []
    else match parseMime(pieces[0])
      case Some(m) => [m] + ParseEach(pieces[1..], parseMime)
      case None => ParseEach(pieces[1..], parseMime)
  }

  lemma {:induction false} ParseEachCanonical(pieces: seq<string>, parseMime: string -> Option<string>)
    requires forall i | 0 <= i < |pieces| :: parseMime(pieces[i]) == Some(pieces[i])
    ensures ParseEach(pieces, parseMime) == pieces
  {
    if |pieces| > 0 {
      ParseEachCanonical(pieces[1..], parseMime);
      assert pieces == [pieces[0]] + pieces[1..];
    }
  }

  lemma {:induction false} ParseEachAppend(a: seq<string>, b: seq<string>, parseMime: string -> Option<string>)
    ensures ParseEach(a + b, parseMime) == ParseEach(a, parseMime) + ParseEach(b, parseMime)
  {
    if |a| > 0 {
      ParseEachAppend(a[1..], b, parseMime);
      assert (a + b)[1..] == a[1..] + b;
    } else {
      assert a + b == b;
    }
  }

  /**
   * For the conventional `;`-terminated list of types the trailing empty piece
   * does not parse, so the `pop` removes the last declared type instead.
   */
  lemma ParseMimeListDropsLast(types: seq<string>, parseMime: string -> Option<string>)
    requires |types| >= 1
    requires forall i | 0 <= i < |types| :: ';' !in types[i] && parseMime(types[i]) == Some(types[i])
    requires parseMime("") == None
    ensures ParseMimeList(Join(types, ';') + ";", parseMime) == types[..|types| - 1]
  {
    ParseTerminatedList(types, parseMime);
  }

  lemma ParseTerminatedList(types: seq<string>, parseMime: string -> Option<string>)
    requires |types| >= 1
    requires forall i | 0 <= i < |types| :: ';' !in types[i] && parseMime(types[i]) == Some(types[i])
    requires parseMime("") == None
    ensures ParseEach(Split(Join(types, ';') + ";", ';'), parseMime) == types
  {
    SplitTerminatedJoin(types, ';');
    ParseEachAppend(types, [""], parseMime);
    ParseEachCanonical(types, parseMime);
    assert ParseEach([""], parseMime) == [];
  }

  /** The entry every parse starts from. */
  function Blank(fileName: string): DesktopEntry
  {
    DesktopEntry("", "", fileName, false, [])
  }

  /** The effect of one attribute that has a value. */
  function ApplyAttr(entry: DesktopEntry, name: string, value: string, parseMime: string -> Option<string>): DesktopEntry
  {
    if name == "Name" && entry.name == "" then entry.(name := value)
    else if name == "Exec" then entry.(exec := value)
    else if name == "MimeType" then entry.(mimes := ParseMimeList(value, parseMime))
    else if name == "Terminal" then entry.(term := value == "true")
    else entry
  }

  /** The attribute loop of parse_file, as a fold from the left. */
  function FoldAttrs(entry: DesktopEntry, attrs: seq<Attr>, parseMime: string -> Option<string>): DesktopEntry
    decreases |attrs|
  {
    if |attrs| == 0 then entry
    else
      var e := FoldAttrs(entry, attrs[..|attrs| - 1], parseMime);
      var a := attrs[|attrs| - 1];
      if a.value.Some? then ApplyAttr(e, a.name, a.value.value, parseMime) else e
  }

  predicate Sets(attrs: seq<Attr>, i: int, key: string)
    requires 0 <= i < |attrs|
  {
    attrs[i].name == key && attrs[i].value.Some?
  }

  predicate SetsName(attrs: seq<Attr>, i: int)
    requires 0 <= i < |attrs|
  {
    Sets(attrs, i, "Name") && attrs[i].value.value != ""
  }

  /** The value of the last attribute `key` that has one. */
  function LastValue(attrs: seq<Attr>, key: string): Option<string>
    decreases |attrs|
  {
    if |attrs| == 0 then None
    else if Sets(attrs, |attrs| - 1, key) then attrs[|attrs| - 1].value
    else LastValue(attrs[..|attrs| - 1], key)
  }

  /** LastValue finds the attribute with a value after which no other sets the key. */
  lemma {:induction false} LastValueIsLast(attrs: seq<Attr>, key: string)
    ensures LastValue(attrs, key).None? <==> forall i | 0 <= i < |attrs| :: !Sets(attrs, i, key)
    ensures LastValue(attrs, key).Some? ==> exists i | 0 <= i < |attrs| ::
      && Sets(attrs, i, key) && attrs[i].value.value == LastValue(attrs, key).value
      && forall j | i < j < |attrs| :: !Sets(attrs, j, key)
  {
    if |attrs| > 0 && !Sets(attrs, |attrs| - 1, key) {
      var p := attrs[..|attrs| - 1];
      LastValueIsLast(p, key);
      assert forall i | 0 <= i < |p| :: Sets(p, i, key) == Sets(attrs, i, key);
      if LastValue(p, key).Some? {
        var i :| 0 <= i < |p| && Sets(p, i, key) && p[i].value.value == LastValue(p, key).value
          && forall j | i < j < |p| :: !Sets(p, j, key);
        assert Sets(attrs, i, key);
      }
    }
  }

  /** The fold never touches the file name. */
  lemma {:induction false} FoldKeepsFileName(fileName: string, attrs: seq<Attr>, parseMime: string -> Option<string>)
    ensures FoldAttrs(Blank(fileName), attrs, parseMime).fileName == fileName
  {
    if |attrs| > 0 {
      FoldKeepsFileName(fileName, attrs[..|attrs| - 1], parseMime);
    }
  }

  /** The first Name with a non-empty value wins; later ones are ignored. */
  lemma {:induction false} FoldFirstName(fileName: string, attrs: seq<Attr>, parseMime: string -> Option<string>)
    ensures var e := FoldAttrs(Blank(fileName), attrs, parseMime);
      && (e.name == "" <==> forall i | 0 <= i < |attrs| :: !SetsName(attrs, i))
      && (e.name != "" ==> exists i | 0 <= i < |attrs| ::
            SetsName(attrs, i) && attrs[i].value.value == e.name && forall j | 0 <= j < i :: !SetsName(attrs, j))
  {
    if |attrs| > 0 {
      var p := attrs[..|attrs| - 1];
      FoldFirstName(fileName, p, parseMime);
      assert forall i | 0 <= i < |p| :: SetsName(p, i) == SetsName(attrs, i);
      var e := FoldAttrs(Blank(fileName), p, parseMime);
      if e.name != "" {
        var i :| 0 <= i < |p| && SetsName(p, i) && p[i].value.value == e.name && forall j | 0 <= j < i :: !SetsName(p, j);
        assert SetsName(attrs, i) && forall j | 0 <= j < i :: !SetsName(attrs, j);
        assert FoldAttrs(Blank(fileName), attrs, parseMime).name == e.name;
      } else if SetsName(attrs, |p|) {
        assert FoldAttrs(Blank(fileName), attrs, parseMime).name == attrs[|p|].value.value;
      } else {
        assert FoldAttrs(Blank(fileName), attrs, parseMime).name == "";
      }
    }
  }

  /** The last Exec attribute with a value decides the exec template. */
  lemma {:induction false} FoldLastExec(fileName: string, attrs: seq<Attr>, parseMime: string -> Option<string>)
    ensures FoldAttrs(Blank(fileName), attrs, parseMime).exec
      == match LastValue(attrs, "Exec") case Some(v) => v case None => ""
  {
    if |attrs| > 0 {
      FoldLastExec(fileName, attrs[..|attrs| - 1], parseMime);
    }
  }

  /** The last Terminal attribute decides the flag: true iff its value is exactly "true". */
  lemma {:induction false} FoldLastTerminal(fileName: string, attrs: seq<Attr>, parseMime: string -> Option<string>)
    ensures FoldAttrs(Blank(fileName), attrs, parseMime).term == (LastValue(attrs, "Terminal") == Some("true"))
  {
    if |attrs| > 0 {
      FoldLastTerminal(fileName, attrs[..|attrs| - 1], parseMime);
    }
  }

  /** The last MimeType attribute decides the declared types. */
  lemma {:induction false} FoldLastMimeType(fileName: string, attrs: seq<Attr>, parseMime: string -> Option<string>)
    ensures FoldAttrs(Blank(fileName), attrs, parseMime).mimes
      == match LastValue(attrs, "MimeType") case Some(v) => ParseMimeList(v, parseMime) case None => []
  {
    if |attrs| > 0 {
      FoldLastMimeType(fileName, attrs[..|attrs| - 1], parseMime);
    }
  }

  /**
   * What parse_file yields: nothing when the file cannot be parsed or its path
   * has no file name, else the folded entry if it has both a Name and an Exec.
   */
  function ParseResult(fileName: Option<string>, section: Option<seq<Attr>>, parseMime: string -> Option<string>)
    : (r: Option<DesktopEntry>)
    ensures r.Some? <==>
      && fileName.Some? && section.Some?
      && (exists i | 0 <= i < |section.value| :: SetsName(section.value, i))
      && LastValue(section.value, "Exec").Some? && LastValue(section.value, "Exec").value != ""
    ensures r.Some? ==> r.value == FoldAttrs(Blank(fileName.value), section.value, parseMime)
  {
    if section.None? || fileName.None? then None
    else
      var e := FoldAttrs(Blank(fileName.value), section.value, parseMime);
      FoldFirstName(fileName.value, section.value, parseMime);
      FoldLastExec(fileName.value, section.value, parseMime);
      if e.name != "" && e.exec != "" then Some(e) else None
  }

  /** parse_file, the attribute loop written out. */
  method ParseFile(fileName: Option<string>, section: Option<seq<Attr>>, parseMime: string -> Option<string>)
    returns (r: Option<DesktopEntry>)
    ensures r == ParseResult(fileName, section, parseMime)
  {
    if section.None? || fileName.None? {
      return None;
    }
    var attrs := section.value;
    var entry := Blank(fileName.value);
    var i := 0;
    while i < |attrs|
      invariant 0 <= i <= |attrs|
      invariant entry == FoldAttrs(Blank(fileName.value), attrs[..i], parseMime)
    {
      var a := attrs[i];
      assert attrs[..i + 1][..i] == attrs[..i];
      if a.value.Some? {
        var value := a.value.value;
        if a.name == "Name" && entry.name == "" {
          entry := entry.(name := value);
        } else if a.name == "Exec" {
          entry := entry.(exec := value);
        } else if a.name == "MimeType" {
          var mimes := ParseEach(Split(value, ';'), parseMime);
          if |mimes| > 0 {
            mimes := mimes[..|mimes| - 1];
          }
          entry := entry.(mimes := mimes);
        } else if a.name == "Terminal" {
          entry := entry.(term := value == "true");
        }
      }
      i := i + 1;
    }
    assert attrs[..i] == attrs;
    if entry.name != "" && entry.exec != "" {
      r := Some(entry);
    } else {
      r := None;
    }
  }

  /** `TryFrom<PathBuf>`: the parsed entry, or BadEntry naming the path. */
  method EntryFromPath(path: string, fileName: Option<string>, section: Option<seq<Attr>>, parseMime: string -> Option<string>)
    returns (r: Result<DesktopEntry, Error>)
    ensures r == match ParseResult(fileName, section, parseMime)
                 case Some(e) => Ok(e)
                 case None => Err(BadEntry(path))
  {
    var e := ParseFile(fileName, section, parseMime);
    r := if e.Some? then Ok(e.value) else Err(BadEntry(path));
  }
}
