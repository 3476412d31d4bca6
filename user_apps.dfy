/**
 * The user's association store of src/apps/user.rs: the `[Default Applications]`
 * and `[Added Associations]` tables of `mimeapps.list`, each a map from a mime
 * type (its essence string) to an ordered list of handler names, together with
 * the system catalogue it falls back on.
 *
 * File access is left to the caller: `read` takes the lines the grammar produced
 * and `save` returns the text it writes.  `Handler::from_str`, `Mime::from_str`,
 * loading the configuration, the selector process and reading a handler's
 * display name are oracles passed in as parameters.
 */
module UserApps {
  import opened Wrappers
  import opened Errors
  import opened Strings
  import opened Ini
  import SystemCatalog
  import opened MimeAppsList

  /** The two settings of the configuration file that `get_handler` consults. */
  datatype Config = Config(enableSelector: bool, selector: string)

  predicate NonEmptyLists(m: map<string, seq<string>>)
  {
    SystemCatalog.NonEmptyLists(m)
  }

  // ---------------------------------------------------------------------------
  // get_handler

  /** The display names of the handlers, in order; `None` when an entry cannot be loaded. */
  function Names(handlers: seq<string>, entryName: string -> Option<string>): (r: Option<seq<string>>)
    ensures r.Some? <==> forall i | 0 <= i < |handlers| :: entryName(handlers[i]).Some?
    ensures r.Some? ==> |r.value| == |handlers|
    ensures r.Some? ==> forall i | 0 <= i < |handlers| :: entryName(handlers[i]) == Some(r.value[i])
  {
    if |handlers| == 0 then Some([])
    else
      match (entryName(handlers[0]), Names(handlers[1..], entryName))
      case (Some(n), Some(rest)) => Some([n] + rest)
      case _ => None
  }

  /** Position of the first name equal to the selection. */
  function FindName(names: seq<string>, selected: string): (r: Option<nat>)
    ensures r.Some? <==> selected in names
    ensures r.Some? ==> r.value < |names| && names[r.value] == selected && selected !in names[..r.value]
  {
    if |names| == 0 then None
    else if names[0] == selected then Some(0)
    else match FindName(names[1..], selected)
      case Some(i) =>
        assert names[..i + 1] == [names[0]] + names[1..][..i];
        Some(i + 1)
      case None => None
  }

  /**
   * The selector branch: show the display names, take the selector's answer and
   * return the first handler carrying that name.
   */
  function Select(handlers: seq<string>, selector: string, entryName: string -> Option<string>,
                  select: (string, seq<string>) -> Result<string, Error>): (r: Result<string, Error>)
    ensures r.Ok? ==> r.value in handlers
    ensures r.Ok? ==> Names(handlers, entryName).Some?
    ensures r.Ok? ==> exists i | 0 <= i < |handlers| ::
                        && handlers[i] == r.value
                        && select(selector, Names(handlers, entryName).value) == Ok(Names(handlers, entryName).value[i])
  {
    match Names(handlers, entryName)
    case None => Err(Panic(UnwrapErr))
    case Some(names) =>
      match select(selector, names)
      case Err(e) => Err(e)
      case Ok(selected) =>
        match FindName(names, selected)
        case None => Err(Panic(UnwrapNone))
        case Some(i) => Ok(handlers[i])
  }

  /** `handlers.get(0).unwrap()`. */
  function Front(handlers: seq<string>): (r: Result<string, Error>)
    ensures r.Ok? <==> |handlers| > 0
    ensures r.Ok? ==> r.value == handlers[0]
  {
    if |handlers| == 0 then Err(Panic(UnwrapNone)) else Ok(handlers[0])
  }

  /**
   * get_handler over the two tables and the catalogue: the default list when the
   * mime has one (through the selector when it is enabled and there is a
   * choice), else the front of the added list, else the system handler.
   */
  function Resolve(defaults: map<string, seq<string>>, added: map<string, seq<string>>,
                   system: SystemCatalog.SystemApps, mime: string, config: Result<Config, Error>,
                   entryName: string -> Option<string>,
                   select: (string, seq<string>) -> Result<string, Error>): (r: Result<string, Error>)
    requires NonEmptyLists(system.apps)
    ensures config.Err? ==> r == Err(config.error)
    ensures config.Ok? && mime !in defaults && mime !in added && mime !in system.apps
      ==> r == Err(NotFound(mime))
    ensures r.Ok? ==> if mime in defaults then r.value in defaults[mime]
                      else if mime in added then r.value in added[mime]
                      else mime in system.apps && r.value in system.apps[mime]
  {
    match config
    case Err(e) => Err(e)
    case Ok(cfg) =>
      if mime in defaults then
        var handlers := defaults[mime];
        if cfg.enableSelector && |handlers| > 1 then Select(handlers, cfg.selector, entryName, select)
        else Front(handlers)
      else if mime in added then Front(added[mime])
      else
        match SystemCatalog.GetHandler(system, mime)
        case Some(h) => Ok(h)
        case None => Err(NotFound(mime))
  }

  /** Without a choice to make, the front of the default list is the handler. */
  lemma DefaultFront(defaults: map<string, seq<string>>, added: map<string, seq<string>>,
                     system: SystemCatalog.SystemApps, mime: string, cfg: Config,
                     entryName: string -> Option<string>,
                     select: (string, seq<string>) -> Result<string, Error>)
    requires NonEmptyLists(system.apps) && NonEmptyLists(defaults)
    requires mime in defaults && (!cfg.enableSelector || |defaults[mime]| <= 1)
    ensures Resolve(defaults, added, system, mime, Ok(cfg), entryName, select) == Ok(defaults[mime][0])
  {
  }

  /** With no default list the added list decides, and only then the catalogue. */
  lemma Fallback(defaults: map<string, seq<string>>, added: map<string, seq<string>>,
                 system: SystemCatalog.SystemApps, mime: string, cfg: Config,
                 entryName: string -> Option<string>,
                 select: (string, seq<string>) -> Result<string, Error>)
    requires NonEmptyLists(system.apps) && NonEmptyLists(added)
    requires mime !in defaults
    ensures var r := Resolve(defaults, added, system, mime, Ok(cfg), entryName, select);
      && (mime in added ==> r == Ok(added[mime][0]))
      && (mime !in added && mime in system.apps ==> r == Ok(system.apps[mime][0]))
      && (mime !in added && mime !in system.apps ==> r == Err(NotFound(mime)))
  {
  }

  /**
   * With the selector enabled and several defaults, the result is the first
   * default whose display name is the selector's answer; a name matching
   * none of them is a panic.
   */
  lemma SelectorChoice(defaults: map<string, seq<string>>, added: map<string, seq<string>>,
                       system: SystemCatalog.SystemApps, mime: string, cfg: Config,
                       entryName: string -> Option<string>,
                       select: (string, seq<string>) -> Result<string, Error>, names: seq<string>, selected: string)
    requires NonEmptyLists(system.apps)
    requires mime in defaults && cfg.enableSelector && |defaults[mime]| > 1
    requires Names(defaults[mime], entryName) == Some(names) && select(cfg.selector, names) == Ok(selected)
    ensures var r := Resolve(defaults, added, system, mime, Ok(cfg), entryName, select);
      && (selected !in names ==> r == Err(Panic(UnwrapNone)))
      && (selected in names ==> r.Ok? && entryName(r.value) == Some(selected))
      && (selected in names ==>
            forall j | 0 <= j < |defaults[mime]| && defaults[mime][j] != r.value ::
              entryName(defaults[mime][j]) == Some(selected) ==> r.value in defaults[mime][..j])
  {
    var hs := defaults[mime];
    assert Resolve(defaults, added, system, mime, Ok(cfg), entryName, select)
        == Select(hs, cfg.selector, entryName, select);
    SelectNamed(hs, cfg.selector, entryName, select, names, selected);
    if selected in names {
      FirstNamed(hs, names, entryName, selected, FindName(names, selected).value);
    }
  }

  /** The selector branch on its own: the handler at the first position of the chosen name. */
  lemma {:induction false} SelectNamed(hs: seq<string>, selector: string, entryName: string -> Option<string>,
                    select: (string, seq<string>) -> Result<string, Error>, names: seq<string>, selected: string)
    requires Names(hs, entryName) == Some(names) && select(selector, names) == Ok(selected)
    ensures selected !in names ==> Select(hs, selector, entryName, select) == Err(Panic(UnwrapNone))
    ensures selected in names ==>
              && FindName(names, selected).value < |hs|
              && Select(hs, selector, entryName, select) == Ok(hs[FindName(names, selected).value])
              && entryName(hs[FindName(names, selected).value]) == Some(selected)
  {
    var found := FindName(names, selected);
    if found.Some? {
      var i := found.value;
      assert names[i] == selected && |names| == |hs|;
      assert entryName(hs[i]) == Some(names[i]);
      assert Select(hs, selector, entryName, select) == Ok(hs[i]);
    } else {
      assert Select(hs, selector, entryName, select) == Err(Panic(UnwrapNone));
    }
  }

  /** The handler at the first position of a name precedes every other handler of that name. */
  lemma FirstNamed(hs: seq<string>, names: seq<string>, entryName: string -> Option<string>, selected: string, i: nat)
    requires |names| == |hs| && forall k | 0 <= k < |hs| :: entryName(hs[k]) == Some(names[k])
    requires i < |names| && names[i] == selected && selected !in names[..i]
    ensures forall j | 0 <= j < |hs| && hs[j] != hs[i] :: entryName(hs[j]) == Some(selected) ==> hs[i] in hs[..j]
  {
    forall j | 0 <= j < |hs| && hs[j] != hs[i] && entryName(hs[j]) == Some(selected)
      ensures hs[i] in hs[..j]
    {
      assert names[j] == selected;
      assert forall k | 0 <= k < i :: names[..i][k] == names[k];
      assert j > i;
      assert hs[..j][i] == hs[i];
    }
  }

  // ---------------------------------------------------------------------------
  // What the mutators do to the lookup

  /** After set_handler the handler is the answer, selector or not. */
  lemma ResolveAfterSet(defaults: map<string, seq<string>>, added: map<string, seq<string>>,
                        system: SystemCatalog.SystemApps, mime: string, handler: string, cfg: Config,
                        entryName: string -> Option<string>,
                        select: (string, seq<string>) -> Result<string, Error>)
    requires NonEmptyLists(system.apps)
    ensures Resolve(defaults[mime := [handler]], added, system, mime, Ok(cfg), entryName, select) == Ok(handler)
  {
  }

  /**
   * After add_handler the handler is the answer if the mime had no default
   * list; otherwise, with the selector off, the previous front stays.
   */
  lemma ResolveAfterAdd(defaults: map<string, seq<string>>, added: map<string, seq<string>>,
                        system: SystemCatalog.SystemApps, mime: string, handler: string, cfg: Config,
                        entryName: string -> Option<string>,
                        select: (string, seq<string>) -> Result<string, Error>)
    requires NonEmptyLists(system.apps) && NonEmptyLists(defaults)
    ensures var r := Resolve(defaults[mime := SystemCatalog.Lookup(defaults, mime) + [handler]], added, system,
                             mime, Ok(cfg), entryName, select);
      && (mime !in defaults ==> r == Ok(handler))
      && (mime in defaults && !cfg.enableSelector ==> r == Ok(defaults[mime][0]))
  {
  }

  /** After remove_handler the mime resolves as if it never had a default list. */
  lemma ResolveAfterRemove(defaults: map<string, seq<string>>, added: map<string, seq<string>>,
                           system: SystemCatalog.SystemApps, mime: string, config: Result<Config, Error>,
                           entryName: string -> Option<string>,
                           select: (string, seq<string>) -> Result<string, Error>)
    requires NonEmptyLists(system.apps)
    ensures Resolve(defaults - {mime}, added, system, mime, config, entryName, select)
         == Resolve(map[], added, system, mime, config, entryName, select)
  {
  }

  /** The other mimes resolve as before any of the mutators. */
  lemma ResolveOtherMime(defaults: map<string, seq<string>>, added: map<string, seq<string>>,
                         system: SystemCatalog.SystemApps, mime: string, other: string, handlers: seq<string>,
                         config: Result<Config, Error>, entryName: string -> Option<string>,
                         select: (string, seq<string>) -> Result<string, Error>)
    requires NonEmptyLists(system.apps) && other != mime
    ensures Resolve(defaults[mime := handlers], added, system, other, config, entryName, select)
         == Resolve(defaults, added, system, other, config, entryName, select)
    ensures Resolve(defaults - {mime}, added, system, other, config, entryName, select)
         == Resolve(defaults, added, system, other, config, entryName, select)
  {
    assert other in defaults[mime := handlers] <==> other in defaults;
    assert other in defaults - {mime} <==> other in defaults;
  }

  // ---------------------------------------------------------------------------
  // The store itself

  class MimeApps {
    var addedAssociations: map<string, seq<string>>
    var defaultApps: map<string, seq<string>>
    const systemApps: SystemCatalog.SystemApps

    /** Every list in both tables and in the catalogue has a front. */
    ghost predicate Valid()
      reads this
    {
      NonEmptyLists(addedAssociations) && NonEmptyLists(defaultApps) && NonEmptyLists(systemApps.apps)
    }

    constructor(added: map<string, seq<string>>, defaults: map<string, seq<string>>, system: SystemCatalog.SystemApps)
      ensures addedAssociations == added && defaultApps == defaults && systemApps == system
    {
      addedAssociations := added;
      defaultApps := defaults;
      systemApps := system;
    }

    /** The text `save` writes for the current tables. */
    function Saved(): string
      reads this
    {
      Serialize(addedAssociations, defaultApps)
    }

    /** add_handler: append to the back of the mime's default list, then save. */
    method AddHandler(mime: string, handler: string) returns (saved: string)
      modifies this
      ensures defaultApps == old(defaultApps)[mime := SystemCatalog.Lookup(old(defaultApps), mime) + [handler]]
      ensures addedAssociations == old(addedAssociations)
      ensures saved == Saved()
      ensures old(Valid()) ==> Valid()
    {
      var handlers := if mime in defaultApps then defaultApps[mime] else [];
      defaultApps := defaultApps[mime := handlers + [handler]];
      saved := Save();
    }

    /** set_handler: the mime's default list becomes the handler alone, then save. */
    method SetHandler(mime: string, handler: string) returns (saved: string)
      modifies this
      ensures defaultApps == old(defaultApps)[mime := [handler]]
      ensures addedAssociations == old(addedAssociations)
      ensures saved == Saved()
      ensures old(Valid()) ==> Valid()
    {
      defaultApps := defaultApps[mime := [handler]];
      saved := Save();
    }

    /** remove_handler: drop the mime's default list; save only if there was one. */
    method RemoveHandler(mime: string) returns (saved: Option<string>)
      modifies this
      ensures defaultApps == old(defaultApps) - {mime}
      ensures addedAssociations == old(addedAssociations)
      ensures saved.Some? <==> mime in old(defaultApps)
      ensures saved.Some? ==> saved.value == Saved()
      ensures old(Valid()) ==> Valid()
    {
      if mime in defaultApps {
        defaultApps := defaultApps - {mime};
        var text := Save();
        saved := Some(text);
      } else {
        saved := None;
      }
    }

    /** get_handler on the current tables. */
    function GetHandler(mime: string, config: Result<Config, Error>, entryName: string -> Option<string>,
                        select: (string, seq<string>) -> Result<string, Error>): (r: Result<string, Error>)
      reads this
      requires NonEmptyLists(systemApps.apps)
      ensures r.Ok? ==>
                || r.value in SystemCatalog.Lookup(defaultApps, mime)
                || (mime !in defaultApps && r.value in SystemCatalog.Lookup(addedAssociations, mime))
                || (mime !in defaultApps && mime !in addedAssociations
                    && r.value in SystemCatalog.Lookup(systemApps.apps, mime))
    {
      Resolve(defaultApps, addedAssociations, systemApps, mime, config, entryName, select)
    }

    /** save: the two sections, each in ascending key order. */
    method Save() returns (text: string)
      ensures text == Saved()
    {
      text := SaveText(addedAssociations, defaultApps);
    }

    /** read: the loop over the grammar's lines, filling a fresh store. */
    static method Read(lines: seq<Line>, system: SystemCatalog.SystemApps,
                       isHandler: string -> bool, parseMime: string -> Option<string>) returns (conf: MimeApps)
      ensures fresh(conf)
      ensures conf.systemApps == system
      ensures conf.addedAssociations == ReadLines(Start, lines, isHandler, parseMime).added
      ensures conf.defaultApps == ReadLines(Start, lines, isHandler, parseMime).defaults
      ensures NonEmptyLists(system.apps) ==> conf.Valid()
    {
      var section := "";
      conf := new MimeApps(map[], map[], system);
      for i := 0 to |lines|
        invariant ReadState(section, conf.addedAssociations, conf.defaultApps)
               == ReadLines(Start, lines[..i], isHandler, parseMime)
        invariant conf.systemApps == system
      {
        assert lines[..i + 1][..i] == lines[..i];
        match lines[i]
        case Section(name) =>
          section := name;
        case Property(key, value) =>
          var handlers := ParseHandlerList(value, isHandler);
          if |handlers| > 0 {
            match parseMime(key)
            case Some(mime) =>
              if section == AddedSection {
                conf.addedAssociations := conf.addedAssociations[mime := handlers];
              } else if section == DefaultSection {
                conf.defaultApps := conf.defaultApps[mime := handlers];
              }
            case None =>
          }
        case Blank =>
      }
      assert lines[..|lines|] == lines;
      ReadKeepsLists(Start, lines, isHandler, parseMime);
    }
  }
}
