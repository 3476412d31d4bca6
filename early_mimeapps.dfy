/**
 * The association store of the early prototype (src/mimeapps.rs): the two
 * tables of `mimeapps.list` keyed by the raw key text, the system catalogue
 * built from the descriptors under the data directories, and the lookup that
 * tries the tables in turn.
 *
 * As in the later store, file access is left to the caller: `read` takes the
 * lines the grammar produced and `save` returns the text it writes.  The
 * lookups of the early `SystemApps` (src/mimeapps.rs:186-192) are the same as
 * the later ones and use SystemCatalog's.
 */
module EarlyMimeApps {
  import opened Wrappers
  import opened Errors
  import opened Strings
  import opened Ini
  import opened MimeAppsList
  import SystemCatalog
  import EarlyEntry

  /** The early store keeps every key exactly as written. */
  function RawKey(): string -> Option<string>
  {
    (k: string) => Some(k)
  }

  // ---------------------------------------------------------------------------
  // The system catalogue of the early prototype

  /**
   * One directory entry as the early scan sees it: the extension and the file
   * name of its path, and the grammar's lines of its content (or the error that
   * stopped the read).
   */
  datatype ScannedEntry = ScannedEntry(extension: Option<string>, fileName: string,
                                       file: Result<seq<Line>, Error>)

  /** A `desktop` file whose descriptor passes the check declares its mimes under its file name. */
  function Accept(p: ScannedEntry): Option<SystemCatalog.Declaration>
  {
    if p.extension != Some("desktop") || p.file.Err? then None
    else
      var e := EarlyEntry.Fold(EarlyEntry.Empty, p.file.value);
      if e.name != "" && e.exec != "" then Some(SystemCatalog.Declaration(p.fileName, e.mimes)) else None
  }

  function Acceptor(): ScannedEntry -> Option<SystemCatalog.Declaration>
  {
    (p: ScannedEntry) => Accept(p)
  }

  /** SystemApps::populate: every readable data directory, every accepted descriptor, every declared mime. */
  method Populate(dirs: seq<Option<seq<ScannedEntry>>>) returns (s: SystemCatalog.SystemApps)
    ensures s.apps == SystemCatalog.AddDirs(map[], dirs, Acceptor())
  {
    var m: map<string, seq<string>> := map[];
    for d := 0 to |dirs|
      invariant m == SystemCatalog.AddDirs(map[], dirs[..d], Acceptor())
    {
      assert dirs[..d + 1][..d] == dirs[..d];
      if dirs[d].Some? {
        var entries := dirs[d].value;
        ghost var base := m;
        for i := 0 to |entries|
          invariant m == SystemCatalog.AddEntries(base, entries[..i], Acceptor())
        {
          assert entries[..i + 1][..i] == entries[..i];
          var p := entries[i];
          if p.extension == Some("desktop") {
            var parsed := EarlyEntry.TryFrom(p.file);
            if parsed.Ok? {
              m := AddDeclared(m, p.fileName, parsed.value.mimes);
            }
          }
        }
        assert entries[..|entries|] == entries;
      }
    }
    assert dirs[..|dirs|] == dirs;
    s := SystemCatalog.SystemApps(m);
  }

  /** `map.entry(mime).or_default().push(file_name)` for each mime of one descriptor. */
  method AddDeclared(m0: map<string, seq<string>>, fileName: string, mimes: seq<string>)
    returns (m: map<string, seq<string>>)
    ensures m == SystemCatalog.AddMimes(m0, fileName, mimes)
  {
    m := m0;
    for j := 0 to |mimes|
      invariant m == SystemCatalog.AddMimes(m0, fileName, mimes[..j])
    {
      assert mimes[..j + 1][..j] == mimes[..j];
      var handlers := if mimes[j] in m then m[mimes[j]] else [];
      m := m[mimes[j] := handlers + [fileName]];
    }
    assert mimes[..|mimes|] == mimes;
  }

  /**
   * Every key of the early catalogue has a non-empty list, and every handler
   * listed under a mime is the file name of a scanned `desktop` file whose last
   * `MimeType` line declares that mime.
   */
  lemma PopulatedFromScan(dirs: seq<Option<seq<ScannedEntry>>>, k: string, h: string)
    ensures SystemCatalog.NonEmptyLists(SystemCatalog.AddDirs(map[], dirs, Acceptor()))
    ensures k in SystemCatalog.AddDirs(map[], dirs, Acceptor()) && h in SystemCatalog.AddDirs(map[], dirs, Acceptor())[k]
            ==> exists d | d in SystemCatalog.Accepted(dirs, Acceptor()) :: d.fileName == h && k in d.mimes
  {
    SystemCatalog.PopulatedNonEmpty(dirs, Acceptor());
    if k in SystemCatalog.AddDirs(map[], dirs, Acceptor()) && h in SystemCatalog.AddDirs(map[], dirs, Acceptor())[k] {
      SystemCatalog.PopulatedProvenance(dirs, Acceptor(), k, h);
    }
  }

  /** What an accepted entry declares: its path's file name and the mimes of its descriptor. */
  lemma AcceptDeclares(p: ScannedEntry)
    ensures Accept(p).Some? <==>
              && p.extension == Some("desktop") && p.file.Ok?
              && EarlyEntry.LastProperty(p.file.value, "Name").Some? && EarlyEntry.LastProperty(p.file.value, "Name").value != ""
              && EarlyEntry.LastProperty(p.file.value, "Exec").Some? && EarlyEntry.LastProperty(p.file.value, "Exec").value != ""
    ensures Accept(p).Some? ==>
              Accept(p).value == SystemCatalog.Declaration(
                p.fileName, EarlyEntry.FinalMimes([], EarlyEntry.LastProperty(p.file.value, "MimeType")))
  {
    if p.extension == Some("desktop") && p.file.Ok? {
      EarlyEntry.AcceptedIff(p.file.value);
      EarlyEntry.LastLineWins(EarlyEntry.Empty, p.file.value);
    }
  }

  // ---------------------------------------------------------------------------
  // get_handler

  /**
   * get_handler: the front of the default list when the mime has one, else the
   * front of the added list, else the catalogue's first handler, else NotFound.
   * A list that is present but empty makes `unwrap` panic.
   */
  function Resolve(defaults: map<string, seq<string>>, added: map<string, seq<string>>,
                   system: SystemCatalog.SystemApps, mime: string): (r: Result<string, Error>)
    requires SystemCatalog.NonEmptyLists(system.apps)
    ensures r == Err(NoHandler) <==> mime !in defaults && mime !in added && mime !in system.apps
    ensures mime in defaults ==> (r.Ok? <==> |defaults[mime]| > 0)
    ensures mime in defaults && r.Ok? ==> r.value == defaults[mime][0]
    ensures mime !in defaults && mime in added ==> (r.Ok? <==> |added[mime]| > 0)
    ensures mime !in defaults && mime in added && r.Ok? ==> r.value == added[mime][0]
    ensures mime !in defaults && mime !in added && mime in system.apps ==> r == Ok(system.apps[mime][0])
    ensures r.Err? ==> r.error == NoHandler || r.error == Panic(UnwrapNone)
  {
    var listed := if mime in defaults then Some(defaults[mime]) else if mime in added then Some(added[mime]) else None;
    match listed
    case Some(handlers) => if |handlers| == 0 then Err(Panic(UnwrapNone)) else Ok(handlers[0])
    case None =>
      match SystemCatalog.GetHandler(system, mime)
      case Some(h) => Ok(h)
      case None => Err(NoHandler)
  }

  /** With every list non-empty the lookup never panics: it finds a handler or reports NotFound. */
  lemma ResolveNoPanic(defaults: map<string, seq<string>>, added: map<string, seq<string>>,
                       system: SystemCatalog.SystemApps, mime: string)
    requires SystemCatalog.NonEmptyLists(defaults) && SystemCatalog.NonEmptyLists(added)
    requires SystemCatalog.NonEmptyLists(system.apps)
    ensures Resolve(defaults, added, system, mime).Ok?
        <==> mime in defaults || mime in added || mime in system.apps
  {
  }

  /** After set_handler the new handler is the answer, whatever the tables held before. */
  lemma ResolveAfterSet(defaults: map<string, seq<string>>, added: map<string, seq<string>>,
                        system: SystemCatalog.SystemApps, mime: string, handler: string)
    requires SystemCatalog.NonEmptyLists(system.apps)
    ensures Resolve(defaults[mime := [handler] + SystemCatalog.Lookup(defaults, mime)], added, system, mime)
         == Ok(handler)
  {
  }

  /** After remove_handler the mime falls back to the added list, then to the catalogue. */
  lemma ResolveAfterRemove(defaults: map<string, seq<string>>, added: map<string, seq<string>>,
                           system: SystemCatalog.SystemApps, mime: string)
    requires SystemCatalog.NonEmptyLists(system.apps)
    ensures Resolve(defaults - {mime}, added, system, mime) == Resolve(map[], added, system, mime)
  {
  }

  /** Changing the default list of one mime leaves the answer for every other mime as it was. */
  lemma ResolveOtherMime(defaults: map<string, seq<string>>, added: map<string, seq<string>>,
                         system: SystemCatalog.SystemApps, mime: string, other: string, handlers: seq<string>)
    requires SystemCatalog.NonEmptyLists(system.apps) && other != mime
    ensures Resolve(defaults[mime := handlers], added, system, other) == Resolve(defaults, added, system, other)
    ensures Resolve(defaults - {mime}, added, system, other) == Resolve(defaults, added, system, other)
  {
    assert other in defaults[mime := handlers] <==> other in defaults;
    assert other in defaults - {mime} <==> other in defaults;
  }

  // ---------------------------------------------------------------------------
  // read and save

  /** A list stored by read goes under the key exactly as written in the file. */
  lemma RawKeyStored(st: ReadState, key: string, value: string, isHandler: string -> bool)
    requires st.section == DefaultSection && |ParseHandlerList(value, isHandler)| > 0
    ensures ReadLine(st, Property(key, value), isHandler, RawKey()).defaults
         == st.defaults[key := ParseHandlerList(value, isHandler)]
  {
  }

  /** Round trip: reading what save writes gives both tables back, whatever their keys. */
  lemma SaveThenReadRaw(added: map<string, seq<string>>, defaults: map<string, seq<string>>, isHandler: string -> bool)
    requires StoredLists(added, isHandler) && StoredLists(defaults, isHandler)
    ensures ReadLines(Start, Layout(added, defaults), isHandler, RawKey()).added == added
    ensures ReadLines(Start, Layout(added, defaults), isHandler, RawKey()).defaults == defaults
  {
    assert Restorable(added, isHandler, RawKey());
    assert Restorable(defaults, isHandler, RawKey());
    SaveThenRead(added, defaults, isHandler, RawKey());
  }

  // ---------------------------------------------------------------------------
  // The store itself

  class MimeApps {
    var addedAssociations: map<string, seq<string>>
    var defaultApps: map<string, seq<string>>
    const systemApps: SystemCatalog.SystemApps

    /** Every list in both tables and in the catalogue has a front. */
    ghost predicate Valid()
      reads this
    {
      && SystemCatalog.NonEmptyLists(addedAssociations)
      && SystemCatalog.NonEmptyLists(defaultApps)
      && SystemCatalog.NonEmptyLists(systemApps.apps)
    }

    constructor(added: map<string, seq<string>>, defaults: map<string, seq<string>>, system: SystemCatalog.SystemApps)
      ensures addedAssociations == added && defaultApps == defaults && systemApps == system
    {
      addedAssociations := added;
      defaultApps := defaults;
      systemApps := system;
    }

    /** The text `save` writes for the current tables. */
    function Saved(): string
      reads this
    {
      Serialize(addedAssociations, defaultApps)
    }

    /** set_handler: push the handler to the front of the mime's default list, then save. */
    method SetHandler(mime: string, handler: string) returns (saved: string)
      modifies this
      ensures defaultApps == old(defaultApps)[mime := [handler] + SystemCatalog.Lookup(old(defaultApps), mime)]
      ensures addedAssociations == old(addedAssociations)
      ensures saved == Saved()
      ensures old(Valid()) ==> Valid()
    {
      var handlers := if mime in defaultApps then defaultApps[mime] else [];
      defaultApps := defaultApps[mime := [handler] + handlers];
      saved := Save();
    }

    /** remove_handler: drop the mime's default list; save only if there was one. */
    method RemoveHandler(mime: string) returns (saved: Option<string>)
      modifies this
      ensures defaultApps == old(defaultApps) - {mime}
      ensures addedAssociations == old(addedAssociations)
      ensures saved.Some? <==> mime in old(defaultApps)
      ensures saved.Some? ==> saved.value == Saved()
      ensures old(Valid()) ==> Valid()
    {
      if mime in defaultApps {
        defaultApps := defaultApps - {mime};
        var text := Save();
        saved := Some(text);
      } else {
        saved := None;
      }
    }

    /** get_handler on the current tables. */
    function GetHandler(mime: string): (r: Result<string, Error>)
      reads this
      requires SystemCatalog.NonEmptyLists(systemApps.apps)
      ensures r.Ok? ==>
                || r.value in SystemCatalog.Lookup(defaultApps, mime)
                || (mime !in defaultApps && r.value in SystemCatalog.Lookup(addedAssociations, mime))
                || (mime !in defaultApps && mime !in addedAssociations
                    && r.value in SystemCatalog.Lookup(systemApps.apps, mime))
    {
      Resolve(defaultApps, addedAssociations, systemApps, mime)
    }

    /** save: both section headers, then the sorted `key=h1;...;hn;` lines of each table. */
    method Save() returns (text: string)
      ensures text == Saved()
    {
      text := SaveText(addedAssociations, defaultApps);
    }

    /** read: the loop over the grammar's lines, filling a fresh store under the raw keys. */
    static method Read(lines: seq<Line>, system: SystemCatalog.SystemApps, isHandler: string -> bool)
      returns (conf: MimeApps)
      ensures fresh(conf)
      ensures conf.systemApps == system
      ensures conf.addedAssociations == ReadLines(Start, lines, isHandler, RawKey()).added
      ensures conf.defaultApps == ReadLines(Start, lines, isHandler, RawKey()).defaults
      ensures SystemCatalog.NonEmptyLists(system.apps) ==> conf.Valid()
    {
      var section := "";
      conf := new MimeApps(map[], map[], system);
      for i := 0 to |lines|
        invariant ReadState(section, conf.addedAssociations, conf.defaultApps)
               == ReadLines(Start, lines[..i], isHandler, RawKey())
        invariant conf.systemApps == system
      {
        assert lines[..i + 1][..i] == lines[..i];
        match lines[i]
        case Section(name) =>
          section := name;
        case Property(key, value) =>
          var handlers := ParseHandlerList(value, isHandler);
          if |handlers| > 0 {
            if section == AddedSection {
              conf.addedAssociations := conf.addedAssociations[key := handlers];
            } else if section == DefaultSection {
              conf.defaultApps := conf.defaultApps[key := handlers];
            }
          }
        case Blank =>
      }
      assert lines[..|lines|] == lines;
      ReadKeepsLists(Start, lines, isHandler, RawKey());
    }
  }
}
