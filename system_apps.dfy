/**
 * The system catalogue of src/apps/system.rs: every installed descriptor found
 * under the data directories, folded into a map from mime type to the file
 * names of the descriptors that declare it, in scan order.
 *
 * The directory listing is an input: one element per data directory in the
 * order the XDG base directories list them, `None` where `read_dir` failed.
 */
module SystemCatalog {
  import opened Wrappers
  import opened Errors
  import opened DesktopEntries

  /** One directory entry as the scan sees it, with its parsed `[Desktop Entry]` section. */
  datatype DirEntry = DirEntry(
    path: string,
    fileName: Option<string>,
    extension: Option<string>,
    section: Option<seq<Attr>>)

  datatype SystemApps = SystemApps(apps: map<string, seq<string>>)

  predicate NonEmptyLists(m: map<string, seq<string>>)
  {
    forall k | k in m :: |m[k]| > 0
  }

  /** get_handlers: the whole list for the mime, if it is a key. */
  function GetHandlers(s: SystemApps, mime: string): (r: Option<seq<string>>)
    ensures r.Some? <==> mime in s.apps
    ensures r.Some? ==> r.value == s.apps[mime]
  {
    if mime in s.apps then Some(s.apps[mime]) else None
  }

  /** get_handler: the front of the list; a key's list is never empty after populate. */
  function GetHandler(s: SystemApps, mime: string): (r: Option<string>)
    requires NonEmptyLists(s.apps)
    ensures r.Some? <==> mime in s.apps
    ensures r.Some? ==> r.value == s.apps[mime][0]
  {
    match GetHandlers(s, mime)
    case Some(handlers) => Some(handlers[0])
    case None => None
  }

  // ---------------------------------------------------------------------------
  // The fold, level by level: declared mimes, directory entries, directories

  function Lookup(m: map<string, seq<string>>, k: string): seq<string>
  {
    if k in m then m[k] else []
  }

  /** `map.entry(mime).or_default().push_back(file_name)` for each declared mime. */
  function AddMimes(m: map<string, seq<string>>, fileName: string, mimes: seq<string>): map<string, seq<string>>
    decreases |mimes|
  {
    if |mimes| == 0 then m
    else
      var m' := AddMimes(m, fileName, mimes[..|mimes| - 1]);
      var k := mimes[|mimes| - 1];
      m'[k := Lookup(m', k) + [fileName]]
  }

  /** What one accepted descriptor contributes: its file name and the mimes it declares. */
  datatype Declaration = Declaration(fileName: string, mimes: seq<string>)

  /** Adds what one accepted descriptor declares; a rejected entry adds nothing. */
  function AddAccepted(m: map<string, seq<string>>, accepted: Option<Declaration>): map<string, seq<string>>
  {
    match accepted
    case Some(d) => AddMimes(m, d.fileName, d.mimes)
    case None => m
  }

  /** The entries of one directory in listing order; `accept` decides what each contributes. */
  function AddEntries<E>(m: map<string, seq<string>>, entries: seq<E>, accept: E -> Option<Declaration>)
    : map<string, seq<string>>
    decreases |entries|
  {
    if |entries| == 0 then m
    else AddAccepted(AddEntries(m, entries[..|entries| - 1], accept), accept(entries[|entries| - 1]))
  }

  /** One data directory; a directory that could not be read adds nothing. */
  function AddDir<E>(m: map<string, seq<string>>, dir: Option<seq<E>>, accept: E -> Option<Declaration>)
    : map<string, seq<string>>
  {
    match dir
    case Some(entries) => AddEntries(m, entries, accept)
    case None => m
  }

  function AddDirs<E>(m: map<string, seq<string>>, dirs: seq<Option<seq<E>>>, accept: E -> Option<Declaration>)
    : map<string, seq<string>>
    decreases |dirs|
  {
    if |dirs| == 0 then m
    else AddDir(AddDirs(m, dirs[..|dirs| - 1], accept), dirs[|dirs| - 1], accept)
  }

  /** A directory entry is kept when its extension is `desktop` and its descriptor is valid. */
  function Accept(p: DirEntry, parseMime: string -> Option<string>): Option<Declaration>
  {
    if p.extension == Some("desktop") then
      match ParseResult(p.fileName, p.section, parseMime)
      case Some(e) => Some(Declaration(e.fileName, e.mimes))
      case None => None
    else None
  }

  function Acceptor(parseMime: string -> Option<string>): DirEntry -> Option<Declaration>
  {
    p => Accept(p, parseMime)
  }

  /** populate: the nested loops of the source over the directory listing. */
  method Populate(dirs: seq<Option<seq<DirEntry>>>, parseMime: string -> Option<string>) returns (s: SystemApps)
    ensures s.apps == AddDirs(map[], dirs, Acceptor(parseMime))
  {
    var m: map<string, seq<string>> := map[];
    for d := 0 to |dirs|
      invariant m == AddDirs(map[], dirs[..d], Acceptor(parseMime))
    {
      assert dirs[..d + 1][..d] == dirs[..d];
      if dirs[d].Some? {
        var entries := dirs[d].value;
        ghost var base := m;
        for i := 0 to |entries|
          invariant m == AddEntries(base, entries[..i], Acceptor(parseMime))
        {
          assert entries[..i + 1][..i] == entries[..i];
          var p := entries[i];
          if p.extension == Some("desktop") {
            var parsed := EntryFromPath(p.path, p.fileName, p.section, parseMime);
            if parsed.Ok? {
              var fileName, mimes := parsed.value.fileName, parsed.value.mimes;
              ghost var before := m;
              for j := 0 to |mimes|
                invariant m == AddMimes(before, fileName, mimes[..j])
              {
                assert mimes[..j + 1][..j] == mimes[..j];
                var handlers := if mimes[j] in m then m[mimes[j]] else [];
                m := m[mimes[j] := handlers + [fileName]];
              }
              assert mimes[..|mimes|] == mimes;
            }
          }
        }
        assert entries[..|entries|] == entries;
      }
    }
    assert dirs[..|dirs|] == dirs;
    s := SystemApps(m);
  }

  // ---------------------------------------------------------------------------
  // An independent description of the result

  /** The descriptors the scan accepts, in scan order. */
  function AsSeq(accepted: Option<Declaration>): seq<Declaration>
  {
    match accepted case Some(e) => [e] case None => []
  }

  function AcceptedIn<E>(entries: seq<E>, accept: E -> Option<Declaration>): seq<Declaration>
    decreases |entries|
  {
    if |entries| == 0 then []
    else AcceptedIn(entries[..|entries| - 1], accept) + AsSeq(accept(entries[|entries| - 1]))
  }

  function AcceptedInDir<E>(dir: Option<seq<E>>, accept: E -> Option<Declaration>): seq<Declaration>
  {
    match dir case Some(entries) => AcceptedIn(entries, accept) case None => []
  }

  function Accepted<E>(dirs: seq<Option<seq<E>>>, accept: E -> Option<Declaration>): seq<Declaration>
    decreases |dirs|
  {
    if |dirs| == 0 then []
    else Accepted(dirs[..|dirs| - 1], accept) + AcceptedInDir(dirs[|dirs| - 1], accept)
  }

  function Count(mimes: seq<string>, k: string): nat
  {
    if |mimes| == 0 then 0 else (if mimes[0] == k then 1 else 0) + Count(mimes[1..], k)
  }

  function Repeat(x: string, n: nat): (r: seq<string>)
    ensures |r| == n && forall i | 0 <= i < n :: r[i] == x
  {
    if n == 0 then [] else [x] + Repeat(x, n - 1)
  }

  /** The handlers `k` gets from these descriptors: each file name once per declaration. */
  function Contribution(entries: seq<Declaration>, k: string): seq<string>
    decreases |entries|
  {
    if |entries| == 0 then []
    else
      var e := entries[|entries| - 1];
      Contribution(entries[..|entries| - 1], k) + Repeat(e.fileName, Count(e.mimes, k))
  }

  lemma {:induction false} CountPrefix(mimes: seq<string>, k: string)
    requires |mimes| > 0
    ensures Count(mimes, k) == Count(mimes[..|mimes| - 1], k) + (if mimes[|mimes| - 1] == k then 1 else 0)
  {
    if |mimes| > 1 {
      CountPrefix(mimes[1..], k);
      assert mimes[1..][..|mimes| - 2] == mimes[..|mimes| - 1][1..];
    }
  }

  lemma {:induction false} ContributionAppend(a: seq<Declaration>, b: seq<Declaration>, k: string)
    ensures Contribution(a + b, k) == Contribution(a, k) + Contribution(b, k)
    decreases |b|
  {
    if |b| == 0 {
      assert a + b == a;
    } else {
      assert (a + b)[..|a + b| - 1] == a + b[..|b| - 1];
      ContributionAppend(a, b[..|b| - 1], k);
    }
  }

  /** One descriptor appends its file name once per declaration of `k`. */
  lemma {:induction false} AddMimesAt(m: map<string, seq<string>>, fileName: string, mimes: seq<string>, k: string)
    ensures Lookup(AddMimes(m, fileName, mimes), k) == Lookup(m, k) + Repeat(fileName, Count(mimes, k))
    ensures k in AddMimes(m, fileName, mimes) <==> k in m || Count(mimes, k) > 0
    decreases |mimes|
  {
    if |mimes| > 0 {
      var p := mimes[..|mimes| - 1];
      AddMimesAt(m, fileName, p, k);
      CountPrefix(mimes, k);
      if mimes[|mimes| - 1] == k {
        assert Repeat(fileName, Count(p, k)) + [fileName] == Repeat(fileName, Count(p, k) + 1);
      }
    }
  }

  lemma AddAcceptedAt(m: map<string, seq<string>>, accepted: Option<Declaration>, k: string)
    ensures Lookup(AddAccepted(m, accepted), k) == Lookup(m, k) + Contribution(AsSeq(accepted), k)
    ensures k in AddAccepted(m, accepted) <==> k in m || Contribution(AsSeq(accepted), k) != []
  {
    if accepted.Some? {
      var e := accepted.value;
      AddMimesAt(m, e.fileName, e.mimes, k);
      assert [e][..0] == [];
    }
  }

  lemma {:induction false} AddEntriesAt<E>(m: map<string, seq<string>>, entries: seq<E>, accept: E -> Option<Declaration>, k: string)
    ensures Lookup(AddEntries(m, entries, accept), k) == Lookup(m, k) + Contribution(AcceptedIn(entries, accept), k)
    ensures k in AddEntries(m, entries, accept) <==> k in m || Contribution(AcceptedIn(entries, accept), k) != []
    decreases |entries|
  {
    if |entries| > 0 {
      var p := entries[..|entries| - 1];
      var accepted := accept(entries[|entries| - 1]);
      var before, seen := AddEntries(m, p, accept), AcceptedIn(p, accept);
      assert AddEntries(m, entries, accept) == AddAccepted(before, accepted);
      assert AcceptedIn(entries, accept) == seen + AsSeq(accepted);
      AddEntriesAt(m, p, accept, k);
      AddAcceptedAt(before, accepted, k);
      ContributionAppend(seen, AsSeq(accepted), k);
    }
  }

  lemma AddDirAt<E>(m: map<string, seq<string>>, dir: Option<seq<E>>, accept: E -> Option<Declaration>, k: string)
    ensures Lookup(AddDir(m, dir, accept), k) == Lookup(m, k) + Contribution(AcceptedInDir(dir, accept), k)
    ensures k in AddDir(m, dir, accept) <==> k in m || Contribution(AcceptedInDir(dir, accept), k) != []
  {
    if dir.Some? {
      AddEntriesAt(m, dir.value, accept, k);
    }
  }

  lemma {:induction false} AddDirsAt<E>(m: map<string, seq<string>>, dirs: seq<Option<seq<E>>>, accept: E -> Option<Declaration>, k: string)
    ensures Lookup(AddDirs(m, dirs, accept), k) == Lookup(m, k) + Contribution(Accepted(dirs, accept), k)
    ensures k in AddDirs(m, dirs, accept) <==> k in m || Contribution(Accepted(dirs, accept), k) != []
    decreases |dirs|
  {
    if |dirs| > 0 {
      var p, d := dirs[..|dirs| - 1], dirs[|dirs| - 1];
      var before, seen := AddDirs(m, p, accept), Accepted(p, accept);
      assert AddDirs(m, dirs, accept) == AddDir(before, d, accept);
      assert Accepted(dirs, accept) == seen + AcceptedInDir(d, accept);
      AddDirsAt(m, p, accept, k);
      AddDirAt(before, d, accept, k);
      ContributionAppend(seen, AcceptedInDir(d, accept), k);
    }
  }

  /**
   * The catalogue maps exactly the mimes some accepted descriptor declares, each
   * to the file names of its declarers in scan order.
   */
  lemma PopulatedAt<E>(dirs: seq<Option<seq<E>>>, accept: E -> Option<Declaration>, k: string)
    ensures k in AddDirs(map[], dirs, accept) <==> Contribution(Accepted(dirs, accept), k) != []
    ensures k in AddDirs(map[], dirs, accept) ==>
      AddDirs(map[], dirs, accept)[k] == Contribution(Accepted(dirs, accept), k)
  {
    AddDirsAt(map[], dirs, accept, k);
  }

  /** Every handler listed under `k` names an accepted descriptor that declares `k`. */
  lemma {:induction false} ContributionProvenance(entries: seq<Declaration>, k: string, h: string)
    requires h in Contribution(entries, k)
    ensures exists e | e in entries :: e.fileName == h && k in e.mimes
    decreases |entries|
  {
    var p := entries[..|entries| - 1];
    var e := entries[|entries| - 1];
    if h in Contribution(p, k) {
      ContributionProvenance(p, k, h);
      var e' :| e' in p && e'.fileName == h && k in e'.mimes;
      assert e' in entries;
    } else {
      assert h in Repeat(e.fileName, Count(e.mimes, k));
      CountPositive(e.mimes, k);
    }
  }

  lemma {:induction false} CountPositive(mimes: seq<string>, k: string)
    requires Count(mimes, k) > 0
    ensures k in mimes
  {
    if mimes[0] != k {
      CountPositive(mimes[1..], k);
    }
  }

  /** Every key of a populated catalogue has a non-empty list, so get_handler never panics. */
  lemma PopulatedNonEmpty<E>(dirs: seq<Option<seq<E>>>, accept: E -> Option<Declaration>)
    ensures NonEmptyLists(AddDirs(map[], dirs, accept))
  {
    forall k | k in AddDirs(map[], dirs, accept)
      ensures |AddDirs(map[], dirs, accept)[k]| > 0
    {
      PopulatedAt(dirs, accept, k);
    }
  }

  /** Handlers in the populated catalogue come from accepted descriptors declaring the mime. */
  lemma PopulatedProvenance<E>(dirs: seq<Option<seq<E>>>, accept: E -> Option<Declaration>, k: string, h: string)
    requires k in AddDirs(map[], dirs, accept) && h in AddDirs(map[], dirs, accept)[k]
    ensures exists e | e in Accepted(dirs, accept) :: e.fileName == h && k in e.mimes
  {
    PopulatedAt(dirs, accept, k);
    ContributionProvenance(Accepted(dirs, accept), k, h);
  }
}
