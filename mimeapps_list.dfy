/**
 * The `mimeapps.list` tables as text and back: the read loop over the lines the
 * grammar produces and the writer of one section, shared by both stores.  A
 * key is kept when `parseKey` accepts it; the store passes its mime parser,
 * the early prototype keeps every key as it is.
 */
module MimeAppsList {
  import opened Wrappers
  import opened Strings
  import opened Ini

  /** The state of the read loop: the current section and the two tables so far. */
  datatype ReadState = ReadState(section: string, added: map<string, seq<string>>, defaults: map<string, seq<string>>)

  const Start: ReadState := ReadState("", map[], map[])

  /** A property line: stored only with a non-empty list, a parseable key and a known section. */
  function StoreProperty(st: ReadState, key: string, value: string,
                         isHandler: string -> bool, parseKey: string -> Option<string>): ReadState
  {
    var handlers := ParseHandlerList(value, isHandler);
    if |handlers| == 0 then st
    else
      match parseKey(key)
      case None => st
      case Some(mime) =>
        if st.section == AddedSection then st.(added := st.added[mime := handlers])
        else if st.section == DefaultSection then st.(defaults := st.defaults[mime := handlers])
        else st
  }

  function ReadLine(st: ReadState, line: Line, isHandler: string -> bool, parseKey: string -> Option<string>): ReadState
  {
    match line
    case Section(name) => st.(section := name)
    case Property(key, value) => StoreProperty(st, key, value, isHandler, parseKey)
    case Blank => st
  }

  function ReadLines(st: ReadState, lines: seq<Line>, isHandler: string -> bool, parseKey: string -> Option<string>): ReadState
    decreases |lines|
  {
    if |lines| == 0 then st
    else ReadLine(ReadLines(st, lines[..|lines| - 1], isHandler, parseKey), lines[|lines| - 1], isHandler, parseKey)
  }

  /** What a stored list looks like: non-empty, duplicate-free, of non-empty valid names without `;`. */
  predicate StoredLists(m: map<string, seq<string>>, isHandler: string -> bool)
  {
    forall k | k in m :: WellFormedList(m[k], isHandler)
  }

  /** Every list `read` stores has the shape the value parsing guarantees. */
  lemma {:induction false} ReadKeepsLists(st: ReadState, lines: seq<Line>, isHandler: string -> bool, parseKey: string -> Option<string>)
    requires StoredLists(st.added, isHandler) && StoredLists(st.defaults, isHandler)
    ensures StoredLists(ReadLines(st, lines, isHandler, parseKey).added, isHandler)
    ensures StoredLists(ReadLines(st, lines, isHandler, parseKey).defaults, isHandler)
    decreases |lines|
  {
    if |lines| > 0 {
      ReadKeepsLists(st, lines[..|lines| - 1], isHandler, parseKey);
      ReadLineKeepsLists(ReadLines(st, lines[..|lines| - 1], isHandler, parseKey), lines[|lines| - 1], isHandler, parseKey);
    }
  }

  lemma ReadLineKeepsLists(st: ReadState, line: Line, isHandler: string -> bool, parseKey: string -> Option<string>)
    requires StoredLists(st.added, isHandler) && StoredLists(st.defaults, isHandler)
    ensures StoredLists(ReadLine(st, line, isHandler, parseKey).added, isHandler)
    ensures StoredLists(ReadLine(st, line, isHandler, parseKey).defaults, isHandler)
  {
    if line.Property? {
      ParsedList(line.value, isHandler);
    }
  }

  /** Property lines under a section other than the two known ones change nothing. */
  lemma {:induction false} UnknownSectionIgnored(st: ReadState, lines: seq<Line>, isHandler: string -> bool, parseKey: string -> Option<string>)
    requires st.section != AddedSection && st.section != DefaultSection
    requires forall i | 0 <= i < |lines| :: !lines[i].Section?
    ensures ReadLines(st, lines, isHandler, parseKey) == st
    decreases |lines|
  {
    if |lines| > 0 {
      UnknownSectionIgnored(st, lines[..|lines| - 1], isHandler, parseKey);
    }
  }

  lemma ReadSingle(st: ReadState, line: Line, isHandler: string -> bool, parseKey: string -> Option<string>)
    ensures ReadLines(st, [line], isHandler, parseKey) == ReadLine(st, line, isHandler, parseKey)
  {
    assert [line][..0] == [];
  }

  /** A later line for the same key replaces what an earlier one stored. */
  lemma LaterLineWins(st: ReadState, key: string, first: string, second: string,
                      isHandler: string -> bool, parseKey: string -> Option<string>)
    requires |ParseHandlerList(second, isHandler)| > 0
    ensures ReadLines(st, [Property(key, first), Property(key, second)], isHandler, parseKey)
         == ReadLines(st, [Property(key, second)], isHandler, parseKey)
  {
    var st1 := StoreProperty(st, key, first, isHandler, parseKey);
    ReadSingle(st, Property(key, first), isHandler, parseKey);
    ReadSingle(st, Property(key, second), isHandler, parseKey);
    ReadSingle(st1, Property(key, second), isHandler, parseKey);
    ReadLinesAppend(st, [Property(key, first)], [Property(key, second)], isHandler, parseKey);
    assert [Property(key, first)] + [Property(key, second)] == [Property(key, first), Property(key, second)];
    if parseKey(key).Some? {
      var mime, hs := parseKey(key).value, ParseHandlerList(second, isHandler);
      var earlier := ParseHandlerList(first, isHandler);
      UpdateTwice(st.added, mime, earlier, hs);
      UpdateTwice(st.defaults, mime, earlier, hs);
    }
  }

  lemma UpdateTwice(m: map<string, seq<string>>, k: string, a: seq<string>, b: seq<string>)
    ensures m[k := a][k := b] == m[k := b]
  {
  }

  lemma {:induction false} ReadLinesAppend(st: ReadState, a: seq<Line>, b: seq<Line>,
                                           isHandler: string -> bool, parseKey: string -> Option<string>)
    ensures ReadLines(st, a + b, isHandler, parseKey)
         == ReadLines(ReadLines(st, a, isHandler, parseKey), b, isHandler, parseKey)
    decreases |b|
  {
    if |b| == 0 {
      assert a + b == a;
    } else {
      assert (a + b)[..|a + b| - 1] == a + b[..|b| - 1];
      ReadLinesAppend(st, a, b[..|b| - 1], isHandler, parseKey);
    }
  }

  /** The keys a save writes and a read parses back to themselves. */
  predicate Restorable(m: map<string, seq<string>>, isHandler: string -> bool, parseKey: string -> Option<string>)
  {
    forall k | k in m :: WellFormedList(m[k], isHandler) && parseKey(k) == Some(k)
  }

  /** Reading the property lines of `save` under a known section stores every listed key. */
  lemma {:induction false} ReadProperties(st: ReadState, keys: seq<string>, m: map<string, seq<string>>,
                                          isHandler: string -> bool, parseKey: string -> Option<string>)
    requires st.section == AddedSection || st.section == DefaultSection
    requires forall i | 0 <= i < |keys| :: keys[i] in m
    requires Restorable(m, isHandler, parseKey)
    ensures var r := ReadLines(st, Properties(keys, m), isHandler, parseKey);
      && r.section == st.section
      && (st.section == AddedSection ==> r.defaults == st.defaults)
      && (st.section == AddedSection ==> r.added == st.added + map k | k in keys :: m[k])
      && (st.section == DefaultSection ==> r.added == st.added)
      && (st.section == DefaultSection ==> r.defaults == st.defaults + map k | k in keys :: m[k])
    decreases |keys|
  {
    if |keys| > 0 {
      var init, k := keys[..|keys| - 1], keys[|keys| - 1];
      var before := Properties(init, m);
      var line := Property(k, ListValue(m[k]));
      assert Properties(keys, m) == before + [line];
      assert (before + [line])[..|before|] == before;
      ReadProperties(st, init, m, isHandler, parseKey);
      var r0 := ReadLines(st, before, isHandler, parseKey);
      assert ReadLines(st, Properties(keys, m), isHandler, parseKey) == ReadLine(r0, line, isHandler, parseKey);
      ParseListValue(m[k], isHandler);
      assert ReadLine(r0, line, isHandler, parseKey)
          == if st.section == AddedSection then r0.(added := r0.added[k := m[k]])
             else r0.(defaults := r0.defaults[k := m[k]]);
      KeysMapSnoc(keys, m);
      UnionUpdate(st.added, map k' | k' in init :: m[k'], k, m[k]);
      UnionUpdate(st.defaults, map k' | k' in init :: m[k'], k, m[k]);
    }
  }

  lemma UnionUpdate(a: map<string, seq<string>>, b: map<string, seq<string>>, k: string, v: seq<string>)
    ensures (a + b)[k := v] == a + b[k := v]
  {
  }

  lemma KeysMapSnoc(keys: seq<string>, m: map<string, seq<string>>)
    requires |keys| > 0 && forall i | 0 <= i < |keys| :: keys[i] in m
    ensures (map k | k in keys :: m[k])
         == (map k | k in keys[..|keys| - 1] :: m[k])[keys[|keys| - 1] := m[keys[|keys| - 1]]]
  {
  }

  lemma AllKeys(keys: seq<string>, m: map<string, seq<string>>)
    requires forall k :: k in keys <==> k in m
    ensures map[] + (map k | k in keys :: m[k]) == m
  {
  }

  lemma ReadHeader(st: ReadState, name: string, isHandler: string -> bool, parseKey: string -> Option<string>)
    ensures ReadLines(st, [Section(name)], isHandler, parseKey) == st.(section := name)
  {
    assert [Section(name)][..0] == [];
  }

  lemma ReadSeparator(st: ReadState, isHandler: string -> bool, parseKey: string -> Option<string>)
    ensures ReadLines(st, [Blank, Section(DefaultSection)], isHandler, parseKey) == st.(section := DefaultSection)
  {
    assert [Blank, Section(DefaultSection)][..1] == [Blank];
    assert [Blank][..0] == [];
  }

  /** The first half of what `save` writes restores the added associations. */
  lemma ReadAddedHalf(added: map<string, seq<string>>, keys: seq<string>,
                      isHandler: string -> bool, parseKey: string -> Option<string>)
    requires Restorable(added, isHandler, parseKey)
    requires forall k :: k in keys <==> k in added
    ensures ReadLines(Start, [Section(AddedSection)] + Properties(keys, added), isHandler, parseKey)
         == ReadState(AddedSection, added, map[])
  {
    var s1 := ReadState(AddedSection, map[], map[]);
    ReadHeader(Start, AddedSection, isHandler, parseKey);
    ReadLinesAppend(Start, [Section(AddedSection)], Properties(keys, added), isHandler, parseKey);
    ReadProperties(s1, keys, added, isHandler, parseKey);
    AllKeys(keys, added);
  }

  /** The second half restores the default applications and keeps the added ones. */
  lemma ReadDefaultHalf(added: map<string, seq<string>>, defaults: map<string, seq<string>>, keys: seq<string>,
                        isHandler: string -> bool, parseKey: string -> Option<string>)
    requires Restorable(defaults, isHandler, parseKey)
    requires forall k :: k in keys <==> k in defaults
    ensures ReadLines(ReadState(AddedSection, added, map[]),
                      [Blank, Section(DefaultSection)] + Properties(keys, defaults), isHandler, parseKey)
         == ReadState(DefaultSection, added, defaults)
  {
    var st := ReadState(AddedSection, added, map[]);
    ReadSeparator(st, isHandler, parseKey);
    ReadLinesAppend(st, [Blank, Section(DefaultSection)], Properties(keys, defaults), isHandler, parseKey);
    ReadProperties(st.(section := DefaultSection), keys, defaults, isHandler, parseKey);
    AllKeys(keys, defaults);
  }

  /**
   * Round trip: reading the lines `save` writes reproduces both tables, provided
   * every list is well formed and every key reads back as itself.
   */
  lemma SaveThenRead(added: map<string, seq<string>>, defaults: map<string, seq<string>>,
                     isHandler: string -> bool, parseKey: string -> Option<string>)
    requires Restorable(added, isHandler, parseKey) && Restorable(defaults, isHandler, parseKey)
    ensures ReadLines(Start, Layout(added, defaults), isHandler, parseKey).added == added
    ensures ReadLines(Start, Layout(added, defaults), isHandler, parseKey).defaults == defaults
  {
    ReadBothHalves(added, defaults, SortedKeys(added.Keys), SortedKeys(defaults.Keys), isHandler, parseKey);
  }

  lemma ReadBothHalves(added: map<string, seq<string>>, defaults: map<string, seq<string>>,
                       addedKeys: seq<string>, defaultKeys: seq<string>,
                       isHandler: string -> bool, parseKey: string -> Option<string>)
    requires Restorable(added, isHandler, parseKey) && Restorable(defaults, isHandler, parseKey)
    requires forall k :: k in addedKeys <==> k in added
    requires forall k :: k in defaultKeys <==> k in defaults
    ensures ReadLines(Start, ([Section(AddedSection)] + Properties(addedKeys, added))
                             + ([Blank, Section(DefaultSection)] + Properties(defaultKeys, defaults)),
                      isHandler, parseKey)
         == ReadState(DefaultSection, added, defaults)
  {
    var first := [Section(AddedSection)] + Properties(addedKeys, added);
    var second := [Blank, Section(DefaultSection)] + Properties(defaultKeys, defaults);
    ReadLinesAppend(Start, first, second, isHandler, parseKey);
    ReadAddedHalf(added, addedKeys, isHandler, parseKey);
    ReadDefaultHalf(added, defaults, defaultKeys, isHandler, parseKey);
  }

  /** The `key=h1;...;hn;` lines of one section, appended in the order of `keys`. */
  method WriteEntries(header: string, keys: seq<string>, m: map<string, seq<string>>) returns (text: string)
    requires forall j | 0 <= j < |keys| :: keys[j] in m
    ensures text == header + Render(Properties(keys, m))
  {
    var body := "";
    for i := 0 to |keys|
      invariant body == Render(Properties(keys[..i], m))
    {
      RenderNextProperty(keys, m, i);
      body := body + (keys[i] + "=" + Join(m[keys[i]], ';') + ";\n");
    }
    assert keys[..|keys|] == keys;
    text := header + body;
  }

  /** save: the two sections, each header written whether or not it has entries, keys ascending. */
  method SaveText(added: map<string, seq<string>>, defaults: map<string, seq<string>>) returns (text: string)
    ensures text == Serialize(added, defaults)
  {
    text := WriteEntries("[Added Associations]\n", SortedKeys(added.Keys), added);
    text := WriteEntries(text + "\n" + "[Default Applications]\n", SortedKeys(defaults.Keys), defaults);
    SerializeParts(added, defaults);
  }
}
