/**
 * The INI-like files handlr reads and writes, as the sequence of lines the
 * pest grammar of the source hands to the readers: a `[section]` header, a
 * `key=value` property, or anything else (blank lines, the end of input).
 * Rendering a line back to text gives the exact bytes `save` writes.
 */
module Ini {
  import opened Strings

  datatype Line = Section(name: string) | Property(key: string, value: string) | Blank

  const AddedSection: string := "Added Associations"
  const DefaultSection: string := "Default Applications"

  function RenderLine(line: Line): string
  {
    match line
    case Section(name) => "[" + name + "]\n"
    case Property(key, value) => key + "=" + value + "\n"
    case Blank => "\n"
  }

  function Render(lines: seq<Line>): string
    decreases |lines|
  {
    if |lines| == 0 then "" else Render(lines[..|lines| - 1]) + RenderLine(lines[|lines| - 1])
  }

  lemma {:induction false} RenderAppend(a: seq<Line>, b: seq<Line>)
    ensures Render(a + b) == Render(a) + Render(b)
    decreases |b|
  {
    if |b| == 0 {
      assert a + b == a;
    } else {
      var init, last := b[..|b| - 1], b[|b| - 1];
      assert (a + b)[..|a + b| - 1] == a + init && (a + b)[|a + b| - 1] == last;
      assert Render(a + b) == Render(a + init) + RenderLine(last);
      RenderAppend(a, init);
      assert Render(b) == Render(init) + RenderLine(last);
      AppendAssoc(Render(a), Render(init), RenderLine(last));
    }
  }

  lemma RenderOne(line: Line)
    ensures Render([line]) == RenderLine(line)
  {
    assert [line][..0] == [];
  }

  /** The header of the first section as `save` spells it out. */
  lemma AddedHeaderText()
    ensures Render([Section(AddedSection)]) == "[Added Associations]\n"
  {
    RenderOne(Section(AddedSection));
    AddedHeaderLine();
  }

  lemma AddedHeaderLine()
    ensures RenderLine(Section(AddedSection)) == "[Added Associations]\n"
  {
  }

  lemma DefaultHeaderLine()
    ensures RenderLine(Section(DefaultSection)) == "[Default Applications]\n"
  {
  }

  /** The blank line and the header of the second section, which `save` writes together. */
  lemma DefaultHeaderText()
    ensures Render([Blank, Section(DefaultSection)]) == "\n" + "[Default Applications]\n"
  {
    RenderAppend([Blank], [Section(DefaultSection)]);
    assert [Blank] + [Section(DefaultSection)] == [Blank, Section(DefaultSection)];
    RenderOne(Blank);
    RenderOne(Section(DefaultSection));
    DefaultHeaderLine();
  }

  /** A property line as `save` writes it: the key, `=`, the joined list and `;`. */
  lemma PropertyText(key: string, handlers: seq<string>)
    ensures RenderLine(Property(key, ListValue(handlers))) == key + "=" + Join(handlers, ';') + ";\n"
  {
  }

  predicate NonEmpty(s: string)
  {
    s != ""
  }

  /**
   * The value side of a property line: split on `;`, drop empty pieces, keep
   * the first of each repeated piece, keep only valid handler names.
   */
  function ParseHandlerList(value: string, isHandler: string -> bool): seq<string>
  {
    Filter(Dedup(Filter(Split(value, ';'), NonEmpty)), isHandler)
  }

  /**
   * The parsed list has no repetitions and holds exactly the non-empty valid
   * pieces of the value, none of them containing `;`.
   */
  lemma ParsedList(value: string, isHandler: string -> bool)
    ensures NoDuplicates(ParseHandlerList(value, isHandler))
    ensures forall h :: h in ParseHandlerList(value, isHandler) <==> h in Split(value, ';') && h != "" && isHandler(h)
    ensures var r := ParseHandlerList(value, isHandler);
      forall i | 0 <= i < |r| :: r[i] != "" && ';' !in r[i] && isHandler(r[i])
  {
    var pieces := Split(value, ';');
    var r := ParseHandlerList(value, isHandler);
    FilterNoDuplicates(Dedup(Filter(pieces, NonEmpty)), isHandler);
    assert forall i | 0 <= i < |r| :: r[i] in r && r[i] in pieces && NonEmpty(r[i]);
  }

  /** `v.iter().join(";")` followed by the terminating `;`. */
  function ListValue(handlers: seq<string>): string
  {
    Join(handlers, ';') + ";"
  }

  /** A handler list that survives being written and read back unchanged. */
  predicate WellFormedList(handlers: seq<string>, isHandler: string -> bool)
  {
    && |handlers| >= 1
    && NoDuplicates(handlers)
    && forall i | 0 <= i < |handlers| :: handlers[i] != "" && ';' !in handlers[i] && isHandler(handlers[i])
  }

  /** Reading the written value of a well-formed list gives the list back. */
  lemma ParseListValue(handlers: seq<string>, isHandler: string -> bool)
    requires WellFormedList(handlers, isHandler)
    ensures ParseHandlerList(ListValue(handlers), isHandler) == handlers
  {
    var parts := handlers + [""];
    SplitTerminatedJoin(handlers, ';');
    assert Split(ListValue(handlers), ';') == parts;
    assert Filter(parts, NonEmpty) == handlers by {
      FilterAppend(handlers, [""], NonEmpty);
      FilterAllKept(handlers, NonEmpty);
      assert Filter([""], NonEmpty) == [];
    }
    DedupDistinct(handlers);
    FilterAllKept(handlers, isHandler);
  }

  /** One property line per key, in the order of `keys`. */
  function Properties(keys: seq<string>, m: map<string, seq<string>>): (r: seq<Line>)
    requires forall i | 0 <= i < |keys| :: keys[i] in m
    ensures |r| == |keys|
    decreases |keys|
  {
    if |keys| == 0 then []
    else
      var k := keys[|keys| - 1];
      Properties(keys[..|keys| - 1], m) + [Property(k, ListValue(m[k]))]
  }

  /**
   * What `save` writes: the added-associations header, its entries in key
   * order, a blank line, the default-applications header, its entries.
   */
  function Layout(added: map<string, seq<string>>, defaults: map<string, seq<string>>): seq<Line>
  {
    ([Section(AddedSection)] + Properties(SortedKeys(added.Keys), added))
    + ([Blank, Section(DefaultSection)] + Properties(SortedKeys(defaults.Keys), defaults))
  }

  function Serialize(added: map<string, seq<string>>, defaults: map<string, seq<string>>): string
  {
    Render(Layout(added, defaults))
  }

  /** The written text piece by piece, as the writes of `save` produce it. */
  lemma SerializeParts(added: map<string, seq<string>>, defaults: map<string, seq<string>>)
    ensures Serialize(added, defaults)
         == "[Added Associations]\n" + Render(Properties(SortedKeys(added.Keys), added))
            + "\n" + "[Default Applications]\n" + Render(Properties(SortedKeys(defaults.Keys), defaults))
  {
    RenderSections(Properties(SortedKeys(added.Keys), added), Properties(SortedKeys(defaults.Keys), defaults));
  }

  lemma RenderSections(p1: seq<Line>, p2: seq<Line>)
    ensures Render(([Section(AddedSection)] + p1) + ([Blank, Section(DefaultSection)] + p2))
         == "[Added Associations]\n" + Render(p1) + "\n" + "[Default Applications]\n" + Render(p2)
  {
    RenderAppend([Section(AddedSection)] + p1, [Blank, Section(DefaultSection)] + p2);
    RenderAppend([Section(AddedSection)], p1);
    RenderAppend([Blank, Section(DefaultSection)], p2);
    AddedHeaderText();
    DefaultHeaderText();
    Regroup(Render([Section(AddedSection)]), Render(p1), "\n", "[Default Applications]\n", Render(p2));
  }

  /** Concatenation regrouped, stated on plain variables so that no literal is compared piece by piece. */
  lemma Regroup(a: string, b: string, c: string, d: string, e: string)
    ensures (a + b) + ((c + d) + e) == (((a + b) + c) + d) + e
  {
  }

  /** One more key adds its `key=h1;...;hn;` line at the end. */
  lemma RenderNextProperty(keys: seq<string>, m: map<string, seq<string>>, i: nat)
    requires i < |keys| && forall j | 0 <= j < |keys| :: keys[j] in m
    ensures Render(Properties(keys[..i + 1], m))
         == Render(Properties(keys[..i], m)) + (keys[i] + "=" + Join(m[keys[i]], ';') + ";\n")
  {
    var line := Property(keys[i], ListValue(m[keys[i]]));
    var before := Properties(keys[..i], m);
    assert keys[..i + 1][..i] == keys[..i];
    assert Properties(keys[..i + 1], m) == before + [line];
    assert (before + [line])[..|before|] == before;
    assert Render(before + [line]) == Render(before) + RenderLine(line);
    PropertyText(keys[i], m[keys[i]]);
  }
}
