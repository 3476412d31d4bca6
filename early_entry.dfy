/**
 * The descriptor reader of the early prototype (src/common.rs): every property
 * line of the file, whatever its section, is folded into an entry of name, exec
 * template and declared mimes; the entry is accepted when both name and exec
 * are non-empty.
 *
 * Reading the file and the grammar are outside the model: the input is the
 * grammar's lines, or the I/O or parse error that stopped the read.
 */
module EarlyEntry {
  import opened Wrappers
  import opened Errors
  import opened Strings
  import opened Ini

  datatype Entry = Entry(name: string, exec: string, mimes: seq<string>)

  /** `DesktopEntry::default()`. */
  const Empty: Entry := Entry("", "", [])

  /** The `MimeType` value split on `;`, without the last piece and without any check. */
  function MimeList(value: string): (r: seq<string>)
    ensures |r| == |Split(value, ';')| - 1
  {
    var pieces := Split(value, ';');
    pieces[..|pieces| - 1]
  }

  /** The effect of one line of the file on the entry. */
  function ApplyLine(e: Entry, line: Line): Entry
  {
    match line
    case Property(key, value) =>
      if key == "Name" then e.(name := value)
      else if key == "Exec" then e.(exec := value)
      else if key == "MimeType" then e.(mimes := MimeList(value))
      else e
    case _ => e
  }

  function Fold(e: Entry, lines: seq<Line>): Entry
    decreases |lines|
  {
    if |lines| == 0 then e else ApplyLine(Fold(e, lines[..|lines| - 1]), lines[|lines| - 1])
  }

  /** `TryFrom<PathBuf>`: the loop over the lines, then the validity check. */
  method TryFrom(file: Result<seq<Line>, Error>) returns (r: Result<Entry, Error>)
    ensures file.Err? ==> r == Err(file.error)
    ensures file.Ok? ==> (r.Ok? <==> Fold(Empty, file.value).name != "" && Fold(Empty, file.value).exec != "")
    ensures file.Ok? && r.Ok? ==> r.value == Fold(Empty, file.value)
    ensures file.Ok? && r.Err? ==> r.error == InvalidEntry
  {
    if file.Err? {
      return Err(file.error);
    }
    var lines := file.value;
    var entry := Empty;
    for i := 0 to |lines|
      invariant entry == Fold(Empty, lines[..i])
    {
      assert lines[..i + 1][..i] == lines[..i];
      match lines[i]
      case Property(key, value) =>
        if key == "Name" {
          entry := entry.(name := value);
        } else if key == "Exec" {
          entry := entry.(exec := value);
        } else if key == "MimeType" {
          var mimes := Split(value, ';');
          mimes := mimes[..|mimes| - 1];
          entry := entry.(mimes := mimes);
        }
      case _ =>
    }
    assert lines[..|lines|] == lines;
    if entry.name != "" && entry.exec != "" {
      r := Ok(entry);
    } else {
      r := Err(InvalidEntry);
    }
  }

  // ---------------------------------------------------------------------------
  // What the fold amounts to

  /** The value of the last property line with this key, read from the back. */
  function LastProperty(lines: seq<Line>, key: string): Option<string>
  {
    if |lines| == 0 then None
    else
      match LastProperty(lines[1..], key)
      case Some(v) => Some(v)
      case None => if lines[0].Property? && lines[0].key == key then Some(lines[0].value) else None
  }

  lemma {:induction false} LastPropertySnoc(lines: seq<Line>, line: Line, key: string)
    ensures LastProperty(lines + [line], key)
         == if line.Property? && line.key == key then Some(line.value) else LastProperty(lines, key)
  {
    if |lines| == 0 {
      assert ([] + [line])[1..] == [];
    } else {
      assert (lines + [line])[1..] == lines[1..] + [line];
      LastPropertySnoc(lines[1..], line, key);
    }
  }

  /** The value an entry field ends with: the last such line's value, else the start value. */
  function FinalValue(start: string, last: Option<string>): string
  {
    match last case Some(v) => v case None => start
  }

  /** For each of the three keys the last line wins, in whatever section it stands. */
  lemma {:induction false} LastLineWins(e: Entry, lines: seq<Line>)
    ensures Fold(e, lines).name == FinalValue(e.name, LastProperty(lines, "Name"))
    ensures Fold(e, lines).exec == FinalValue(e.exec, LastProperty(lines, "Exec"))
    ensures Fold(e, lines).mimes == FinalMimes(e.mimes, LastProperty(lines, "MimeType"))
    decreases |lines|
  {
    if |lines| > 0 {
      var p, l := lines[..|lines| - 1], lines[|lines| - 1];
      assert lines == p + [l];
      LastLineWins(e, p);
      LastPropertySnoc(p, l, "Name");
      LastPropertySnoc(p, l, "Exec");
      LastPropertySnoc(p, l, "MimeType");
    }
  }

  /** The mimes an entry ends with: the last `MimeType` line's list, else the start list. */
  function FinalMimes(start: seq<string>, last: Option<string>): seq<string>
  {
    match last case Some(v) => MimeList(v) case None => start
  }

  /** Lines that leave the entry as it is: section headers, blanks and other keys. */
  predicate Ignored(line: Line)
  {
    !line.Property? || (line.key != "Name" && line.key != "Exec" && line.key != "MimeType")
  }

  lemma {:induction false} FoldAppend(e: Entry, a: seq<Line>, b: seq<Line>)
    ensures Fold(e, a + b) == Fold(Fold(e, a), b)
    decreases |b|
  {
    if |b| == 0 {
      assert a + b == a;
    } else {
      assert (a + b)[..|a + b| - 1] == a + b[..|b| - 1];
      FoldAppend(e, a, b[..|b| - 1]);
    }
  }

  /** Removing an ignored line from anywhere in the file changes nothing. */
  lemma IgnoredLineDropsOut(e: Entry, a: seq<Line>, line: Line, b: seq<Line>)
    requires Ignored(line)
    ensures Fold(e, a + [line] + b) == Fold(e, a + b)
  {
    FoldAppend(e, a + [line], b);
    FoldAppend(e, a, b);
    assert (a + [line])[..|a|] == a;
  }

  /** A `;`-terminated list reads back as exactly its types. */
  lemma MimeListTerminated(types: seq<string>)
    requires |types| >= 1
    requires forall i | 0 <= i < |types| :: ';' !in types[i]
    ensures MimeList(Join(types, ';') + ";") == types
  {
    SplitTerminatedJoin(types, ';');
    assert Join(types, ';') + ";" == Join(types, ';') + [';'];
    assert (types + [""])[..|types|] == types;
  }

  /** Without the trailing `;` the last declared type is lost. */
  lemma MimeListUnterminated(types: seq<string>)
    requires |types| >= 1
    requires forall i | 0 <= i < |types| :: ';' !in types[i]
    ensures MimeList(Join(types, ';')) == types[..|types| - 1]
  {
    SplitJoin(types, ';');
  }

  /** An entry is accepted iff the last `Name` line and the last `Exec` line both carry a non-empty value. */
  lemma AcceptedIff(lines: seq<Line>)
    ensures (Fold(Empty, lines).name != "" && Fold(Empty, lines).exec != "")
        <==> (&& LastProperty(lines, "Name").Some? && LastProperty(lines, "Name").value != ""
              && LastProperty(lines, "Exec").Some? && LastProperty(lines, "Exec").value != "")
  {
    LastLineWins(Empty, lines);
  }
}
