/**
 * String and sequence helpers that stand for the Rust library calls the core
 * uses: `str::split`, `Itertools::join`, `Iterator::filter`,
 * `Itertools::unique` and the byte-wise ordering of `str` that `sorted()` uses.
 */
module Strings {

  /** `s.split(sep)`: the pieces between separators, always at least one. */
  function Split(s: string, sep: char): (r: seq<string>)
    ensures |r| >= 1
    ensures forall i | 0 <= i < |r| :: sep !in r[i]
    decreases |s|
  {
    if |s| == 0 then [""]
    else
      var rest := Split(s[1..], sep);
      if s[0] == sep then [""] + rest
      else [[s[0]] + rest[0]] + rest[1..]
  }

  /** `parts.join(sep)`: the pieces with one separator between neighbours. */
  function Join(parts: seq<string>, sep: char): string
  {
    if |parts| == 0 then ""
    else if |parts| == 1 then parts[0]
    else parts[0] + [sep] + Join(parts[1..], sep)
  }

  /** Joining the pieces of a split gives back the original string. */
  lemma {:induction false} JoinSplit(s: string, sep: char)
    ensures Join(Split(s, sep), sep) == s
  {
    if |s| > 0 {
      var rest := Split(s[1..], sep);
      JoinSplit(s[1..], sep);
      if s[0] == sep {
        assert Split(s, sep) == [""] + rest;
        assert ([""] + rest)[1..] == rest;
      } else {
        var r := Split(s, sep);
        assert r == [[s[0]] + rest[0]] + rest[1..];
        if |rest| > 1 {
          assert r[1..] == rest[1..];
          assert Join(rest, sep) == rest[0] + [sep] + Join(rest[1..], sep);
        }
        assert s == [s[0]] + s[1..];
      }
    }
  }

  /** A string without the separator splits into itself alone. */
  lemma {:induction false} SplitWithoutSep(s: string, sep: char)
    requires sep !in s
    ensures Split(s, sep) == [s]
  {
    if |s| > 0 {
      SplitWithoutSep(s[1..], sep);
      assert s == [s[0]] + s[1..];
    }
  }

  /** Splitting at the first separator: the part before it is the first piece. */
  lemma {:induction false} SplitAtSep(a: string, b: string, sep: char)
    requires sep !in a
    ensures Split(a + [sep] + b, sep) == [a] + Split(b, sep)
  {
    if |a| == 0 {
      assert a + [sep] + b == [sep] + b;
      assert ([sep] + b)[1..] == b;
    } else {
      var s := a + [sep] + b;
      assert s[0] == a[0] && s[1..] == a[1..] + [sep] + b;
      SplitAtSep(a[1..], b, sep);
      assert a == [a[0]] + a[1..];
    }
  }

  /** A trailing empty piece adds one trailing separator. */
  lemma {:induction false} JoinTrailingEmpty(parts: seq<string>, sep: char)
    requires |parts| >= 1
    ensures Join(parts + [""], sep) == Join(parts, sep) + [sep]
  {
    if |parts| > 1 {
      JoinTrailingEmpty(parts[1..], sep);
      assert (parts + [""])[1..] == parts[1..] + [""];
    }
  }

  /** Splitting a join gives back the pieces, provided none holds the separator. */
  lemma {:induction false} SplitJoin(parts: seq<string>, sep: char)
    requires |parts| >= 1
    requires forall i | 0 <= i < |parts| :: sep !in parts[i]
    ensures Split(Join(parts, sep), sep) == parts
  {
    if |parts| == 1 {
      SplitWithoutSep(parts[0], sep);
    } else {
      SplitJoin(parts[1..], sep);
      SplitAtSep(parts[0], Join(parts[1..], sep), sep);
      assert parts == [parts[0]] + parts[1..];
    }
  }

  /** Splitting a `;`-terminated join gives the pieces and one empty piece. */
  lemma SplitTerminatedJoin(parts: seq<string>, sep: char)
    requires |parts| >= 1
    requires forall i | 0 <= i < |parts| :: sep !in parts[i]
    ensures Split(Join(parts, sep) + [sep], sep) == parts + [""]
  {
    var all := parts + [""];
    JoinTrailingEmpty(parts, sep);
    assert forall i | 0 <= i < |all| :: sep !in all[i];
    SplitJoin(all, sep);
  }

  /** Concatenation regrouped, stated on variables so that callers need not compare element by element. */
  lemma AppendAssoc<T>(x: seq<T>, y: seq<T>, z: seq<T>)
    ensures (x + y) + z == x + (y + z)
  {
  }

  /** `s.iter().filter(keep)`: the elements that pass, in their order. */
  function Filter<T(!new)>(s: seq<T>, keep: T -> bool): (r: seq<T>)
    ensures |r| <= |s|
    ensures forall x :: x in r <==> x in s && keep(x)
  {
    if |s| == 0 then []
    else if keep(s[0]) then [s[0]] + Filter(s[1..], keep)
    else Filter(s[1..], keep)
  }

  lemma {:induction false} FilterAllKept<T(!new)>(s: seq<T>, keep: T -> bool)
    requires forall i | 0 <= i < |s| :: keep(s[i])
    ensures Filter(s, keep) == s
  {
    if |s| > 0 {
      FilterAllKept(s[1..], keep);
      assert s == [s[0]] + s[1..];
    }
  }

  /** Filtering distributes over concatenation. */
  lemma {:induction false} FilterAppend<T(!new)>(a: seq<T>, b: seq<T>, keep: T -> bool)
    ensures Filter(a + b, keep) == Filter(a, keep) + Filter(b, keep)
  {
    if |a| > 0 {
      var ra, rb := Filter(a[1..], keep), Filter(b, keep);
      FilterAppend(a[1..], b, keep);
      assert (a + b)[0] == a[0] && (a + b)[1..] == a[1..] + b;
      if keep(a[0]) {
        assert Filter(a + b, keep) == [a[0]] + (ra + rb);
        assert Filter(a, keep) == [a[0]] + ra;
        AppendAssoc([a[0]], ra, rb);
      } else {
        assert Filter(a + b, keep) == ra + rb;
      }
    } else {
      assert a + b == b;
    }
  }

  /** Filtering keeps a sequence free of repetitions. */
  lemma {:induction false} FilterNoDuplicates<T(!new)>(s: seq<T>, keep: T -> bool)
    requires NoDuplicates(s)
    ensures NoDuplicates(Filter(s, keep))
  {
    if |s| > 0 {
      FilterNoDuplicates(s[1..], keep);
      assert s[0] !in s[1..];
    }
  }

  predicate NoDuplicates<T(==)>(s: seq<T>)
  {
    forall i, j | 0 <= i < j < |s| :: s[i] != s[j]
  }

  /** Position of the first occurrence of `x` in `s`. */
  function FirstIndex<T(==)>(s: seq<T>, x: T): (k: nat)
    requires x in s
    ensures k < |s| && s[k] == x && x !in s[..k]
  {
    if s[0] == x then 0 else 1 + FirstIndex(s[1..], x)
  }

  /** `Itertools::unique`: drops every element already seen, keeping the first. */
  function Dedup<T(==,!new)>(s: seq<T>): (r: seq<T>)
    ensures NoDuplicates(r)
    ensures forall x :: x in r <==> x in s
    decreases |s|
  {
    if |s| == 0 then []
    else
      var r := Dedup(s[..|s| - 1]);
      if s[|s| - 1] in r then r else r + [s[|s| - 1]]
  }

  /** A sequence without repetitions is left as it is. */
  lemma {:induction false} DedupDistinct<T(!new)>(s: seq<T>)
    requires NoDuplicates(s)
    ensures Dedup(s) == s
  {
    if |s| > 0 {
      var p := s[..|s| - 1];
      DedupDistinct(p);
      assert s[|s| - 1] !in p;
      assert p + [s[|s| - 1]] == s;
    }
  }

  lemma FirstIndexOfPrefix<T>(p: seq<T>, y: T, x: T)
    requires x in p
    ensures FirstIndex(p + [y], x) == FirstIndex(p, x)
  {
    if p[0] != x {
      assert (p + [y])[1..] == p[1..] + [y];
      FirstIndexOfPrefix(p[1..], y, x);
    }
  }

  /** The kept elements appear in the order of their first occurrences. */
  lemma {:induction false} DedupFirstOccurrenceOrder<T(!new)>(s: seq<T>)
    ensures forall i, j | 0 <= i < j < |Dedup(s)| ::
      FirstIndex(s, Dedup(s)[i]) < FirstIndex(s, Dedup(s)[j])
  {
    if |s| > 0 {
      var p := s[..|s| - 1];
      var y := s[|s| - 1];
      var r := Dedup(p);
      assert s == p + [y];
      DedupFirstOccurrenceOrder(p);
      forall x | x in r ensures FirstIndex(s, x) == FirstIndex(p, x) && FirstIndex(p, x) < |p| {
        FirstIndexOfPrefix(p, y, x);
      }
      if y !in r {
        assert y !in p;
        assert forall k | 0 <= k < |p| :: s[k] != y;
      }
    }
  }

  /** Byte-wise (here: character-wise) ordering of strings, as Rust's `Ord for str`. */
  predicate LexLe(a: string, b: string)
  {
    |a| == 0 || (|b| > 0 && (a[0] < b[0] || (a[0] == b[0] && LexLe(a[1..], b[1..]))))
  }

  lemma {:induction false} LexTotal(a: string, b: string)
    ensures LexLe(a, b) || LexLe(b, a)
  {
    if |a| > 0 && |b| > 0 && a[0] == b[0] {
      LexTotal(a[1..], b[1..]);
    }
  }

  lemma {:induction false} LexAntisymmetric(a: string, b: string)
    requires LexLe(a, b) && LexLe(b, a)
    ensures a == b
  {
    if |a| > 0 && |b| > 0 {
      LexAntisymmetric(a[1..], b[1..]);
      assert a == [a[0]] + a[1..];
      assert b == [b[0]] + b[1..];
    }
  }

  lemma {:induction false} LexTransitive(a: string, b: string, c: string)
    requires LexLe(a, b) && LexLe(b, c)
    ensures LexLe(a, c)
  {
    if |a| > 0 && |b| > 0 && |c| > 0 && a[0] == b[0] == c[0] {
      LexTransitive(a[1..], b[1..], c[1..]);
    }
  }

  predicate IsLeast(m: string, keys: set<string>)
  {
    m in keys && forall x | x in keys :: LexLe(m, x)
  }

  lemma {:induction false} LeastOf(keys: set<string>) returns (m: string)
    requires keys != {}
    ensures IsLeast(m, keys)
  {
    var y :| y in keys;
    LexTotal(y, y);
    if keys == {y} {
      m := y;
    } else {
      var m' := LeastOf(keys - {y});
      LexTotal(m', y);
      if LexLe(m', y) {
        m := m';
      } else {
        forall x | x in keys ensures LexLe(y, x) {
          if x != y { LexTransitive(y, m', x); }
        }
        m := y;
      }
    }
  }

  lemma HasLeast(keys: set<string>)
    requires keys != {}
    ensures exists m :: IsLeast(m, keys)
  {
    var m := LeastOf(keys);
  }

  lemma LeastUnique(keys: set<string>)
    ensures forall a, b :: IsLeast(a, keys) && IsLeast(b, keys) ==> a == b
  {
    forall a, b | IsLeast(a, keys) && IsLeast(b, keys) ensures a == b {
      LexAntisymmetric(a, b);
    }
  }

  predicate Sorted(s: seq<string>)
  {
    forall i, j | 0 <= i < j < |s| :: LexLe(s[i], s[j])
  }

  /** The keys of a map in ascending order, as `map.iter().sorted()` visits them. */
  function SortedKeys(keys: set<string>): (r: seq<string>)
    ensures |r| == |keys|
    ensures forall k :: k in r <==> k in keys
    ensures NoDuplicates(r)
    ensures Sorted(r)
    decreases keys
  {
    if keys == {} then []
    else
      HasLeast(keys);
      LeastUnique(keys);
      var m :| IsLeast(m, keys);
      [m] + SortedKeys(keys - {m})
  }
}
