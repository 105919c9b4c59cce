/** Edge names of the form "A-B" and how a train recovers the two stations from them. */
module EdgeNames {

  /** JavaScript's `s.split(sep)` for a one-character separator: the pieces between separators, in order. */
  function Split(s: string, sep: char): (parts: seq<string>)
    ensures |parts| >= 1
    decreases |s|
  {
    if s == [] then [""]
    else
      var rest := Split(s[1..], sep);
      if s[0] == sep then [""] + rest
      else [[s[0]] + rest[0]] + rest[1..]
  }

  /** JavaScript's `parts.join(sep)`. */
  function Join(parts: seq<string>, sep: char): string
    requires |parts| >= 1
    decreases |parts|
  {
    if |parts| == 1 then parts[0] else parts[0] + [sep] + Join(parts[1..], sep)
  }

  /** The name `${station}-${name}` given to the edge drawn from `from` to `to`. */
  function EdgeName(from: string, to: string): string
  {
    from + "-" + to
  }

  /** `name.split('-').shift()`: the piece before the first dash. */
  function FirstPiece(name: string): string
  {
    Split(name, '-')[0]
  }

  /** `name.split('-').pop()`: the piece after the last dash. */
  function LastPiece(name: string): string
  {
    var parts := Split(name, '-');
    parts[|parts| - 1]
  }

  /** No piece of a split contains the separator. */
  lemma {:induction false} SplitPiecesLackSeparator(s: string, sep: char)
    ensures forall i :: 0 <= i < |Split(s, sep)| ==> sep !in Split(s, sep)[i]
    decreases |s|
  {
    if s != [] {
      SplitPiecesLackSeparator(s[1..], sep);
      var rest := Split(s[1..], sep);
      if s[0] != sep {
        assert sep !in [s[0]] + rest[0];
      }
    }
  }

  /** Joining the pieces of a split gives the string back. */
  lemma {:induction false} JoinSplit(s: string, sep: char)
    ensures Join(Split(s, sep), sep) == s
    decreases |s|
  {
    if s != [] {
      JoinSplit(s[1..], sep);
      var rest := Split(s[1..], sep);
      if s[0] == sep {
        assert Split(s, sep) == [""] + rest;
        assert ([""] + rest)[1..] == rest;
        assert s == [sep] + s[1..];
      } else {
        var parts := Split(s, sep);
        assert parts == [[s[0]] + rest[0]] + rest[1..];
        if |rest| == 1 {
          assert s == [s[0]] + s[1..];
        } else {
          assert parts[1..] == rest[1..];
          assert Join(rest, sep) == rest[0] + [sep] + Join(rest[1..], sep);
          assert s == [s[0]] + s[1..];
        }
      }
    }
  }

  /** A string without the separator splits into itself alone. */
  lemma {:induction false} SplitWithoutSeparator(s: string, sep: char)
    requires sep !in s
    ensures Split(s, sep) == [s]
    decreases |s|
  {
    if s != [] {
      SplitWithoutSeparator(s[1..], sep);
      assert s == [s[0]] + s[1..];
    }
  }

  /** A string that starts with the separator splits into an empty piece and the rest's pieces. */
  lemma SplitAtHead(t: string, sep: char)
    ensures Split([sep] + t, sep) == [""] + Split(t, sep)
  {
    assert ([sep] + t)[0] == sep && ([sep] + t)[1..] == t;
  }

  /** Any other first character joins the rest's first piece. */
  lemma SplitOther(c: char, t: string, sep: char)
    requires c != sep
    ensures Split([c] + t, sep) == [[c] + Split(t, sep)[0]] + Split(t, sep)[1..]
  {
    assert ([c] + t)[0] == c && ([c] + t)[1..] == t;
  }

  /** Splitting `a + sep + b` splits `a` and `b` separately. */
  lemma {:induction false} SplitAtSeparator(a: string, b: string, sep: char)
    ensures Split(a + [sep] + b, sep) == Split(a, sep) + Split(b, sep)
    decreases |a|
  {
    if a == [] {
      assert a + [sep] + b == [sep] + b;
      SplitAtHead(b, sep);
    } else {
      SplitAtSeparator(a[1..], b, sep);
      var t := a[1..] + [sep] + b;
      assert a + [sep] + b == [a[0]] + t;
      assert a == [a[0]] + a[1..];
      if a[0] == sep {
        SplitSeparatorFirst(a[1..], t, Split(b, sep), sep);
      } else {
        SplitOtherFirst(a[0], a[1..], t, Split(b, sep), sep);
      }
    }
  }

  /** The step of `SplitAtSeparator` for a string that starts with the separator. */
  lemma SplitSeparatorFirst(rest: string, t: string, right: seq<string>, sep: char)
    requires Split(t, sep) == Split(rest, sep) + right
    ensures Split([sep] + t, sep) == Split([sep] + rest, sep) + right
  {
    SplitAtHead(t, sep);
    SplitAtHead(rest, sep);
    assert [""] + (Split(rest, sep) + right) == ([""] + Split(rest, sep)) + right;
  }

  /** The step of `SplitAtSeparator` for a string that starts with another character. */
  lemma SplitOtherFirst(c: char, rest: string, t: string, right: seq<string>, sep: char)
    requires c != sep && Split(t, sep) == Split(rest, sep) + right
    ensures Split([c] + t, sep) == Split([c] + rest, sep) + right
  {
    SplitOther(c, t, sep);
    SplitOther(c, rest, sep);
    var left := Split(rest, sep);
    assert (left + right)[0] == left[0] && (left + right)[1..] == left[1..] + right;
    assert [[c] + left[0]] + (left[1..] + right) == ([[c] + left[0]] + left[1..]) + right;
  }

  /** Splitting inverts joining, for pieces without the separator. */
  lemma {:induction false} SplitJoin(parts: seq<string>, sep: char)
    requires |parts| >= 1
    requires forall i :: 0 <= i < |parts| ==> sep !in parts[i]
    ensures Split(Join(parts, sep), sep) == parts
    decreases |parts|
  {
    SplitWithoutSeparator(parts[0], sep);
    if |parts| > 1 {
      SplitJoin(parts[1..], sep);
      SplitAtSeparator(parts[0], Join(parts[1..], sep), sep);
      assert parts == [parts[0]] + parts[1..];
    }
  }

  /** The stations read back from an edge name: the first piece of the origin and the last piece of the
      destination; exactly the two stations when neither name contains a dash. */
  lemma EdgeNameEndpoints(from: string, to: string)
    ensures FirstPiece(EdgeName(from, to)) == FirstPiece(from)
    ensures LastPiece(EdgeName(from, to)) == LastPiece(to)
    ensures '-' !in from && '-' !in to ==> FirstPiece(EdgeName(from, to)) == from && LastPiece(EdgeName(from, to)) == to
  {
    assert EdgeName(from, to) == from + ['-'] + to;
    SplitAtSeparator(from, to, '-');
    if '-' !in from && '-' !in to {
      SplitWithoutSeparator(from, '-');
      SplitWithoutSeparator(to, '-');
    }
  }
}
