/**
 * The string helpers of recipes.py: `remove_blank_lines` and
 * `quoted_comma_separated`, over Python's `str.split` and `str.join`.
 */
module Strings {
  import opened Wrappers

  /** `sep.join(parts)`. */
  function Join(parts: seq<string>, sep: string): string
  {
    if parts == [] then ""
    else if |parts| == 1 then parts[0]
    else parts[0] + sep + Join(parts[1..], sep)
  }

  /**
   * `s.split(sep)` for a non-empty separator: the pieces between the
   * occurrences of `sep`, found left to right without overlap.
   */
  function Split(s: string, sep: string): (parts: seq<string>)
    requires sep != []
    ensures parts != []
    decreases |s|
  {
    if |s| < |sep| then [s]
    else if s[..|sep|] == sep then [""] + Split(s[|sep|..], sep)
    else
      var rest := Split(s[1..], sep);
      [[s[0]] + rest[0]] + rest[1..]
  }

  /** Joining the pieces of a split with the same separator gives back the string. */
  lemma {:induction false} JoinSplit(s: string, sep: string)
    requires sep != []
    ensures Join(Split(s, sep), sep) == s
    decreases |s|
  {
    if |s| < |sep| {
    } else if s[..|sep|] == sep {
      JoinSplit(s[|sep|..], sep);
      assert s == sep + s[|sep|..];
    } else {
      var rest := Split(s[1..], sep);
      JoinSplit(s[1..], sep);
      var parts := [[s[0]] + rest[0]] + rest[1..];
      assert parts[1..] == rest[1..];
      if |rest| > 1 {
        assert Join(rest, sep) == rest[0] + sep + Join(rest[1..], sep);
      }
      assert s == [s[0]] + s[1..];
    }
  }

  /** A string without the separator character splits into itself. */
  lemma {:induction false} SplitWithoutSeparator(p: string, c: char)
    requires c !in p
    ensures Split(p, [c]) == [p]
    decreases |p|
  {
    if |p| >= 1 {
      assert p[..1] == [p[0]];
      SplitWithoutSeparator(p[1..], c);
      assert [p[0]] + p[1..] == p;
    }
  }

  /** A piece free of the separator character, then the separator, splits off as one piece. */
  lemma {:induction false} SplitAfterPiece(p: string, c: char, t: string)
    requires c !in p
    ensures Split(p + [c] + t, [c]) == [p] + Split(t, [c])
    decreases |p|
  {
    var s := p + [c] + t;
    if p == [] {
      assert s[..1] == [c] && s[1..] == t;
    } else {
      assert s[..1] == [p[0]];
      assert s[1..] == p[1..] + [c] + t;
      SplitAfterPiece(p[1..], c, t);
      assert [p[0]] + p[1..] == p;
    }
  }

  /** With a one-character separator, splitting undoes joining pieces that do not contain it. */
  lemma {:induction false} SplitJoin(parts: seq<string>, c: char)
    requires parts != []
    requires forall i :: 0 <= i < |parts| ==> c !in parts[i]
    ensures Split(Join(parts, [c]), [c]) == parts
  {
    if |parts| == 1 {
      SplitWithoutSeparator(parts[0], c);
    } else {
      SplitJoin(parts[1..], c);
      SplitAfterPiece(parts[0], c, Join(parts[1..], [c]));
      assert [parts[0]] + parts[1..] == parts;
    }
  }

  /** No piece of a split on one character contains that character. */
  lemma {:induction false} SplitPiecesAvoid(s: string, c: char)
    ensures forall i :: 0 <= i < |Split(s, [c])| ==> c !in Split(s, [c])[i]
    decreases |s|
  {
    if |s| >= 1 {
      SplitPiecesAvoid(s[1..], c);
      if s[..1] != [c] {
        assert s[0] != c by { assert s[..1] == [s[0]]; }
      }
    }
  }

  /** The line is made only of spaces and tabs. */
  predicate SpacesOrTabs(line: string)
  {
    forall i :: 0 <= i < |line| ==> line[i] == ' ' || line[i] == '\t'
  }

  /**
   * `_BLANK_LINE_RE.match(line)` for `^[ \t]*$`: since `$` also matches just
   * before a newline that ends the string, a run of spaces and tabs followed
   * by one final newline is blank too.
   */
  predicate IsBlank(line: string)
  {
    SpacesOrTabs(line) || (|line| > 0 && line[|line| - 1] == '\n' && SpacesOrTabs(line[..|line| - 1]))
  }

  /** The condition of `remove_blank_lines`: `line and not _BLANK_LINE_RE.match(line)`. */
  predicate Kept(line: string)
  {
    line != "" && !IsBlank(line)
  }

  /** The lines `remove_blank_lines` keeps, in their order. */
  function KeptLines(lines: seq<string>): (kept: seq<string>)
    ensures forall i :: 0 <= i < |kept| ==> Kept(kept[i]) && kept[i] in lines
    ensures forall i :: 0 <= i < |lines| && Kept(lines[i]) ==> lines[i] in kept
  {
    if lines == [] then []
    else
      var rest := KeptLines(lines[1..]);
      assert lines == [lines[0]] + lines[1..];
      if Kept(lines[0]) then [lines[0]] + rest else rest
  }

  /** Keeping lines commutes with concatenation: the kept lines stay in their order. */
  lemma {:induction false} KeptLinesAppend(a: seq<string>, b: seq<string>)
    ensures KeptLines(a + b) == KeptLines(a) + KeptLines(b)
  {
    if a == [] {
      assert a + b == b;
    } else {
      assert (a + b)[1..] == a[1..] + b;
      KeptLinesAppend(a[1..], b);
    }
  }

  /**
   * `remove_blank_lines(s, sep)`: the lines of `s` that are not blank, joined
   * with `sep`; `str.split` raises ValueError for an empty separator.
   */
  function RemoveBlankLines(s: string, sep: string): (r: Result<string, PyError>)
    ensures r.Failure? <==> sep == []
    ensures r.Failure? ==> r.error == ValueError("empty separator")
  {
    if sep == [] then Failure(ValueError("empty separator"))
    else Success(Join(KeptLines(Split(s, sep)), sep))
  }

  /**
   * With a one-character separator (the default is a newline), the lines of
   * the result are exactly the non-blank lines of the input, in order, so
   * the result has no empty or whitespace-only line; when every line is
   * blank the result is empty.
   */
  lemma RemoveBlankLinesLines(s: string, c: char)
    ensures RemoveBlankLines(s, [c]).Success?
    ensures KeptLines(Split(s, [c])) == [] ==> RemoveBlankLines(s, [c]).value == ""
    ensures KeptLines(Split(s, [c])) != [] ==>
      Split(RemoveBlankLines(s, [c]).value, [c]) == KeptLines(Split(s, [c]))
    ensures KeptLines(Split(s, [c])) != [] ==>
      forall i :: 0 <= i < |Split(RemoveBlankLines(s, [c]).value, [c])| ==>
        Kept(Split(RemoveBlankLines(s, [c]).value, [c])[i])
  {
    var kept := KeptLines(Split(s, [c]));
    if kept != [] {
      SplitPiecesAvoid(s, c);
      forall i | 0 <= i < |kept| ensures c !in kept[i] {
        assert kept[i] in Split(s, [c]);
      }
      SplitJoin(kept, c);
    }
  }

  /** Each string wrapped in the quote: `f"{quote}{s}{quote}"`. */
  function Quoted(strings: seq<string>, quote: string): seq<string>
  {
    seq(|strings|, i requires 0 <= i < |strings| => quote + strings[i] + quote)
  }

  /** `quoted_comma_separated(strings, quote)`: the quoted strings joined with ", ". */
  function QuotedCommaSeparated(strings: seq<string>, quote: string): (r: string)
    ensures strings == [] ==> r == ""
    ensures |strings| == 1 ==> r == quote + strings[0] + quote
  {
    Join(Quoted(strings, quote), ", ")
  }

  /** Joining two non-empty lists is joining each and putting the separator between. */
  lemma {:induction false} JoinAppend(a: seq<string>, b: seq<string>, sep: string)
    requires a != [] && b != []
    ensures Join(a + b, sep) == Join(a, sep) + sep + Join(b, sep)
  {
    if |a| == 1 {
      assert (a + b)[1..] == b;
    } else {
      assert (a + b)[1..] == a[1..] + b;
      JoinAppend(a[1..], b, sep);
    }
  }

  /** The rendering of a concatenation is the two renderings separated by ", ". */
  lemma QuotedCommaSeparatedAppend(a: seq<string>, b: seq<string>, quote: string)
    requires a != [] && b != []
    ensures QuotedCommaSeparated(a + b, quote) ==
      QuotedCommaSeparated(a, quote) + ", " + QuotedCommaSeparated(b, quote)
  {
    assert Quoted(a + b, quote) == Quoted(a, quote) + Quoted(b, quote);
    JoinAppend(Quoted(a, quote), Quoted(b, quote), ", ");
  }

  /** The docstring's example: `quoted_comma_separated("abc")` is `'a', 'b', 'c'`. */
  lemma QuotedCommaSeparatedExample()
    ensures QuotedCommaSeparated(["a", "b", "c"], "'") == "'a', 'b', 'c'"
  {
    var q := Quoted(["a", "b", "c"], "'");
    assert q[0] == "'a'" && q[1] == "'b'" && q[2] == "'c'";
    assert q == ["'a'", "'b'", "'c'"];
    assert ["'a'", "'b'", "'c'"][1..] == ["'b'", "'c'"];
    assert ["'b'", "'c'"][1..] == ["'c'"];
  }
}
