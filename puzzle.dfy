/**
 * Reading the puzzle string: it is cut at every '-' into side strings, and the
 * side strings and their letters are collected into two sets. Nothing is
 * validated: the number of sides, their lengths and letters shared between
 * sides are taken as they come.
 */
module Puzzle {

  const Separator: char := '-'

  /**
   * The pieces of `s` between occurrences of `sep`, as Go's `strings.Split`
   * with a one-character separator cuts them: `n` separators give `n + 1`
   * pieces, some of which may be empty, and the empty string gives one empty piece.
   */
  function Split(s: string, sep: char): (pieces: seq<string>)
    ensures |pieces| >= 1
    ensures forall k :: 0 <= k < |pieces| ==> sep !in pieces[k]
    ensures |pieces| == 1 + Occurrences(s, sep)
    decreases |s|
  {
    if s == [] then [""]
    else
      var rest := Split(s[1..], sep);
      if s[0] == sep then [""] + rest
      else [[s[0]] + rest[0]] + rest[1..]
  }

  /** How many times `c` occurs in `s`. */
  function Occurrences(s: string, c: char): nat
    decreases |s|
  {
    if s == [] then 0 else (if s[0] == c then 1 else 0) + Occurrences(s[1..], c)
  }

  /** The pieces glued back together with `sep` between neighbours. */
  function Join(pieces: seq<string>, sep: char): string
    requires |pieces| >= 1
    decreases |pieces|
  {
    if |pieces| == 1 then pieces[0] else pieces[0] + [sep] + Join(pieces[1..], sep)
  }

  /** Splitting loses nothing: joining the pieces gives the string back. */
  lemma {:induction false} JoinSplit(s: string, sep: char)
    ensures Join(Split(s, sep), sep) == s
    decreases |s|
  {
    if s != [] {
      var rest := Split(s[1..], sep);
      JoinSplit(s[1..], sep);
      if s[0] == sep {
        assert Split(s, sep)[1..] == rest;
      } else {
        var pieces := Split(s, sep);
        assert pieces[0] == [s[0]] + rest[0];
        assert pieces[1..] == rest[1..];
        if |rest| > 1 {
          assert Join(rest, sep) == rest[0] + [sep] + Join(rest[1..], sep);
          assert [s[0]] + (rest[0] + [sep] + Join(rest[1..], sep)) == ([s[0]] + rest[0]) + [sep] + Join(rest[1..], sep);
        }
        assert [s[0]] + s[1..] == s;
      }
    }
  }

  /** Joining separator-free pieces and splitting again gives the same pieces. */
  lemma {:induction false} SplitJoin(pieces: seq<string>, sep: char)
    requires |pieces| >= 1
    requires forall k :: 0 <= k < |pieces| ==> sep !in pieces[k]
    ensures Split(Join(pieces, sep), sep) == pieces
    decreases |pieces|, |pieces[0]|
  {
    if |pieces| == 1 {
      SplitNoSeparator(pieces[0], sep);
    } else if pieces[0] == [] {
      SplitJoin(pieces[1..], sep);
      SplitAfterSeparator(pieces, sep);
    } else {
      var head := pieces[0];
      var shorter := [head[1..]] + pieces[1..];
      assert shorter[1..] == pieces[1..];
      assert forall k :: 0 <= k < |shorter| ==> sep !in shorter[k] by {
        forall k | 0 <= k < |shorter| ensures sep !in shorter[k] {
          if k == 0 { assert sep !in head; } else { assert shorter[k] == pieces[k]; }
        }
      }
      SplitJoin(shorter, sep);
      SplitAfterLetter(pieces, shorter, sep);
    }
  }

  /** Gluing an empty first piece puts a separator in front, which Split turns back into an empty piece. */
  lemma SplitAfterSeparator(pieces: seq<string>, sep: char)
    requires |pieces| >= 2 && pieces[0] == []
    requires Split(Join(pieces[1..], sep), sep) == pieces[1..]
    ensures Split(Join(pieces, sep), sep) == pieces
  {
    var tail := Join(pieces[1..], sep);
    var s := [sep] + tail;
    assert Join(pieces, sep) == s;
    assert s[1..] == tail;
    assert [""] + pieces[1..] == pieces;
  }

  /** Gluing a first piece that starts with a letter puts that letter in front of the shorter join. */
  lemma SplitAfterLetter(pieces: seq<string>, shorter: seq<string>, sep: char)
    requires |pieces| >= 2 && pieces[0] != [] && pieces[0][0] != sep
    requires shorter == [pieces[0][1..]] + pieces[1..]
    requires Split(Join(shorter, sep), sep) == shorter
    ensures Split(Join(pieces, sep), sep) == pieces
  {
    var head := pieces[0];
    assert shorter[1..] == pieces[1..];
    var s := Join(pieces, sep);
    assert s == [head[0]] + Join(shorter, sep);
    assert s[1..] == Join(shorter, sep);
    assert [head[0]] + head[1..] == head;
    assert Split(s, sep) == [[head[0]] + shorter[0]] + shorter[1..];
    assert [[head[0]] + shorter[0]] + shorter[1..] == [head] + pieces[1..];
    assert [head] + pieces[1..] == pieces;
  }

  lemma {:induction false} SplitNoSeparator(s: string, sep: char)
    requires sep !in s
    ensures Split(s, sep) == [s]
    decreases |s|
  {
    if s != [] {
      assert sep !in s[1..];
      SplitNoSeparator(s[1..], sep);
      assert [s[0]] + s[1..] == s;
    }
  }

  /** No string occurs twice in `xs`. */
  predicate NoDuplicates(xs: seq<string>)
  {
    forall i, j :: 0 <= i < j < |xs| ==> xs[i] != xs[j]
  }

  /** `a` and `b` hold the same strings, whatever their order and repetitions. */
  ghost predicate SameElements(a: seq<string>, b: seq<string>)
  {
    forall x :: x in a <==> x in b
  }

  /** Every letter that occurs on some side. */
  function LettersOf(sides: seq<string>): set<char>
  {
    set x, c | x in sides && c in x :: c
  }

  /**
   * Collects the side strings of `input` (duplicates dropped, kept in order of
   * first occurrence) and every letter that occurs on some side.
   */
  method ParseSides(input: string) returns (sides: seq<string>, letters: set<char>)
    ensures SameElements(sides, Split(input, Separator))
    ensures NoDuplicates(sides)
    ensures letters == LettersOf(sides)
  {
    var pieces := Split(input, Separator);
    sides := [];
    letters := {};
    for i := 0 to |pieces|
      invariant forall x :: x in sides <==> x in pieces[..i]
      invariant NoDuplicates(sides)
      invariant forall c :: c in letters <==> exists x :: x in sides && c in x
    {
      var side := pieces[i];
      assert pieces[..i + 1] == pieces[..i] + [side];
      if side !in sides {
        sides := sides + [side];
      }
      ghost var before := letters;
      for j := 0 to |side|
        invariant forall c :: c in letters <==> c in before || c in side[..j]
      {
        assert side[..j + 1] == side[..j] + [side[j]];
        letters := letters + {side[j]};
      }
      assert side[..|side|] == side;
    }
    assert pieces[..|pieces|] == pieces;
    forall c ensures c in letters <==> c in LettersOf(sides) {
      if c in letters {
        var x :| x in sides && c in x;
      }
    }
  }
}
