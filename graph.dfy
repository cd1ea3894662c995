/**
 * The puzzle graph: every playable word filed under its first letter, its last
 * letter and the key of its distinct letters, so that the solver can jump from
 * the letter a chain ends in to every group of words that can extend it.
 *
 * The Go key is the letters of a map concatenated in the map's iteration order,
 * which the Go language leaves unspecified; here the key lists the letters in
 * ascending order, an order the language permits, so that the key depends on
 * the letter set alone.
 */
module Graph {

  /** first letter -> last letter -> key of the distinct letters -> the words with that signature, in order. */
  type PuzzleGraph = map<char, map<char, map<string, seq<string>>>>

  /** The distinct letters of `w`. */
  function LetterSet(w: string): set<char>
  {
    set c | c in w
  }

  /** No letter of `k` is repeated, and they appear in ascending order. */
  predicate StrictlyIncreasing(k: string)
  {
    forall i, j :: 0 <= i < j < |k| ==> k[i] < k[j]
  }

  predicate IsLeast(c: char, s: set<char>)
  {
    c in s && forall d :: d in s ==> c <= d
  }

  lemma {:induction false} LeastExists(s: set<char>)
    requires s != {}
    ensures exists c :: IsLeast(c, s)
    decreases |s|
  {
    var x :| x in s;
    if s - {x} != {} {
      LeastExists(s - {x});
      var y :| IsLeast(y, s - {x});
      var m := if x < y then x else y;
      forall d | d in s ensures m <= d {
        if d != x {
          assert d in s - {x};
        }
      }
      assert IsLeast(m, s);
    } else {
      assert s == {x};
      assert IsLeast(x, s);
    }
  }

  /** A letter below every letter of an ascending string can go in front of it. */
  lemma PrependLeast(m: char, rest: string)
    requires StrictlyIncreasing(rest)
    requires forall c :: c in LetterSet(rest) ==> m < c
    ensures StrictlyIncreasing([m] + rest)
    ensures LetterSet([m] + rest) == {m} + LetterSet(rest)
  {
    var k := [m] + rest;
    forall i, j | 0 <= i < j < |k| ensures k[i] < k[j] {
      assert k[j] == rest[j - 1];
      if i > 0 {
        assert k[i] == rest[i - 1];
      } else {
        assert rest[j - 1] in LetterSet(rest);
      }
    }
  }

  /** A letter above every letter of an ascending string can go after it. */
  lemma AppendGreatest(key: string, c: char)
    requires StrictlyIncreasing(key)
    requires forall i :: 0 <= i < |key| ==> key[i] < c
    ensures StrictlyIncreasing(key + [c])
    ensures LetterSet(key + [c]) == LetterSet(key) + {c}
  {
    var k := key + [c];
    forall i, j | 0 <= i < j < |k| ensures k[i] < k[j] {
      assert k[i] == key[i];
    }
  }

  /** The canonical key of a letter set: its letters, each once, in ascending order. */
  function Key(s: set<char>): (k: string)
    ensures StrictlyIncreasing(k)
    ensures LetterSet(k) == s
    ensures |k| == |s|
    decreases |s|
  {
    if s == {} then ""
    else
      LeastExists(s);
      var m :| IsLeast(m, s);
      var rest := Key(s - {m});
      PrependLeast(m, rest);
      [m] + rest
  }

  /** The first letter of an ascending string is the least of its letters; the rest holds the others. */
  lemma HeadIsLeast(k: string)
    requires StrictlyIncreasing(k) && |k| > 0
    ensures IsLeast(k[0], LetterSet(k))
    ensures StrictlyIncreasing(k[1..])
    ensures LetterSet(k[1..]) == LetterSet(k) - {k[0]}
  {
    assert k == [k[0]] + k[1..];
    assert LetterSet(k) == {k[0]} + LetterSet(k[1..]);
    assert k[0] !in k[1..];
  }

  lemma NoLettersEmpty(w: string)
    ensures LetterSet(w) == {} <==> w == []
  {
    if w != [] {
      assert w[0] in LetterSet(w);
    }
  }

  /** Two ascending strings with the same letters are the same string. */
  lemma {:induction false} SameLettersSame(a: string, b: string)
    requires StrictlyIncreasing(a) && StrictlyIncreasing(b)
    requires LetterSet(a) == LetterSet(b)
    ensures a == b
    decreases |a|
  {
    NoLettersEmpty(b);
    if a != [] {
      assert a[0] in LetterSet(b);
      HeadIsLeast(a);
      HeadIsLeast(b);
      assert a[0] == b[0];
      SameLettersSame(a[1..], b[1..]);
      assert a == [a[0]] + a[1..];
      assert b == [b[0]] + b[1..];
    }
  }

  /** A key determines its letter set and back: an ascending string is the key of its own letters. */
  lemma KeyUnique(k: string, s: set<char>)
    requires StrictlyIncreasing(k) && LetterSet(k) == s
    ensures k == Key(s)
  {
    SameLettersSame(k, Key(s));
  }

  /**
   * Halfway through building the key of `letterSet`: `key` lists, in ascending
   * order, the letters not in `rest`, and each of them is below every letter of `rest`.
   */
  ghost predicate KeySoFar(letterSet: set<char>, key: string, rest: set<char>)
  {
    && rest <= letterSet
    && LetterSet(key) == letterSet - rest
    && StrictlyIncreasing(key)
    && forall i, c :: 0 <= i < |key| && c in rest ==> key[i] < c
  }

  /** Moving the least remaining letter to the end of the key keeps it a key in progress. */
  lemma KeyStep(letterSet: set<char>, key: string, rest: set<char>, c: char)
    requires KeySoFar(letterSet, key, rest) && IsLeast(c, rest)
    ensures KeySoFar(letterSet, key + [c], rest - {c})
  {
    AppendGreatest(key, c);
    var k := key + [c];
    forall i, d | 0 <= i < |k| && d in rest - {c} ensures k[i] < d {
      if i < |key| {
        assert k[i] == key[i];
      }
    }
  }

  /**
   * Builds the key of a letter set by writing out its letters one at a time,
   * least remaining letter first.
   */
  method MakeKey(letterSet: set<char>) returns (key: string)
    ensures StrictlyIncreasing(key)
    ensures LetterSet(key) == letterSet
    ensures |key| == |letterSet|
    ensures key == Key(letterSet)
  {
    key := "";
    var rest := letterSet;
    while rest != {}
      invariant KeySoFar(letterSet, key, rest)
      decreases |rest|
    {
      LeastExists(rest);
      var c :| IsLeast(c, rest);
      KeyStep(letterSet, key, rest, c);
      key := key + [c];
      rest := rest - {c};
    }
    KeyUnique(key, letterSet);
  }

  /** The words at `g[s][e][k]`, or none when that entry is missing. */
  function Group(g: PuzzleGraph, s: char, e: char, k: string): seq<string>
  {
    if s in g && e in g[s] && k in g[s][e] then g[s][e][k] else []
  }

  /** The entry `g[s][e][k]` exists. */
  predicate Present(g: PuzzleGraph, s: char, e: char, k: string)
  {
    s in g && e in g[s] && k in g[s][e]
  }

  /** The signature of a non-empty word: first letter, last letter and key. */
  predicate HasSignature(w: string, s: char, e: char, k: string)
  {
    |w| > 0 && w[0] == s && w[|w| - 1] == e && Key(LetterSet(w)) == k
  }

  /** The graph after filing `w` at the end of the group for its signature. */
  function AddWord(g: PuzzleGraph, w: string): PuzzleGraph
    requires |w| > 0
  {
    var s, e, k := w[0], w[|w| - 1], Key(LetterSet(w));
    var byEnd := if s in g then g[s] else map[];
    var byKey := if e in byEnd then byEnd[e] else map[];
    g[s := byEnd[e := byKey[k := Group(g, s, e, k) + [w]]]]
  }

  /** The graph after filing every word of `words`, in order. */
  function BuildGraph(g: PuzzleGraph, words: seq<string>): PuzzleGraph
    requires forall i :: 0 <= i < |words| ==> |words[i]| > 0
    decreases |words|
  {
    if words == [] then g
    else AddWord(BuildGraph(g, words[..|words| - 1]), words[|words| - 1])
  }

  lemma BuildGraphStep(g: PuzzleGraph, words: seq<string>, i: nat)
    requires forall i :: 0 <= i < |words| ==> |words[i]| > 0
    requires i < |words|
    ensures BuildGraph(g, words[..i + 1]) == AddWord(BuildGraph(g, words[..i]), words[i])
  {
    assert words[..i + 1][..i] == words[..i];
  }

  /** The words of `words` with signature `(s, e, k)`, in order. */
  function Filter(words: seq<string>, s: char, e: char, k: string): seq<string>
    decreases |words|
  {
    if words == [] then []
    else
      var w := words[|words| - 1];
      Filter(words[..|words| - 1], s, e, k) + (if HasSignature(w, s, e, k) then [w] else [])
  }

  lemma {:induction false} FilterHas(words: seq<string>, s: char, e: char, k: string, w: string)
    ensures w in Filter(words, s, e, k) <==> w in words && HasSignature(w, s, e, k)
    decreases |words|
  {
    if words != [] {
      var prefix := words[..|words| - 1];
      FilterHas(prefix, s, e, k, w);
      assert words == prefix + [words[|words| - 1]];
    }
  }

  /** Filing a word appends it to its own group and leaves every other group and entry alone. */
  lemma AddWordGroups(g: PuzzleGraph, w: string, s: char, e: char, k: string)
    requires |w| > 0
    ensures Group(AddWord(g, w), s, e, k) == Group(g, s, e, k) + (if HasSignature(w, s, e, k) then [w] else [])
    ensures Present(AddWord(g, w), s, e, k) <==> Present(g, s, e, k) || HasSignature(w, s, e, k)
  {
  }

  /**
   * A graph built from nothing files exactly the words of each signature: the
   * group at `(s, e, k)` is the subsequence of `words` with that signature,
   * and the entry exists exactly when that subsequence is not empty.
   */
  lemma {:induction false} BuildGraphGroups(words: seq<string>, s: char, e: char, k: string)
    requires forall i :: 0 <= i < |words| ==> |words[i]| > 0
    ensures Group(BuildGraph(map[], words), s, e, k) == Filter(words, s, e, k)
    ensures Present(BuildGraph(map[], words), s, e, k) <==> |Filter(words, s, e, k)| > 0
    decreases |words|
  {
    if words != [] {
      var prefix := words[..|words| - 1];
      BuildGraphGroups(prefix, s, e, k);
      AddWordGroups(BuildGraph(map[], prefix), words[|words| - 1], s, e, k);
    }
  }

  /**
   * The shape the solver relies on: every entry holds at least one word, and
   * each of its words starts with the entry's first letter, ends with its last
   * letter and has exactly the letters of its key.
   */
  ghost predicate WellFormed(g: PuzzleGraph)
  {
    forall s, e, k :: Present(g, s, e, k) ==>
      |g[s][e][k]| > 0 &&
      forall w :: w in g[s][e][k] ==> |w| > 0 && w[0] == s && w[|w| - 1] == e && LetterSet(w) == LetterSet(k)
  }

  /** A graph built from nothing has the shape the solver relies on, and files every word it was given. */
  lemma BuiltGraphWellFormed(words: seq<string>)
    requires forall i :: 0 <= i < |words| ==> |words[i]| > 0
    ensures WellFormed(BuildGraph(map[], words))
    ensures forall w :: w in words ==> |w| > 0 && w in Group(BuildGraph(map[], words), w[0], w[|w| - 1], Key(LetterSet(w)))
  {
    var g := BuildGraph(map[], words);
    forall s, e, k | Present(g, s, e, k)
      ensures |g[s][e][k]| > 0
      ensures forall w :: w in g[s][e][k] ==> |w| > 0 && w[0] == s && w[|w| - 1] == e && LetterSet(w) == LetterSet(k)
    {
      BuildGraphGroups(words, s, e, k);
      forall w | w in g[s][e][k]
        ensures |w| > 0 && w[0] == s && w[|w| - 1] == e && LetterSet(w) == LetterSet(k)
      {
        FilterHas(words, s, e, k, w);
      }
    }
    forall w | w in words
      ensures |w| > 0 && w in Group(g, w[0], w[|w| - 1], Key(LetterSet(w)))
    {
      BuildGraphGroups(words, w[0], w[|w| - 1], Key(LetterSet(w)));
      FilterHas(words, w[0], w[|w| - 1], Key(LetterSet(w)), w);
    }
  }

  /** A graph built from nothing holds only words it was given. */
  lemma BuiltGraphHoldsOnlyGiven(words: seq<string>, s: char, e: char, k: string, w: string)
    requires forall i :: 0 <= i < |words| ==> |words[i]| > 0
    requires w in Group(BuildGraph(map[], words), s, e, k)
    ensures w in words
  {
    BuildGraphGroups(words, s, e, k);
    FilterHas(words, s, e, k, w);
  }
}
