/**
 * The solver: a depth-first walk over the puzzle graph. A path is a sequence of
 * word groups, each group being all the words filed under one first letter,
 * last letter and letter key; each next group must start with the letter the
 * previous one ends in and must add at least one new letter. A path is a
 * solution once its groups cover twelve distinct letters; the walk gives up
 * on a path that reaches the length threshold first.
 */
module Solver {
  import opened Graph

  /** Number of distinct letters a solution must cover. */
  const Goal: nat := 12

  /** One entry of the graph: first letter, last letter and letter key. */
  datatype Edge = Edge(first: char, last: char, key: string)

  /** Every letter that occurs in some key of `g`. */
  function KeyLetters(g: PuzzleGraph): set<char>
  {
    set s, e, k, c | s in g && e in g[s] && k in g[s][e] && c in k :: c
  }

  lemma KeyInKeyLetters(g: PuzzleGraph, s: char, e: char, k: string)
    requires Present(g, s, e, k)
    ensures LetterSet(k) <= KeyLetters(g)
  {
    forall c | c in LetterSet(k) ensures c in KeyLetters(g) {
      assert s in g && e in g[s] && k in g[s][e] && c in k;
    }
  }

  lemma NewElement(a: set<char>, b: set<char>)
    requires |a + b| > |a|
    ensures exists c :: c in b && c !in a
  {
    var d := (a + b) - a;
    assert a + d == a + b;
    assert |d| > 0;
    var c :| c in d;
  }

  /** A group adding a new letter leaves fewer key letters uncovered, which bounds the walk. */
  lemma StepShrinks(g: PuzzleGraph, letters: set<char>, s: char, e: char, k: string)
    requires Present(g, s, e, k)
    requires |letters + LetterSet(k)| > |letters|
    ensures KeyLetters(g) - (letters + LetterSet(k)) < KeyLetters(g) - letters
  {
    KeyInKeyLetters(g, s, e, k);
    NewElement(letters, LetterSet(k));
    var c :| c in LetterSet(k) && c !in letters;
    assert c in KeyLetters(g) - letters;
  }

  /** The entries the walk may take from `next`: those that add at least one letter to `letters`. */
  function Steps(g: PuzzleGraph, letters: set<char>, next: char): (r: set<Edge>)
    ensures forall x :: x in r <==>
      x.first == next && Present(g, x.first, x.last, x.key) && |letters + LetterSet(x.key)| > |letters|
    ensures forall x :: x in r ==> KeyLetters(g) - (letters + LetterSet(x.key)) < KeyLetters(g) - letters
  {
    forall x: Edge | x.first == next && Present(g, x.first, x.last, x.key) && |letters + LetterSet(x.key)| > |letters|
      ensures KeyLetters(g) - (letters + LetterSet(x.key)) < KeyLetters(g) - letters
    {
      StepShrinks(g, letters, x.first, x.last, x.key);
    }
    set e, k | next in g && e in g[next] && k in g[next][e] && |letters + LetterSet(k)| > |letters| :: Edge(next, e, k)
  }

  /**
   * The group paths the walk accepts from `path`, which covers `letters` and
   * ends in `next`: the path itself once twelve letters are covered (checked
   * before the threshold), nothing once the path has `thr` groups, and
   * otherwise every acceptance one step further along an entry that adds a letter.
   */
  function Search(g: PuzzleGraph, thr: int, path: seq<seq<string>>, letters: set<char>, next: char): set<seq<seq<string>>>
    decreases KeyLetters(g) - letters
  {
    if |letters| == Goal then {path}
    else if |path| == thr then {}
    else
      set x, p | x in Steps(g, letters, next) &&
        p in Search(g, thr, path + [Group(g, x.first, x.last, x.key)], letters + LetterSet(x.key), x.last) :: p
  }

  /** The words of a group path, group after group. */
  function Flatten(path: seq<seq<string>>): seq<string>
    decreases |path|
  {
    if path == [] then [] else Flatten(path[..|path| - 1]) + path[|path| - 1]
  }

  /** The solutions found from one starting path: its accepted group paths, flattened. */
  function FindSolutionsInner(g: PuzzleGraph, thr: int, path: seq<seq<string>>, letters: set<char>, next: char): set<seq<string>>
  {
    set p | p in Search(g, thr, path, letters, next) :: Flatten(p)
  }

  /**
   * Every solution of the puzzle: the walk is started from each entry whose
   * first and last letters are puzzle letters, with that entry's group as
   * the path and its key's letters as the covered letters.
   */
  function FindAllSolutions(g: PuzzleGraph, letters: set<char>, thr: int): set<seq<string>>
  {
    set f, l, k, sol | f in letters && l in letters && f in g && l in g[f] && k in g[f][l] &&
      sol in FindSolutionsInner(g, thr, [Group(g, f, l, k)], LetterSet(k), l) :: sol
  }

  // ---------------------------------------------------------------------------
  // An independent description of a solution, as a sequence of graph entries.

  /** The entries are in `g`, and each one starts with the letter the previous one ends in. */
  predicate Chain(g: PuzzleGraph, es: seq<Edge>)
  {
    (forall i :: 0 <= i < |es| ==> Present(g, es[i].first, es[i].last, es[i].key)) &&
    (forall i :: 0 <= i < |es| - 1 ==> es[i].last == es[i + 1].first)
  }

  /** The letters of all keys of `es`. */
  function Cover(es: seq<Edge>): set<char>
    decreases |es|
  {
    if es == [] then {} else Cover(es[..|es| - 1]) + LetterSet(es[|es| - 1].key)
  }

  /** Each entry after the first adds at least one letter. */
  predicate Grows(es: seq<Edge>)
  {
    forall i :: 1 <= i < |es| ==> |Cover(es[..i + 1])| > |Cover(es[..i])|
  }

  /** No proper prefix of `es` is complete, nor as long as the threshold. */
  predicate NoEarlyStop(es: seq<Edge>, thr: int)
  {
    forall i :: 1 <= i < |es| ==> |Cover(es[..i])| != Goal && i != thr
  }

  /**
   * A solution: a non-empty chain of entries, each one after the first adding
   * a letter, covering twelve letters at its end and not before, and cut off
   * by the threshold at no proper prefix.
   */
  ghost predicate Solution(g: PuzzleGraph, thr: int, es: seq<Edge>)
  {
    |es| >= 1 && Chain(g, es) && Grows(es) && NoEarlyStop(es, thr) && |Cover(es)| == Goal
  }

  /** The groups of the entries of a chain. */
  function Groups(g: PuzzleGraph, es: seq<Edge>): (r: seq<seq<string>>)
    requires forall i :: 0 <= i < |es| ==> Present(g, es[i].first, es[i].last, es[i].key)
    ensures |r| == |es|
    ensures forall i :: 0 <= i < |es| ==> r[i] == Group(g, es[i].first, es[i].last, es[i].key)
    decreases |es|
  {
    if es == [] then []
    else
      var x := es[|es| - 1];
      Groups(g, es[..|es| - 1]) + [Group(g, x.first, x.last, x.key)]
  }

  lemma PrefixOfPrefix(es: seq<Edge>, n: nat, i: nat)
    requires i <= n <= |es|
    ensures es[..n][..i] == es[..i]
  {
  }

  /** Every prefix of a chain is a chain, and keeps its growth and early-stop guarantees. */
  lemma PrefixKeeps(g: PuzzleGraph, thr: int, es: seq<Edge>, n: nat)
    requires n <= |es|
    requires Chain(g, es) && Grows(es) && NoEarlyStop(es, thr)
    ensures Chain(g, es[..n]) && Grows(es[..n]) && NoEarlyStop(es[..n], thr)
  {
    var pre := es[..n];
    assert Chain(g, pre) by {
      forall i | 0 <= i < |pre| ensures pre[i] == es[i] {
      }
    }
    assert Grows(pre) by {
      forall i | 1 <= i < |pre| ensures |Cover(pre[..i + 1])| > |Cover(pre[..i])| {
        PrefixOfPrefix(es, n, i);
        PrefixOfPrefix(es, n, i + 1);
        GrowsAt(es, i);
      }
    }
    assert NoEarlyStop(pre, thr) by {
      forall i | 1 <= i < |pre| ensures |Cover(pre[..i])| != Goal && i != thr {
        PrefixOfPrefix(es, n, i);
        NoEarlyStopAt(es, thr, i);
      }
    }
  }

  lemma GrowsAt(es: seq<Edge>, i: int)
    requires Grows(es) && 1 <= i < |es|
    ensures |Cover(es[..i + 1])| > |Cover(es[..i])|
  {
  }

  lemma DropLastPrefix(pre: seq<Edge>, x: Edge, es: seq<Edge>)
    requires pre + [x] <= es
    ensures pre <= es
  {
    assert es[..|pre|] == (pre + [x])[..|pre|];
  }

  lemma AppendSlice(pre: seq<Edge>, x: Edge, i: nat)
    requires i <= |pre|
    ensures (pre + [x])[..i] == pre[..i]
  {
  }

  /** Appending an entry to a chain. */
  lemma AppendUnfolds(g: PuzzleGraph, pre: seq<Edge>, x: Edge)
    requires forall i :: 0 <= i < |pre| ==> Present(g, pre[i].first, pre[i].last, pre[i].key)
    requires Present(g, x.first, x.last, x.key)
    ensures (pre + [x])[..|pre|] == pre
    ensures Cover(pre + [x]) == Cover(pre) + LetterSet(x.key)
    ensures Groups(g, pre + [x]) == Groups(g, pre) + [Group(g, x.first, x.last, x.key)]
  {
    assert (pre + [x])[..|pre|] == pre;
  }

  lemma ExtendChain(g: PuzzleGraph, pre: seq<Edge>, x: Edge)
    requires |pre| >= 1 && Chain(g, pre)
    requires Present(g, x.first, x.last, x.key) && x.first == pre[|pre| - 1].last
    ensures Chain(g, pre + [x])
  {
    var pre' := pre + [x];
    forall i | 0 <= i < |pre| ensures pre'[i] == pre[i] {
    }
  }

  lemma ExtendGrows(pre: seq<Edge>, x: Edge)
    requires |pre| >= 1 && Grows(pre)
    requires |Cover(pre + [x])| > |Cover(pre)|
    ensures Grows(pre + [x])
  {
    var pre' := pre + [x];
    forall i | 1 <= i < |pre'| ensures |Cover(pre'[..i + 1])| > |Cover(pre'[..i])| {
      if i < |pre| {
        AppendSlice(pre, x, i);
        AppendSlice(pre, x, i + 1);
        GrowsAt(pre, i);
      } else {
        assert pre'[..i + 1] == pre';
        assert pre'[..i] == pre;
      }
    }
  }

  lemma ExtendNoEarlyStop(pre: seq<Edge>, x: Edge, thr: int)
    requires |pre| >= 1 && NoEarlyStop(pre, thr)
    requires |Cover(pre)| != Goal && |pre| != thr
    ensures NoEarlyStop(pre + [x], thr)
  {
    var pre' := pre + [x];
    forall i | 1 <= i < |pre'| ensures |Cover(pre'[..i])| != Goal && i != thr {
      AppendSlice(pre, x, i);
      if i < |pre| {
        NoEarlyStopAt(pre, thr, i);
      }
    }
  }

  /** A step of the walk from a valid prefix gives a valid prefix one entry longer. */
  lemma ExtendKeeps(g: PuzzleGraph, thr: int, pre: seq<Edge>, x: Edge)
    requires |pre| >= 1 && Chain(g, pre) && Grows(pre) && NoEarlyStop(pre, thr)
    requires |Cover(pre)| != Goal && |pre| != thr
    requires x in Steps(g, Cover(pre), pre[|pre| - 1].last)
    ensures Chain(g, pre + [x]) && Grows(pre + [x]) && NoEarlyStop(pre + [x], thr)
    ensures Cover(pre + [x]) == Cover(pre) + LetterSet(x.key)
    ensures Groups(g, pre + [x]) == Groups(g, pre) + [Group(g, x.first, x.last, x.key)]
  {
    assert x.first == pre[|pre| - 1].last && Present(g, x.first, x.last, x.key);
    AppendUnfolds(g, pre, x);
    ExtendChain(g, pre, x);
    ExtendGrows(pre, x);
    ExtendNoEarlyStop(pre, x, thr);
  }

  /** One level of the walk: below the goal and the threshold, it takes every step that adds a letter. */
  lemma SearchUnfolds(g: PuzzleGraph, thr: int, path: seq<seq<string>>, letters: set<char>, next: char, p: seq<seq<string>>)
    requires |letters| != Goal && |path| != thr
    ensures p in Search(g, thr, path, letters, next) <==>
      exists x :: x in Steps(g, letters, next) &&
        p in Search(g, thr, path + [Group(g, x.first, x.last, x.key)], letters + LetterSet(x.key), x.last)
  {
  }

  /** What the walk accepts from a valid prefix is a solution extending that prefix. */
  lemma {:induction false} SearchSound(g: PuzzleGraph, thr: int, pre: seq<Edge>, p: seq<seq<string>>)
    requires |pre| >= 1 && Chain(g, pre) && Grows(pre) && NoEarlyStop(pre, thr)
    requires p in Search(g, thr, Groups(g, pre), Cover(pre), pre[|pre| - 1].last)
    ensures exists es :: Solution(g, thr, es) && pre <= es && p == Groups(g, es)
    decreases KeyLetters(g) - Cover(pre)
  {
    var path, letters, next := Groups(g, pre), Cover(pre), pre[|pre| - 1].last;
    if |letters| == Goal {
      assert Solution(g, thr, pre) && pre <= pre && p == Groups(g, pre);
    } else {
      SearchUnfolds(g, thr, path, letters, next, p);
      var x :| x in Steps(g, letters, next) &&
        p in Search(g, thr, path + [Group(g, x.first, x.last, x.key)], letters + LetterSet(x.key), x.last);
      ExtendKeeps(g, thr, pre, x);
      var pre' := pre + [x];
      assert pre'[|pre'| - 1] == x;
      SearchSound(g, thr, pre', p);
      var es :| Solution(g, thr, es) && pre' <= es && p == Groups(g, es);
      DropLastPrefix(pre, x, es);
    }
  }

  /** Every solution extending a valid prefix is accepted by the walk from that prefix. */
  lemma {:induction false} SearchComplete(g: PuzzleGraph, thr: int, pre: seq<Edge>, es: seq<Edge>)
    requires |pre| >= 1 && Chain(g, pre) && Grows(pre) && NoEarlyStop(pre, thr)
    requires Solution(g, thr, es) && pre <= es
    ensures Groups(g, es) in Search(g, thr, Groups(g, pre), Cover(pre), pre[|pre| - 1].last)
    decreases |es| - |pre|
  {
    var path, letters, next := Groups(g, pre), Cover(pre), pre[|pre| - 1].last;
    if |es| == |pre| {
      assert es == pre;
    } else {
      var n := |pre|;
      assert es[..n] == pre;
      assert |letters| != Goal && n != thr;
      var x := es[n];
      var pre' := es[..n + 1];
      assert pre' == pre + [x];
      AppendUnfolds(g, pre, x);
      assert x in Steps(g, letters, next);
      PrefixKeeps(g, thr, es, n + 1);
      SearchComplete(g, thr, pre', es);
      SearchUnfolds(g, thr, path, letters, next, Groups(g, es));
    }
  }

  /** A single entry of the graph is a valid prefix. */
  lemma SingleEdge(g: PuzzleGraph, thr: int, x: Edge)
    requires Present(g, x.first, x.last, x.key)
    ensures Chain(g, [x]) && Grows([x]) && NoEarlyStop([x], thr)
    ensures Groups(g, [x]) == [Group(g, x.first, x.last, x.key)]
    ensures Cover([x]) == LetterSet(x.key)
  {
    AppendUnfolds(g, [], x);
    assert [] + [x] == [x];
  }

  /** `sol` is the flattened group path of a solution whose first entry starts and ends with puzzle letters. */
  ghost predicate SolutionOf(g: PuzzleGraph, letters: set<char>, thr: int, es: seq<Edge>, sol: seq<string>)
  {
    Solution(g, thr, es) && es[0].first in letters && es[0].last in letters && sol == Flatten(Groups(g, es))
  }

  lemma AllSolutionsStart(g: PuzzleGraph, letters: set<char>, thr: int, sol: seq<string>)
    ensures sol in FindAllSolutions(g, letters, thr) <==>
      exists x: Edge :: x.first in letters && x.last in letters && Present(g, x.first, x.last, x.key) &&
        sol in FindSolutionsInner(g, thr, [Group(g, x.first, x.last, x.key)], LetterSet(x.key), x.last)
  {
    if sol in FindAllSolutions(g, letters, thr) {
      var f, l, k :| f in letters && l in letters && f in g && l in g[f] && k in g[f][l] &&
        sol in FindSolutionsInner(g, thr, [Group(g, f, l, k)], LetterSet(k), l);
      var x := Edge(f, l, k);
      assert x.first in letters && x.last in letters && Present(g, x.first, x.last, x.key);
    }
  }

  /** Every solution found is the flattened group path of a solution starting on puzzle letters. */
  lemma AllSolutionsSound(g: PuzzleGraph, letters: set<char>, thr: int, sol: seq<string>)
    requires sol in FindAllSolutions(g, letters, thr)
    ensures exists es :: SolutionOf(g, letters, thr, es, sol)
  {
    AllSolutionsStart(g, letters, thr, sol);
    var x: Edge :| x.first in letters && x.last in letters && Present(g, x.first, x.last, x.key) &&
      sol in FindSolutionsInner(g, thr, [Group(g, x.first, x.last, x.key)], LetterSet(x.key), x.last);
    var p :| p in Search(g, thr, [Group(g, x.first, x.last, x.key)], LetterSet(x.key), x.last) && sol == Flatten(p);
    SingleEdge(g, thr, x);
    SearchSound(g, thr, [x], p);
    var es :| Solution(g, thr, es) && [x] <= es && p == Groups(g, es);
    assert es[0] == x;
    assert SolutionOf(g, letters, thr, es, sol);
  }

  /** Every solution starting on puzzle letters is found, as its flattened group path. */
  lemma AllSolutionsComplete(g: PuzzleGraph, letters: set<char>, thr: int, es: seq<Edge>, sol: seq<string>)
    requires SolutionOf(g, letters, thr, es, sol)
    ensures sol in FindAllSolutions(g, letters, thr)
  {
    var x := es[0];
    assert es[..1] == [x];
    SingleEdge(g, thr, x);
    SearchComplete(g, thr, [x], es);
    assert sol in FindSolutionsInner(g, thr, [Group(g, x.first, x.last, x.key)], LetterSet(x.key), x.last);
    AllSolutionsStart(g, letters, thr, sol);
  }

  /**
   * The solutions found are exactly the flattened group paths of the
   * solutions whose first entry starts and ends with puzzle letters.
   */
  lemma AllSolutionsExactly(g: PuzzleGraph, letters: set<char>, thr: int, sol: seq<string>)
    ensures sol in FindAllSolutions(g, letters, thr) <==> exists es :: SolutionOf(g, letters, thr, es, sol)
  {
    if sol in FindAllSolutions(g, letters, thr) {
      AllSolutionsSound(g, letters, thr, sol);
    }
    if exists es :: SolutionOf(g, letters, thr, es, sol) {
      var es :| SolutionOf(g, letters, thr, es, sol);
      AllSolutionsComplete(g, letters, thr, es, sol);
    }
  }

  // ---------------------------------------------------------------------------
  // What a solution guarantees about its words, in a well-formed graph.

  /** The distinct letters of all words of `ws`. */
  function WordsLetters(ws: seq<string>): set<char>
    decreases |ws|
  {
    if ws == [] then {} else WordsLetters(ws[..|ws| - 1]) + LetterSet(ws[|ws| - 1])
  }

  lemma {:induction false} WordsLettersAppend(a: seq<string>, b: seq<string>)
    ensures WordsLetters(a + b) == WordsLetters(a) + WordsLetters(b)
    decreases |b|
  {
    if b == [] {
      assert a + b == a;
    } else {
      var b' := b[..|b| - 1];
      WordsLettersAppend(a, b');
      assert (a + b)[..|a + b| - 1] == a + b';
      assert (a + b)[|a + b| - 1] == b[|b| - 1];

    }
  }

  lemma {:induction false} WordsLettersUniform(ws: seq<string>, letters: set<char>)
    requires |ws| > 0
    requires forall w :: w in ws ==> LetterSet(w) == letters
    ensures WordsLetters(ws) == letters
    decreases |ws|
  {
    var ws' := ws[..|ws| - 1];
    assert ws[|ws| - 1] in ws;
    if ws' != [] {
      forall w | w in ws' ensures LetterSet(w) == letters {
        assert w in ws;
      }
      WordsLettersUniform(ws', letters);
    }
  }

  /** Flattening distributes over appending one group. */
  lemma FlattenAppend(path: seq<seq<string>>, group: seq<string>)
    ensures Flatten(path + [group]) == Flatten(path) + group
  {
    assert (path + [group])[..|path|] == path;
  }

  /** In a well-formed graph, the words of a chain's groups have exactly the letters of its keys. */
  lemma {:induction false} CoverWords(g: PuzzleGraph, es: seq<Edge>)
    requires WellFormed(g)
    requires forall i :: 0 <= i < |es| ==> Present(g, es[i].first, es[i].last, es[i].key)
    ensures WordsLetters(Flatten(Groups(g, es))) == Cover(es)
    decreases |es|
  {
    if es != [] {
      var pre, x := es[..|es| - 1], es[|es| - 1];
      assert es == pre + [x];
      CoverWords(g, pre);
      AppendUnfolds(g, pre, x);
      var group := Group(g, x.first, x.last, x.key);
      FlattenAppend(Groups(g, pre), group);
      WordsLettersAppend(Flatten(Groups(g, pre)), group);
      WordsLettersUniform(group, LetterSet(x.key));
    }
  }

  /** The words of a solution cover exactly twelve distinct letters. */
  lemma SolutionCoversGoal(g: PuzzleGraph, thr: int, es: seq<Edge>)
    requires WellFormed(g) && Solution(g, thr, es)
    ensures |WordsLetters(Flatten(Groups(g, es)))| == Goal
  {
    CoverWords(g, es);
  }

  /** Every solution found covers exactly twelve distinct letters. */
  lemma FoundSolutionsCoverGoal(g: PuzzleGraph, letters: set<char>, thr: int, sol: seq<string>)
    requires WellFormed(g)
    requires sol in FindAllSolutions(g, letters, thr)
    ensures |WordsLetters(sol)| == Goal
  {
    AllSolutionsSound(g, letters, thr, sol);
    var es :| SolutionOf(g, letters, thr, es, sol);
    SolutionCoversGoal(g, thr, es);
  }

  lemma NoEarlyStopAt(es: seq<Edge>, thr: int, i: int)
    requires NoEarlyStop(es, thr) && 1 <= i < |es|
    ensures |Cover(es[..i])| != Goal && i != thr
  {
  }

  /** A positive threshold bounds the number of groups of a solution. */
  lemma SolutionWithinThreshold(g: PuzzleGraph, thr: int, es: seq<Edge>)
    requires Solution(g, thr, es) && thr >= 1
    ensures |es| <= thr
  {
    if 1 <= thr < |es| {
      NoEarlyStopAt(es, thr, thr);
      assert false;
    }
  }

  /** Every word of `a` is non-empty and ends with the letter every word of `b` starts with. */
  predicate Links(a: seq<string>, b: seq<string>)
  {
    forall u, v :: u in a && v in b ==> |u| > 0 && |v| > 0 && u[|u| - 1] == v[0]
  }

  /**
   * Consecutive groups of a solution chain: every word of a group is
   * non-empty and ends with the letter every word of the next group starts with.
   */
  lemma SolutionChains(g: PuzzleGraph, thr: int, es: seq<Edge>)
    requires WellFormed(g) && Solution(g, thr, es)
    ensures forall i :: 0 <= i < |es| ==> |Groups(g, es)[i]| > 0
    ensures forall i, j :: 0 <= i && j == i + 1 && j < |es| ==> Links(Groups(g, es)[i], Groups(g, es)[j])
  {
  }

  /** Each group of a solution after the first adds at least one letter the earlier words lack. */
  lemma SolutionGrows(g: PuzzleGraph, thr: int, es: seq<Edge>)
    requires WellFormed(g) && Solution(g, thr, es)
    ensures forall i :: 1 <= i < |es| ==>
      |WordsLetters(Flatten(Groups(g, es[..i + 1])))| > |WordsLetters(Flatten(Groups(g, es[..i])))|
  {
    forall i | 1 <= i < |es|
      ensures |WordsLetters(Flatten(Groups(g, es[..i + 1])))| > |WordsLetters(Flatten(Groups(g, es[..i])))|
    {
      PrefixKeeps(g, thr, es, i);
      PrefixKeeps(g, thr, es, i + 1);
      CoverWords(g, es[..i + 1]);
      CoverWords(g, es[..i]);
      GrowsAt(es, i);
    }
  }

  /**
   * A single entry whose key has twelve letters is a solution for every
   * threshold, the threshold of one group included: completeness is checked
   * before the cutoff. With a threshold of one, it is the only kind.
   */
  lemma CompleteBeforeCutoff(g: PuzzleGraph, thr: int, x: Edge, es: seq<Edge>)
    requires Present(g, x.first, x.last, x.key)
    ensures |LetterSet(x.key)| == Goal ==> Solution(g, thr, [x])
    ensures Solution(g, 1, es) ==> |es| == 1
  {
    SingleEdge(g, thr, x);
    if Solution(g, 1, es) {
      SolutionWithinThreshold(g, 1, es);
    }
  }

  lemma {:induction false} FlattenHas(path: seq<seq<string>>, w: string)
    requires w in Flatten(path)
    ensures exists i :: 0 <= i < |path| && w in path[i]
    decreases |path|
  {
    var pre := path[..|path| - 1];
    if w in Flatten(pre) {
      FlattenHas(pre, w);
      var i :| 0 <= i < |pre| && w in pre[i];
      assert w in path[i];
    } else {
      assert w in path[|path| - 1];
    }
  }

  /** Every word of a solution found is a word of one of the graph's groups. */
  lemma FoundWordsInGraph(g: PuzzleGraph, letters: set<char>, thr: int, sol: seq<string>, w: string)
    requires sol in FindAllSolutions(g, letters, thr) && w in sol
    ensures exists x: Edge :: Present(g, x.first, x.last, x.key) && w in Group(g, x.first, x.last, x.key)
  {
    AllSolutionsSound(g, letters, thr, sol);
    var es: seq<Edge> :| SolutionOf(g, letters, thr, es, sol);
    FlattenHas(Groups(g, es), w);
    var i :| 0 <= i < |es| && w in Groups(g, es)[i];
    assert Present(g, es[i].first, es[i].last, es[i].key);
  }
}
