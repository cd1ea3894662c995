/**
 * Extraction of the playable words: a depth-first walk of the trie that starts
 * at the root's children for the puzzle letters and, below that, only descends
 * into letters of a side other than the side used to reach the current node.
 *
 * The Go code ranges over the set of sides; here the sides are a sequence
 * without duplicates, and every contract speaks of which nodes and words are
 * produced, not of their order.
 */
module Extract {
  import opened Trie

  /**
   * `u` can be spelled after a letter of side `lastSide`: each letter lies on
   * some side, and each side differs from the side of the previous letter.
   */
  predicate PlayableFrom(u: string, sides: seq<string>, lastSide: string)
    decreases |u|
  {
    u == [] ||
    exists k :: 0 <= k < |sides| && sides[k] != lastSide && u[0] in sides[k] && PlayableFrom(u[1..], sides, sides[k])
  }

  /** A non-empty word whose letters can be assigned sides so that neighbouring letters are on different sides. */
  predicate Playable(w: string, sides: seq<string>)
  {
    |w| > 0 && exists k :: 0 <= k < |sides| && w[0] in sides[k] && PlayableFrom(w[1..], sides, sides[k])
  }

  /** The child of node `i` for letter `c`; it lies later in the arena. */
  function Child(nodes: seq<TrieNode>, i: nat, c: char): (j: nat)
    requires ValidArena(nodes) && i < |nodes| && c in nodes[i].children
    ensures i < j < |nodes|
  {
    assert LinkedDown(nodes, i);
    nodes[i].children[c]
  }

  /** The terminal nodes found below node `i`, reached from a letter of side `lastSide`. */
  function GetInnerWords(nodes: seq<TrieNode>, sides: seq<string>, i: nat, lastSide: string): (r: seq<nat>)
    requires ValidArena(nodes) && i < |nodes|
    ensures forall x :: x in r ==> x < |nodes| && nodes[x].isWord
    decreases |nodes| - i, 2, 0
  {
    (if nodes[i].isWord then [i] else []) + InnerOverSides(nodes, sides, i, lastSide, 0)
  }

  /** The loop over the sides `sides[k..]` inside the walk at node `i`, skipping `lastSide`. */
  function InnerOverSides(nodes: seq<TrieNode>, sides: seq<string>, i: nat, lastSide: string, k: nat): (r: seq<nat>)
    requires ValidArena(nodes) && i < |nodes| && k <= |sides|
    ensures forall x :: x in r ==> x < |nodes| && nodes[x].isWord
    decreases |nodes| - i, 1, |sides| - k
  {
    if k == |sides| then []
    else
      (if sides[k] != lastSide then InnerOverLetters(nodes, sides, i, sides[k], 0) else [])
      + InnerOverSides(nodes, sides, i, lastSide, k + 1)
  }

  /** The loop over the letters `side[m..]` at node `i`: recurse into each existing child, tagged with `side`. */
  function InnerOverLetters(nodes: seq<TrieNode>, sides: seq<string>, i: nat, side: string, m: nat): (r: seq<nat>)
    requires ValidArena(nodes) && i < |nodes| && m <= |side|
    ensures forall x :: x in r ==> x < |nodes| && nodes[x].isWord
    decreases |nodes| - i, 0, |side| - m
  {
    if m == |side| then []
    else
      (if side[m] in nodes[i].children then GetInnerWords(nodes, sides, Child(nodes, i, side[m]), side) else [])
      + InnerOverLetters(nodes, sides, i, side, m + 1)
  }

  lemma {:induction false} InnerOverLettersHas(nodes: seq<TrieNode>, sides: seq<string>, i: nat, side: string, m: nat, j: nat)
    requires ValidArena(nodes) && i < |nodes| && m <= |side|
    ensures j in InnerOverLetters(nodes, sides, i, side, m) <==>
      exists t :: m <= t < |side| && side[t] in nodes[i].children &&
        j in GetInnerWords(nodes, sides, Child(nodes, i, side[t]), side)
    decreases |side| - m
  {
    if m < |side| {
      var head := if side[m] in nodes[i].children then GetInnerWords(nodes, sides, Child(nodes, i, side[m]), side) else [];
      var tail := InnerOverLetters(nodes, sides, i, side, m + 1);
      assert InnerOverLetters(nodes, sides, i, side, m) == head + tail;
      assert j in head + tail <==> j in head || j in tail;
      InnerOverLettersHas(nodes, sides, i, side, m + 1, j);
      if exists t :: m <= t < |side| && side[t] in nodes[i].children &&
          j in GetInnerWords(nodes, sides, Child(nodes, i, side[t]), side) {
        var t :| m <= t < |side| && side[t] in nodes[i].children &&
          j in GetInnerWords(nodes, sides, Child(nodes, i, side[t]), side);
        if t == m {
          assert j in head;
        } else {
          assert j in tail;
        }
      }
    }
  }

  lemma {:induction false} InnerOverSidesHas(nodes: seq<TrieNode>, sides: seq<string>, i: nat, lastSide: string, k: nat, j: nat)
    requires ValidArena(nodes) && i < |nodes| && k <= |sides|
    ensures j in InnerOverSides(nodes, sides, i, lastSide, k) <==>
      exists s :: k <= s < |sides| && sides[s] != lastSide && j in InnerOverLetters(nodes, sides, i, sides[s], 0)
    decreases |sides| - k
  {
    if k < |sides| {
      var head := if sides[k] != lastSide then InnerOverLetters(nodes, sides, i, sides[k], 0) else [];
      var tail := InnerOverSides(nodes, sides, i, lastSide, k + 1);
      assert InnerOverSides(nodes, sides, i, lastSide, k) == head + tail;
      assert j in head + tail <==> j in head || j in tail;
      InnerOverSidesHas(nodes, sides, i, lastSide, k + 1, j);
      if j in head {
        assert sides[k] != lastSide && j in InnerOverLetters(nodes, sides, i, sides[k], 0);
      }
      if exists s :: k <= s < |sides| && sides[s] != lastSide && j in InnerOverLetters(nodes, sides, i, sides[s], 0) {
        var s :| k <= s < |sides| && sides[s] != lastSide && j in InnerOverLetters(nodes, sides, i, sides[s], 0);
        if s == k {
          assert j in head;
        } else {
          assert j in tail;
        }
      }
    }
  }

  /**
   * One level of the walk: node `j` is found below `i` either because `i` is
   * itself terminal and `j` is `i`, or because `j` is found below the child of
   * `i` for a letter of a side other than `lastSide`, reached from that side.
   */
  lemma InnerWordsHas(nodes: seq<TrieNode>, sides: seq<string>, i: nat, lastSide: string, j: nat)
    requires ValidArena(nodes) && i < |nodes|
    ensures j in GetInnerWords(nodes, sides, i, lastSide) <==>
      (j == i && nodes[i].isWord) ||
      exists s, t :: 0 <= s < |sides| && sides[s] != lastSide && 0 <= t < |sides[s]| &&
        sides[s][t] in nodes[i].children &&
        j in GetInnerWords(nodes, sides, Child(nodes, i, sides[s][t]), sides[s])
  {
    InnerOverSidesHas(nodes, sides, i, lastSide, 0, j);
    forall s | 0 <= s < |sides| {
      InnerOverLettersHas(nodes, sides, i, sides[s], 0, j);
    }
  }

  /** Soundness of the walk: every node it finds is terminal and is reached by a playable continuation. */
  lemma {:induction false} InnerWordsSound(nodes: seq<TrieNode>, sides: seq<string>, i: nat, lastSide: string, j: nat)
    requires ValidArena(nodes) && i < |nodes|
    requires j in GetInnerWords(nodes, sides, i, lastSide)
    ensures j < |nodes| && nodes[j].isWord
    ensures exists u :: Walk(nodes, i, u) == Some(j) && PlayableFrom(u, sides, lastSide)
    decreases |nodes| - i
  {
    InnerWordsHas(nodes, sides, i, lastSide, j);
    if j == i && nodes[i].isWord {
      assert Walk(nodes, i, []) == Some(j);
    } else {
      var s, t :| 0 <= s < |sides| && sides[s] != lastSide && 0 <= t < |sides[s]| &&
        sides[s][t] in nodes[i].children &&
        j in GetInnerWords(nodes, sides, Child(nodes, i, sides[s][t]), sides[s]);
      var c := sides[s][t];
      var child := Child(nodes, i, c);
      InnerWordsSound(nodes, sides, child, sides[s], j);
      var v :| Walk(nodes, child, v) == Some(j) && PlayableFrom(v, sides, sides[s]);
      var u := [c] + v;
      assert u[0] == c && u[1..] == v;
      assert Walk(nodes, i, u) == Some(j);
      assert PlayableFrom(u, sides, lastSide);
    }
  }

  /** Completeness of the walk: every terminal node reached by a playable continuation is found. */
  lemma {:induction false} InnerWordsComplete(nodes: seq<TrieNode>, sides: seq<string>, i: nat, lastSide: string, u: string, j: nat)
    requires ValidArena(nodes) && i < |nodes|
    requires Walk(nodes, i, u) == Some(j) && j < |nodes| && nodes[j].isWord
    requires PlayableFrom(u, sides, lastSide)
    ensures j in GetInnerWords(nodes, sides, i, lastSide)
    decreases |u|
  {
    InnerWordsHas(nodes, sides, i, lastSide, j);
    if u != [] {
      var s :| 0 <= s < |sides| && sides[s] != lastSide && u[0] in sides[s] && PlayableFrom(u[1..], sides, sides[s]);
      var t :| 0 <= t < |sides[s]| && sides[s][t] == u[0];
      var child := Child(nodes, i, u[0]);
      InnerWordsComplete(nodes, sides, child, sides[s], u[1..], j);
    }
  }

  /** The nodes `getAllWords` collects: the walk from every root child of a letter of `sides[k..]`, tagged with its side. */
  function RootWordNodes(nodes: seq<TrieNode>, sides: seq<string>, k: nat): (r: seq<nat>)
    requires ValidArena(nodes) && k <= |sides|
    ensures forall x :: x in r ==> x < |nodes| && nodes[x].isWord
    decreases |sides| - k
  {
    if k == |sides| then [] else InnerOverLetters(nodes, sides, 0, sides[k], 0) + RootWordNodes(nodes, sides, k + 1)
  }

  lemma {:induction false} RootWordNodesHas(nodes: seq<TrieNode>, sides: seq<string>, k: nat, j: nat)
    requires ValidArena(nodes) && k <= |sides|
    ensures j in RootWordNodes(nodes, sides, k) <==>
      exists s :: k <= s < |sides| && j in InnerOverLetters(nodes, sides, 0, sides[s], 0)
    decreases |sides| - k
  {
    if k < |sides| {
      var head := InnerOverLetters(nodes, sides, 0, sides[k], 0);
      var tail := RootWordNodes(nodes, sides, k + 1);
      assert RootWordNodes(nodes, sides, k) == head + tail;
      assert j in head + tail <==> j in head || j in tail;
      RootWordNodesHas(nodes, sides, k + 1, j);
      if exists s :: k <= s < |sides| && j in InnerOverLetters(nodes, sides, 0, sides[s], 0) {
        var s :| k <= s < |sides| && j in InnerOverLetters(nodes, sides, 0, sides[s], 0);
        if s == k {
          assert j in head;
        } else {
          assert j in tail;
        }
      }
    }
  }

  /** A node found below the root child for `c` stands for `c` followed by a continuation playable after `c`'s side. */
  lemma RootChildWord(nodes: seq<TrieNode>, sides: seq<string>, s: nat, c: char, j: nat)
    requires ValidArena(nodes) && s < |sides| && c in sides[s] && c in nodes[0].children
    requires j in GetInnerWords(nodes, sides, Child(nodes, 0, c), sides[s])
    ensures j < |nodes| && nodes[j].isWord && Playable(GetWord(nodes, j), sides)
  {
    var child := Child(nodes, 0, c);
    InnerWordsSound(nodes, sides, child, sides[s], j);
    var v :| Walk(nodes, child, v) == Some(j) && PlayableFrom(v, sides, sides[s]);
    WalkExtendsWord(nodes, child, v);
    assert LinkedDown(nodes, 0) && LinkedUp(nodes, 0);
    assert GetWord(nodes, 0) == "";
    assert GetWord(nodes, child) == [c];
    var w := GetWord(nodes, j);
    assert w == [c] + v;
    assert w[0] == c && w[1..] == v;
  }

  /** Every collected node stands for a playable word of the trie. */
  lemma RootNodeSound(nodes: seq<TrieNode>, sides: seq<string>, j: nat)
    requires ValidArena(nodes) && j in RootWordNodes(nodes, sides, 0)
    ensures j < |nodes| && GetWord(nodes, j) in Words(nodes) && Playable(GetWord(nodes, j), sides)
  {
    RootWordNodesHas(nodes, sides, 0, j);
    var s :| 0 <= s < |sides| && j in InnerOverLetters(nodes, sides, 0, sides[s], 0);
    InnerOverLettersHas(nodes, sides, 0, sides[s], 0, j);
    var t :| 0 <= t < |sides[s]| && sides[s][t] in nodes[0].children &&
      j in GetInnerWords(nodes, sides, Child(nodes, 0, sides[s][t]), sides[s]);
    RootChildWord(nodes, sides, s, sides[s][t], j);
  }

  /** Every playable word of the trie is the word of some collected node. */
  lemma RootNodeComplete(nodes: seq<TrieNode>, sides: seq<string>, w: string)
    requires ValidArena(nodes) && w in Words(nodes) && Playable(w, sides)
    ensures exists j :: j in RootWordNodes(nodes, sides, 0) && GetWord(nodes, j) == w
  {
    var j :| 0 <= j < |nodes| && nodes[j].isWord && GetWord(nodes, j) == w;
    WalkIffGetWord(nodes, w, j);
    var s :| 0 <= s < |sides| && w[0] in sides[s] && PlayableFrom(w[1..], sides, sides[s]);
    var t :| 0 <= t < |sides[s]| && sides[s][t] == w[0];
    assert w[0] in nodes[0].children;
    var child := Child(nodes, 0, w[0]);
    InnerWordsComplete(nodes, sides, child, sides[s], w[1..], j);
    assert sides[s][t] in nodes[0].children && j in GetInnerWords(nodes, sides, Child(nodes, 0, sides[s][t]), sides[s]);
    InnerOverLettersHas(nodes, sides, 0, sides[s], 0, j);
    assert j in InnerOverLetters(nodes, sides, 0, sides[s], 0);
    RootWordNodesHas(nodes, sides, 0, j);
    assert j in RootWordNodes(nodes, sides, 0);
  }

  /**
   * Collects, for every side and every letter on it that has a root child, the
   * terminal nodes of the walk below that child.
   */
  method CollectWordNodes(nodes: seq<TrieNode>, sides: seq<string>) returns (found: seq<nat>)
    requires ValidArena(nodes)
    ensures found == RootWordNodes(nodes, sides, 0)
  {
    found := [];
    for k := 0 to |sides|
      invariant found + RootWordNodes(nodes, sides, k) == RootWordNodes(nodes, sides, 0)
    {
      var side := sides[k];
      ghost var later := RootWordNodes(nodes, sides, k + 1);
      assert RootWordNodes(nodes, sides, k) == InnerOverLetters(nodes, sides, 0, side, 0) + later;
      for m := 0 to |side|
        invariant found + InnerOverLetters(nodes, sides, 0, side, m) + later == RootWordNodes(nodes, sides, 0)
      {
        var letter := side[m];
        LettersStep(nodes, sides, side, m, found, later);
        if letter in nodes[0].children {
          found := found + GetInnerWords(nodes, sides, Child(nodes, 0, letter), side);
        }
      }
      assert found + InnerOverLetters(nodes, sides, 0, side, |side|) == found;
    }
  }

  /** One letter of the loop over a side at the root: its walk's nodes go next. */
  lemma LettersStep(nodes: seq<TrieNode>, sides: seq<string>, side: string, m: nat, found: seq<nat>, later: seq<nat>)
    requires ValidArena(nodes) && m < |side|
    ensures var below := if side[m] in nodes[0].children then GetInnerWords(nodes, sides, Child(nodes, 0, side[m]), side) else [];
      found + InnerOverLetters(nodes, sides, 0, side, m) + later ==
      (found + below) + InnerOverLetters(nodes, sides, 0, side, m + 1) + later
  {
    var below := if side[m] in nodes[0].children then GetInnerWords(nodes, sides, Child(nodes, 0, side[m]), side) else [];
    var rest := InnerOverLetters(nodes, sides, 0, side, m + 1);
    assert InnerOverLetters(nodes, sides, 0, side, m) == below + rest;
    assert found + (below + rest) + later == (found + below) + rest + later;
  }

  /** The word of each node of `found`, position by position. */
  method WordsOfNodes(nodes: seq<TrieNode>, found: seq<nat>) returns (words: seq<string>)
    requires ValidArena(nodes) && forall x :: x in found ==> x < |nodes|
    ensures |words| == |found|
    ensures forall t :: 0 <= t < |found| ==> found[t] < |nodes| && words[t] == GetWord(nodes, found[t])
  {
    words := [];
    for i := 0 to |found|
      invariant |words| == i
      invariant forall t :: 0 <= t < i ==> found[t] < |nodes| && words[t] == GetWord(nodes, found[t])
    {
      assert found[i] in found;
      words := words + [GetWord(nodes, found[i])];
    }
  }

  /** The words of the trie playable on `sides`, rebuilt from the nodes the walk collects. */
  method GetAllWords(nodes: seq<TrieNode>, sides: seq<string>) returns (words: seq<string>)
    requires ValidArena(nodes)
    ensures forall w :: w in words <==> w in Words(nodes) && Playable(w, sides)
  {
    var found := CollectWordNodes(nodes, sides);
    words := WordsOfNodes(nodes, found);
    FoundWordsExactly(nodes, sides, found, words);
  }

  /** The words rebuilt from the collected nodes are exactly the playable words of the trie. */
  lemma FoundWordsExactly(nodes: seq<TrieNode>, sides: seq<string>, found: seq<nat>, words: seq<string>)
    requires ValidArena(nodes) && found == RootWordNodes(nodes, sides, 0)
    requires |words| == |found|
    requires forall t :: 0 <= t < |found| ==> found[t] < |nodes| && words[t] == GetWord(nodes, found[t])
    ensures forall w :: w in words <==> w in Words(nodes) && Playable(w, sides)
  {
    forall w ensures w in words <==> w in Words(nodes) && Playable(w, sides) {
      if w in words {
        var t :| 0 <= t < |words| && words[t] == w;
        RootNodeSound(nodes, sides, found[t]);
      }
      if w in Words(nodes) && Playable(w, sides) {
        RootNodeComplete(nodes, sides, w);
        var j :| j in found && GetWord(nodes, j) == w;
        var t :| 0 <= t < |found| && found[t] == j;
        assert words[t] == w;
      }
    }
  }

  /** Letter `c` lies on some side. */
  predicate OnSomeSide(c: char, sides: seq<string>)
  {
    exists s :: 0 <= s < |sides| && c in sides[s]
  }

  /** Letters `a` and `b` lie on two different side strings. */
  predicate OnDifferentSides(a: char, b: char, sides: seq<string>)
  {
    exists s1, s2 :: 0 <= s1 < |sides| && 0 <= s2 < |sides| && sides[s1] != sides[s2] && a in sides[s1] && b in sides[s2]
  }

  lemma {:induction false} PlayableFromLetters(u: string, sides: seq<string>, lastSide: string)
    requires PlayableFrom(u, sides, lastSide)
    ensures forall i :: 0 <= i < |u| ==> OnSomeSide(u[i], sides)
    ensures forall i :: 0 <= i < |u| - 1 ==> OnDifferentSides(u[i], u[i + 1], sides)
    decreases |u|
  {
    if u != [] {
      var s :| 0 <= s < |sides| && sides[s] != lastSide && u[0] in sides[s] && PlayableFrom(u[1..], sides, sides[s]);
      var v := u[1..];
      PlayableFromLetters(v, sides, sides[s]);
      forall i | 0 <= i < |u| ensures OnSomeSide(u[i], sides) {
        if i > 0 { assert u[i] == v[i - 1]; }
      }
      forall i | 0 <= i < |u| - 1 ensures OnDifferentSides(u[i], u[i + 1], sides) {
        if i == 0 {
          var s2 :| 0 <= s2 < |sides| && sides[s2] != sides[s] && v[0] in sides[s2];
        } else {
          assert u[i] == v[i - 1] && u[i + 1] == v[i];
        }
      }
    }
  }

  /** A playable word is non-empty, every letter lies on some side, and neighbouring letters lie on different side strings. */
  lemma PlayableLetters(w: string, sides: seq<string>)
    requires Playable(w, sides)
    ensures |w| > 0
    ensures forall i :: 0 <= i < |w| ==> OnSomeSide(w[i], sides)
    ensures forall i :: 0 <= i < |w| - 1 ==> OnDifferentSides(w[i], w[i + 1], sides)
  {
    var s :| 0 <= s < |sides| && w[0] in sides[s] && PlayableFrom(w[1..], sides, sides[s]);
    var v := w[1..];
    PlayableFromLetters(v, sides, sides[s]);
    forall i | 0 <= i < |w| ensures OnSomeSide(w[i], sides) {
      if i > 0 { assert w[i] == v[i - 1]; }
    }
    forall i | 0 <= i < |w| - 1 ensures OnDifferentSides(w[i], w[i + 1], sides) {
      if i == 0 {
        var s2 :| 0 <= s2 < |sides| && sides[s2] != sides[s] && v[0] in sides[s2];
      } else {
        assert w[i] == v[i - 1] && w[i + 1] == v[i];
      }
    }
  }
}
