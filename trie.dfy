/**
 * The prefix-tree dictionary of the solver.
 *
 * The pointer graph of trie nodes is kept as an arena: a sequence of nodes in
 * which a node's identity is its index, the root is index 0, a child link is the
 * index of the child and a parent link is the index of the parent (`None` for
 * the root, whose parent pointer is nil).
 */
module Trie {

  datatype Option<T> = None | Some(value: T)

  /** One trie node: its letter, its parent, its children by letter, and whether a word ends here. */
  datatype TrieNode = TrieNode(value: char, parent: Option<nat>, children: map<char, nat>, isWord: bool)

  /** A fresh node: no children yet and not the end of a word. */
  function NewTrieNode(value: char, parent: Option<nat>): TrieNode
  {
    TrieNode(value, parent, map[], false)
  }

  /** Node `j` points up to a parent of smaller index that lists it as its child for `j`'s letter. */
  ghost predicate LinkedUp(nodes: seq<TrieNode>, j: nat)
    requires j < |nodes|
  {
    if j == 0 then nodes[0].parent == None
    else
      && nodes[j].parent.Some?
      && nodes[j].parent.value < j
      && nodes[j].value in nodes[nodes[j].parent.value].children
      && nodes[nodes[j].parent.value].children[nodes[j].value] == j
  }

  /** Every child of node `i` lies later in the arena, has `i` as parent and carries its key as letter. */
  ghost predicate LinkedDown(nodes: seq<TrieNode>, i: nat)
    requires i < |nodes|
  {
    forall c :: c in nodes[i].children ==>
      && i < nodes[i].children[c] < |nodes|
      && nodes[nodes[i].children[c]].parent == Some(i)
      && nodes[nodes[i].children[c]].value == c
  }

  /** The arena forms a tree rooted at index 0 whose child and parent links agree. */
  ghost predicate ValidArena(nodes: seq<TrieNode>)
  {
    && |nodes| > 0
    && (forall j :: 0 <= j < |nodes| ==> LinkedUp(nodes, j))
    && (forall i :: 0 <= i < |nodes| ==> LinkedDown(nodes, i))
  }

  /** The string a node stands for, rebuilt by following the parent links up to the root. */
  function GetWord(nodes: seq<TrieNode>, n: nat): string
    requires ValidArena(nodes) && n < |nodes|
    decreases n
  {
    assert LinkedUp(nodes, n);
    match nodes[n].parent
    case None => ""
    case Some(p) => GetWord(nodes, p) + [nodes[n].value]
  }

  /** The node reached from node `i` by following the child links for the letters of `u`, if any. */
  function Walk(nodes: seq<TrieNode>, i: nat, u: string): (r: Option<nat>)
    requires ValidArena(nodes) && i < |nodes|
    ensures r.Some? ==> r.value < |nodes|
    decreases |u|
  {
    if u == [] then Some(i)
    else if u[0] in nodes[i].children then
      assert LinkedDown(nodes, i);
      Walk(nodes, nodes[i].children[u[0]], u[1..])
    else None
  }

  /** The words the trie holds: the strings of its terminal nodes. */
  ghost function Words(nodes: seq<TrieNode>): set<string>
    requires ValidArena(nodes)
  {
    set n | 0 <= n < |nodes| && nodes[n].isWord :: GetWord(nodes, n)
  }

  /** Walking `u` then `v` is walking `u + v`. */
  lemma {:induction false} WalkAppend(nodes: seq<TrieNode>, i: nat, u: string, v: string)
    requires ValidArena(nodes) && i < |nodes|
    ensures Walk(nodes, i, u + v) == match Walk(nodes, i, u)
                                     case None => None
                                     case Some(j) => Walk(nodes, j, v)
    decreases |u|
  {
    if u != [] {
      assert (u + v)[0] == u[0] && (u + v)[1..] == u[1..] + v;
      if u[0] in nodes[i].children {
        assert LinkedDown(nodes, i);
        WalkAppend(nodes, nodes[i].children[u[0]], u[1..], v);
      }
    } else {
      assert u + v == v;
    }
  }

  /** Walking `u` from node `i` lands on a node whose string is `i`'s string followed by `u`. */
  lemma {:induction false} WalkExtendsWord(nodes: seq<TrieNode>, i: nat, u: string)
    requires ValidArena(nodes) && i < |nodes|
    ensures Walk(nodes, i, u).Some? ==> GetWord(nodes, Walk(nodes, i, u).value) == GetWord(nodes, i) + u
    decreases |u|
  {
    if u == [] {
      assert GetWord(nodes, i) + u == GetWord(nodes, i);
    } else if u[0] in nodes[i].children {
      assert LinkedDown(nodes, i);
      var c := nodes[i].children[u[0]];
      assert LinkedUp(nodes, c);
      assert GetWord(nodes, c) == GetWord(nodes, i) + [u[0]];
      WalkExtendsWord(nodes, c, u[1..]);
      assert GetWord(nodes, i) + [u[0]] + u[1..] == GetWord(nodes, i) + u;
    }
  }

  /** Walking a node's own string from the root leads back to that node. */
  lemma {:induction false} WordWalksHome(nodes: seq<TrieNode>, n: nat)
    requires ValidArena(nodes) && n < |nodes|
    ensures Walk(nodes, 0, GetWord(nodes, n)) == Some(n)
    decreases n
  {
    assert LinkedUp(nodes, n);
    match nodes[n].parent
    case None =>
    case Some(p) =>
      WordWalksHome(nodes, p);
      WalkAppend(nodes, 0, GetWord(nodes, p), [nodes[n].value]);
      assert LinkedDown(nodes, p);
  }

  /**
   * The trie's paths and the node strings are the same thing: walking `w` from
   * the root reaches node `n` exactly when `n`'s rebuilt string is `w`; the root
   * stands for the empty string.
   */
  lemma WalkIffGetWord(nodes: seq<TrieNode>, w: string, n: nat)
    requires ValidArena(nodes) && n < |nodes|
    ensures Walk(nodes, 0, w) == Some(n) <==> GetWord(nodes, n) == w
    ensures GetWord(nodes, 0) == ""
  {
    WordWalksHome(nodes, n);
    WalkExtendsWord(nodes, 0, w);
    assert LinkedUp(nodes, 0);
  }

  /** A string is a word of the trie exactly when walking it from the root ends on a terminal node. */
  lemma WordsByWalk(nodes: seq<TrieNode>, w: string)
    requires ValidArena(nodes)
    ensures w in Words(nodes) <==> Walk(nodes, 0, w).Some? && nodes[Walk(nodes, 0, w).value].isWord
  {
    if w in Words(nodes) {
      var n :| 0 <= n < |nodes| && nodes[n].isWord && GetWord(nodes, n) == w;
      WalkIffGetWord(nodes, w, n);
    }
    if Walk(nodes, 0, w).Some? {
      WalkIffGetWord(nodes, w, Walk(nodes, 0, w).value);
    }
  }

  /**
   * The words of a trie are closed under prefixes in the sense that a lookup can
   * give up early: once some prefix of `w` has no path, `w` is not a word.
   */
  lemma PrefixMissingMeansAbsent(nodes: seq<TrieNode>, w: string, i: nat)
    requires ValidArena(nodes) && i <= |w|
    requires Walk(nodes, 0, w[..i]) == None
    ensures w !in Words(nodes)
  {
    WalkAppend(nodes, 0, w[..i], w[i..]);
    assert w[..i] + w[i..] == w;
    WordsByWalk(nodes, w);
  }

  /** Two arenas built over the same parent links and letters rebuild the same strings. */
  lemma {:induction false} SameSpineSameWord(a: seq<TrieNode>, b: seq<TrieNode>, n: nat)
    requires ValidArena(a) && ValidArena(b) && n < |a| <= |b|
    requires forall m :: 0 <= m < |a| ==> a[m].parent == b[m].parent && a[m].value == b[m].value
    ensures GetWord(a, n) == GetWord(b, n)
    decreases n
  {
    assert LinkedUp(a, n);
    match a[n].parent
    case None =>
    case Some(p) => SameSpineSameWord(a, b, p);
  }

  /** `b` is a grown copy of `a`: old nodes keep their letter, parent and flag; new nodes are not terminal. */
  ghost predicate Grown(a: seq<TrieNode>, b: seq<TrieNode>)
  {
    && |a| <= |b|
    && (forall m :: 0 <= m < |a| ==> a[m].parent == b[m].parent && a[m].value == b[m].value && a[m].isWord == b[m].isWord)
    && (forall m :: |a| <= m < |b| ==> !b[m].isWord)
  }

  /** Growing an arena with non-terminal nodes keeps its words. */
  lemma GrownKeepsWords(a: seq<TrieNode>, b: seq<TrieNode>)
    requires ValidArena(a) && ValidArena(b) && Grown(a, b)
    ensures Words(a) == Words(b)
    ensures forall m :: 0 <= m < |a| ==> GetWord(a, m) == GetWord(b, m)
  {
    forall m | 0 <= m < |a| ensures GetWord(a, m) == GetWord(b, m) {
      SameSpineSameWord(a, b, m);
    }
    forall w | w in Words(b) ensures w in Words(a) {
      var n :| 0 <= n < |b| && b[n].isWord && GetWord(b, n) == w;
      assert n < |a|;
    }
  }

  /** The arena after giving node `n` a new child for letter `c`, appended at the end. */
  function AddChild(nodes: seq<TrieNode>, n: nat, c: char): (r: seq<TrieNode>)
    requires n < |nodes|
  {
    nodes[n := nodes[n].(children := nodes[n].children[c := |nodes|])] + [NewTrieNode(c, Some(n))]
  }

  /** Adding a missing child keeps the tree shape; the new node stands for its parent's string plus `c`. */
  lemma AddChildValid(nodes: seq<TrieNode>, n: nat, c: char)
    requires ValidArena(nodes) && n < |nodes| && c !in nodes[n].children
    ensures ValidArena(AddChild(nodes, n, c))
    ensures Grown(nodes, AddChild(nodes, n, c))
    ensures GetWord(AddChild(nodes, n, c), |nodes|) == GetWord(nodes, n) + [c]
  {
    var r := AddChild(nodes, n, c);
    forall j | 0 <= j < |r| ensures LinkedUp(r, j) {
      AddChildLinkedUp(nodes, n, c, j);
    }
    forall i | 0 <= i < |r| ensures LinkedDown(r, i) {
      AddChildLinkedDown(nodes, n, c, i);
    }
    SameSpineSameWord(nodes, r, n);
  }

  lemma AddChildLinkedUp(nodes: seq<TrieNode>, n: nat, c: char, j: nat)
    requires ValidArena(nodes) && n < |nodes| && c !in nodes[n].children && j <= |nodes|
    ensures LinkedUp(AddChild(nodes, n, c), j)
  {
    var r := AddChild(nodes, n, c);
    if j < |nodes| {
      assert LinkedUp(nodes, j);
      if j > 0 {
        var p := nodes[j].parent.value;
        assert LinkedDown(nodes, p);
        assert r[p].children[nodes[j].value] == j;
      }
    }
  }

  lemma AddChildLinkedDown(nodes: seq<TrieNode>, n: nat, c: char, i: nat)
    requires ValidArena(nodes) && n < |nodes| && c !in nodes[n].children && i <= |nodes|
    ensures LinkedDown(AddChild(nodes, n, c), i)
  {
    if i < |nodes| {
      assert LinkedDown(nodes, i);
    }
  }

  /** The arena after marking node `n` as the end of a word. */
  function MarkWord(nodes: seq<TrieNode>, n: nat): (r: seq<TrieNode>)
    requires n < |nodes|
  {
    nodes[n := nodes[n].(isWord := true)]
  }

  /** Marking node `n` adds exactly `n`'s string to the words. */
  lemma MarkWordAdds(nodes: seq<TrieNode>, n: nat)
    requires ValidArena(nodes) && n < |nodes|
    ensures ValidArena(MarkWord(nodes, n))
    ensures Words(MarkWord(nodes, n)) == Words(nodes) + {GetWord(nodes, n)}
  {
    var r := MarkWord(nodes, n);
    forall j | 0 <= j < |r| ensures LinkedUp(r, j) && LinkedDown(r, j) {
      assert LinkedUp(nodes, j) && LinkedDown(nodes, j);
    }
    forall m | 0 <= m < |nodes| ensures GetWord(r, m) == GetWord(nodes, m) {
      SameSpineSameWord(nodes, r, m);
    }
    assert GetWord(r, n) in Words(r);
  }

  /**
   * What holds after `Insert` has consumed `word[..i]` from arena `start`: the
   * arena grew by non-terminal nodes lying on `word`'s path, `node` stands for
   * `word[..i]`, and nothing was created when `word` was already present.
   */
  ghost predicate InsertInv(start: seq<TrieNode>, nodes: seq<TrieNode>, node: nat, word: string, i: nat)
  {
    && i <= |word|
    && ValidArena(start) && ValidArena(nodes) && Grown(start, nodes)
    && node < |nodes| && GetWord(nodes, node) == word[..i]
    && (forall m :: |start| <= m < |nodes| ==> GetWord(nodes, m) <= word[..i])
    && (word in Words(start) ==> nodes == start)
  }

  lemma InsertStarts(nodes: seq<TrieNode>, word: string)
    requires ValidArena(nodes)
    ensures InsertInv(nodes, nodes, 0, word, 0)
  {
    assert LinkedUp(nodes, 0);
  }

  /** One step of `Insert`: descend into the child for `word[i]`, creating it if missing. */
  lemma InsertStep(start: seq<TrieNode>, nodes: seq<TrieNode>, node: nat, word: string, i: nat)
    requires InsertInv(start, nodes, node, word, i) && i < |word|
    ensures var next := if word[i] in nodes[node].children then nodes else AddChild(nodes, node, word[i]);
      && ValidArena(next) && node < |next| && word[i] in next[node].children
      && InsertInv(start, next, next[node].children[word[i]], word, i + 1)
  {
    var c := word[i];
    assert word[..i + 1] == word[..i] + [c];
    GrownKeepsWords(start, nodes);
    var next := nodes;
    if c !in nodes[node].children {
      if word in Words(start) {
        WalkIffGetWord(nodes, word[..i], node);
        WalkAppend(nodes, 0, word[..i], [c]);
        PrefixMissingMeansAbsent(nodes, word, i + 1);
      }
      AddChildValid(nodes, node, c);
      next := AddChild(nodes, node, c);
      GrownKeepsWords(nodes, next);
    }
    assert LinkedDown(next, node);
    var child := next[node].children[c];
    assert LinkedUp(next, child);
    forall m | |start| <= m < |next| ensures GetWord(next, m) <= word[..i + 1] {
      if m < |nodes| {
        assert GetWord(next, m) == GetWord(nodes, m);
      }
    }
  }

  /** When `Insert` has consumed all of `word`, marking the node adds exactly `word` and keeps the rest. */
  lemma InsertFinishes(start: seq<TrieNode>, nodes: seq<TrieNode>, node: nat, word: string)
    requires InsertInv(start, nodes, node, word, |word|)
    ensures ValidArena(MarkWord(nodes, node))
    ensures Words(MarkWord(nodes, node)) == Words(start) + {word}
    ensures word in Words(start) ==> MarkWord(nodes, node) == start
    ensures |start| <= |MarkWord(nodes, node)|
    ensures forall m :: 0 <= m < |start| ==>
              MarkWord(nodes, node)[m].value == start[m].value && MarkWord(nodes, node)[m].parent == start[m].parent &&
              GetWord(MarkWord(nodes, node), m) == GetWord(start, m)
    ensures forall m :: |start| <= m < |MarkWord(nodes, node)| ==> GetWord(MarkWord(nodes, node), m) <= word
  {
    assert word[..|word|] == word;
    GrownKeepsWords(start, nodes);
    MarkWordAdds(nodes, node);
    var r := MarkWord(nodes, node);
    if word in Words(start) {
      var n :| 0 <= n < |nodes| && nodes[n].isWord && GetWord(nodes, n) == word;
      WalkIffGetWord(nodes, word, n);
      WalkIffGetWord(nodes, word, node);
      assert r == nodes;
    }
    forall m | 0 <= m < |nodes| ensures GetWord(r, m) == GetWord(nodes, m) {
      SameSpineSameWord(nodes, r, m);
    }
  }

  class Trie {
    var nodes: seq<TrieNode>

    ghost predicate Valid()
      reads this
    {
      ValidArena(nodes)
    }

    /** The set of words inserted so far. */
    ghost function Contents(): set<string>
      reads this
      requires Valid()
    {
      Words(nodes)
    }

    /** A trie holding only a root of letter 0, which is not the end of any word. */
    constructor ()
      ensures Valid()
      ensures nodes == [NewTrieNode(0 as char, None)]
      ensures Contents() == {}
    {
      var root := [NewTrieNode(0 as char, None)];
      assert LinkedUp(root, 0) && LinkedDown(root, 0);
      nodes := root;
    }

    /**
     * Walks `word` from the root, creating each missing child on the way, and
     * marks the last node as the end of a word.
     */
    method Insert(word: string)
      requires Valid()
      modifies this
      ensures Valid()
      ensures Contents() == old(Contents()) + {word}
      ensures word in old(Contents()) ==> nodes == old(nodes)
      ensures |old(nodes)| <= |nodes|
      ensures forall m :: 0 <= m < |old(nodes)| ==>
                nodes[m].value == old(nodes)[m].value && nodes[m].parent == old(nodes)[m].parent &&
                GetWord(nodes, m) == GetWord(old(nodes), m)
      ensures forall m :: |old(nodes)| <= m < |nodes| ==> GetWord(nodes, m) <= word
    {
      ghost var start := nodes;
      var node: nat := 0;
      var i := 0;
      InsertStarts(nodes, word);
      while i < |word|
        invariant InsertInv(start, nodes, node, word, i)
      {
        var c := word[i];
        ghost var before := nodes;
        if c !in nodes[node].children {
          nodes := AddChild(nodes, node, c);
        }
        InsertStep(start, before, node, word, i);
        assert LinkedDown(nodes, node);
        node := nodes[node].children[c];
        i := i + 1;
      }
      InsertFinishes(start, nodes, node, word);
      nodes := MarkWord(nodes, node);
    }

    /** Follows `word` from the root and reports whether it ends on a terminal node. */
    method Search(word: string) returns (found: bool)
      requires Valid()
      ensures found <==> word in Contents()
    {
      var node: nat := 0;
      var i := 0;
      while i < |word|
        invariant 0 <= i <= |word|
        invariant node < |nodes| && Walk(nodes, 0, word[..i]) == Some(node)
      {
        var c := word[i];
        WalkAppend(nodes, 0, word[..i], [c]);
        assert word[..i + 1] == word[..i] + [c];
        if c !in nodes[node].children {
          PrefixMissingMeansAbsent(nodes, word, i + 1);
          return false;
        }
        assert LinkedDown(nodes, node);
        node := nodes[node].children[c];
        i := i + 1;
      }
      assert word[..i] == word;
      WordsByWalk(nodes, word);
      found := nodes[node].isWord;
    }
  }
}
