/**
 * The puzzle object: it keeps the puzzle string, its sides and letters, the
 * length threshold, the dictionary trie, the playable words and the puzzle
 * graph, and is set up in the order the Go constructor follows: parse the
 * sides, insert every dictionary word, extract the playable words, file them
 * into the graph. The dictionary is given as the sequence of its lines.
 */
module LetterBoxed {
  import opened Trie
  import opened Puzzle
  import opened Extract
  import opened Graph
  import opened Solver

  /** The distinct lines of the dictionary. */
  function DictionaryWords(dictionary: seq<string>): set<string>
  {
    set w | w in dictionary
  }

  /** A trie holding exactly the words of the dictionary, inserted line by line. */
  method LoadDictionary(dictionary: seq<string>) returns (t: Trie)
    ensures fresh(t) && t.Valid() && t.Contents() == DictionaryWords(dictionary)
  {
    t := new Trie();
    for i := 0 to |dictionary|
      invariant t.Valid() && t.Contents() == DictionaryWords(dictionary[..i])
    {
      assert dictionary[..i + 1] == dictionary[..i] + [dictionary[i]];
      t.Insert(dictionary[i]);
    }
    assert dictionary[..|dictionary|] == dictionary;
  }

  /**
   * The part of setting up a puzzle that comes before its graph: its sides
   * and letters, the dictionary trie and the playable words.
   */
  method ReadPuzzle(input: string, dictionary: seq<string>)
    returns (sides: seq<string>, letters: set<char>, t: Trie, words: seq<string>)
    ensures SameElements(sides, Split(input, Separator))
    ensures letters == LettersOf(sides)
    ensures fresh(t) && t.Valid() && t.Contents() == DictionaryWords(dictionary)
    ensures forall w :: w in words <==> w in dictionary && Playable(w, sides)
    ensures forall i :: 0 <= i < |words| ==> |words[i]| > 0
  {
    sides, letters := ParseSides(input);
    t := LoadDictionary(dictionary);
    words := GetAllWords(t.nodes, sides);
    PlayableWordsNonEmpty(words, sides);
  }

  lemma PlayableWordsNonEmpty(words: seq<string>, sides: seq<string>)
    requires forall w :: w in words ==> Playable(w, sides)
    ensures forall i :: 0 <= i < |words| ==> |words[i]| > 0
  {
    forall i | 0 <= i < |words| ensures |words[i]| > 0 {
      assert words[i] in words;
    }
  }

  /** The distinct letters of `word`, collected one letter at a time. */
  method WordLetters(word: string) returns (letterSet: set<char>)
    ensures letterSet == LetterSet(word)
  {
    letterSet := {};
    for j := 0 to |word|
      invariant letterSet == LetterSet(word[..j])
    {
      assert word[..j + 1] == word[..j] + [word[j]];
      letterSet := letterSet + {word[j]};
    }
    assert word[..|word|] == word;
  }

  /** The Go filing steps (create the missing inner maps, then append to the group) compute `AddWord`. */
  lemma FilingAddsWord(g: PuzzleGraph, w: string)
    requires |w| > 0
    ensures
      var start, end, key := w[0], w[|w| - 1], Key(LetterSet(w));
      var g1 := if start !in g then g[start := map[]] else g;
      var g2 := if end !in g1[start] then g1[start := g1[start][end := map[]]] else g1;
      var group := if key in g2[start][end] then g2[start][end][key] else [];
      g2[start := g2[start][end := g2[start][end][key := group + [w]]]] == AddWord(g, w)
  {
    var start, end, key := w[0], w[|w| - 1], Key(LetterSet(w));
    var g1 := if start !in g then g[start := map[]] else g;
    var g2 := if end !in g1[start] then g1[start := g1[start][end := map[]]] else g1;
    var byEnd := if start in g then g[start] else map[];
    var byKey := if end in byEnd then byEnd[end] else map[];
    assert g2[start][end] == byKey;
    var x := byKey[key := Group(g, start, end, key) + [w]];
    assert g2[start][end := x] == byEnd[end := x];
    assert g2[start := byEnd[end := x]] == g[start := byEnd[end := x]];
  }

  class LetterBox {
    var inputString: string
    var sides: seq<string>
    var letters: set<char>
    var lenThreshold: int
    var trie: Trie
    var words: seq<string>
    var graph: PuzzleGraph

    /**
     * A puzzle set up from its string, its dictionary and its threshold: the
     * sides are the pieces of the string, the letters are those on the sides,
     * the trie holds the dictionary, the words are exactly its playable words,
     * and the graph files exactly those words.
     */
    constructor (input: string, dictionary: seq<string>, threshold: int)
      ensures inputString == input && lenThreshold == threshold
      ensures SameElements(sides, Split(input, Separator))
      ensures letters == LettersOf(sides)
      ensures fresh(trie) && trie.Valid() && trie.Contents() == DictionaryWords(dictionary)
      ensures forall w :: w in words <==> w in dictionary && Playable(w, sides)
      ensures forall i :: 0 <= i < |words| ==> |words[i]| > 0
      ensures graph == BuildGraph(map[], words)
    {
      var s, l, t, ws := ReadPuzzle(input, dictionary);
      trie := t;
      words := ws;
      graph := map[];
      new;
      BuildPuzzleGraph();
      inputString := input;
      lenThreshold := threshold;
      sides := s;
      letters := l;
    }

    /**
     * Files every word, in order, at the end of the group for its first letter,
     * last letter and letter key, creating the inner maps it needs.
     */
    method BuildPuzzleGraph()
      requires forall i :: 0 <= i < |words| ==> |words[i]| > 0
      modifies this`graph
      ensures graph == BuildGraph(old(graph), words)
    {
      for i := 0 to |words|
        invariant graph == BuildGraph(old(graph), words[..i])
      {
        FileWord(words[i]);
        BuildGraphStep(old(graph), words, i);
      }
      assert words[..|words|] == words;
    }

    /** Files one non-empty word at the end of the group for its signature. */
    method FileWord(word: string)
      requires |word| > 0
      modifies this`graph
      ensures graph == AddWord(old(graph), word)
    {
      var start, end := word[0], word[|word| - 1];
      var letterSet := WordLetters(word);
      var letterKey := MakeKey(letterSet);
      if start !in graph {
        graph := graph[start := map[]];
      }
      if end !in graph[start] {
        graph := graph[start := graph[start][end := map[]]];
      }
      var group := if letterKey in graph[start][end] then graph[start][end][letterKey] else [];
      graph := graph[start := graph[start][end := graph[start][end][letterKey := group + [word]]]];
      FilingAddsWord(old(graph), word);
    }

    /**
     * The solutions of the puzzle, as the solver finds them from this puzzle's
     * graph, letters and threshold: exactly the flattened group paths of the
     * solutions in the graph that start on puzzle letters.
     */
    function Solutions(): (r: set<seq<string>>)
      reads this
      ensures forall sol :: sol in r <==> exists es :: SolutionOf(graph, letters, lenThreshold, es, sol)
    {
      forall sol
        ensures sol in FindAllSolutions(graph, letters, lenThreshold) <==>
          exists es :: SolutionOf(graph, letters, lenThreshold, es, sol)
      {
        AllSolutionsExactly(graph, letters, lenThreshold, sol);
      }
      FindAllSolutions(graph, letters, lenThreshold)
    }
  }

  /**
   * The words of every solution found in the graph of a puzzle's words are
   * words of the puzzle: with the words the constructor extracts, each is a
   * dictionary word playable on the puzzle's sides.
   */
  lemma SolutionWordsArePuzzleWords(words: seq<string>, letters: set<char>, thr: int, sol: seq<string>, w: string)
    requires forall i :: 0 <= i < |words| ==> |words[i]| > 0
    requires sol in FindAllSolutions(BuildGraph(map[], words), letters, thr) && w in sol
    ensures w in words
  {
    FoundWordsInGraph(BuildGraph(map[], words), letters, thr, sol, w);
    var x: Edge :| Present(BuildGraph(map[], words), x.first, x.last, x.key) &&
      w in Group(BuildGraph(map[], words), x.first, x.last, x.key);
    BuiltGraphHoldsOnlyGiven(words, x.first, x.last, x.key, w);
  }
}
