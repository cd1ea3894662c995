# Letter Boxed solver, modelled in Dafny

A Letter Boxed puzzle is a square whose sides each carry a few letters. A word
is playable when each pair of neighbouring letters lies on two different
sides. A solution is a chain of playable words in which every word starts
with the letter the previous word ends in, and which uses all twelve letters.

The Go program solves such a puzzle in five steps:

1. It reads the puzzle string (`"mrf-sna-opu-gci"`) into a set of sides and a
   set of letters.
2. It loads the dictionary into a prefix tree (a trie).
3. It walks the trie to extract every playable word. Below a node reached
   from one side, the walk descends only into letters of the other sides.
4. It files those words in a three-level map, the puzzle graph. The levels
   are the first letter, the last letter and a key made of the word's
   distinct letters.
5. It searches the graph depth first for chains of word groups that cover
   twelve letters, within a threshold on the number of groups.

This project models those steps and proves what they compute.

- `trie.dfy`, module `Trie`:
  - The trie's nodes live in an arena, a sequence in which a node's identity
    is its index.
  - The root is index 0. Child and parent pointers are indices, and the
    root's nil parent is `None`.
  - `ValidArena` states that the child and parent links agree.
  - `Words` is the set of strings rebuilt from the terminal nodes.
  - `class Trie` holds the arena in a field. Its `Insert` and `Search` are
    loops over the word, proved against `Contents()`.
- `puzzle.dfy`, module `Puzzle`:
  - `Split` is `strings.Split` with a one-character separator. It is proved to
    round-trip with `Join`.
  - `ParseSides` is the loop that collects the sides and the letters.
- `extract.dfy`, module `Extract`:
  - `getInnerWords` and the two loops inside it (over the sides, then over a
    side's letters) are three mutually recursive functions.
  - Their output is characterised twice. In trie terms, a node is found if and
    only if a walk to it spells a continuation that can be played after the
    given side. In word terms, a word is extracted if and only if it is in
    the trie and is `Playable`.
  - `GetAllWords` is the Go loop, proved against those functions.
- `graph.dfy`, module `Graph`:
  - `MakeKey` is the loop that writes a word's letter set out as a string.
  - `AddWord` and `BuildGraph` are the reference for filing words.
  - The graph built from a word list files, under each signature, exactly the
    words with that signature, in order. Every entry has the shape the solver
    relies on.
- `solver.dfy`, module `Solver`:
  - `Search` is `findSolutionsInner`, over group paths, and
    `FindAllSolutions` is `findAllSolutions`.
  - `Solution` is an independent description of a solution, as a sequence of
    graph entries: it chains, it grows, and it is neither complete nor cut off
    before its end.
  - The main theorem states that the solver finds exactly the flattened
    solutions.
- `letterbox.dfy`, module `LetterBoxed`:
  - `class LetterBox` has the fields of the Go struct.
  - Its constructor follows `NewLetterBoxed`: parse, load the dictionary,
    extract the words, build the graph.
  - `BuildPuzzleGraph` updates the `graph` field word by word, and is proved
    equal to `BuildGraph`.

## Model

| member | source | states |
|---|---|---|
| Trie.NewTrieNode | pkg/trie.go:10-17 | a fresh node with the given letter and parent, no children and not terminal; that the nodes it creates are linked correctly is stated by `Trie.AddChildValid` and `Trie.Trie.constructor` |
| Trie.GetWord | pkg/trie.go:50-55 | the string of a node, rebuilt along its parents; `Trie.WalkIffGetWord` states that it is exactly the string whose walk from the root reaches the node, and that the root's string is empty |
| Trie.Trie.constructor | pkg/trie.go:23-27 | a new trie is a single root node with letter 0 and no parent; it is well formed and holds no word |
| Trie.Trie.Insert | pkg/trie.go:29-38 | the trie stays well formed; its words become the old words plus `word`; re-inserting a present word leaves the nodes unchanged; old nodes keep their letter, parent and string; every new node spells a prefix of `word` |
| Trie.Trie.Search | pkg/trie.go:39-48 | returns true if and only if `word` is one of the inserted words |
| Trie.PrefixMissingMeansAbsent | pkg/trie.go:41-44 | once a prefix of the word has no path from the root, the word is not in the trie, so stopping early with false is correct |
| Trie.AddChildValid | pkg/trie.go:32-34 | creating a missing child keeps the tree well formed; the child carries its letter and points to its parent; it stands for its parent's string plus that letter; old nodes are unchanged |
| Trie.WalkIffGetWord | pkg/trie.go:50-55 | walking `w` from the root reaches node `n` if and only if `n`'s rebuilt string is `w`; the root's string is empty |
| Trie.WordsByWalk | pkg/trie.go:39-48 | a string is a word of the trie if and only if walking it from the root ends on a terminal node |
| Trie.WalkExtendsWord | pkg/trie.go:50-55 | a walk of `u` from node `i` ends on a node whose string is `i`'s string followed by `u` |
| Trie.MarkWordAdds | pkg/trie.go:37 | marking a node terminal adds exactly that node's string to the words |
| Puzzle.Split | cmd/letterboxed/main.go:59 | `n` separators give `n + 1` pieces, none containing the separator |
| Puzzle.JoinSplit | cmd/letterboxed/main.go:59 | joining the pieces with the separator gives the puzzle string back |
| Puzzle.SplitJoin | cmd/letterboxed/main.go:59 | splitting a join of separator-free pieces gives the same pieces |
| Puzzle.ParseSides | cmd/letterboxed/main.go:59-64 | the sides are exactly the pieces of the string, without repeats; the letters are exactly the letters on the sides |
| Extract.GetInnerWords | cmd/letterboxed/main.go:121-138 | every node it returns is terminal; `Extract.InnerWordsSound` and `Extract.InnerWordsComplete` state that it returns exactly the terminal nodes reached by a continuation playable after `lastSide` |
| Extract.InnerOverSides | cmd/letterboxed/main.go:127-135 | every node it returns is terminal; `Extract.InnerOverSidesHas` states that it returns exactly the nodes found by the letter loop of some side other than `lastSide` |
| Extract.InnerOverSidesHas | cmd/letterboxed/main.go:127-135 | a node is found by the loop over the sides from `k` on if and only if the letter loop of one of those sides other than `lastSide` finds it |
| Extract.InnerOverLetters | cmd/letterboxed/main.go:129-133 | every node it returns is terminal; `Extract.InnerOverLettersHas` states that it returns exactly the nodes found below the existing children for the side's letters |
| Extract.InnerOverLettersHas | cmd/letterboxed/main.go:129-133 | a node is found by the loop over a side's letters from `m` on if and only if it is found below the child for one of those letters, reached from that side |
| Extract.RootWordNodes | cmd/letterboxed/main.go:99-106 | every node it returns is terminal; `Extract.RootNodeSound` and `Extract.RootNodeComplete` state that its nodes stand for exactly the playable words of the trie |
| Extract.InnerWordsHas | cmd/letterboxed/main.go:121-138 | a node is found below `i` if and only if it is `i` and `i` is terminal, or it is found below the child for a letter of a side other than `lastSide`, reached from that side |
| Extract.InnerWordsSound | cmd/letterboxed/main.go:121-138 | every node found is terminal and is reached by a continuation that can be played after `lastSide` |
| Extract.InnerWordsComplete | cmd/letterboxed/main.go:121-138 | every terminal node reached by such a continuation is found |
| Extract.CollectWordNodes | cmd/letterboxed/main.go:99-106 | the nodes collected by the loop over sides and letters are those of the walk from every root child of a side letter |
| Extract.WordsOfNodes | cmd/letterboxed/main.go:108-111 | the words are the strings of the collected nodes, position by position |
| Extract.RootNodeSound | cmd/letterboxed/main.go:99-106 | every collected node stands for a word of the trie that is playable on the sides |
| Extract.RootNodeComplete | cmd/letterboxed/main.go:99-106 | every playable word of the trie is the string of some collected node |
| Extract.GetAllWords | cmd/letterboxed/main.go:93-113 | a string is extracted if and only if it is a word of the trie and is playable on the sides |
| Extract.PlayableLetters | cmd/letterboxed/main.go:121-138 | a playable word is non-empty, each of its letters lies on some side, and neighbouring letters lie on different sides |
| Graph.Key | cmd/letterboxed/main.go:170-176 | the key of a letter set has no repeated letter, has exactly the letters of the set, and has one character per letter |
| Graph.KeyUnique | cmd/letterboxed/main.go:170-176 | an ascending string is the key of its own letters, so equal letter sets give equal keys |
| Graph.MakeKey | cmd/letterboxed/main.go:170-176 | the key built letter by letter repeats no letter, has exactly the letters of the set, and is the key of that set |
| Graph.AddWord | cmd/letterboxed/main.go:147-162 | the graph with one word filed; `Graph.AddWordGroups` states that exactly the word's own group changes, by gaining the word at its end |
| Graph.BuildGraph | cmd/letterboxed/main.go:146-164 | the graph with every word filed in order; `Graph.BuildGraphGroups` and `Graph.BuiltGraphWellFormed` state what each of its groups holds |
| Graph.AddWordGroups | cmd/letterboxed/main.go:156-162 | filing a word appends it to its own group, creates that entry if missing, and leaves every other group and entry unchanged |
| Graph.FilterHas | cmd/letterboxed/main.go:147-163 | a word is in the subsequence with a signature if and only if it is in the list and has that signature |
| Graph.BuildGraphGroups | cmd/letterboxed/main.go:146-164 | the group under a signature is the subsequence of the words with that signature; the entry exists if and only if that subsequence is not empty |
| Graph.BuiltGraphWellFormed | cmd/letterboxed/main.go:146-164 | every entry of the built graph is non-empty; its words start with its first letter, end with its last letter and have exactly its key's letters; every word is filed under its own signature |
| Graph.BuiltGraphHoldsOnlyGiven | cmd/letterboxed/main.go:146-164 | the built graph holds only words it was given |
| LetterBoxed.WordLetters | cmd/letterboxed/main.go:150-153 | the letter set collected from a word is exactly its distinct letters |
| LetterBoxed.FilingAddsWord | cmd/letterboxed/main.go:156-162 | creating the missing inner maps and appending to the group gives `AddWord` |
| LetterBoxed.LetterBox.FileWord | cmd/letterboxed/main.go:147-162 | filing one word makes the graph the old graph with that word added |
| LetterBoxed.LetterBox.BuildPuzzleGraph | cmd/letterboxed/main.go:146-164 | after filing the words in order, the graph is `BuildGraph` of the old graph and the words |
| LetterBoxed.LoadDictionary | cmd/letterboxed/main.go:72-76 | inserting every dictionary line gives a fresh, well-formed trie holding exactly the lines |
| LetterBoxed.ReadPuzzle | cmd/letterboxed/main.go:52-84 | the sides are the pieces of the puzzle string; the letters are those on the sides; the trie holds the dictionary; the words are exactly the playable dictionary words, each non-empty |
| LetterBoxed.LetterBox.constructor | cmd/letterboxed/main.go:44-86 | the fields hold the puzzle string and threshold, the split sides and their letters, and a trie of the dictionary; the words are exactly the playable dictionary words; the graph is the one built from those words |
| LetterBoxed.LetterBox.Solutions | cmd/letterboxed/main.go:184-239 | a word sequence is a solution of the puzzle if and only if it is the flattened group path of a solution in the puzzle's graph that starts on puzzle letters, within the puzzle's threshold |
| LetterBoxed.SolutionWordsArePuzzleWords | cmd/letterboxed/main.go:184-239 | every word of a solution found in the graph of the puzzle's words is one of those words |
| Solver.Steps | cmd/letterboxed/main.go:224-233 | the steps from `next` are exactly the graph entries that start at `next` and add at least one letter; each step reduces the key letters left uncovered |
| Solver.Search | cmd/letterboxed/main.go:212-239 | the group paths accepted from a path; `Solver.SearchSound` and `Solver.SearchComplete` state that they are exactly the group paths of the solutions extending a valid prefix |
| Solver.Flatten | cmd/letterboxed/main.go:214-217 | the words of a group path, group after group; `Solver.FlattenAppend` and `Solver.FlattenHas` state how it grows and that each of its words comes from some group |
| Solver.FindSolutionsInner | cmd/letterboxed/main.go:212-239 | the flattened accepted paths from one starting path, which `Solver.AllSolutionsSound` and `Solver.AllSolutionsComplete` connect to solutions |
| Solver.FindAllSolutions | cmd/letterboxed/main.go:184-203 | the solutions found from every entry on puzzle letters; `Solver.AllSolutionsExactly` states that they are exactly the flattened solutions starting on puzzle letters |
| Solver.SearchSound | cmd/letterboxed/main.go:212-239 | every group path accepted from a valid prefix is the group path of a solution extending that prefix |
| Solver.SearchComplete | cmd/letterboxed/main.go:212-239 | the group path of every solution extending a valid prefix is accepted from that prefix |
| Solver.AllSolutionsSound | cmd/letterboxed/main.go:184-239 | every found solution is the flattened group path of a solution that starts on puzzle letters |
| Solver.AllSolutionsComplete | cmd/letterboxed/main.go:184-239 | the flattened group path of every such solution is found |
| Solver.AllSolutionsExactly | cmd/letterboxed/main.go:184-239 | a word sequence is found if and only if it is the flattened group path of a solution starting on puzzle letters |
| Solver.FoundSolutionsCoverGoal | cmd/letterboxed/main.go:213-218 | in a well-formed graph, the words of every found solution use exactly twelve distinct letters |
| Solver.SolutionCoversGoal | cmd/letterboxed/main.go:213-218 | the words of a solution use exactly twelve distinct letters |
| Solver.SolutionWithinThreshold | cmd/letterboxed/main.go:219-221 | with a positive threshold, a solution has at most that many groups |
| Solver.CompleteBeforeCutoff | cmd/letterboxed/main.go:213-221 | a single entry covering twelve letters is a solution whatever the threshold, because the letter check comes first; with threshold 1 every solution is a single entry |
| Solver.SolutionChains | cmd/letterboxed/main.go:224-225 | every group of a solution is non-empty, and every word of a group ends with the letter every word of the next group starts with |
| Solver.SolutionGrows | cmd/letterboxed/main.go:226-234 | each group after the first adds at least one letter that the earlier words lack |
| Solver.FoundWordsInGraph | cmd/letterboxed/main.go:213-218 | every word of a found solution is a word of one of the graph's groups |
| Solver.CoverWords | cmd/letterboxed/main.go:194-197 | in a well-formed graph, the letters of a chain's words are exactly the letters of its keys |

## Left out

- Reading the dictionary file, `bufio.Scanner` and its errors, and the `panic`
  calls are left out. The dictionary comes in as the sequence of its lines.
- `strings.ToLower` is left out. The puzzle string and the words are taken as
  given, so `inputString` is the string as passed in.
- The timing output, `main`, its flags and the vocabulary hint are left out,
  because they are I/O and a network call.
- Go ranges over maps in an unspecified order. The model does not capture
  that order:
  - The sides are a sequence without repeats, in order of first occurrence.
  - The extracted nodes and words are characterised by membership, not by
    order or multiplicity.
  - The solutions are a set of word sequences. How often and in what order
    Go appends the same solution is not modelled.
- Graph.MakeKey: Go writes the letters in map iteration order, which the
  language leaves unspecified, so words with the same letter set can get
  different key strings. The model writes the letters in ascending order, an
  order the language permits.
- Graph.BuildGraph: words with the same first letter, last letter and letter
  set always share one group in the model. Go can keep such words apart under
  two key strings ("dread" and "dared", say). Where Go yields two separate
  solutions, one through each group, the model yields one flattened solution
  holding both words.
- Go's `word[0]` and `word[len(word)-1]` are bytes converted to runes. The
  model takes the first and last characters, which agree for one-byte letters.
  Multi-byte UTF-8 is not modelled.
- Go's `append(pathWords, edgeWords)` may share a backing array between
  sibling calls. The model treats paths as values, which matches what Go
  computes, because each emitted solution is copied before a sibling
  overwrites the shared slot.
- LetterBoxed.LetterBox.constructor: it does not state that the graph is well
  formed. That fact follows from `graph == BuildGraph(map[], words)` by
  `Graph.BuiltGraphWellFormed`.
- Solver.SolutionWithinThreshold: with a threshold of 0 or less the Go cutoff
  never fires, so the search is bounded only by the letters still to cover.
  The lemma therefore covers positive thresholds only.
- The puzzle is not validated. There is no check of four sides of three
  letters with no letter repeated, because the Go code makes none. The twelve
  in the solver is a constant, as in the code.

## Notes on the code

These are places where the code does something other than a plain reading of
the puzzle's rules would suggest. The model follows the code.

- The puzzle string is not validated. Any number of sides of any length is
  accepted, and sides that share letters are taken as they come.
- Single-letter dictionary words are extracted: the root child for a side
  letter is itself reported when it is terminal.
- The key is a string of letters, not a bitmask.
- "Different side" compares side strings. A letter that lies on two sides may
  be played from either of them.
