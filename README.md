# fbtrie in Dafny

A model of `fbtrie.py`, a small engine for approximate dictionary search.
Given a query and an edit-distance budget k, it reports stored words whose
Levenshtein distance to the query is at most k, each with its distance.

- **Trie.** Words are stored in a character trie. Each word is followed by the
  terminator `"\0"`.
- **Plain walk (`Trie.fuzzy`).** A depth-first walk of the trie. It fills one
  row of a Levenshtein table per depth. A subtree is pruned when the row
  minimum exceeds the budget.
- **Forward/backward index (`FBTrie`).** A second trie holds every word
  reversed. A query is split at its midpoint and runs two walks:
  - the forward walk matches the first half with budget `(k - 1) // 2`;
  - the backward walk matches the reversed second half with budget `k // 2`;
  - each walk switches to the full budget k once its half is matched.

The project has five modules:

- `Strings` (`strings.dfy`): reversal, lexicographic order, and the least key of a set.
- `Levenshtein` (`levenshtein.dfy`): the distance as a recursive definition, the
  row-minimum lower bound behind the pruning, and invariance under reversal.
- `EditTable` (`edit_table.dfy`): the shared `array2` table and its row-filling loops.
- `CharTrie` (`char_trie.dfy`):
  - the trie as a class over an arena of nodes;
  - `insert` and `traverse`;
  - the plain walk, as a recursive method over the table.
- `ForwardBackward` (`fb_trie.dfy`): the two-trie class, its insert, and the two-phase walk.

How the source's state is represented:

- A Python dictionary node `{}` is an entry in `nodes: seq<map<char, nat>>`;
  the root is node 0.
- A ghost path label per node and a ghost word set tie the arena to the
  words inserted so far.
- A generator's output is the finished list of `(word, distance)` pairs, in
  the order it yields them.
- The optional `k_fn` is a `DepthBudget` value, either `Default` or `Custom(fn)`.

## Model

| member | source | states |
|---|---|---|
| CharTrie.Trie.constructor | fbtrie.py:27-28 | A new trie is valid and holds no words. |
| CharTrie.Trie.Insert | fbtrie.py:30-36 | The word set grows by exactly `w`. Every path present before still leads to the same node. Inserting a word already present leaves nodes and words unchanged. The trie stays valid: the stored words are exactly the paths that end in the terminator. |
| CharTrie.TraverseExact | fbtrie.py:53-58 | `traverse(d, node, sofar)` yields `(x, d)` exactly for the words x below `node` that extend `sofar`. Each is yielded once, and all carry the same d. |
| CharTrie.Trie.Fuzzy | fbtrie.py:60-68 | Soundness: every result is a stored word at its true distance (of its first n symbols in prefix mode). That distance is within the budget at the word's depth, and the word is shorter than n + k unless reached by completion. Completeness: every stored word that is short enough and within the budget along its path is reported. Default budget, whole words: `(w, Lev(w, q))` is reported iff w is stored, `Lev(w, q) <= k` and `|w| < n + k`. With k = 0 nothing is reported. No word is reported twice. |
| CharTrie.Trie.FuzzyWalk | fbtrie.py:70-103 | The walk at depth i from a node reached by `sofar`, with row i - 1 holding the distances of `sofar`. Rows above i are left unchanged. Every report is sound. Every word below the node that the budget and the table height admit is reported. No word is reported twice. |
| CharTrie.PrefixBranch | fbtrie.py:73-78 | In prefix mode, once the query is used up, the completions below the node are reported. Each is tagged with `Lev(sofar, query)`, provided that is within budget; otherwise nothing is reported. |
| CharTrie.TerminatorBranch | fbtrie.py:86-89 | A terminator edge whose distance is within budget reports `sofar` at its true distance. It is the only word leaving by that edge. |
| CharTrie.ChildBranch | fbtrie.py:91-103 | The reports below child c are reports of the parent. A word due at the parent that continues with c is due at the child. Such a word passes the pruning test `min(tab[i]) <= k`. |
| CharTrie.Trie.FuzzyCorrected | fbtrie.py:60-68 | With n + k + 2 rows the walk reports exactly the stored words within distance k, each once, at their true distance. |
| CharTrie.CutoffMissesLongWord | fbtrie.py:62 | In a trie holding cat, cats, bat and rat, query "cat" with k = 1 misses "cats", although `Lev("cats", "cat") = 1`. The corrected walk reports it. |
| EditTable.NewTable | fbtrie.py:62-64 | Allocates a table of the requested rows and n + 1 columns. Row 0 is 0, 1, ..., n; the other rows are 0. |
| EditTable.FirstRowHolds | fbtrie.py:63-64 | Row 0 holds the distances from the empty path to every prefix of the query. |
| EditTable.FillRow | fbtrie.py:92-98 | After the inner loop, row i holds `Lev(sofar + c, query[..j])` for every j, with `tab[i][0] = i`. No other row changes. |
| EditTable.RowMin | fbtrie.py:100 | Returns the minimum of the row, the least distance from the path to any query prefix. |
| Levenshtein.ExtensionLowerBound | fbtrie.py:100-101 | The row minimum of a path bounds from below the distance from every extension of that path to the query, so pruning loses no word within budget. |
| Levenshtein.LengthGap | fbtrie.py:82-83 | The distance is at least the difference in lengths, so a word within k has length at most n + k. |
| Levenshtein.LevReverse | fbtrie.py:137-138 | Reversing both strings leaves the distance unchanged, so backward results carry their distance to the query itself. |
| Levenshtein.HalfLowerBound | fbtrie.py:168-175 | If an extension t of path p is within some budget of the first part of the query, then p's row minimum against the whole query is within that budget too. |
| Levenshtein.LevReverseFront | fbtrie.py:137-138 | The distance between two reversed strings, by the last-character recurrence, equals the first-character recurrence on the originals. |
| Levenshtein.LevFrontAgrees | fbtrie.py:92-98 | The recurrence on last characters, as the table computes it, equals the recurrence on first characters. |
| Strings.ReverseLength | fbtrie.py:115 | Reversal keeps the length of a word. |
| Strings.ReverseInvolutive | fbtrie.py:115 | Reversing twice gives back the word, so turning backward results around recovers the stored word. |
| Strings.ReverseAppend | fbtrie.py:123 | Reversing a concatenation swaps and reverses the parts, so the reversed second half is a prefix of the reversed query. |
| Strings.Least | fbtrie.py:153 | The next child that `sorted` hands out is the least remaining symbol. |
| ForwardBackward.FBTrie.constructor | fbtrie.py:109-111 | Both tries are new, distinct and empty. |
| ForwardBackward.FBTrie.Insert | fbtrie.py:113-115 | The forward trie gains w and the backward trie gains reverse(w). The backward word set stays the reversal of the forward word set. |
| ForwardBackward.FBTrie.Fuzzy | fbtrie.py:121-138 | Every result is a stored word at its true distance, at most k, and shorter than n + k. The first m results are the forward walk's, in ascending order. They include every such word with a non-empty prefix within `(k - 1) // 2` of the first half, which is -1 when k = 0. The remaining results are the backward walk's words turned back, ascending when read backwards. They include every such word with a non-empty suffix within `k // 2` of the second half. With k = 0 nothing is reported. |
| ForwardBackward.FBTrie.TrieFuzzy | fbtrie.py:140-147 | Over a table of n + k + 1 rows, starting in phase 1: every result is a stored word at its true distance within k, shorter than n + k. Results are strictly ascending. Every such word that is empty, or has a non-empty prefix within subk of subq, is reported. |
| ForwardBackward.FBTrie.TrieFuzzyWalk | fbtrie.py:149-176 | Rows above i are left unchanged. Every result is a word below the node, at its true distance within k and within the table height. Results are strictly ascending, since children are taken in sorted order. Every due word is reported: in phase 2, every such word; in phase 1, one accepted at this depth, or one whose prefix of length at least i is within subk of subq. |
| ForwardBackward.FBTrie.TrieFuzzyChild | fbtrie.py:153-176 | One pass of the loop over the sorted children, for symbol c. Rows above i are left unchanged. A terminator within k reports `sofar` at its distance. Any other symbol fills row i and descends, switching to phase 2 when the first part is matched, and pruning by the row minimum otherwise. Its reports are the words of the node leaving by c, sound and ascending, and every due word leaving by c is among them. |
| ForwardBackward.DescendComplete | fbtrie.py:168-176 | For a word due at depth i that continues with c: if `tab[i][len(subq)] <= subk` in phase 1, it is due below the child in phase 2 with budget k; otherwise it passes `min(tab[i]) <= subk` and is due below the child in the same phase. |
| ForwardBackward.PhaseStep | fbtrie.py:168-176 | The same step stated on the word alone: a phase-2 word keeps the row minimum within k. A phase-1 word not switched on this row keeps it within subk, and still matches the first part deeper down. |
| ForwardBackward.NotByTerminator | fbtrie.py:155 | When the terminator's distance exceeds k, no due word ends at this node. |
| ForwardBackward.FinishBranch | fbtrie.py:154-157 | A terminator within k reports `sofar` at its true distance, and no other word leaves by that edge. |
| ForwardBackward.DescendSound | fbtrie.py:169-176 | What the walk below child c reports are words of this node leaving by c. |
| ForwardBackward.AppendInOrder | fbtrie.py:153 | Results through a larger symbol follow all earlier results in lexicographic order. |
| ForwardBackward.NoDupFromSorted | fbtrie.py:153-157 | A strictly ascending result list holds no word twice. |
| ForwardBackward.ForwardThenBackward | fbtrie.py:133-138 | The concatenation of forward results and turned-back backward results is sound. Its forward part is ascending and covers the first-half matches. Its backward part is ascending read backwards and covers the second-half matches. With k = 0 it is empty. |
| ForwardBackward.TurnBackAt | fbtrie.py:137-138 | Entry j of the turned-back list is entry j of the backward results with its word reversed and its distance kept. |
| ForwardBackward.BackwardEntry | fbtrie.py:137-138 | One backward result, turned back, is a forward word at its true distance to the query, within k and shorter than n + k. |
| ForwardBackward.BackwardOrder | fbtrie.py:137-138 | Backward words in ascending order are, turned back, ascending when read backwards. |
| ForwardBackward.BackwardSound | fbtrie.py:137-138 | Backward results turned back are forward words at their distance to the original query. They are ascending when read backwards. |
| ForwardBackward.BackwardComplete | fbtrie.py:135-138 | A word with a non-empty suffix within `k // 2` of the second half reaches the backward results, turned back. |
| ForwardBackward.SuffixToPrefix | fbtrie.py:136-138 | A suffix of w within a budget of the second half is, reversed, a prefix of reverse(w) within that budget of the reversed half. |
| ForwardBackward.NothingWithinZero | fbtrie.py:142 | With k = 0 and the length cut-off at n, no result can remain. |

## Left out

- `Trie.print`, `Trie.print_`, `FBTrie.print` and the `__main__` block are not modelled. They are console output, argument parsing, standard input and timing.
- Generators are modelled by their complete output list. A consumer that stops early is not modelled.
- CharTrie.Trie.FuzzyWalk: children are taken in an unspecified order, where Python uses dictionary insertion order. Every property is proved for any order, but the order of the results is not modelled.
- CharTrie.Traverse: enumerates children in ascending symbol order, not insertion order. The set of results and their multiplicity are as in the source; their order is not.
- CharTrie.Trie.Insert: requires a word without `"\0"`. The source does not check this. A terminator edge whose distance exceeds k is still walked like an ordinary symbol (fbtrie.py:87-101), exactly as written.
- CharTrie.Trie.Fuzzy: k is a natural number. For negative k the source builds n + k + 1 rows and fails outright when that is not positive.
- CharTrie.Trie.Fuzzy: completeness under a custom `k_fn` is stated only for words whose distance is within the budget at every depth of their path. This is sufficient, not necessary.
- ForwardBackward.FBTrie.Fuzzy: agreement with the plain trie is not claimed. Completeness is proved for words with a non-empty prefix within `(k - 1) // 2` of the first half, or a non-empty suffix within `k // 2` of the second half. Query "a" with k = 1 and the word "b" meets neither clause.
- ForwardBackward.FBTrie.Fuzzy: the model follows the code in computing `(k - 1) // 2 = -1` for k = 0. Dafny's `/` agrees with Python's `//` for a positive divisor.
- The same cut-off as `Trie.fuzzy` (fbtrie.py:142, 150) is modelled as written in the two-phase walk. No corrected variant is given there.

## Findings

| source | as written | input that shows it | evidently intended | confidence | as-written member | corrected member |
|---|---|---|---|---|---|---|
| fbtrie.py:62, 82-83 | `fuzzy` allocates n + k + 1 rows, and `fuzzy_` returns once `i >= len(tab)`, before the terminators at that depth are examined. So a word of length n + k is never reported, and with k = 0 nothing is, not even the query. | Trie {cat, cats, bat, rat}, query "cat", k = 1: "cats" at distance 1 is missed. | every stored word within distance k is reported (n + k + 2 rows) | not executed | CharTrie.CutoffMissesLongWord | CharTrie.Trie.FuzzyCorrected |
