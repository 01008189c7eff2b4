# Prefix-tree word suggestions, in Dafny

This project models the prefix tree (trie) in `src/trie-class/Trie.ts` of the
react-trie repository and proves what it computes.

- The trie stores words. `insert` walks a word from the root and creates the
  child nodes that are missing. `search` says whether a word is stored.
  `startsWith` returns every stored word that starts with a prefix, and feeds
  the search box in `src/Suggestion.tsx`.
- `TrieNode` and `Trie` are Dafny classes (`trie.dfy`, module `TrieClass`).
  Their fields are updated in place, as in the TypeScript: a node's
  `children` map gains an entry, and `isEndOfWord` becomes true. The
  TypeScript `Map<string, TrieNode>` keyed by one-character strings is a
  Dafny `map<char, TrieNode>`.
- Each trie carries a ghost view of itself:
  - `words`: the set of stored words.
  - `nodeAt`: the node that the walk along each walkable string reaches.
  - `pathOf`: the inverse of `nodeAt`.
  - `Repr`: the set of nodes.
- `Valid()` ties the view to the objects. It has two parts:
  - `Shape()`: one node per walkable string, the edges of the nodes mirrored
    by `nodeAt`, and a node that ends a word exactly when its string is
    stored.
  - `Tidy()`: no dead branches, so every walkable string other than the
    root's starts some stored word.

  Every operation is specified against `words`.
- `word_sets.dfy` (module `WordSets`) defines the words of a set that start
  with a prefix (`WithPrefix`). It proves how that set splits along the edges
  out of the prefix's node, which is the shape of the recursion in
  `_getWordsFromNode`.
- `suggestion.dfy` (module `Suggestion`) models the input handler of the
  search box and the component's sample vocabulary. It has no React.

Dafny's `p <= w` on sequences means "`p` is a prefix of `w`".

## Model

| member | source | states |
|---|---|---|
| TrieClass.TrieNode.constructor | src/trie-class/Trie.ts:5-8 | a new node has no children and does not end a word |
| TrieClass.Trie.constructor | src/trie-class/Trie.ts:14-16 | a new trie is a valid lone root with no children; it stores no word, so every search is false and every prefix query is empty |
| TrieClass.Trie.WalkableClosed | src/trie-class/Trie.ts:20-26 | every prefix of a walkable string is walkable, because the walk in insert creates the path one node at a time |
| TrieClass.Trie.WalkableIff | src/trie-class/Trie.ts:44-48 | a non-empty string is walkable exactly when some stored word starts with it, so a walk stops at a missing edge exactly when no stored word has the walked prefix |
| TrieClass.Trie.EdgesCoverWords | src/trie-class/Trie.ts:59-61 | every stored word that strictly extends a walkable prefix has its next character among the prefix node's children, so iterating the children reaches every longer match |
| TrieClass.Trie.ChildAttached | src/trie-class/Trie.ts:22-24 | hanging a fresh, empty, unmarked node under a missing edge keeps the tree valid |
| TrieClass.Trie.AddChild | src/trie-class/Trie.ts:22-24 | the missing edge `c` now leads to a fresh empty node; the node's other edges are kept; exactly one string becomes walkable and one node is added; the tree stays valid |
| TrieClass.Trie.Descend | src/trie-class/Trie.ts:21-25 | one step of the walk in insert: the edge is added only when it is missing, and the returned node is the node of the next prefix; exactly that prefix can become walkable, and existing nodes stay at their strings |
| TrieClass.Trie.AddPath | src/trie-class/Trie.ts:19-26 | the walk in insert: afterwards `word` is walkable and the returned node is its node; exactly the prefixes of `word` are added to the walkable strings; existing nodes stay at their strings; an already walkable word creates no node |
| TrieClass.Trie.MarkEnd | src/trie-class/Trie.ts:27 | marking the final node stores exactly that node's string and nothing else |
| TrieClass.Trie.Insert | src/trie-class/Trie.ts:18-28 | afterwards the stored words are the old ones plus `word`, so a later search for it is true; nothing is removed; the walkable strings grow by exactly the prefixes of `word`, one node per missing edge; every existing node stays at its string; a word that was already walkable (including a second insert of the same word) creates no node; the empty word marks the root; the tree keeps no dead branches |
| TrieClass.Trie.Search | src/trie-class/Trie.ts:30-40 | returns true exactly when `word` is stored, both when the walk stops at a missing edge and when it reaches a node that does not end a word |
| TrieClass.Trie.StartsWith | src/trie-class/Trie.ts:42-52 | the result lists exactly the stored words that start with `prefix`, each once, with `prefix` first when it is stored; it is empty exactly when no stored word starts with `prefix`; for a non-empty prefix it is empty exactly when the walk hits a missing edge; the empty prefix gives every stored word |
| TrieClass.Trie.GetWordsFromNode | src/trie-class/Trie.ts:54-63 | for the node of `prefix`, returns exactly the stored words extending `prefix`, without duplicates, with the node's own word first when the node ends a word |
| WordSets.ExtendedAfterAdd | src/trie-class/Trie.ts:18-28 | after storing `w`, every string that started a stored word still does, and every prefix of `w` does too, so insert leaves no dead branch |
| WordSets.WithPrefixSplit | src/trie-class/Trie.ts:56-61 | when every longer match continues along one of the given edges, the words extending `p` are `p` itself (if stored) plus the words below those edges |
| WordSets.BelowAdd | src/trie-class/Trie.ts:59-61 | visiting one more child `c` adds exactly the words extending `p + [c]` |
| WordSets.BelowDisjoint | src/trie-class/Trie.ts:59-61 | the words under child `c` are neither `p` nor under any other child, so the concatenation never repeats a word |
| WordSets.DistinctAppend | src/trie-class/Trie.ts:60 | concatenating two duplicate-free lists with no common word gives a duplicate-free list |
| Suggestion.Suggestions | src/Suggestion.tsx:20-29 | empty input gives no suggestions; otherwise the suggestions are exactly the stored words that start with the input, each once, with the input first when it is stored |
| Suggestion.Build | src/Suggestion.tsx:11-17 | inserting a list of words into a new trie stores exactly the words of the list, whatever the order |
| Suggestion.SampleStored | src/Suggestion.tsx:14 | the sample vocabulary `SampleWords` holds exactly the six words car, card, camp, cut, cup and data |
| Suggestion.SampleCa | src/Suggestion.tsx:14 | among the sample words, "car", "card" and "camp" start with "ca" |
| Suggestion.SampleCu | src/Suggestion.tsx:14 | among the sample words, "cut" and "cup" start with "cu" |
| Suggestion.SampleD | src/Suggestion.tsx:14 | among the sample words, only "data" starts with "d" |
| Suggestion.SampleZ | src/Suggestion.tsx:14 | no sample word starts with "z" |
| Suggestion.SampleLookups | src/Suggestion.tsx:14 | "car" is a sample word and "ca" is not |
| Suggestion.SampleTyping | src/Suggestion.tsx:23-25 | in the trie of sample words, typing "ca", "cu", "d" and "z" offers {car, card, camp}, {cut, cup}, [data] and nothing, without repeats |
| Suggestion.SampleSearches | src/Suggestion.tsx:14-17 | in the trie of sample words, "car" is found and "ca" is not |
| Suggestion.SampleSession | src/Suggestion.tsx:11-24 | the component's trie, built from the sample words, answers the queries above |

## Left out

- TrieClass.Trie.StartsWith: the order of the words after `prefix` is not specified. The source follows the insertion order of JavaScript `Map` children; the model picks the children in an unspecified order and states the result as a duplicate-free list with a given set of elements.
- TrieClass.Trie.GetWordsFromNode: as for `StartsWith`, sibling order is not modelled, so only the first position (the node's own word) is pinned down.
- Suggestion.SampleTyping: for the same reason, it does not claim that "car" comes before "camp".
- TrieClass.Trie.StartsWith: for the empty prefix the walk always reaches the root, yet the result is empty when nothing is stored. So "empty exactly when the walk fails" is stated for non-empty prefixes only, as the source behaves.
- Characters are opaque `char` values (Unicode scalar values in Dafny). TypeScript's `word[i]` yields UTF-16 code units. A lone surrogate half, which `word[i]` returns for a character outside the Basic Multilingual Plane, has no Dafny `char`, so words with such characters are not representable. Normalisation and case are not modelled.
- The React component is UI and is not modelled: its state hooks (`src/Suggestion.tsx:5`, `8`, `22`, `25`, `27`), the click handler (`src/Suggestion.tsx:31-34`) and the rendering (`src/Suggestion.tsx:36-61`). Only the input handler's filtering and the sample vocabulary are.
- The call stack depth of the recursive `_getWordsFromNode`, performance and concurrent use are not modelled.
