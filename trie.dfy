/**
 * The prefix tree of src/trie-class/Trie.ts. Nodes are heap objects whose
 * fields are updated in place, as the TypeScript class does with `Map.set`
 * and `isEndOfWord = true`. The trie keeps a ghost view of itself:
 *   - `words`: the set of stored words;
 *   - `nodeAt`: for every string that can be walked from the root, the node
 *     the walk reaches (the root at the empty string);
 *   - `pathOf`: the inverse of `nodeAt`, the string that leads to each node;
 *   - `Repr`: the nodes of the tree.
 * `Valid()` ties the view to the objects, so that every operation is
 * specified against the set of stored words.
 */
module TrieClass {
  import opened WordSets

  class TrieNode {
    var children: map<char, TrieNode>
    var isEndOfWord: bool

    /** A fresh node has no children and ends no word. */
    constructor ()
      ensures children == map[] && !isEndOfWord
    {
      children := map[];
      isEndOfWord := false;
    }
  }

  class Trie {
    var root: TrieNode
    ghost var words: set<seq<char>>
    ghost var nodeAt: map<seq<char>, TrieNode>
    ghost var pathOf: map<TrieNode, seq<char>>
    ghost var Repr: set<TrieNode>

    /**
     * The nodes form a strict tree: one node per walkable string (no node is
     * shared), the root at the empty string, an edge `c` from the node of `s`
     * exactly when `s + [c]` is walkable, leading to the node of `s + [c]`,
     * and a walkable string is stored exactly when its node ends a word.
     */
    ghost predicate Shape()
      reads this, Repr
    {
      && (forall n :: n in pathOf ==> n in Repr)
      && [] in nodeAt && nodeAt[[]] == root
      && (forall s :: s in nodeAt ==> nodeAt[s] in pathOf && pathOf[nodeAt[s]] == s)
      && (forall n :: n in pathOf ==> pathOf[n] in nodeAt && nodeAt[pathOf[n]] == n)
      && (forall n, c {:trigger n.children[c]} :: n in pathOf && c in n.children ==>
            n.children[c] in pathOf && pathOf[n.children[c]] == pathOf[n] + [c])
      && (forall s, c {:trigger s + [c]} :: s + [c] in nodeAt ==> s in nodeAt && c in nodeAt[s].children)
      && words <= nodeAt.Keys
      && (forall n :: n in pathOf ==> (n.isEndOfWord <==> pathOf[n] in words))
    }

    /**
     * No dead branches: every walkable string other than the root's starts
     * some stored word, since nodes are only made on the path of a stored word.
     */
    ghost predicate Tidy()
      reads this
    {
      forall s {:trigger Extended(words, s)} :: s in nodeAt ==> s == [] || Extended(words, s)
    }

    /** The invariant of a trie: a tree mirrored by the ghost view, with no dead branches. */
    ghost predicate Valid()
      reads this, Repr
    {
      Shape() && Tidy()
    }

    /** A new trie is a lone root, with no children, and stores no word. */
    constructor ()
      ensures Valid() && fresh(Repr)
      ensures words == {} && nodeAt.Keys == {[]}
    {
      root := new TrieNode();
      words := {};
      nodeAt := map[[] := root];
      pathOf := map[root := []];
      Repr := {root};
    }

    /** Every prefix of a walkable string is walkable. */
    lemma {:induction false} WalkableClosed(s: seq<char>, k: nat)
      requires Shape() && k <= |s|
      ensures s in nodeAt ==> s[..k] in nodeAt
      decreases |s| - k
    {
      if s in nodeAt {
        if k == |s| {
          assert s[..k] == s;
        } else {
          var t := s[..|s| - 1];
          assert s == t + [s[|s| - 1]];
          WalkableClosed(t, k);
          assert t[..k] == s[..k];
        }
      }
    }

    /**
     * A non-empty string is walkable exactly when some stored word starts
     * with it: the walk of `search` or `startsWith` fails on a missing edge
     * exactly when no stored word has the walked prefix.
     */
    lemma WalkableIff(s: seq<char>)
      requires Valid()
      ensures s != [] ==> (s in nodeAt <==> Extended(words, s))
    {
      if s != [] && Extended(words, s) {
        var w :| w in words && s <= w;
        WalkableClosed(w, |s|);
        assert w[..|s|] == s;
      }
    }

    /** Every stored word that strictly extends a walkable `p` leaves `p`'s node by one of its edges. */
    lemma EdgesCoverWords(p: seq<char>)
      requires Shape() && p in nodeAt
      ensures forall w :: w in words && p <= w && |p| < |w| ==> w[|p|] in nodeAt[p].children
    {
      forall w | w in words && p <= w && |p| < |w|
        ensures w[|p|] in nodeAt[p].children
      {
        WalkableClosed(w, |p| + 1);
        assert w[..|p| + 1] == p + [w[|p|]];
      }
    }

    /** After `AddChild`'s updates the tree is again valid. */
    twostate lemma ChildAttached(new node: TrieNode, new c: char, new s: seq<char>, new child: TrieNode)
      requires old(Shape()) && old(s in nodeAt && nodeAt[s] == node && c !in node.children)
      requires child !in old(Repr) && child != node
      requires nodeAt == old(nodeAt)[s + [c] := child] && pathOf == old(pathOf)[child := s + [c]]
      requires Repr == old(Repr) + {child} && words == old(words) && root == old(root)
      requires node.children == old(node.children)[c := child] && node.isEndOfWord == old(node.isEndOfWord)
      requires child.children == map[] && !child.isEndOfWord
      requires forall n :: n in old(Repr) && n != node ==> n.children == old(n.children) && n.isEndOfWord == old(n.isEndOfWord)
      ensures Shape()
    {
      assert s + [c] !in old(nodeAt);
      forall t, d | t + [d] == s + [c] ensures t == s && d == c {
        AppendOneInjective(t, d, s, c);
      }
    }

    /**
     * Attaches a fresh node with no children, ending no word, under `node`
     * (the node of `s`) along the missing edge `c`.
     */
    method AddChild(node: TrieNode, c: char, ghost s: seq<char>) returns (child: TrieNode)
      requires Shape() && s in nodeAt && nodeAt[s] == node && c !in node.children
      modifies this`nodeAt, this`pathOf, this`Repr, node`children
      ensures Shape() && fresh(child)
      ensures s + [c] !in old(nodeAt)
      ensures nodeAt == old(nodeAt)[s + [c] := child] && Repr == old(Repr) + {child}
      ensures node.children == old(node.children)[c := child]
      ensures child.children == map[] && !child.isEndOfWord
    {
      assert s + [c] !in nodeAt;
      child := new TrieNode();
      node.children := node.children[c := child];
      nodeAt := nodeAt[s + [c] := child];
      pathOf := pathOf[child := s + [c]];
      Repr := Repr + {child};
      ChildAttached(node, c, s, child);
    }

    /** Marks `node`, the node of the walkable string `s`, as the end of a word: `s` is now stored. */
    method MarkEnd(node: TrieNode, ghost s: seq<char>)
      requires Shape() && s in nodeAt && nodeAt[s] == node
      modifies this`words, node`isEndOfWord
      ensures Shape() && node.isEndOfWord
      ensures words == old(words) + {s}
    {
      node.isEndOfWord := true;
      words := words + {s};
    }

    /**
     * One step of the walk of `insert`, from `node` (the node of
     * `word[..i]`) along `word[i]`: the edge is added when it is missing, and
     * the node it leads to is returned. Only `word[..i + 1]` can become
     * walkable.
     */
    method Descend(node: TrieNode, word: seq<char>, i: nat) returns (next: TrieNode)
      requires Shape() && i < |word| && word[..i] in nodeAt && nodeAt[word[..i]] == node
      modifies this`nodeAt, this`pathOf, this`Repr, node`children
      ensures Shape() && fresh(Repr - old(Repr))
      ensures word[..i + 1] in nodeAt && nodeAt[word[..i + 1]] == next
      ensures nodeAt.Keys == old(nodeAt).Keys + {word[..i + 1]}
      ensures forall t :: t in old(nodeAt) ==> nodeAt[t] == old(nodeAt[t])
      ensures word[..i + 1] in old(nodeAt) ==> nodeAt == old(nodeAt) && Repr == old(Repr)
    {
      var c := word[i];
      assert word[..i + 1] == word[..i] + [c];
      if c !in node.children {
        var child := AddChild(node, c, word[..i]);
      }
      next := node.children[c];
    }

    /**
     * The walk of `insert`: follows `word` from the root, adding a fresh child
     * for every missing edge, and returns the node reached. Exactly the
     * prefixes of `word` become walkable, and existing nodes stay where they
     * are; a word that is already walkable (stored, or a prefix of a stored
     * word) creates no node at all.
     */
    method AddPath(word: seq<char>) returns (node: TrieNode)
      requires Shape()
      modifies this`nodeAt, this`pathOf, this`Repr, Repr`children
      ensures Shape() && fresh(Repr - old(Repr))
      ensures word in nodeAt && nodeAt[word] == node
      ensures nodeAt.Keys == old(nodeAt).Keys + Heads(word, |word|)
      ensures forall s :: s in old(nodeAt) ==> nodeAt[s] == old(nodeAt[s])
      ensures word in old(nodeAt) ==> nodeAt == old(nodeAt) && Repr == old(Repr)
    {
      ghost var nodeAt0, Repr0 := nodeAt, Repr;
      ghost var walkable := word in nodeAt;
      forall k | 0 <= k <= |word|
        ensures walkable ==> word[..k] in nodeAt
      {
        WalkableClosed(word, k);
      }
      node := root;
      var i := 0;
      while i < |word|
        invariant 0 <= i <= |word|
        invariant Shape()
        invariant forall o :: o in Repr && o !in Repr0 ==> fresh(o)
        invariant word[..i] in nodeAt && nodeAt[word[..i]] == node
        invariant nodeAt.Keys == nodeAt0.Keys + Heads(word, i)
        invariant forall s :: s in nodeAt0 ==> nodeAt[s] == nodeAt0[s]
        invariant walkable ==> nodeAt == nodeAt0 && Repr == Repr0
      {
        HeadsStep(word, i);
        node := Descend(node, word, i);
        i := i + 1;
      }
      assert word[..i] == word;
    }

    /**
     * Walks `word` from the root, adding the missing nodes, and marks the
     * last node as the end of a word: exactly `word` is added to the stored
     * words, and exactly its prefixes become walkable.
     */
    method Insert(word: seq<char>)
      requires Valid()
      modifies this, Repr
      ensures Valid() && fresh(Repr - old(Repr))
      ensures words == old(words) + {word}
      ensures nodeAt.Keys == old(nodeAt).Keys + Heads(word, |word|)
      ensures forall s :: s in old(nodeAt) ==> nodeAt[s] == old(nodeAt[s])
      ensures word in old(nodeAt) ==> nodeAt == old(nodeAt) && Repr == old(Repr)
      ensures root == old(root) && (word == [] ==> root.isEndOfWord)
    {
      ghost var keys0, words0 := nodeAt.Keys, words;
      var node := AddPath(word);
      MarkEnd(node, word);
      ExtendedAfterAdd(words0, word, keys0);
    }

    /** Walks `word` from the root; a missing edge means that the word is not stored. */
    method Search(word: seq<char>) returns (found: bool)
      requires Valid()
      ensures found <==> word in words
    {
      var node := root;
      var i := 0;
      while i < |word|
        invariant 0 <= i <= |word|
        invariant word[..i] in nodeAt && nodeAt[word[..i]] == node
      {
        var c := word[i];
        assert word[..i + 1] == word[..i] + [c];
        if c !in node.children {
          assert word[..i + 1] !in nodeAt;
          WalkableClosed(word, i + 1);
          return false;
        }
        node := node.children[c];
        i := i + 1;
      }
      assert word[..i] == word;
      return node.isEndOfWord;
    }

    /**
     * The stored words that start with `prefix`, each once, `prefix` itself
     * first when it is stored. The order of the others is not specified.
     */
    method StartsWith(prefix: seq<char>) returns (suggestions: seq<seq<char>>)
      requires Valid()
      ensures Distinct(suggestions)
      ensures Elements(suggestions) == WithPrefix(words, prefix)
      ensures prefix in words ==> |suggestions| > 0 && suggestions[0] == prefix
      ensures suggestions == [] <==> forall w :: w in words ==> !(prefix <= w)
      ensures prefix !in nodeAt ==> suggestions == []
      ensures prefix != [] ==> (suggestions == [] <==> prefix !in nodeAt)
      ensures prefix == [] ==> Elements(suggestions) == words
    {
      var node := root;
      var i := 0;
      while i < |prefix|
        invariant 0 <= i <= |prefix|
        invariant prefix[..i] in nodeAt && nodeAt[prefix[..i]] == node
      {
        var c := prefix[i];
        assert prefix[..i + 1] == prefix[..i] + [c];
        if c !in node.children {
          assert prefix[..i + 1] !in nodeAt;
          WalkableClosed(prefix, i + 1);
          forall w | w in words
            ensures !(prefix <= w)
          {
            if i + 1 <= |w| {
              WalkableClosed(w, i + 1);
              SharedHead(prefix, w, i + 1);
            }
          }
          return [];
        }
        node := node.children[c];
        i := i + 1;
      }
      assert prefix[..i] == prefix;
      suggestions := GetWordsFromNode(node, prefix);
      ElementsEmpty(suggestions);
      WalkableIff(prefix);
      if prefix != [] {
        ghost var w :| w in words && prefix <= w;
        assert w in WithPrefix(words, prefix);
      }
      forall w | w in words && prefix <= w
        ensures w in Elements(suggestions)
      {
        assert w in WithPrefix(words, prefix);
      }
    }

    /**
     * Collects `prefix + suffix` for every node below `node` (itself
     * included) that ends a word: the node's own word first, then the words
     * below each child in turn.
     */
    method GetWordsFromNode(node: TrieNode, prefix: seq<char>) returns (suggestions: seq<seq<char>>)
      requires Valid() && prefix in nodeAt && nodeAt[prefix] == node
      ensures Distinct(suggestions)
      ensures Elements(suggestions) == WithPrefix(words, prefix)
      ensures node.isEndOfWord ==> |suggestions| > 0 && suggestions[0] == prefix
      decreases WithPrefix(nodeAt.Keys, prefix)
    {
      suggestions := [];
      if node.isEndOfWord {
        suggestions := suggestions + [prefix];
      }
      var pending := node.children.Keys;
      while pending != {}
        invariant pending <= node.children.Keys
        invariant Distinct(suggestions)
        invariant Elements(suggestions) ==
          (if node.isEndOfWord then {prefix} else {}) + Below(words, prefix, node.children.Keys - pending)
        invariant node.isEndOfWord ==> |suggestions| > 0 && suggestions[0] == prefix
        decreases pending
      {
        var c :| c in pending;
        ghost var done := node.children.Keys - pending;
        assert prefix !in WithPrefix(nodeAt.Keys, prefix + [c]);
        var more := GetWordsFromNode(node.children[c], prefix + [c]);
        BelowDisjoint(words, prefix, done, c);
        assert Elements(suggestions) !! Elements(more);
        DistinctAppend(suggestions, more);
        ElementsAppend(suggestions, more);
        BelowAdd(words, prefix, done, c);
        assert node.children.Keys - (pending - {c}) == done + {c};
        suggestions := suggestions + more;
        pending := pending - {c};
      }
      EdgesCoverWords(prefix);
      WithPrefixSplit(words, prefix, node.children.Keys);
    }
  }
}
