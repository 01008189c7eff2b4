/**
 * The search box of src/Suggestion.tsx, without React: a trie filled with
 * the sample words and the input handler that turns the typed text into the
 * list of suggestions shown under the box.
 */
module Suggestion {
  import opened WordSets
  import opened TrieClass

  /** The sample data inserted into the trie when the component is built. */
  const SampleWords: seq<seq<char>> := ["car", "card", "camp", "cut", "cup", "data"]

  /**
   * The suggestions for the typed `value`: none for the empty input (the
   * handler tests the string for truthiness), otherwise every stored word
   * that starts with `value`, each once.
   */
  method Suggestions(trie: Trie, value: seq<char>) returns (suggestions: seq<seq<char>>)
    requires trie.Valid()
    ensures value == [] ==> suggestions == []
    ensures value != [] ==> Elements(suggestions) == WithPrefix(trie.words, value) && Distinct(suggestions)
    ensures value != [] && value in trie.words ==> |suggestions| > 0 && suggestions[0] == value
  {
    if value != [] {
      suggestions := trie.StartsWith(value);
    } else {
      suggestions := [];
    }
  }

  /** A new trie filled with `words`, inserted one after the other. */
  method Build(words: seq<seq<char>>) returns (trie: Trie)
    ensures fresh(trie) && fresh(trie.Repr)
    ensures trie.Valid() && trie.words == Elements(words)
  {
    trie := new Trie();
    var i := 0;
    while i < |words|
      invariant 0 <= i <= |words|
      invariant fresh(trie) && fresh(trie.Repr)
      invariant trie.Valid() && trie.words == Elements(words[..i])
    {
      assert words[..i + 1] == words[..i] + [words[i]];
      trie.Insert(words[i]);
      i := i + 1;
    }
    assert words[..i] == words;
  }

  /** The sample words in the trie, as a set. */
  lemma SampleStored()
    ensures Elements(SampleWords) == {"car", "card", "camp", "cut", "cup", "data"}
  {
  }

  /** "car" is a sample word and "ca" is not, though it starts three of them. */
  lemma SampleLookups()
    ensures "car" in Elements(SampleWords) && "ca" !in Elements(SampleWords)
  {
  }

  /** Typing "ca" offers the three words that start with "ca". */
  lemma SampleCa()
    ensures WithPrefix(Elements(SampleWords), "ca") == {"car", "card", "camp"}
  {
    SampleStored();
    assert "cut"[1] != "ca"[1] && "cup"[1] != "ca"[1] && "data"[0] != "ca"[0];
  }

  /** Typing "cu" offers "cut" and "cup". */
  lemma SampleCu()
    ensures WithPrefix(Elements(SampleWords), "cu") == {"cut", "cup"}
  {
    SampleStored();
    assert "car"[1] != "cu"[1] && "card"[1] != "cu"[1] && "camp"[1] != "cu"[1] && "data"[0] != "cu"[0];
  }

  /** Typing "d" offers "data" only. */
  lemma SampleD()
    ensures WithPrefix(Elements(SampleWords), "d") == {"data"}
  {
    SampleStored();
    assert "car"[0] != "d"[0] && "card"[0] != "d"[0] && "camp"[0] != "d"[0];
    assert "cut"[0] != "d"[0] && "cup"[0] != "d"[0];
  }

  /** Typing "z" offers nothing. */
  lemma SampleZ()
    ensures WithPrefix(Elements(SampleWords), "z") == {}
  {
    SampleStored();
    assert "car"[0] != "z"[0] && "card"[0] != "z"[0] && "camp"[0] != "z"[0];
    assert "cut"[0] != "z"[0] && "cup"[0] != "z"[0] && "data"[0] != "z"[0];
  }

  /** Typing "ca", "cu", "d" and "z" into the box filled with the sample words. */
  method SampleTyping(trie: Trie) returns (ca: seq<seq<char>>, cu: seq<seq<char>>, d: seq<seq<char>>, z: seq<seq<char>>)
    requires trie.Valid() && trie.words == Elements(SampleWords)
    ensures Elements(ca) == {"car", "card", "camp"} && Distinct(ca)
    ensures Elements(cu) == {"cut", "cup"} && Distinct(cu)
    ensures d == ["data"]
    ensures z == []
  {
    ca := Suggestions(trie, "ca");
    SampleCa();
    cu := Suggestions(trie, "cu");
    SampleCu();
    d := Suggestions(trie, "d");
    SampleD();
    DistinctSize(d);
    assert d[0] in Elements(d);
    z := Suggestions(trie, "z");
    SampleZ();
    ElementsEmpty(z);
  }

  /** Looking up "car" and "ca" in the trie filled with the sample words. */
  method SampleSearches(trie: Trie) returns (car: bool, caOnly: bool)
    requires trie.Valid() && trie.words == Elements(SampleWords)
    ensures car && !caOnly
  {
    SampleLookups();
    car := trie.Search("car");
    caOnly := trie.Search("ca");
  }

  /** The sample session: the component's trie, built from the sample words, then queried. */
  method SampleSession() returns (ca: seq<seq<char>>, cu: seq<seq<char>>, d: seq<seq<char>>, z: seq<seq<char>>,
                                   car: bool, caOnly: bool)
    ensures Elements(ca) == {"car", "card", "camp"} && Distinct(ca)
    ensures Elements(cu) == {"cut", "cup"} && Distinct(cu)
    ensures d == ["data"]
    ensures z == []
    ensures car && !caOnly
  {
    var trie := Build(SampleWords);
    ca, cu, d, z := SampleTyping(trie);
    car, caOnly := SampleSearches(trie);
  }
}
