/**
 * Sets of words (strings as sequences of opaque characters) and the prefix
 * relation between them. A prefix tree stores a set of words, and a prefix
 * query answers with the stored words that extend the query; the lemmas
 * here split that answer along the edges out of the query's node.
 * Dafny's `p <= w` on sequences is "p is a prefix of w".
 */
module WordSets {

  /** The words of `ws` that have `p` as a prefix. */
  ghost function WithPrefix(ws: set<seq<char>>, p: seq<char>): set<seq<char>>
  {
    set w | w in ws && p <= w
  }

  /** The words of `ws` that extend `p` by at least one character, the next one taken from `cs`. */
  ghost function Below(ws: set<seq<char>>, p: seq<char>, cs: set<char>): set<seq<char>>
  {
    set w | w in ws && p <= w && |p| < |w| && w[|p|] in cs
  }

  /** The elements of a sequence, forgetting order and multiplicity. */
  ghost function Elements<T>(s: seq<T>): set<T>
  {
    set x | x in s
  }

  /** No element occurs twice. */
  ghost predicate Distinct<T>(s: seq<T>)
  {
    forall i, j :: 0 <= i < j < |s| ==> s[i] != s[j]
  }

  /** Some word of `ws` starts with `p`. */
  ghost predicate Extended(ws: set<seq<char>>, p: seq<char>)
  {
    exists w :: w in ws && p <= w
  }

  /** The prefixes of `w` of length at most `n`. */
  ghost function Heads(w: seq<char>, n: nat): set<seq<char>>
    requires n <= |w|
  {
    set k | 0 <= k <= n :: w[..k]
  }

  /** One more character of `w` adds its next prefix. */
  lemma HeadsStep(w: seq<char>, n: nat)
    requires n < |w|
    ensures Heads(w, n + 1) == Heads(w, n) + {w[..n + 1]}
  {
  }

  /**
   * Storing `w` keeps every string extended by a stored word extended, and
   * extends each prefix of `w`.
   */
  lemma ExtendedAfterAdd(ws: set<seq<char>>, w: seq<char>, keys: set<seq<char>>)
    requires forall s :: s in keys ==> s == [] || Extended(ws, s)
    ensures forall s :: s in keys + Heads(w, |w|) ==> s == [] || Extended(ws + {w}, s)
  {
  }

  /** A word extending `p` starts with every head of `p`. */
  lemma SharedHead(p: seq<char>, w: seq<char>, k: nat)
    requires k <= |p| && k <= |w|
    ensures p <= w ==> w[..k] == p[..k]
  {
  }

  /** Extending by one character is injective: a string has one parent and one last character. */
  lemma AppendOneInjective(s: seq<char>, c: char, t: seq<char>, d: char)
    requires s + [c] == t + [d]
    ensures s == t && c == d
  {
    assert s == (s + [c])[..|s|] && t == (t + [d])[..|t|];
    assert c == (s + [c])[|s|] && d == (t + [d])[|t|];
  }

  /** Taking one more next character adds the words below that edge. */
  lemma BelowAdd(ws: set<seq<char>>, p: seq<char>, cs: set<char>, c: char)
    ensures Below(ws, p, cs + {c}) == Below(ws, p, cs) + WithPrefix(ws, p + [c])
  {
  }

  /** The words below the edge `c` are not `p` and are not below any edge other than `c`. */
  lemma BelowDisjoint(ws: set<seq<char>>, p: seq<char>, cs: set<char>, c: char)
    requires c !in cs
    ensures forall w :: w in WithPrefix(ws, p + [c]) ==> w != p && w !in Below(ws, p, cs)
  {
  }

  /**
   * When every word strictly extending `p` continues with a character of `cs`,
   * the words extending `p` are `p` itself (if stored) and the words below `cs`.
   */
  lemma WithPrefixSplit(ws: set<seq<char>>, p: seq<char>, cs: set<char>)
    requires forall w :: w in ws && p <= w && |p| < |w| ==> w[|p|] in cs
    ensures WithPrefix(ws, p) == (if p in ws then {p} else {}) + Below(ws, p, cs)
  {
    forall w | w in ws && p <= w && |w| <= |p| ensures w == p {
      assert w == w[..|p|];
    }
  }

  /** A sequence has no elements exactly when it is empty. */
  lemma ElementsEmpty<T>(s: seq<T>)
    ensures Elements(s) == {} <==> s == []
  {
    if s != [] {
      assert s[0] in Elements(s);
    }
  }

  /** The elements of a concatenation are those of its parts. */
  lemma ElementsAppend<T>(a: seq<T>, b: seq<T>)
    ensures Elements(a + b) == Elements(a) + Elements(b)
  {
  }

  /** Concatenating two duplicate-free sequences with no common element gives a duplicate-free sequence. */
  lemma DistinctAppend<T>(a: seq<T>, b: seq<T>)
    requires Distinct(a) && Distinct(b)
    requires Elements(a) !! Elements(b)
    ensures Distinct(a + b)
  {
    forall i, j | 0 <= i < j < |a + b|
      ensures (a + b)[i] != (a + b)[j]
    {
      if j < |a| {
        assert (a + b)[i] == a[i] && (a + b)[j] == a[j];
      } else if i < |a| {
        assert (a + b)[i] == a[i] && (a + b)[j] == b[j - |a|];
        assert a[i] in Elements(a) && b[j - |a|] in Elements(b);
      } else {
        assert (a + b)[i] == b[i - |a|] && (a + b)[j] == b[j - |a|];
      }
    }
  }

  /** A duplicate-free sequence has as many distinct elements as it is long. */
  lemma {:induction false} DistinctSize<T>(s: seq<T>)
    requires Distinct(s)
    ensures |Elements(s)| == |s|
  {
    if s != [] {
      var t := s[..|s| - 1];
      assert s == t + [s[|s| - 1]];
      assert Distinct(t);
      DistinctSize(t);
      ElementsAppend(t, [s[|s| - 1]]);
      assert Elements([s[|s| - 1]]) == {s[|s| - 1]};
      assert s[|s| - 1] !in Elements(t);
    }
  }
}
