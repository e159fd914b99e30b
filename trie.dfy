/** The language of the trie built over a word list, and the "longest suffix
    that is a trie node" function that gives both the failure links and the
    state reached while scanning a text their meaning. */
module TrieLanguage {
  import opened Text

  /** `x` spells a trie node over `words`: the root or a prefix of some word. */
  ghost predicate InTrie(x: string, words: seq<string>) {
    x == [] || exists j :: 0 <= j < |words| && x <= words[j]
  }

  /** Every word spells a trie node (the terminal node of its insertion). */
  lemma WordInTrie(words: seq<string>, j: nat)
    requires j < |words|
    ensures InTrie(words[j], words)
  {
  }

  /** The trie is closed under taking prefixes. */
  lemma InTrieDropLast(x: string, c: char, words: seq<string>)
    requires InTrie(x + [c], words)
    ensures InTrie(x, words)
  {
    var j :| 0 <= j < |words| && x + [c] <= words[j];
    assert x <= words[j];
  }

  /** The longest suffix of `x` that spells a trie node. */
  ghost function LongestSuffixInTrie(x: string, words: seq<string>): (r: string)
    ensures IsSuffix(r, x) && InTrie(r, words)
    decreases |x|
  {
    if InTrie(x, words) then x
    else
      var r := LongestSuffixInTrie(x[1..], words);
      SuffixTransitive(r, x[1..], x);
      r
  }

  /** No suffix of `x` that spells a trie node is longer than `LongestSuffixInTrie(x)`,
      so every such suffix is a suffix of it. */
  lemma {:induction false} LongestSuffixIsLongest(x: string, z: string, words: seq<string>)
    requires IsSuffix(z, x) && InTrie(z, words)
    ensures |z| <= |LongestSuffixInTrie(x, words)|
    ensures IsSuffix(z, LongestSuffixInTrie(x, words))
    decreases |x|
  {
    var r := LongestSuffixInTrie(x, words);
    if InTrie(x, words) {
      SuffixOfSuffix(z, x, x);
    } else {
      assert z != x;
      assert |z| < |x|;
      assert IsSuffix(z, x[1..]) by {
        assert x[1..][|x| - 1 - |z|..] == x[|x| - |z|..];
      }
      LongestSuffixIsLongest(x[1..], z, words);
    }
  }

  /** A trie node is its own longest trie suffix. */
  lemma LongestSuffixOfNode(x: string, words: seq<string>)
    requires InTrie(x, words)
    ensures LongestSuffixInTrie(x, words) == x
  {
  }

  /** The heart of Aho-Corasick: extending the text by `c` and then taking the
      longest trie suffix is the same as extending only the longest trie suffix
      of the text. This is why the automaton needs to remember one state only. */
  lemma {:induction false} LongestSuffixSnoc(x: string, c: char, words: seq<string>)
    ensures LongestSuffixInTrie(x + [c], words)
         == LongestSuffixInTrie(LongestSuffixInTrie(x, words) + [c], words)
  {
    var y := LongestSuffixInTrie(x, words);
    var a := LongestSuffixInTrie(x + [c], words);
    var b := LongestSuffixInTrie(y + [c], words);
    SuffixSnoc(y, x, c);
    SuffixTransitive(b, y + [c], x + [c]);
    LongestSuffixIsLongest(x + [c], b, words);
    if a != [] {
      var a' := a[..|a| - 1];
      SuffixDropLast(a, x, c);
      InTrieDropLast(a', c, words);
      LongestSuffixIsLongest(x, a', words);
      SuffixSnoc(a', y, c);
      LongestSuffixIsLongest(y + [c], a, words);
    }
    SuffixOfSuffix(a, b, x + [c]);
    SuffixOfSuffix(b, a, x + [c]);
  }

  /** For a trie node `w` (every word is one), `w` is a suffix of `x` exactly when
      it is a suffix of the longest trie suffix of `x`. */
  lemma NodeSuffixOfLongest(w: string, x: string, words: seq<string>)
    requires InTrie(w, words)
    ensures IsSuffix(w, LongestSuffixInTrie(x, words)) <==> IsSuffix(w, x)
  {
    var r := LongestSuffixInTrie(x, words);
    if IsSuffix(w, x) {
      LongestSuffixIsLongest(x, w, words);
    }
    if IsSuffix(w, r) {
      SuffixTransitive(w, r, x);
    }
  }

  /** A suffix of a non-empty `u` other than `u` itself is a suffix of `u[1..]`. */
  lemma ProperSuffix(w: string, u: string)
    requires |u| > 0 && IsSuffix(w, u) && w != u
    ensures IsSuffix(w, u[1..])
  {
    assert u[1..][|u| - 1 - |w|..] == u[|u| - |w|..];
  }

  /** Dropping the first character of `u + [c]` and taking the longest trie suffix
      is extending the longest trie suffix of `u[1..]` by `c`: the failure link of a
      child computed from its parent's failure link. */
  lemma TailSnoc(u: string, c: char, words: seq<string>)
    requires |u| > 0
    ensures LongestSuffixInTrie((u + [c])[1..], words)
         == LongestSuffixInTrie(LongestSuffixInTrie(u[1..], words) + [c], words)
  {
    assert (u + [c])[1..] == u[1..] + [c];
    LongestSuffixSnoc(u[1..], c, words);
  }

  /** When `u + [c]` is not a trie node, its longest trie suffix is found from `u`'s
      failure target: one step of the failure-chain walk. */
  lemma WalkStep(u: string, c: char, words: seq<string>)
    requires |u| > 0 && !InTrie(u + [c], words)
    ensures LongestSuffixInTrie(u + [c], words)
         == LongestSuffixInTrie(LongestSuffixInTrie(u[1..], words) + [c], words)
  {
    TailSnoc(u, c, words);
  }

  /** A single letter that starts no word leads back to the root. */
  lemma RootFallback(c: char, words: seq<string>)
    requires !InTrie([c], words)
    ensures LongestSuffixInTrie([c], words) == []
  {
    assert [c][1..] == [];
  }

  /** Prefixes of `w[..p+1]` are the prefixes of `w[..p]` and `w[..p+1]` itself. */
  lemma PrefixExtend(x: string, w: string, p: nat)
    requires p < |w|
    ensures x <= w[..p + 1] <==> x <= w[..p] || x == w[..p + 1]
  {
    if x <= w[..p + 1] && |x| <= p {
      assert x == w[..p + 1][..|x|] == w[..p][..|x|];
    }
  }

  /** The trie over `ws + [w]` is the trie over `ws` together with the prefixes of `w`. */
  lemma InTrieSnoc(x: string, ws: seq<string>, w: string)
    ensures InTrie(x, ws + [w]) <==> InTrie(x, ws) || x <= w
  {
    if x != [] && InTrie(x, ws + [w]) && !(x <= w) {
      var j :| 0 <= j < |ws + [w]| && x <= (ws + [w])[j];
      assert j < |ws| && x <= ws[j];
    }
    if x != [] && InTrie(x, ws) {
      var j :| 0 <= j < |ws| && x <= ws[j];
      assert (ws + [w])[j] == ws[j];
      assert 0 <= j < |ws + [w]| && x <= (ws + [w])[j];
    }
    if x != [] && x <= w {
      assert (ws + [w])[|ws|] == w;
    }
  }
}
