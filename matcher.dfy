/** The Aho-Corasick automaton of the detector: a trie over the behaviour
    patterns stored in three flat tables (`goto`, `fail`, `out`) indexed by state
    number, built once and then used to scan operation-code strings.

    The ghost fields give every state its meaning: `path[s]` is the string the
    trie path to `s` spells and `stateOf` is its inverse. With them the object
    invariant says what each table entry is: a `goto` entry is the trie edge (or,
    at the root only, a loop back to the root), a failure link points at the
    longest proper suffix of the state's string that is still a trie node, and
    `out[s]` holds the indices of exactly the words that are suffixes of the
    state's string. The `1 << i` bitmask of the source is the set of those `i`. */
module Matcher {
  import opened Text
  import opened TrieLanguage
  import opened Scanning
  import opened BreadthFirst

  /** `sum(len(w) for w in words)`. */
  function SumLen(ws: seq<string>): (n: nat)
    ensures forall i :: 0 <= i < |ws| ==> |ws[i]| <= n
  {
    if ws == [] then 0 else SumLen(ws[..|ws| - 1]) + |ws[|ws| - 1]|
  }

  lemma SumLenSnoc(ws: seq<string>, i: nat)
    requires i < |ws|
    ensures SumLen(ws[..i + 1]) == SumLen(ws[..i]) + |ws[i]|
  {
    assert ws[..i + 1][..i] == ws[..i];
  }

  lemma {:induction false} SumLenPrefix(ws: seq<string>, i: nat)
    requires i <= |ws|
    ensures SumLen(ws[..i]) <= SumLen(ws)
    decreases |ws| - i
  {
    if i < |ws| {
      SumLenSnoc(ws, i);
      SumLenPrefix(ws, i + 1);
    } else {
      assert ws[..i] == ws;
    }
  }

  /** The word list after `words[i] = words[i].lower()` for every `i`. */
  function LowerAll(ws: seq<string>): (r: seq<string>)
    ensures |r| == |ws|
  {
    seq(|ws|, i requires 0 <= i < |ws| => LowerString(ws[i]))
  }

  /** Lower-casing keeps every length, so the table size computed before lower-casing fits. */
  lemma {:induction false} SumLenLowerAll(ws: seq<string>)
    ensures SumLen(LowerAll(ws)) == SumLen(ws)
  {
    if ws != [] {
      var n := |ws| - 1;
      assert LowerAll(ws)[..n] == LowerAll(ws[..n]);
      SumLenLowerAll(ws[..n]);
    }
  }

  /** Indices of the words that are suffixes of `u`. */
  ghost function EndingAt(words: seq<string>, u: string): set<nat> {
    set j | 0 <= j < |words| && IsSuffix(words[j], u)
  }

  /** Indices of the words equal to `u` (the terminal marks of the insertion phase). */
  ghost function SpelledBy(words: seq<string>, u: string): set<nat> {
    set j | 0 <= j < |words| && words[j] == u
  }

  /** The output propagation `out[child] |= out[fail[child]]` completes the set:
      a word is a suffix of `u` iff it is `u` or a suffix of `u`'s failure target. */
  lemma OutputPropagation(words: seq<string>, u: string)
    requires |u| > 0
    ensures SpelledBy(words, u) + EndingAt(words, LongestSuffixInTrie(u[1..], words)) == EndingAt(words, u)
  {
    var v := LongestSuffixInTrie(u[1..], words);
    assert IsSuffix(u[1..], u) by {
      assert u[|u| - |u[1..]|..] == u[1..];
    }
    forall j | 0 <= j < |words|
      ensures j in EndingAt(words, u) <==> j in SpelledBy(words, u) || j in EndingAt(words, v)
    {
      WordInTrie(words, j);
      NodeSuffixOfLongest(words[j], u[1..], words);
      if IsSuffix(words[j], u) && words[j] != u {
        ProperSuffix(words[j], u);
      }
      if IsSuffix(words[j], u[1..]) {
        SuffixTransitive(words[j], u[1..], u);
      }
    }
  }

  /** Reading the state reached is as good as reading the whole text: the words
      that end at the longest trie suffix of `t` are the words that end `t`. */
  lemma OutputOfLongest(words: seq<string>, t: string)
    ensures EndingAt(words, LongestSuffixInTrie(t, words)) == EndingAt(words, t)
  {
    forall j | 0 <= j < |words|
      ensures IsSuffix(words[j], LongestSuffixInTrie(t, words)) <==> IsSuffix(words[j], t)
    {
      WordInTrie(words, j);
      NodeSuffixOfLongest(words[j], t, words);
    }
  }

  class AhoCorasick {
    const maxStates: nat
    const maxCharacters: nat
    const out: array<set<nat>>
    const fail: array<int>
    const goto: array2<int>
    const words: seq<string>
    var statesCount: nat

    /** The string spelled by the trie path to each state. */
    ghost var path: seq<string>
    /** The state of each trie node's string. */
    ghost var stateOf: map<string, nat>

    /** Table sizes and the words the tables were built from. */
    ghost predicate Shape() {
      maxCharacters == Alphabet &&
      goto.Length0 == maxStates + 1 && goto.Length1 == Alphabet &&
      fail.Length == maxStates + 1 && out.Length == maxStates + 1 &&
      maxStates == SumLen(words) &&
      forall j :: 0 <= j < |words| ==> |words[j]| > 0 && LowerWord(words[j])
    }

    /** `path` and `stateOf` are inverse; state 0 is the root; at most
        `maxStates + 1` states. */
    ghost predicate Labels()
      reads this`path, this`stateOf
    {
      1 <= |path| <= maxStates + 1 && path[0] == [] &&
      (forall t :: 0 <= t < |path| ==> path[t] in stateOf && stateOf[path[t]] == t && LowerWord(path[t])) &&
      (forall x {:trigger stateOf[x]} :: x in stateOf ==> stateOf[x] < |path| && path[stateOf[x]] == x)
    }

    /** The states are exactly the nodes of the trie over `ws`. */
    ghost predicate Language(ws: seq<string>)
      reads this`path, this`stateOf
    {
      forall x :: x in stateOf <==> InTrie(x, ws)
    }

    /** The trie edge from `t` on column `c`, or -1 when there is none. */
    ghost function Edge(t: nat, c: nat): int
      reads this`path, this`stateOf
      requires t < |path| && c < Alphabet
    {
      var x := path[t] + [Sym(c)];
      if x in stateOf then stateOf[x] else -1
    }

    /** After the build: every entry is the trie edge, except that the root's
        missing edges loop back to the root. */
    ghost predicate Transitions()
      reads this`path, this`stateOf, goto
      requires Shape() && Labels()
    {
      forall t, c :: 0 <= t < |path| && 0 <= c < Alphabet ==>
        goto[t, c] == (if t == 0 && Edge(t, c) == -1 then 0 else Edge(t, c))
    }

    /** The failure link of a non-root state spells the longest proper suffix of
        its string that is a trie node. */
    ghost predicate FailOK(t: nat)
      reads this`path, this`stateOf, fail
      requires Shape() && Labels() && 0 < t < |path|
    {
      0 <= fail[t] < |path| && |path[t]| > 0 &&
      path[fail[t]] == LongestSuffixInTrie(path[t][1..], words)
    }

    /** `out[t]` holds exactly the words that are suffixes of the state's string. */
    ghost predicate OutOK(t: nat)
      reads this`path, this`stateOf, out
      requires Shape() && Labels() && t < |path|
    {
      out[t] == EndingAt(words, path[t])
    }

    /** `for i in range(len(words)): words[i] = words[i].lower()`. */
    static method LowerWords(patterns: array<string>)
      modifies patterns
      ensures patterns[..] == LowerAll(old(patterns[..]))
    {
      ghost var original := patterns[..];
      for i := 0 to patterns.Length
        invariant patterns[..i] == LowerAll(original[..i])
        invariant patterns[i..] == original[i..]
      {
        patterns[i] := LowerString(patterns[i]);
        assert patterns[..i + 1] == patterns[..i] + [patterns[i]];
        assert LowerAll(original[..i + 1]) == LowerAll(original[..i]) + [LowerString(original[i])];
      }
      assert patterns[..] == patterns[..patterns.Length];
      assert original == original[..patterns.Length];
    }

    /** The finished machine: every table entry means what the ghost labels say. */
    ghost predicate Built()
      reads this`path, this`stateOf, goto, fail, out
    {
      Shape() && Labels() && Language(words) && Transitions() &&
      (forall t :: 0 < t < |path| ==> FailOK(t)) &&
      (forall t :: 0 <= t < |path| ==> OutOK(t))
    }

    ghost predicate Valid()
      reads this, goto, fail, out
    {
      Built() && statesCount == |path|
    }

    /** `__init__`: sizes the tables from the total word length, lower-cases the
        caller's list in place, keeps it as `words` and builds the machine. */
    constructor (patterns: array<string>)
      requires forall i :: 0 <= i < patterns.Length ==> |patterns[i]| > 0 && Letters(patterns[i])
      modifies patterns
      ensures patterns[..] == LowerAll(old(patterns[..]))
      ensures words == patterns[..]
      ensures Valid()
      ensures maxStates == SumLen(words)
    {
      ghost var original := patterns[..];
      var n := SumLen(patterns[..]);
      maxStates := n;
      maxCharacters := Alphabet;
      LowerWords(patterns);
      SumLenLowerAll(original);
      out := new set<nat>[n + 1](_ => {});
      fail := new int[n + 1](_ => -1);
      goto := new int[n + 1, Alphabet]((_, _) => -1);
      words := patterns[..];
      new;
      var states := BuildMatchingMachine();
      label Built:
      statesCount := states;
      BuiltKept@Built();
    }

    /** What the finished tables guarantee the walks that use them: at most
        `sum(len(w)) + 1` states, every root transition defined, every defined
        entry a state, and every failure link a strictly shallower state, so the
        failure walk of `__find_next_state` ends at the root at the latest. */
    lemma MachineBounds()
      requires Valid()
      ensures statesCount <= maxStates + 1
      ensures forall c :: 0 <= c < Alphabet ==> 0 <= goto[0, c] < statesCount
      ensures forall t, c :: 0 <= t < statesCount && 0 <= c < Alphabet ==> -1 <= goto[t, c] < statesCount
      ensures forall t :: 0 < t < statesCount ==> 0 <= fail[t] < statesCount && |path[fail[t]]| < |path[t]|
    {
      forall t, c | 0 <= t < statesCount && 0 <= c < Alphabet
        ensures -1 <= goto[t, c] < statesCount && (t == 0 ==> goto[t, c] >= 0)
      {
        var x := path[t] + [Sym(c)];
        if x in stateOf {
          assert stateOf[x] < |path|;
        }
      }
      forall t | 0 < t < statesCount
        ensures 0 <= fail[t] < statesCount && |path[fail[t]]| < |path[t]|
      {
        assert FailOK(t);
        var v := LongestSuffixInTrie(path[t][1..], words);
        assert IsSuffix(v, path[t][1..]);
      }
    }

    /** Recording the state count leaves the finished tables as they were. */
    twostate lemma BuiltKept()
      requires old(Built())
      requires unchanged(goto) && unchanged(fail) && unchanged(out)
      requires path == old(path) && stateOf == old(stateOf)
      ensures Built()
    {
    }

    /** `__build_matching_machine`: trie insertion, root completion and the
        breadth-first computation of failure links and outputs. */
    method BuildMatchingMachine() returns (states: nat)
      requires Shape()
      requires forall t, c :: 0 <= t < goto.Length0 && 0 <= c < goto.Length1 ==> goto[t, c] == -1
      requires forall t :: 0 <= t < out.Length ==> out[t] == {}
      modifies this`path, this`stateOf, goto, fail, out
      ensures Built() && states == |path|
    {
      states := InsertWords();
      CompleteRoot();
      ComputeFailureLinks();
    }

    /** Phase one: `for i in range(len(arr))`, insert `arr[i]` into the trie. */
    method InsertWords() returns (states: nat)
      requires Shape()
      requires forall t, c :: 0 <= t < goto.Length0 && 0 <= c < goto.Length1 ==> goto[t, c] == -1
      requires forall t :: 0 <= t < out.Length ==> out[t] == {}
      modifies this`path, this`stateOf, goto, out
      ensures Labels() && states == |path| && Language(words) && TrieEdges()
      ensures forall t :: 0 <= t < |path| ==> out[t] == SpelledBy(words, path[t])
    {
      path := [[]];
      stateOf := map[[] := 0];
      states := 1;
      for i := 0 to |words|
        invariant Labels() && states == |path|
        invariant states <= 1 + SumLen(words[..i])
        invariant Language(words[..i])
        invariant TrieEdges() && UnusedRows()
        invariant Terminals(i)
      {
        states := InsertWord(i, states);
      }
      assert words[..|words|] == words;
    }

    /** Phase one: every entry is the trie edge (-1 when there is none). */
    ghost predicate TrieEdges()
      reads this`path, this`stateOf, goto
      requires Shape() && Labels()
    {
      forall t, c :: 0 <= t < |path| && 0 <= c < Alphabet ==> goto[t, c] == Edge(t, c)
    }

    /** Rows and outputs of states not yet allocated are untouched. */
    ghost predicate UnusedRows()
      reads this`path, this`stateOf, goto, out
      requires Shape() && Labels()
    {
      (forall t, c :: |path| <= t <= maxStates && 0 <= c < Alphabet ==> goto[t, c] == -1) &&
      (forall t :: |path| <= t <= maxStates ==> out[t] == {})
    }

    /** Phase one: `out[t]` marks the words among the first `i` that end at `t`. */
    ghost predicate Terminals(i: nat)
      reads this`path, this`stateOf, out
      requires Shape() && Labels() && i <= |words|
    {
      forall t :: 0 <= t < |path| ==> out[t] == SpelledBy(words[..i], path[t])
    }

    /** One iteration of the insertion loop: walks `words[i]` down the trie,
        allocating a state per missing edge, and marks bit `i` at the end. */
    method InsertWord(i: nat, states0: nat) returns (states: nat)
      requires Shape() && Labels() && i < |words| && states0 == |path|
      requires states0 <= 1 + SumLen(words[..i])
      requires Language(words[..i]) && TrieEdges() && UnusedRows() && Terminals(i)
      modifies this`path, this`stateOf, goto, out
      ensures Labels() && states == |path|
      ensures states <= 1 + SumLen(words[..i + 1])
      ensures Language(words[..i + 1]) && TrieEdges() && UnusedRows() && Terminals(i + 1)
    {
      var w := words[i];
      SumLenSnoc(words, i);
      SumLenPrefix(words, i + 1);
      states := states0;
      var s := 0;
      for p := 0 to |w|
        invariant Labels() && states == |path|
        invariant states <= 1 + SumLen(words[..i]) + p
        invariant 0 <= s < |path| && path[s] == w[..p]
        invariant forall x :: x in stateOf <==> InTrie(x, words[..i]) || x <= w[..p]
        invariant TrieEdges() && UnusedRows() && Terminals(i)
      {
        s, states := Advance(i, p, s, states);
      }
      assert w[..|w|] == w;
      MarkTerminal(i, s);
    }

    /** The body of `for ch in w`: follows the edge on `w[p]` from `s`, creating
        it first when it is missing. */
    method Advance(i: nat, p: nat, s: nat, states0: nat) returns (s': nat, states: nat)
      requires Shape() && Labels() && i < |words| && p < |words[i]| && states0 == |path|
      requires states0 <= 1 + SumLen(words[..i]) + p
      requires SumLen(words[..i + 1]) == SumLen(words[..i]) + |words[i]| <= SumLen(words)
      requires s < |path| && path[s] == words[i][..p]
      requires forall x :: x in stateOf <==> InTrie(x, words[..i]) || x <= words[i][..p]
      requires TrieEdges() && UnusedRows() && Terminals(i)
      modifies this`path, this`stateOf, goto
      ensures Labels() && states == |path| && states <= 1 + SumLen(words[..i]) + p + 1
      ensures s' < |path| && path[s'] == words[i][..p + 1]
      ensures forall x :: x in stateOf <==> InTrie(x, words[..i]) || x <= words[i][..p + 1]
      ensures TrieEdges() && UnusedRows() && Terminals(i)
    {
      var w := words[i];
      var idx := Col(w[p]);
      assert w[..p + 1] == path[s] + [Sym(idx)];
      states := states0;
      if goto[s, idx] == -1 {
        NewState(i, w, p, s, idx, states);
        states := states + 1;
      } else {
        assert Edge(s, idx) == goto[s, idx];
        forall x ensures x in stateOf <==> InTrie(x, words[..i]) || x <= w[..p + 1] {
          PrefixExtend(x, w, p);
        }
      }
      s' := goto[s, idx];
    }

    /** `out[s] |= (1 << i)` once `words[i]` has been walked down to `s`. */
    method MarkTerminal(i: nat, s: nat)
      requires Shape() && Labels() && i < |words| && s < |path| && path[s] == words[i]
      requires forall x :: x in stateOf <==> InTrie(x, words[..i]) || x <= words[i]
      requires TrieEdges() && UnusedRows() && Terminals(i)
      modifies out
      ensures Language(words[..i + 1]) && TrieEdges() && UnusedRows() && Terminals(i + 1)
    {
      var w := words[i];
      out[s] := out[s] + {i};
      assert words[..i + 1] == words[..i] + [w];
      forall x ensures x in stateOf <==> InTrie(x, words[..i + 1]) {
        InTrieSnoc(x, words[..i], w);
      }
      forall t | 0 <= t < |path| ensures out[t] == SpelledBy(words[..i + 1], path[t]) {
        if t == s {
          assert out[t] == SpelledBy(words[..i], path[t]) + {i};
        }
      }
    }

    /** Allocates state `states` as the child of `s` on column `idx`
        (`goto[s][idx] = states`), extending the ghost labels. */
    method NewState(i: nat, w: string, p: nat, s: nat, idx: nat, states: nat)
      requires Shape() && Labels() && states == |path|
      requires i < |words| && w == words[i] && p < |w|
      requires states <= SumLen(words[..i]) + |w| && SumLen(words[..i + 1]) == SumLen(words[..i]) + |w|
      requires SumLen(words[..i + 1]) <= SumLen(words)
      requires s < |path| && path[s] == w[..p] && idx < Alphabet && w[..p + 1] == path[s] + [Sym(idx)]
      requires forall x :: x in stateOf <==> InTrie(x, words[..i]) || x <= w[..p]
      requires TrieEdges() && UnusedRows() && Terminals(i)
      requires goto[s, idx] == -1
      modifies this`path, this`stateOf, goto
      ensures Labels() && |path| == states + 1 && path == old(path) + [w[..p + 1]]
      ensures goto[s, idx] == states
      ensures forall x :: x in stateOf <==> InTrie(x, words[..i]) || x <= w[..p + 1]
      ensures TrieEdges() && UnusedRows() && Terminals(i)
    {
      var x := w[..p + 1];
      assert x !in stateOf by {
        assert Edge(s, idx) == -1;
      }
      // no trie node extends x yet, and no earlier word equals x
      assert forall c :: 0 <= c < Alphabet ==> x + [Sym(c)] !in stateOf;
      assert forall j :: 0 <= j < i ==> words[..i][j] != x;
      goto[s, idx] := states;
      path := path + [x];
      stateOf := stateOf[x := states];
      forall y ensures y in stateOf <==> InTrie(y, words[..i]) || y <= w[..p + 1] {
        PrefixExtend(y, w, p);
      }
      LabelsAdded(x);
      EdgeAdded((s, idx));
      RowsAfterAlloc(i);
    }

    /** Appending a string that is not yet a state, as the new last state, keeps
        `path` and `stateOf` inverse. */
    twostate lemma LabelsAdded(x: string)
      requires Shape() && old(Labels()) && old(|path|) < maxStates + 1
      requires x !in old(stateOf) && LowerWord(x)
      requires path == old(path) + [x] && stateOf == old(stateOf)[x := old(|path|)]
      ensures Labels() && |path| == old(|path|) + 1 && path[..old(|path|)] == old(path) && path[old(|path|)] == x
    {
    }

    /** Allocating the new last state as the child of `e.0` on column `e.1`
        (`goto[e.0][e.1] = states`) keeps every table entry equal to the trie
        edge: the new entry is the new edge, the new state's row is empty, and
        no other entry spells the new string. */
    twostate lemma EdgeAdded(e: (nat, nat))
      requires Shape() && old(Labels()) && old(TrieEdges() && UnusedRows())
      requires |path| == old(|path|) + 1 && path[..old(|path|)] == old(path) && Labels()
      requires e.0 < old(|path|) && e.1 < Alphabet && path[old(|path|)] == old(path[e.0]) + [Sym(e.1)]
      requires forall c :: 0 <= c < Alphabet ==> path[old(|path|)] + [Sym(c)] !in old(stateOf)
      requires stateOf == old(stateOf)[path[old(|path|)] := old(|path|)]
      requires goto[e.0, e.1] == old(|path|)
      requires forall t, c :: 0 <= t <= maxStates && 0 <= c < Alphabet && (t != e.0 || c != e.1) ==>
        goto[t, c] == old(goto[t, c])
      ensures TrieEdges()
    {
      var states, s, idx := old(|path|), e.0, e.1;
      var x := path[states];
      forall t, c | 0 <= t < |path| && 0 <= c < Alphabet ensures goto[t, c] == Edge(t, c) {
        var y := path[t] + [Sym(c)];
        if t < states {
          assert path[t] == old(path[t]);
        }
        if t < states && y == x {
          assert path[t] == x[..|x| - 1] == path[s];
          assert Sym(c) == x[|x| - 1] == Sym(idx);
          ColSym(c);
          ColSym(idx);
        }
        if t == states {
          assert y !in stateOf;
        } else if t == s && c == idx {
          assert y == x;
        } else {
          assert old(goto[t, c]) == old(Edge(t, c));
        }
      }
    }

    /** Allocating a state that spells none of the first `i` words keeps the
        unused rows empty and the terminal marks exact. */
    twostate lemma RowsAfterAlloc(i: nat)
      requires Shape() && i <= |words| && old(Labels()) && old(UnusedRows() && Terminals(i))
      requires |path| == old(|path|) + 1 && path[..old(|path|)] == old(path) && Labels() && unchanged(out)
      requires forall j :: 0 <= j < i ==> words[..i][j] != path[old(|path|)]
      requires forall t, c :: old(|path|) <= t <= maxStates && 0 <= c < Alphabet ==> goto[t, c] == old(goto[t, c])
      ensures UnusedRows() && Terminals(i)
    {
      var states := old(|path|);
      forall t | 0 <= t < |path| ensures out[t] == SpelledBy(words[..i], path[t]) {
        if t < states {
          assert path[t] == old(path[t]);
        }
      }
    }

    /** `for c in range(26): if goto[0][c] == -1: goto[0][c] = 0`. */
    method CompleteRoot()
      requires Shape() && Labels() && TrieEdges()
      modifies goto
      ensures Transitions()
    {
      for c := 0 to Alphabet
        invariant forall t, c' :: 0 <= t < |path| && 0 <= c' < Alphabet ==>
          goto[t, c'] == (if t == 0 && c' < c && Edge(t, c') == -1 then 0 else Edge(t, c'))
      {
        if goto[0, c] == -1 {
          goto[0, c] := 0;
        }
      }
    }

    /** `__find_next_state`: follows failure links until a transition on `ch` is
        defined and takes it. Only failure links of states no deeper than `s` are
        used, which is what lets the breadth-first build call it too. */
    method FindNextState(s: nat, ch: char) returns (r: nat)
      requires Shape() && Labels() && Language(words) && Transitions()
      requires s < |path| && IsLower(ch)
      requires forall t :: 0 < t < |path| && |path[t]| <= |path[s]| ==> FailOK(t)
      ensures r < |path| && path[r] == LongestSuffixInTrie(path[s] + [ch], words)
      ensures |path[r]| <= |path[s]| + 1
    {
      var idx := Col(ch);
      var f := s;
      while goto[f, idx] == -1
        invariant 0 <= f < |path| && |path[f]| <= |path[s]|
        invariant LongestSuffixInTrie(path[f] + [ch], words) == LongestSuffixInTrie(path[s] + [ch], words)
        decreases |path[f]|
      {
        assert f != 0;
        assert Edge(f, idx) == -1;
        assert !InTrie(path[f] + [ch], words);
        WalkStep(path[f], ch, words);
        f := fail[f];
      }
      r := goto[f, idx];
      if Edge(f, idx) == -1 {
        assert f == 0 && r == 0;
        assert !InTrie([ch], words);
        RootFallback(ch, words);
      } else {
        LongestSuffixOfNode(path[f] + [ch], words);
      }
    }

    /** `search_words`: lower-cases the text, runs the automaton over it and, at
        each position, appends the start offset of every word whose bit is set in
        the current state's output. The result is the brute-force scan. */
    method SearchWords(text: string) returns (res: map<string, seq<int>>)
      requires Valid() && Letters(text)
      ensures res == Scan(words, LowerString(text))
      ensures res == ExhaustiveSearch(words, LowerString(text))
    {
      var t := LowerString(text);
      var s: nat := 0;
      res := map[];
      for i := 0 to |t|
        invariant s < |path| && path[s] == LongestSuffixInTrie(t[..i], words)
        invariant res == Scan(words, t[..i])
      {
        s, res := ReadChar(s, t, i, res);
      }
      assert t[..|t|] == t;
      ScanIsExhaustive(words, t);
    }

    /** One iteration of `search_words`: moves on `t[i]` and reports the words
        ending there. The state reached spells the longest suffix of `t[..i+1]`
        that is a trie node, so its output names every word ending at `i`. */
    method ReadChar(s: nat, t: string, i: nat, res0: map<string, seq<int>>) returns (s': nat, res: map<string, seq<int>>)
      requires Valid() && LowerWord(t) && i < |t|
      requires s < |path| && path[s] == LongestSuffixInTrie(t[..i], words)
      requires res0 == Scan(words, t[..i])
      ensures s' < |path| && path[s'] == LongestSuffixInTrie(t[..i + 1], words)
      ensures res == Scan(words, t[..i + 1])
    {
      var t' := t[..i + 1];
      assert t' == t[..i] + [t[i]] && t'[..i] == t[..i];
      ghost var outs := out[..];
      ghost var p := path;
      assert forall u :: 0 <= u < |p| ==> outs[u] == EndingAt(words, p[u]) by {
        forall u | 0 <= u < |p| ensures outs[u] == EndingAt(words, p[u]) {
          assert OutOK(u);
        }
      }
      s' := FindNextState(s, t[i]);
      LongestSuffixSnoc(t[..i], t[i], words);
      OutputOfLongest(words, t');
      assert out[s'] == outs[s'];
      res := Report(s', i, t', res0);
    }

    /** The reporting step of `search_words` at position `i`: for every `j` in
        order whose bit is set in `out[s]`, appends the start offset of `words[j]`. */
    method Report(s: nat, i: nat, t: string, res0: map<string, seq<int>>) returns (res: map<string, seq<int>>)
      requires s < out.Length && |t| == i + 1
      requires out[s] == EndingAt(words, t)
      ensures res == Emit(res0, words, |words|, t)
    {
      res := res0;
      if out[s] == {} {
        forall j | 0 <= j < |words| ensures !IsSuffix(words[j], t) {
          assert j !in out[s];
        }
        EmitNone(res0, words, |words|, t);
        return;
      }
      for j := 0 to |words|
        invariant res == Emit(res0, words, j, t)
      {
        if j in out[s] {
          var w := words[j];
          res := Append(res, w, i - |w| + 1);
        }
      }
    }


    // -------------------------------------------------------------------------
    // Breadth-first computation of failure links and outputs

    /** The tree shape `tr` describes the goto table: every non-root state is the
        entry of its parent's row at its column and spells its parent's string
        plus that column's letter; every defined entry other than the root's
        self-loops is such a child; depths are string lengths. */
    ghost predicate TreeOf(tr: Tree)
      reads this`path, this`stateOf, goto
      requires Shape() && Labels()
    {
      |tr.parent| == |tr.col| == |tr.depth| == |path| &&
      (forall t {:trigger tr.parent[t]} :: 0 < t < |path| ==>
        tr.parent[t] < |path| && tr.col[t] < Alphabet && goto[tr.parent[t], tr.col[t]] == t &&
        path[t] == path[tr.parent[t]] + [Sym(tr.col[t])]) &&
      (forall t :: 0 <= t < |path| ==> tr.depth[t] == |path[t]|) &&
      (forall s, c :: 0 <= s < |path| && 0 <= c < Alphabet && goto[s, c] != -1 && (s != 0 || goto[s, c] != 0) ==>
        0 < goto[s, c] < |path| && tr.parent[goto[s, c]] == s && tr.col[goto[s, c]] == c)
    }

    /** The parent of state `t`: the state spelling its string minus the last letter. */
    static ghost function ParentIn(p: seq<string>, so: map<string, nat>, t: nat): nat
      requires t < |p|
    {
      if |p[t]| > 0 && p[t][..|p[t]| - 1] in so then so[p[t][..|p[t]| - 1]] else 0
    }

    /** The column of the last letter of state `t`'s string. */
    static function ColIn(p: seq<string>, t: nat): nat
      requires t < |p|
    {
      if |p[t]| > 0 && IsLower(p[t][|p[t]| - 1]) then Col(p[t][|p[t]| - 1]) else 0
    }

    /** Reads the tree shape off the finished trie. */
    lemma MakeTree() returns (tr: Tree)
      requires Shape() && Labels() && Language(words) && Transitions()
      ensures WellFormed(tr) && TreeOf(tr)
    {
      var p := path;
      var so := stateOf;
      tr := Tree(seq(|p|, t requires 0 <= t < |p| => ParentIn(p, so, t)),
                 seq(|p|, t requires 0 <= t < |p| => ColIn(p, t)),
                 seq(|p|, t requires 0 <= t < |p| => |p[t]|));
      forall t | 0 < t < |p|
        ensures tr.parent[t] < |p| && tr.col[t] < Alphabet && goto[tr.parent[t], tr.col[t]] == t
        ensures p[t] == p[tr.parent[t]] + [Sym(tr.col[t])]
      {
        TreeEdge(t);
      }
      forall s, c | 0 <= s < |p| && 0 <= c < Alphabet && goto[s, c] != -1 && (s != 0 || goto[s, c] != 0)
        ensures 0 < goto[s, c] < |p| && tr.parent[goto[s, c]] == s && tr.col[goto[s, c]] == c
      {
        TreeChild(s, c);
      }
      forall t, u | 0 < t < |p| && 0 < u < |p| && tr.parent[t] == tr.parent[u] && tr.col[t] == tr.col[u]
        ensures t == u
      {
        assert p[t] == p[u];
      }
    }

    /** A non-root state hangs from its parent by the edge on its last letter. */
    lemma TreeEdge(t: nat)
      requires Shape() && Labels() && Language(words) && Transitions() && 0 < t < |path|
      ensures ParentIn(path, stateOf, t) < |path| && ColIn(path, t) < Alphabet
      ensures goto[ParentIn(path, stateOf, t), ColIn(path, t)] == t
      ensures path[t] == path[ParentIn(path, stateOf, t)] + [Sym(ColIn(path, t))]
    {
      var u := path[t];
      assert u != path[0];
      var ch := u[|u| - 1];
      assert u == u[..|u| - 1] + [ch];
      InTrieDropLast(u[..|u| - 1], ch, words);
      var q := stateOf[u[..|u| - 1]];
      assert Edge(q, Col(ch)) == t;
    }

    /** A defined entry other than a root self-loop leads to a child. */
    lemma TreeChild(s: nat, c: nat)
      requires Shape() && Labels() && Transitions() && s < |path| && c < Alphabet
      requires goto[s, c] != -1 && (s != 0 || goto[s, c] != 0)
      ensures 0 < goto[s, c] < |path|
      ensures ParentIn(path, stateOf, goto[s, c]) == s && ColIn(path, goto[s, c]) == c
    {
      var x := path[s] + [Sym(c)];
      assert Edge(s, c) == goto[s, c];
      var t := stateOf[x];
      assert path[t] == x;
      assert x[..|x| - 1] == path[s];
      ColSym(c);
    }

    /** No state hangs from `s` by column `c` when that entry is undefined (or is
        a root self-loop). */
    lemma NoEdge(tr: Tree, s: nat, c: nat)
      requires Shape() && Labels() && TreeOf(tr) && s < |path| && c < Alphabet
      requires goto[s, c] == -1 || (s == 0 && goto[s, c] == 0)
      ensures forall t :: 0 < t < |path| ==> !(tr.parent[t] == s && tr.col[t] == c)
    {
    }

    /** The states in `visited` have their final failure link and output. */
    ghost predicate Linked(visited: seq<nat>)
      reads this`path, this`stateOf, fail, out
      requires Shape() && Labels()
    {
      forall t :: t in visited && 0 < t < |path| ==> FailOK(t) && OutOK(t)
    }

    /** The states not yet visited still hold the terminal marks of the insertion phase. */
    ghost predicate Pending(visited: seq<nat>)
      reads this`path, this`stateOf, out
      requires Shape() && Labels()
    {
      forall t :: 0 < t < |path| && t !in visited ==> out[t] == SpelledBy(words, path[t])
    }

    /** No word is a suffix of the empty string: the root outputs nothing. */
    lemma RootOutputsNothing()
      requires Shape()
      ensures EndingAt(words, []) == {} && SpelledBy(words, []) == {}
    {
    }

    /** The breadth-first pass: every non-root state gets its failure link
        (`fail[child] = __find_next_state(fail[state], c)`) and its output is
        completed with that of its failure target (`out[child] |= out[f]`). */
    method ComputeFailureLinks()
      requires Shape() && Labels() && Language(words) && Transitions()
      requires forall t :: 0 <= t < |path| ==> out[t] == SpelledBy(words, path[t])
      modifies fail, out
      ensures forall t :: 0 < t < |path| ==> FailOK(t)
      ensures forall t :: 0 <= t < |path| ==> OutOK(t)
    {
      RootOutputsNothing();
      ghost var tr := MakeTree();
      label Root:
      var queue := LinkRootChildren(tr);
      TableKept@Root(tr);
      FirstLevel(tr, queue);
      ghost var processed: seq<nat> := [];
      ghost var visited: seq<nat> := queue;
      while queue != []
        invariant visited == processed + queue && Pass(tr, visited, processed)
        decreases Unvisited(|tr.parent|, visited), |queue|
      {
        queue, processed, visited := ProcessHead(tr, queue, processed, visited);
      }
      LinkedAll(tr, visited);
    }

    /** The invariant of the main loop: the tables are built, the queue is in
        breadth-first order, and every enqueued state is linked. */
    ghost predicate Pass(tr: Tree, visited: seq<nat>, processed: seq<nat>)
      reads this`path, this`stateOf, goto, fail, out
    {
      Shape() && Labels() && Language(words) && Transitions() && WellFormed(tr) && TreeOf(tr) &&
      Frontier(tr, visited, processed) && Linked(visited) && Pending(visited) && OutOK(0)
    }

    /** When the queue runs empty every state is linked. */
    lemma LinkedAll(tr: Tree, visited: seq<nat>)
      requires Pass(tr, visited, visited)
      ensures forall t :: 0 < t < |path| ==> FailOK(t)
      ensures forall t :: 0 <= t < |path| ==> OutOK(t)
    {
      AllVisited(tr, visited);
      forall t | 0 <= t < |path| ensures (t > 0 ==> FailOK(t)) && OutOK(t) {
        if t > 0 {
          assert t in visited;
        }
      }
    }

    /** One round of the main loop: `state = queue.pop(0)`, then its children
        are linked and enqueued. */
    method ProcessHead(ghost tr: Tree, queue: seq<nat>, ghost processed: seq<nat>, ghost visited: seq<nat>)
      returns (queue': seq<nat>, ghost processed': seq<nat>, ghost visited': seq<nat>)
      requires queue != [] && visited == processed + queue && Pass(tr, visited, processed)
      modifies fail, out
      ensures visited' == processed' + queue' && Pass(tr, visited', processed')
      ensures Unvisited(|tr.parent|, visited') < Unvisited(|tr.parent|, visited) ||
        (Unvisited(|tr.parent|, visited') == Unvisited(|tr.parent|, visited) && |queue'| < |queue|)
    {
      var state := queue[0];
      StartChildren(tr, visited, processed);
      var children := LinkChildren(state, tr, visited, processed);
      NextRound(tr, processed, queue, children);
      processed' := processed + [state];
      queue' := queue[1..] + children;
      visited' := visited + children;
    }

    /** The first loop of the pass: every child of the root fails to the root and
        is enqueued. */
    method LinkRootChildren(ghost tr: Tree) returns (queue: seq<nat>)
      requires Shape() && Labels() && Transitions() && WellFormed(tr) && TreeOf(tr)
      requires forall t :: 0 <= t < |path| ==> out[t] == SpelledBy(words, path[t])
      requires OutOK(0)
      modifies fail
      ensures RootLevel(tr, queue, Alphabet)
      ensures Linked(queue) && Pending(queue) && OutOK(0)
    {
      queue := [];
      for c := 0 to Alphabet
        invariant RootLevel(tr, queue, c)
        invariant Linked(queue) && Pending(queue) && OutOK(0)
      {
        if goto[0, c] != 0 {
          var t := goto[0, c];
          RootChild(tr, queue, c, t);
          LinkRootChild(t, queue);
          queue := queue + [t];
        } else {
          NoEdge(tr, 0, c);
          NoRootChild(tr, queue, c);
        }
      }
    }

    /** The inner loop of the pass for the dequeued `state`: links and returns its
        children. */
    method LinkChildren(state: nat, ghost tr: Tree, ghost visited: seq<nat>, ghost processed: seq<nat>)
      returns (children: seq<nat>)
      requires Linking(tr, visited, processed, state, 0)
      modifies fail, out
      ensures Linking(tr, visited + children, processed, state, Alphabet)
    {
      children := [];
      ghost var all := visited;
      assert all == visited + children;
      for c := 0 to Alphabet
        invariant all == visited + children
        invariant Linking(tr, all, processed, state, c)
      {
        var added := LinkColumn(state, c, tr, all, processed);
        Enqueue(visited, children, added);
        children := children + added;
        all := all + added;
      }
    }

    /** The invariant of the inner loop: the tables are built, the children of
        `state` on columns below `c` are enqueued, and every enqueued state is
        linked. */
    ghost predicate Linking(tr: Tree, visited: seq<nat>, processed: seq<nat>, state: nat, c: nat)
      reads this`path, this`stateOf, goto, fail, out
    {
      Shape() && Labels() && Language(words) && Transitions() && WellFormed(tr) && TreeOf(tr) &&
      Children(tr, visited, processed, state, c) && Linked(visited) && Pending(visited) && OutOK(0)
    }

    /** The body of the inner loop: `if goto[state][c] != -1`, link that child. */
    method LinkColumn(state: nat, c: nat, ghost tr: Tree, ghost visited: seq<nat>, ghost processed: seq<nat>)
      returns (added: seq<nat>)
      requires c < Alphabet && Linking(tr, visited, processed, state, c)
      modifies fail, out
      ensures Linking(tr, visited + added, processed, state, c + 1)
    {
      if goto[state, c] != -1 {
        var child := EnqueueChild(state, c, tr, visited, processed);
        added := [child];
      } else {
        NoEdge(tr, state, c);
        NoChild(tr, visited, processed, state, c);
        added := [];
        assert visited + added == visited;
      }
    }

    /** The child on column `c` exists: link it and enqueue it. */
    method EnqueueChild(state: nat, c: nat, ghost tr: Tree, ghost visited: seq<nat>, ghost processed: seq<nat>)
      returns (child: nat)
      requires Shape() && Labels() && Language(words) && Transitions() && WellFormed(tr) && TreeOf(tr)
      requires c < Alphabet && Children(tr, visited, processed, state, c) && goto[state, c] != -1
      requires Linked(visited) && Pending(visited) && OutOK(0)
      modifies fail, out
      ensures Shape() && Labels() && Language(words) && Transitions() && TreeOf(tr)
      ensures Children(tr, visited + [child], processed, state, c + 1)
      ensures Linked(visited + [child]) && Pending(visited + [child]) && OutOK(0)
    {
      ProcessChild(tr, visited, processed, state, c, goto[state, c]);
      ShallowByLength(tr, visited, processed, state, c);
      label Link:
      child := LinkChild(state, c, visited);
      TableKept@Link(tr);
    }

    /** Linking a state writes only `fail` and `out`: the trie and its tables stay. */
    twostate lemma TableKept(tr: Tree)
      requires old(Shape() && Labels()) && old(Language(words) && Transitions() && TreeOf(tr))
      requires unchanged(this) && unchanged(goto)
      ensures Shape() && Labels() && Language(words) && Transitions() && TreeOf(tr)
    {
    }

    /** The dequeued state is not the root, and every state whose string is no
        longer than its own has been visited. */
    lemma ShallowByLength(tr: Tree, visited: seq<nat>, processed: seq<nat>, state: nat, c: nat)
      requires Shape() && Labels() && WellFormed(tr) && TreeOf(tr)
      requires Children(tr, visited, processed, state, c)
      ensures 0 < state < |path| && state in visited
      ensures forall t :: 0 < t < |path| && |path[t]| <= |path[state]| ==> t in visited
    {
    }

    /** `fail[goto[0][c]] = 0` for a child of the root: its only proper suffix is
        the empty string, and its output is its own terminal mark. */
    method LinkRootChild(t: nat, ghost queue: seq<nat>)
      requires Shape() && Labels() && 0 < t < |path| && |path[t]| == 1 && t !in queue
      requires Linked(queue) && Pending(queue) && OutOK(0)
      modifies fail
      ensures Linked(queue + [t]) && Pending(queue + [t]) && OutOK(0)
    {
      fail[t] := 0;
      RootOutputsNothing();
      OutputPropagation(words, path[t]);
      assert path[t][1..] == [];
    }

    /** One step of the breadth-first pass: sets the failure link and completes
        the output of the child of `state` on column `c`. Every state no longer
        than `state` has been visited, so every failure link the walk follows is
        final. */
    method LinkChild(state: nat, c: nat, ghost visited: seq<nat>) returns (child: nat)
      requires Shape() && Labels() && Language(words) && Transitions()
      requires 0 < state < |path| && c < Alphabet && goto[state, c] != -1
      requires state in visited && goto[state, c] !in visited
      requires forall t :: 0 < t < |path| && |path[t]| <= |path[state]| ==> t in visited
      requires Linked(visited) && Pending(visited) && OutOK(0)
      modifies fail, out
      ensures child == goto[state, c]
      ensures Linked(visited + [child]) && Pending(visited + [child]) && OutOK(0)
    {
      child := goto[state, c];
      assert Edge(state, c) == child;
      assert FailOK(state);
      WalkReady(state, visited);
      var g := fail[state];
      ghost var p := path;
      assert |p[g]| < |p[state]|;
      assert forall t :: 0 < t < |p| && |p[t]| <= |p[state]| ==> t in visited;
      label Walk:
      var f := FindNextState(g, Sym(c));
      Untouched@Walk(visited);
      assert |p[f]| <= |p[g]| + 1;
      TailSnoc(path[state], Sym(c), words);
      SetLink(child, f, visited);
    }

    /** A call that writes nothing leaves the labels and the links of the
        visited states as they were. */
    twostate lemma Untouched(visited: seq<nat>)
      requires old(Shape() && Labels()) && old(Linked(visited) && Pending(visited) && OutOK(0))
      requires unchanged(this) && unchanged(fail) && unchanged(out) && unchanged(goto)
      ensures path == old(path) && stateOf == old(stateOf)
      ensures Shape() && Labels() && Linked(visited) && Pending(visited) && OutOK(0)
    {
    }

    /** The failure links the walk from `fail[state]` may follow are all final. */
    lemma WalkReady(state: nat, visited: seq<nat>)
      requires Shape() && Labels() && 0 < state < |path| && FailOK(state)
      requires forall t :: 0 < t < |path| && |path[t]| <= |path[state]| ==> t in visited
      requires Linked(visited)
      ensures forall t :: 0 < t < |path| && |path[t]| <= |path[fail[state]]| ==> FailOK(t)
    {
    }

    /** `fail[child] = f` and `out[child] |= out[f]`, for `f` the state spelling the
        longest proper suffix of the child's string that is a trie node. */
    method SetLink(child: nat, f: nat, ghost visited: seq<nat>)
      requires Shape() && Labels() && 0 < child < |path| && f < |path| && child !in visited
      requires |path[child]| > 0 && path[f] == LongestSuffixInTrie(path[child][1..], words)
      requires f == 0 || f in visited
      requires Linked(visited) && Pending(visited) && OutOK(0)
      modifies fail, out
      ensures unchanged(goto)
      ensures Linked(visited + [child]) && Pending(visited + [child]) && OutOK(0)
    {
      OutputPropagation(words, path[child]);
      assert OutOK(f);
      fail[child] := f;
      out[child] := out[child] + out[f];
      assert FailOK(child) && OutOK(child);
      forall t | t in visited && 0 < t < |path| ensures FailOK(t) && OutOK(t) {
        assert old(FailOK(t) && OutOK(t));
        assert t != child;
      }
    }
  }
}
