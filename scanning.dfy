/** What `search_words` is meant to compute, written without any automaton.

    `Scan` walks the text one end position at a time and, for each word in list
    order, records the start offset of every word that ends there; that is the
    order in which the matcher appends to its `defaultdict(list)`.
    `ExhaustiveSearch` is the brute-force reference: for every word, the
    ascending list of offsets `p` with `text[p..p+|w|] == w`, each repeated once
    per copy of the word in the list. The lemmas below show that the two agree
    and count the matches the detection policy sums. */
module Scanning {
  import opened Text

  /** `res[w].append(x)` on a `defaultdict(list)`. */
  function Append(res: map<string, seq<int>>, w: string, x: int): (r: map<string, seq<int>>)
    ensures r.Keys == res.Keys + {w}
    ensures Get(r, w) == Get(res, w) + [x]
    ensures forall v :: v != w ==> Get(r, v) == Get(res, v)
  {
    res[w := Get(res, w) + [x]]
  }

  /** The list a `defaultdict(list)` yields for `w` (empty when `w` was never appended to). */
  function Get(res: map<string, seq<int>>, w: string): (l: seq<int>)
    ensures w !in res ==> l == []
  {
    if w in res then res[w] else []
  }

  /** Reports at one end position: for `j` = 0 .. n-1 in order, each word that is a
      suffix of `t` (the text read so far) records its start offset `|t| - |w|`. */
  ghost function Emit(res: map<string, seq<int>>, words: seq<string>, n: nat, t: string): map<string, seq<int>>
    requires n <= |words|
  {
    if n == 0 then res
    else
      var r := Emit(res, words, n - 1, t);
      if IsSuffix(words[n - 1], t) then Append(r, words[n - 1], |t| - |words[n - 1]|) else r
  }

  /** Every match, by end position and then by word index. */
  ghost function Scan(words: seq<string>, text: string): map<string, seq<int>>
    decreases |text|
  {
    if text == [] then map[]
    else Emit(Scan(words, text[..|text| - 1]), words, |words|, text)
  }

  /** Offsets `p' >= p` at which `w` occurs in `text`, in ascending order. */
  function OccurrencesFrom(text: string, w: string, p: nat): seq<int>
    decreases |text| + 1 - p
  {
    if p + |w| > |text| then []
    else (if text[p..p + |w|] == w then [p] else []) + OccurrencesFrom(text, w, p + 1)
  }

  /** Exhaustive substring scan for one word. */
  function Occurrences(text: string, w: string): seq<int> {
    OccurrencesFrom(text, w, 0)
  }

  predicate StrictlyIncreasing(s: seq<int>) {
    forall a, b :: 0 <= a < b < |s| ==> s[a] < s[b]
  }

  function Repeat(x: int, k: nat): seq<int> {
    seq(k, _ => x)
  }

  /** Each element of `s` repeated `k` times in place. */
  function RepeatEach(s: seq<int>, k: nat): seq<int> {
    if s == [] then [] else Repeat(s[0], k) + RepeatEach(s[1..], k)
  }

  /** The brute-force reference result. */
  ghost function ExhaustiveSearch(words: seq<string>, text: string): map<string, seq<int>> {
    map w | w in words && Occurrences(text, w) != [] :: RepeatEach(Occurrences(text, w), multiset(words)[w])
  }

  /** The number of (word index, offset) pairs at which a word occurs. */
  function MatchesOf(words: seq<string>, n: nat, text: string): nat
    requires n <= |words|
  {
    if n == 0 then 0 else MatchesOf(words, n - 1, text) + |Occurrences(text, words[n - 1])|
  }

  function TotalMatches(words: seq<string>, text: string): nat {
    MatchesOf(words, |words|, text)
  }

  /** Number of indices `j < n` whose word is a suffix of `t`. */
  function EndingCount(words: seq<string>, n: nat, t: string): nat
    requires n <= |words|
  {
    if n == 0 then 0 else EndingCount(words, n - 1, t) + (if IsSuffix(words[n - 1], t) then 1 else 0)
  }

  /** `sum(len(lst) for lst in res.values())`. */
  ghost function SumLens(res: map<string, seq<int>>): (n: nat)
    ensures forall v :: |Get(res, v)| <= n
    decreases |res|
  {
    if res == map[] then 0
    else
      var w :| w in res;
      var rest := res - {w};
      assert forall v :: v != w ==> Get(rest, v) == Get(res, v);
      |res[w]| + SumLens(rest)
  }

  // ---------------------------------------------------------------------------
  // The reference scan for one word

  /** `OccurrencesFrom` lists exactly the occurrences at or after `p`, in strictly increasing order. */
  lemma {:induction false} OccurrencesFromSpec(text: string, w: string, p: nat)
    ensures forall x :: x in OccurrencesFrom(text, w, p) <==>
      p <= x && x + |w| <= |text| && text[x..x + |w|] == w
    ensures forall i :: 0 <= i < |OccurrencesFrom(text, w, p)| ==> OccurrencesFrom(text, w, p)[i] >= p
    ensures StrictlyIncreasing(OccurrencesFrom(text, w, p))
    decreases |text| + 1 - p
  {
    if p + |w| <= |text| {
      OccurrencesFromSpec(text, w, p + 1);
      var h: seq<int> := if text[p..p + |w|] == w then [p] else [];
      var r := OccurrencesFrom(text, w, p + 1);
      assert OccurrencesFrom(text, w, p) == h + r;
      forall a, b | 0 <= a < b < |h + r| ensures (h + r)[a] < (h + r)[b] {
        if a < |h| {
          assert (h + r)[b] == r[b - |h|] >= p + 1;
        }
      }
    }
  }

  /** `Occurrences(text, w)` is exactly the ascending list of offsets at which `w` occurs. */
  lemma OccurrencesSpec(text: string, w: string)
    ensures forall x :: x in Occurrences(text, w) <==>
      0 <= x && x + |w| <= |text| && text[x..x + |w|] == w
    ensures StrictlyIncreasing(Occurrences(text, w))
  {
    OccurrencesFromSpec(text, w, 0);
  }

  /** Extending the text by one character adds at most the occurrence that ends at the new character. */
  lemma {:induction false} OccurrencesFromSnoc(text: string, c: char, w: string, p: nat)
    ensures OccurrencesFrom(text + [c], w, p)
         == OccurrencesFrom(text, w, p)
          + (if p + |w| <= |text| + 1 && IsSuffix(w, text + [c]) then [|text| + 1 - |w|] else [])
    decreases |text| + 1 - p
  {
    var t' := text + [c];
    if p + |w| <= |text| {
      assert t'[p..p + |w|] == text[p..p + |w|];
      OccurrencesFromSnoc(text, c, w, p + 1);
    } else if p + |w| == |text| + 1 {
      assert OccurrencesFrom(t', w, p + 1) == [];
    }
  }

  lemma OccurrencesSnoc(text: string, c: char, w: string)
    ensures Occurrences(text + [c], w)
         == Occurrences(text, w) + (if IsSuffix(w, text + [c]) then [|text| + 1 - |w|] else [])
  {
    OccurrencesFromSnoc(text, c, w, 0);
  }

  // ---------------------------------------------------------------------------
  // Repetition

  lemma {:induction false} RepeatEachSnoc(s: seq<int>, x: int, k: nat)
    ensures RepeatEach(s + [x], k) == RepeatEach(s, k) + Repeat(x, k)
  {
    if s == [] {
      assert [x][1..] == [];
    } else {
      assert (s + [x])[1..] == s[1..] + [x];
      RepeatEachSnoc(s[1..], x, k);
    }
  }

  lemma {:induction false} RepeatEachOnce(s: seq<int>)
    ensures RepeatEach(s, 1) == s
  {
    if s != [] {
      RepeatEachOnce(s[1..]);
      assert Repeat(s[0], 1) == [s[0]];
    }
  }

  // ---------------------------------------------------------------------------
  // The incremental scan

  /** No list in the result is empty, and only words of the list are keys. */
  ghost predicate WellKeyed(res: map<string, seq<int>>, words: seq<string>) {
    forall w :: w in res ==> w in words && res[w] != []
  }

  /** One end position appends to each matching word's list as many copies of the
      offset as the word has copies among the first `n` words. */
  lemma {:induction false} EmitGet(res: map<string, seq<int>>, words: seq<string>, n: nat, t: string, w: string)
    requires n <= |words|
    ensures Get(Emit(res, words, n, t), w)
         == Get(res, w) + (if IsSuffix(w, t) then Repeat(|t| - |w|, multiset(words[..n])[w]) else [])
  {
    if n > 0 {
      EmitGet(res, words, n - 1, t, w);
      var before := Emit(res, words, n - 1, t);
      assert words[..n] == words[..n - 1] + [words[n - 1]];
      var k := multiset(words[..n - 1])[w];
      if words[n - 1] == w {
        assert multiset(words[..n])[w] == k + 1;
        if IsSuffix(w, t) {
          RepeatSnoc(|t| - |w|, k);
          assert Get(Emit(res, words, n, t), w) == Get(before, w) + [|t| - |w|];
        }
      } else {
        assert multiset(words[..n])[w] == k;
        assert Get(Emit(res, words, n, t), w) == Get(before, w);
      }
    }
  }

  lemma RepeatSnoc(x: int, k: nat)
    ensures Repeat(x, k + 1) == Repeat(x, k) + [x]
  {
  }

  /** An end position at which no word ends adds nothing. */
  lemma {:induction false} EmitNone(res: map<string, seq<int>>, words: seq<string>, n: nat, t: string)
    requires n <= |words|
    requires forall j :: 0 <= j < n ==> !IsSuffix(words[j], t)
    ensures Emit(res, words, n, t) == res
  {
    if n > 0 {
      EmitNone(res, words, n - 1, t);
    }
  }

  lemma {:induction false} EmitWellKeyed(res: map<string, seq<int>>, words: seq<string>, n: nat, t: string)
    requires n <= |words| && WellKeyed(res, words)
    ensures WellKeyed(Emit(res, words, n, t), words)
  {
    if n > 0 {
      EmitWellKeyed(res, words, n - 1, t);
    }
  }

  lemma {:induction false} ScanWellKeyed(words: seq<string>, text: string)
    ensures WellKeyed(Scan(words, text), words)
    decreases |text|
  {
    if text != [] {
      ScanWellKeyed(words, text[..|text| - 1]);
      EmitWellKeyed(Scan(words, text[..|text| - 1]), words, |words|, text);
    }
  }

  /** One more character: each word ending there gains its offset once per copy. */
  lemma {:induction false} ScanStep(words: seq<string>, t: string, c: char, w: string)
    ensures Get(Scan(words, t + [c]), w)
         == Get(Scan(words, t), w) + (if IsSuffix(w, t + [c]) then Repeat(|t| + 1 - |w|, multiset(words)[w]) else [])
  {
    var text := t + [c];
    assert text[..|text| - 1] == t;
    assert Scan(words, text) == Emit(Scan(words, t), words, |words|, text);
    EmitGet(Scan(words, t), words, |words|, text, w);
    assert words[..|words|] == words;
  }

  lemma {:induction false} ScanGetStep(words: seq<string>, t: string, c: char, w: string)
    requires |w| > 0
    requires Get(Scan(words, t), w) == RepeatEach(Occurrences(t, w), multiset(words)[w])
    ensures Get(Scan(words, t + [c]), w) == RepeatEach(Occurrences(t + [c], w), multiset(words)[w])
  {
    var k := multiset(words)[w];
    ScanStep(words, t, c, w);
    OccurrencesSnoc(t, c, w);
    AppendOccurrence(Occurrences(t, w), Get(Scan(words, t), w), Get(Scan(words, t + [c]), w),
      Occurrences(t + [c], w), IsSuffix(w, t + [c]), |t| + 1 - |w|, k);
  }

  /** The bookkeeping of one step, stated on plain sequences. */
  lemma AppendOccurrence(occ: seq<int>, got: seq<int>, got': seq<int>, occ': seq<int>, ends: bool, x: int, k: nat)
    requires got == RepeatEach(occ, k)
    requires got' == got + (if ends then Repeat(x, k) else [])
    requires occ' == occ + (if ends then [x] else [])
    ensures got' == RepeatEach(occ', k)
  {
    if ends {
      RepeatEachSnoc(occ, x, k);
    } else {
      assert occ' == occ;
    }
  }

  /** For a non-empty word, the scan's list is the ascending occurrence list with each
      offset repeated once per copy of the word. */
  lemma {:induction false} ScanGet(words: seq<string>, text: string, w: string)
    requires |w| > 0
    ensures Get(Scan(words, text), w) == RepeatEach(Occurrences(text, w), multiset(words)[w])
    decreases |text|
  {
    if text == [] {
      assert Occurrences(text, w) == [];
    } else {
      var t := text[..|text| - 1];
      assert text == t + [text[|text| - 1]];
      ScanGet(words, t, w);
      ScanGetStep(words, t, text[|text| - 1], w);
    }
  }

  lemma {:induction false} RepeatEachEmpty(s: seq<int>, k: nat)
    ensures RepeatEach(s, k) == [] <==> s == [] || k == 0
  {
    if s != [] {
      RepeatEachEmpty(s[1..], k);
      assert |Repeat(s[0], k)| == k;
    }
  }

  /** Correctness of the scan against brute force: with non-empty words, the scan's
      result is `ExhaustiveSearch`, key for key and list for list. */
  lemma ScanIsExhaustive(words: seq<string>, text: string)
    requires forall j :: 0 <= j < |words| ==> |words[j]| > 0
    ensures Scan(words, text) == ExhaustiveSearch(words, text)
  {
    var s := Scan(words, text);
    var e := ExhaustiveSearch(words, text);
    ScanWellKeyed(words, text);
    forall w | w in words
      ensures (w in s <==> w in e) && (w in s ==> s[w] == e[w])
    {
      var j :| 0 <= j < |words| && words[j] == w;
      ScanGet(words, text, w);
      RepeatEachEmpty(Occurrences(text, w), multiset(words)[w]);
    }
  }

  /** A word listed once: its entry is exactly the ascending list of offsets at which it occurs. */
  lemma ScanSingleWord(words: seq<string>, text: string, w: string)
    requires |w| > 0 && multiset(words)[w] == 1
    ensures Get(Scan(words, text), w) == Occurrences(text, w)
    ensures forall x :: x in Get(Scan(words, text), w) <==>
      0 <= x && x + |w| <= |text| && text[x..x + |w|] == w
    ensures StrictlyIncreasing(Get(Scan(words, text), w))
  {
    ScanGet(words, text, w);
    RepeatEachOnce(Occurrences(text, w));
    OccurrencesSpec(text, w);
  }

  // ---------------------------------------------------------------------------
  // Counting

  lemma {:induction false} SumLensRemove(res: map<string, seq<int>>, w: string)
    requires w in res
    ensures SumLens(res) == |res[w]| + SumLens(res - {w})
    decreases |res|
  {
    var v :| v in res && SumLens(res) == |res[v]| + SumLens(res - {v});
    if v != w {
      SumLensRemove(res - {v}, w);
      SumLensRemove(res - {w}, v);
      assert res - {v} - {w} == res - {w} - {v};
    }
  }

  lemma SumLensAppend(res: map<string, seq<int>>, w: string, x: int)
    ensures SumLens(Append(res, w, x)) == SumLens(res) + 1
  {
    var r := Append(res, w, x);
    SumLensRemove(r, w);
    assert r - {w} == res - {w};
    if w in res {
      SumLensRemove(res, w);
    } else {
      assert res - {w} == res;
    }
  }

  lemma {:induction false} SumLensEmit(res: map<string, seq<int>>, words: seq<string>, n: nat, t: string)
    requires n <= |words|
    ensures SumLens(Emit(res, words, n, t)) == SumLens(res) + EndingCount(words, n, t)
  {
    if n > 0 {
      SumLensEmit(res, words, n - 1, t);
      if IsSuffix(words[n - 1], t) {
        SumLensAppend(Emit(res, words, n - 1, t), words[n - 1], |t| - |words[n - 1]|);
      }
    }
  }

  lemma {:induction false} MatchesOfSnoc(words: seq<string>, n: nat, t: string, c: char)
    requires n <= |words|
    ensures MatchesOf(words, n, t + [c]) == MatchesOf(words, n, t) + EndingCount(words, n, t + [c])
  {
    if n > 0 {
      MatchesOfSnoc(words, n - 1, t, c);
      OccurrencesSnoc(t, c, words[n - 1]);
    }
  }

  lemma {:induction false} MatchesOfEmpty(words: seq<string>, n: nat)
    requires n <= |words|
    requires forall j :: 0 <= j < |words| ==> |words[j]| > 0
    ensures MatchesOf(words, n, []) == 0
  {
    if n > 0 {
      MatchesOfEmpty(words, n - 1);
    }
  }

  /** Summing the lengths of the scan's lists counts every (word index, offset)
      occurrence once: the total the detection policy compares with its threshold. */
  lemma {:induction false} ScanCount(words: seq<string>, text: string)
    requires forall j :: 0 <= j < |words| ==> |words[j]| > 0
    ensures SumLens(Scan(words, text)) == TotalMatches(words, text)
    decreases |text|
  {
    if text == [] {
      MatchesOfEmpty(words, |words|);
    } else {
      var t := text[..|text| - 1];
      assert text == t + [text[|text| - 1]];
      ScanCount(words, t);
      SumLensEmit(Scan(words, t), words, |words|, text);
      MatchesOfSnoc(words, |words|, t, text[|text| - 1]);
    }
  }
}
