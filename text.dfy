/** Characters, lower-casing and suffixes: the vocabulary shared by the matcher
    and its specification. Strings are sequences of characters; the matcher only
    ever sees ASCII letters, which it lower-cases before indexing its table. */
module Text {

  /** Number of columns of the goto table (`max_characters`). */
  const Alphabet: nat := 26

  predicate IsLetter(ch: char) {
    'a' <= ch <= 'z' || 'A' <= ch <= 'Z'
  }

  predicate IsLower(ch: char) {
    'a' <= ch <= 'z'
  }

  /** Every character is an ASCII letter (the only input the table can index). */
  predicate Letters(s: string) {
    forall i :: 0 <= i < |s| ==> IsLetter(s[i])
  }

  predicate LowerWord(s: string) {
    forall i :: 0 <= i < |s| ==> IsLower(s[i])
  }

  /** `str.lower()` restricted to one ASCII character. */
  function Lower(ch: char): (r: char)
    ensures IsLetter(ch) ==> IsLower(r)
    ensures IsLetter(ch) ==> (r == ch <==> IsLower(ch))
  {
    if 'A' <= ch <= 'Z' then (ch as int + 32) as char else ch
  }

  /** `s.lower()` for a string of ASCII letters. */
  function LowerString(s: string): (r: string)
    ensures |r| == |s|
    ensures Letters(s) ==> LowerWord(r)
    ensures LowerWord(s) ==> r == s
  {
    seq(|s|, i requires 0 <= i < |s| => Lower(s[i]))
  }

  /** Lower-casing a prefix is taking the prefix of the lower-cased string. */
  lemma LowerStringPrefix(s: string, n: nat)
    requires n <= |s|
    ensures LowerString(s[..n]) == LowerString(s)[..n]
  {
  }

  /** `ord(ch) - 97`: the column of a lower-case letter. */
  function Col(ch: char): (c: nat)
    requires IsLower(ch)
    ensures c < Alphabet
    ensures Sym(c) == ch
  {
    ch as int - 97
  }

  /** The letter that labels column `c`. */
  function Sym(c: nat): (ch: char)
    requires c < Alphabet
    ensures IsLower(ch)
  {
    (c + 97) as char
  }

  lemma ColSym(c: nat)
    requires c < Alphabet
    ensures Col(Sym(c)) == c
  {
  }

  /** `y` is a suffix of `x`. */
  predicate IsSuffix(y: string, x: string) {
    |y| <= |x| && forall i :: 0 <= i < |y| ==> y[i] == x[|x| - |y| + i]
  }

  /** Two suffixes of the same string: the shorter is a suffix of the longer. */
  lemma SuffixOfSuffix(a: string, b: string, x: string)
    requires IsSuffix(a, x) && IsSuffix(b, x) && |a| <= |b|
    ensures IsSuffix(a, b)
  {
    assert b[|b| - |a|..] == x[|x| - |a|..];
  }

  /** Suffixes extend by one character on both sides. */
  lemma SuffixSnoc(y: string, x: string, c: char)
    requires IsSuffix(y, x)
    ensures IsSuffix(y + [c], x + [c])
  {
    assert (x + [c])[|x| + 1 - (|y| + 1)..] == x[|x| - |y|..] + [c];
  }

  /** Being a suffix is transitive. */
  lemma SuffixTransitive(a: string, b: string, x: string)
    requires IsSuffix(a, b) && IsSuffix(b, x)
    ensures IsSuffix(a, x)
  {
    assert x[|x| - |a|..] == b[|b| - |a|..];
  }

  /** A non-empty suffix of `x + [c]` is a suffix of `x` followed by `c`. */
  lemma SuffixDropLast(a: string, x: string, c: char)
    requires IsSuffix(a, x + [c]) && a != []
    ensures a == a[..|a| - 1] + [c]
    ensures IsSuffix(a[..|a| - 1], x)
  {
    assert a[|a| - 1] == (x + [c])[|x|];
    assert x[|x| - (|a| - 1)..] == (x + [c])[|x| + 1 - |a|..|x|];
  }
}
