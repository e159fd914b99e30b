/** The user-space side of the detector: at the end of every interval it scans
    each record of the kernel table with the Aho-Corasick machine built over the
    six behaviour signatures, flags the records whose total number of signature
    matches is above the threshold, and then empties the table.

    Killing the flagged processes and printing the report are left to the
    caller: the cycle returns the set of flagged keys, whose records carry the
    `comm` to kill. */
module Detector {
  import opened Text
  import opened Scanning
  import opened Matcher
  import opened Aggregator

  /** The behaviour signatures handed to the matcher, before lower-casing. */
  const Signatures: seq<string> := ["ORWOWP", "ORWRWP", "ORWP", "OWRWRWRWP", "OWRWP", "ORWRWOWP"]

  /** The number of signature matches in a record's decoded pattern, counted
      case-insensitively as the matcher does. A record with no symbols has none,
      so it is never flagged at a non-negative threshold. */
  function Hits(words: seq<string>, pattern: string): (n: nat)
    ensures (forall j :: 0 <= j < |words| ==> |words[j]| > 0) && Symbols(pattern) == [] ==> n == 0
  {
    var text := LowerString(Symbols(pattern));
    if text == [] && forall j :: 0 <= j < |words| ==> |words[j]| > 0 then
      MatchesOfEmpty(words, |words|);
      TotalMatches(words, text)
    else
      TotalMatches(words, text)
  }

  /** The keys a cycle flags for termination: those whose match count is
      strictly above the threshold. */
  function Flagged(words: seq<string>, entries: map<FileId, PatternRecord>, threshold: int): (r: set<FileId>)
    ensures r <= entries.Keys
    ensures forall k :: k in entries ==> (k in r <==> Hits(words, entries[k].pattern) > threshold)
  {
    set k | k in entries && Hits(words, entries[k].pattern) > threshold
  }

  /** Builds the matcher over the signatures; `patterns` is lower-cased in place. */
  method Setup() returns (m: AhoCorasick)
    ensures fresh(m) && m.Valid()
    ensures m.words == LowerAll(Signatures)
  {
    var patterns := new string[6];
    patterns[0], patterns[1], patterns[2] := Signatures[0], Signatures[1], Signatures[2];
    patterns[3], patterns[4], patterns[5] := Signatures[3], Signatures[4], Signatures[5];
    assert patterns[..] == Signatures;
    m := new AhoCorasick(patterns);
  }

  /** `sum(len(lst) for lst in detected.values())`. */
  method CountMatches(res: map<string, seq<int>>) returns (n: nat)
    ensures n == SumLens(res)
  {
    var rest := res;
    n := 0;
    while rest != map[]
      invariant n + SumLens(rest) == SumLens(res)
      decreases |rest|
    {
      var w :| w in rest;
      SumLensRemove(rest, w);
      n := n + |rest[w]|;
      rest := rest - {w};
    }
  }

  /** The symbols the handlers store are upper-case letters. */
  lemma RecordLetters(r: PatternRecord)
    requires RecordOK(r)
    ensures Letters(Symbols(r.pattern))
  {
    var s := Symbols(r.pattern);
    forall i | 0 <= i < |s| ensures IsLetter(s[i]) {
      assert IsOp(s[i]);
    }
  }

  /** One record of the cycle: search the decoded pattern and compare the total
      count of matches with the threshold. */
  method Examine(m: AhoCorasick, rec: PatternRecord, threshold: int) returns (flag: bool)
    requires m.Valid() && RecordOK(rec)
    ensures flag <==> Hits(m.words, rec.pattern) > threshold
  {
    var pat := Symbols(rec.pattern);
    RecordLetters(rec);
    var detected := m.SearchWords(pat);
    var count := CountMatches(detected);
    ScanCount(m.words, LowerString(pat));
    flag := count > threshold;
  }

  /** Where the loop over the snapshot stands: the keys not yet examined are
      `pending`, every other key has been examined once and is in `flagged`
      exactly when its record is above the threshold. */
  ghost predicate Progress(words: seq<string>, snapshot: map<FileId, PatternRecord>, threshold: int,
                           pending: set<FileId>, flagged: set<FileId>, examined: seq<FileId>)
  {
    pending <= snapshot.Keys && flagged <= snapshot.Keys - pending &&
    (forall k :: k in snapshot && k !in pending ==> (k in flagged <==> Hits(words, snapshot[k].pattern) > threshold)) &&
    multiset(examined) + multiset(pending) == multiset(snapshot.Keys)
  }

  /** Examining one more key keeps the loop's account. */
  lemma Tally(words: seq<string>, snapshot: map<FileId, PatternRecord>, threshold: int,
              pending: set<FileId>, flagged: set<FileId>, examined: seq<FileId>, k: FileId, flag: bool)
    requires Progress(words, snapshot, threshold, pending, flagged, examined)
    requires k in pending && (flag <==> Hits(words, snapshot[k].pattern) > threshold)
    ensures Progress(words, snapshot, threshold, pending - {k}, if flag then flagged + {k} else flagged, examined + [k])
  {
    assert multiset(pending) == multiset(pending - {k}) + multiset{k};
  }

  /** At the end of the loop the collected keys are the flagged ones and every
      key was examined once. */
  lemma Tallied(words: seq<string>, snapshot: map<FileId, PatternRecord>, threshold: int,
                flagged: set<FileId>, examined: seq<FileId>)
    requires Progress(words, snapshot, threshold, {}, flagged, examined)
    ensures flagged == Flagged(words, snapshot, threshold)
    ensures multiset(examined) == multiset(snapshot.Keys)
  {
  }

  /** The loop over `patterns_table.items()`: every key of the snapshot is
      examined exactly once and the flagged ones are collected. */
  method DetectAll(m: AhoCorasick, snapshot: map<FileId, PatternRecord>, threshold: int)
    returns (flagged: set<FileId>, ghost examined: seq<FileId>)
    requires m.Valid() && forall k :: k in snapshot ==> RecordOK(snapshot[k])
    ensures flagged == Flagged(m.words, snapshot, threshold)
    ensures multiset(examined) == multiset(snapshot.Keys)
  {
    var pending := snapshot.Keys;
    flagged := {};
    examined := [];
    while pending != {}
      invariant Progress(m.words, snapshot, threshold, pending, flagged, examined)
      decreases |pending|
    {
      var k :| k in pending;
      var flag := Examine(m, snapshot[k], threshold);
      Tally(m.words, snapshot, threshold, pending, flagged, examined, k, flag);
      if flag {
        flagged := flagged + {k};
      }
      pending := pending - {k};
      examined := examined + [k];
    }
    Tallied(m.words, snapshot, threshold, flagged, examined);
  }

  /** One pass of the main loop: the records are examined, the flagged keys are
      returned and the table is cleared. */
  method RunCycle(m: AhoCorasick, table: PatternTable, threshold: int) returns (flagged: set<FileId>, ghost examined: seq<FileId>)
    requires m.Valid() && table.Valid()
    modifies table
    ensures flagged == Flagged(m.words, old(table.entries), threshold)
    ensures multiset(examined) == multiset(old(table.entries).Keys)
    ensures table.entries == map[] && table.Valid()
  {
    flagged, examined := DetectAll(m, table.entries, threshold);
    table.Clear();
  }

  /** Extending the decoded pattern never loses a match. */
  lemma {:induction false} MatchesGrow(words: seq<string>, s: string, t: string)
    requires s <= t
    ensures TotalMatches(words, s) <= TotalMatches(words, t)
    decreases |t| - |s|
  {
    if |s| < |t| {
      var u := t[..|t| - 1];
      assert s <= u;
      MatchesGrow(words, s, u);
      assert t == u + [t[|t| - 1]];
      MatchesOfSnoc(words, |words|, u, t[|t| - 1]);
    } else {
      assert s == t;
    }
  }

  /** A higher threshold flags a subset of the keys. */
  lemma ThresholdMonotone(words: seq<string>, entries: map<FileId, PatternRecord>, lo: int, hi: int)
    requires lo <= hi
    ensures Flagged(words, entries, hi) <= Flagged(words, entries, lo)
  {
  }

  /** A file event between two cycles never takes a key off the flagged set:
      symbols are only ever appended, and other records are untouched. */
  lemma EventKeepsFlagged(words: seq<string>, entries: map<FileId, PatternRecord>, entries': map<FileId, PatternRecord>,
                          key: FileId, pid: u32, comm: string, op: char, collapse: bool, threshold: int)
    requires Updated(entries, entries', key, pid, comm, op, collapse)
    ensures Flagged(words, entries, threshold) <= Flagged(words, entries', threshold)
  {
    forall k | k in Flagged(words, entries, threshold)
      ensures k in Flagged(words, entries', threshold)
    {
      if k == key && entries' != entries {
        var s := Symbols(entries[k].pattern);
        var s' := Symbols(entries'[k].pattern);
        assert s <= s';
        LowerStringPrefix(s', |s|);
        assert LowerString(s) == LowerString(s')[..|s|];
        MatchesGrow(words, LowerString(s), LowerString(s'));
      } else if k != key {
        OthersKept(entries, entries', key, pid, comm, op, collapse, k);
      }
    }
  }

  /** The op stream o, w, r, w, w, p collapses to `OWRWP`, which holds one match of
      the signature `owrwp`: a record holding it is flagged at threshold 0 and not
      at threshold 1. */
  lemma SingleMatchScenario(key: FileId)
    ensures Pushed(Pushed(Pushed(Pushed(Pushed(Pushed([], 'O', false), 'W', true), 'R', true), 'W', true), 'W', true), 'P', true) == "OWRWP"
    ensures var rec := PatternRecord([], "OWRWP" + seq(PatternSize - 5, _ => Nul), 0);
      Hits(["owrwp"], rec.pattern) == 1 &&
      Flagged(["owrwp"], map[key := rec], 0) == {key} &&
      Flagged(["owrwp"], map[key := rec], 1) == {}
  {
    var buf := "OWRWP" + seq(PatternSize - 5, _ => Nul);
    FirstNulAt(buf, 5);
    assert Symbols(buf) == "OWRWP";
    assert LowerString("OWRWP") == "owrwp";
    assert "owrwp"[0..5] == "owrwp";
  }
}
