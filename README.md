# Behavioural ransomware detector: Aho-Corasick matcher, kernel aggregator, detection cycle

This project models the behavioural detector of `dump/aho_final.py` in Dafny.
The detector has three parts.

1. **Kernel-side aggregation.** eBPF probes on `vfs_open`, `vfs_read`, `vfs_write`,
   `vfs_rename`, `filp_close` and `vfs_unlink` append one operation symbol (`O`, `R`,
   `W`, `P`, `L`, `U`) to a record.
   - Records live in a `BPF_HASH` keyed by ⟨thread-group id, file basename⟩.
   - Each record is a 36-byte NUL-terminated buffer holding at most 35 symbols.
   - Every handler except `vfs_open` skips a symbol equal to the last one stored.
   - Every event overwrites the record's `pid` and `comm`.
2. **The Aho-Corasick automaton.** It is built over six behaviour signatures and kept
   in three flat tables: `goto`, `fail` and `out`.
3. **The periodic cycle.**
   - It runs the automaton over every record's symbols.
   - It sums the lengths of the offset lists.
   - It flags the record when that sum is strictly above the threshold (default 10).
   - It then clears the table.

Modules:

- `Text` (text.dfy): letters, lower-casing, the column of a letter, suffixes.
- `TrieLanguage` (trie.dfy): the strings a trie over a word list spells. Also the
  longest suffix of a string that is a trie node, and the facts the failure links
  rely on.
- `Scanning` (scanning.dfy): what `search_words` should return, without any automaton.
  - `Scan` reports, position by position and word by word in list order, the same
    `defaultdict(list)` the matcher builds.
  - `ExhaustiveSearch` is the brute-force reference: per word, the ascending list of
    offsets where it occurs, repeated once per duplicate in the list.
  - `TotalMatches` counts (word index, offset) pairs.
- `BreadthFirst` (bfs.dfy): the queue discipline of the failure-link pass. It is
  stated on the tree shape of the trie: parent, column and depth of each state.
- `Matcher` (matcher.dfy): class `AhoCorasick`.
  - It has the real tables as arrays: `goto` is an `array2<int>` with -1 for an
    undefined entry, `fail` an `array<int>`, and `out` an `array<set<nat>>`. The
    `set<nat>` stands for the `1 << i` bitmask.
  - Ghost fields `path` and `stateOf` give each state the string it spells.
  - The building, walking and searching methods are the loops of the source,
    proved against the specification functions above.
- `Aggregator` (aggregator.dfy): the record buffer, the append loop of the probes,
  and class `PatternTable` holding the hash table as a map.
- `Detector` (detector.dfy): counting matches, the threshold policy and the cycle.

Behaviour of the source worth noting:

- **`vfs_open` appends `O` without the repeat check.** So `O` may repeat, and the
  collapse invariant (`Collapsed`) is "a symbol equal to its predecessor is `O`".
- **A full table drops new keys.** `BPF_HASH` defaults to 10240 entries. When the
  table is full, `lookup_or_init` fails for a new key and the handler returns
  without any change. The model keeps that case.
- **The drain is a snapshot followed by `clear()`.** The source iterates over the
  live table and then calls `clear()`, so an event arriving between the two is lost. The model takes one snapshot and then clears;
  the interleaving itself is concurrency and is not modelled.
- **`fail[0]` stays -1.** The root has no failure link. The walk in
  `__find_next_state` never follows it, because every root entry is defined.
- **The BFS inlines the failure walk.** The walk from `fail[state]` inside the BFS
  (lines 48-51) is the same walk as `__find_next_state`. `LinkChild` calls
  `FindNextState` for it.

Preconditions that come from the source's indexing, `ord(ch) - 97` into 26 columns:

- Words and text are ASCII letters. After `lower()`, the characters `[ \ ] ^ _` and
  the backtick (ord 91-96) give `idx` -6 to -1, which Python takes as a negative index:
  they silently read columns 20-25 (`_` reads the `y` column). Any other non-letter
  raises `IndexError`.
- Words are non-empty. With an empty word, `out[0]` would name it, but the BFS never
  merges `out[0]` into the root's children.

## Model

| member | source | states |
|---|---|---|
| Text.Lower | dump/aho_final.py:64 | lower-casing a letter gives a lower-case letter, and keeps a lower-case one |
| Text.LowerString | dump/aho_final.py:64 | `lower()` keeps the length, maps letters to lower-case letters and is the identity on lower-case words |
| Text.LowerStringPrefix | dump/aho_final.py:64 | lower-casing commutes with taking a prefix |
| Text.Col | dump/aho_final.py:58 | `ord(ch) - 97` is a column below 26 whose letter is `ch` |
| Text.Sym | dump/aho_final.py:27 | every column names a lower-case letter |
| Text.ColSym | dump/aho_final.py:27 | column and letter are inverse |
| TrieLanguage.WordInTrie | dump/aho_final.py:32 | every word spells a trie node, the one its terminal mark goes on |
| TrieLanguage.InTrieDropLast | dump/aho_final.py:26-31 | the trie is closed under dropping the last letter |
| TrieLanguage.InTrieSnoc | dump/aho_final.py:23-31 | inserting one more word adds exactly its prefixes to the trie |
| TrieLanguage.PrefixExtend | dump/aho_final.py:26-31 | walking one more letter of a word adds exactly one prefix |
| TrieLanguage.LongestSuffixInTrie | dump/aho_final.py:48-52 | the result is a suffix of the string and a trie node |
| TrieLanguage.LongestSuffixIsLongest | dump/aho_final.py:48-52 | every trie-node suffix of the string is a suffix of the result |
| TrieLanguage.LongestSuffixOfNode | dump/aho_final.py:51 | a trie node is its own longest trie suffix |
| TrieLanguage.LongestSuffixSnoc | dump/aho_final.py:57-61 | the longest trie suffix of `x + c` is found from the longest trie suffix of `x` |
| TrieLanguage.NodeSuffixOfLongest | dump/aho_final.py:68-74 | a word ends the text exactly when it ends the text's longest trie suffix |
| TrieLanguage.WalkStep | dump/aho_final.py:59-60 | when `x + c` is no node, following the failure link of `x` loses no candidate |
| TrieLanguage.RootFallback | dump/aho_final.py:34-36 | a letter that starts no word leads back to the root |
| TrieLanguage.TailSnoc | dump/aho_final.py:48-51 | the failure target of a child is reached from the parent's failure target |
| TrieLanguage.ProperSuffix | dump/aho_final.py:48-52 | a proper suffix of `u` is a suffix of `u[1..]` |
| Scanning.OccurrencesFromSpec | dump/aho_final.py:71-74 | the offset list holds exactly the occurrences at or after `p`, strictly increasing |
| Scanning.OccurrencesSpec | dump/aho_final.py:71-74 | the offset list holds exactly the occurrences of the word, strictly increasing |
| Scanning.OccurrencesSnoc | dump/aho_final.py:67-74 | one more character adds at most the occurrence that ends at it |
| Scanning.Get | dump/aho_final.py:74 | a word never appended to reads as the empty list of the `defaultdict(list)` |
| Scanning.Append | dump/aho_final.py:74 | `res[w].append(x)` adds `w` as a key, extends its list by `x` and leaves every other word's list unchanged |
| Scanning.EmitGet | dump/aho_final.py:71-74 | at one position each word ending there gains its start offset once per copy in the list |
| Scanning.EmitNone | dump/aho_final.py:69-70 | when no word ends at a position, nothing is appended |
| Scanning.ScanWellKeyed | dump/aho_final.py:66-75 | the result has no empty lists and only words of the list as keys |
| Scanning.ScanGet | dump/aho_final.py:63-75 | each word's list is its ascending occurrence list, each offset repeated once per copy of the word |
| Scanning.ScanIsExhaustive | dump/aho_final.py:63-75 | the position-by-position scan equals the brute-force search |
| Scanning.ScanSingleWord | dump/aho_final.py:63-75 | a word listed once gets exactly the ascending list of offsets where it occurs |
| Scanning.SumLensRemove | dump/aho_final.py:292 | the sum of list lengths can be taken key by key in any order |
| Scanning.SumLensEmit | dump/aho_final.py:71-74 | one position adds one list entry per word ending there |
| Scanning.MatchesOfSnoc | dump/aho_final.py:292 | one more character adds the number of words ending at it to the match count |
| Scanning.SumLens | dump/aho_final.py:292 | the sum of list lengths is at least the length of every word's list (absent words read as empty) |
| Scanning.ScanCount | dump/aho_final.py:291-292 | the summed list lengths equal the number of (word index, offset) occurrences |
| BreadthFirst.FirstLevel | dump/aho_final.py:38-42 | after the first loop the queue holds exactly the depth-1 states |
| BreadthFirst.RootChild | dump/aho_final.py:40-42 | enqueueing a child of the root keeps the depth-1 invariant |
| BreadthFirst.NoRootChild | dump/aho_final.py:39-40 | skipping a root self-loop keeps the depth-1 invariant |
| BreadthFirst.StartChildren | dump/aho_final.py:45 | the dequeued state starts its child loop |
| BreadthFirst.ProcessChild | dump/aho_final.py:47-54 | an enqueued child was not yet visited and keeps the child-loop invariant |
| BreadthFirst.NoChild | dump/aho_final.py:47 | a column without a child keeps the child-loop invariant |
| BreadthFirst.FrontierAfter | dump/aho_final.py:46-54 | once all its children are enqueued the state counts as processed |
| BreadthFirst.NextRound | dump/aho_final.py:44-54 | a round keeps the queue invariant and shrinks the unvisited states or the queue |
| BreadthFirst.UnvisitedShrinks | dump/aho_final.py:54 | enqueueing states removes them from the unvisited ones |
| BreadthFirst.ShallowVisited | dump/aho_final.py:44-54 | every state no deeper than the queue head has been enqueued |
| BreadthFirst.AllVisited | dump/aho_final.py:44 | when the queue is empty every non-root state has been visited |
| Matcher.SumLen | dump/aho_final.py:10 | `sum(len(w))` is at least the length of every word, so each word fits in the states allotted |
| Matcher.SumLenPrefix | dump/aho_final.py:10 | the words walked so far fit in `sum(len(w))` |
| Matcher.LowerAll | dump/aho_final.py:15-16 | lower-casing the list keeps its length |
| Matcher.SumLenLowerAll | dump/aho_final.py:10-16 | the state count computed before lower-casing still fits the lower-cased words |
| Matcher.OutputPropagation | dump/aho_final.py:53 | the words spelled by a state plus those ending its failure target are exactly the words ending its string |
| Matcher.OutputOfLongest | dump/aho_final.py:68-74 | the words ending the reached state's string are the words ending the text read |
| Matcher.AhoCorasick.LowerWords | dump/aho_final.py:15-16 | the caller's array is lower-cased in place |
| Matcher.AhoCorasick.constructor | dump/aho_final.py:9-18 | the caller's list is lower-cased in place and kept as `words`, and the machine is built |
| Matcher.AhoCorasick.MachineBounds | dump/aho_final.py:22-61 | at most `sum(len(w)) + 1` states; root entries are defined; entries are -1 or a state; failure links point to strictly shallower states |
| Matcher.AhoCorasick.BuildMatchingMachine | dump/aho_final.py:20-55 | every goto entry is the trie edge (root gaps loop to 0), failure links are longest proper trie suffixes, `out` is exactly the words ending each state |
| Matcher.AhoCorasick.InsertWords | dump/aho_final.py:21-32 | the states are exactly the trie nodes, the entries are the trie edges, `out` marks the words each state spells |
| Matcher.AhoCorasick.InsertWord | dump/aho_final.py:24-32 | inserting word `i` extends the trie by its prefixes within the state budget and marks its terminal |
| Matcher.AhoCorasick.Advance | dump/aho_final.py:26-31 | one letter of the word is walked, with a state allocated only when the edge is missing |
| Matcher.AhoCorasick.NewState | dump/aho_final.py:28-30 | the new state spells the word's prefix and is the target of the edge |
| Matcher.AhoCorasick.MarkTerminal | dump/aho_final.py:32 | `out` of the terminal state gains word `i` and nothing else changes |
| Matcher.AhoCorasick.CompleteRoot | dump/aho_final.py:34-36 | missing root entries become 0 and all others stay the trie edges |
| Matcher.AhoCorasick.ComputeFailureLinks | dump/aho_final.py:38-54 | every non-root state gets its longest proper trie-suffix link, and `out` becomes the words ending its string |
| Matcher.AhoCorasick.LinkRootChildren | dump/aho_final.py:39-42 | depth-1 states fail to the root and are queued |
| Matcher.AhoCorasick.LinkRootChild | dump/aho_final.py:40-42 | a child of the root fails to the root with a correct output set |
| Matcher.AhoCorasick.ProcessHead | dump/aho_final.py:45-54 | one dequeue-and-link round keeps the pass invariant and makes progress |
| Matcher.AhoCorasick.LinkChildren | dump/aho_final.py:46-54 | all children of the dequeued state are linked and enqueued |
| Matcher.AhoCorasick.LinkColumn | dump/aho_final.py:47-54 | column `c` of the dequeued state is linked and enqueued when defined |
| Matcher.AhoCorasick.EnqueueChild | dump/aho_final.py:47-54 | the child on column `c` is linked and appended to the queue |
| Matcher.AhoCorasick.LinkChild | dump/aho_final.py:48-53 | the failure walk finds the longest proper trie suffix of the child |
| Matcher.AhoCorasick.SetLink | dump/aho_final.py:52-53 | `fail[child] = f` and `out[child] \|= out[f]` make the child's link and output final |
| Matcher.AhoCorasick.LinkedAll | dump/aho_final.py:44-54 | an empty queue means every state is linked |
| Matcher.AhoCorasick.WalkReady | dump/aho_final.py:48-50 | the failure links the walk may follow are already final |
| Matcher.AhoCorasick.ShallowByLength | dump/aho_final.py:44-54 | the dequeued state is non-root, and all states no deeper are visited |
| Matcher.AhoCorasick.MakeTree | dump/aho_final.py:38-54 | the trie's parent/column/depth shape is well formed and agrees with `goto` |
| Matcher.AhoCorasick.TreeEdge | dump/aho_final.py:47 | a non-root state hangs from its parent by its last letter |
| Matcher.AhoCorasick.TreeChild | dump/aho_final.py:47 | a defined non-root-loop entry leads to a child of that state |
| Matcher.AhoCorasick.NoEdge | dump/aho_final.py:47 | an undefined entry means no child on that column |
| Matcher.AhoCorasick.RootOutputsNothing | dump/aho_final.py:41 | the root spells and ends no word |
| Matcher.AhoCorasick.FindNextState | dump/aho_final.py:57-61 | the state reached spells the longest trie suffix of the state's string plus `ch` |
| Matcher.AhoCorasick.SearchWords | dump/aho_final.py:63-75 | the result is the position-by-position scan and equals the brute-force search of the lower-cased text |
| Matcher.AhoCorasick.ReadChar | dump/aho_final.py:67-74 | after each character the state spells the longest trie suffix of the text read, and the result covers that prefix |
| Matcher.AhoCorasick.Report | dump/aho_final.py:69-74 | the words in `out[s]` are reported in index order with their start offsets |
| Aggregator.Tgid | dump/aho_final.py:103-104 | the tgid is the upper 32 bits of `pid_tgid` |
| Aggregator.CString | dump/aho_final.py:108-109 | `bpf_probe_read_str` keeps the NUL-free prefix, truncated to `size - 1` |
| Aggregator.FirstNul | dump/aho_final.py:117-118 | the index of the first NUL, or the length when there is none |
| Aggregator.FirstNulAt | dump/aho_final.py:117-118 | a NUL with no NUL before it is the first |
| Aggregator.Symbols | dump/aho_final.py:289 | the decoded symbols are a NUL-free prefix of the buffer |
| Aggregator.Pushed | dump/aho_final.py:117-126 | appending extends the symbols by at most one, never beyond 35, and not at all when 35 are stored |
| Aggregator.PushedIdempotent | dump/aho_final.py:118-120 | with the repeat check, the same symbol twice is the same as once |
| Aggregator.PushedUnconditional | dump/aho_final.py:150-155 | without the repeat check, `O` is appended whenever there is room |
| Aggregator.PushedCollapsed | dump/aho_final.py:118-121 | every handler keeps "only `O` may follow itself" |
| Aggregator.AppendSymbol | dump/aho_final.py:117-126 | the in-place loop makes the buffer's symbols `Pushed(old, op)`, keeps it terminated, and leaves it untouched when nothing is added |
| Aggregator.Appended | dump/aho_final.py:111-126 | the stored record's new buffer is terminated, holds `Pushed(old, op)`, and stays made of op symbols and collapsed |
| Aggregator.Zero | dump/aho_final.py:101 | the zero record is terminated and holds no symbols |
| Aggregator.Key | dump/aho_final.py:100-109 | the key is ⟨tgid, basename truncated to 255⟩ |
| Aggregator.Stored | dump/aho_final.py:111 | storing a good record keeps every record good and the table within 10240 entries |
| Aggregator.SaturatedKept | dump/aho_final.py:117-126 | a record with 35 symbols keeps them |
| Aggregator.RepeatedEventIgnored | dump/aho_final.py:118-120 | a repeated R/W/P/L/U event on a key changes nothing in its symbols |
| Aggregator.OthersKept | dump/aho_final.py:111 | an event leaves every other key's record as it was |
| Aggregator.PatternTable.constructor | dump/aho_final.py:96 | the table starts empty |
| Aggregator.PatternTable.Record | dump/aho_final.py:99-126 | lookup-or-init, overwrite `pid` and `comm`, append; a full table ignores new keys |
| Aggregator.PatternTable.TraceEventFile | dump/aho_final.py:99-126 | the shared handler with the repeat check |
| Aggregator.PatternTable.TraceVfsRead | dump/aho_final.py:161-162 | `R` with the repeat check |
| Aggregator.PatternTable.TraceVfsWrite | dump/aho_final.py:166-167 | `W` with the repeat check |
| Aggregator.PatternTable.VfsOpen | dump/aho_final.py:131-158 | `O` appended without the repeat check |
| Aggregator.PatternTable.TraceVfsRename | dump/aho_final.py:171-202 | `P` on the old name, with the repeat check |
| Aggregator.PatternTable.TraceFilpClose | dump/aho_final.py:205-207 | `L` with the repeat check |
| Aggregator.PatternTable.TraceVfsUnlink | dump/aho_final.py:211-241 | `U` with the repeat check |
| Aggregator.PatternTable.Clear | dump/aho_final.py:302 | the table becomes empty |
| Detector.Hits | dump/aho_final.py:289-292 | the match count of a record's decoded, lower-cased pattern; a record with no symbols has none when no word is empty |
| Detector.Flagged | dump/aho_final.py:291-293 | exactly the keys whose match count is strictly above the threshold |
| Detector.Setup | dump/aho_final.py:272-273 | the matcher is built over the lower-cased signatures |
| Detector.CountMatches | dump/aho_final.py:292 | the loop sums the lengths of all offset lists |
| Detector.RecordLetters | dump/aho_final.py:289-291 | stored symbols are letters, so the matcher can index them |
| Detector.Examine | dump/aho_final.py:289-293 | flag iff the record's total match count is strictly above the threshold |
| Detector.Tally | dump/aho_final.py:285-293 | examining one more key keeps the loop's account |
| Detector.Tallied | dump/aho_final.py:285-293 | at the end the collected keys are the flagged ones, each key examined once |
| Detector.DetectAll | dump/aho_final.py:285-301 | every key is examined exactly once, and the result is the flagged set |
| Detector.RunCycle | dump/aho_final.py:285-302 | returns the flagged set of the snapshot and leaves the table empty |
| Detector.MatchesGrow | dump/aho_final.py:291-292 | extending a symbol string never lowers its match count |
| Detector.ThresholdMonotone | dump/aho_final.py:293 | a higher threshold flags a subset of the keys |
| Detector.EventKeepsFlagged | dump/aho_final.py:111-126 | no event between cycles takes a key off the flagged set |
| Detector.SingleMatchScenario | dump/aho_final.py:117-126 | o,w,r,w,w,p stores `OWRWP`, which matches `owrwp` exactly once; a table holding that record flags its key at threshold 0 and nothing at threshold 1 |

## Left out

- BPF compilation, probe attachment, `b.get_table` and the ctypes decoding are kernel and
  foreign-library plumbing. The table is an abstract map, and a record's decoded pattern
  is `Symbols` of its buffer.
- Handler inputs are parameters: `bpf_get_current_pid_tgid()`, `bpf_get_current_comm()`
  and the dentry names.
- Concurrency is not modelled: kernel updates racing with the user-space drain. Each
  handler is one atomic step on the map.
- Update in place is not captured. The handlers write `patt->pattern` inside the map
  entry. The model copies the buffer into an array, runs the same loop on it
  (`AppendSymbol`) and stores the result back, so aliasing with the map value is left out.
- `subprocess.run(["sudo", "killall", ...])` and all printing are process-control I/O.
  They are represented by the returned flagged set, whose records carry the `comm` to kill.
- argparse (including the `--threshold` default of 10), the interval `sleep` and the
  endless main loop are CLI and timing. The model has one cycle, with the threshold as
  a parameter and `DetectAll` over a table snapshot.
- Detector.Examine: the UTF-8 `replace` decoding is not modelled, because buffers only ever
  hold the ASCII op symbols. The `count` argument is read but never used by the loop.
- Matcher.AhoCorasick.constructor: requires non-empty words of ASCII letters. The
  characters of ord 91-96 silently alias columns 20-25 through Python's negative
  indexing, and other non-letters raise `IndexError`; neither is modelled. An empty
  word breaks the output sets, because `out[0]` is never merged into depth-1 states.
- Matcher.AhoCorasick.constructor: the source keeps the caller's own list
  (`self.words = words`), so the two alias. The model keeps a snapshot of the
  lower-cased array in `words`. The caller never changes the list afterwards, so
  nothing observable is lost, but the aliasing is not captured.
- The hash-based scanner, the classifier pathway, test.py, eBPF_RansomNote.py and
  dump/model.py are not part of this model. They are I/O, foreign libraries and
  floating-point ML.
