/** The kernel side of the detector: a hash table keyed by thread-group id and
    file basename, whose records accumulate one symbol per file operation in a
    36-byte NUL-terminated buffer.

    `vfs_open` appends `O`; read, write, close, rename and unlink append `R`, `W`,
    `L`, `P` and `U`, except that these five are not appended twice in a row. At
    most 35 symbols are stored; later operations are dropped. Every event also
    overwrites the record's `pid` and `comm`. */
module Aggregator {

  newtype u64 = x: int | 0 <= x < 0x1_0000_0000_0000_0000
  newtype u32 = x: int | 0 <= x < 0x1_0000_0000

  /** `char pattern[36]`. */
  const PatternSize: nat := 36
  /** The append loop runs `for (i = 0; i < 35; i++)`. */
  const MaxSymbols: nat := 35
  /** `char filename[256]`. */
  const FileNameSize: nat := 256
  /** `TASK_COMM_LEN`. */
  const TaskCommLen: nat := 16
  /** Default number of entries of a `BPF_HASH`. */
  const Capacity: nat := 10240
  const Nul: char := '\0'

  /** The operation symbols the handlers write. */
  predicate IsOp(ch: char) {
    ch == 'O' || ch == 'R' || ch == 'W' || ch == 'P' || ch == 'L' || ch == 'U'
  }

  /** `bpf_get_current_pid_tgid() >> 32`: the thread-group id is the upper half. */
  function Tgid(idFull: u64): (tgid: u32)
    ensures tgid as int * 0x1_0000_0000 <= idFull as int < (tgid as int + 1) * 0x1_0000_0000
  {
    (idFull as int / 0x1_0000_0000) as u32
  }

  /** What `bpf_probe_read_str(dst, size, src)` leaves in `dst`: the characters of
      `src` before its first NUL, at most `size - 1` of them. */
  function CString(src: string, size: nat): (r: string)
    requires size > 0
    ensures |r| < size && r <= src && Nul !in r
    ensures |r| == size - 1 || |r| == |src| || src[|r|] == Nul
  {
    var n := FirstNul(src);
    if n < size - 1 then src[..n] else src[..size - 1]
  }

  /** Index of the first NUL of `buf`, or `|buf|` when there is none. */
  function FirstNul(buf: string): (n: nat)
    ensures n <= |buf|
    ensures forall k :: 0 <= k < n ==> buf[k] != Nul
    ensures n < |buf| ==> buf[n] == Nul
  {
    if buf == [] || buf[0] == Nul then 0 else 1 + FirstNul(buf[1..])
  }

  /** The first NUL is the one with no NUL before it. */
  lemma {:induction false} FirstNulAt(buf: string, i: nat)
    requires i < |buf| && buf[i] == Nul
    requires forall k :: 0 <= k < i ==> buf[k] != Nul
    ensures FirstNul(buf) == i
  {
    if i > 0 {
      FirstNulAt(buf[1..], i - 1);
    }
  }

  /** The string a NUL-terminated buffer holds. */
  function Symbols(buf: string): (syms: string)
    ensures syms <= buf && Nul !in syms
  {
    buf[..FirstNul(buf)]
  }

  /** A pattern buffer of the right size that is NUL-terminated within its first
      36 bytes, so at most 35 symbols are stored. */
  predicate Terminated(buf: string) {
    |buf| == PatternSize && FirstNul(buf) <= MaxSymbols
  }

  /** The symbols after one append: dropped when 35 are already stored, or when
      collapsing and the last symbol is already `op`; otherwise added at the end. */
  function Pushed(syms: string, op: char, collapse: bool): (r: string)
    ensures syms <= r && |r| <= |syms| + 1
    ensures |syms| <= MaxSymbols ==> |r| <= MaxSymbols
    ensures |syms| >= MaxSymbols ==> r == syms
  {
    if |syms| >= MaxSymbols || (collapse && |syms| > 0 && syms[|syms| - 1] == op) then syms
    else syms + [op]
  }

  /** With collapsing, appending the same symbol twice is appending it once. */
  lemma PushedIdempotent(syms: string, op: char)
    ensures Pushed(Pushed(syms, op, true), op, true) == Pushed(syms, op, true)
  {
  }

  /** Without collapsing (the `O` of `vfs_open`), the symbol is appended whenever there is room. */
  lemma PushedUnconditional(syms: string, op: char)
    requires |syms| < MaxSymbols
    ensures Pushed(syms, op, false) == syms + [op]
  {
  }

  /** A symbol follows an equal one only when it is `O`. */
  predicate Collapsed(syms: string) {
    forall k :: 0 < k < |syms| && syms[k - 1] == syms[k] ==> syms[k] == 'O'
  }

  /** Collapsed sequences stay collapsed under every handler's append. */
  lemma PushedCollapsed(syms: string, op: char, collapse: bool)
    requires Collapsed(syms) && (collapse || op == 'O')
    ensures Collapsed(Pushed(syms, op, collapse))
  {
  }

  /** The inner loop of every handler: find the NUL among the first 35 bytes, and
      unless collapsing drops the symbol, write `op` there and NUL after it. */
  method AppendSymbol(pattern: array<char>, op: char, collapse: bool)
    requires pattern.Length == PatternSize && op != Nul
    modifies pattern
    ensures Symbols(pattern[..]) == Pushed(Symbols(old(pattern[..])), op, collapse)
    ensures Terminated(old(pattern[..])) ==> Terminated(pattern[..])
    ensures Symbols(pattern[..]) == Symbols(old(pattern[..])) ==> pattern[..] == old(pattern[..])
  {
    ghost var buf := pattern[..];
    for i := 0 to MaxSymbols
      invariant pattern[..] == buf
      invariant forall k :: 0 <= k < i ==> buf[k] != Nul
    {
      if pattern[i] == Nul {
        FirstNulAt(buf, i);
        if collapse && i > 0 && pattern[i - 1] == op {
          break;
        }
        pattern[i] := op;
        pattern[i + 1] := Nul;
        assert pattern[..][..i] == buf[..i];
        FirstNulAt(pattern[..], i + 1);
        assert pattern[..][..i + 1] == buf[..i] + [op];
        break;
      }
    }
  }

  /** `AppendSymbol` on a copy of a stored record's buffer: the handler writes
      the buffer in place inside the table entry. */
  method Appended(pattern: string, op: char, collapse: bool) returns (pattern': string)
    requires Terminated(pattern) && IsOp(op) && (collapse || op == 'O')
    requires (forall k :: 0 <= k < |Symbols(pattern)| ==> IsOp(Symbols(pattern)[k])) && Collapsed(Symbols(pattern))
    ensures Terminated(pattern') && Symbols(pattern') == Pushed(Symbols(pattern), op, collapse)
    ensures (forall k :: 0 <= k < |Symbols(pattern')| ==> IsOp(Symbols(pattern')[k])) && Collapsed(Symbols(pattern'))
  {
    var buf := new char[PatternSize](i requires 0 <= i < PatternSize => pattern[i]);
    assert buf[..] == pattern;
    AppendSymbol(buf, op, collapse);
    pattern' := buf[..];
    PushedCollapsed(Symbols(pattern), op, collapse);
  }

  datatype FileId = FileId(tgid: u32, filename: string)

  datatype PatternRecord = PatternRecord(comm: string, pattern: string, pid: u32)

  /** The `zero` record `lookup_or_init` inserts for a new key. */
  function Zero(): (r: PatternRecord)
    ensures Terminated(r.pattern) && Symbols(r.pattern) == []
  {
    PatternRecord([], seq(PatternSize, _ => Nul), 0)
  }

  /** What every stored record satisfies between events. */
  predicate RecordOK(r: PatternRecord) {
    Terminated(r.pattern) &&
    (forall k :: 0 <= k < |Symbols(r.pattern)| ==> IsOp(Symbols(r.pattern)[k])) &&
    Collapsed(Symbols(r.pattern))
  }

  /** The key a handler builds from the current task and a dentry name. */
  function Key(idFull: u64, name: string): (key: FileId)
    ensures key.tgid == Tgid(idFull) && |key.filename| < FileNameSize
  {
    FileId(Tgid(idFull), CString(name, FileNameSize))
  }

  /** Storing a good record keeps every record good and the table within its capacity. */
  lemma Stored(entries: map<FileId, PatternRecord>, key: FileId, r: PatternRecord, entries': map<FileId, PatternRecord>)
    requires |entries| <= Capacity && forall k :: k in entries ==> RecordOK(entries[k])
    requires RecordOK(r) && (key in entries || |entries| < Capacity)
    requires entries' == entries[key := r]
    ensures |entries'| <= Capacity && forall k :: k in entries' ==> RecordOK(entries'[k])
  {
    if key in entries {
      assert entries'.Keys == entries.Keys;
    } else {
      assert entries'.Keys == entries.Keys + {key};
    }
  }

  /** How one event changes the table: nothing when the key is new and the table
      is full (`lookup_or_init` fails and the handler returns); otherwise only the
      record under `key` changes, taking the event's `pid` and `comm`, and its
      symbols gain `op` by the append rule. */
  ghost predicate Updated(entries: map<FileId, PatternRecord>, entries': map<FileId, PatternRecord>,
                          key: FileId, pid: u32, comm: string, op: char, collapse: bool)
  {
    if key !in entries && |entries| >= Capacity then entries' == entries
    else
      var before := if key in entries then entries[key] else Zero();
      key in entries' && entries' - {key} == entries - {key} &&
      entries'[key].pid == pid && entries'[key].comm == comm &&
      Symbols(entries'[key].pattern) == Pushed(Symbols(before.pattern), op, collapse)
  }

  /** A record already holding 35 symbols keeps them: the new symbol is dropped. */
  lemma SaturatedKept(entries: map<FileId, PatternRecord>, entries': map<FileId, PatternRecord>,
                      key: FileId, pid: u32, comm: string, op: char, collapse: bool)
    requires Updated(entries, entries', key, pid, comm, op, collapse)
    requires key in entries && |Symbols(entries[key].pattern)| >= MaxSymbols
    ensures key in entries' && Symbols(entries'[key].pattern) == Symbols(entries[key].pattern)
  {
  }

  /** A repeated collapsing event on the same key leaves the symbols as the first one did. */
  lemma RepeatedEventIgnored(e0: map<FileId, PatternRecord>, e1: map<FileId, PatternRecord>, e2: map<FileId, PatternRecord>,
                             key: FileId, pid: u32, comm: string, op: char)
    requires Updated(e0, e1, key, pid, comm, op, true) && Updated(e1, e2, key, pid, comm, op, true)
    requires key in e0 || |e0| < Capacity
    ensures key in e1 && key in e2 && Symbols(e2[key].pattern) == Symbols(e1[key].pattern)
  {
    var before := if key in e0 then e0[key] else Zero();
    PushedIdempotent(Symbols(before.pattern), op);
  }

  /** An event never touches the other keys' records and never removes a key. */
  lemma OthersKept(entries: map<FileId, PatternRecord>, entries': map<FileId, PatternRecord>,
                   key: FileId, pid: u32, comm: string, op: char, collapse: bool, other: FileId)
    requires Updated(entries, entries', key, pid, comm, op, collapse)
    requires other in entries && other != key
    ensures other in entries' && entries'[other] == entries[other]
  {
    assert other in entries - {key};
  }

  /** The `patterns` hash table. */
  class PatternTable {
    var entries: map<FileId, PatternRecord>

    ghost predicate Valid()
      reads this
    {
      |entries| <= Capacity && forall k :: k in entries ==> RecordOK(entries[k])
    }

    constructor ()
      ensures entries == map[] && Valid()
    {
      entries := map[];
    }

    /** The body every handler shares: `lookup_or_init` the record of
        ⟨TGID, basename⟩ (giving up when the table is full), overwrite `pid` and
        `comm`, then append `op`. */
    method Record(idFull: u64, comm: string, name: string, op: char, collapse: bool)
      requires Valid() && IsOp(op) && (collapse || op == 'O')
      modifies this
      ensures Valid()
      ensures Updated(old(entries), entries, Key(idFull, name), Tgid(idFull), CString(comm, TaskCommLen), op, collapse)
    {
      var key := Key(idFull, name);
      if key !in entries && |entries| >= Capacity {
        return;
      }
      var rec := if key in entries then entries[key] else Zero();
      var pattern := Appended(rec.pattern, op, collapse);
      var rec' := PatternRecord(CString(comm, TaskCommLen), pattern, Tgid(idFull));
      Stored(entries, key, rec', entries[key := rec']);
      entries := entries[key := rec'];
    }

    /** `trace_event_file`: read (`R`), write (`W`) and close (`L`) events. */
    method TraceEventFile(idFull: u64, comm: string, name: string, op: char)
      requires Valid() && IsOp(op)
      modifies this
      ensures Valid()
      ensures Updated(old(entries), entries, Key(idFull, name), Tgid(idFull), CString(comm, TaskCommLen), op, true)
    {
      Record(idFull, comm, name, op, true);
    }

    /** `trace_vfs_read`: `trace_event_file` with `R`. */
    method TraceVfsRead(idFull: u64, comm: string, name: string)
      requires Valid()
      modifies this
      ensures Valid()
      ensures Updated(old(entries), entries, Key(idFull, name), Tgid(idFull), CString(comm, TaskCommLen), 'R', true)
    {
      TraceEventFile(idFull, comm, name, 'R');
    }

    /** `trace_vfs_write`: `trace_event_file` with `W`. */
    method TraceVfsWrite(idFull: u64, comm: string, name: string)
      requires Valid()
      modifies this
      ensures Valid()
      ensures Updated(old(entries), entries, Key(idFull, name), Tgid(idFull), CString(comm, TaskCommLen), 'W', true)
    {
      TraceEventFile(idFull, comm, name, 'W');
    }

    /** `trace_filp_close`: `trace_event_file` with `L`. */
    method TraceFilpClose(idFull: u64, comm: string, name: string)
      requires Valid()
      modifies this
      ensures Valid()
      ensures Updated(old(entries), entries, Key(idFull, name), Tgid(idFull), CString(comm, TaskCommLen), 'L', true)
    {
      TraceEventFile(idFull, comm, name, 'L');
    }

    /** The `vfs_open` probe: appends `O` without the repeat check. */
    method VfsOpen(idFull: u64, comm: string, name: string)
      requires Valid()
      modifies this
      ensures Valid()
      ensures Updated(old(entries), entries, Key(idFull, name), Tgid(idFull), CString(comm, TaskCommLen), 'O', false)
    {
      Record(idFull, comm, name, 'O', false);
    }

    /** `trace_vfs_rename`: appends `P` to the record of the old name. */
    method TraceVfsRename(idFull: u64, comm: string, oldName: string)
      requires Valid()
      modifies this
      ensures Valid()
      ensures Updated(old(entries), entries, Key(idFull, oldName), Tgid(idFull), CString(comm, TaskCommLen), 'P', true)
    {
      Record(idFull, comm, oldName, 'P', true);
    }

    /** `trace_vfs_unlink`: appends `U`. */
    method TraceVfsUnlink(idFull: u64, comm: string, name: string)
      requires Valid()
      modifies this
      ensures Valid()
      ensures Updated(old(entries), entries, Key(idFull, name), Tgid(idFull), CString(comm, TaskCommLen), 'U', true)
    {
      Record(idFull, comm, name, 'U', true);
    }

    /** `patterns_table.clear()`. */
    method Clear()
      modifies this
      ensures entries == map[] && Valid()
    {
      entries := map[];
    }
  }
}
