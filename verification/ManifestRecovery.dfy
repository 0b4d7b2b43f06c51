/** Reading a MANIFEST back: the buffer that holds an atomic group until all its edits are read, and
    what a crash at any byte of the file leaves installed. */
module ManifestRecovery {
  import opened Common
  import opened LogFormat
  import opened LogParse
  import opened LogReader
  import opened LogRecovery
  import opened LogWriter
  import opened ManifestWrite

  /** Entry counts are 32 bits wide. */
  const COUNT_LIMIT := 0x1_0000_0000

  ghost predicate Counted(edits: seq<Edit>) {
    forall i :: 0 <= i < |edits| ==> edits[i].remaining < COUNT_LIMIT
  }

  // ----- what can be replayed -----

  /** Nothing, or the first members of one group that is not yet whole. A group of 2^32 members
      would need a buffer size that does not fit the count. */
  ghost predicate Begins(edits: seq<Edit>) {
    edits != [] ==>
      && edits[0].remaining + 1 < COUNT_LIMIT
      && edits[|edits| - 1].remaining > 0
      && CountsDown(edits, edits[|edits| - 1].remaining)
  }

  /** No group of 2^32 members. */
  ghost predicate Small(edits: seq<Edit>) {
    forall i :: 0 <= i < |edits| && edits[i].inGroup ==> edits[i].remaining + 1 < COUNT_LIMIT
  }

  /** Plain edits and whole groups up to m, then the beginning of a group. */
  ghost predicate Replayable(edits: seq<Edit>, m: nat) {
    m <= |edits| && Grouped(edits[..m]) && Small(edits[..m]) && Begins(edits[m..])
  }

  ghost predicate Replays(edits: seq<Edit>) {
    exists m :: Replayable(edits, m)
  }

  datatype Status = Ok | CorruptedGroup

  // ----- the buffer -----

  class AtomicGroupReadBuffer {
    var readEdits: nat
    var replayBuffer: seq<Option<Edit>>
    /** The members of a begun group that were accepted. */
    ghost var group: seq<Edit>

    /** They are in order at the front, with room for the others. */
    ghost predicate Valid()
      reads this
    {
      && readEdits == |group| <= |replayBuffer|
      && (forall i :: 0 <= i < |group| ==> replayBuffer[i] == Some(group[i]))
      && (group == [] ==> replayBuffer == [])
      && (group != [] ==>
            && |replayBuffer| == group[0].remaining + 1 < COUNT_LIMIT
            && CountsDown(group, |replayBuffer| - |group|))
    }

    constructor ()
      ensures Valid() && group == []
    {
      readEdits, replayBuffer, group := 0, [], [];
    }

    /** A group member is accepted exactly if it is next in the group, a plain edit exactly if no
        group is begun. */
    method AddEdit(edit: Edit) returns (status: Status)
      requires Valid() && edit.remaining < COUNT_LIMIT
      modifies this
      ensures status == Ok <==> Next(old(group), edit)
      ensures status == Ok ==> Valid() && group == if edit.inGroup then old(group) + [edit] else []
    {
      if edit.inGroup {
        if replayBuffer == [] {
          replayBuffer := seq((edit.remaining + 1) % COUNT_LIMIT, _ => None);
        }
        readEdits := readEdits + 1;
        if readEdits + edit.remaining != |replayBuffer| % COUNT_LIMIT {
          return CorruptedGroup;
        }
        replayBuffer := replayBuffer[readEdits - 1 := Some(edit)];
        group := group + [edit];
        return Ok;
      }
      if replayBuffer != [] {
        return CorruptedGroup;
      }
      return Ok;
    }

    predicate IsFull()
      reads this
    {
      readEdits == |replayBuffer|
    }

    method Clear()
      modifies this
      ensures Valid() && group == []
    {
      readEdits, replayBuffer, group := 0, [], [];
    }
  }

  /** Whether e may follow the members of a begun group. */
  ghost predicate Next(group: seq<Edit>, e: Edit) {
    if !e.inGroup then group == []
    else if group == [] then e.remaining + 1 < COUNT_LIMIT
    else e.remaining + 1 == group[|group| - 1].remaining
  }

  // ----- boundaries -----

  lemma {:induction false} GroupedRest(a: seq<Edit>, b: seq<Edit>)
    requires Grouped(a) && Grouped(a + b)
    ensures Grouped(b)
    decreases |a|
  {
    if a == [] {
      assert a + b == b;
    } else {
      var n := Size(a[0]);
      assert (a + b)[n..] == a[n..] + b;
      GroupedRest(a[n..], b);
    }
  }

  lemma NoBoundaryInside(t: seq<Edit>, k: nat)
    requires Begins(t) && k <= |t| && Grouped(t[..k])
    ensures k == 0
  {
  }

  /** The end of the whole groups is the last place where the edits can be cut between groups. */
  lemma LastBoundary(edits: seq<Edit>, m: nat, m': nat)
    requires Replayable(edits, m) && m' <= |edits| && Grouped(edits[..m'])
    ensures m' <= m
  {
    if m <= m' {
      assert edits[..m'] == edits[..m] + edits[m..m'];
      GroupedRest(edits[..m], edits[m..m']);
      assert edits[m..][..m' - m] == edits[m..m'];
      NoBoundaryInside(edits[m..], m' - m);
    }
  }

  lemma {:induction false} GroupedLast(s: seq<Edit>) returns (j: nat)
    requires Grouped(s) && s != []
    ensures j < |s| && Grouped(s[..j])
    ensures if s[j].inGroup then CountsDown(s[j..], 0) else j + 1 == |s|
    decreases |s|
  {
    var n := Size(s[0]);
    if n == |s| {
      j := 0;
      assert s[..n] == s[0..] == s;
    } else {
      var i := GroupedLast(s[n..]);
      j := n + i;
      assert s[n..][..i] == s[n..j] && s[n..][i..] == s[j..];
      assert s[..j][..n] == s[..n] && s[..j][n..] == s[n..j];
    }
  }

  // ----- one edit more -----

  lemma Accepted(edits: seq<Edit>, m: nat, e: Edit)
    requires Replayable(edits, m) && Next(edits[m..], e)
    ensures Replayable(edits + [e], if Debt(e) == 0 then |edits| + 1 else m)
  {
    var t := edits[m..] + [e];
    assert (edits + [e])[m..] == t && (edits + [e])[..m] == edits[..m];
    if e.inGroup {
      assert CountsDown(t, e.remaining);
    }
    if Debt(e) == 0 {
      if e.inGroup {
        WholeGroup(t);
      } else {
        assert t == [e] && [e][1..] == [];
      }
      GroupedConcat(edits[..m], t);
      assert (edits + [e])[..|edits| + 1] == edits[..m] + t == edits + [e];
      SmallTogether(edits[..m], t);
    }
  }

  lemma SmallTogether(a: seq<Edit>, t: seq<Edit>)
    requires Small(a) && (t != [] && t[0].inGroup ==> t[0].remaining + 1 < COUNT_LIMIT && CountsDown(t, 0))
    requires t != [] && !t[0].inGroup ==> |t| == 1
    ensures Small(a + t)
  {
  }

  /** If the edits replay with e, they replay without it and e may follow. */
  lemma Shorter(edits: seq<Edit>, m: nat, e: Edit) returns (m': nat)
    requires Replayable(edits + [e], m)
    ensures Replayable(edits, m') && Next(edits[m'..], e)
  {
    var longer := edits + [e];
    if m <= |edits| {
      m' := m;
      assert longer[m..] == edits[m..] + [e] && longer[..m] == edits[..m];
      BeginsShorter(edits[m..], e);
    } else {
      assert longer[..m] == longer;
      m' := GroupedLast(longer);
      assert longer[m'..] == edits[m'..] + [e] && longer[..m'] == edits[..m'];
      if longer[m'].inGroup {
        UnitShorter(edits[m'..], e);
      }
    }
  }

  lemma CountsShorter(t: seq<Edit>, e: Edit, r: nat)
    requires CountsDown(t + [e], r)
    ensures CountsDown(t, r + 1) && e.inGroup && e.remaining == r
  {
    assert (t + [e])[|t|] == e;
    forall i | 0 <= i < |t| ensures t[i].inGroup && t[i].remaining == r + 1 + (|t| - 1 - i) {
      assert (t + [e])[i] == t[i];
    }
  }

  lemma BeginsShorter(t: seq<Edit>, e: Edit)
    requires Begins(t + [e])
    ensures Begins(t) && Next(t, e)
  {
    CountsShorter(t, e, e.remaining);
  }

  lemma UnitShorter(t: seq<Edit>, e: Edit)
    requires CountsDown(t + [e], 0) && (t + [e])[0].remaining + 1 < COUNT_LIMIT
    ensures Begins(t) && Next(t, e)
  {
    CountsShorter(t, e, 0);
  }

  /** An edit that is not next cannot be replayed, whatever follows. */
  lemma Rejected(edits: seq<Edit>, m: nat, e: Edit)
    requires Replayable(edits, m) && !Next(edits[m..], e)
    ensures !Replays(edits + [e])
  {
    forall m2 | Replayable(edits + [e], m2)
      ensures false
    {
      var m3 := Shorter(edits, m2, e);
      LastBoundary(edits, m, m3);
      LastBoundary(edits, m3, m);
    }
  }

  lemma {:induction false} PrefixReplays(edits: seq<Edit>, n: nat, m: nat)
    requires Replayable(edits, m) && n <= |edits|
    ensures Replays(edits[..n])
    decreases |edits|
  {
    if n == |edits| {
      assert edits[..n] == edits;
    } else {
      var last := |edits| - 1;
      assert edits == edits[..last] + [edits[last]];
      var m' := Shorter(edits[..last], m, edits[last]);
      PrefixReplays(edits[..last], n, m');
      assert edits[..last][..n] == edits[..n];
    }
  }

  // ----- the recovery loop -----

  /** What a replay of `edits` installed: all whole groups if the edits can be replayed, else those
      before the first edit that cannot follow. */
  ghost predicate Installs(edits: seq<Edit>, ok: bool, installed: seq<Edit>) {
    && |installed| <= |edits| && installed == edits[..|installed|]
    && Grouped(installed)
    && (ok <==> Replays(edits))
    && (ok ==> Replayable(edits, |installed|))
    && (!ok ==> exists n :: StopsAt(edits, n, |installed|))
  }

  ghost predicate StopsAt(edits: seq<Edit>, n: nat, m: nat) {
    n < |edits| && Replayable(edits[..n], m) && !Replays(edits[..n + 1])
  }

  lemma NothingRead()
    ensures Replayable([], 0)
  {
  }

  lemma AllRead(edits: seq<Edit>, m: nat)
    requires Replayable(edits, m)
    ensures Replays(edits) && Grouped(edits[..m])
  {
  }

  lemma Refused(edits: seq<Edit>, n: nat, m: nat)
    requires StopsAt(edits, n, m)
    ensures !Replays(edits) && m <= n && Grouped(edits[..m])
  {
    assert edits[..n][..m] == edits[..m];
    forall m' | Replayable(edits, m')
      ensures false
    {
      PrefixReplays(edits, n + 1, m');
    }
  }

  /** The edits of a full buffer. */
  method Contents(buffer: AtomicGroupReadBuffer) returns (edits: seq<Edit>)
    requires buffer.Valid() && buffer.IsFull()
    ensures edits == buffer.group
  {
    edits := [];
    for i := 0 to |buffer.replayBuffer|
      invariant edits == buffer.group[..i]
    {
      edits := edits + [buffer.replayBuffer[i].value];
    }
  }

  /** A group is applied when the buffer is full, which is then cleared; a plain edit at once. */
  method ApplyEdit(buffer: AtomicGroupReadBuffer, e: Edit, installed: seq<Edit>)
    returns (ok: bool, installed': seq<Edit>)
    requires buffer.Valid() && e.remaining < COUNT_LIMIT
    modifies buffer
    ensures ok <==> Next(old(buffer.group), e)
    ensures ok ==> buffer.Valid()
    ensures installed' == if ok && Debt(e) == 0 then installed + (old(buffer.group) + [e]) else installed
    ensures ok ==> buffer.group == if Debt(e) == 0 then [] else old(buffer.group) + [e]
  {
    installed' := installed;
    var status := buffer.AddEdit(e);
    ok := status == Ok;
    if ok {
      if !e.inGroup {
        installed' := installed + [e];
        assert old(buffer.group) + [e] == [e];
      } else if buffer.IsFull() {
        var whole := Contents(buffer);
        installed' := installed + whole;
        buffer.Clear();
      }
    }
  }

  lemma Onward(edits: seq<Edit>, i: nat, m: nat)
    requires m <= i < |edits|
    ensures edits[..i + 1] == edits[..i] + [edits[i]] == edits[..m] + (edits[m..i] + [edits[i]])
    ensures edits[..i][m..] == edits[m..i] && edits[m..i + 1] == edits[m..i] + [edits[i]]
  {
  }

  method Replay(edits: seq<Edit>) returns (ok: bool, installed: seq<Edit>)
    requires Counted(edits)
    ensures Installs(edits, ok, installed)
  {
    hide Replayable, Replays, Next, Debt, AtomicGroupReadBuffer.Valid;
    var buffer := new AtomicGroupReadBuffer();
    installed := [];
    NothingRead();
    for i := 0 to |edits|
      invariant buffer.Valid() && fresh(buffer)
      invariant |installed| <= i && installed == edits[..|installed|]
      invariant Replayable(edits[..i], |installed|)
      invariant buffer.group == edits[|installed|..i]
    {
      var e := edits[i];
      ghost var m := |installed|;
      Onward(edits, i, m);
      ok, installed := ApplyEdit(buffer, e, installed);
      if !ok {
        Rejected(edits[..i], m, e);
        Refused(edits, i, m);
        assert StopsAt(edits, i, m);
        return;
      }
      Accepted(edits[..i], m, e);
    }
    assert edits[..|edits|] == edits;
    AllRead(edits, |installed|);
    ok := true;
  }

  // ----- crashes -----

  /** The encoding of edits is foreign code: any that can be decoded. Counts have 32 bits on both sides. */
  datatype Codec = Codec(encode: Edit -> Bytes, decode: Bytes -> Option<Edit>)
  {
    ghost predicate Lawful() {
      && (forall e: Edit :: e.remaining < COUNT_LIMIT ==> decode(encode(e)) == Some(e))
      && (forall b: Bytes :: decode(b).Some? ==> decode(b).value.remaining < COUNT_LIMIT)
    }

    function EncodeAll(edits: seq<Edit>): seq<Bytes> {
      seq(|edits|, i requires 0 <= i < |edits| => encode(edits[i]))
    }
  }

  /** `edits` are what the records decode to, up to the first that cannot be decoded; they were
      replayed. */
  ghost predicate Recovered(t: Transcript, codec: Codec, edits: seq<Edit>, ok: bool, installed: seq<Edit>) {
    && |edits| <= |t.records|
    && (forall i :: 0 <= i < |edits| ==> codec.decode(t.records[i]) == Some(edits[i]))
    && (|edits| < |t.records| ==> codec.decode(t.records[|edits|]) == None && !ok)
    && Installs(edits, if |edits| == |t.records| then ok else Replays(edits), installed)
  }

  /** Reads a MANIFEST and replays it. The first record that cannot be decoded ends it with an error. */
  method Recover(file: Bytes, rc: ReaderConfig, codec: Codec)
      returns (ok: bool, installed: seq<Edit>, reports: seq<Report>, ghost edits: seq<Edit>)
    requires codec.Lawful()
    ensures Recovered(ReadFile(file, rc, TolerateCorruptedTailRecords), codec, edits, ok, installed)
    ensures reports == ReadFile(file, rc, TolerateCorruptedTailRecords).reports
  {
    var t := ReadLog(rc, file, TolerateCorruptedTailRecords);
    reports := t.reports;
    var read := [];
    for i := 0 to |t.records|
      invariant |read| == i
      invariant forall j :: 0 <= j < i ==> codec.decode(t.records[j]) == Some(read[j])
    {
      var e := codec.decode(t.records[i]);
      if e.None? {
        edits := read;
        ok, installed := Replay(read);
        return false, installed, reports, edits;
      }
      read := read + [e.value];
    }
    edits := read;
    ok, installed := Replay(read);
  }

  /** Each edit of the batch becomes one record of the MANIFEST. */
  method WriteBatch(manifest: Writer, codec: Codec, batch: seq<Edit>)
    requires manifest.Valid()
    modifies manifest
    ensures manifest.Valid()
    ensures manifest.records == old(manifest.records) + codec.EncodeAll(batch)
  {
    hide Writer.Valid;
    for i := 0 to |batch|
      invariant manifest.Valid()
      invariant manifest.records == old(manifest.records) + codec.EncodeAll(batch)[..i]
    {
      manifest.AddRecord(codec.encode(batch[i]));
    }
  }

  function Concat(batches: seq<seq<Edit>>): seq<Edit> {
    if batches == [] then [] else Concat(batches[..|batches| - 1]) + batches[|batches| - 1]
  }

  lemma {:induction false} BatchesAreGrouped(batches: seq<seq<Edit>>)
    requires forall i :: 0 <= i < |batches| ==> Grouped(batches[i])
    ensures Grouped(Concat(batches))
    decreases |batches|
  {
    if batches != [] {
      BatchesAreGrouped(batches[..|batches| - 1]);
      GroupedConcat(Concat(batches[..|batches| - 1]), batches[|batches| - 1]);
    }
  }

  /** Of the first k edits, those up to the last group boundary. */
  ghost predicate UpToBoundary(edits: seq<Edit>, k: nat, installed: seq<Edit>) {
    && |installed| <= k <= |edits|
    && installed == edits[..|installed|] && Grouped(installed)
    && forall m :: 0 <= m <= k && Grouped(edits[..m]) ==> m <= |installed|
  }

  /** The MANIFEST was cut at an arbitrary byte: replay reports no error and installs the edits up to
      the last group boundary among the wholly written records, so never a part of a group. */
  lemma CrashNeverSplitsGroup(cfg: LogConfig, rc: ReaderConfig, codec: Codec, batches: seq<seq<Edit>>, file: Bytes,
                              read: seq<Edit>, ok: bool, installed: seq<Edit>)
    requires Matches(cfg, rc) && codec.Lawful()
    requires forall i :: 0 <= i < |batches| ==> Grouped(batches[i])
    requires Counted(Concat(batches)) && Small(Concat(batches))
    requires file <= LogBytes(cfg, 0, codec.EncodeAll(Concat(batches)))
    requires Recovered(ReadFile(file, rc, TolerateCorruptedTailRecords), codec, read, ok, installed)
    ensures ok && ReadFile(file, rc, TolerateCorruptedTailRecords).reports == []
    ensures UpToBoundary(Concat(batches), Whole(cfg, 0, codec.EncodeAll(Concat(batches)), |file|), installed)
  {
    hide *;
    var edits := Concat(batches);
    BatchesAreGrouped(batches);
    CrashRead(cfg, rc, codec, edits, file);
    ReplayOfPrefix(ReadFile(file, rc, TolerateCorruptedTailRecords), codec, edits,
                   Whole(cfg, 0, codec.EncodeAll(edits), |file|), read, ok, installed);
  }

  lemma CrashRead(cfg: LogConfig, rc: ReaderConfig, codec: Codec, edits: seq<Edit>, file: Bytes)
    requires Matches(cfg, rc) && file <= LogBytes(cfg, 0, codec.EncodeAll(edits))
    ensures var k := Whole(cfg, 0, codec.EncodeAll(edits), |file|);
            var t := ReadFile(file, rc, TolerateCorruptedTailRecords);
            && k <= |edits| == |codec.EncodeAll(edits)|
            && t.records == codec.EncodeAll(edits)[..k] && t.reports == []
  {
    hide LogBytes, Matches, ReadFile, Whole;
    var records := codec.EncodeAll(edits);
    TruncatedLogCount(cfg, records, file);
    TruncatedLog(cfg, rc, TolerateCorruptedTailRecords, records, file, Whole(cfg, 0, records, |file|));
  }

  lemma ReplayOfPrefix(t: Transcript, codec: Codec, edits: seq<Edit>, k: nat, read: seq<Edit>, ok: bool,
                       installed: seq<Edit>)
    requires codec.Lawful() && Counted(edits) && Grouped(edits) && Small(edits)
    requires k <= |edits| == |codec.EncodeAll(edits)| && t.records == codec.EncodeAll(edits)[..k]
    requires Recovered(t, codec, read, ok, installed)
    ensures ok && UpToBoundary(edits, k, installed)
  {
    hide Grouped, Small, Begins, Replays, Codec.EncodeAll, Counted;
    DecodesAll(codec, edits, k, read, t.records);
    GroupedReplays(edits, k);
    forall m | 0 <= m <= k && Grouped(edits[..m]) ensures m <= |installed| {
      assert edits[..k][..m] == edits[..m];
      LastBoundary(edits[..k], |installed|, m);
    }
  }

  lemma DecodesAll(codec: Codec, edits: seq<Edit>, k: nat, read: seq<Edit>, records: seq<Bytes>)
    requires codec.Lawful() && Counted(edits) && k <= |edits| && records == codec.EncodeAll(edits)[..k]
    requires |read| <= k && (forall i :: 0 <= i < |read| ==> codec.decode(records[i]) == Some(read[i]))
    requires |read| < k ==> codec.decode(records[|read|]) == None
    ensures read == edits[..k]
  {
    assert forall i :: 0 <= i < k ==> codec.decode(records[i]) == Some(edits[i]);
  }

  lemma GroupedReplays(edits: seq<Edit>, k: nat)
    requires Grouped(edits) && Small(edits) && k <= |edits|
    ensures Replays(edits[..k])
  {
    assert edits[..|edits|] == edits && edits[|edits|..] == [];
    assert Replayable(edits, |edits|);
    PrefixReplays(edits, k, |edits|);
  }
}
