/** From the queues of version edits to the MANIFEST, through a crash at any byte, to what recovery
    installs. */
module ManifestCommit {
  import opened Common
  import opened LogFormat
  import opened LogParse
  import opened LogRecovery
  import opened LogWriter
  import opened ManifestRecovery
  import opened ManifestWrite

  /** The queued edits have counts of 32 bits, and no group has 2^32 members. */
  ghost predicate CountsFit(queue: seq<ManifestWriter>) {
    Counted(Edits(Flat(queue))) && Small(Edits(Flat(queue)))
  }

  /** The writers a commit serves: a special edit alone, else all up to the next special edit. */
  ghost predicate Serves(queue: seq<ManifestWriter>, taken: nat)
    requires QueueOk(queue)
  {
    && 1 <= taken <= |queue|
    && if Special(queue[0].edits[0]) then taken == 1
       else
         && (forall i :: 0 <= i < taken ==> !Special(queue[i].edits[0]))
         && (taken < |queue| ==> Special(queue[taken].edits[0]))
  }

  /** One commit: the batch that `ProcessManifestWrites` makes of the first `taken` writers. A dummy
      edit is not written and leaves the last sequence number alone. */
  ghost predicate Committed(queue: seq<ManifestWriter>, taken: nat, d: nat, batch: seq<Edit>, d': nat) {
    && QueueOk(queue) && Serves(queue, taken)
    && if queue[0].edits[0].kind.NoManifestWrite? then batch == [] && d' == d
       else
         && Repaired(Flat(queue[..taken]), batch)
         && Stamped(d, Kept(Flat(queue[..taken])), batch)
         && d' == MaxSeq(d, Kept(Flat(queue[..taken])))
  }

  /** What a committed batch is worth to a reader. */
  lemma CommittedIsSound(queue: seq<ManifestWriter>, taken: nat, d: nat, batch: seq<Edit>, d': nat)
    requires Committed(queue, taken, d, batch, d') && CountsFit(queue)
    ensures Grouped(batch) && Counted(batch) && Small(batch) && Rising(d, batch, d')
  {
    hide Repaired, Grouped, Kept, MaxSeq, Flat;
    if queue[0].edits[0].kind.NoManifestWrite? {
      NoEdits();
    } else {
      var s := Flat(queue[..taken]);
      BatchIsSound(s, d, batch);
      FlatSplit(queue, taken);
      forall i | 0 <= i < |batch|
        ensures batch[i].remaining < COUNT_LIMIT && (batch[i].inGroup ==> batch[i].remaining + 1 < COUNT_LIMIT)
      {
        var j := KeptFrom(s, i);
        assert Edits(Flat(queue))[j] == Flat(queue)[j].edit == s[j].edit;
      }
    }
  }

  lemma NoEdits()
    ensures Grouped([])
  {
  }

  lemma {:induction false} KeptFrom(s: seq<Queued>, i: nat) returns (j: nat)
    requires i < |Kept(s)|
    ensures j < |s| && Kept(s)[i] == s[j].edit
    decreases |s|
  {
    var front := s[..|s| - 1];
    if i < |Kept(front)| {
      j := KeptFrom(front, i);
    } else {
      j := |s| - 1;
    }
  }

  // ----- many commits -----

  /** A commit: the queue it found, how many writers it took, the last sequence number before and
      after it, and what it wrote. */
  datatype Commit = Commit(queue: seq<ManifestWriter>, taken: nat, before: nat, batch: seq<Edit>, after: nat)

  /** Commits one after the other, from last sequence number d. */
  ghost predicate Chained(history: seq<Commit>, d: nat) {
    && (forall i :: 0 <= i < |history| ==>
          && Committed(history[i].queue, history[i].taken, history[i].before, history[i].batch, history[i].after)
          && CountsFit(history[i].queue))
    && (forall i :: 0 <= i < |history| ==> history[i].before == Last(history[..i], d))
  }

  function Last(history: seq<Commit>, d: nat): nat {
    if history == [] then d else history[|history| - 1].after
  }

  function Batches(history: seq<Commit>): (b: seq<seq<Edit>>)
    ensures |b| == |history|
  {
    seq(|history|, i requires 0 <= i < |history| => history[i].batch)
  }

  /** All edits of the MANIFEST. */
  function Written(history: seq<Commit>): seq<Edit> {
    Concat(Batches(history))
  }

  lemma WrittenMore(history: seq<Commit>, c: Commit)
    ensures Written(history + [c]) == Written(history) + c.batch
  {
    assert Batches(history + [c])[..|history|] == Batches(history);
  }

  lemma ChainedMore(history: seq<Commit>, d: nat, c: Commit)
    requires Chained(history, d) && c.before == Last(history, d)
    requires Committed(c.queue, c.taken, c.before, c.batch, c.after) && CountsFit(c.queue)
    ensures Chained(history + [c], d)
  {
    hide Committed, CountsFit;
    var more := history + [c];
    forall i | 0 <= i < |more| ensures more[i].before == Last(more[..i], d) {
      assert more[..i] == if i < |history| then history[..i] else history;
    }
  }

  lemma ChainedLess(history: seq<Commit>, d: nat)
    requires Chained(history, d) && history != []
    ensures Chained(history[..|history| - 1], d)
  {
    hide Committed, CountsFit;
    var less := history[..|history| - 1];
    forall i | 0 <= i < |less| ensures less[i].before == Last(less[..i], d) {
      assert less[..i] == history[..i];
    }
  }

  lemma RisingJoin(d: nat, a: seq<Edit>, e: nat, b: seq<Edit>, f: nat)
    requires Rising(d, a, e) && Rising(e, b, f)
    ensures Rising(d, a + b, f)
  {
  }

  lemma CountsJoin(a: seq<Edit>, b: seq<Edit>)
    requires Counted(a) && Small(a) && Counted(b) && Small(b)
    ensures Counted(a + b) && Small(a + b)
  {
  }

  lemma NothingWritten(d: nat)
    ensures Grouped(Written([])) && Counted(Written([])) && Small(Written([])) && Rising(d, Written([]), d)
  {
  }

  /** Over all commits: whole groups, counts that fit, and sequence numbers that never decrease. */
  lemma {:induction false} HistoryIsSound(history: seq<Commit>, d: nat)
    requires Chained(history, d)
    ensures Grouped(Written(history)) && Counted(Written(history)) && Small(Written(history))
    ensures Rising(d, Written(history), Last(history, d))
    decreases |history|
  {
    hide Committed, CountsFit, Grouped, Counted, Small, Rising, Written;
    if history == [] {
      NothingWritten(d);
    } else {
      var front := history[..|history| - 1];
      var c := history[|history| - 1];
      ChainedLess(history, d);
      HistoryIsSound(front, d);
      CommittedIsSound(c.queue, c.taken, c.before, c.batch, c.after);
      assert front + [c] == history;
      WrittenMore(front, c);
      GroupedConcat(Written(front), c.batch);
      CountsJoin(Written(front), c.batch);
      RisingJoin(d, Written(front), c.before, c.batch, c.after);
    }
  }

  /** Commits the head of a queue to the MANIFEST. */
  method CommitHead(manifest: Writer, codec: Codec, queue: seq<ManifestWriter>, d: nat) returns (c: Commit)
    requires manifest.Valid() && QueueOk(queue)
    modifies manifest
    ensures manifest.Valid()
    ensures c.queue == queue && c.before == d && Committed(queue, c.taken, d, c.batch, c.after)
    ensures manifest.records == old(manifest.records) + codec.EncodeAll(c.batch)
  {
    hide Writer.Valid, Repaired, Stamped, Grouped, MaxSeq, Kept;
    var batch, taken, max := ProcessManifestWrites(queue, d);
    if queue[0].edits[0].kind.NoManifestWrite? {
      return Commit(queue, taken, d, [], d);
    }
    WriteBatch(manifest, codec, batch);
    return Commit(queue, taken, d, batch, max);
  }

  // ----- every writer is served -----

  predicate IsDummy(w: ManifestWriter) {
    w.edits != [] && w.edits[0].kind.NoManifestWrite?
  }

  /** The edits that ought to reach the MANIFEST: those of every writer that is neither dropped nor a dummy. */
  function Live(queue: seq<ManifestWriter>): seq<Edit> {
    if queue == [] then []
    else Live(queue[..|queue| - 1]) + LiveOf(queue[|queue| - 1])
  }

  function LiveOf(w: ManifestWriter): seq<Edit> {
    if w.dropped || IsDummy(w) then [] else w.edits
  }

  /** The same edits in the same order, but for their counts and sequence numbers. */
  ghost predicate SameEdits(a: seq<Edit>, b: seq<Edit>) {
    && |a| == |b|
    && forall i :: 0 <= i < |a| ==> a[i] == b[i].(remaining := a[i].remaining, lastSeq := a[i].lastSeq)
  }

  lemma SameEditsJoin(a: seq<Edit>, b: seq<Edit>, x: seq<Edit>, y: seq<Edit>)
    requires SameEdits(a, b) && SameEdits(x, y)
    ensures SameEdits(a + x, b + y)
  {
  }

  lemma {:induction false} KeptJoin(s: seq<Queued>, t: seq<Queued>)
    ensures Kept(s + t) == Kept(s) + Kept(t)
    decreases |t|
  {
    if t == [] {
      assert s + t == s;
    } else {
      var front, q := t[..|t| - 1], t[|t| - 1];
      KeptJoin(s, front);
      assert s + t == (s + front) + [q] && t == front + [q];
      KeptAppend(s + front, q);
      KeptAppend(front, q);
    }
  }

  lemma {:induction false} KeptOfWriter(w: ManifestWriter, n: nat)
    requires n <= |w.edits|
    ensures Kept(OfWriter(w)[..n]) == if w.dropped then [] else w.edits[..n]
    decreases n
  {
    if n > 0 {
      KeptOfWriter(w, n - 1);
      assert OfWriter(w)[..n] == OfWriter(w)[..n - 1] + [OfWriter(w)[n - 1]];
      KeptAppend(OfWriter(w)[..n - 1], OfWriter(w)[n - 1]);
    }
  }

  /** Without dummies, what the batch keeps is what is live. */
  lemma {:induction false} KeptIsLive(queue: seq<ManifestWriter>)
    requires forall i :: 0 <= i < |queue| ==> !IsDummy(queue[i])
    ensures Kept(Flat(queue)) == Live(queue)
    decreases |queue|
  {
    hide Kept, OfWriter;
    if queue == [] {
      NothingKept();
    } else {
      var w := queue[|queue| - 1];
      KeptIsLive(queue[..|queue| - 1]);
      KeptJoin(Flat(queue[..|queue| - 1]), OfWriter(w));
      KeptOfWriter(w, |w.edits|);
      AllOfWriter(w);
      assert w.edits[..|w.edits|] == w.edits;
    }
  }

  lemma NothingKept()
    ensures Kept([]) == []
  {
  }

  lemma AllOfWriter(w: ManifestWriter)
    ensures |OfWriter(w)| == |w.edits| && OfWriter(w)[..|w.edits|] == OfWriter(w)
  {
  }

  /** A commit writes exactly the live edits of the writers it serves, in order. */
  lemma CommitWritesLive(queue: seq<ManifestWriter>, taken: nat, d: nat, batch: seq<Edit>, d': nat)
    requires Committed(queue, taken, d, batch, d')
    ensures SameEdits(batch, Live(queue[..taken]))
  {
    hide Repaired, Kept, Flat, MaxSeq;
    var served := queue[..taken];
    if IsDummy(queue[0]) {
      assert served == [queue[0]] && served[..0] == [];
      assert Live(served) == [];
    } else {
      assert forall i :: 0 <= i < |served| ==> served[i] == queue[i];
      KeptIsLive(served);
    }
  }

  lemma {:induction false} LiveJoin(a: seq<ManifestWriter>, b: seq<ManifestWriter>)
    ensures Live(a + b) == Live(a) + Live(b)
    decreases |b|
  {
    if b == [] {
      assert a + b == a;
    } else {
      LiveJoin(a, b[..|b| - 1]);
      assert (a + b)[..|a + b| - 1] == a + b[..|b| - 1];
    }
  }

  // ----- the queue between commits -----

  /** Writers that can be queued, all at once: as `QueueOk` for every one that may come to the head. */
  ghost predicate Queueable(queue: seq<ManifestWriter>) {
    && (forall i :: 0 <= i < |queue| ==> WriterOk(queue[i]))
    && Grouped(Edits(Flat(queue))) && CountsFit(queue)
  }

  ghost predicate WriterOk(w: ManifestWriter) {
    && w.edits != []
    && (forall j :: 0 <= j < |w.edits| && Special(w.edits[j]) ==> |w.edits| == 1 && !w.edits[j].inGroup)
    && (w.edits[0].kind.CfManipulation? ==> !w.dropped && w.edits[0].lastSeq == None)
  }

  lemma QueueableIsOk(queue: seq<ManifestWriter>)
    requires Queueable(queue) && queue != []
    ensures QueueOk(queue) && CountsFit(queue)
  {
    hide Grouped, Flat, Edits, Counted, Small;
    forall i | 0 <= i < |queue| ensures queue[i].edits != [] {
      assert WriterOk(queue[i]);
    }
    forall i, j | 0 <= i < |queue| && 0 <= j < |queue[i].edits| && Special(queue[i].edits[j])
      ensures |queue[i].edits| == 1 && !queue[i].edits[j].inGroup
    {
      assert WriterOk(queue[i]);
    }
    assert WriterOk(queue[0]);
  }

  lemma {:induction false} FlatJoin(a: seq<ManifestWriter>, b: seq<ManifestWriter>)
    ensures Flat(a + b) == Flat(a) + Flat(b)
    decreases |b|
  {
    hide OfWriter;
    if b == [] {
      assert a + b == a;
    } else {
      var front, w := b[..|b| - 1], b[|b| - 1];
      FlatJoin(a, front);
      assert (a + b)[..|a + b| - 1] == a + front;
      assert Flat(a) + (Flat(front) + OfWriter(w)) == Flat(a) + Flat(front) + OfWriter(w);
    }
  }

  lemma EditsJoin(a: seq<Queued>, b: seq<Queued>)
    ensures Edits(a + b) == Edits(a) + Edits(b)
  {
  }

  /** More writers join the queue. */
  lemma QueueableJoin(a: seq<ManifestWriter>, b: seq<ManifestWriter>)
    requires Queueable(a) && Queueable(b)
    ensures Queueable(a + b)
  {
    hide Grouped, Flat, Edits, WriterOk, Counted, Small;
    FlatJoin(a, b);
    EditsJoin(Flat(a), Flat(b));
    GroupedConcat(Edits(Flat(a)), Edits(Flat(b)));
    CountsJoin(Edits(Flat(a)), Edits(Flat(b)));
  }

  /** No group goes on past an edit that is in none. */
  lemma {:induction false} GroupedBehind(a: seq<Edit>, b: seq<Edit>)
    requires Grouped(a + b) && (b != [] ==> !b[0].inGroup)
    ensures Grouped(b)
    decreases |a|
  {
    if a == [] {
      assert a + b == b;
    } else {
      var n := Size(a[0]);
      GroupEnds(a, b);
      assert (a + b)[n..] == a[n..] + b;
      GroupedBehind(a[n..], b);
    }
  }

  lemma GroupEnds(a: seq<Edit>, b: seq<Edit>)
    requires a != [] && Grouped(a + b) && (b != [] ==> !b[0].inGroup)
    ensures Size(a[0]) <= |a| && Grouped((a + b)[Size(a[0])..])
  {
    hide Grouped;
    BeginsGroup(a + b);
    if |a| < Size(a[0]) {
      InGroup(a + b, |a|);
    }
  }

  lemma BeginsGroup(s: seq<Edit>)
    requires s != [] && Grouped(s)
    ensures Size(s[0]) <= |s| && Grouped(s[Size(s[0])..])
  {
  }

  lemma InGroup(s: seq<Edit>, i: nat)
    requires s != [] && Grouped(s) && 0 < i < Size(s[0])
    ensures i < |s| && s[i].inGroup
  {
    assert s[..Size(s[0])][i] == s[i];
  }

  lemma CountsBehind(a: seq<Edit>, b: seq<Edit>)
    requires Counted(a + b) && Small(a + b)
    ensures Counted(b) && Small(b)
  {
    assert forall i :: 0 <= i < |b| ==> b[i] == (a + b)[|a| + i];
  }

  lemma FlatOne(w: ManifestWriter)
    ensures Flat([w]) == OfWriter(w)
  {
    assert [w][..0] == [];
  }

  lemma FirstOfFlat(queue: seq<ManifestWriter>)
    requires queue != [] && queue[0].edits != []
    ensures |Flat(queue)| > 0 && Flat(queue)[0].edit == queue[0].edits[0]
  {
    hide Flat;
    FlatOne(queue[0]);
    FlatJoin([queue[0]], queue[1..]);
    assert [queue[0]] + queue[1..] == queue;
  }

  lemma OneSpecial(w: ManifestWriter)
    requires WriterOk(w) && Special(w.edits[0])
    ensures Edits(Flat([w])) == [w.edits[0]] && !w.edits[0].inGroup
  {
    FlatOne(w);
  }

  /** What a commit leaves in the queue can be served next. */
  lemma QueueableLess(queue: seq<ManifestWriter>, taken: nat)
    requires Queueable(queue) && queue != [] && QueueOk(queue) && Serves(queue, taken)
    ensures Queueable(queue[taken..])
  {
    hide Flat, Edits, Counted, Small, Grouped, QueueOk;
    var a, b := queue[..taken], queue[taken..];
    assert a + b == queue;
    FlatJoin(a, b);
    EditsJoin(Flat(a), Flat(b));
    CountsBehind(Edits(Flat(a)), Edits(Flat(b)));
    if Special(queue[0].edits[0]) {
      assert a == [queue[0]];
      OneSpecial(queue[0]);
      BehindPlain(queue[0].edits[0], Edits(Flat(b)));
    } else {
      if b != [] {
        assert WriterOk(b[0]);
        FirstOfFlat(b);
        FirstEdit(Flat(b));
      } else {
        NoneFlat();
      }
      GroupedBehind(Edits(Flat(a)), Edits(Flat(b)));
    }
  }

  lemma BehindPlain(e: Edit, b: seq<Edit>)
    requires !e.inGroup && Grouped([e] + b)
    ensures Grouped(b)
  {
    assert ([e] + b)[1..] == b;
  }

  lemma FirstEdit(s: seq<Queued>)
    requires s != []
    ensures |Edits(s)| == |s| && Edits(s)[0] == s[0].edit
  {
  }

  lemma NoneFlat()
    ensures Edits(Flat([])) == []
  {
  }

  /** All writers of all rounds, in the order they arrive. */
  function Arrived(rounds: seq<seq<ManifestWriter>>): seq<ManifestWriter> {
    if rounds == [] then [] else Arrived(rounds[..|rounds| - 1]) + rounds[|rounds| - 1]
  }

  /** The writers that the commits served, one commit behind the other. */
  ghost function Served(history: seq<Commit>): seq<ManifestWriter> {
    if history == [] then []
    else
      var c := history[|history| - 1];
      Served(history[..|history| - 1]) + if c.taken <= |c.queue| then c.queue[..c.taken] else []
  }

  lemma {:induction false} HistoryWritesLive(history: seq<Commit>, d: nat)
    requires Chained(history, d)
    ensures SameEdits(Written(history), Live(Served(history)))
    decreases |history|
  {
    hide Committed, CountsFit, SameEdits, Live, Written;
    if history == [] {
      NothingLive();
    } else {
      var front, c := history[..|history| - 1], history[|history| - 1];
      ChainedLess(history, d);
      HistoryWritesLive(front, d);
      CommitWritesLive(c.queue, c.taken, c.before, c.batch, c.after);
      CommitTakes(c.queue, c.taken, c.before, c.batch, c.after);
      assert front + [c] == history;
      WrittenMore(front, c);
      LiveJoin(Served(front), c.queue[..c.taken]);
      SameEditsJoin(Written(front), Live(Served(front)), c.batch, Live(c.queue[..c.taken]));
    }
  }

  lemma NothingLive()
    ensures SameEdits(Written([]), Live([]))
  {
  }

  lemma CommitTakes(queue: seq<ManifestWriter>, taken: nat, d: nat, batch: seq<Edit>, d': nat)
    requires Committed(queue, taken, d, batch, d')
    ensures QueueOk(queue) && Serves(queue, taken)
  {
  }

  lemma ServedMore(history: seq<Commit>, c: Commit)
    requires c.taken <= |c.queue|
    ensures Served(history + [c]) == Served(history) + c.queue[..c.taken]
  {
    assert (history + [c])[..|history|] == history;
  }

  /** One more commit from the queue. */
  method CommitNext(manifest: Writer, codec: Codec, ghost history: seq<Commit>, d: nat, last: nat,
                    queue: seq<ManifestWriter>)
      returns (c: Commit, rest: seq<ManifestWriter>)
    requires manifest.Valid() && Chained(history, d) && last == Last(history, d)
    requires manifest.records == codec.EncodeAll(Written(history))
    requires Queueable(queue) && queue != []
    modifies manifest
    ensures manifest.Valid() && Chained(history + [c], d) && c.after == Last(history + [c], d)
    ensures manifest.records == codec.EncodeAll(Written(history + [c]))
    ensures Queueable(rest) && |rest| < |queue| && Served(history + [c]) + rest == Served(history) + queue
  {
    hide Writer.Valid, QueueOk, CountsFit, Committed, Queueable, Chained, Written, Last, Served, Serves;
    QueueableIsOk(queue);
    c := CommitHead(manifest, codec, queue, last);
    CommitTakes(queue, c.taken, last, c.batch, c.after);
    TakesSome(queue, c.taken);
    ChainedMore(history, d, c);
    WrittenMore(history, c);
    LastMore(history, c, d);
    EncodeJoin(codec, Written(history), c.batch);
    ServedMore(history, c);
    QueueableLess(queue, c.taken);
    rest := queue[c.taken..];
    assert queue[..c.taken] + rest == queue;
  }

  lemma TakesSome(queue: seq<ManifestWriter>, taken: nat)
    requires QueueOk(queue) && Serves(queue, taken)
    ensures 1 <= taken <= |queue|
  {
  }

  lemma LastMore(history: seq<Commit>, c: Commit, d: nat)
    ensures Last(history + [c], d) == c.after
  {
  }

  lemma EncodeJoin(codec: Codec, a: seq<Edit>, b: seq<Edit>)
    ensures codec.EncodeAll(a + b) == codec.EncodeAll(a) + codec.EncodeAll(b)
  {
  }

  /** Writers arrive in rounds, with a commit between two rounds, and in the end the queue is emptied: every
      writer is served exactly once and in order, so exactly the live edits are written, in order. */
  method CommitAll(manifest: Writer, codec: Codec, rounds: seq<seq<ManifestWriter>>, d: nat)
    returns (history: seq<Commit>)
    requires manifest.Valid() && manifest.records == []
    requires forall i :: 0 <= i < |rounds| ==> Queueable(rounds[i])
    modifies manifest
    ensures manifest.Valid() && Chained(history, d)
    ensures manifest.records == codec.EncodeAll(Written(history))
    ensures Served(history) == Arrived(rounds) && SameEdits(Written(history), Live(Arrived(rounds)))
  {
    hide Writer.Valid, Queueable, Chained, Written, Last, Live, SameEdits, Served;
    NothingYet(codec, d);
    history := [];
    var last, queue := d, [];
    for n := 0 to |rounds|
      invariant manifest.Valid() && Chained(history, d) && last == Last(history, d)
      invariant manifest.records == codec.EncodeAll(Written(history)) && Queueable(queue)
      invariant Served(history) + queue == Arrived(rounds[..n])
    {
      QueueableJoin(queue, rounds[n]);
      assert rounds[..n + 1][..n] == rounds[..n];
      assert Served(history) + (queue + rounds[n]) == Arrived(rounds[..n + 1]);
      queue := queue + rounds[n];
      if queue != [] {
        var c, rest := CommitNext(manifest, codec, history, d, last, queue);
        history, last, queue := history + [c], c.after, rest;
      }
    }
    assert rounds[..|rounds|] == rounds;
    while queue != []
      invariant manifest.Valid() && Chained(history, d) && last == Last(history, d)
      invariant manifest.records == codec.EncodeAll(Written(history)) && Queueable(queue)
      invariant Served(history) + queue == Arrived(rounds)
      decreases |queue|
    {
      var c, rest := CommitNext(manifest, codec, history, d, last, queue);
      history, last, queue := history + [c], c.after, rest;
    }
    HistoryWritesLive(history, d);
  }

  lemma NothingYet(codec: Codec, d: nat)
    ensures Chained([], d) && Last([], d) == d && codec.EncodeAll(Written([])) == [] && Queueable([])
    ensures Served([]) == []
  {
  }

  /** Any writers, commits, a crash that cuts the MANIFEST at any byte, and recovery: it succeeds without a
      report and installs the live edits up to the last group boundary among the wholly written ones. */
  method CommitCrashRecover(cfg: LogConfig, rc: ReaderConfig, codec: Codec, rounds: seq<seq<ManifestWriter>>, d: nat,
                            cut: nat)
      returns (history: seq<Commit>, size: nat, ok: bool, installed: seq<Edit>, reports: seq<Report>)
    requires Matches(cfg, rc) && codec.Lawful()
    requires forall i :: 0 <= i < |rounds| ==> Queueable(rounds[i])
    ensures Chained(history, d) && Served(history) == Arrived(rounds)
    ensures SameEdits(Written(history), Live(Arrived(rounds)))
    ensures ok && reports == []
    ensures size == |LogBytes(cfg, 0, codec.EncodeAll(Written(history)))|
    ensures var k := Whole(cfg, 0, codec.EncodeAll(Written(history)), if cut < size then cut else size);
            UpToBoundary(Written(history), k, installed)
  {
    hide Matches, Queueable, Chained, LogBytes, Whole, UpToBoundary, Grouped, Codec.Lawful, Codec.EncodeAll, Served;
    hide Live, SameEdits, Written;
    LawfulChecksum(cfg, rc);
    var manifest := new Writer(cfg);
    history := CommitAll(manifest, codec, rounds, d);
    size := |manifest.dest|;
    var file := manifest.dest[..if cut < size then cut else size];
    ghost var read;
    ok, installed, reports, read := Recover(file, rc, codec);
    HistoryIsSound(history, d);
    BatchesSound(history, d);
    AllWritten(history);
    CrashNeverSplitsGroup(cfg, rc, codec, Batches(history), file, read, ok, installed);
  }

  lemma AllWritten(history: seq<Commit>)
    ensures Written(history) == Concat(Batches(history))
  {
  }

  lemma LawfulChecksum(cfg: LogConfig, rc: ReaderConfig)
    requires Matches(cfg, rc)
    ensures cfg.crc.Lawful()
  {
  }

  lemma BatchesSound(history: seq<Commit>, d: nat)
    requires Chained(history, d)
    ensures forall i :: 0 <= i < |history| ==> Grouped(Batches(history)[i])
  {
    hide Committed, CountsFit, Grouped;
    forall i | 0 <= i < |history| ensures Grouped(history[i].batch) {
      CommittedIsSound(history[i].queue, history[i].taken, history[i].before, history[i].batch, history[i].after);
    }
  }

  // ----- the laws can be met -----

  function Unary(n: nat): Bytes {
    if n == 0 then [1] else [0] + Unary(n - 1)
  }

  function ReadUnary(b: Bytes): Option<(nat, Bytes)> {
    if b == [] then None
    else if b[0] != 0 then Some((0, b[1..]))
    else
      var r := ReadUnary(b[1..]);
      if r.None? then None else Some((r.value.0 + 1, r.value.1))
  }

  lemma {:induction false} UnaryRoundTrip(n: nat, rest: Bytes)
    ensures ReadUnary(Unary(n) + rest) == Some((n, rest))
  {
    if n == 0 {
      assert ([1] + rest)[1..] == rest;
    } else {
      assert (Unary(n) + rest)[1..] == Unary(n - 1) + rest;
      UnaryRoundTrip(n - 1, rest);
    }
  }

  function KindCode(k: Kind): nat {
    match k case Plain => 0 case CfManipulation => 1 case NoManifestWrite => 2
  }

  function Fields(e: Edit): seq<nat> {
    [e.id, KindCode(e.kind), if e.inGroup then 1 else 0, e.remaining,
     if e.lastSeq.None? then 0 else e.lastSeq.value + 1]
  }

  function OfFields(f: seq<nat>): Option<Edit> {
    if |f| != 5 || f[1] > 2 || f[2] > 1 || f[3] >= COUNT_LIMIT then None
    else
      Some(Edit(f[0], if f[1] == 0 then Plain else if f[1] == 1 then CfManipulation else NoManifestWrite,
                f[2] == 1, f[3], if f[4] == 0 then None else Some(f[4] - 1)))
  }

  function Join(f: seq<nat>): Bytes {
    if f == [] then [] else Unary(f[0]) + Join(f[1..])
  }

  function Split(b: Bytes, n: nat): seq<nat>
    decreases n
  {
    if n == 0 then []
    else
      var r := ReadUnary(b);
      if r.None? then [] else [r.value.0] + Split(r.value.1, n - 1)
  }

  lemma {:induction false} JoinRoundTrip(f: seq<nat>)
    ensures Split(Join(f), |f|) == f
    decreases |f|
  {
    if f != [] {
      UnaryRoundTrip(f[0], Join(f[1..]));
      JoinRoundTrip(f[1..]);
    }
  }

  function Encode(e: Edit): Bytes {
    Join(Fields(e))
  }

  function Decode(b: Bytes): Option<Edit> {
    OfFields(Split(b, 5))
  }

  lemma EditRoundTrip(e: Edit)
    requires e.remaining < COUNT_LIMIT
    ensures Decode(Encode(e)) == Some(e)
  {
    hide Join, Split;
    JoinRoundTrip(Fields(e));
  }

  /** Some encoding of edits, some checksum and some configurations meet what the theorems ask for. */
  lemma LawsCanBeMet() returns (codec: Codec, cfg: LogConfig, rc: ReaderConfig)
    ensures codec.Lawful() && Matches(cfg, rc)
  {
    hide Encode, Split;
    codec := Codec(Encode, Decode);
    forall e: Edit | e.remaining < COUNT_LIMIT ensures Decode(Encode(e)) == Some(e) {
      EditRoundTrip(e);
    }
    var crc := Checksum(_ => 0, (_, _) => 0, (_, _, _) => 0, x => x, x => x);
    cfg, rc := LogConfig(crc, 0, false, false), ReaderConfig(crc, true, 0);
  }
}
