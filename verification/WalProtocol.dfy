/** Every interleaving of WAL syncs, writes and switches to a new log. A step is one stretch under the
    mutex, one file or directory sync, or one write to the active log. Waiting for another sync gives
    the mutex up, so a call and the marking of its logs are two steps. */
module WalProtocol {
  import opened WalSync

  /** A running sync: it covers logs up to `upTo`, `active` was the active log when it began, `owned`
      are the logs it marked, `todo` those it has still to sync, `closed` those it closed.
      `writer` tells a sync inside the write path, which no switch of logs can overtake. */
  datatype Sync = Sync(upTo: nat, active: nat, needDir: bool, dirDone: bool, owned: set<nat>, todo: set<nat>,
                       closed: set<nat>, writer: bool)

  /** A call that has read the number of the active log and may have to wait. */
  datatype Waiting = Waiting(upTo: nat, active: nat)

  /** `dirUpTo`: the directory entries of the logs up to this number are durable. */
  datatype State = State(core: Core, syncs: map<nat, Sync>, waiting: map<nat, Waiting>, dirUpTo: nat)

  datatype Step =
    | Call(id: nat, includeCurrent: bool)
    | Refuse(id: nat)
    | Begin(id: nat)
    | BeginWrite(id: nat, wantDir: bool)
    | SyncFile(id: nat, number: nat)
    | SyncDir(id: nat)
    | Finish(id: nat, ok: bool)
    | Switch(number: nat)
    | Write(bytes: nat)

  // ----- effects on the list -----

  function NumbersUpTo(logs: seq<Wal>, upTo: nat): set<nat> {
    set i | 0 <= i < |logs| && logs[i].number <= upTo :: logs[i].number
  }

  function OpenUpTo(logs: seq<Wal>, upTo: nat): set<nat> {
    set i | 0 <= i < |logs| && logs[i].number <= upTo && logs[i].open :: logs[i].number
  }

  function SyncedFile(logs: seq<Wal>, number: nat): (r: seq<Wal>)
    ensures |r| == |logs|
  {
    seq(|logs|, i requires 0 <= i < |logs| =>
      if logs[i].number == number then logs[i].(synced := logs[i].flushed) else logs[i])
  }

  function Written(logs: seq<Wal>, bytes: nat): (r: seq<Wal>)
    ensures |r| == |logs|
  {
    seq(|logs|, i requires 0 <= i < |logs| =>
      if i == |logs| - 1 then logs[i].(flushed := logs[i].flushed + bytes) else logs[i])
  }

  // ----- steps -----

  function UpTo(s: State, includeCurrent: bool): nat
    requires s.core.cur > 0
  {
    if includeCurrent then s.core.cur else s.core.cur - 1
  }

  /** The head of the list keeps a sync up to a number waiting. */
  predicate Blocked(logs: seq<Wal>, upTo: nat)
    requires logs != []
  {
    logs[0].number <= upTo && logs[0].syncing
  }

  predicate Enabled(s: State, step: Step) {
    match step
    case Call(id, _) =>
      s.core.cur > 0 && s.core.logs != [] && id !in s.syncs && id !in s.waiting
    case Refuse(id) =>
      && id in s.waiting && s.waiting[id].upTo == s.waiting[id].active
      && s.core.logs != [] && !Blocked(s.core.logs, s.waiting[id].upTo)
    case Begin(id) =>
      id in s.waiting && id !in s.syncs && s.core.logs != [] && !Blocked(s.core.logs, s.waiting[id].upTo)
    case BeginWrite(id, _) =>
      id !in s.syncs && id !in s.waiting && s.core.logs != [] && !s.core.logs[0].syncing
    case SyncFile(id, number) =>
      id in s.syncs && number in s.syncs[id].todo
    case SyncDir(id) =>
      id in s.syncs && s.syncs[id].todo == {} && s.syncs[id].needDir
    case Finish(id, ok) =>
      && id in s.syncs && s.core.logs != []
      && (ok ==> s.syncs[id].todo == {} && (s.syncs[id].needDir ==> s.syncs[id].dirDone))
    case Switch(number) =>
      number > s.core.cur && forall id :: id in s.syncs ==> !s.syncs[id].writer
    case Write(_) =>
      s.core.logs != []
  }

  /** The call waits no longer. */
  function Served(s: State, id: nat): State {
    s.(waiting := s.waiting - {id})
  }

  /** A sync in the write path covers all logs there are when it marks them. */
  function Current(s: State): Waiting {
    Waiting(s.core.cur, s.core.cur)
  }

  function Started(s: State, id: nat, w: Waiting, needDir: bool, writer: bool): State {
    var upTo := w.upTo;
    var sync := Sync(upTo, w.active, needDir, false, NumbersUpTo(s.core.logs, upTo),
                     OpenUpTo(s.core.logs, upTo), {}, writer);
    s.(core := s.core.(logs := Prepare(s.core.logs, upTo)), syncs := s.syncs[id := sync])
  }

  function Ended(o: Options, s: State, id: nat, ok: bool): State
    requires id in s.syncs && s.core.logs != []
  {
    var sync := s.syncs[id];
    var logs := Publish(s.core.logs, sync.closed);
    var last := logs[|logs| - 1].number;
    var core :=
      if ok then
        Core(Finished(o, logs, sync.upTo, last), s.core.freed + Released(o, logs, sync.upTo, last),
             s.core.dirSynced || (sync.needDir && s.core.cur == sync.upTo), s.core.cur)
      else s.core.(logs := Unmarked(logs, sync.upTo));
    s.(core := core, syncs := s.syncs - {id})
  }

  function Apply(o: Options, s: State, step: Step): State
    requires Enabled(s, step)
  {
    match step
    case Call(id, includeCurrent) =>
      s.(waiting := s.waiting[id := Waiting(UpTo(s, includeCurrent), s.core.cur)])
    case Refuse(id) => Served(s, id)
    case Begin(id) => Started(Served(s, id), id, s.waiting[id], !s.core.dirSynced, false)
    case BeginWrite(id, wantDir) => Started(s, id, Current(s), wantDir && !s.core.dirSynced, true)
    case SyncFile(id, number) =>
      var sync := s.syncs[id];
      var closed := if number < sync.active && o.closeInternally then sync.closed + {number} else sync.closed;
      s.(core := s.core.(logs := SyncedFile(s.core.logs, number)),
         syncs := s.syncs[id := sync.(todo := sync.todo - {number}, closed := closed)])
    case SyncDir(id) => s.(syncs := s.syncs[id := s.syncs[id].(dirDone := true)], dirUpTo := s.core.cur)
    case Finish(id, ok) => Ended(o, s, id, ok)
    case Switch(number) =>
      s.(core := Core(s.core.logs + [Wal(number, false, 0, true, 0, 0)], s.core.freed, false, number))
    case Write(bytes) => s.(core := s.core.(logs := Written(s.core.logs, bytes)))
  }

  function Initial(first: nat): State {
    State(Core([Wal(first, false, 0, true, 0, 0)], [], false, first), map[], map[], 0)
  }

  // ----- what every state keeps -----

  ghost predicate ListOk(s: State) {
    && s.core.logs != [] && s.core.cur > 0 && Ascending(s.core.logs)
    && s.core.logs[|s.core.logs| - 1].number == s.core.cur
    && WaitsOk(s.waiting, s.core.cur)
  }

  /** A waiting call may know an active log that is active no more. */
  ghost predicate WaitsOk(waiting: map<nat, Waiting>, cur: nat) {
    forall id :: id in waiting ==> waiting[id].upTo <= waiting[id].active <= cur
  }

  ghost predicate Listed(logs: seq<Wal>, number: nat) {
    exists i :: 0 <= i < |logs| && logs[i].number == number
  }

  ghost predicate Owned(syncs: map<nat, Sync>, number: nat) {
    exists id :: id in syncs && number in syncs[id].owned
  }

  ghost predicate Ranges(syncs: map<nat, Sync>, cur: nat) {
    forall id :: id in syncs ==>
      syncs[id].upTo <= syncs[id].active <= cur && (syncs[id].writer ==> syncs[id].upTo == cur)
  }

  /** A sync owns the listed logs up to its number, and no others. */
  ghost predicate Covers(logs: seq<Wal>, syncs: map<nat, Sync>) {
    forall id, i :: id in syncs && 0 <= i < |logs| ==>
      (logs[i].number <= syncs[id].upTo <==> logs[i].number in syncs[id].owned)
  }

  /** A log stays listed while it is owned. */
  ghost predicate Kept(logs: seq<Wal>, syncs: map<nat, Sync>) {
    forall id, n :: id in syncs && n in syncs[id].owned ==> Listed(logs, n)
  }

  /** A log is marked exactly if a running sync owns it. */
  ghost predicate Marks(logs: seq<Wal>, syncs: map<nat, Sync>) {
    forall i :: 0 <= i < |logs| ==> (logs[i].syncing <==> Owned(syncs, logs[i].number))
  }

  /** No log is owned by two syncs. */
  ghost predicate Disjoint(syncs: map<nat, Sync>) {
    forall id, id' :: id in syncs && id' in syncs && id != id' ==> syncs[id].owned !! syncs[id'].owned
  }

  ghost predicate OwnersOk(s: State) {
    && Ranges(s.syncs, s.core.cur) && Covers(s.core.logs, s.syncs) && Kept(s.core.logs, s.syncs)
    && Marks(s.core.logs, s.syncs) && Disjoint(s.syncs)
  }

  // ----- the list and the owners -----

  /** The head of the list is marked if any log is, so waiting for the head is enough. */
  lemma HeadIsMarked(s: State, i: nat)
    requires ListOk(s) && OwnersOk(s) && i < |s.core.logs| && s.core.logs[i].syncing
    ensures s.core.logs[0].syncing
  {
    var logs := s.core.logs;
    var id :| id in s.syncs && logs[i].number in s.syncs[id].owned;
    assert logs[0].number <= logs[i].number;
    assert logs[0].number in s.syncs[id].owned;
  }

  ghost predicate SameNumbers(a: seq<Wal>, b: seq<Wal>) {
    |a| == |b| && forall i :: 0 <= i < |a| ==> b[i].number == a[i].number
  }

  lemma SameNumbersKeep(a: seq<Wal>, b: seq<Wal>, syncs: map<nat, Sync>)
    requires SameNumbers(a, b)
    ensures Ascending(a) ==> Ascending(b)
    ensures Covers(a, syncs) ==> Covers(b, syncs)
    ensures Kept(a, syncs) ==> Kept(b, syncs)
  {
    forall n | Listed(a, n) ensures Listed(b, n) {
      var i :| 0 <= i < |a| && a[i].number == n;
      assert b[i].number == n;
    }
  }

  lemma NothingMarked(s: State, upTo: nat)
    requires ListOk(s) && OwnersOk(s)
    requires !Blocked(s.core.logs, upTo)
    ensures forall i :: 0 <= i < |s.core.logs| && s.core.logs[i].number <= upTo ==> !s.core.logs[i].syncing
  {
    hide OwnersOk;
    forall i | 0 <= i < |s.core.logs| && s.core.logs[i].number <= upTo ensures !s.core.logs[i].syncing {
      if s.core.logs[i].syncing {
        HeadIsMarked(s, i);
      }
    }
  }

  lemma StartKeepsDisjoint(logs: seq<Wal>, syncs: map<nat, Sync>, id: nat, sync: Sync)
    requires Marks(logs, syncs) && Disjoint(syncs) && id !in syncs
    requires sync.owned == NumbersUpTo(logs, sync.upTo)
    requires forall i :: 0 <= i < |logs| && logs[i].number <= sync.upTo ==> !logs[i].syncing
    ensures Disjoint(syncs[id := sync])
  {
    forall id' | id' in syncs ensures syncs[id'].owned !! sync.owned {
      forall n | n in syncs[id'].owned ensures n !in sync.owned {
        assert Owned(syncs, n);
      }
    }
  }

  lemma StartKeepsMarks(logs: seq<Wal>, syncs: map<nat, Sync>, id: nat, sync: Sync)
    requires Marks(logs, syncs) && id !in syncs && sync.owned == NumbersUpTo(logs, sync.upTo)
    ensures Marks(Prepare(logs, sync.upTo), syncs[id := sync])
  {
    var more := syncs[id := sync];
    forall i | 0 <= i < |logs| ensures Prepare(logs, sync.upTo)[i].syncing <==> Owned(more, logs[i].number) {
      var n := logs[i].number;
      if n <= sync.upTo {
        assert n in more[id].owned;
      } else {
        assert n !in sync.owned;
        forall id' | id' in syncs ensures more[id'] == syncs[id'] {}
        assert Owned(syncs, n) <==> Owned(more, n);
      }
    }
  }

  lemma StartKeepsKept(logs: seq<Wal>, syncs: map<nat, Sync>, id: nat, sync: Sync)
    requires Ascending(logs) && Covers(logs, syncs) && Kept(logs, syncs) && id !in syncs
    requires sync.owned == NumbersUpTo(logs, sync.upTo)
    ensures Covers(logs, syncs[id := sync]) && Kept(logs, syncs[id := sync])
  {
  }

  lemma StartKeepsOwners(s: State, id: nat, w: Waiting, needDir: bool, writer: bool)
    requires ListOk(s) && OwnersOk(s)
    requires id !in s.syncs && w.upTo <= w.active <= s.core.cur && (writer ==> w == Current(s))
    requires !Blocked(s.core.logs, w.upTo)
    ensures ListOk(Started(s, id, w, needDir, writer)) && OwnersOk(Started(s, id, w, needDir, writer))
  {
    hide Covers, Kept, Marks, Disjoint, Prepare, WaitsOk;
    var upTo := w.upTo;
    var t := Started(s, id, w, needDir, writer);
    NothingMarked(s, upTo);
    StartKeepsDisjoint(s.core.logs, s.syncs, id, t.syncs[id]);
    StartKeepsMarks(s.core.logs, s.syncs, id, t.syncs[id]);
    StartKeepsKept(s.core.logs, s.syncs, id, t.syncs[id]);
    PrepareKeepsNumbers(s.core.logs, upTo);
    SameNumbersKeep(s.core.logs, t.core.logs, t.syncs);
  }

  lemma PrepareKeepsNumbers(logs: seq<Wal>, upTo: nat)
    ensures SameNumbers(logs, Prepare(logs, upTo))
  {
  }

  // ----- the end of a sync -----

  /** What the end of a sync makes of a log that it leaves in the list. */
  function AfterSync(w: Wal, upTo: nat): Wal {
    if w.number <= upTo then w.(syncing := false) else w
  }

  lemma {:induction false} FinishedFrom(o: Options, logs: seq<Wal>, upTo: nat, last: nat, j: nat) returns (i: nat)
    requires j < |Finished(o, logs, upTo, last)|
    ensures i < |logs| && Finished(o, logs, upTo, last)[j] == AfterSync(logs[i], upTo)
    decreases |logs|
  {
    var front := logs[..|logs| - 1];
    if j < |Finished(o, front, upTo, last)| {
      i := FinishedFrom(o, front, upTo, last, j);
    } else {
      i := |logs| - 1;
    }
  }

  lemma {:induction false} FinishedAscending(o: Options, logs: seq<Wal>, upTo: nat, last: nat)
    requires Ascending(logs)
    ensures var f := Finished(o, logs, upTo, last);
            Ascending(f) && forall j :: 0 <= j < |f| ==> logs != [] && f[j].number <= logs[|logs| - 1].number
    decreases |logs|
  {
    if logs != [] {
      FinishedAscending(o, logs[..|logs| - 1], upTo, last);
    }
  }

  lemma {:induction false} FinishedLists(o: Options, logs: seq<Wal>, upTo: nat, last: nat, i: nat)
    requires i < |logs| && (logs[i].number > upTo || !Reclaimable(o, logs[i], last))
    ensures Listed(Finished(o, logs, upTo, last), logs[i].number)
    decreases |logs|
  {
    var f := Finished(o, logs, upTo, last);
    if i < |logs| - 1 {
      var front := logs[..|logs| - 1];
      FinishedLists(o, front, upTo, last, i);
      var j :| 0 <= j < |Finished(o, front, upTo, last)| && Finished(o, front, upTo, last)[j].number == logs[i].number;
      assert f[j].number == logs[i].number;
    } else {
      assert f[|f| - 1].number == logs[i].number;
    }
  }

  /** The rest of the syncs own a log exactly if they did before and the ending one did not cover it. */
  lemma OwnedAfter(logs: seq<Wal>, syncs: map<nat, Sync>, id: nat, i: nat)
    requires Covers(logs, syncs) && Disjoint(syncs) && id in syncs && i < |logs|
    ensures Owned(syncs - {id}, logs[i].number) <==> Owned(syncs, logs[i].number) && logs[i].number > syncs[id].upTo
  {
    var n := logs[i].number;
    if Owned(syncs, n) && n > syncs[id].upTo {
      var id' :| id' in syncs && n in syncs[id'].owned;
      assert id' in syncs - {id};
    }
  }

  lemma FinishKeepsMarks(o: Options, logs: seq<Wal>, syncs: map<nat, Sync>, id: nat, last: nat)
    requires Covers(logs, syncs) && Disjoint(syncs) && Marks(logs, syncs) && id in syncs
    ensures Marks(Finished(o, logs, syncs[id].upTo, last), syncs - {id})
    ensures Marks(Unmarked(logs, syncs[id].upTo), syncs - {id})
  {
    hide Covers, Disjoint;
    var upTo := syncs[id].upTo;
    forall i | 0 <= i < |logs| ensures AfterSync(logs[i], upTo).syncing <==> Owned(syncs - {id}, logs[i].number) {
      OwnedAfter(logs, syncs, id, i);
    }
    var f := Finished(o, logs, upTo, last);
    forall j | 0 <= j < |f| ensures f[j].syncing <==> Owned(syncs - {id}, f[j].number) {
      var i := FinishedFrom(o, logs, upTo, last, j);
    }
  }

  lemma FinishKeepsCovers(o: Options, logs: seq<Wal>, syncs: map<nat, Sync>, id: nat, last: nat)
    requires Covers(logs, syncs) && id in syncs
    ensures Covers(Finished(o, logs, syncs[id].upTo, last), syncs - {id})
  {
    hide Finished;
    var f := Finished(o, logs, syncs[id].upTo, last);
    forall id', j | id' in syncs - {id} && 0 <= j < |f|
      ensures f[j].number <= syncs[id'].upTo <==> f[j].number in syncs[id'].owned
    {
      var i := FinishedFrom(o, logs, syncs[id].upTo, last, j);
    }
  }

  lemma FinishKeepsKept(o: Options, logs: seq<Wal>, syncs: map<nat, Sync>, id: nat, last: nat)
    requires Covers(logs, syncs) && Kept(logs, syncs) && Disjoint(syncs) && id in syncs
    ensures Kept(Finished(o, logs, syncs[id].upTo, last), syncs - {id})
  {
    hide Finished;
    forall id', n | id' in syncs - {id} && n in syncs[id'].owned
      ensures Listed(Finished(o, logs, syncs[id].upTo, last), n)
    {
      assert Listed(logs, n);
      var i :| 0 <= i < |logs| && logs[i].number == n;
      assert n !in syncs[id].owned;
      FinishedLists(o, logs, syncs[id].upTo, last, i);
    }
  }

  /** Every log that the end of a sync visits is marked: the source's assertions hold. */
  lemma VisitsMarked(s: State, id: nat)
    requires OwnersOk(s) && id in s.syncs
    ensures AllSyncing(s.core.logs, s.syncs[id].upTo)
    ensures AllSyncing(Publish(s.core.logs, s.syncs[id].closed), s.syncs[id].upTo)
  {
    forall i | 0 <= i < |s.core.logs| && s.core.logs[i].number <= s.syncs[id].upTo ensures s.core.logs[i].syncing {
      assert s.core.logs[i].number in s.syncs[id].owned;
    }
  }

  lemma PublishKeeps(logs: seq<Wal>, closed: set<nat>, syncs: map<nat, Sync>)
    ensures SameNumbers(logs, Publish(logs, closed))
    ensures Marks(logs, syncs) ==> Marks(Publish(logs, closed), syncs)
  {
  }

  lemma UnmarkedKeepsNumbers(logs: seq<Wal>, upTo: nat)
    ensures SameNumbers(logs, Unmarked(logs, upTo))
  {
  }

  lemma FinishedKeepsList(o: Options, logs: seq<Wal>, upTo: nat)
    requires logs != [] && Ascending(logs)
    ensures var f := Finished(o, logs, upTo, logs[|logs| - 1].number);
            f != [] && Ascending(f) && f[|f| - 1].number == logs[|logs| - 1].number
  {
    FinishedAscending(o, logs, upTo, logs[|logs| - 1].number);
  }

  lemma FewerSyncs(logs: seq<Wal>, syncs: map<nat, Sync>, id: nat, cur: nat)
    ensures Covers(logs, syncs) ==> Covers(logs, syncs - {id})
    ensures Kept(logs, syncs) ==> Kept(logs, syncs - {id})
    ensures Disjoint(syncs) ==> Disjoint(syncs - {id})
    ensures Ranges(syncs, cur) ==> Ranges(syncs - {id}, cur)
  {
  }

  lemma EndKeepsOwners(o: Options, s: State, id: nat, ok: bool)
    requires ListOk(s) && OwnersOk(s) && id in s.syncs
    ensures ListOk(Ended(o, s, id, ok)) && OwnersOk(Ended(o, s, id, ok))
  {
    hide Covers, Kept, Marks, Disjoint, Ranges, Finished, Unmarked, Ascending, Publish, Released;
    var upTo := s.syncs[id].upTo;
    var logs := Publish(s.core.logs, s.syncs[id].closed);
    PublishKeeps(s.core.logs, s.syncs[id].closed, s.syncs);
    SameNumbersKeep(s.core.logs, logs, s.syncs);
    FewerSyncs(logs, s.syncs, id, s.core.cur);
    FinishKeepsMarks(o, logs, s.syncs, id, logs[|logs| - 1].number);
    if ok {
      FinishKeepsCovers(o, logs, s.syncs, id, logs[|logs| - 1].number);
      FinishKeepsKept(o, logs, s.syncs, id, logs[|logs| - 1].number);
      FinishedKeepsList(o, logs, upTo);
    } else {
      UnmarkedKeepsNumbers(logs, upTo);
      SameNumbersKeep(logs, Unmarked(logs, upTo), s.syncs - {id});
    }
  }

  // ----- the other steps -----

  /** A sync's progress: everything but what it covers may change. */
  ghost predicate SameCover(a: Sync, b: Sync) {
    a.upTo == b.upTo && a.active == b.active && a.owned == b.owned && a.writer == b.writer
  }

  lemma ProgressKeepsOwners(logs: seq<Wal>, syncs: map<nat, Sync>, id: nat, sync: Sync, cur: nat)
    requires id in syncs && SameCover(syncs[id], sync)
    ensures Covers(logs, syncs) ==> Covers(logs, syncs[id := sync])
    ensures Kept(logs, syncs) ==> Kept(logs, syncs[id := sync])
    ensures Disjoint(syncs) ==> Disjoint(syncs[id := sync])
    ensures Ranges(syncs, cur) ==> Ranges(syncs[id := sync], cur)
  {
  }

  lemma ProgressKeepsMarks(logs: seq<Wal>, syncs: map<nat, Sync>, id: nat, sync: Sync)
    requires id in syncs && SameCover(syncs[id], sync) && Marks(logs, syncs)
    ensures Marks(logs, syncs[id := sync])
  {
    forall n ensures Owned(syncs, n) <==> Owned(syncs[id := sync], n) {
      if Owned(syncs, n) {
        var id' :| id' in syncs && n in syncs[id'].owned;
        assert n in syncs[id := sync][id'].owned;
      }
    }
  }

  lemma SyncedFileKeeps(logs: seq<Wal>, number: nat, syncs: map<nat, Sync>)
    ensures SameNumbers(logs, SyncedFile(logs, number))
    ensures Marks(logs, syncs) ==> Marks(SyncedFile(logs, number), syncs)
  {
  }

  lemma WrittenKeeps(logs: seq<Wal>, bytes: nat, syncs: map<nat, Sync>)
    ensures SameNumbers(logs, Written(logs, bytes))
    ensures Marks(logs, syncs) ==> Marks(Written(logs, bytes), syncs)
  {
  }

  lemma SwitchKeepsOwners(s: State, number: nat)
    requires ListOk(s) && OwnersOk(s) && Enabled(s, Switch(number))
    ensures var logs := s.core.logs + [Wal(number, false, 0, true, 0, 0)];
            && Ascending(logs) && Ranges(s.syncs, number) && Covers(logs, s.syncs) && Kept(logs, s.syncs)
            && Marks(logs, s.syncs)
  {
    var logs := s.core.logs + [Wal(number, false, 0, true, 0, 0)];
    forall n | Listed(s.core.logs, n) ensures Listed(logs, n) && n != number {
      var i :| 0 <= i < |s.core.logs| && s.core.logs[i].number == n;
      assert logs[i].number == n;
    }
    assert !Listed(s.core.logs, number);
    assert forall id :: id in s.syncs ==> number !in s.syncs[id].owned;
    assert !Owned(s.syncs, number);
  }

  lemma StepKeepsOwners(o: Options, s: State, step: Step)
    requires ListOk(s) && OwnersOk(s) && Enabled(s, step)
    ensures ListOk(Apply(o, s, step)) && OwnersOk(Apply(o, s, step))
  {
    hide Covers, Kept, Marks, Disjoint, Ranges, SyncedFile, Written, Ascending, Started, Ended;
    match step
    case Call(id, _) =>
    case Refuse(id) =>
    case Begin(id) =>
      StartKeepsOwners(Served(s, id), id, s.waiting[id], !s.core.dirSynced, false);
    case BeginWrite(id, wantDir) =>
      StartKeepsOwners(s, id, Current(s), wantDir && !s.core.dirSynced, true);
    case SyncFile(id, number) =>
      var t := Apply(o, s, step);
      SyncedFileKeeps(s.core.logs, number, s.syncs);
      SameNumbersKeep(s.core.logs, t.core.logs, s.syncs);
      ProgressKeepsOwners(t.core.logs, s.syncs, id, t.syncs[id], s.core.cur);
      ProgressKeepsMarks(t.core.logs, s.syncs, id, t.syncs[id]);
    case SyncDir(id) =>
      ProgressKeepsOwners(s.core.logs, s.syncs, id, s.syncs[id].(dirDone := true), s.core.cur);
      ProgressKeepsMarks(s.core.logs, s.syncs, id, s.syncs[id].(dirDone := true));
    case Finish(id, ok) =>
      EndKeepsOwners(o, s, id, ok);
    case Switch(number) =>
      SwitchKeepsOwners(s, number);
    case Write(bytes) =>
      WrittenKeeps(s.core.logs, bytes, s.syncs);
      SameNumbersKeep(s.core.logs, Written(s.core.logs, bytes), s.syncs);
  }

  // ----- durability -----

  /** What a listed log says is true: a closed log is inactive and durable. */
  ghost predicate LogsOk(logs: seq<Wal>, cur: nat) {
    forall i :: 0 <= i < |logs| ==>
      && logs[i].synced <= logs[i].flushed && logs[i].preSync <= logs[i].flushed
      && (!logs[i].open ==> logs[i].synced == logs[i].flushed && logs[i].number < cur)
  }

  /** A log whose sync is done is durable up to its size when the sync began, and entirely if the
      sync closed it. */
  ghost predicate ProgressOk(logs: seq<Wal>, syncs: map<nat, Sync>) {
    && (forall id, i :: id in syncs && 0 <= i < |logs| && logs[i].number in syncs[id].owned - syncs[id].todo ==>
          logs[i].synced >= logs[i].preSync)
    && (forall id, i :: id in syncs && 0 <= i < |logs| && logs[i].number in syncs[id].closed ==>
          logs[i].synced == logs[i].flushed)
    && (forall id, n :: id in syncs && n in syncs[id].closed ==> n < syncs[id].active)
  }

  /** Freed logs are inactive and entirely durable. */
  ghost predicate FreedOk(freed: seq<Wal>, cur: nat) {
    forall i :: 0 <= i < |freed| ==> freed[i].synced == freed[i].flushed && freed[i].number < cur
  }

  /** `wal_dir_synced_` is set only if the active log's directory entry is durable. */
  ghost predicate DirOk(s: State) {
    && s.dirUpTo <= s.core.cur
    && (s.core.dirSynced ==> s.dirUpTo >= s.core.cur)
    && (forall id :: id in s.syncs && (s.syncs[id].dirDone || !(s.syncs[id].needDir || s.syncs[id].writer)) ==>
          s.dirUpTo >= s.syncs[id].active)
  }

  ghost predicate DurableOk(s: State) {
    LogsOk(s.core.logs, s.core.cur) && ProgressOk(s.core.logs, s.syncs) && FreedOk(s.core.freed, s.core.cur) && DirOk(s)
  }

  lemma StartKeepsDurable(s: State, id: nat, w: Waiting, needDir: bool, writer: bool)
    requires ListOk(s) && OwnersOk(s) && DurableOk(s) && id !in s.syncs
    requires w.active <= s.core.cur && (needDir || writer || s.core.dirSynced) && !Blocked(s.core.logs, w.upTo)
    ensures DurableOk(Started(s, id, w, needDir, writer))
  {
    hide Covers, Kept, Disjoint, WaitsOk;
    var upTo := w.upTo;
    NothingMarked(s, upTo);
    var t := Started(s, id, w, needDir, writer);
    forall id', i | && id' in t.syncs && 0 <= i < |t.core.logs|
                    && t.core.logs[i].number in t.syncs[id'].owned - t.syncs[id'].todo
      ensures t.core.logs[i].synced >= t.core.logs[i].preSync
    {
      var log := s.core.logs[i];
      if id' == id {
        assert log.number <= upTo && !log.open;
      } else {
        assert Owned(s.syncs, log.number);
      }
    }
  }

  lemma {:induction false} ReleasedFrom(o: Options, logs: seq<Wal>, upTo: nat, last: nat, j: nat) returns (i: nat)
    requires j < |Released(o, logs, upTo, last)|
    ensures i < |logs| && Released(o, logs, upTo, last)[j] == logs[i] && logs[i].number <= upTo
    ensures Reclaimable(o, logs[i], last)
    decreases |logs|
  {
    var front := logs[..|logs| - 1];
    if j < |Released(o, front, upTo, last)| {
      i := ReleasedFrom(o, front, upTo, last, j);
    } else {
      i := |logs| - 1;
    }
  }

  /** What is freed is durable. */
  lemma ReleasedIsDurable(o: Options, logs: seq<Wal>, syncs: map<nat, Sync>, id: nat, cur: nat)
    requires Covers(logs, syncs) && LogsOk(logs, cur) && ProgressOk(logs, syncs) && id in syncs && syncs[id].todo == {}
    ensures FreedOk(Released(o, logs, syncs[id].upTo, cur), cur)
  {
    hide Released;
    var r := Released(o, logs, syncs[id].upTo, cur);
    forall j | 0 <= j < |r| ensures r[j].synced == r[j].flushed && r[j].number < cur {
      var i := ReleasedFrom(o, logs, syncs[id].upTo, cur, j);
      assert logs[i].number in syncs[id].owned - syncs[id].todo;
    }
  }

  lemma FinishedIsDurable(o: Options, logs: seq<Wal>, syncs: map<nat, Sync>, id: nat, cur: nat)
    requires LogsOk(logs, cur) && ProgressOk(logs, syncs) && id in syncs
    ensures var f := Finished(o, logs, syncs[id].upTo, cur);
            LogsOk(f, cur) && ProgressOk(f, syncs - {id})
  {
    hide Finished;
    var f := Finished(o, logs, syncs[id].upTo, cur);
    forall j | 0 <= j < |f|
      ensures exists i :: 0 <= i < |logs| && f[j] == AfterSync(logs[i], syncs[id].upTo)
    {
      var i := FinishedFrom(o, logs, syncs[id].upTo, cur, j);
    }
  }

  lemma PublishIsDurable(logs: seq<Wal>, syncs: map<nat, Sync>, id: nat, cur: nat)
    requires LogsOk(logs, cur) && ProgressOk(logs, syncs) && Ranges(syncs, cur) && id in syncs
    ensures LogsOk(Publish(logs, syncs[id].closed), cur) && ProgressOk(Publish(logs, syncs[id].closed), syncs)
  {
  }

  lemma UnmarkedIsDurable(logs: seq<Wal>, syncs: map<nat, Sync>, id: nat, cur: nat, upTo: nat)
    requires LogsOk(logs, cur) && ProgressOk(logs, syncs)
    ensures LogsOk(Unmarked(logs, upTo), cur) && ProgressOk(Unmarked(logs, upTo), syncs - {id})
  {
  }

  lemma FreedTogether(a: seq<Wal>, b: seq<Wal>, cur: nat)
    requires FreedOk(a, cur) && FreedOk(b, cur)
    ensures FreedOk(a + b, cur)
  {
  }

  lemma EndKeepsDurable(o: Options, s: State, id: nat, ok: bool)
    requires ListOk(s) && OwnersOk(s) && DurableOk(s) && Enabled(s, Finish(id, ok))
    ensures DurableOk(Ended(o, s, id, ok))
  {
    hide Covers, Kept, Marks, Disjoint, Finished, Unmarked, Ascending, Publish, Released, LogsOk, ProgressOk, FreedOk;
    var logs := Publish(s.core.logs, s.syncs[id].closed);
    PublishKeeps(s.core.logs, s.syncs[id].closed, s.syncs);
    SameNumbersKeep(s.core.logs, logs, s.syncs);
    PublishIsDurable(s.core.logs, s.syncs, id, s.core.cur);
    if ok {
      FinishedIsDurable(o, logs, s.syncs, id, s.core.cur);
      ReleasedIsDurable(o, logs, s.syncs, id, s.core.cur);
      FreedTogether(s.core.freed, Released(o, logs, s.syncs[id].upTo, s.core.cur), s.core.cur);
    } else {
      UnmarkedIsDurable(logs, s.syncs, id, s.core.cur, s.syncs[id].upTo);
    }
  }

  lemma SyncFileKeepsDurable(o: Options, s: State, id: nat, number: nat)
    requires OwnersOk(s) && DurableOk(s) && Enabled(s, SyncFile(id, number))
    ensures DurableOk(Apply(o, s, SyncFile(id, number)))
  {
    hide Covers, Kept, Marks, Disjoint;
  }

  lemma WriteKeepsDurable(s: State, bytes: nat)
    requires ListOk(s) && OwnersOk(s) && DurableOk(s)
    ensures DurableOk(s.(core := s.core.(logs := Written(s.core.logs, bytes))))
  {
    hide Covers, Kept, Marks, Disjoint;
  }

  lemma SwitchKeepsDurable(o: Options, s: State, number: nat)
    requires ListOk(s) && OwnersOk(s) && DurableOk(s) && Enabled(s, Switch(number))
    ensures DurableOk(Apply(o, s, Switch(number)))
  {
    hide Covers, Kept, Marks, Disjoint;
  }

  /** One call less that waits changes nothing else. */
  lemma StillDurable(s: State, id: nat)
    requires ListOk(s) && OwnersOk(s) && DurableOk(s)
    ensures ListOk(Served(s, id)) && OwnersOk(Served(s, id)) && DurableOk(Served(s, id))
  {
    hide Covers, Kept, Marks, Disjoint, Ranges, LogsOk, ProgressOk, FreedOk;
  }

  lemma StepKeepsDurable(o: Options, s: State, step: Step)
    requires ListOk(s) && OwnersOk(s) && DurableOk(s) && Enabled(s, step)
    ensures DurableOk(Apply(o, s, step))
  {
    hide OwnersOk, LogsOk, ProgressOk, FreedOk, Started, Ended, SyncedFile, Written;
    match step
    case Call(id, _) =>
    case Refuse(id) =>
    case Begin(id) =>
      StillDurable(s, id);
      StartKeepsDurable(Served(s, id), id, s.waiting[id], !s.core.dirSynced, false);
    case BeginWrite(id, wantDir) =>
      StartKeepsDurable(s, id, Current(s), wantDir && !s.core.dirSynced, true);
    case SyncFile(id, number) =>
      SyncFileKeepsDurable(o, s, id, number);
    case SyncDir(id) =>
      SyncDirKeepsDurable(o, s, id);
    case Finish(id, ok) =>
      EndKeepsDurable(o, s, id, ok);
    case Switch(number) =>
      SwitchKeepsDurable(o, s, number);
    case Write(bytes) =>
      WriteKeepsDurable(s, bytes);
  }

  lemma SyncDirKeepsDurable(o: Options, s: State, id: nat)
    requires OwnersOk(s) && DurableOk(s) && Enabled(s, SyncDir(id))
    ensures DurableOk(Apply(o, s, SyncDir(id)))
  {
  }

  // ----- every run -----

  ghost predicate Inv(s: State) {
    ListOk(s) && OwnersOk(s) && DurableOk(s)
  }

  /** A run from the opening of the database: any steps in any order, each when it is enabled. */
  ghost predicate Run(o: Options, first: nat, steps: seq<Step>, states: seq<State>) {
    && |states| == |steps| + 1
    && states[0] == Initial(first)
    && forall i :: 0 <= i < |steps| ==> Enabled(states[i], steps[i]) && states[i + 1] == Apply(o, states[i], steps[i])
  }

  lemma {:induction false} RunKeepsInv(o: Options, first: nat, steps: seq<Step>, states: seq<State>, k: nat)
    requires Run(o, first, steps, states) && k < |states| && first > 0
    ensures Inv(states[k])
    decreases k
  {
    hide OwnersOk, DurableOk, ListOk, Apply;
    if k == 0 {
      InitialInv(first);
    } else {
      RunKeepsInv(o, first, steps, states, k - 1);
      StepKeepsOwners(o, states[k - 1], steps[k - 1]);
      StepKeepsDurable(o, states[k - 1], steps[k - 1]);
    }
  }

  lemma InitialInv(first: nat)
    requires first > 0
    ensures Inv(Initial(first))
  {
  }

  /** Safety of every reachable state. */
  lemma SyncsAreSafe(o: Options, first: nat, steps: seq<Step>, states: seq<State>, k: nat)
    requires Run(o, first, steps, states) && k < |states| && first > 0
    ensures var s := states[k];
            var logs := s.core.logs;
            // no log is owned by two syncs at once
            && Disjoint(s.syncs)
            // the head is marked if any log is, and a marked log has a running sync
            && (forall i :: 0 <= i < |logs| && logs[i].syncing ==> logs[0].syncing && Owned(s.syncs, logs[i].number))
            // the end of any running sync visits its own logs, all of them marked
            && (forall id :: id in s.syncs ==> AllSyncing(logs, s.syncs[id].upTo))
            && Covers(logs, s.syncs)
            // the active log is listed and open, never freed, and whatever is freed is durable
            && logs != [] && logs[|logs| - 1].number == s.core.cur && logs[|logs| - 1].open
            && (forall i :: 0 <= i < |s.core.freed| ==>
                  s.core.freed[i].number < s.core.cur && s.core.freed[i].synced == s.core.freed[i].flushed)
            // the directory flag can be trusted
            && (s.core.dirSynced ==> s.dirUpTo == s.core.cur)
  {
    RunKeepsInv(o, first, steps, states, k);
    SafeState(states[k]);
  }

  lemma SafeState(s: State)
    requires Inv(s)
    ensures forall i :: 0 <= i < |s.core.logs| && s.core.logs[i].syncing ==> s.core.logs[0].syncing
    ensures forall id :: id in s.syncs ==> AllSyncing(s.core.logs, s.syncs[id].upTo)
  {
    hide OwnersOk, DurableOk, ListOk;
    forall i | 0 <= i < |s.core.logs| && s.core.logs[i].syncing ensures s.core.logs[0].syncing {
      HeadIsMarked(s, i);
    }
    forall id | id in s.syncs ensures AllSyncing(s.core.logs, s.syncs[id].upTo) {
      VisitsMarked(s, id);
    }
  }

  // ----- what a successful sync promises -----

  ghost predicate TargetAt(logs: seq<Wal>, i: nat, n: nat, p: nat) {
    i < |logs| && logs[i].number == n && (logs[i].synced >= p || logs[i].preSync >= p)
  }

  /** The first p bytes of log n are durable, or will be when sync `id` succeeds. */
  ghost predicate Target(s: State, id: nat, n: nat, p: nat) {
    id in s.syncs && n in s.syncs[id].owned && exists i :: TargetAt(s.core.logs, i, n, p)
  }

  lemma StartSetsTarget(s: State, id: nat, w: Waiting, needDir: bool, writer: bool, i: nat)
    requires Inv(s) && i < |s.core.logs| && s.core.logs[i].number <= w.upTo
    ensures Target(Started(s, id, w, needDir, writer), id, s.core.logs[i].number, s.core.logs[i].flushed)
  {
    hide OwnersOk, ProgressOk, FreedOk;
    assert TargetAt(Prepare(s.core.logs, w.upTo), i, s.core.logs[i].number, s.core.logs[i].flushed);
  }

  lemma StartKeepsTarget(s: State, id': nat, w: Waiting, needDir: bool, writer: bool, id: nat, n: nat, p: nat)
    requires Inv(s) && Target(s, id, n, p) && id' !in s.syncs && !Blocked(s.core.logs, w.upTo)
    ensures Target(Started(s, id', w, needDir, writer), id, n, p)
  {
    hide Covers, Kept, Disjoint, DurableOk;
    var upTo := w.upTo;
    NothingMarked(s, upTo);
    var i: nat :| TargetAt(s.core.logs, i, n, p);
    assert Owned(s.syncs, n);
    assert TargetAt(Prepare(s.core.logs, upTo), i, n, p);
  }

  lemma {:induction false} FinishedHas(o: Options, logs: seq<Wal>, upTo: nat, last: nat, i: nat) returns (j: nat)
    requires i < |logs| && (logs[i].number > upTo || !Reclaimable(o, logs[i], last))
    ensures j < |Finished(o, logs, upTo, last)| && Finished(o, logs, upTo, last)[j] == AfterSync(logs[i], upTo)
    decreases |logs|
  {
    if i < |logs| - 1 {
      j := FinishedHas(o, logs[..|logs| - 1], upTo, last, i);
    } else {
      j := |Finished(o, logs, upTo, last)| - 1;
    }
  }

  lemma {:induction false} ReleasedHas(o: Options, logs: seq<Wal>, upTo: nat, last: nat, i: nat) returns (j: nat)
    requires i < |logs| && logs[i].number <= upTo && Reclaimable(o, logs[i], last)
    ensures j < |Released(o, logs, upTo, last)| && Released(o, logs, upTo, last)[j] == logs[i]
    decreases |logs|
  {
    if i < |logs| - 1 {
      j := ReleasedHas(o, logs[..|logs| - 1], upTo, last, i);
    } else {
      j := |Released(o, logs, upTo, last)| - 1;
    }
  }

  lemma EndKeepsTarget(o: Options, s: State, id': nat, ok: bool, id: nat, n: nat, p: nat)
    requires Inv(s) && Target(s, id, n, p) && id' in s.syncs && id' != id
    ensures Target(Ended(o, s, id', ok), id, n, p)
  {
    hide Kept, Marks, DurableOk, Finished, Released, Ranges;
    var i: nat :| TargetAt(s.core.logs, i, n, p);
    var sync := s.syncs[id'];
    assert n !in sync.owned;
    var logs := Publish(s.core.logs, sync.closed);
    assert logs[i].number > sync.upTo;
    if ok {
      var j := FinishedHas(o, logs, sync.upTo, logs[|logs| - 1].number, i);
      assert TargetAt(Finished(o, logs, sync.upTo, logs[|logs| - 1].number), j, n, p);
    } else {
      assert TargetAt(Unmarked(logs, sync.upTo), i, n, p);
    }
  }

  lemma StepKeepsTarget(o: Options, s: State, step: Step, id: nat, n: nat, p: nat)
    requires Inv(s) && Enabled(s, step) && Target(s, id, n, p)
    requires !(step.Finish? && step.id == id)
    ensures Target(Apply(o, s, step), id, n, p)
  {
    hide Inv, Started, Ended, TargetAt;
    match step
    case Call(_, _) =>
    case Refuse(_) =>
    case Begin(id') =>
      ServedInv(s, id');
      StartKeepsTarget(Served(s, id'), id', s.waiting[id'], !s.core.dirSynced, false, id, n, p);
    case BeginWrite(id', wantDir) =>
      FrontListed(s);
      StartKeepsTarget(s, id', Current(s), wantDir && !s.core.dirSynced, true, id, n, p);
    case SyncFile(_, number) =>
      ElementsKeepTarget(s, SyncedFile(s.core.logs, number), n, p);
    case SyncDir(_) =>
    case Finish(id', ok) =>
      EndKeepsTarget(o, s, id', ok, id, n, p);
    case Switch(number) =>
      LongerKeepsTarget(s.core.logs, Wal(number, false, 0, true, 0, 0), n, p);
    case Write(bytes) =>
      ElementsKeepTarget(s, Written(s.core.logs, bytes), n, p);
  }

  /** The head of the list is there, and not behind the active log. */
  lemma FrontListed(s: State)
    requires Inv(s)
    ensures s.core.logs != [] && s.core.logs[0].number <= s.core.cur
  {
  }

  lemma ServedInv(s: State, id: nat)
    requires Inv(s)
    ensures Inv(Served(s, id)) && s.core.logs != []
  {
    hide OwnersOk, DurableOk;
    StillDurable(s, id);
  }

  lemma LongerKeepsTarget(logs: seq<Wal>, w: Wal, n: nat, p: nat)
    requires exists i :: TargetAt(logs, i, n, p)
    ensures exists i :: TargetAt(logs + [w], i, n, p)
  {
    var i: nat :| TargetAt(logs, i, n, p);
    assert TargetAt(logs + [w], i, n, p);
  }

  lemma ElementsKeepTarget(s: State, logs': seq<Wal>, n: nat, p: nat)
    requires Inv(s) && exists i :: TargetAt(s.core.logs, i, n, p)
    requires |logs'| == |s.core.logs|
    requires forall i :: 0 <= i < |logs'| ==>
      && logs'[i].number == s.core.logs[i].number && logs'[i].preSync == s.core.logs[i].preSync
      && (logs'[i].synced == s.core.logs[i].synced || logs'[i].synced == s.core.logs[i].flushed)
    ensures exists i :: TargetAt(logs', i, n, p)
  {
    hide OwnersOk, ListOk, ProgressOk, FreedOk, DirOk;
    var i: nat :| TargetAt(s.core.logs, i, n, p);
    assert TargetAt(logs', i, n, p);
  }

  /** The first p bytes of log n are durable, whether it is still listed or freed. */
  ghost predicate Durable(s: State, n: nat, p: nat) {
    || (exists i :: 0 <= i < |s.core.logs| && s.core.logs[i].number == n && s.core.logs[i].synced >= p)
    || (exists i :: 0 <= i < |s.core.freed| && s.core.freed[i].number == n && s.core.freed[i].synced >= p)
  }

  lemma EndMakesDurable(o: Options, s: State, id: nat, n: nat, p: nat)
    requires Inv(s) && Enabled(s, Finish(id, true)) && Target(s, id, n, p)
    ensures Durable(Ended(o, s, id, true), n, p)
  {
    hide Kept, Marks, Disjoint, Finished, Released, Ranges, DirOk, FreedOk;
    var i: nat :| TargetAt(s.core.logs, i, n, p);
    var sync := s.syncs[id];
    assert s.core.logs[i].number in sync.owned - sync.todo;
    var logs := Publish(s.core.logs, sync.closed);
    var last := logs[|logs| - 1].number;
    var t := Ended(o, s, id, true);
    if Reclaimable(o, logs[i], last) {
      var j := ReleasedHas(o, logs, sync.upTo, last, i);
      assert t.core.freed[|s.core.freed| + j] == logs[i];
    } else {
      var j := FinishedHas(o, logs, sync.upTo, last, i);
      assert t.core.logs[j].synced >= p;
    }
  }

  lemma {:induction false} TargetUntilEnd(o: Options, first: nat, steps: seq<Step>, states: seq<State>, a: nat, b: nat,
                                          id: nat, n: nat, p: nat)
    requires Run(o, first, steps, states) && first > 0 && a <= b < |states|
    requires Target(states[a], id, n, p)
    requires forall k :: a <= k < b ==> !(steps[k].Finish? && steps[k].id == id)
    ensures Target(states[b], id, n, p)
    decreases b
  {
    hide Target, Apply, Inv;
    if a < b {
      TargetUntilEnd(o, first, steps, states, a, b - 1, id, n, p);
      RunKeepsInv(o, first, steps, states, b - 1);
      StepKeepsTarget(o, states[b - 1], steps[b - 1], id, n, p);
    }
  }

  // ----- from the call on -----

  /** The first p bytes of log n are in a file: it is listed, or freed and durable. */
  ghost predicate InFile(s: State, n: nat, p: nat) {
    || (exists i :: ListedWith(s.core.logs, i, n, p))
    || FreedWith(s.core.freed, n, p)
  }

  ghost predicate ListedWith(logs: seq<Wal>, i: nat, n: nat, p: nat) {
    i < |logs| && logs[i].number == n && logs[i].flushed >= p
  }

  ghost predicate FreedWith(freed: seq<Wal>, n: nat, p: nat) {
    exists i :: 0 <= i < |freed| && freed[i].number == n && freed[i].synced >= p
  }

  lemma StillFreed(a: seq<Wal>, b: seq<Wal>, n: nat, p: nat)
    requires FreedWith(a, n, p)
    ensures FreedWith(a + b, n, p)
  {
    var i :| 0 <= i < |a| && a[i].number == n && a[i].synced >= p;
    assert (a + b)[i] == a[i];
  }

  lemma StepKeepsFreed(o: Options, s: State, step: Step, n: nat, p: nat)
    requires Enabled(s, step) && FreedWith(s.core.freed, n, p)
    ensures FreedWith(Apply(o, s, step).core.freed, n, p)
  {
    hide FreedWith, Released, Finished, Unmarked, Prepare, SyncedFile, Written, Publish;
    if step.Finish? && step.ok {
      var sync := s.syncs[step.id];
      var logs := Publish(s.core.logs, sync.closed);
      StillFreed(s.core.freed, Released(o, logs, sync.upTo, logs[|logs| - 1].number), n, p);
    }
  }

  /** Same logs, sizes no smaller. */
  ghost predicate Grown(a: seq<Wal>, b: seq<Wal>) {
    |a| <= |b| && forall i :: 0 <= i < |a| ==> b[i].number == a[i].number && b[i].flushed >= a[i].flushed
  }

  lemma GrownKeeps(a: seq<Wal>, b: seq<Wal>, i: nat, n: nat, p: nat)
    requires Grown(a, b) && ListedWith(a, i, n, p)
    ensures ListedWith(b, i, n, p)
  {
  }

  lemma PrepareGrows(logs: seq<Wal>, upTo: nat, number: nat, bytes: nat, closed: set<nat>, w: Wal)
    ensures Grown(logs, Prepare(logs, upTo)) && Grown(logs, SyncedFile(logs, number))
    ensures Grown(logs, Written(logs, bytes)) && Grown(logs, logs + [w])
    ensures Grown(logs, Unmarked(Publish(logs, closed), upTo)) && Grown(logs, Publish(logs, closed))
  {
  }

  /** A successful end frees the log durably, or leaves it listed. */
  lemma EndKeepsListed(o: Options, s: State, id: nat, i: nat, n: nat, p: nat)
    requires Inv(s) && Enabled(s, Finish(id, true)) && ListedWith(s.core.logs, i, n, p)
    ensures InFile(Ended(o, s, id, true), n, p)
  {
    hide OwnersOk, Finished, Released, LogsOk, ProgressOk, DirOk;
    var sync := s.syncs[id];
    var logs := Publish(s.core.logs, sync.closed);
    var last := logs[|logs| - 1].number;
    var t := Ended(o, s, id, true);
    EndKeepsDurable(o, s, id, true);
    if n <= sync.upTo && Reclaimable(o, logs[i], last) {
      var j := ReleasedHas(o, logs, sync.upTo, last, i);
      assert t.core.freed[|s.core.freed| + j] == logs[i];
      assert logs[i].synced == logs[i].flushed;
    } else {
      var j := FinishedHas(o, logs, sync.upTo, last, i);
      assert ListedWith(t.core.logs, j, n, p);
    }
  }

  lemma StepKeepsListed(o: Options, s: State, step: Step, i: nat, n: nat, p: nat)
    requires Inv(s) && Enabled(s, step) && ListedWith(s.core.logs, i, n, p)
    ensures InFile(Apply(o, s, step), n, p)
  {
    hide Inv, ListedWith, FreedWith, Grown, Prepare, SyncedFile, Written, Unmarked, Publish, Finished, Released;
    if step.Finish? && step.ok {
      EndKeepsListed(o, s, step.id, i, n, p);
    } else {
      var t := Apply(o, s, step);
      var upTo := if step.Begin? then s.waiting[step.id].upTo else if step.Finish? then s.syncs[step.id].upTo
                  else s.core.cur;
      var number := if step.SyncFile? || step.Switch? then step.number else 0;
      var bytes := if step.Write? then step.bytes else 0;
      var closed := if step.Finish? then s.syncs[step.id].closed else {};
      PrepareGrows(s.core.logs, upTo, number, bytes, closed, Wal(number, false, 0, true, 0, 0));
      if Grown(s.core.logs, t.core.logs) {
        GrownKeeps(s.core.logs, t.core.logs, i, n, p);
      }
    }
  }

  lemma StepKeepsInFile(o: Options, s: State, step: Step, n: nat, p: nat)
    requires Inv(s) && Enabled(s, step) && InFile(s, n, p)
    ensures InFile(Apply(o, s, step), n, p)
  {
    hide Inv, Apply, Enabled, ListedWith, FreedWith;
    if FreedWith(s.core.freed, n, p) {
      StepKeepsFreed(o, s, step, n, p);
    } else {
      var i: nat :| ListedWith(s.core.logs, i, n, p);
      StepKeepsListed(o, s, step, i, n, p);
    }
  }

  lemma {:induction false} InFileLater(o: Options, first: nat, steps: seq<Step>, states: seq<State>, a: nat, b: nat,
                                       n: nat, p: nat)
    requires Run(o, first, steps, states) && first > 0 && a <= b < |states| && InFile(states[a], n, p)
    ensures InFile(states[b], n, p)
    decreases b
  {
    hide InFile, Apply, Inv;
    if a < b {
      InFileLater(o, first, steps, states, a, b - 1, n, p);
      RunKeepsInv(o, first, steps, states, b - 1);
      StepKeepsInFile(o, states[b - 1], steps[b - 1], n, p);
    }
  }

  lemma {:induction false} FreedLater(o: Options, first: nat, steps: seq<Step>, states: seq<State>, a: nat, b: nat,
                                      n: nat, p: nat)
    requires Run(o, first, steps, states) && a <= b < |states| && FreedWith(states[a].core.freed, n, p)
    ensures FreedWith(states[b].core.freed, n, p)
    decreases b
  {
    hide FreedWith, Apply;
    if a < b {
      FreedLater(o, first, steps, states, a, b - 1, n, p);
      StepKeepsFreed(o, states[b - 1], steps[b - 1], n, p);
    }
  }

  /** What sync `id` covers if it marks its logs in this step. */
  function Covering(s: State, step: Step): Waiting
    requires Enabled(s, step) && (step.Begin? || step.BeginWrite?)
  {
    if step.Begin? then s.waiting[step.id] else Current(s)
  }

  /** Sync `id` marks its logs in step a and ends successfully in step b. */
  ghost predicate Succeeds(o: Options, first: nat, steps: seq<Step>, states: seq<State>, a: nat, b: nat, id: nat) {
    && Run(o, first, steps, states) && first > 0 && a < b < |steps|
    && (steps[a].Begin? || steps[a].BeginWrite?) && steps[a].id == id
    && steps[b] == Finish(id, true)
    && forall k :: a < k < b ==> !(steps[k].Finish? && steps[k].id == id)
  }

  /** All that was flushed to the logs it covers when it marked them is durable. */
  lemma MarkedIsDurable(o: Options, first: nat, steps: seq<Step>, states: seq<State>, a: nat, b: nat, id: nat, i: nat)
    requires Succeeds(o, first, steps, states, a, b, id)
    requires i < |states[a].core.logs| && states[a].core.logs[i].number <= Covering(states[a], steps[a]).upTo
    ensures Durable(states[b + 1], states[a].core.logs[i].number, states[a].core.logs[i].flushed)
  {
    hide Target, Inv, Started, Ended, Durable;
    var s := states[a];
    RunKeepsInv(o, first, steps, states, a);
    if steps[a].Begin? {
      ServedInv(s, id);
      StartSetsTarget(Served(s, id), id, s.waiting[id], !s.core.dirSynced, false, i);
    } else {
      StartSetsTarget(s, id, Current(s), steps[a].wantDir && !s.core.dirSynced, true, i);
    }
    TargetUntilEnd(o, first, steps, states, a + 1, b, id, s.core.logs[i].number, s.core.logs[i].flushed);
    RunKeepsInv(o, first, steps, states, b);
    EndMakesDurable(o, states[b], id, s.core.logs[i].number, s.core.logs[i].flushed);
  }

  /** So is all that was flushed to them at any time before, although a log may have been freed since. */
  lemma CoveredIsDurable(o: Options, first: nat, steps: seq<Step>, states: seq<State>, c: nat, a: nat, b: nat,
                         id: nat, i: nat)
    requires Succeeds(o, first, steps, states, a, b, id) && c <= a
    requires i < |states[c].core.logs| && states[c].core.logs[i].number <= Covering(states[a], steps[a]).upTo
    ensures Durable(states[b + 1], states[c].core.logs[i].number, states[c].core.logs[i].flushed)
  {
    hide Inv, Covering, Apply, Enabled;
    var n, p := states[c].core.logs[i].number, states[c].core.logs[i].flushed;
    assert ListedWith(states[c].core.logs, i, n, p);
    InFileLater(o, first, steps, states, c, a, n, p);
    if FreedWith(states[a].core.freed, n, p) {
      FreedLater(o, first, steps, states, a, b + 1, n, p);
    } else {
      var j: nat :| ListedWith(states[a].core.logs, j, n, p);
      MarkedIsDurable(o, first, steps, states, a, b, id, j);
    }
  }

  /** A call keeps its numbers while it waits. */
  lemma {:induction false} NumbersKept(o: Options, first: nat, steps: seq<Step>, states: seq<State>, c: nat, a: nat,
                                       id: nat, w: Waiting)
    requires Run(o, first, steps, states) && c <= a < |states|
    requires id in states[c].waiting && states[c].waiting[id] == w
    requires forall k :: c <= k < a ==> !((steps[k].Begin? || steps[k].Refuse?) && steps[k].id == id)
    ensures id in states[a].waiting && states[a].waiting[id] == w
    decreases a
  {
    hide Prepare, SyncedFile, Written, Unmarked, Publish, Finished, Released;
    if c < a {
      NumbersKept(o, first, steps, states, c, a - 1, id, w);
    }
  }

  /** In every run, a sync called in step c that marks its logs in step a and succeeds in step b has made
      durable all that was flushed to the logs it covers when it was called, and their directory entries,
      whatever ran meanwhile: a new log may have become active and covered ones freed while it waited. */
  lemma SyncIsDurable(o: Options, first: nat, steps: seq<Step>, states: seq<State>, c: nat, a: nat, b: nat,
                      id: nat, includeCurrent: bool)
    requires Succeeds(o, first, steps, states, a, b, id) && c < a
    requires steps[c] == Call(id, includeCurrent) && steps[a] == Begin(id)
    requires forall k :: c < k < a ==> !((steps[k].Begin? || steps[k].Refuse?) && steps[k].id == id)
    ensures states[c].core.cur > 0
    ensures var logs := states[c].core.logs;
            forall i :: 0 <= i < |logs| && logs[i].number <= UpTo(states[c], includeCurrent) ==>
              Durable(states[b + 1], logs[i].number, logs[i].flushed)
    ensures states[b + 1].dirUpTo >= UpTo(states[c], includeCurrent)
  {
    hide Prepare, SyncedFile, Written, Unmarked, Publish, Finished, Released, Durable;
    var w := Waiting(UpTo(states[c], includeCurrent), states[c].core.cur);
    NumbersKept(o, first, steps, states, c + 1, a, id, w);
    forall i | 0 <= i < |states[c].core.logs| && states[c].core.logs[i].number <= w.upTo
      ensures Durable(states[b + 1], states[c].core.logs[i].number, states[c].core.logs[i].flushed)
    {
      CoveredIsDurable(o, first, steps, states, c, a, b, id, i);
    }
    CoverKept(o, first, steps, states, a + 1, b, id);
    RunKeepsInv(o, first, steps, states, b);
  }

  /** In every run a call covers every inactive log listed then, and the active one exactly if it was asked to. Only
      such a call can be refused, once the head lets it go on. */
  lemma CallCovers(o: Options, first: nat, steps: seq<Step>, states: seq<State>, c: nat, id: nat, includeCurrent: bool)
    requires Run(o, first, steps, states) && first > 0 && c < |steps| && steps[c] == Call(id, includeCurrent)
    ensures var s, t := states[c].core, states[c + 1];
            && id in t.waiting && t.waiting[id].active == s.cur && t.core == s && s.logs != []
            && (forall i :: 0 <= i < |s.logs| ==>
                  (s.logs[i].number <= t.waiting[id].upTo <==> includeCurrent || s.logs[i].number != s.cur))
            && (Enabled(t, Refuse(id))
                <==> includeCurrent && !(s.logs[0].syncing && s.logs[0].number <= t.waiting[id].upTo))
  {
    RunKeepsInv(o, first, steps, states, c);
    forall i | 0 <= i < |states[c].core.logs|
      ensures states[c].core.logs[i].number <= states[c].core.cur
    {
      NumberBelowActive(states[c], i);
    }
  }

  lemma StepKeepsCover(o: Options, s: State, step: Step, id: nat)
    requires Enabled(s, step) && id in s.syncs && !(step.Finish? && step.id == id)
    ensures var t := Apply(o, s, step);
            id in t.syncs && SameCover(t.syncs[id], s.syncs[id]) && t.syncs[id].needDir == s.syncs[id].needDir
  {
    hide Prepare, SyncedFile, Written, Unmarked, Publish, Finished, Released;
  }

  /** What a running sync covers does not change. */
  lemma {:induction false} CoverKept(o: Options, first: nat, steps: seq<Step>, states: seq<State>, a: nat, b: nat,
                                     id: nat)
    requires Run(o, first, steps, states) && a <= b < |states| && id in states[a].syncs
    requires forall k :: a <= k < b ==> !(steps[k].Finish? && steps[k].id == id)
    ensures id in states[b].syncs && SameCover(states[b].syncs[id], states[a].syncs[id])
    ensures states[b].syncs[id].needDir == states[a].syncs[id].needDir
    decreases b
  {
    hide Apply, Enabled;
    if a < b {
      CoverKept(o, first, steps, states, a, b - 1, id);
      StepKeepsCover(o, states[b - 1], steps[b - 1], id);
    }
  }

  /** A sync in the write path has made durable all that was ever flushed to any log before it marked them. */
  lemma WriteSyncIsDurable(o: Options, first: nat, steps: seq<Step>, states: seq<State>, c: nat, a: nat, b: nat,
                           id: nat, i: nat)
    requires Succeeds(o, first, steps, states, a, b, id) && steps[a].BeginWrite? && c <= a
    requires i < |states[c].core.logs|
    ensures Durable(states[b + 1], states[c].core.logs[i].number, states[c].core.logs[i].flushed)
  {
    hide Durable, Apply, Enabled;
    RunKeepsInv(o, first, steps, states, c);
    ActiveGrows(o, first, steps, states, c, a);
    NumberBelowActive(states[c], i);
    CoveredIsDurable(o, first, steps, states, c, a, b, id, i);
  }

  lemma NumberBelowActive(s: State, i: nat)
    requires Inv(s) && i < |s.core.logs|
    ensures s.core.logs[i].number <= s.core.cur
  {
    hide OwnersOk, DurableOk;
  }

  lemma {:induction false} ActiveGrows(o: Options, first: nat, steps: seq<Step>, states: seq<State>, a: nat, b: nat)
    requires Run(o, first, steps, states) && a <= b < |states|
    ensures states[a].core.cur <= states[b].core.cur
    decreases b
  {
    hide Prepare, SyncedFile, Written, Unmarked, Publish, Finished, Released;
    if a < b {
      ActiveGrows(o, first, steps, states, a, b - 1);
    }
  }

  // ----- what a successful sync frees -----

  /** A sync that closes inactive logs itself has closed those it is done with, and one that found the
      directory synced still does while the same log is active. */
  ghost predicate EndsOk(o: Options, s: State) {
    && (o.closeInternally ==> ClosedOk(s.core.logs, s.syncs))
    && (forall id :: id in s.syncs && !s.syncs[id].needDir && !s.syncs[id].writer ==>
          (s.syncs[id].active == s.core.cur ==> s.core.dirSynced))
  }

  ghost predicate ClosedOk(logs: seq<Wal>, syncs: map<nat, Sync>) {
    forall id, i :: id in syncs && 0 <= i < |logs| && logs[i].number in syncs[id].owned - syncs[id].todo
                    && logs[i].number < syncs[id].active ==>
      logs[i].number in syncs[id].closed || !logs[i].open
  }

  lemma StartKeepsEnds(o: Options, s: State, id: nat, w: Waiting, needDir: bool, writer: bool)
    requires EndsOk(o, s) && id !in s.syncs && (needDir || writer || s.core.dirSynced)
    ensures EndsOk(o, Started(s, id, w, needDir, writer))
  {
    var t := Started(s, id, w, needDir, writer);
    forall i | 0 <= i < |t.core.logs| && t.core.logs[i].number in t.syncs[id].owned - t.syncs[id].todo
      ensures !t.core.logs[i].open
    {
      assert s.core.logs[i].number <= w.upTo;
    }
  }

  lemma EndKeepsEnds(o: Options, s: State, id: nat, ok: bool)
    requires EndsOk(o, s) && Enabled(s, Finish(id, ok))
    ensures EndsOk(o, Ended(o, s, id, ok))
  {
    hide Finished, Released;
    var sync := s.syncs[id];
    var logs := Publish(s.core.logs, sync.closed);
    var last := logs[|logs| - 1].number;
    if o.closeInternally {
      PublishKeepsClosed(s.core.logs, s.syncs, sync.closed);
      FewerClosed(logs, s.syncs, id);
      FinishedKeepsClosed(o, logs, s.syncs - {id}, sync.upTo, last);
    }
  }

  lemma PublishKeepsClosed(logs: seq<Wal>, syncs: map<nat, Sync>, closed: set<nat>)
    requires ClosedOk(logs, syncs)
    ensures ClosedOk(Publish(logs, closed), syncs)
  {
  }

  lemma FewerClosed(logs: seq<Wal>, syncs: map<nat, Sync>, id: nat)
    requires ClosedOk(logs, syncs)
    ensures ClosedOk(logs, syncs - {id})
  {
  }

  lemma FinishedKeepsClosed(o: Options, logs: seq<Wal>, syncs: map<nat, Sync>, upTo: nat, last: nat)
    requires ClosedOk(logs, syncs)
    ensures ClosedOk(Finished(o, logs, upTo, last), syncs) && ClosedOk(Unmarked(logs, upTo), syncs)
  {
    hide Finished;
    var f := Finished(o, logs, upTo, last);
    forall id, j | id in syncs && 0 <= j < |f| && f[j].number in syncs[id].owned - syncs[id].todo
                   && f[j].number < syncs[id].active
      ensures f[j].number in syncs[id].closed || !f[j].open
    {
      var i := FinishedFrom(o, logs, upTo, last, j);
    }
  }

  lemma StepKeepsEnds(o: Options, s: State, step: Step)
    requires Inv(s) && EndsOk(o, s) && Enabled(s, step)
    ensures EndsOk(o, Apply(o, s, step))
  {
    hide Covers, Marks, Disjoint, DurableOk, Started, Ended;
    match step
    case Call(id, _) =>
    case Refuse(id) =>
    case Begin(id) =>
      StartKeepsEnds(o, Served(s, id), id, s.waiting[id], !s.core.dirSynced, false);
    case BeginWrite(id, wantDir) =>
      StartKeepsEnds(o, s, id, Current(s), wantDir && !s.core.dirSynced, true);
    case SyncFile(id, number) =>
    case SyncDir(id) =>
    case Finish(id, ok) =>
      EndKeepsEnds(o, s, id, ok);
    case Switch(number) =>
      SwitchKeepsEnds(o, s, number);
    case Write(bytes) =>
  }

  lemma SwitchKeepsEnds(o: Options, s: State, number: nat)
    requires Inv(s) && EndsOk(o, s) && Enabled(s, Switch(number))
    ensures EndsOk(o, Apply(o, s, Switch(number)))
  {
    hide Covers, Marks, Disjoint, DurableOk;
    assert !Listed(s.core.logs, number);
    assert forall id :: id in s.syncs ==> number !in s.syncs[id].owned;
  }

  lemma {:induction false} RunKeepsEnds(o: Options, first: nat, steps: seq<Step>, states: seq<State>, k: nat)
    requires Run(o, first, steps, states) && k < |states| && first > 0
    ensures EndsOk(o, states[k])
    decreases k
  {
    hide Inv, EndsOk, Apply;
    if k == 0 {
      NoSyncs(o, first);
    } else {
      RunKeepsEnds(o, first, steps, states, k - 1);
      RunKeepsInv(o, first, steps, states, k - 1);
      StepKeepsEnds(o, states[k - 1], steps[k - 1]);
    }
  }

  lemma NoSyncs(o: Options, first: nat)
    ensures EndsOk(o, Initial(first))
  {
  }

  ghost predicate Freed(freed: seq<Wal>, n: nat) {
    exists i :: 0 <= i < |freed| && freed[i].number == n
  }

  /** Which logs a successful end frees: exactly the inactive ones it covers that are closed, by this sync or
      before, or that may be closed in the background and were synced to their end. */
  lemma EndFrees(o: Options, s: State, id: nat, i: nat)
    requires Inv(s) && Enabled(s, Finish(id, true)) && i < |s.core.logs|
    ensures var t := Ended(o, s, id, true);
            var w, sync := s.core.logs[i], s.syncs[id];
            var ripe := || !w.open || w.number in sync.closed
                        || (o.backgroundClose && w.preSync == w.flushed);
            if w.number <= sync.upTo && w.number < s.core.cur && ripe
            then Freed(t.core.freed, w.number) && !Listed(t.core.logs, w.number)
            else Listed(t.core.logs, w.number)
  {
    hide OwnersOk, DurableOk, Finished, Released;
    var w, sync := s.core.logs[i], s.syncs[id];
    var logs := Publish(s.core.logs, sync.closed);
    var last := logs[|logs| - 1].number;
    var t := Ended(o, s, id, true);
    if w.number <= sync.upTo && Reclaimable(o, logs[i], last) {
      var j := ReleasedHas(o, logs, sync.upTo, last, i);
      assert t.core.freed[|s.core.freed| + j].number == w.number;
      NotListed(o, logs, sync.upTo, last, i);
    } else {
      var j := FinishedHas(o, logs, sync.upTo, last, i);
      assert t.core.logs[j].number == w.number;
    }
  }

  lemma {:induction false} NotListed(o: Options, logs: seq<Wal>, upTo: nat, last: nat, i: nat)
    requires Ascending(logs) && i < |logs| && logs[i].number <= upTo && Reclaimable(o, logs[i], last)
    ensures !Listed(Finished(o, logs, upTo, last), logs[i].number)
    decreases |logs|
  {
    var f := Finished(o, logs, upTo, last);
    forall j | 0 <= j < |f| ensures f[j].number != logs[i].number {
      var k := ReclaimedAway(o, logs, upTo, last, j);
      assert k != i;
      assert k < i || i < k;
    }
  }

  lemma {:induction false} ReclaimedAway(o: Options, logs: seq<Wal>, upTo: nat, last: nat, j: nat) returns (i: nat)
    requires j < |Finished(o, logs, upTo, last)|
    ensures i < |logs| && Finished(o, logs, upTo, last)[j].number == logs[i].number
    ensures !(logs[i].number <= upTo && Reclaimable(o, logs[i], last))
    decreases |logs|
  {
    var front := logs[..|logs| - 1];
    if j < |Finished(o, front, upTo, last)| {
      i := ReclaimedAway(o, front, upTo, last, j);
    } else {
      i := |logs| - 1;
    }
  }

  /** In every run, after a sync has succeeded: of the inactive logs it covers only those are still listed that
      are open and, if logs may be closed in the background, were written since they were marked; none of
      them is marked. A sync that closes logs itself has freed every log it marked that was inactive when it
      was called. If it covers the active log, the directory is known to be synced. */
  lemma SuccessFrees(o: Options, first: nat, steps: seq<Step>, states: seq<State>, b: nat, id: nat)
    requires Run(o, first, steps, states) && first > 0 && b < |steps| && steps[b] == Finish(id, true)
    ensures id in states[b].syncs
    ensures var sync, t := states[b].syncs[id], states[b + 1];
            && (forall i :: 0 <= i < |t.core.logs| && t.core.logs[i].number <= sync.upTo ==> !t.core.logs[i].syncing)
            && (forall i :: 0 <= i < |t.core.logs| && t.core.logs[i].number <= sync.upTo
                            && t.core.logs[i].number < t.core.cur ==>
                  t.core.logs[i].open && !(o.backgroundClose && t.core.logs[i].preSync == t.core.logs[i].flushed))
            && (o.closeInternally ==> forall n :: n in sync.owned && n < sync.active ==>
                  Freed(t.core.freed, n) && !Listed(t.core.logs, n))
            && (sync.upTo == t.core.cur && (sync.needDir || !sync.writer) ==> t.core.dirSynced)
  {
    hide OwnersOk, DurableOk, Finished, Released, EndsOk;
    var s := states[b];
    RunKeepsInv(o, first, steps, states, b);
    RunKeepsEnds(o, first, steps, states, b);
    LeftInList(o, s, id);
    if o.closeInternally {
      forall n | n in s.syncs[id].owned && n < s.syncs[id].active
        ensures Freed(states[b + 1].core.freed, n) && !Listed(states[b + 1].core.logs, n)
      {
        OwnIsFreed(o, s, id, n);
      }
    }
    KnowsDirectory(o, s, id);
  }

  /** A sync that fails frees nothing, unmarks what it marked and says nothing about the directory. */
  lemma FailureFreesNothing(o: Options, first: nat, steps: seq<Step>, states: seq<State>, b: nat, id: nat)
    requires Run(o, first, steps, states) && b < |steps| && steps[b] == Finish(id, false)
    ensures id in states[b].syncs
    ensures var sync, logs, t := states[b].syncs[id], states[b].core.logs, states[b + 1].core;
            && t.freed == states[b].core.freed && t.dirSynced == states[b].core.dirSynced && |t.logs| == |logs|
            && forall i :: 0 <= i < |logs| ==>
                 && t.logs[i] == logs[i].(syncing := t.logs[i].syncing, open := t.logs[i].open)
                 && (t.logs[i].syncing <==> logs[i].syncing && logs[i].number > sync.upTo)
                 && (t.logs[i].open <==> logs[i].open && logs[i].number !in sync.closed)
  {
    hide Finished, Released;
  }

  lemma LeftInList(o: Options, s: State, id: nat)
    requires Inv(s) && Enabled(s, Finish(id, true))
    ensures var sync, t := s.syncs[id], Ended(o, s, id, true);
            && (forall i :: 0 <= i < |t.core.logs| && t.core.logs[i].number <= sync.upTo ==> !t.core.logs[i].syncing)
            && (forall i :: 0 <= i < |t.core.logs| && t.core.logs[i].number <= sync.upTo
                            && t.core.logs[i].number < s.core.cur ==>
                  t.core.logs[i].open && !(o.backgroundClose && t.core.logs[i].preSync == t.core.logs[i].flushed))
  {
    hide OwnersOk, DurableOk, Finished, Released;
    var sync, t := s.syncs[id], Ended(o, s, id, true);
    var logs := Publish(s.core.logs, sync.closed);
    var last := logs[|logs| - 1].number;
    forall j | 0 <= j < |t.core.logs| && t.core.logs[j].number <= sync.upTo
      ensures !t.core.logs[j].syncing
      ensures t.core.logs[j].number < s.core.cur ==>
        t.core.logs[j].open && !(o.backgroundClose && t.core.logs[j].preSync == t.core.logs[j].flushed)
    {
      var i := StaysFor(o, logs, sync.upTo, last, j);
    }
  }

  /** A log that stays is unmarked, and active or open and not known to be synced to its end. */
  lemma {:induction false} StaysFor(o: Options, logs: seq<Wal>, upTo: nat, last: nat, j: nat) returns (i: nat)
    requires j < |Finished(o, logs, upTo, last)|
    ensures i < |logs| && Finished(o, logs, upTo, last)[j] == AfterSync(logs[i], upTo)
    ensures logs[i].number <= upTo && logs[i].number < last ==>
              logs[i].open && !(o.backgroundClose && logs[i].preSync == logs[i].flushed)
    decreases |logs|
  {
    var front := logs[..|logs| - 1];
    if j < |Finished(o, front, upTo, last)| {
      i := StaysFor(o, front, upTo, last, j);
    } else {
      i := |logs| - 1;
    }
  }

  lemma OwnIsFreed(o: Options, s: State, id: nat, n: nat)
    requires Inv(s) && EndsOk(o, s) && Enabled(s, Finish(id, true)) && o.closeInternally
    requires n in s.syncs[id].owned && n < s.syncs[id].active
    ensures Freed(Ended(o, s, id, true).core.freed, n) && !Listed(Ended(o, s, id, true).core.logs, n)
  {
    hide Marks, Disjoint, DurableOk, Ended;
    assert Listed(s.core.logs, n);
    var i :| 0 <= i < |s.core.logs| && s.core.logs[i].number == n;
    EndFrees(o, s, id, i);
  }

  lemma KnowsDirectory(o: Options, s: State, id: nat)
    requires Inv(s) && EndsOk(o, s) && Enabled(s, Finish(id, true))
    ensures var sync := s.syncs[id];
            sync.upTo == s.core.cur && (sync.needDir || !sync.writer) ==> Ended(o, s, id, true).core.dirSynced
  {
    hide Covers, Kept, Marks, Disjoint, DurableOk, Finished, Released;
  }

  // ----- a call that is overtaken -----

  const OVERTAKEN: Wal := Wal(1, true, 5, true, 5, 5)
  const NEXT: Wal := Wal(2, false, 0, true, 0, 0)
  const BACKGROUND_CLOSE: Options := Options(true, false)

  lemma OneLog(w: Wal)
    ensures NumbersUpTo([w], w.number) == {w.number}
    ensures w.open ==> OpenUpTo([w], w.number) == {w.number}
    ensures Prepare([w], w.number) == [Prepared(w)]
  {
    assert [w][0].number in NumbersUpTo([w], w.number);
    assert w.open ==> [w][0].number in OpenUpTo([w], w.number);
  }

  /** The first sync marks log 1 while a second call arrives. */
  lemma FirstMarks(s: State, w: Wal)
    requires s == State(Core([w], [], false, 1), map[], map[0 := Waiting(1, 1)], 0)
    requires w == Wal(1, false, 0, true, 5, 0)
    ensures Enabled(s, Begin(0))
    ensures Apply(BACKGROUND_CLOSE, s, Begin(0))
         == State(Core([Wal(1, true, 5, true, 5, 0)], [], false, 1),
                  map[0 := Sync(1, 1, true, false, {1}, {1}, {}, false)], map[], 0)
  {
    hide Prepare, NumbersUpTo, OpenUpTo;
    OneLog(w);
    assert s.waiting - {0} == map[];
  }

  lemma FirstSyncs(s: State, sync: Sync)
    requires sync == Sync(1, 1, true, false, {1}, {1}, {}, false)
    requires s == State(Core([OVERTAKEN.(synced := 0), NEXT], [], false, 2), map[0 := sync], s.waiting, 0)
    ensures Enabled(s, SyncFile(0, 1))
    ensures Apply(BACKGROUND_CLOSE, s, SyncFile(0, 1))
         == s.(core := Core([OVERTAKEN, NEXT], [], false, 2), syncs := map[0 := sync.(todo := {})])
  {
    assert SyncedFile(s.core.logs, 1) == [OVERTAKEN, NEXT];
    assert sync.todo - {1} == {};
  }

  lemma TwoLogs()
    ensures Finished(BACKGROUND_CLOSE, [OVERTAKEN, NEXT], 1, 2) == [NEXT]
    ensures Released(BACKGROUND_CLOSE, [OVERTAKEN, NEXT], 1, 2) == [OVERTAKEN]
    ensures Finished(BACKGROUND_CLOSE, [NEXT], 1, 2) == [NEXT] && Released(BACKGROUND_CLOSE, [NEXT], 1, 2) == []
  {
    assert [OVERTAKEN, NEXT][..1] == [OVERTAKEN] && [OVERTAKEN][..0] == [] && [NEXT][..0] == [];
    assert Finished(BACKGROUND_CLOSE, [OVERTAKEN], 1, 2) == [];
    assert Released(BACKGROUND_CLOSE, [OVERTAKEN], 1, 2) == [OVERTAKEN];
  }

  /** Its end frees log 1. */
  lemma FirstEnds(s: State, sync: Sync)
    requires sync == Sync(1, 1, true, true, {1}, {}, {}, false)
    requires s == State(Core([OVERTAKEN, NEXT], [], false, 2), map[0 := sync], s.waiting, 2)
    ensures Enabled(s, Finish(0, true))
    ensures Apply(BACKGROUND_CLOSE, s, Finish(0, true))
         == s.(core := Core([NEXT], [OVERTAKEN], false, 2), syncs := map[])
  {
    hide Finished, Released;
    TwoLogs();
    assert Publish(s.core.logs, {}) == s.core.logs;
    assert s.syncs - {0} == map[];
  }

  /** The second has nothing to mark. */
  lemma SecondMarks(s: State)
    requires s == State(Core([NEXT], [OVERTAKEN], false, 2), map[], map[1 := Waiting(1, 1)], 2)
    ensures Enabled(s, Begin(1))
    ensures Apply(BACKGROUND_CLOSE, s, Begin(1))
         == s.(syncs := map[1 := Sync(1, 1, true, false, {}, {}, {}, false)], waiting := map[])
  {
    assert NumbersUpTo(s.core.logs, 1) == {} && OpenUpTo(s.core.logs, 1) == {};
    assert Prepare(s.core.logs, 1) == s.core.logs;
    assert s.waiting - {1} == map[];
  }

  lemma SecondEnds(s: State, sync: Sync)
    requires sync == Sync(1, 1, true, true, {}, {}, {}, false)
    requires s == State(Core([NEXT], [OVERTAKEN], false, 2), map[1 := sync], map[], 2)
    ensures Enabled(s, Finish(1, true))
    ensures Apply(BACKGROUND_CLOSE, s, Finish(1, true)) == s.(syncs := map[])
  {
    hide Finished, Released;
    TwoLogs();
    assert Publish(s.core.logs, {}) == s.core.logs;
    assert s.syncs - {1} == map[];
  }

  /** Such a run: while the second call waits for the first sync, log 2 becomes active and log 1, all that the
      second call covers, is freed; the second call then has nothing to mark. */
  lemma CallsCanBeOvertaken() returns (steps: seq<Step>, states: seq<State>)
    ensures Succeeds(BACKGROUND_CLOSE, 1, steps, states, 8, 10, 1)
    ensures steps[3] == Call(1, true) && UpTo(states[3], true) == 1 && states[3].core.logs[0].flushed == 5
    ensures steps[8] == Begin(1) && states[8].core.cur == 2 && states[9].syncs[1].owned == {}
    ensures states[11].core.freed == [OVERTAKEN]
  {
    hide Finished, Released, Publish, Prepare, NumbersUpTo, OpenUpTo, SyncedFile, Started, Ended;
    steps := [Write(5), Call(0, true), Begin(0), Call(1, true), Switch(2), SyncFile(0, 1), SyncDir(0),
              Finish(0, true), Begin(1), SyncDir(1), Finish(1, true)];
    var o := BACKGROUND_CLOSE;
    var sync := Sync(1, 1, true, false, {1}, {1}, {}, false);
    var late := Sync(1, 1, true, false, {}, {}, {}, false);
    var s1 := State(Core([Wal(1, false, 0, true, 5, 0)], [], false, 1), map[], map[], 0);
    var s2 := s1.(waiting := map[0 := Waiting(1, 1)]);
    var s3 := State(Core([OVERTAKEN.(synced := 0)], [], false, 1), map[0 := sync], map[], 0);
    var s4 := s3.(waiting := map[1 := Waiting(1, 1)]);
    var s5 := s4.(core := Core([OVERTAKEN.(synced := 0), NEXT], [], false, 2));
    var s6 := s5.(core := Core([OVERTAKEN, NEXT], [], false, 2), syncs := map[0 := sync.(todo := {})]);
    var s7 := s6.(syncs := map[0 := sync.(todo := {}, dirDone := true)], dirUpTo := 2);
    var s8 := s7.(core := Core([NEXT], [OVERTAKEN], false, 2), syncs := map[]);
    var s9 := s8.(syncs := map[1 := late], waiting := map[]);
    var s10 := s9.(syncs := map[1 := late.(dirDone := true)]);
    states := [Initial(1), s1, s2, s3, s4, s5, s6, s7, s8, s9, s10, s10.(syncs := map[])];
    assert Written(states[0].core.logs, 5) == s1.core.logs;
    FirstMarks(s2, s1.core.logs[0]);
    FirstSyncs(s5, sync);
    FirstEnds(s7, sync.(todo := {}, dirDone := true));
    SecondMarks(s8);
    SecondEnds(s10, late.(dirDone := true));
    forall i | 0 <= i < |steps|
      ensures Enabled(states[i], steps[i]) && states[i + 1] == Apply(o, states[i], steps[i])
    {
      assert i in [0, 1, 2, 3, 4, 5, 6, 7, 8, 9, 10];
    }
  }
}
