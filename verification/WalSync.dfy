/** Syncing of write-ahead logs. `SyncWalImpl` runs in several threads at once: it marks logs under
    the mutex, syncs them without it, and marks them synced or not under the mutex again. Between
    these sections other syncs run, logs are written, and new logs become active. */
module WalSync {
  /** One entry of `logs_`. `flushed` is the size handed to the file, `synced` the size known to be
      durable, `preSync` the flushed size when the running sync began. A closed log has no file. */
  datatype Wal = Wal(number: nat, syncing: bool, preSync: nat, open: bool, flushed: nat, synced: nat)

  /** `backgroundClose`: inactive logs are closed in the background; `closeInternally`: the sync
      closes them itself. */
  datatype Options = Options(backgroundClose: bool, closeInternally: bool)

  /** What the mutex guards. `freed` are the logs released from the list. */
  datatype Core = Core(logs: seq<Wal>, freed: seq<Wal>, dirSynced: bool, cur: nat)

  // ----- the sections under the mutex -----

  function Prepared(w: Wal): Wal {
    w.(syncing := true, preSync := if w.open then w.flushed else w.preSync)
  }

  /** Every log up to a number is marked. */
  function Prepare(logs: seq<Wal>, upTo: nat): (r: seq<Wal>)
    ensures |r| == |logs|
  {
    seq(|logs|, i requires 0 <= i < |logs| => if logs[i].number <= upTo then Prepared(logs[i]) else logs[i])
  }

  /** `PublishIfClosed`: closed files become visible to others. */
  function Publish(logs: seq<Wal>, closed: set<nat>): (r: seq<Wal>)
    ensures |r| == |logs|
  {
    seq(|logs|, i requires 0 <= i < |logs| => if logs[i].number in closed then logs[i].(open := false) else logs[i])
  }

  /** An inactive log that is closed, or known to be synced to its end, can be freed. */
  predicate Reclaimable(o: Options, w: Wal, last: nat) {
    w.number < last && (!w.open || (o.backgroundClose && w.preSync == w.flushed))
  }

  /** The logs that a successful sync up to a number frees. */
  function Released(o: Options, logs: seq<Wal>, upTo: nat, last: nat): seq<Wal> {
    if logs == [] then []
    else
      var w := logs[|logs| - 1];
      Released(o, logs[..|logs| - 1], upTo, last) + (if w.number <= upTo && Reclaimable(o, w, last) then [w] else [])
  }

  /** The list it leaves. */
  function Finished(o: Options, logs: seq<Wal>, upTo: nat, last: nat): seq<Wal> {
    if logs == [] then []
    else
      var w := logs[|logs| - 1];
      Finished(o, logs[..|logs| - 1], upTo, last)
      + (if w.number > upTo then [w] else if Reclaimable(o, w, last) then [] else [w.(syncing := false)])
  }

  /** The list a failed sync leaves. */
  function Unmarked(logs: seq<Wal>, upTo: nat): (r: seq<Wal>)
    ensures |r| == |logs|
  {
    seq(|logs|, i requires 0 <= i < |logs| => if logs[i].number <= upTo then logs[i].(syncing := false) else logs[i])
  }

  ghost predicate Ascending(logs: seq<Wal>) {
    forall i, j :: 0 <= i < j < |logs| ==> logs[i].number < logs[j].number
  }

  /** `MarkLogsSynced` and `MarkLogsNotSynced` assert this of every log they visit. */
  ghost predicate AllSyncing(logs: seq<Wal>, upTo: nat) {
    forall i :: 0 <= i < |logs| && logs[i].number <= upTo ==> logs[i].syncing
  }

  class WalList {
    const options: Options
    var logs: seq<Wal>
    var walsToFree: seq<Wal>
    var walDirSynced: bool
    var curWalNumber: nat

    ghost function View(): Core
      reads this
    {
      Core(logs, walsToFree, walDirSynced, curWalNumber)
    }

    constructor (options: Options, first: nat)
      ensures this.options == options
      ensures View() == Core([Wal(first, false, 0, true, 0, 0)], [], false, first)
    {
      this.options := options;
      logs, walsToFree, walDirSynced, curWalNumber := [Wal(first, false, 0, true, 0, 0)], [], false, first;
    }

    /** The first section of `SyncWalImpl`, behind its wait. */
    method PrepareLogs(upTo: nat) returns (toSync: seq<nat>, needDirSync: bool)
      requires Ascending(logs)
      modifies this
      ensures View() == old(View()).(logs := Prepare(old(logs), upTo))
      ensures needDirSync == !old(walDirSynced)
      ensures forall n :: n in toSync <==>
                exists i :: 0 <= i < |old(logs)| && old(logs)[i].number == n <= upTo && old(logs)[i].open
    {
      toSync := [];
      var i := 0;
      while i < |logs| && logs[i].number <= upTo
        invariant i <= |logs| == |old(logs)|
        invariant View() == old(View()).(logs := logs)
        invariant forall j :: 0 <= j < i ==> logs[j] == Prepare(old(logs), upTo)[j]
        invariant forall j :: i <= j < |logs| ==> logs[j] == old(logs)[j]
        invariant forall n :: n in toSync <==>
                    exists j :: 0 <= j < i && old(logs)[j].number == n <= upTo && old(logs)[j].open
      {
        var w := logs[i];
        assert w == old(logs)[i];
        logs := logs[i := Prepared(w)];
        if w.open {
          toSync := toSync + [w.number];
        }
        i := i + 1;
      }
      assert logs == Prepare(old(logs), upTo);
      needDirSync := !walDirSynced;
    }

    method MarkLogsSynced(upTo: nat, syncedDir: bool)
      requires logs != [] && Ascending(logs) && AllSyncing(logs, upTo)
      modifies this
      ensures var last := old(logs)[|old(logs)| - 1].number;
              View() == Core(Finished(options, old(logs), upTo, last),
                             old(walsToFree) + Released(options, old(logs), upTo, last),
                             old(walDirSynced) || (syncedDir && curWalNumber == upTo),
                             old(curWalNumber))
    {
      hide Finished, Released, Visited;
      if syncedDir && curWalNumber == upTo {
        walDirSynced := true;
      }
      ghost var all, freed := logs, walsToFree;
      ghost var n := 0;
      var i := 0;
      NothingVisited(options, all, upTo, freed);
      while i < |logs| && logs[i].number <= upTo
        invariant i <= |logs| && n <= |all|
        invariant Visited(options, all, n, upTo, freed, logs, i, walsToFree)
        invariant walDirSynced == (old(walDirSynced) || (syncedDir && curWalNumber == upTo))
        invariant curWalNumber == old(curWalNumber)
        decreases |logs| - i
      {
        Visit(options, all, n, upTo, freed, logs, i, walsToFree);
        var wal := logs[i];
        assert wal.syncing;
        if wal.number < logs[|logs| - 1].number {
          if !wal.open || (options.backgroundClose && wal.preSync == wal.flushed) {
            walsToFree := walsToFree + [wal];
            logs := logs[..i] + logs[i + 1..];
          } else {
            logs := logs[i := wal.(syncing := false)];
            i := i + 1;
          }
        } else {
          logs := logs[i := wal.(syncing := false)];
          i := i + 1;
        }
        n := n + 1;
      }
      AllVisited(options, all, n, upTo, freed, logs, i, walsToFree);
    }

    method MarkLogsNotSynced(upTo: nat)
      requires Ascending(logs) && AllSyncing(logs, upTo)
      modifies this
      ensures View() == old(View()).(logs := Unmarked(old(logs), upTo))
    {
      var i := 0;
      while i < |logs| && logs[i].number <= upTo
        invariant i <= |logs| == |old(logs)|
        invariant View() == old(View()).(logs := logs)
        invariant forall j :: 0 <= j < i ==> logs[j] == Unmarked(old(logs), upTo)[j]
        invariant forall j :: i <= j < |logs| ==> logs[j] == old(logs)[j]
      {
        assert logs[i].syncing;
        logs := logs[i := logs[i].(syncing := false)];
        i := i + 1;
      }
      assert logs == Unmarked(old(logs), upTo);
    }

    /** The switch to a new log. */
    method SwitchWal(number: nat)
      modifies this
      ensures View() == Core(old(logs) + [Wal(number, false, 0, true, 0, 0)], old(walsToFree), false, number)
    {
      curWalNumber := number;
      walDirSynced := false;
      logs := logs + [Wal(number, false, 0, true, 0, 0)];
    }
  }

  /** Where the loop of `MarkLogsSynced` stands after n of all the logs: the list is rebuilt up to i
      and untouched from there on. */
  ghost predicate Visited(o: Options, all: seq<Wal>, n: nat, upTo: nat, freed: seq<Wal>,
                          logs: seq<Wal>, i: nat, freed': seq<Wal>)
  {
    && n <= |all| && i <= |logs| && all != [] && logs != []
    && logs[|logs| - 1].number == all[|all| - 1].number
    && logs[i..] == all[n..]
    && logs[..i] == Finished(o, all[..n], upTo, all[|all| - 1].number)
    && freed' == freed + Released(o, all[..n], upTo, all[|all| - 1].number)
  }

  lemma NothingVisited(o: Options, all: seq<Wal>, upTo: nat, freed: seq<Wal>)
    requires all != []
    ensures Visited(o, all, 0, upTo, freed, all, 0, freed)
  {
  }

  lemma VisitNext(o: Options, logs: seq<Wal>, n: nat, upTo: nat, last: nat)
    requires n < |logs| && logs[n].number <= upTo
    ensures Finished(o, logs[..n + 1], upTo, last)
         == Finished(o, logs[..n], upTo, last)
            + (if Reclaimable(o, logs[n], last) then [] else [logs[n].(syncing := false)])
    ensures Released(o, logs[..n + 1], upTo, last)
         == Released(o, logs[..n], upTo, last)
            + (if Reclaimable(o, logs[n], last) then [logs[n]] else [])
  {
    assert logs[..n + 1][..n] == logs[..n];
  }

  lemma Visit(o: Options, all: seq<Wal>, n: nat, upTo: nat, freed: seq<Wal>, logs: seq<Wal>, i: nat, freed': seq<Wal>)
    requires Visited(o, all, n, upTo, freed, logs, i, freed')
    requires i < |logs| && logs[i].number <= upTo
    ensures n < |all| && all[n] == logs[i]
    ensures if Reclaimable(o, logs[i], logs[|logs| - 1].number)
      then Visited(o, all, n + 1, upTo, freed, logs[..i] + logs[i + 1..], i, freed' + [logs[i]])
      else Visited(o, all, n + 1, upTo, freed, logs[i := logs[i].(syncing := false)], i + 1, freed')
  {
    hide Finished, Released;
    var last := all[|all| - 1].number;
    assert |logs[i..]| == |all[n..]| && logs[i..][0] == all[n..][0];
    VisitNext(o, all, n, upTo, last);
    assert logs[i..][1..] == logs[i + 1..] && all[n..][1..] == all[n + 1..];
    if Reclaimable(o, logs[i], last) {
      var rest := logs[..i] + logs[i + 1..];
      assert rest[i..] == logs[i + 1..] && rest[..i] == logs[..i];
      assert freed' + [logs[i]] == freed + Released(o, all[..n + 1], upTo, last);
    } else {
      var same := logs[i := logs[i].(syncing := false)];
      assert same[i + 1..] == logs[i + 1..] && same[..i + 1] == logs[..i] + [logs[i].(syncing := false)];
    }
  }

  lemma AllVisited(o: Options, all: seq<Wal>, n: nat, upTo: nat, freed: seq<Wal>, logs: seq<Wal>, i: nat,
                   freed': seq<Wal>)
    requires Ascending(all) && Visited(o, all, n, upTo, freed, logs, i, freed')
    requires i < |logs| ==> logs[i].number > upTo
    ensures all != [] && logs == Finished(o, all, upTo, all[|all| - 1].number)
    ensures freed' == freed + Released(o, all, upTo, all[|all| - 1].number)
  {
    hide Finished, Released;
    assert |logs[i..]| == |all[n..]|;
    assert i < |logs| ==> logs[i..][0] == all[n..][0];
    RestUntouched(o, all, n, upTo, all[|all| - 1].number);
    assert logs == logs[..i] + logs[i..];
  }

  /** The logs behind the last one visited keep their place. */
  lemma {:induction false} RestUntouched(o: Options, logs: seq<Wal>, n: nat, upTo: nat, last: nat)
    requires n <= |logs| && Ascending(logs) && (n < |logs| ==> logs[n].number > upTo)
    ensures Finished(o, logs, upTo, last) == Finished(o, logs[..n], upTo, last) + logs[n..]
    ensures Released(o, logs, upTo, last) == Released(o, logs[..n], upTo, last)
    decreases |logs|
  {
    if n == |logs| {
      assert logs[..n] == logs;
    } else {
      var front := logs[..|logs| - 1];
      RestUntouched(o, front, n, upTo, last);
      assert front[..n] == logs[..n];
      assert logs[n..] == front[n..] + [logs[|logs| - 1]];
    }
  }
}
