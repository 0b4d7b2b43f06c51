/** `Version::Get` for puts and deletions: the first file that knows the key decides. */
module VersionGet {
  import opened Common
  import opened LsmFiles
  import opened LsmPicker

  /** An entry of the user key that does not come before the lookup key, which carries the snapshot. */
  predicate Visible(e: Entry, key: IKey): (r: bool)
    ensures r <==> e.key.user == key.user && !Less(e.key, key)
  {
    e.key.user == key.user && e.key.seqno <= key.seqno
  }

  /** What `TableCache::Get` finds in one file: its newest entry for the key that the snapshot can see. */
  function TableGet(entries: seq<Entry>, key: IKey): (r: Option<Entry>)
    ensures r.None? ==> forall i :: 0 <= i < |entries| ==> !Visible(entries[i], key)
    ensures r.Some? ==>
      && r.value in entries && Visible(r.value, key)
      && forall i :: 0 <= i < |entries| && Visible(entries[i], key) ==> entries[i].key.seqno <= r.value.key.seqno
  {
    if entries == [] then None
    else
      var e := entries[|entries| - 1];
      var r := TableGet(entries[..|entries| - 1], key);
      if !Visible(e, key) then r
      else if r.Some? && r.value.key.seqno >= e.key.seqno then r
      else Some(e)
  }

  /** An entry of some file of the version that the snapshot can see. */
  ghost predicate Candidate(q: Lookup, p: (nat, nat), e: Entry) {
    q.Exists(p) && e in q.levels[p.0][p.1].entries && Visible(e, q.key)
  }

  /** The newest visible entry over all files of all levels. */
  ghost predicate IsNewest(q: Lookup, e: Entry) {
    && (exists p :: Candidate(q, p, e))
    && (forall p, e' :: Candidate(q, p, e') ==> e'.key.seqno <= e.key.seqno)
  }

  /** Entries never hop across levels and level 0 is listed newest first: of two files in different
      levels, or both in level 0, the first holds the newer entries of a key. */
  ghost predicate NewerFirst(levels: seq<Level>) {
    forall p, p', e, e' ::
      InVersion(levels, p, e) && InVersion(levels, p', e') && Newer(p, p') && e.key.user == e'.key.user ==>
        e.key.seqno > e'.key.seqno
  }

  predicate Newer(p: (nat, nat), p': (nat, nat)) {
    p.0 < p'.0 || (p.0 == p'.0 == 0 && p.1 < p'.1)
  }

  ghost predicate InVersion(levels: seq<Level>, p: (nat, nat), e: Entry) {
    p.0 < |levels| && p.1 < |levels[p.0]| && e in levels[p.0][p.1].entries
  }

  /** In sorted levels this follows from the order of the files. */
  lemma OlderBehind(q: Lookup, p: (nat, nat), e: Entry, p': (nat, nat), e': Entry)
    requires LevelsOk(q.levels) && NewerFirst(q.levels)
    requires Candidate(q, p, e) && Candidate(q, p', e') && Before(p, p')
    ensures e.key.seqno > e'.key.seqno
  {
    assert InVersion(q.levels, p, e) && InVersion(q.levels, p', e');
    if p.0 == p'.0 > 0 {
      var f, f' := q.levels[p.0][p.1], q.levels[p.0][p'.1];
      assert FilesOk(q.levels[p.0]) && FileOk(f) && FileOk(f');
      var i :| 0 <= i < |f.entries| && f.entries[i] == e;
      var i' :| 0 <= i' < |f'.entries| && f'.entries[i'] == e';
      assert Less(f.largest, f'.smallest);
    }
  }

  /** A file the picker leaves out has nothing for the key that the snapshot can see. */
  lemma LeftOutHasNothing(q: Lookup, p: (nat, nat), e: Entry)
    requires LevelsOk(q.levels) && Candidate(q, p, e)
    ensures q.Wants(p.0, p.1)
  {
    var f := q.levels[p.0][p.1];
    assert FilesOk(q.levels[p.0]) && FileOk(f);
    var i :| 0 <= i < |f.entries| && f.entries[i] == e;
  }

  /** `data` of a found key; a deletion and a missing key are both NotFound, told apart by keyExists. */
  datatype Result = Found(data: nat) | NotFound

  method Get(q: Lookup, indexer: Indexer) returns (result: Result, keyExists: bool, ghost newest: Option<Entry>)
    requires LevelsOk(q.levels) && NewerFirst(q.levels) && indexer.Lawful(q.levels)
    requires forall l :: 0 <= l < |q.levels| ==> |q.levels[l]| < LEVEL_MAX_INDEX
    ensures keyExists <==> exists p, e :: Candidate(q, p, e)
    ensures keyExists <==> newest.Some?
    ensures newest.Some? ==> IsNewest(q, newest.value)
    ensures result == if newest.Some? && newest.value.value.Put? then Found(newest.value.value.data) else NotFound
  {
    hide LevelsOk, NewerFirst, Indexer.Lawful, Lookup.FromLevel, Candidate, IsNewest, TableGet, NothingIn;
    hide FilePicker.Valid, FilePicker.Remaining;
    keyExists := true;
    var picker := new FilePicker(q, indexer);
    ghost var done := [];
    NothingToSee(q);
    var more, file := picker.GetNextFile();
    while more
      invariant picker.Valid() && picker.q == q && fresh(picker)
      invariant q.FromLevel(0) == done + (if more then [file] else []) + picker.Remaining()
      invariant NothingIn(q, done)
      invariant !more ==> picker.Remaining() == []
      decreases more, |picker.Remaining()|
    {
      InList(q.FromLevel(0), done, file, picker.Remaining());
      q.FromLevelExactly(0, file);
      var r := TableGet(q.levels[file.0][file.1].entries, q.key);
      if r.Some? {
        BestOfFile(q, file, r.value);
        FirstIsNewest(q, done, file, picker.Remaining(), r.value);
        newest := r;
        match r.value.value
        case Put(data) => return Found(data), true, newest;
        case Delete => return NotFound, true, newest;
      }
      NothingInFile(q, done, file);
      done := done + [file];
      more, file := picker.GetNextFile();
    }
    NothingAnywhere(q, done);
    return NotFound, false, None;
  }

  ghost predicate NothingIn(q: Lookup, done: seq<(nat, nat)>) {
    forall p, e :: p in done ==> !Candidate(q, p, e)
  }

  lemma NothingToSee(q: Lookup)
    ensures NothingIn(q, [])
  {
  }

  lemma InList(all: seq<(nat, nat)>, done: seq<(nat, nat)>, p: (nat, nat), rest: seq<(nat, nat)>)
    requires all == done + [p] + rest
    ensures p in all
  {
    assert all[|done|] == p;
  }

  lemma BestOfFile(q: Lookup, p: (nat, nat), e: Entry)
    requires q.Exists(p) && TableGet(q.levels[p.0][p.1].entries, q.key) == Some(e)
    ensures Candidate(q, p, e)
    ensures forall e' :: Candidate(q, p, e') ==> e'.key.seqno <= e.key.seqno
  {
    hide TableGet;
  }

  lemma NothingInFile(q: Lookup, done: seq<(nat, nat)>, p: (nat, nat))
    requires NothingIn(q, done) && q.Exists(p) && TableGet(q.levels[p.0][p.1].entries, q.key) == None
    ensures NothingIn(q, done + [p])
  {
    hide TableGet;
  }

  /** Files the picker did not return have nothing either. */
  lemma NothingAnywhere(q: Lookup, done: seq<(nat, nat)>)
    requires LevelsOk(q.levels) && q.FromLevel(0) == done && NothingIn(q, done)
    ensures forall p, e :: !Candidate(q, p, e)
  {
    hide LevelsOk, Candidate, Lookup.FromLevel;
    forall p, e ensures !Candidate(q, p, e) {
      if Candidate(q, p, e) {
        LeftOutHasNothing(q, p, e);
        CandidateExists(q, p, e);
        q.FromLevelExactly(0, p);
      }
    }
  }

  lemma CandidateExists(q: Lookup, p: (nat, nat), e: Entry)
    requires Candidate(q, p, e)
    ensures q.Exists(p)
  {
  }

  lemma FirstIsNewest(q: Lookup, done: seq<(nat, nat)>, p: (nat, nat), rest: seq<(nat, nat)>, e: Entry)
    requires LevelsOk(q.levels) && NewerFirst(q.levels)
    requires q.FromLevel(0) == done + [p] + rest && Candidate(q, p, e)
    requires NothingIn(q, done)
    requires forall e' :: Candidate(q, p, e') ==> e'.key.seqno <= e.key.seqno
    ensures IsNewest(q, e)
  {
    hide LevelsOk, NewerFirst, Lookup.FromLevel;
    q.FromLevelInOrder(0);
    forall p', e' | Candidate(q, p', e') ensures e'.key.seqno <= e.key.seqno {
      LeftOutHasNothing(q, p', e');
      q.FromLevelExactly(0, p');
      if p' in rest {
        var j :| 0 <= j < |rest| && rest[j] == p';
        assert (done + [p] + rest)[|done|] == p && (done + [p] + rest)[|done| + 1 + j] == p';
        OlderBehind(q, p, e, p', e');
      }
    }
  }
}
