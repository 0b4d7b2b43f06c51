/** `FilePickerMultiGet`: the files to search for a sorted batch of keys. All keys move through a level
    together, and each file is offered once to a run of keys. */
module MultiPicker {
  import opened LsmFiles
  import opened LsmPicker

  /** The search state of one key. */
  datatype Context = Context(left: int, right: int, index: nat, start: nat)

  const FULL_RANGE := Context(0, LEVEL_MAX_INDEX, 0, 0)

  predicate Unbounded(c: Context) {
    c.left == 0 && c.right == LEVEL_MAX_INDEX
  }

  /** `MultiGetRange` in the form it has here: the keys of the batch are sorted and looked up at one
      snapshot; a key may occur more than once. */
  ghost predicate Batch(keys: seq<IKey>) {
    && keys != []
    && forall i, j :: 0 <= i < j < |keys| ==> keys[i].user <= keys[j].user && keys[i].seqno == keys[j].seqno
  }

  // ----- one key -----

  ghost function Ahead(q: Lookup, l: nat, i: nat): seq<(nat, nat)>
    requires l < |q.levels| && i <= |q.levels[l]|
  {
    q.InLevel(l, i) + q.FromLevel(l + 1)
  }

  /** The bounds for the next level enclose the key. */
  ghost predicate NextOk(q: Lookup, l: nat, c: Context) {
    l + 1 < |q.levels| ==> BoundsOk(q.levels[l + 1], q.key.user, c.left, c.right)
  }

  /** The key has still to look at files of level l, from its index on. */
  ghost predicate Pending(q: Lookup, l: nat, c: Context, rest: seq<(nat, nat)>) {
    && l < |q.levels| && c.index <= |q.levels[l]|
    && rest == Ahead(q, l, c.index)
    && (l == 0 ==> Unbounded(c))
    && (l > 0 ==>
          && Positioned(q.levels[l], c.index, q.key.user) && c.start <= c.index
          && (c.index < |q.levels[l]| ==> !Less(q.levels[l][c.index].largest, q.key))
          && (c.start < c.index < |q.levels[l]| ==> q.key.user <= q.levels[l][c.index].smallest.user)
          && (c.index == |q.levels[l]| ==> NextOk(q, l, c)))
  }

  /** The key is done with level l. */
  ghost predicate Done(q: Lookup, l: nat, c: Context, rest: seq<(nat, nat)>) {
    l < |q.levels| && rest == q.FromLevel(l + 1) && NextOk(q, l, c)
  }

  predicate Hit(q: Lookup, l: nat, i: nat)
    requires l < |q.levels| && i < |q.levels[l]|
  {
    || !q.Filtered(l)
    || (CompareSmallest(q.levels[l][i], q.key.user) >= 0 && CompareLargest(q.levels[l][i], q.key.user) <= 0)
  }

  /** The comparison with the end of the file, where one is made. */
  function EndOf(q: Lookup, l: nat, i: nat): int
    requires l < |q.levels| && i < |q.levels[l]|
  {
    if q.Filtered(l) then CompareLargest(q.levels[l][i], q.key.user) else -1
  }

  /** Bounds taken over from the comparison with the file at the key's index. */
  ghost predicate Indexed(q: Lookup, l: nat, c: Context, c': Context) {
    && c'.index == c.index && c'.start == c.start
    && (l == 0 ==> c' == c) && (l > 0 ==> NextOk(q, l, c'))
  }

  /** A key that is not in the file at its index is done with a sorted level. */
  lemma MissIsDone(q: Lookup, l: nat, c: Context, rest: seq<(nat, nat)>, c': Context)
    requires LevelsOk(q.levels) && Pending(q, l, c, rest) && c.index < |q.levels[l]|
    requires !Hit(q, l, c.index) && Indexed(q, l, c, c')
    ensures l > 0 ==> Done(q, l, c', rest)
    ensures l == 0 ==> Pending(q, l, c'.(index := c.index + 1), rest)
  {
    hide LevelsOk, BoundsOk, Lookup.FromLevel, Lookup.InLevel, Positioned, Less, CompareLargest, CompareSmallest;
    Unwanted(q, l, c.index);
    assert [] + q.FromLevel(l + 1) == q.FromLevel(l + 1);
  }

  /** A key in the file at its index gets the file; it is done with a sorted level unless it is the
      file's last user key. */
  lemma HitIsOffered(q: Lookup, l: nat, c: Context, rest: seq<(nat, nat)>, c': Context)
    requires LevelsOk(q.levels) && Pending(q, l, c, rest) && c.index < |q.levels[l]|
    requires Hit(q, l, c.index) && Indexed(q, l, c, c')
    ensures rest == [(l, c.index)] + Ahead(q, l, c.index + 1)
    ensures l > 0 && EndOf(q, l, c.index) < 0 ==> Done(q, l, c', Ahead(q, l, c.index + 1))
    ensures l == 0 || EndOf(q, l, c.index) == 0 ==> Pending(q, l, c'.(index := c.index + 1), Ahead(q, l, c.index + 1))
  {
    hide LevelsOk, BoundsOk, Lookup.FromLevel, Lookup.InLevel, Positioned, Less, CompareLargest, CompareSmallest;
    Wanted(q, l, c.index);
    assert [] + q.FromLevel(l + 1) == q.FromLevel(l + 1);
    if q.InLevel(l, c.index + 1) == [] {
      assert Ahead(q, l, c.index + 1) == q.FromLevel(l + 1);
    }
  }

  /** What does not change while the keys go through a level. On level 0 all keys look at file `pass`. */
  datatype Scan = Scan(levels: seq<Level>, keys: seq<IKey>, level: nat, active: seq<nat>, pass: nat)
  {
    ghost predicate Ok() {
      && LevelsOk(levels) && Batch(keys) && level < |levels| && 0 < |levels[level]|
      && (forall p :: 0 <= p < |active| ==> active[p] < |keys|)
      && (forall p, p' :: 0 <= p < p' < |active| ==> active[p] < active[p'])
    }

    function Q(k: nat): Lookup
      requires k < |keys|
    {
      Lookup(levels, keys[k])
    }

    function Files(): Level
      requires level < |levels|
    {
      levels[level]
    }

    ghost predicate PendingKey(k: nat, c: Context, rest: seq<(nat, nat)>)
      requires k < |keys|
    {
      Pending(Q(k), level, c, rest) && (level == 0 ==> c.index == pass)
    }

    /** The key has looked at what the level has for it; on level 0, at what the current file has. */
    ghost predicate DoneKey(k: nat, c: Context, rest: seq<(nat, nat)>)
      requires k < |keys|
    {
      if level == 0 then Pending(Q(k), 0, c, rest) && c.index == pass + 1 else Done(Q(k), level, c, rest)
    }

    /** What a look at a file leaves: a hit takes the file off the list; the key is then done with
        the level, or looks at the next file on level 0 and after a file that ends with it. */
    ghost predicate Visited(k: nat, c: Context, was: seq<(nat, nat)>, rest: seq<(nat, nat)>, hit: bool, cmpLargest: int)
      requires k < |keys|
    {
      && was == (if hit then [(level, c.index)] else []) + rest
      && (level > 0 && cmpLargest != 0 ==> Done(Q(k), level, c, rest))
      && (level == 0 || cmpLargest == 0 ==> Pending(Q(k), level, c.(index := c.index + 1), rest))
    }

    /** The key got file i, its index still points at it, and it goes on with the next file. */
    ghost predicate LastOfFile(k: nat, i: nat, c: Context, was: seq<(nat, nat)>, rest: seq<(nat, nat)>)
      requires k < |keys|
    {
      && c.index == i && was == [(level, i)] + rest && Pending(Q(k), level, c.(index := i + 1), rest)
      && (level == 0 ==> i == pass)
    }
  }

  /** The contexts and the remaining files of all keys. */
  datatype Keys = Keys(ctx: seq<Context>, rest: seq<seq<(nat, nat)>>)
  {
    predicate Fits(s: Scan) {
      |ctx| == |rest| == |s.keys|
    }

    /** Only the keys at positions [from, to) differ. */
    ghost predicate OnlyAt(s: Scan, from: nat, to: nat, was: Keys) {
      && s.Ok() && Fits(s) && was.Fits(s)
      && (forall k :: 0 <= k < |s.keys| && k !in s.active ==> ctx[k] == was.ctx[k] && rest[k] == was.rest[k])
      && (forall p :: 0 <= p < |s.active| && !(from <= p < to) ==>
            ctx[s.active[p]] == was.ctx[s.active[p]] && rest[s.active[p]] == was.rest[s.active[p]])
    }

    /** The keys in front of a position are done. */
    ghost predicate FrontOk(s: Scan, to: nat)
      requires s.Ok() && Fits(s)
    {
      forall p :: 0 <= p < to && p < |s.active| ==> s.DoneKey(s.active[p], ctx[s.active[p]], rest[s.active[p]])
    }

    /** The keys behind it have still a file to look at, equal keys the same file. */
    ghost predicate BackOk(s: Scan, from: nat)
      requires s.Ok() && Fits(s)
    {
      && (forall p :: from <= p < |s.active| ==>
            s.PendingKey(s.active[p], ctx[s.active[p]], rest[s.active[p]]) && ctx[s.active[p]].index < |s.Files()|)
      && (forall p, p' :: from <= p < p' < |s.active| && s.keys[s.active[p]] == s.keys[s.active[p']] ==>
            ctx[s.active[p]].index == ctx[s.active[p']].index)
    }

    /** File i went to the keys at the positions of [prev, to) that were not skipped, and to no others. */
    ghost predicate Offered(s: Scan, was: Keys, prev: nat, to: nat, skipped: set<nat>, i: nat)
      requires s.Ok() && Fits(s) && was.Fits(s)
    {
      forall p :: 0 <= p < |s.active| ==>
        was.rest[s.active[p]] == (if prev <= p < to && p !in skipped then [(s.level, i)] else []) + rest[s.active[p]]
    }

    /** The key at `batch` and its duplicates in front of `upper` got file i, which ends with them. */
    ghost predicate Repeated(s: Scan, was: Keys, from: nat, batch: nat, upper: nat, i: nat)
      requires s.Ok() && Fits(s) && was.Fits(s) && batch < |s.active|
    {
      forall p :: from <= p < upper && p < |s.active| ==>
        && s.keys[s.active[p]] == s.keys[s.active[batch]]
        && s.LastOfFile(s.active[p], i, ctx[s.active[p]], was.rest[s.active[p]], rest[s.active[p]])
    }
  }

  lemma OneChange(s: Scan, p: nat, was: Keys, c: Context, rest: seq<(nat, nat)>)
    requires s.Ok() && was.Fits(s) && p < |s.active|
    ensures Keys(was.ctx[s.active[p] := c], was.rest[s.active[p] := rest]).OnlyAt(s, p, p + 1, was)
  {
  }

  lemma SortedKeys(s: Scan)
    requires s.Ok()
    ensures forall p, p' :: 0 <= p < p' < |s.active| ==>
      s.keys[s.active[p]].user <= s.keys[s.active[p']].user && s.keys[s.active[p]].seqno == s.keys[s.active[p']].seqno
  {
  }

  /** File i ends with the key at `batch`, and its duplicates are at the same file. */
  ghost predicate EndsWith(s: Scan, all: Keys, batch: nat, i: nat) {
    && s.Ok() && all.Fits(s) && batch < |s.active| && i < |s.Files()|
    && Hit(s.Q(s.active[batch]), s.level, i) && EndOf(s.Q(s.active[batch]), s.level, i) == 0
    && forall p :: batch < p < |s.active| && s.keys[s.active[p]] == s.keys[s.active[batch]] ==>
         all.ctx[s.active[p]].index == i
  }

  lemma RepeatMore(s: Scan, was: Keys, all: Keys, all': Keys, batch: nat, upper: nat, i: nat)
    requires batch < upper < |s.active|
    requires all.OnlyAt(s, batch + 1, upper, was) && all.Repeated(s, was, batch + 1, batch, upper, i)
    requires all'.OnlyAt(s, upper, upper + 1, all)
    requires s.keys[s.active[upper]] == s.keys[s.active[batch]]
    requires s.LastOfFile(s.active[upper], i, all'.ctx[s.active[upper]], all.rest[s.active[upper]],
                          all'.rest[s.active[upper]])
    ensures all'.OnlyAt(s, batch + 1, upper + 1, was) && all'.Repeated(s, was, batch + 1, batch, upper + 1, i)
  {
    hide Pending;
  }

  /** A duplicate not yet looked at stands where it stood before the scan of the others. */
  lemma StillPending(s: Scan, was: Keys, all: Keys, batch: nat, upper: nat, i: nat)
    requires EndsWith(s, was, batch, i) && batch < upper < |s.active| && was.BackOk(s, batch + 1)
    requires all.OnlyAt(s, batch + 1, upper, was)
    requires s.keys[s.active[upper]].user == s.keys[s.active[batch]].user
    ensures s.keys[s.active[upper]] == s.keys[s.active[batch]]
    ensures var k := s.active[upper];
            && s.PendingKey(k, all.ctx[k], all.rest[k]) && all.ctx[k].index == i
            && Hit(s.Q(k), s.level, i) && EndOf(s.Q(k), s.level, i) == 0
  {
    hide Pending, LevelsOk;
    SortedKeys(s);
  }

  /** A scan has moved from position `prev` to `batch`; file c, once there is a hit, went to the keys
      not skipped, else it is the next to look at. */
  ghost predicate ScanOk(s: Scan, was: Keys, all: Keys, prev: nat, batch: nat, skipped: set<nat>, hit: bool, c: nat) {
    && all.OnlyAt(s, prev, batch, was) && prev <= batch <= |s.active|
    && all.FrontOk(s, batch) && all.BackOk(s, batch) && all.Offered(s, was, prev, batch, skipped, c)
    && (forall p :: p in skipped ==> p < batch)
    && (if hit then c < |s.Files()| && exists p :: prev <= p < batch && p !in skipped
        else (forall p :: prev <= p < batch ==> p in skipped)
             && c == if batch < |s.active| then all.ctx[s.active[batch]].index else |s.Files()|)
  }

  /** The key at `batch` was looked at and is done: the scan goes on. */
  lemma ScanNext(s: Scan, was: Keys, all: Keys, all': Keys, prev: nat, batch: nat, skipped: set<nat>, fileHit: bool,
                 c: nat, hit: bool)
    requires ScanOk(s, was, all, prev, batch, skipped, fileHit, c) && batch < |s.active|
    requires fileHit ==> all.ctx[s.active[batch]].index == c
    requires all'.OnlyAt(s, batch, batch + 1, all)
    requires var k := s.active[batch];
             && s.DoneKey(k, all'.ctx[k], all'.rest[k])
             && all.rest[k] == (if hit then [(s.level, all.ctx[k].index)] else []) + all'.rest[k]
    ensures var skipped' := if hit then skipped else skipped + {batch};
            var c' := if fileHit || hit then c
                      else if batch + 1 < |s.active| then all'.ctx[s.active[batch + 1]].index else |s.Files()|;
            ScanOk(s, was, all', prev, batch + 1, skipped', fileHit || hit, c')
  {
    hide Scan.DoneKey, Scan.PendingKey, LevelsOk, Batch;
    var k := s.active[batch];
    assert c == all.ctx[k].index;
    assert was.rest[k] == [] + all.rest[k];
    assert hit ==> prev <= batch < batch + 1 && batch !in skipped;
  }

  /** The end of a scan at a file that ends with the key at `batch`: it and its duplicates got the
      file and go on with the next. */
  ghost predicate ScanEnded(s: Scan, was: Keys, all: Keys, prev: nat, batch: nat, upper: nat, skipped: set<nat>,
                            c: nat) {
    && all.OnlyAt(s, prev, upper, was) && prev <= batch < upper <= |s.active| && c < |s.Files()|
    && all.FrontOk(s, batch) && all.BackOk(s, upper) && all.Offered(s, was, prev, upper, skipped, c)
    && all.Repeated(s, was, batch, batch, upper, c) && was.ctx[s.active[batch]].index == c
    && (forall p :: p in skipped ==> p < batch)
    && (upper < |s.active| ==> s.keys[s.active[upper]].user != s.keys[s.active[batch]].user)
  }

  lemma ScanLast(s: Scan, was: Keys, all: Keys, all1: Keys, all2: Keys, prev: nat, batch: nat, upper: nat,
                 skipped: set<nat>, fileHit: bool, c: nat)
    requires ScanOk(s, was, all, prev, batch, skipped, fileHit, c) && batch < upper <= |s.active|
    requires all1.OnlyAt(s, batch, batch + 1, all) && all2.OnlyAt(s, batch + 1, upper, all1)
    requires all.ctx[s.active[batch]].index == c
    requires var k := s.active[batch]; s.LastOfFile(k, c, all1.ctx[k], all.rest[k], all1.rest[k])
    requires all2.Repeated(s, all1, batch + 1, batch, upper, c) && c < |s.Files()|
    requires upper < |s.active| ==> s.keys[s.active[upper]].user != s.keys[s.active[batch]].user
    ensures ScanEnded(s, was, all2, prev, batch, upper, skipped, c)
  {
    hide Scan.DoneKey, Scan.PendingKey, LevelsOk, Batch, Pending;
    forall p | prev <= p < |s.active| && p >= batch ensures was.rest[s.active[p]] == all.rest[s.active[p]] {
      assert was.rest[s.active[p]] == [] + all.rest[s.active[p]];
    }
    forall p | 0 <= p < |s.active|
      ensures was.rest[s.active[p]]
           == (if prev <= p < upper && p !in skipped then [(s.level, c)] else []) + all2.rest[s.active[p]]
    {
      if batch <= p < upper {
        assert p !in skipped;
      } else {
        assert all2.rest[s.active[p]] == all.rest[s.active[p]];
      }
    }
  }

  class FilePickerMultiGet {
    const levels: seq<Level>
    const keys: seq<IKey>
    const indexer: Indexer
    var currLevel: int
    var ctx: seq<Context>
    /** The keys that take part in the current level; the iterators are positions in it. */
    var active: seq<nat>
    var batch: nat
    var upper: nat
    var maybeRepeat: bool
    var searchEnded: bool
    /** For each key, the files it has still to be offered. */
    ghost var rest: seq<seq<(nat, nat)>>
    ghost var pass: nat

    ghost predicate Fixed()
      reads this
    {
      && LevelsOk(levels) && indexer.Lawful(levels) && Batch(keys)
      && (forall l :: 0 <= l < |levels| ==> |levels[l]| < LEVEL_MAX_INDEX)
      && |ctx| == |keys| == |rest|
    }

    ghost function Here(): Scan
      reads this
      requires currLevel >= 0
    {
      Scan(levels, keys, currLevel, active, pass)
    }

    ghost function All(): Keys
      reads this
    {
      Keys(ctx, rest)
    }

    /** Looks at the file at the index of one key. */
    method VisitKey(k: nat) returns (hit: bool, cmpSmallest: int, cmpLargest: int)
      requires Fixed() && currLevel >= 0 && k < |keys| && Here().PendingKey(k, ctx[k], rest[k])
      requires ctx[k].index < |levels[currLevel]|
      modifies `ctx, `rest
      ensures |ctx| == |rest| == |keys|
      ensures ctx == old(ctx)[k := ctx[k]] && rest == old(rest)[k := rest[k]] && ctx[k].index == old(ctx)[k].index
      ensures hit == Hit(Here().Q(k), currLevel, ctx[k].index)
      ensures cmpLargest == EndOf(Here().Q(k), currLevel, ctx[k].index)
      ensures cmpLargest == 0 ==> hit && cmpSmallest == CompareSmallest(levels[currLevel][ctx[k].index], keys[k].user)
      ensures Here().Visited(k, ctx[k], old(rest)[k], rest[k], hit, cmpLargest)
    {
      hide LevelsOk, Indexer.Lawful, BoundsOk, Encloses, Batch;
      ghost var was := rest[k];
      ghost var q := Here().Q(k);
      var c := ctx[k];
      var f := levels[currLevel][c.index];
      hit, cmpSmallest, cmpLargest := true, -1, -1;
      if |levels| > 1 || |levels[currLevel]| > 3 {
        cmpSmallest := Compare(keys[k].user, f.smallest.user);
        if cmpSmallest >= 0 {
          cmpLargest := Compare(keys[k].user, f.largest.user);
        }
        assert currLevel == 0 || c.index == c.start || cmpSmallest <= 0;
        if currLevel > 0 {
          SetBounds(k, cmpSmallest, cmpLargest);
        }
        hit := !(cmpSmallest < 0 || cmpLargest > 0);
      }
      if hit {
        HitIsOffered(q, currLevel, c, was, ctx[k]);
        rest := rest[k := Ahead(q, currLevel, c.index + 1)];
      } else {
        MissIsDone(q, currLevel, c, was, ctx[k]);
      }
    }

    /** Takes over the bounds for the next level. */
    method SetBounds(k: nat, cmpSmallest: int, cmpLargest: int)
      requires Fixed() && k < |keys| && currLevel > 0 && Here().PendingKey(k, ctx[k], rest[k])
      requires ctx[k].index < |levels[currLevel]|
      requires cmpSmallest == CompareSmallest(levels[currLevel][ctx[k].index], keys[k].user)
      requires cmpLargest == CompareLargest(levels[currLevel][ctx[k].index], keys[k].user)
      modifies `ctx
      ensures |ctx| == |old(ctx)| && ctx == old(ctx)[k := ctx[k]]
      ensures Indexed(Here().Q(k), currLevel, old(ctx)[k], ctx[k])
    {
      hide LevelsOk, Encloses, Batch, Ahead;
      assert indexer.LawfulAt(levels, currLevel, ctx[k].index, keys[k].user);
      var b := indexer.bounds(currLevel, ctx[k].index, cmpSmallest, cmpLargest);
      ctx := ctx[k := ctx[k].(left := b.0, right := b.1)];
    }

    /** A duplicate of a key that is the last user key of file i. */
    method VisitDuplicate(k: nat, ghost i: nat, cmpSmallest: int, cmpLargest: int)
      requires Fixed() && currLevel >= 0 && k < |keys| && Here().PendingKey(k, ctx[k], rest[k])
      requires ctx[k].index == i < |levels[currLevel]|
      requires Hit(Here().Q(k), currLevel, i) && EndOf(Here().Q(k), currLevel, i) == 0 == cmpLargest
      requires cmpSmallest == CompareSmallest(levels[currLevel][i], keys[k].user)
      modifies `ctx, `rest
      ensures |ctx| == |rest| == |keys| && ctx == old(ctx)[k := ctx[k]] && rest == old(rest)[k := rest[k]]
      ensures Here().LastOfFile(k, i, ctx[k], old(rest)[k], rest[k])
    {
      hide LevelsOk, Indexer.Lawful, BoundsOk, Batch, Ahead;
      ghost var before := ctx[k];
      ghost var q := Here().Q(k);
      if currLevel > 0 {
        SetBounds(k, cmpSmallest, cmpLargest);
      }
      HitIsOffered(q, currLevel, before, rest[k], ctx[k]);
      rest := rest[k := Ahead(q, currLevel, i + 1)];
    }

    /** Duplicates of the key at `batch` get its file too. */
    method SkipDuplicates(ghost i: nat, cmpSmallest: int, cmpLargest: int)
      requires Fixed() && currLevel >= 0 && Here().Ok() && batch < |active| && i < |levels[currLevel]|
      requires EndsWith(Here(), All(), batch, i) && All().BackOk(Here(), batch + 1)
      requires cmpSmallest == CompareSmallest(levels[currLevel][i], keys[active[batch]].user) && cmpLargest == 0
      modifies `ctx, `rest, `upper
      ensures Fixed() && batch < upper <= |active|
      ensures All().OnlyAt(Here(), batch + 1, upper, old(All()))
      ensures All().Repeated(Here(), old(All()), batch + 1, batch, upper, i)
      ensures upper < |active| ==> keys[active[upper]].user != keys[active[batch]].user
    {
      hide LevelsOk, Indexer.Lawful, Batch, Pending, Hit, EndOf, EndsWith, Keys.OnlyAt, Keys.Repeated, Keys.BackOk;
      hide Scan.LastOfFile, Scan.PendingKey;
      ghost var s, was := Here(), All();
      upper := batch + 1;
      NoneRepeated(s, was, batch, i);
      while upper < |active| && keys[active[batch]].user == keys[active[upper]].user
        invariant Fixed() && batch < upper <= |active|
        invariant All().OnlyAt(s, batch + 1, upper, was) && All().Repeated(s, was, batch + 1, batch, upper, i)
      {
        ghost var before := All();
        StillPending(s, was, before, batch, upper, i);
        VisitDuplicate(active[upper], i, cmpSmallest, cmpLargest);
        OneChange(s, upper, before, ctx[active[upper]], rest[active[upper]]);
        RepeatMore(s, was, before, All(), batch, upper, i);
        upper := upper + 1;
      }
    }

    /** Looks at the key at `batch` in a scan. If its file ends with it, its duplicates get the file
        as well and the scan is over; else the scan moves on. */
    method ScanKey(prev: nat, skipped0: set<nat>, fileHit: bool, c: nat, ghost was: Keys)
        returns (skipped: set<nat>, hit: bool, isLast: bool)
      requires Fixed() && currLevel >= 0 && Here().Ok() && batch < |active|
      requires ScanOk(Here(), was, All(), prev, batch, skipped0, fileHit, c)
      requires fileHit ==> ctx[active[batch]].index == c
      modifies `ctx, `rest, `batch, `upper
      ensures Fixed()
      ensures isLast ==> batch == old(batch) && ScanEnded(Here(), was, All(), prev, batch, upper, skipped, c)
      ensures !isLast ==>
        && batch == old(batch) + 1 <= |active|
        && ScanOk(Here(), was, All(), prev, batch, skipped, fileHit || hit,
                  if fileHit || hit then c
                  else if batch < |active| then ctx[active[batch]].index else |levels[currLevel]|)
    {
      hide LevelsOk, Indexer.Lawful, Batch, Pending, Done, Hit, EndOf, ScanOk, ScanEnded, EndsWith, Keys.OnlyAt;
      hide Keys.Repeated, Keys.BackOk;
      ghost var s, all := Here(), All();
      var k := active[batch];
      ScanReady(s, was, all, prev, batch, skipped0, fileHit, c);
      var cmpSmallest, cmpLargest;
      hit, cmpSmallest, cmpLargest := VisitKey(k);
      skipped := if hit then skipped0 else skipped0 + {batch};
      isLast := cmpLargest == 0;
      OneChange(s, batch, all, ctx[k], rest[k]);
      if isLast {
        ghost var all1 := All();
        ReadyForDuplicates(s, was, all, all1, prev, batch, skipped0, fileHit, c);
        SkipDuplicates(c, cmpSmallest, cmpLargest);
        ScanLast(s, was, all, all1, All(), prev, batch, upper, skipped, fileHit, c);
      } else {
        if currLevel == 0 {
          ctx := ctx[k := ctx[k].(index := ctx[k].index + 1)];
          assert ctx == all.ctx[k := ctx[k]];
          OneChange(s, batch, all, ctx[k], rest[k]);
        }
        ScanNext(s, was, all, All(), prev, batch, skipped0, fileHit, c, hit);
        batch := batch + 1;
      }
    }

    /** Goes through the keys until it finds a file with at least one of them, and on to the last key
        in that file. */
    method GetNextFileInLevelWithKeys(fileIndex: nat) returns (found: bool, c: nat, skipped: set<nat>, isLast: bool)
      requires Fixed() && currLevel >= 0 && Here().Ok() && batch <= |active|
      requires All().FrontOk(Here(), batch)
      requires fileIndex == if batch < |active| then ctx[active[batch]].index else |levels[currLevel]|
      requires if fileIndex < |levels[currLevel]| then All().BackOk(Here(), batch) else Exhausted(Here(), All(), batch)
      modifies `ctx, `rest, `batch, `upper
      ensures Fixed() && old(batch) <= batch <= |active|
      ensures !found ==> batch == |active| && LevelDone(Here(), old(All()), All())
      ensures found ==> batch <= upper <= |active|
      ensures found && isLast ==> ScanEnded(Here(), old(All()), All(), old(batch), batch, upper, skipped, c)
      ensures found && !isLast ==>
                batch == upper && ScanOk(Here(), old(All()), All(), old(batch), batch, skipped, true, c)
    {
      hide LevelsOk, Indexer.Lawful, Batch, ScanOk, ScanEnded, LevelDone, Exhausted, Keys.FrontOk, Keys.BackOk;
      ghost var s, was := Here(), All();
      found, c, skipped, isLast := false, fileIndex, {}, false;
      if fileIndex >= |levels[currLevel]| {
        ResetRest();
        return;
      }
      var prev := batch;
      ScanStart(s, was, batch);
      while batch < |active| && (ctx[active[batch]].index == c || !found)
        invariant Fixed() && prev <= batch <= |active|
        invariant ScanOk(s, was, All(), prev, batch, skipped, found, c)
        decreases |active| - batch
      {
        var hit;
        skipped, hit, isLast := ScanKey(prev, skipped, found, c, was);
        if isLast {
          ScanEndedBounds(s, was, All(), prev, batch, upper, skipped, c);
          found := true;
          break;
        }
        found := found || hit;
        if !found {
          c := if batch < |active| then ctx[active[batch]].index else |levels[currLevel]|;
        }
      }
      if !isLast {
        upper := batch;
        if !found {
          ScanFoundNothing(s, was, All(), prev, skipped, c);
        }
      }
    }

    /** No file is left for the keys from `batch` on: their bounds for the next level are reset. */
    method ResetRest()
      requires Fixed() && currLevel >= 0 && Here().Ok() && batch <= |active|
      requires All().FrontOk(Here(), batch) && Exhausted(Here(), All(), batch)
      modifies `ctx, `batch
      ensures Fixed() && batch == |active| && LevelDone(Here(), old(All()), All())
    {
      hide LevelsOk, Indexer.Lawful, Batch, Pending, Done;
      ghost var s, was := Here(), All();
      ExhaustedAreDone(s, was, batch);
      if batch != |active| {
        batch := batch + 1;
        while batch < |active|
          invariant Fixed() && batch <= |active| && All().OnlyAt(s, 0, |active|, was) && rest == was.rest
          invariant forall p :: 0 <= p < |active| ==> s.DoneKey(active[p], ctx[active[p]], rest[active[p]])
        {
          var k := active[batch];
          ResetKeepsDone(s, k, ctx[k], rest[k]);
          ctx := ctx[k := ctx[k].(left := 0, right := LEVEL_MAX_INDEX)];
          batch := batch + 1;
        }
      }
    }

    ghost predicate Valid()
      reads this
    {
      && Fixed()
      && if searchEnded then forall k :: 0 <= k < |keys| ==> rest[k] == []
         else 0 <= currLevel < |levels| && Ready(Here(), All(), batch, upper, maybeRepeat)
    }

    method NextFileForRepeated()
      requires currLevel >= 0 && Here().Ok() && All().Fits(Here()) && batch <= upper <= |active|
      modifies `ctx
      ensures |ctx| == |old(ctx)| && Bumped(Here(), old(All()), All(), batch, upper)
    {
      hide LevelsOk, Batch;
      var tmp := batch;
      while tmp != upper
        invariant batch <= tmp <= upper && |ctx| == |old(ctx)| && Bumped(Here(), old(All()), All(), batch, tmp)
      {
        var k := active[tmp];
        ctx := ctx[k := ctx[k].(index := ctx[k].index + 1)];
        tmp := tmp + 1;
      }
    }

    /** The end of a scan that found a file: the keys it is for, and where each key goes on. */
    method OfferFile(prev: nat, c: nat, skipped: set<nat>, isLast: bool, ghost was: Keys)
      returns (file: (nat, nat), hits: set<nat>)
      requires Fixed() && 0 <= currLevel < |levels| && OthersOk(Here(), was) && !maybeRepeat
      requires currLevel == 0 ==> pass < |levels[0]|
      requires prev <= batch <= upper <= |active|
      requires isLast ==> ScanEnded(Here(), was, All(), prev, batch, upper, skipped, c)
      requires !isLast ==> batch == upper && ScanOk(Here(), was, All(), prev, batch, skipped, true, c)
      modifies `ctx, `maybeRepeat
      ensures Fixed() && Ready(Here(), All(), batch, upper, maybeRepeat)
      ensures hits != {} && file == (currLevel as nat, c)
      ensures |was.rest| == |keys|
      ensures forall k :: 0 <= k < |keys| ==> was.rest[k] == (if k in hits then [file] else []) + rest[k]
      ensures batch == prev ==>
        && batch < |active| && |was.ctx| == |keys|
        && was.ctx[active[batch]].index < ctx[active[batch]].index <= |levels[currLevel]|
    {
      hide LevelsOk, Indexer.Lawful, Batch, Ready, ScanOk, ScanEnded, Keys.Offered, Keys.OnlyAt;
      ghost var s := Here();
      if isLast {
        ghost var before := All();
        NextFileForRepeated();
        maybeRepeat := true;
        ReadyToRepeat(s, was, before, All(), prev, batch, upper, skipped, c);
      } else {
        ReadyAfterScan(s, was, All(), prev, batch, skipped, c);
      }
      file := (currLevel, c);
      hits := set p | prev <= p < upper && p !in skipped :: active[p];
      ghost var p :| prev <= p < upper && p !in skipped;
      assert active[p] in hits;
      OfferedKeys(s, was, All(), prev, upper, skipped, c, hits);
    }

    /** The next file of the level and the keys to look up in it. */
    method GetNextFileInLevel() returns (found: bool, file: (nat, nat), hits: set<nat>)
      requires Valid()
      modifies `ctx, `rest, `batch, `upper, `maybeRepeat
      ensures Valid() && |rest| == |old(rest)|
      ensures forall k :: 0 <= k < |keys| ==> old(rest)[k] == (if found && k in hits then [file] else []) + rest[k]
      ensures !found && !searchEnded ==> batch == |active| && !maybeRepeat
      ensures found ==> !searchEnded && hits != {} && old(batch) <= batch <= |active|
      ensures found && batch == old(batch) ==>
        && batch < |active| && active[batch] < |ctx|
        && old(ctx)[active[batch]].index < ctx[active[batch]].index <= |levels[currLevel]|
    {
      hide LevelsOk, Indexer.Lawful, Batch, Ready, ScanOk, ScanEnded, LevelDone, Exhausted, Keys.FrontOk, Keys.BackOk;
      hide OthersOk;
      found, file, hits := false, (0, 0), {};
      if searchEnded {
        return;
      }
      ReadyBounds(Here(), All(), batch, upper, maybeRepeat);
      if batch == |active| {
        NothingOffered(rest);
        return;
      }
      ghost var s, was := Here(), All();
      var fileIndex := Resume();
      var prev := batch;
      var c, skipped, isLast;
      found, c, skipped, isLast := GetNextFileInLevelWithKeys(fileIndex);
      if found {
        file, hits := OfferFile(prev, c, skipped, isLast, was);
      } else {
        ReadyAfterLevel(s, was, All(), upper);
        NothingOffered(was.rest);
      }
    }

    /** Moves on from a file that ended with the key at `batch`. */
    method Resume() returns (fileIndex: nat)
      requires Valid() && !searchEnded && batch < |active|
      modifies `batch, `maybeRepeat
      ensures !maybeRepeat && old(batch) <= batch <= |active|
      ensures OthersOk(Here(), All()) && (currLevel == 0 ==> pass < |levels[0]|)
      ensures All().FrontOk(Here(), batch)
      ensures fileIndex == if batch < |active| then ctx[active[batch]].index else |levels[currLevel]|
      ensures if fileIndex < |levels[currLevel]| then All().BackOk(Here(), batch) else Exhausted(Here(), All(), batch)
    {
      hide LevelsOk, Indexer.Lawful, Batch, Ready, Exhausted, Keys.FrontOk, Keys.BackOk;
      ghost var s, all := Here(), All();
      ReadyBounds(s, all, batch, upper, maybeRepeat);
      ResumeScan(s, all, batch, upper, maybeRepeat);
      if maybeRepeat {
        maybeRepeat := false;
        if currLevel == 0 {
          batch := upper;
        }
      }
      fileIndex := if batch < |active| then ctx[active[batch]].index else |levels[currLevel]|;
    }

    // ----- from level to level -----

    /** Finds where one key starts in a sorted level, or that it takes no part in it. */
    method StartKey(k: nat) returns (found: bool)
      requires Fixed() && 1 <= currLevel < |levels| && 0 < |levels[currLevel]| && k < |keys|
      requires Between(levels, keys[k], currLevel, ctx[k], rest[k])
      modifies `ctx
      ensures |ctx| == |keys| && ctx == old(ctx)[k := ctx[k]]
      ensures found ==> Starts(Lookup(levels, keys[k]), currLevel, ctx[k], rest[k])
      ensures !found ==> Done(Lookup(levels, keys[k]), currLevel, ctx[k], rest[k]) && Unbounded(ctx[k])
    {
      hide Indexer.Lawful, Batch, Lookup.InLevel, FilesOk, Sorted;
      var files := levels[currLevel];
      var c := ctx[k];
      ghost var q := Lookup(levels, keys[k]);
      BoundsEnclose(files, keys[k].user, c.left, c.right);
      if c.left > c.right {
        NoneEnclosed(q, currLevel, c.left, c.right);
        ctx := ctx[k := c.(left := 0, right := LEVEL_MAX_INDEX)];
        return false;
      }
      if c.right == LEVEL_MAX_INDEX {
        c := c.(right := |files| - 1);
      }
      var start := FindFileInRange(files, keys[k], c.left, c.right + 1);
      SearchSkips(q, currLevel, c.left, c.right, start);
      found := start != c.right + 1;
      if found {
        ctx := ctx[k := c.(index := start, start := start)];
      } else {
        ctx := ctx[k := c.(left := 0, right := LEVEL_MAX_INDEX)];
      }
    }

    /** All keys on their way into level l; those outside the last level's range unbounded. */
    ghost predicate AllBetween(l: nat)
      reads this
    {
      && Fixed()
      && forall k :: 0 <= k < |keys| ==>
           Between(levels, keys[k], l, ctx[k], rest[k]) && (k !in active || l == 0 ==> Unbounded(ctx[k]))
    }

    /** Each key finds its start in a sorted level; the others are skipped. */
    method EnterSorted()
      requires 1 <= currLevel < |levels| && 0 < |levels[currLevel]| && AllBetween(currLevel)
      modifies `ctx, `active
      ensures Fixed() && Entered(Here(), All())
    {
      hide LevelsOk, Indexer.Lawful, Batch, Between, Starts, Done;
      active := [];
      for k := 0 to |keys|
        invariant Fixed()
        invariant forall p :: 0 <= p < |active| ==> active[p] < k
        invariant forall p, p' :: 0 <= p < p' < |active| ==> active[p] < active[p']
        invariant forall p :: 0 <= p < |active| ==>
                    Starts(Lookup(levels, keys[active[p]]), currLevel, ctx[active[p]], rest[active[p]])
        invariant forall i :: 0 <= i < k && i !in active ==>
          Done(Lookup(levels, keys[i]), currLevel, ctx[i], rest[i]) && Unbounded(ctx[i])
        invariant forall i :: k <= i < |keys| ==> Between(levels, keys[i], currLevel, ctx[i], rest[i])
      {
        var found := StartKey(k);
        if found {
          active := active + [k];
        }
      }
    }

    /** On level 0 every key looks at every file. */
    method EnterZero()
      requires currLevel == 0 < |levels| && 0 < |levels[0]| && AllBetween(0)
      modifies `ctx, `active, `pass
      ensures Fixed() && Ready(Here(), All(), 0, 0, false)
    {
      hide LevelsOk, Indexer.Lawful, Batch, Between, Pending;
      active := [];
      pass := 0;
      for k := 0 to |keys|
        invariant Fixed() && pass == 0 && |active| == k && forall i :: 0 <= i < k ==> active[i] == i
        invariant forall i :: 0 <= i < k ==> Pending(Lookup(levels, keys[i]), 0, ctx[i], rest[i]) && ctx[i].index == 0
        invariant forall i :: k <= i < |keys| ==> Between(levels, keys[i], 0, ctx[i], rest[i]) && Unbounded(ctx[i])
      {
        StartZero(levels, keys[k], ctx[k], rest[k]);
        ctx := ctx[k := ctx[k].(index := 0, start := 0)];
        active := active + [k];
      }
      ZeroReady(Here(), All());
    }

    /** An empty level gives no bounds for the next. */
    method SkipEmptyLevel()
      requires 0 <= currLevel < |levels| && levels[currLevel] == [] && AllBetween(currLevel)
      requires forall p :: 0 <= p < |active| ==> active[p] < |keys|
      modifies `ctx
      ensures AllBetween(currLevel + 1) && forall k :: 0 <= k < |keys| ==> Unbounded(ctx[k])
    {
      hide LevelsOk, Indexer.Lawful, Batch, Encloses, Lookup.FromLevel;
      for p := 0 to |active|
        invariant AllBetween(currLevel)
        invariant forall i :: 0 <= i < p ==> Unbounded(ctx[active[i]])
      {
        var k := active[p];
        EmptyBounds(levels, keys[k], currLevel, ctx[k], rest[k]);
        assert ctx[k].left == 0 && (ctx[k].right == -1 || ctx[k].right == LEVEL_MAX_INDEX);
        ctx := ctx[k := ctx[k].(left := 0, right := LEVEL_MAX_INDEX)];
      }
      forall k | 0 <= k < |keys| ensures Unbounded(ctx[k]) && Between(levels, keys[k], currLevel + 1, ctx[k], rest[k]) {
        EmptyLevel(levels, keys[k], currLevel);
        if k in active {
          var i :| 0 <= i < |active| && active[i] == k;
        }
      }
    }

    /** Moves all keys to the next file of level 0 or into the next level that has files for any. */
    method PrepareNextLevel() returns (more: bool)
      requires Fixed() && -1 <= currLevel < |levels|
      requires forall p :: 0 <= p < |active| ==> active[p] < |keys|
      requires currLevel == -1 ==> AllBetween(0)
      requires currLevel >= 0 ==> !maybeRepeat && batch == |active| && Ready(Here(), All(), batch, upper, false)
      modifies `currLevel, `ctx, `active, `pass, `batch, `upper
      ensures Fixed() && rest == old(rest)
      ensures more ==> 0 <= currLevel < |levels| && Ready(Here(), All(), batch, upper, false)
      ensures more ==>
                currLevel > old(currLevel) || (currLevel == 0 == old(currLevel) && pass == old(pass) + 1 < |levels[0]|)
      ensures !more ==> forall k :: 0 <= k < |keys| ==> rest[k] == []
    {
      hide LevelsOk, Indexer.Lawful, Batch, Ready, Between, Entered;
      if currLevel == 0 {
        ghost var s := Here();
        FirstKey(s, All(), upper);
        if ctx[active[0]].index < |levels[0]| {
          NextPass(s, All(), upper);
          pass := pass + 1;
          batch, upper := 0, 0;
          return true;
        }
      }
      if currLevel >= 0 {
        forall k | 0 <= k < |keys|
          ensures Between(levels, keys[k], currLevel + 1, ctx[k], rest[k]) && (k !in active ==> Unbounded(ctx[k]))
        {
          LeaveLevel(Here(), All(), upper, k);
        }
      }
      currLevel := currLevel + 1;
      while currLevel < |levels|
        invariant old(currLevel) < currLevel <= |levels| && AllBetween(currLevel) && rest == old(rest)
        invariant forall p :: 0 <= p < |active| ==> active[p] < |keys|
      {
        if |levels[currLevel]| == 0 {
          SkipEmptyLevel();
          currLevel := currLevel + 1;
        } else if currLevel == 0 {
          EnterZero();
          batch, upper := 0, 0;
          return true;
        } else {
          EnterSorted();
          if active != [] {
            EnteredIsReady(Here(), All());
            batch, upper := 0, 0;
            return true;
          }
          forall k | 0 <= k < |keys|
            ensures Between(levels, keys[k], currLevel + 1, ctx[k], rest[k]) && Unbounded(ctx[k])
          {
            SkippedByAll(Here(), All(), k);
          }
          currLevel := currLevel + 1;
        }
      }
      forall k | 0 <= k < |keys| ensures rest[k] == [] {
        NothingBelow(levels, keys[k], ctx[k], rest[k]);
      }
      return false;
    }

    constructor (levels: seq<Level>, keys: seq<IKey>, indexer: Indexer)
      requires LevelsOk(levels) && indexer.Lawful(levels) && Batch(keys)
      requires forall l :: 0 <= l < |levels| ==> |levels[l]| < LEVEL_MAX_INDEX
      ensures Valid() && this.levels == levels && this.keys == keys && |rest| == |keys|
      ensures forall k :: 0 <= k < |keys| ==> rest[k] == Lookup(levels, keys[k]).FromLevel(0)
    {
      this.levels, this.keys, this.indexer := levels, keys, indexer;
      currLevel, active, batch, upper, maybeRepeat, pass, searchEnded := -1, [], 0, 0, false, 0, false;
      ctx := seq(|keys|, _ => FULL_RANGE);
      rest := seq(|keys|, k requires 0 <= k < |keys| => Lookup(levels, keys[k]).FromLevel(0));
      new;
      var more := PrepareNextLevel();
      searchEnded := !more;
    }

    /** Measures of the way left on level 0 and for the key at `batch`. */
    ghost function PassesLeft(): nat
      reads this
    {
      if levels != [] && pass < |levels[0]| then |levels[0]| - pass else 0
    }

    ghost function FilesLeft(): nat
      reads this
    {
      if && 0 <= currLevel < |levels| && batch < |active| && active[batch] < |ctx|
         && ctx[active[batch]].index < |levels[currLevel]|
      then |levels[currLevel]| - ctx[active[batch]].index else 0
    }

    /** Called when a level has no more files to offer. */
    method PrepareNextLevelForSearch()
      requires Valid() && !searchEnded && !maybeRepeat && batch == |active|
      modifies `currLevel, `ctx, `active, `pass, `batch, `upper, `searchEnded
      ensures Valid() && rest == old(rest)
      ensures !searchEnded ==>
        && !maybeRepeat
        && (currLevel > old(currLevel) || (currLevel == 0 == old(currLevel) && pass == old(pass) + 1 < |levels[0]|))
    {
      hide LevelsOk, Indexer.Lawful, Batch, Between;
      var more := PrepareNextLevel();
      searchEnded := !more;
    }
  }

  function Record(offered: seq<seq<(nat, nat)>>, file: (nat, nat), hits: set<nat>): seq<seq<(nat, nat)>> {
    seq(|offered|, k requires 0 <= k < |offered| => if k in hits then offered[k] + [file] else offered[k])
  }

  lemma RecordKeepsTotal(offered: seq<seq<(nat, nat)>>, file: (nat, nat), hits: set<nat>,
                         rest: seq<seq<(nat, nat)>>, rest': seq<seq<(nat, nat)>>, k: nat)
    requires k < |offered| == |rest| == |rest'| && rest[k] == (if k in hits then [file] else []) + rest'[k]
    ensures Record(offered, file, hits)[k] + rest'[k] == offered[k] + rest[k]
  {
    if k in hits {
      assert (offered[k] + [file]) + rest'[k] == offered[k] + ([file] + rest'[k]);
    } else {
      assert [] + rest'[k] == rest'[k];
    }
  }

  /** The loop of `Version::MultiGet` when no lookup resolves early: each key is offered exactly the
      files, in the same order, that a picker for that key alone returns. */
  method MultiGet(levels: seq<Level>, keys: seq<IKey>, indexer: Indexer) returns (offered: seq<seq<(nat, nat)>>)
    requires LevelsOk(levels) && indexer.Lawful(levels) && Batch(keys)
    requires forall l :: 0 <= l < |levels| ==> |levels[l]| < LEVEL_MAX_INDEX
    ensures |offered| == |keys|
    ensures forall k :: 0 <= k < |keys| ==> offered[k] == Lookup(levels, keys[k]).FromLevel(0)
  {
    hide LevelsOk, Indexer.Lawful, Batch, Ready, Lookup.FromLevel;
    var fp := new FilePickerMultiGet(levels, keys, indexer);
    offered := seq(|keys|, _ => []);
    while !fp.searchEnded
      invariant fp.Valid() && fresh(fp) && fp.keys == keys && fp.levels == levels && |offered| == |keys| == |fp.rest|
      invariant forall k :: 0 <= k < |keys| ==> offered[k] + fp.rest[k] == Lookup(levels, keys[k]).FromLevel(0)
      decreases !fp.searchEnded, |levels| - fp.currLevel, fp.PassesLeft(), |fp.active| - fp.batch, fp.FilesLeft()
    {
      ghost var rest := fp.rest;
      var found, file, hits := fp.GetNextFileInLevel();
      if found {
        forall k | 0 <= k < |keys|
          ensures Record(offered, file, hits)[k] + fp.rest[k] == Lookup(levels, keys[k]).FromLevel(0)
        {
          RecordKeepsTotal(offered, file, hits, rest, fp.rest, k);
        }
        offered := Record(offered, file, hits);
      } else {
        forall k | 0 <= k < |keys| ensures fp.rest[k] == rest[k] {
          assert [] + fp.rest[k] == fp.rest[k];
        }
        fp.PrepareNextLevelForSearch();
      }
    }
  }

  lemma FirstKey(s: Scan, all: Keys, upper: nat)
    requires Ready(s, all, |s.active|, upper, false) && s.level == 0
    ensures s.active != [] && s.active[0] < |s.keys| && all.ctx[s.active[0]].index == s.pass + 1 <= |s.Files()|
  {
    assert 0 in s.active;
    assert s.DoneKey(s.active[0], all.ctx[s.active[0]], all.rest[s.active[0]]);
  }

  /** All keys have looked at the current file of level 0; there is another. */
  lemma NextPass(s: Scan, all: Keys, upper: nat)
    requires Ready(s, all, |s.active|, upper, false) && s.level == 0 && s.pass + 1 < |s.Files()|
    ensures Ready(s.(pass := s.pass + 1), all, 0, 0, false)
  {
    hide LevelsOk, Batch, Pending;
    var t := s.(pass := s.pass + 1);
    forall p | 0 <= p < |s.active|
      ensures t.PendingKey(t.active[p], all.ctx[t.active[p]], all.rest[t.active[p]])
      ensures all.ctx[t.active[p]].index == t.pass
    {
      assert s.DoneKey(s.active[p], all.ctx[s.active[p]], all.rest[s.active[p]]);
    }
  }

  lemma SkippedByAll(s: Scan, all: Keys, k: nat)
    requires Entered(s, all) && s.active == [] && k < |s.keys|
    ensures Between(s.levels, s.keys[k], s.level + 1, all.ctx[k], all.rest[k]) && Unbounded(all.ctx[k])
  {
  }

  lemma NothingBelow(levels: seq<Level>, key: IKey, c: Context, rest: seq<(nat, nat)>)
    requires Between(levels, key, |levels|, c, rest)
    ensures rest == []
  {
  }

  lemma ZeroReady(s: Scan, all: Keys)
    requires LevelsOk(s.levels) && Batch(s.keys) && s.level == 0 < |s.levels| && 0 < |s.levels[0]| && s.pass == 0
    requires all.Fits(s)
    requires |s.active| == |s.keys| && forall k :: 0 <= k < |s.keys| ==> s.active[k] == k
    requires forall k :: 0 <= k < |s.keys| ==> Pending(s.Q(k), 0, all.ctx[k], all.rest[k]) && all.ctx[k].index == 0
    ensures Ready(s, all, 0, 0, false)
  {
    hide LevelsOk, Batch, Pending;
    forall k | 0 <= k < |s.keys| ensures k in s.active {
      assert s.active[k] == k;
    }
  }

  lemma StartZero(levels: seq<Level>, key: IKey, c: Context, rest: seq<(nat, nat)>)
    requires 0 < |levels| && Between(levels, key, 0, c, rest) && Unbounded(c)
    ensures Pending(Lookup(levels, key), 0, c.(index := 0, start := 0), rest)
  {
  }

  lemma EmptyLevel(levels: seq<Level>, key: IKey, l: nat)
    requires l < |levels| && levels[l] == []
    ensures Lookup(levels, key).FromLevel(l) == Lookup(levels, key).FromLevel(l + 1)
  {
  }

  lemma EmptyBounds(levels: seq<Level>, key: IKey, l: nat, c: Context, rest: seq<(nat, nat)>)
    requires l < |levels| && levels[l] == [] && Between(levels, key, l, c, rest)
    ensures c.left == 0 && (c.right == -1 || c.right == LEVEL_MAX_INDEX)
  {
  }

  /** Once all keys are done with a level they are on their way into the next. */
  lemma LeaveLevel(s: Scan, all: Keys, upper: nat, k: nat)
    requires Ready(s, all, |s.active|, upper, false) && k < |s.keys|
    requires s.level == 0 ==> s.pass + 1 == |s.Files()|
    ensures Between(s.levels, s.keys[k], s.level + 1, all.ctx[k], all.rest[k])
    ensures k !in s.active ==> Unbounded(all.ctx[k])
  {
    hide LevelsOk, Batch, BoundsOk, Lookup.FromLevel;
    var q := s.Q(k);
    if k in s.active {
      var p :| 0 <= p < |s.active| && s.active[p] == k;
      assert s.DoneKey(k, all.ctx[k], all.rest[k]);
      if s.level == 0 {
        LevelEnd(q, 0);
        assert [] + q.FromLevel(1) == q.FromLevel(1);
        assert Unbounded(all.ctx[k]);
        UnboundedIsOk(s.levels, s.keys[k].user, all.ctx[k]);
      }
    }
  }

  lemma UnboundedIsOk(levels: seq<Level>, user: UserKey, c: Context)
    requires Unbounded(c)
    ensures forall l :: 0 <= l < |levels| ==> BoundsOk(levels[l], user, c.left, c.right)
  {
  }

  /** All keys have entered a sorted level. */
  ghost predicate Entered(s: Scan, all: Keys) {
    && s.Ok() && all.Fits(s) && s.level > 0
    && (forall p :: 0 <= p < |s.active| ==>
          Starts(s.Q(s.active[p]), s.level, all.ctx[s.active[p]], all.rest[s.active[p]]))
    && (forall k :: 0 <= k < |s.keys| && k !in s.active ==>
          Done(s.Q(k), s.level, all.ctx[k], all.rest[k]) && Unbounded(all.ctx[k]))
  }

  /** Equal keys start at the same file. */
  lemma EnteredIsReady(s: Scan, all: Keys)
    requires Entered(s, all)
    ensures Ready(s, all, 0, 0, false)
  {
    hide LevelsOk, Batch, Done, Pending;
    forall p, p' | 0 <= p < p' < |s.active| && s.keys[s.active[p]] == s.keys[s.active[p']]
      ensures all.ctx[s.active[p]].index == all.ctx[s.active[p']].index
    {
      SameStart(s.Q(s.active[p]), s.level, all.ctx[s.active[p]], all.rest[s.active[p]],
                all.ctx[s.active[p']], all.rest[s.active[p']]);
    }
  }

  lemma SameStart(q: Lookup, l: nat, c: Context, rest: seq<(nat, nat)>, c': Context, rest': seq<(nat, nat)>)
    requires l > 0 && Starts(q, l, c, rest) && Starts(q, l, c', rest')
    ensures c.index == c'.index
  {
  }

  /** On the way into level l. */
  ghost predicate Between(levels: seq<Level>, key: IKey, l: nat, c: Context, rest: seq<(nat, nat)>) {
    && l <= |levels| && rest == Lookup(levels, key).FromLevel(l)
    && (l < |levels| ==> BoundsOk(levels[l], key.user, c.left, c.right))
  }

  /** The key starts at the first file of the level that does not end before it. */
  ghost predicate Starts(q: Lookup, l: nat, c: Context, rest: seq<(nat, nat)>) {
    && Pending(q, l, c, rest) && c.index < |q.levels[l]|
    && forall j :: 0 <= j < c.index ==> Less(q.levels[l][j].largest, q.key)
  }

  /** Keys that take no part in the level are done with it, and have the whole next level to search. */
  ghost predicate OthersOk(s: Scan, all: Keys) {
    && s.Ok() && all.Fits(s)
    && (s.level == 0 ==> forall k :: 0 <= k < |s.keys| ==> k in s.active)
    && (s.level > 0 ==> forall k :: 0 <= k < |s.keys| && k !in s.active ==>
          Done(s.Q(k), s.level, all.ctx[k], all.rest[k]) && Unbounded(all.ctx[k]))
  }

  /** Between two calls. After a file that ends with the key at `batch`, that key and its duplicates
      in front of `upper` may be in the next file too; on level 0 they are done with the file. */
  ghost predicate Ready(s: Scan, all: Keys, batch: nat, upper: nat, repeating: bool) {
    && OthersOk(s, all) && batch <= |s.active| && (s.level == 0 ==> s.pass < |s.Files()|)
    && if !repeating then all.FrontOk(s, batch) && all.BackOk(s, batch)
       else
         && batch < upper <= |s.active| && all.BackOk(s, upper)
         && (upper < |s.active| ==> s.keys[s.active[upper]].user != s.keys[s.active[batch]].user)
         && if s.level == 0 then all.FrontOk(s, upper) else all.FrontOk(s, batch) && AtSameFile(s, all, batch, upper)
  }

  ghost predicate AtSameFile(s: Scan, all: Keys, batch: nat, upper: nat)
    requires s.Ok() && all.Fits(s) && batch < |s.active|
  {
    forall p :: batch <= p < upper && p < |s.active| ==>
      && s.keys[s.active[p]] == s.keys[s.active[batch]]
      && all.ctx[s.active[p]].index == all.ctx[s.active[batch]].index
      && Pending(s.Q(s.active[p]), s.level, all.ctx[s.active[p]], all.rest[s.active[p]])
  }

  lemma ReadyBounds(s: Scan, all: Keys, batch: nat, upper: nat, repeating: bool)
    requires Ready(s, all, batch, upper, repeating)
    ensures s.Ok() && all.Fits(s) && batch <= |s.active| && OthersOk(s, all)
    ensures repeating ==> batch < upper <= |s.active|
    ensures s.level == 0 ==> s.pass < |s.Files()|
  {
  }

  lemma NothingOffered(rest: seq<seq<(nat, nat)>>)
    ensures forall k :: 0 <= k < |rest| ==> rest[k] == [] + rest[k]
  {
  }

  /** Where the next scan starts. */
  lemma ResumeScan(s: Scan, all: Keys, batch: nat, upper: nat, repeating: bool)
    requires Ready(s, all, batch, upper, repeating) && batch < |s.active|
    ensures var b := if repeating && s.level == 0 then upper else batch;
            var i := if b < |s.active| then all.ctx[s.active[b]].index else |s.Files()|;
            && b <= |s.active| && all.FrontOk(s, b)
            && if i < |s.Files()| then all.BackOk(s, b) else Exhausted(s, all, b)
  {
    hide Pending, Done, LevelsOk, Batch;
    if repeating && s.level > 0 {
      ResumeRepeated(s, all, batch, upper);
    }
  }

  /** The index of the keys at positions [batch, upper) moves to the next file. */
  ghost predicate Bumped(s: Scan, all: Keys, all': Keys, batch: nat, upper: nat) {
    && all'.OnlyAt(s, batch, upper, all) && all'.rest == all.rest
    && forall p :: batch <= p < upper && p < |s.active| ==>
         all'.ctx[s.active[p]] == all.ctx[s.active[p]].(index := all.ctx[s.active[p]].index + 1)
  }

  lemma ScanEndedBounds(s: Scan, was: Keys, all: Keys, prev: nat, batch: nat, upper: nat, skipped: set<nat>, c: nat)
    requires ScanEnded(s, was, all, prev, batch, upper, skipped, c)
    ensures batch <= upper <= |s.active|
  {
  }

  lemma OthersStayOk(s: Scan, was: Keys, all: Keys, from: nat, to: nat)
    requires OthersOk(s, was) && all.OnlyAt(s, from, to, was)
    ensures OthersOk(s, all)
  {
    hide Done;
  }

  lemma ReadyToRepeat(s: Scan, was: Keys, before: Keys, all: Keys, prev: nat, batch: nat, upper: nat, skipped: set<nat>,
                      c: nat)
    requires OthersOk(s, was) && ScanEnded(s, was, before, prev, batch, upper, skipped, c)
    requires Bumped(s, before, all, batch, upper)
    ensures Ready(s, all, batch, upper, true) && all.Offered(s, was, prev, upper, skipped, c)
    ensures was.ctx[s.active[batch]].index == c && all.ctx[s.active[batch]].index == c + 1 <= |s.Files()|
    ensures all.OnlyAt(s, prev, upper, was) && prev <= batch < upper <= |s.active| && batch !in skipped
  {
    hide Pending, Done, LevelsOk, Batch;
    assert all.OnlyAt(s, prev, upper, was);
    OthersStayOk(s, was, all, prev, upper);
    assert all.BackOk(s, upper);
    assert AtSameFile(s, all, batch, upper);
    assert s.level == 0 ==> all.FrontOk(s, upper);
  }

  lemma ReadyAfterScan(s: Scan, was: Keys, all: Keys, prev: nat, batch: nat, skipped: set<nat>, c: nat)
    requires OthersOk(s, was) && ScanOk(s, was, all, prev, batch, skipped, true, c)
    requires s.level == 0 ==> s.pass < |s.Files()|
    ensures Ready(s, all, batch, batch, false) && all.Offered(s, was, prev, batch, skipped, c)
    ensures all.OnlyAt(s, prev, batch, was) && exists p :: prev <= p < batch <= |s.active| && p !in skipped
  {
    hide Pending, Done, LevelsOk, Batch;
    OthersStayOk(s, was, all, prev, batch);
  }

  lemma ReadyAfterLevel(s: Scan, was: Keys, all: Keys, upper: nat)
    requires OthersOk(s, was) && LevelDone(s, was, all) && (s.level == 0 ==> s.pass < |s.Files()|)
    ensures Ready(s, all, |s.active|, upper, false) && all.rest == was.rest
  {
    hide Pending, Done, LevelsOk, Batch;
    OthersStayOk(s, was, all, 0, |s.active|);
  }

  lemma OfferedKeys(s: Scan, was: Keys, all: Keys, prev: nat, upper: nat, skipped: set<nat>, c: nat, hits: set<nat>)
    requires all.OnlyAt(s, prev, upper, was) && all.Offered(s, was, prev, upper, skipped, c) && upper <= |s.active|
    requires hits == set p | prev <= p < upper && p !in skipped :: s.active[p]
    ensures forall k :: 0 <= k < |s.keys| ==> was.rest[k] == (if k in hits then [(s.level, c)] else []) + all.rest[k]
  {
    hide LevelsOk, Batch;
    forall k | 0 <= k < |s.keys| ensures was.rest[k] == (if k in hits then [(s.level, c)] else []) + all.rest[k] {
      if k in s.active {
        var p :| 0 <= p < |s.active| && s.active[p] == k;
        assert k in hits <==> prev <= p < upper && p !in skipped;
      }
    }
  }

  /** Behind the repeated key come greater keys. */
  lemma GreaterBehind(s: Scan, batch: nat, upper: nat)
    requires s.Ok() && batch < upper <= |s.active|
    requires upper < |s.active| ==> s.keys[s.active[upper]].user != s.keys[s.active[batch]].user
    ensures forall p :: upper <= p < |s.active| ==> s.keys[s.active[p]].user > s.keys[s.active[batch]].user
  {
    SortedKeys(s);
  }

  /** The repeated key goes on with the next file of the level, if there is one. */
  lemma ResumeRepeated(s: Scan, all: Keys, batch: nat, upper: nat)
    requires Ready(s, all, batch, upper, true) && s.level > 0
    ensures all.FrontOk(s, batch)
    ensures if all.ctx[s.active[batch]].index < |s.Files()| then all.BackOk(s, batch) else Exhausted(s, all, batch)
  {
    hide LevelsOk, Batch, Pending, Done;
    GreaterBehind(s, batch, upper);
    if all.ctx[s.active[batch]].index >= |s.Files()| {
      RepeatedAtEnd(s, all, batch, upper);
    } else {
      forall p, p' | batch <= p < p' < |s.active| && s.keys[s.active[p]] == s.keys[s.active[p']]
        ensures all.ctx[s.active[p]].index == all.ctx[s.active[p']].index
      {
      }
    }
  }

  lemma RepeatedAtEnd(s: Scan, all: Keys, batch: nat, upper: nat)
    requires Ready(s, all, batch, upper, true) && s.level > 0 && all.ctx[s.active[batch]].index >= |s.Files()|
    requires forall p :: upper <= p < |s.active| ==> s.keys[s.active[p]].user > s.keys[s.active[batch]].user
    ensures upper == |s.active| && Exhausted(s, all, batch)
  {
    hide Pending, LevelsOk, Batch;
    PositionedAtEnd(s.Q(s.active[batch]), s.level, all.ctx[s.active[batch]], all.rest[s.active[batch]]);
    if upper < |s.active| {
      NotBehindLast(s.Q(s.active[upper]), s.level, all.ctx[s.active[upper]], all.rest[s.active[upper]]);
    }
  }

  lemma PositionedAtEnd(q: Lookup, l: nat, c: Context, rest: seq<(nat, nat)>)
    requires Pending(q, l, c, rest) && l > 0 && c.index >= |q.levels[l]| > 0
    ensures c.index == |q.levels[l]| && q.levels[l][|q.levels[l]| - 1].largest.user <= q.key.user
  {
  }

  lemma NotBehindLast(q: Lookup, l: nat, c: Context, rest: seq<(nat, nat)>)
    requires LevelsOk(q.levels) && Pending(q, l, c, rest) && l > 0 && c.index < |q.levels[l]|
    ensures q.key.user <= q.levels[l][|q.levels[l]| - 1].largest.user
  {
    if c.index < |q.levels[l]| - 1 {
      SortedUsers(q.levels[l], c.index, |q.levels[l]| - 1);
    }
  }

  /** The keys from `batch` on have looked at the last file of a sorted level. */
  ghost predicate Exhausted(s: Scan, all: Keys, batch: nat) {
    && s.Ok() && all.Fits(s)
    && forall p :: batch <= p < |s.active| ==>
         && s.level > 0 && all.ctx[s.active[p]].index == |s.Files()|
         && Pending(s.Q(s.active[p]), s.level, all.ctx[s.active[p]], all.rest[s.active[p]])
  }

  /** All keys are done with the level, or with the current file of level 0, and got nothing more. */
  ghost predicate LevelDone(s: Scan, was: Keys, all: Keys) {
    all.OnlyAt(s, 0, |s.active|, was) && all.rest == was.rest && all.FrontOk(s, |s.active|)
  }

  lemma ExhaustedAreDone(s: Scan, all: Keys, batch: nat)
    requires Exhausted(s, all, batch) && batch <= |s.active| && all.FrontOk(s, batch)
    ensures all.FrontOk(s, |s.active|)
  {
    forall p | batch <= p < |s.active| ensures s.DoneKey(s.active[p], all.ctx[s.active[p]], all.rest[s.active[p]]) {
      var q := s.Q(s.active[p]);
      LevelEnd(q, s.level);
      assert [] + q.FromLevel(s.level + 1) == q.FromLevel(s.level + 1);
    }
  }

  lemma ResetKeepsDone(s: Scan, k: nat, c: Context, rest: seq<(nat, nat)>)
    requires s.level > 0 && k < |s.keys| && s.DoneKey(k, c, rest)
    ensures s.DoneKey(k, c.(left := 0, right := LEVEL_MAX_INDEX), rest)
  {
  }

  lemma ScanFoundNothing(s: Scan, was: Keys, all: Keys, prev: nat, skipped: set<nat>, c: nat)
    requires ScanOk(s, was, all, prev, |s.active|, skipped, false, c)
    ensures LevelDone(s, was, all)
  {
    hide Scan.DoneKey, LevelsOk, Batch;
    forall p | 0 <= p < |s.active| ensures was.rest[s.active[p]] == all.rest[s.active[p]] {
      assert was.rest[s.active[p]] == [] + all.rest[s.active[p]];
    }
    forall k | 0 <= k < |s.keys| ensures was.rest[k] == all.rest[k] {
      if k in s.active {
        var p :| 0 <= p < |s.active| && s.active[p] == k;
      }
    }
  }

  lemma ScanStart(s: Scan, was: Keys, batch: nat)
    requires s.Ok() && was.Fits(s) && batch <= |s.active| && was.FrontOk(s, batch) && was.BackOk(s, batch)
    ensures ScanOk(s, was, was, batch, batch, {}, false,
                   if batch < |s.active| then was.ctx[s.active[batch]].index else |s.Files()|)
  {
  }

  /** The key at `batch` can be looked at. */
  lemma ScanReady(s: Scan, was: Keys, all: Keys, prev: nat, batch: nat, skipped: set<nat>, hit: bool, c: nat)
    requires ScanOk(s, was, all, prev, batch, skipped, hit, c)
    ensures all.Fits(s) && prev <= batch <= |s.active|
    ensures batch < |s.active| ==>
      && s.PendingKey(s.active[batch], all.ctx[s.active[batch]], all.rest[s.active[batch]])
      && all.ctx[s.active[batch]].index < |s.Files()|
      && (!hit ==> all.ctx[s.active[batch]].index == c)
  {
    hide Scan.PendingKey;
  }

  /** What `SkipDuplicates` needs after a look at the key at `batch`. */
  lemma ReadyForDuplicates(s: Scan, was: Keys, all: Keys, all1: Keys, prev: nat, batch: nat, skipped: set<nat>,
                           hit: bool, c: nat)
    requires ScanOk(s, was, all, prev, batch, skipped, hit, c) && batch < |s.active|
    requires all1.OnlyAt(s, batch, batch + 1, all)
    requires all1.ctx[s.active[batch]].index == c == all.ctx[s.active[batch]].index
    requires Hit(s.Q(s.active[batch]), s.level, c) && EndOf(s.Q(s.active[batch]), s.level, c) == 0
    ensures all1.BackOk(s, batch + 1) && EndsWith(s, all1, batch, c)
  {
    hide Scan.PendingKey, LevelsOk, Batch, Hit, EndOf;
  }

  lemma NoneRepeated(s: Scan, was: Keys, batch: nat, i: nat)
    requires s.Ok() && was.Fits(s) && batch < |s.active|
    ensures was.OnlyAt(s, batch + 1, batch + 1, was) && was.Repeated(s, was, batch + 1, batch, batch + 1, i)
  {
  }
}
