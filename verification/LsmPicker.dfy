/** `FilePicker`: the files to search for a key, level by level, with bounds for each level taken
    from the comparisons made in the level above. */
module LsmPicker {
  import opened LsmFiles

  /** `FileIndexer::kLevelMaxIndex`. */
  const LEVEL_MAX_INDEX := 0x7fff_ffff

  // ----- the index from a level into the next -----

  /** Files left of the bounds lie wholly before the key, files right of them wholly after it. An
      empty level has the bounds [0, -1]. */
  ghost predicate Encloses(files: Level, user: UserKey, left: int, right: int) {
    && (files == [] ==> left == 0 && right == -1)
    && 0 <= left <= |files| && -1 <= right < |files|
    && (forall j :: 0 <= j < left ==> files[j].largest.user < user)
    && (forall j :: right < j < |files| && 0 <= j ==> files[j].smallest.user > user)
  }

  /** The key does not lie before the end of the file in front of file i. */
  ghost predicate Positioned(files: Level, i: nat, user: UserKey) {
    i == 0 || (i <= |files| && files[i - 1].largest.user <= user)
  }

  function CompareSmallest(f: File, user: UserKey): int {
    Compare(user, f.smallest.user)
  }

  function CompareLargest(f: File, user: UserKey): int {
    if CompareSmallest(f, user) >= 0 then Compare(user, f.largest.user) else -1
  }

  /** `FileIndexer::GetNextLevelIndex` is not part of the model: any function from level, file and
      the two comparisons to bounds that enclose the key in the next level. */
  datatype Indexer = Indexer(bounds: (nat, nat, int, int) -> (int, int))
  {
    ghost predicate Lawful(levels: seq<Level>) {
      forall l: nat, i: nat, user: UserKey :: LawfulAt(levels, l, i, user)
    }

    ghost predicate LawfulAt(levels: seq<Level>, l: nat, i: nat, user: UserKey) {
      1 <= l && l + 1 < |levels| && i < |levels[l]| && Positioned(levels[l], i, user) ==>
        var b := bounds(l, i, CompareSmallest(levels[l][i], user), CompareLargest(levels[l][i], user));
        Encloses(levels[l + 1], user, b.0, b.1)
    }
  }

  /** There is such an index for any levels: all files of the next one. */
  lemma SomeIndexer(levels: seq<Level>) returns (indexer: Indexer)
    ensures indexer.Lawful(levels)
  {
    indexer := Indexer((l: nat, i: nat, a: int, b: int) => (0, if l + 1 < |levels| then |levels[l + 1]| - 1 else -1));
  }

  // ----- the files that ought to be searched -----

  predicate Before(a: (nat, nat), b: (nat, nat)) {
    a.0 < b.0 || (a.0 == b.0 && a.1 < b.1)
  }

  ghost predicate InOrder(s: seq<(nat, nat)>) {
    forall i, j :: 0 <= i < j < |s| ==> Before(s[i], s[j])
  }

  datatype Lookup = Lookup(levels: seq<Level>, key: IKey)
  {
    /** With one level of at most three files, all are searched. */
    predicate Filtered(l: nat)
      requires l < |levels|
    {
      |levels| > 1 || |levels[l]| > 3
    }

    predicate Wants(l: nat, i: nat)
      requires l < |levels| && i < |levels[l]|
    {
      var f := levels[l][i];
      !Filtered(l) || (InRange(f, key.user) && (l == 0 || !Less(f.largest, key)))
    }

    /** The wanted files of a level, from an index on. */
    function InLevel(l: nat, from: nat): seq<(nat, nat)>
      requires l < |levels| && from <= |levels[l]|
      decreases |levels[l]| - from
    {
      if from == |levels[l]| then []
      else (if Wants(l, from) then [(l, from)] else []) + InLevel(l, from + 1)
    }

    /** The wanted files of a level and all below it, level by level. */
    function FromLevel(l: nat): seq<(nat, nat)>
      requires l <= |levels|
      decreases |levels| - l
    {
      if l == |levels| then [] else InLevel(l, 0) + FromLevel(l + 1)
    }

    ghost predicate Exists(p: (nat, nat)) {
      p.0 < |levels| && p.1 < |levels[p.0]|
    }

    /** Exactly the wanted files of the level. */
    lemma {:induction false} InLevelExactly(l: nat, from: nat, p: (nat, nat))
      requires l < |levels| && from <= |levels[l]|
      ensures p in InLevel(l, from) <==> p.0 == l && from <= p.1 < |levels[l]| && Wants(l, p.1)
      decreases |levels[l]| - from
    {
      if from < |levels[l]| {
        InLevelExactly(l, from + 1, p);
      }
    }

    /** Exactly the wanted files of all levels. */
    lemma {:induction false} FromLevelExactly(l: nat, p: (nat, nat))
      requires l <= |levels|
      ensures p in FromLevel(l) <==> l <= p.0 && Exists(p) && Wants(p.0, p.1)
      decreases |levels| - l
    {
      if l < |levels| {
        InLevelExactly(l, 0, p);
        FromLevelExactly(l + 1, p);
      }
    }

    /** In key terms: all files if there is one level of at most three; else those whose user keys enclose the key
        and which, below level 0, do not end with a newer entry of it. */
    lemma SearchedExactly(p: (nat, nat))
      requires Exists(p)
      ensures var f := levels[p.0][p.1];
              p in FromLevel(0)
              <==> || (|levels| == 1 && |levels[p.0]| <= 3)
                   || f.smallest.user <= key.user < f.largest.user
                   || (&& f.smallest.user <= key.user == f.largest.user
                       && (p.0 == 0 || f.largest.seqno <= key.seqno))
    {
      FromLevelExactly(0, p);
    }

    lemma {:induction false} InLevelInOrder(l: nat, from: nat)
      requires l < |levels| && from <= |levels[l]|
      ensures InOrder(InLevel(l, from))
      decreases |levels[l]| - from
    {
      if from < |levels[l]| {
        InLevelInOrder(l, from + 1);
        forall p | p in InLevel(l, from + 1) ensures Before((l, from), p) {
          InLevelExactly(l, from + 1, p);
        }
      }
    }

    /** Level by level and in each level by index, each file once. */
    lemma {:induction false} FromLevelInOrder(l: nat)
      requires l <= |levels|
      ensures InOrder(FromLevel(l))
      decreases |levels| - l
    {
      if l < |levels| {
        InLevelInOrder(l, 0);
        FromLevelInOrder(l + 1);
        forall p, p' | p in InLevel(l, 0) && p' in FromLevel(l + 1) ensures Before(p, p') {
          InLevelExactly(l, 0, p);
          FromLevelExactly(l + 1, p');
        }
      }
    }

    lemma {:induction false} NoneWanted(l: nat, from: nat, to: nat)
      requires l < |levels| && from <= to <= |levels[l]|
      requires forall i :: from <= i < to ==> !Wants(l, i)
      ensures InLevel(l, from) == InLevel(l, to)
      decreases |levels[l]| - from
    {
      if from < to {
        NoneWanted(l, from + 1, to);
      }
    }
  }

  // ----- one level below level 0 -----

  /** The bounds at the entry to a level: no restriction, or the key is enclosed. */
  ghost predicate BoundsOk(files: Level, user: UserKey, left: int, right: int) {
    (left == 0 && right == LEVEL_MAX_INDEX) || Encloses(files, user, left, right)
  }

  function RightIndex(files: Level, right: int): int {
    if right == LEVEL_MAX_INDEX then |files| - 1 else right
  }

  lemma BoundsEnclose(files: Level, user: UserKey, left: int, right: int)
    requires BoundsOk(files, user, left, right) && 0 < |files| < LEVEL_MAX_INDEX
    ensures Encloses(files, user, left, RightIndex(files, right))
  {
  }

  /** Everything the search of a level skips is unwanted, and the file it starts at has the key
      behind the file in front. */
  lemma SearchSkips(q: Lookup, l: nat, left: int, right: int, start: nat)
    requires LevelsOk(q.levels) && 1 <= l < |q.levels|
    requires Encloses(q.levels[l], q.key.user, left, right) && left <= start <= right + 1
    requires forall i :: left <= i < start ==> Less(q.levels[l][i].largest, q.key)
    ensures q.InLevel(l, 0) == q.InLevel(l, start)
    ensures Positioned(q.levels[l], start, q.key.user)
    ensures start == right + 1 ==> q.InLevel(l, 0) == []
  {
    q.NoneWanted(l, 0, start);
    if start == right + 1 {
      q.NoneWanted(l, start, |q.levels[l]|);
    }
  }

  lemma NoneEnclosed(q: Lookup, l: nat, left: int, right: int)
    requires LevelsOk(q.levels) && 1 <= l < |q.levels|
    requires Encloses(q.levels[l], q.key.user, left, right) && left > right
    ensures q.InLevel(l, 0) == []
  {
    q.NoneWanted(l, 0, |q.levels[l]|);
  }

  /** Behind a file that ends after the key no file is wanted. */
  lemma NoneBehind(q: Lookup, l: nat, i: nat)
    requires LevelsOk(q.levels) && 1 <= l < |q.levels| && i < |q.levels[l]|
    requires q.key.user < q.levels[l][i].largest.user
    ensures q.InLevel(l, i + 1) == []
    ensures q.key.user < q.levels[l][i].smallest.user ==> q.InLevel(l, i) == []
  {
    forall j | i < j < |q.levels[l]| ensures !q.Wants(l, j) {
      SortedUsers(q.levels[l], i, j);
    }
    q.NoneWanted(l, i + 1, |q.levels[l]|);
  }

  class FilePicker {
    const q: Lookup
    const indexer: Indexer
    var currLevel: int
    var left: int
    var right: int
    var searchEnded: bool
    var currIndex: nat
    var startIndex: nat

    ghost predicate Fixed()
      reads this
    {
      && LevelsOk(q.levels) && indexer.Lawful(q.levels)
      && forall l :: 0 <= l < |q.levels| ==> |q.levels[l]| < LEVEL_MAX_INDEX
    }

    /** Between calls the picker is at a file or behind the last file of a level, or has ended. */
    ghost predicate Valid()
      reads this
    {
      && Fixed()
      && (!searchEnded ==>
            && 0 <= currLevel < |q.levels| && At(currLevel, currIndex)
            && NextBounds(currLevel, currIndex))
    }

    /** Below level 0 the picker stands behind all files that end before the lookup key. */
    ghost predicate At(l: nat, i: nat)
      reads this
      requires l < |q.levels|
    {
      && i <= |q.levels[l]|
      && (l > 0 ==> Positioned(q.levels[l], i, q.key.user) && startIndex <= i)
      && (l > 0 && i < |q.levels[l]| ==> !Less(q.levels[l][i].largest, q.key))
      && (l > 0 && startIndex < i < |q.levels[l]| ==> q.key.user <= q.levels[l][i].smallest.user)
    }

    /** If the level is exhausted, the bounds are those for the next. */
    ghost predicate NextBounds(l: nat, i: nat)
      reads this
      requires l < |q.levels|
    {
      (l == 0 || i == |q.levels[l]|) && l + 1 < |q.levels| ==> BoundsOk(q.levels[l + 1], q.key.user, left, right)
    }

    /** The files still to be returned. */
    ghost function Remaining(): seq<(nat, nat)>
      reads this
      requires Valid()
    {
      if searchEnded then [] else q.InLevel(currLevel, currIndex) + q.FromLevel(currLevel + 1)
    }

    /** Below level 0: the first file within the bounds that does not end before the lookup key. */
    method StartInLevel() returns (found: bool, start: nat)
      requires LevelsOk(q.levels) && 1 <= currLevel < |q.levels| && 0 < |q.levels[currLevel]| < LEVEL_MAX_INDEX
      requires BoundsOk(q.levels[currLevel], q.key.user, left, right)
      modifies `right
      ensures !found ==> q.InLevel(currLevel, 0) == []
      ensures found ==>
        && start < |q.levels[currLevel]|
        && q.InLevel(currLevel, 0) == q.InLevel(currLevel, start)
        && Positioned(q.levels[currLevel], start, q.key.user)
        && !Less(q.levels[currLevel][start].largest, q.key)
    {
      hide Lookup.InLevel, FilesOk, Sorted;
      var files := q.levels[currLevel];
      BoundsEnclose(files, q.key.user, left, right);
      if left > right {
        NoneEnclosed(q, currLevel, left, right);
        return false, 0;
      }
      if right == LEVEL_MAX_INDEX {
        right := |files| - 1;
      }
      start := FindFileInRange(files, q.key, left, right + 1);
      SearchSkips(q, currLevel, left, right, start);
      found := start != right + 1;
    }

    /** Moves to the first file to look at in the next level that can hold the key. */
    method PrepareNextLevel() returns (more: bool)
      requires Fixed() && -1 <= currLevel < |q.levels|
      requires currLevel + 1 < |q.levels| ==> BoundsOk(q.levels[currLevel + 1], q.key.user, left, right)
      requires currLevel == -1 ==> left == 0 && right == LEVEL_MAX_INDEX
      modifies `currLevel, `left, `right, `currIndex, `startIndex
      ensures Fixed()
      ensures more ==> 0 <= currLevel < |q.levels| && currLevel > old(currLevel)
      ensures more ==> At(currLevel, currIndex) && NextBounds(currLevel, currIndex)
      ensures q.FromLevel(old(currLevel) + 1)
           == if more then q.InLevel(currLevel, currIndex) + q.FromLevel(currLevel + 1) else []
    {
      hide Lookup.InLevel, FilesOk, Sorted, Indexer.Lawful;
      currLevel := currLevel + 1;
      while currLevel < |q.levels|
        invariant old(currLevel) < currLevel <= |q.levels| && Fixed()
        invariant currLevel < |q.levels| ==> BoundsOk(q.levels[currLevel], q.key.user, left, right)
        invariant currLevel == 0 ==> left == 0 && right == LEVEL_MAX_INDEX
        invariant q.FromLevel(currLevel) == q.FromLevel(old(currLevel) + 1)
      {
        var start := 0;
        if |q.levels[currLevel]| == 0 {
          assert left == 0 && (right == -1 || right == LEVEL_MAX_INDEX);
          LevelEnd(q, currLevel);
          left, right := 0, LEVEL_MAX_INDEX;
          currLevel := currLevel + 1;
          continue;
        }
        if currLevel > 0 {
          var found;
          found, start := StartInLevel();
          if !found {
            left, right := 0, LEVEL_MAX_INDEX;
            currLevel := currLevel + 1;
            continue;
          }
        }
        startIndex, currIndex := start, start;
        return true;
      }
      return false;
    }

    constructor (q: Lookup, indexer: Indexer)
      requires LevelsOk(q.levels) && indexer.Lawful(q.levels)
      requires forall l :: 0 <= l < |q.levels| ==> |q.levels[l]| < LEVEL_MAX_INDEX
      ensures Valid() && this.q == q && Remaining() == q.FromLevel(0)
    {
      this.q, this.indexer := q, indexer;
      currLevel, left, right, searchEnded, currIndex, startIndex := -1, 0, LEVEL_MAX_INDEX, false, 0, 0;
      new;
      var more := PrepareNextLevel();
      searchEnded := !more;
    }

    /** Compares the key with the range of the current file and sets the bounds for the next level. */
    method CompareWithFile() returns (cmpSmallest: int, cmpLargest: int)
      requires Valid() && !searchEnded && currIndex < |q.levels[currLevel]|
      modifies `left, `right
      ensures Fixed()
      ensures cmpSmallest == CompareSmallest(q.levels[currLevel][currIndex], q.key.user)
      ensures cmpLargest == CompareLargest(q.levels[currLevel][currIndex], q.key.user)
      ensures currLevel + 1 < |q.levels| ==> BoundsOk(q.levels[currLevel + 1], q.key.user, left, right)
    {
      hide LevelsOk, Encloses;
      var f := q.levels[currLevel][currIndex];
      cmpSmallest := Compare(q.key.user, f.smallest.user);
      cmpLargest := -1;
      if cmpSmallest >= 0 {
        cmpLargest := Compare(q.key.user, f.largest.user);
      }
      if currLevel > 0 {
        assert currIndex == startIndex || q.key.user <= f.smallest.user;
        assert indexer.LawfulAt(q.levels, currLevel, currIndex, q.key.user);
        var b := indexer.bounds(currLevel, currIndex, cmpSmallest, cmpLargest);
        left, right := b.0, b.1;
      }
    }

    /** Whether file and comparison are those of a file to return. */
    ghost predicate Hit(cmpLargest: int)
      reads this
    {
      && 0 <= currLevel < |q.levels| && currIndex < |q.levels[currLevel]|
      && (q.Filtered(currLevel) ==>
            && CompareSmallest(q.levels[currLevel][currIndex], q.key.user) >= 0
            && CompareLargest(q.levels[currLevel][currIndex], q.key.user) <= 0
            && cmpLargest == CompareLargest(q.levels[currLevel][currIndex], q.key.user))
      && (currLevel + 1 < |q.levels| ==> BoundsOk(q.levels[currLevel + 1], q.key.user, left, right))
    }

    /** Returns the current file and moves on: to the next level if the key lies before its end. */
    method Take(cmpLargest: int) returns (file: (nat, nat))
      requires Valid() && !searchEnded && Hit(cmpLargest)
      modifies this
      ensures Valid() && old(Remaining()) == [file] + Remaining()
    {
      hide LevelsOk, Indexer.Lawful, Lookup.FromLevel, Lookup.InLevel, BoundsOk, Less, Positioned, CompareSmallest;
      hide CompareLargest;
      Wanted(q, currLevel, currIndex);
      file := (currLevel, currIndex);
      if currLevel > 0 && cmpLargest < 0 {
        var more := PrepareNextLevel();
        searchEnded := !more;
      } else {
        currIndex := currIndex + 1;
      }
    }

    /** Key range filtering of the current file. */
    method Filter() returns (hit: bool, cmpLargest: int)
      requires Valid() && !searchEnded && currIndex < |q.levels[currLevel]|
      modifies `left, `right
      ensures Valid()
      ensures hit ==> Hit(cmpLargest)
      ensures !hit ==>
        && q.InLevel(currLevel, currIndex) == (if currLevel == 0 then q.InLevel(currLevel, currIndex + 1) else [])
        && (currLevel + 1 < |q.levels| ==> BoundsOk(q.levels[currLevel + 1], q.key.user, left, right))
    {
      hide LevelsOk, Indexer.Lawful, Lookup.FromLevel, Lookup.InLevel, Encloses, BoundsOk, Less, InRange, Positioned;
      hide CompareSmallest, CompareLargest;
      hit, cmpLargest := true, -1;
      if |q.levels| > 1 || |q.levels[currLevel]| > 3 {
        var cmpSmallest;
        cmpSmallest, cmpLargest := CompareWithFile();
        if cmpSmallest < 0 || cmpLargest > 0 {
          Unwanted(q, currLevel, currIndex);
          hit := false;
        }
      }
    }

    method SkipFile()
      requires Valid() && !searchEnded && currLevel == 0 && currIndex < |q.levels[0]|
      modifies `currIndex
      ensures Valid() && currIndex == old(currIndex) + 1
    {
      hide LevelsOk, Indexer.Lawful, BoundsOk;
      currIndex := currIndex + 1;
    }

    /** Nothing of this level is wanted any more, and the bounds fit the next. */
    ghost predicate Passed(level: int, remaining: seq<(nat, nat)>)
      reads this
    {
      && Fixed() && !searchEnded && 0 <= currLevel == level < |q.levels|
      && remaining == q.FromLevel(currLevel + 1)
      && (currLevel + 1 < |q.levels| ==> BoundsOk(q.levels[currLevel + 1], q.key.user, left, right))
    }

    /** One turn of the inner loop: the file is returned, or ends the search of its level, or is passed. */
    method VisitFile() returns (found: bool, over: bool, file: (nat, nat))
      requires Valid() && !searchEnded && currIndex < |q.levels[currLevel]|
      modifies this
      ensures found ==> Valid() && old(Remaining()) == [file] + Remaining()
      ensures !found && over ==> Passed(old(currLevel), old(Remaining()))
      ensures !found && !over ==> Valid() && !searchEnded && currLevel == old(currLevel)
      ensures !found && !over ==> currIndex == old(currIndex) + 1 && Remaining() == old(Remaining())
    {
      hide LevelsOk, Indexer.Lawful, Lookup.FromLevel, Lookup.InLevel, BoundsOk, Less, Positioned, Hit, Fixed;
      found, over, file := false, false, (0, 0);
      var hit, cmpLargest := Filter();
      if hit {
        found := true;
        file := Take(cmpLargest);
      } else if currLevel > 0 {
        over := true;
        assert [] + q.FromLevel(currLevel + 1) == q.FromLevel(currLevel + 1);
      } else {
        SkipFile();
      }
    }

    /** The inner loop of `GetNextFile`: the next wanted file of the current level, if any. */
    method NextInLevel() returns (found: bool, file: (nat, nat))
      requires Valid() && !searchEnded
      modifies this
      ensures found ==> Valid() && old(Remaining()) == [file] + Remaining()
      ensures !found ==> Passed(old(currLevel), old(Remaining()))
    {
      hide LevelsOk, Indexer.Lawful, Lookup.FromLevel, Lookup.InLevel, BoundsOk, Less, Positioned, Hit, Fixed;
      while currIndex < |q.levels[currLevel]|
        invariant Valid() && !searchEnded && currLevel == old(currLevel)
        invariant Remaining() == old(Remaining())
      {
        var over;
        found, over, file := VisitFile();
        if found || over {
          return;
        }
      }
      found, file := false, (0, 0);
      LevelEnd(q, currLevel);
      assert [] + q.FromLevel(currLevel + 1) == q.FromLevel(currLevel + 1);
    }

    /** The next file to search, or none. */
    method GetNextFile() returns (found: bool, file: (nat, nat))
      requires Valid()
      modifies this
      ensures Valid()
      ensures if found then old(Remaining()) == [file] + Remaining() else old(Remaining()) == [] && Remaining() == []
    {
      hide LevelsOk, Indexer.Lawful, Lookup.FromLevel, Lookup.InLevel, BoundsOk;
      while !searchEnded
        invariant Valid() && Remaining() == old(Remaining())
        decreases !searchEnded, |q.levels| - currLevel
      {
        found, file := NextInLevel();
        if found {
          return;
        }
        var more := PrepareNextLevel();
        searchEnded := !more;
      }
      found, file := false, (0, 0);
    }
  }

  lemma Unwanted(q: Lookup, l: nat, i: nat)
    requires LevelsOk(q.levels) && l < |q.levels| && i < |q.levels[l]| && q.Filtered(l)
    requires l > 0 ==> !Less(q.levels[l][i].largest, q.key)
    requires CompareSmallest(q.levels[l][i], q.key.user) < 0 || CompareLargest(q.levels[l][i], q.key.user) > 0
    ensures q.InLevel(l, i) == if l == 0 then q.InLevel(l, i + 1) else []
  {
    if l > 0 {
      assert FilesOk(q.levels[l]) && FileOk(q.levels[l][i]);
      NoneBehind(q, l, i);
    }
  }

  /** A file whose range holds the key: no other follows if the key lies before its end. */
  lemma Wanted(q: Lookup, l: nat, i: nat)
    requires LevelsOk(q.levels) && l < |q.levels| && i < |q.levels[l]|
    requires l > 0 ==> !Less(q.levels[l][i].largest, q.key)
    requires q.Filtered(l) ==>
               CompareSmallest(q.levels[l][i], q.key.user) >= 0 && CompareLargest(q.levels[l][i], q.key.user) <= 0
    ensures q.InLevel(l, i) == [(l, i)] + q.InLevel(l, i + 1)
    ensures l > 0 && CompareLargest(q.levels[l][i], q.key.user) < 0 ==> q.InLevel(l, i + 1) == []
    ensures l > 0 && CompareLargest(q.levels[l][i], q.key.user) == 0 ==> Positioned(q.levels[l], i + 1, q.key.user)
    ensures l > 0 && CompareLargest(q.levels[l][i], q.key.user) == 0 && i + 1 < |q.levels[l]| ==>
      !Less(q.levels[l][i + 1].largest, q.key) && q.key.user <= q.levels[l][i + 1].smallest.user
  {
    if l > 0 {
      if CompareLargest(q.levels[l][i], q.key.user) < 0 {
        NoneBehind(q, l, i);
      } else if i + 1 < |q.levels[l]| {
        SortedUsers(q.levels[l], i, i + 1);
      }
    }
  }

  lemma LevelEnd(q: Lookup, l: nat)
    requires l < |q.levels|
    ensures q.InLevel(l, |q.levels[l]|) == []
  {
  }
}
