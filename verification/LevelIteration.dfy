/** `LevelIterator`: one cursor over all files of a sorted level, without range tombstones, iteration
    bounds, prefix seeks and scan options. Keys are points of the order of internal keys. */
module LevelIteration {
  import opened Common

  type Key = int

  datatype File = File(smallest: Key, largest: Key, keys: seq<Key>)

  ghost predicate Ascending(keys: seq<Key>) {
    forall i, j :: 0 <= i < j < |keys| ==> keys[i] < keys[j]
  }

  /** Files are in order and hold their keys in order; a file may be empty. */
  ghost predicate LevelOk(files: seq<File>) {
    && files != []
    && (forall i :: 0 <= i < |files| ==> files[i].smallest <= files[i].largest && Ascending(files[i].keys))
    && (forall i, p :: 0 <= i < |files| && 0 <= p < |files[i].keys| ==>
          files[i].smallest <= files[i].keys[p] <= files[i].largest)
    && (forall i, j :: 0 <= i < j < |files| ==> files[i].largest < files[j].smallest)
  }

  // ----- the concatenation -----

  ghost function All(files: seq<File>): seq<Key> {
    if files == [] then [] else All(files[..|files| - 1]) + files[|files| - 1].keys
  }

  /** Where the keys of file i start. */
  ghost function Offset(files: seq<File>, i: nat): nat
    requires i <= |files|
  {
    |All(files[..i])|
  }

  lemma OffsetNext(files: seq<File>, i: nat)
    requires i < |files|
    ensures Offset(files, i + 1) == Offset(files, i) + |files[i].keys|
  {
    assert files[..i + 1][..i] == files[..i];
  }

  lemma OffsetEnds(files: seq<File>)
    ensures Offset(files, 0) == 0 && Offset(files, |files|) == |All(files)|
  {
    assert files[..|files|] == files;
  }

  lemma {:induction false} PrefixOfAll(files: seq<File>, i: nat)
    requires i <= |files|
    ensures All(files[..i]) <= All(files)
    decreases |files|
  {
    if i < |files| {
      PrefixOfAll(files[..|files| - 1], i);
      assert files[..|files| - 1][..i] == files[..i];
    } else {
      assert files[..i] == files;
    }
  }

  lemma KeyAt(files: seq<File>, i: nat, p: nat)
    requires i < |files| && p < |files[i].keys|
    ensures Offset(files, i) + p < |All(files)| && All(files)[Offset(files, i) + p] == files[i].keys[p]
  {
    assert files[..i + 1][..i] == files[..i];
    PrefixOfAll(files, i + 1);
  }

  /** Every key belongs to some place of some file. */
  lemma {:induction false} PlaceOf(files: seq<File>, g: nat) returns (i: nat, p: nat)
    requires g < |All(files)|
    ensures i < |files| && p < |files[i].keys| && g == Offset(files, i) + p && All(files)[g] == files[i].keys[p]
    decreases |files|
  {
    var front := files[..|files| - 1];
    if g < |All(front)| {
      i, p := PlaceOf(front, g);
      assert front[..i] == files[..i];
    } else {
      i, p := |files| - 1, g - |All(front)|;
    }
  }

  lemma {:induction false} OffsetMonotone(files: seq<File>, i: nat, j: nat)
    requires i <= j <= |files|
    ensures Offset(files, i) <= Offset(files, j)
    decreases j
  {
    if i < j {
      OffsetNext(files, j - 1);
      OffsetMonotone(files, i, j - 1);
    }
  }

  /** g splits the keys: those before it are below the target, the others not. */
  ghost predicate Splits(all: seq<Key>, target: Key, g: nat) {
    && g <= |all|
    && (forall n :: 0 <= n < g ==> all[n] < target)
    && (forall n :: g <= n < |all| ==> all[n] >= target)
  }

  lemma PlacesInOrder(files: seq<File>, j: nat, r: nat, i: nat)
    requires j < i <= |files| && r < |files[j].keys|
    ensures Offset(files, j) + r < Offset(files, i)
  {
    OffsetNext(files, j);
    OffsetMonotone(files, j + 1, i);
  }

  /** A split within file i, all of whose predecessors end before the target. */
  lemma SplitInFile(files: seq<File>, target: Key, i: nat, p: nat)
    requires LevelOk(files) && i < |files| && Splits(files[i].keys, target, p)
    requires i > 0 ==> files[i - 1].largest < target
    requires i + 1 < |files| ==> target <= files[i + 1].smallest
    ensures Splits(All(files), target, Offset(files, i) + p)
  {
    hide All, Offset, Ascending;
    OffsetNext(files, i);
    OffsetMonotone(files, i + 1, |files|);
    OffsetEnds(files);
    forall n | 0 <= n < |All(files)| ensures n < Offset(files, i) + p <==> All(files)[n] < target {
      var j, r := PlaceOf(files, n);
      SideOf(files, target, i, p, j, r);
    }
  }

  lemma SideOf(files: seq<File>, target: Key, i: nat, p: nat, j: nat, r: nat)
    requires LevelOk(files) && i < |files| && Splits(files[i].keys, target, p)
    requires i > 0 ==> files[i - 1].largest < target
    requires i + 1 < |files| ==> target <= files[i + 1].smallest
    requires j < |files| && r < |files[j].keys|
    ensures Offset(files, j) + r < Offset(files, i) + p <==> files[j].keys[r] < target
  {
    hide Offset, Ascending;
    if j < i {
      PlacesInOrder(files, j, r, i);
      assert files[j].largest <= files[i - 1].largest;
    } else if j > i {
      OffsetNext(files, i);
      OffsetMonotone(files, i + 1, j);
    }
  }

  /** A target behind all files. */
  lemma SplitAtEnd(files: seq<File>, target: Key)
    requires LevelOk(files) && files[|files| - 1].largest < target
    ensures Splits(All(files), target, |All(files)|)
  {
    forall n | 0 <= n < |All(files)| ensures All(files)[n] < target {
      var j, r := PlaceOf(files, n);
    }
  }

  // ----- the iterator -----

  /** `FindFile`: the first file that does not end before the target. */
  method FindFile(files: seq<File>, target: Key) returns (r: nat)
    requires LevelOk(files)
    ensures r <= |files|
    ensures forall i :: 0 <= i < r ==> files[i].largest < target
    ensures forall i :: r <= i < |files| ==> files[i].largest >= target
  {
    var below := (i: nat) => i < |files| && files[i].largest < target;
    r := LowerBound(0, |files|, below);
    assert forall i :: 0 <= i < |files| ==> below(i) == (files[i].largest < target);
  }

  /** A table iterator's `Seek`: the first position at or after the target. */
  method TableSeek(keys: seq<Key>, target: Key) returns (p: nat)
    requires Ascending(keys)
    ensures Splits(keys, target, p)
  {
    p := 0;
    while p < |keys| && keys[p] < target
      invariant p <= |keys| && forall n :: 0 <= n < p ==> keys[n] < target
    {
      p := p + 1;
    }
  }

  /** `SeekForPrev`: the last position at or before the target, -1 if none. */
  method TableSeekForPrev(keys: seq<Key>, target: Key) returns (p: int)
    requires Ascending(keys)
    ensures -1 <= p && Splits(keys, target + 1, p + 1)
  {
    var n := TableSeek(keys, target + 1);
    p := n as int - 1;
  }

  class LevelIterator {
    const files: seq<File>
    var fileIndex: nat
    /** The position of the current file's iterator; none if there is no iterator. */
    var iter: Option<int>

    ghost predicate Ok()
      reads this
    {
      && LevelOk(files)
      && (iter.Some? ==> fileIndex < |files| && -1 <= iter.value <= |files[fileIndex].keys|)
    }

    predicate Valid()
      reads this
      requires iter.Some? ==> fileIndex < |files|
    {
      iter.Some? && 0 <= iter.value < |files[fileIndex].keys|
    }

    function CurrentKey(): Key
      reads this
      requires iter.Some? && fileIndex < |files| && Valid()
    {
      files[fileIndex].keys[iter.value]
    }

    /** Where the cursor stands in the concatenation of all keys. */
    ghost function Cursor(): Option<nat>
      reads this
      requires Ok()
    {
      if Valid() then Some(Offset(files, fileIndex) + iter.value) else None
    }

    /** The key shown is the one at the cursor. */
    lemma KeyAtCursor()
      requires Ok() && Valid()
      ensures Cursor().value < |All(files)| && CurrentKey() == All(files)[Cursor().value]
    {
      KeyAt(files, fileIndex, iter.value);
    }

    constructor (files: seq<File>)
      requires LevelOk(files)
      ensures Ok() && this.files == files && Cursor() == None
    {
      this.files := files;
      fileIndex, iter := |files|, None;
    }

    /** A fresh iterator's position does not matter: every caller seeks with it. */
    method InitFileIterator(newFileIndex: nat)
      requires Ok()
      modifies this
      ensures Ok() && fileIndex == newFileIndex && (iter.Some? <==> newFileIndex < |files|)
    {
      if newFileIndex >= |files| {
        fileIndex, iter := newFileIndex, None;
      } else if iter.Some? && newFileIndex == fileIndex {
      } else {
        fileIndex, iter := newFileIndex, Some(-1);
      }
    }

    /** From position g, counted in all keys, past the ends of files. */
    method SkipEmptyFileForward(ghost g: nat)
      requires Ok()
      requires if iter.Some? then iter.value >= 0 && g == Offset(files, fileIndex) + iter.value
               else fileIndex >= |files| && g == |All(files)|
      modifies this
      ensures Ok() && Cursor() == if g < |All(files)| then Some(g) else None
    {
      hide All, Offset, LevelOk;
      OffsetEnds(files);
      while iter.None? || !Valid()
        invariant Ok() && (iter.Some? ==> iter.value >= 0 && g == Offset(files, fileIndex) + iter.value)
        invariant iter.None? ==> fileIndex >= |files| && g == |All(files)|
        decreases iter.Some?, |files| - fileIndex
      {
        if iter.Some? {
          OffsetNext(files, fileIndex);
        }
        if fileIndex >= |files| - 1 {
          iter := None;
          return;
        }
        InitFileIterator(fileIndex + 1);
        if iter.Some? {
          iter := Some(0);
        }
      }
      KeyAt(files, fileIndex, iter.value);
    }

    /** Back from position g, past the beginnings of files. */
    method SkipEmptyFileBackward(ghost g: int)
      requires Ok() && iter.Some? && iter.value < |files[fileIndex].keys| && g == Offset(files, fileIndex) + iter.value
      modifies this
      ensures Ok() && Cursor() == if g >= 0 then Some(g) else None
    {
      hide All, Offset, LevelOk;
      OffsetEnds(files);
      while iter.None? || !Valid()
        invariant Ok() && iter.Some? && iter.value < |files[fileIndex].keys|
        invariant g == Offset(files, fileIndex) + iter.value
        decreases fileIndex
      {
        if fileIndex == 0 {
          iter := None;
          return;
        }
        InitFileIterator(fileIndex - 1);
        iter := Some(|files[fileIndex].keys| - 1);
        OffsetNext(files, fileIndex);
      }
    }

    /** Lands on the first key at or after the target. */
    method Seek(target: Key) returns (ghost g: nat)
      requires Ok()
      modifies this
      ensures Ok() && Splits(All(files), target, g)
      ensures Cursor() == if g < |All(files)| then Some(g) else None
    {
      hide All, Offset, Ascending;
      var reseek := true;
      if iter.Some? && target <= files[fileIndex].largest && target >= files[fileIndex].smallest {
        reseek := false;
        assert forall i :: 0 <= i < fileIndex ==> files[i].largest < target;
      }
      if reseek {
        var newFileIndex := FindFile(files, target);
        InitFileIterator(newFileIndex);
      }
      if iter.Some? {
        var p := TableSeek(files[fileIndex].keys, target);
        iter := Some(p);
        SplitInFile(files, target, fileIndex, p);
        g := Offset(files, fileIndex) + p;
      } else {
        SplitAtEnd(files, target);
        g := |All(files)|;
      }
      SkipEmptyFileForward(g);
    }

    /** Lands on the last key at or before the target. */
    method SeekForPrev(target: Key) returns (ghost g: nat)
      requires Ok()
      modifies this
      ensures Ok() && Splits(All(files), target + 1, g)
      ensures Cursor() == if g > 0 then Some(g - 1) else None
    {
      hide All, Offset, Ascending;
      var newFileIndex := FindFile(files, target);
      if newFileIndex == 0 && target < files[0].smallest {
        iter := None;
        NothingBefore(files, target);
        g := 0;
        return;
      }
      if newFileIndex >= |files| {
        newFileIndex := |files| - 1;
      }
      InitFileIterator(newFileIndex);
      var p := TableSeekForPrev(files[fileIndex].keys, target);
      iter := Some(p);
      SplitForPrev(files, target, fileIndex, p + 1);
      g := Offset(files, fileIndex) + p + 1;
      SkipEmptyFileBackward(g as int - 1);
    }

    method SeekToFirst()
      requires Ok()
      modifies this
      ensures Ok() && Cursor() == if All(files) != [] then Some(0) else None
    {
      hide All, Offset, Ascending;
      InitFileIterator(0);
      iter := Some(0);
      OffsetEnds(files);
      SkipEmptyFileForward(0);
    }

    method SeekToLast()
      requires Ok()
      modifies this
      ensures Ok() && Cursor() == if All(files) != [] then Some(|All(files)| - 1) else None
    {
      hide All, Offset, Ascending;
      InitFileIterator(|files| - 1);
      iter := Some(|files[fileIndex].keys| - 1);
      OffsetEnds(files);
      OffsetNext(files, fileIndex);
      SkipEmptyFileBackward(|All(files)| - 1);
    }

    method Next()
      requires Ok() && Valid()
      modifies this
      ensures Ok() && Cursor() == if old(Cursor()).value + 1 < |All(files)| then Some(old(Cursor()).value + 1) else None
    {
      hide All, Offset, Ascending;
      ghost var g := Cursor().value;
      iter := Some(iter.value + 1);
      SkipEmptyFileForward(g + 1);
    }

    method Prev()
      requires Ok() && Valid()
      modifies this
      ensures Ok() && Cursor() == if old(Cursor()).value > 0 then Some(old(Cursor()).value - 1) else None
    {
      hide All, Offset, Ascending;
      ghost var g := Cursor().value;
      iter := Some(iter.value - 1);
      SkipEmptyFileBackward(g as int - 1);
    }
  }

  lemma NothingBefore(files: seq<File>, target: Key)
    requires LevelOk(files) && target < files[0].smallest
    ensures Splits(All(files), target + 1, 0)
  {
    hide All;
    forall n | 0 <= n < |All(files)| ensures All(files)[n] >= target + 1 {
      var j, r := PlaceOf(files, n);
      assert j > 0 ==> files[0].largest < files[j].smallest;
    }
  }

  /** Keys up to and including the target. */
  lemma SplitForPrev(files: seq<File>, target: Key, i: nat, p: nat)
    requires LevelOk(files) && i < |files| && Splits(files[i].keys, target + 1, p)
    requires forall j :: 0 <= j < i ==> files[j].largest < target
    requires target <= files[i].largest || i == |files| - 1
    ensures Splits(All(files), target + 1, Offset(files, i) + p)
  {
    hide All, Offset, Ascending;
    SplitInFile(files, target + 1, i, p);
  }
}
