/** `EstimateLiveDataSize`: the sizes of a maximal family of files that do not overlap, deepest level
    first. Keys are points of the order of internal keys. */
module LiveSize {
  type Key = int

  datatype File = File(smallest: Key, largest: Key, size: nat)

  type Levels = seq<seq<File>>

  ghost predicate LevelsOk(levels: Levels) {
    && (forall l, i :: 0 <= l < |levels| && 0 <= i < |levels[l]| ==> levels[l][i].smallest <= levels[l][i].largest)
    && (forall l, i, j :: 1 <= l < |levels| && 0 <= i < j < |levels[l]| ==>
          levels[l][i].largest < levels[l][j].smallest)
  }

  predicate Overlap(a: File, b: File) {
    a.smallest <= b.largest && b.smallest <= a.largest
  }

  ghost predicate Exists(levels: Levels, p: (nat, nat)) {
    p.0 < |levels| && p.1 < |levels[p.0]|
  }

  ghost predicate AllExist(levels: Levels, s: seq<(nat, nat)>) {
    forall i :: 0 <= i < |s| ==> Exists(levels, s[i])
  }

  function At(levels: Levels, p: (nat, nat)): File
    requires Exists(levels, p)
  {
    levels[p.0][p.1]
  }

  ghost function Sum(levels: Levels, s: seq<(nat, nat)>): nat
    requires AllExist(levels, s)
  {
    if s == [] then 0 else At(levels, s[0]).size + Sum(levels, s[1..])
  }

  /** The counted files in key order, each ending before the next begins. */
  ghost predicate Apart(levels: Levels, s: seq<(nat, nat)>) {
    AllExist(levels, s) && forall i, j :: 0 <= i < j < |s| ==> At(levels, s[i]).largest < At(levels, s[j]).smallest
  }

  /** A file is counted, or overlaps a counted file of its own or a deeper level. */
  ghost predicate Represented(levels: Levels, s: seq<(nat, nat)>, p: (nat, nat)) {
    && AllExist(levels, s) && Exists(levels, p)
    && (p in s || exists i :: 0 <= i < |s| && s[i].0 >= p.0 && Overlap(At(levels, s[i]), At(levels, p)))
  }

  lemma {:induction false} SumInsert(levels: Levels, s: seq<(nat, nat)>, at: nat, p: (nat, nat))
    requires AllExist(levels, s) && at <= |s| && Exists(levels, p)
    ensures AllExist(levels, s[..at] + [p] + s[at..])
    ensures Sum(levels, s[..at] + [p] + s[at..]) == Sum(levels, s) + At(levels, p).size
    decreases |s|
  {
    var t := s[..at] + [p] + s[at..];
    forall i | 0 <= i < |t| ensures Exists(levels, t[i]) {
      assert t[i] == if i < at then s[i] else if i == at then p else s[i - 1];
    }
    if at == 0 {
      assert t[1..] == s;
    } else {
      SumInsert(levels, s[1..], at - 1, p);
      assert t[1..] == s[1..][..at - 1] + [p] + s[1..][at - 1..];
    }
  }

  lemma RepresentedLonger(levels: Levels, s: seq<(nat, nat)>, at: nat, q: (nat, nat), p: (nat, nat))
    requires Represented(levels, s, p) && at <= |s| && Exists(levels, q)
    requires AllExist(levels, s[..at] + [q] + s[at..])
    ensures Represented(levels, s[..at] + [q] + s[at..], p)
  {
    var t := s[..at] + [q] + s[at..];
    assert forall i :: 0 <= i < |s| ==> s[i] == t[if i < at then i else i + 1];
    if p in s {
      var i :| 0 <= i < |s| && s[i] == p;
      assert t[if i < at then i else i + 1] == p;
    } else {
      var i :| 0 <= i < |s| && s[i].0 >= p.0 && Overlap(At(levels, s[i]), At(levels, p));
      assert t[if i < at then i else i + 1] == s[i];
    }
  }

  /** A file that ends before the first counted file it could overlap is apart from all of them. */
  lemma InsertApart(levels: Levels, s: seq<(nat, nat)>, at: nat, p: (nat, nat))
    requires Apart(levels, s) && LevelsOk(levels) && at <= |s| && Exists(levels, p)
    requires forall i :: 0 <= i < at ==> At(levels, s[i]).largest < At(levels, p).smallest
    requires at < |s| ==> At(levels, p).largest < At(levels, s[at]).smallest
    ensures Apart(levels, s[..at] + [p] + s[at..])
  {
    var t := s[..at] + [p] + s[at..];
    assert forall i :: 0 <= i < |t| ==> t[i] == if i < at then s[i] else if i == at then p else s[i - 1];
    forall i, j | 0 <= i < j < |t| ensures At(levels, t[i]).largest < At(levels, t[j]).smallest {
      if i == at && j > at + 1 {
        assert At(levels, s[at]).largest < At(levels, s[j - 1]).smallest;
      }
    }
  }

  /** `std::map::lower_bound` on the largest keys. */
  method LowerBound(levels: Levels, ranges: seq<(nat, nat)>, key: Key) returns (at: nat)
    requires Apart(levels, ranges) && LevelsOk(levels)
    ensures at <= |ranges|
    ensures forall i :: 0 <= i < at ==> At(levels, ranges[i]).largest < key
    ensures forall i :: at <= i < |ranges| ==> At(levels, ranges[i]).largest >= key
  {
    at := 0;
    while at < |ranges| && At(levels, ranges[at]).largest < key
      invariant at <= |ranges|
      invariant forall i :: 0 <= i < at ==> At(levels, ranges[i]).largest < key
    {
      at := at + 1;
    }
  }

  /** `ranges` is the ordered map of the source: the counted files by largest key. */
  method EstimateLiveDataSize(levels: Levels) returns (size: nat, ranges: seq<(nat, nat)>)
    requires LevelsOk(levels)
    ensures Apart(levels, ranges) && size == Sum(levels, ranges)
    ensures forall p: (nat, nat) :: Exists(levels, p) ==> Represented(levels, ranges, p)
  {
    size, ranges := 0, [];
    var l := |levels|;
    while l > 0
      invariant 0 <= l <= |levels|
      invariant Apart(levels, ranges) && size == Sum(levels, ranges)
      invariant forall i :: 0 <= i < |ranges| ==> ranges[i].0 >= l
      invariant forall p: (nat, nat) :: Exists(levels, p) && p.0 >= l ==> Represented(levels, ranges, p)
    {
      l := l - 1;
      size, ranges := AddLevel(levels, l, size, ranges);
    }
  }

  /** One level: once a file lies behind all counted files, so do the rest of a sorted level. */
  method AddLevel(levels: Levels, l: nat, size0: nat, ranges0: seq<(nat, nat)>)
    returns (size: nat, ranges: seq<(nat, nat)>)
    requires LevelsOk(levels) && l < |levels| && Apart(levels, ranges0) && size0 == Sum(levels, ranges0)
    requires forall i :: 0 <= i < |ranges0| ==> ranges0[i].0 >= l
    requires forall p: (nat, nat) :: Exists(levels, p) && p.0 > l ==> Represented(levels, ranges0, p)
    ensures Apart(levels, ranges) && size == Sum(levels, ranges)
    ensures forall i :: 0 <= i < |ranges| ==> ranges[i].0 >= l
    ensures forall p: (nat, nat) :: Exists(levels, p) && p.0 >= l ==> Represented(levels, ranges, p)
  {
    hide Represented, Sum, LevelsOk;
    size, ranges := size0, ranges0;
    var foundEnd := false;
    for n := 0 to |levels[l]|
      invariant Apart(levels, ranges) && size == Sum(levels, ranges)
      invariant forall i :: 0 <= i < |ranges| ==> ranges[i].0 >= l
      invariant forall p: (nat, nat) :: Exists(levels, p) && (p.0 > l || (p.0 == l && p.1 < n)) ==>
                  Represented(levels, ranges, p)
      invariant foundEnd && l != 0 ==>
                  n > 0 && forall i :: 0 <= i < |ranges| ==> At(levels, ranges[i]).largest <= levels[l][n - 1].largest
    {
      var file := levels[l][n];
      var at;
      if foundEnd && l != 0 {
        at := |ranges|;
        InLevelOrder(levels, l, n);
      } else {
        at := LowerBound(levels, ranges, file.smallest);
      }
      foundEnd := at == |ranges|;
      if foundEnd || file.largest < At(levels, ranges[at]).smallest {
        Counted(levels, l, n, ranges, at);
        size, ranges := size + file.size, ranges[..at] + [(l, n)] + ranges[at..];
      } else {
        Covered(levels, l, n, ranges, at);
      }
    }
  }

  lemma InLevelOrder(levels: Levels, l: nat, n: nat)
    requires LevelsOk(levels) && 1 <= l < |levels| && 0 < n < |levels[l]|
    ensures levels[l][n - 1].largest < levels[l][n].smallest
  {
  }

  lemma Counted(levels: Levels, l: nat, n: nat, ranges: seq<(nat, nat)>, at: nat)
    requires LevelsOk(levels) && l < |levels| && n < |levels[l]| && Apart(levels, ranges) && at <= |ranges|
    requires forall i :: 0 <= i < at ==> At(levels, ranges[i]).largest < levels[l][n].smallest
    requires at < |ranges| ==> levels[l][n].largest < At(levels, ranges[at]).smallest
    ensures var t := ranges[..at] + [(l, n)] + ranges[at..];
            && Apart(levels, t) && Sum(levels, t) == Sum(levels, ranges) + levels[l][n].size
            && Represented(levels, t, (l, n))
            && (forall p: (nat, nat) :: Represented(levels, ranges, p) ==> Represented(levels, t, p))
            && (at == |ranges| ==> forall i :: 0 <= i < |t| ==> At(levels, t[i]).largest <= levels[l][n].largest)
  {
    hide Represented, Sum;
    var t := ranges[..at] + [(l, n)] + ranges[at..];
    InsertApart(levels, ranges, at, (l, n));
    SumInsert(levels, ranges, at, (l, n));
    assert t[at] == (l, n);
    CountedIsRepresented(levels, t, (l, n));
    forall p: (nat, nat) | Represented(levels, ranges, p) ensures Represented(levels, t, p) {
      RepresentedLonger(levels, ranges, at, (l, n), p);
    }
    if at == |ranges| {
      forall i | 0 <= i < |t| ensures At(levels, t[i]).largest <= levels[l][n].largest {
        assert t[i] == if i < at then ranges[i] else (l, n);
      }
    }
  }

  lemma CountedIsRepresented(levels: Levels, s: seq<(nat, nat)>, p: (nat, nat))
    requires AllExist(levels, s) && Exists(levels, p) && p in s
    ensures Represented(levels, s, p)
  {
  }

  lemma Covered(levels: Levels, l: nat, n: nat, ranges: seq<(nat, nat)>, at: nat)
    requires LevelsOk(levels) && l < |levels| && n < |levels[l]| && AllExist(levels, ranges) && at < |ranges|
    requires ranges[at].0 >= l && At(levels, ranges[at]).largest >= levels[l][n].smallest
    requires levels[l][n].largest >= At(levels, ranges[at]).smallest
    ensures Represented(levels, ranges, (l, n))
  {
    assert Overlap(At(levels, ranges[at]), At(levels, (l, n)));
  }
}
