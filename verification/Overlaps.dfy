/** Files of a level that overlap a key range: the closure on level 0 and the binary search on sorted
    levels. Keys are points of a linear order. */
module Overlaps {
  import opened Common

  type Key = int

  datatype Range = Range(smallest: Key, largest: Key)

  predicate Ordered(files: seq<Range>) {
    forall i :: 0 <= i < |files| ==> files[i].smallest <= files[i].largest
  }

  // ----- level 0 -----

  /** A range open to one side has no bound there. */
  predicate Overlaps(f: Range, begin: Option<Key>, end: Option<Key>) {
    (begin.Some? ==> f.largest >= begin.value) && (end.Some? ==> f.smallest <= end.value)
  }

  /** File i reaches into the hull of [begin, end] and the files of s. */
  ghost predicate Touches(files: seq<Range>, begin: Option<Key>, end: Option<Key>, s: set<nat>, i: nat)
    requires i < |files|
  {
    && (begin.None? || files[i].largest >= begin.value
        || exists j :: j in s && j < |files| && files[i].largest >= files[j].smallest)
    && (end.None? || files[i].smallest <= end.value
        || exists j :: j in s && j < |files| && files[i].smallest <= files[j].largest)
  }

  ghost predicate Closed(files: seq<Range>, begin: Option<Key>, end: Option<Key>, s: set<nat>) {
    forall i :: 0 <= i < |files| && Touches(files, begin, end, s, i) ==> i in s
  }

  /** s is below every closed set. */
  ghost predicate Least(files: seq<Range>, begin: Option<Key>, end: Option<Key>, s: set<nat>) {
    forall t: set<nat> :: Closed(files, begin, end, t) ==> s <= t
  }

  /** lo and hi bound the hull of [begin, end] and the files of s, and are attained. */
  ghost predicate Hull(files: seq<Range>, begin: Option<Key>, end: Option<Key>, s: set<nat>, lo: Option<Key>,
                       hi: Option<Key>) {
    && (forall j :: j in s ==> j < |files|)
    && lo.Some? == begin.Some? && hi.Some? == end.Some?
    && (lo.Some? ==>
          && lo.value <= begin.value && (forall j :: j in s ==> lo.value <= files[j].smallest)
          && (lo.value == begin.value || exists j :: j in s && files[j].smallest == lo.value))
    && (hi.Some? ==>
          && hi.value >= end.value && (forall j :: j in s ==> hi.value >= files[j].largest)
          && (hi.value == end.value || exists j :: j in s && files[j].largest == hi.value))
  }

  lemma HullTouches(files: seq<Range>, begin: Option<Key>, end: Option<Key>, s: set<nat>, lo: Option<Key>,
                    hi: Option<Key>, i: nat)
    requires Hull(files, begin, end, s, lo, hi) && i < |files|
    ensures Touches(files, begin, end, s, i) <==> Overlaps(files[i], lo, hi)
  {
  }

  /** A file that touches the least set so far belongs to every closed set. */
  lemma LeastGrows(files: seq<Range>, begin: Option<Key>, end: Option<Key>, s: set<nat>, i: nat)
    requires Least(files, begin, end, s) && i < |files| && Touches(files, begin, end, s, i)
    ensures Least(files, begin, end, s + {i})
  {
    forall t: set<nat> | Closed(files, begin, end, t) ensures s + {i} <= t {
      assert s <= t;
      assert Touches(files, begin, end, t, i);
    }
  }

  function Lower(x: Option<Key>, k: Key): Option<Key> {
    if x.Some? && k < x.value then Some(k) else x
  }

  function Upper(x: Option<Key>, k: Key): Option<Key> {
    if x.Some? && k > x.value then Some(k) else x
  }

  lemma HullGrows(files: seq<Range>, begin: Option<Key>, end: Option<Key>, s: set<nat>, lo: Option<Key>,
                  hi: Option<Key>, i: nat)
    requires Hull(files, begin, end, s, lo, hi) && i < |files| && Ordered(files)
    ensures Hull(files, begin, end, s + {i}, Lower(lo, files[i].smallest), Upper(hi, files[i].largest))
  {
    if lo.Some? && lo.value != begin.value {
      var j :| j in s && files[j].smallest == lo.value;
      assert j in s + {i};
    }
    if hi.Some? && hi.value != end.value {
      var j :| j in s && files[j].largest == hi.value;
      assert j in s + {i};
    }
    assert i in s + {i};
  }

  ghost function Elements(s: seq<nat>): set<nat> {
    set i | i in s
  }

  /** The remaining candidates and the inputs share out the files. */
  ghost predicate Shared(n: nat, index: seq<nat>, inputs: seq<nat>) {
    && (forall i :: 0 <= i < n ==> (i in index) != (i in inputs))
    && (forall p :: 0 <= p < |index| ==> index[p] < n)
    && (forall p :: 0 <= p < |inputs| ==> inputs[p] < n)
    && (forall p, p' :: 0 <= p < p' < |index| ==> index[p] != index[p'])
    && (forall p, p' :: 0 <= p < p' < |inputs| ==> inputs[p] != inputs[p'])
  }

  lemma Removed(index: seq<nat>, p: nat, i: nat)
    requires p < |index| && forall q, q' :: 0 <= q < q' < |index| ==> index[q] != index[q']
    ensures i in index[..p] + index[p + 1..] <==> i in index && i != index[p]
  {
    var rest := index[..p] + index[p + 1..];
    if i in index && i != index[p] {
      var q :| 0 <= q < |index| && index[q] == i;
      assert rest[if q < p then q else q - 1] == i;
    }
    if i in rest {
      var q :| 0 <= q < |rest| && rest[q] == i;
      assert i == index[if q < p then q else q + 1];
    }
  }

  lemma MoveToInputs(n: nat, index: seq<nat>, inputs: seq<nat>, p: nat)
    requires Shared(n, index, inputs) && p < |index|
    ensures Shared(n, index[..p] + index[p + 1..], inputs + [index[p]])
  {
    var rest := index[..p] + index[p + 1..];
    assert forall q :: 0 <= q < |rest| ==> rest[q] == index[if q < p then q else q + 1];
    forall i | 0 <= i < n ensures (i in rest) != (i in inputs + [index[p]]) {
      Removed(index, p, i);
    }
    assert index[p] in index;
  }

  /** `GetOverlappingInputs` on level 0: passes over the candidates until a pass finds none. With
      `expand`, the least set of files closed under overlap with the hull of range and set. */
  method OverlappingInputsLevel0(files: seq<Range>, begin: Option<Key>, end: Option<Key>, expand: bool)
      returns (inputs: seq<nat>, fileIndex: int)
    requires Ordered(files)
    ensures forall i :: i in inputs ==> i < |files|
    ensures forall p, p' :: 0 <= p < p' < |inputs| ==> inputs[p] != inputs[p']
    ensures expand ==> Closed(files, begin, end, Elements(inputs)) && Least(files, begin, end, Elements(inputs))
    ensures !expand ==> forall i :: 0 <= i < |files| ==> (i in inputs <==> Overlaps(files[i], begin, end))
    ensures fileIndex == if inputs == [] then -1 else inputs[0]
  {
    hide Closed, Least, Touches, Hull, Gathered, Shared, Ordered;
    inputs, fileIndex := [], -1;
    var lo, hi := begin, end;
    var index: seq<nat> := [];
    for i := 0 to |files|
      invariant |index| == i && forall p :: 0 <= p < i ==> index[p] == p
    {
      index := index + [i];
    }
    AllCandidates(|files|, index);
    NothingGathered(files, begin, end, expand);
    while index != []
      invariant Shared(|files|, index, inputs)
      invariant Gathered(files, begin, end, expand, inputs, lo, hi)
      invariant fileIndex == if inputs == [] then -1 else inputs[0]
      decreases |index|
    {
      var found := false;
      var iter := 0;
      ghost var size := |index|;
      while iter < |index|
        invariant iter <= |index| <= size && (found ==> |index| < size)
        invariant Shared(|files|, index, inputs)
        invariant Gathered(files, begin, end, expand, inputs, lo, hi)
        invariant fileIndex == if inputs == [] then -1 else inputs[0]
        invariant !found ==> forall p :: 0 <= p < iter ==> index[p] < |files| && !Overlaps(files[index[p]], lo, hi)
        decreases |index| - iter
      {
        InBounds(|files|, index, inputs);
        var i := index[iter];
        var f := files[i];
        if lo.Some? && f.largest < lo.value {
          iter := iter + 1;
        } else if hi.Some? && f.smallest > hi.value {
          iter := iter + 1;
        } else {
          GatherMore(files, begin, end, expand, inputs, lo, hi, i);
          MoveToInputs(|files|, index, inputs, iter);
          inputs := inputs + [i];
          found := true;
          if fileIndex == -1 {
            fileIndex := i;
          }
          index := index[..iter] + index[iter + 1..];
          if expand {
            if lo.Some? && f.smallest < lo.value {
              lo := Some(f.smallest);
            }
            if hi.Some? && f.largest > hi.value {
              hi := Some(f.largest);
            }
          }
        }
      }
      if !found {
        break;
      }
    }
    GatheredAll(files, begin, end, expand, index, inputs, lo, hi);
  }

  /** The inputs so far are needed, and [lo, hi] is the range to compare with. */
  ghost predicate Gathered(files: seq<Range>, begin: Option<Key>, end: Option<Key>, expand: bool, inputs: seq<nat>,
                           lo: Option<Key>, hi: Option<Key>) {
    if expand then Hull(files, begin, end, Elements(inputs), lo, hi) && Least(files, begin, end, Elements(inputs))
    else lo == begin && hi == end && forall i :: i in inputs ==> i < |files| && Overlaps(files[i], begin, end)
  }

  lemma AllCandidates(n: nat, index: seq<nat>)
    requires |index| == n && forall p :: 0 <= p < n ==> index[p] == p
    ensures Shared(n, index, [])
  {
    forall i | 0 <= i < n ensures i in index {
      assert index[i] == i;
    }
  }

  lemma NothingGathered(files: seq<Range>, begin: Option<Key>, end: Option<Key>, expand: bool)
    ensures Gathered(files, begin, end, expand, [], begin, end)
  {
  }

  lemma InBounds(n: nat, index: seq<nat>, inputs: seq<nat>)
    requires Shared(n, index, inputs)
    ensures forall p :: 0 <= p < |index| ==> index[p] < n
  {
  }

  lemma GatherMore(files: seq<Range>, begin: Option<Key>, end: Option<Key>, expand: bool, inputs: seq<nat>,
                   lo: Option<Key>, hi: Option<Key>, i: nat)
    requires Gathered(files, begin, end, expand, inputs, lo, hi) && Ordered(files) && i < |files|
    requires Overlaps(files[i], lo, hi)
    ensures Gathered(files, begin, end, expand, inputs + [i],
                     if expand then Lower(lo, files[i].smallest) else lo,
                     if expand then Upper(hi, files[i].largest) else hi)
  {
    if expand {
      assert Elements(inputs + [i]) == Elements(inputs) + {i};
      HullTouches(files, begin, end, Elements(inputs), lo, hi, i);
      LeastGrows(files, begin, end, Elements(inputs), i);
      HullGrows(files, begin, end, Elements(inputs), lo, hi, i);
    }
  }

  lemma GatheredAll(files: seq<Range>, begin: Option<Key>, end: Option<Key>, expand: bool, index: seq<nat>,
                    inputs: seq<nat>, lo: Option<Key>, hi: Option<Key>)
    requires Gathered(files, begin, end, expand, inputs, lo, hi) && Shared(|files|, index, inputs)
    requires forall p :: 0 <= p < |index| ==> index[p] < |files| && !Overlaps(files[index[p]], lo, hi)
    ensures forall i :: i in inputs ==> i < |files|
    ensures forall p, p' :: 0 <= p < p' < |inputs| ==> inputs[p] != inputs[p']
    ensures expand ==> Closed(files, begin, end, Elements(inputs)) && Least(files, begin, end, Elements(inputs))
    ensures !expand ==> forall i :: 0 <= i < |files| ==> (i in inputs <==> Overlaps(files[i], begin, end))
  {
    if expand {
      forall i | 0 <= i < |files| && Touches(files, begin, end, Elements(inputs), i) ensures i in Elements(inputs) {
        HullTouches(files, begin, end, Elements(inputs), lo, hi, i);
      }
    }
  }

  // ----- sorted levels -----

  /** Below level 0 the files are in order; neighbours may share a boundary key. */
  ghost predicate InOrder(files: seq<Range>) {
    Ordered(files) && forall i, j :: 0 <= i < j < |files| ==> files[i].largest <= files[j].smallest
  }

  /** The boundary in front of file i is clean: file i does not start with the key the last one ends with. */
  predicate Clean(files: seq<Range>, i: nat)
    requires i <= |files|
  {
    0 < i < |files| ==> files[i - 1].largest != files[i].smallest
  }

  ghost predicate Inside(files: seq<Range>, begin: Option<Key>, end: Option<Key>, s: nat, e: nat)
    requires s <= e <= |files|
  {
    forall i :: s <= i < e ==>
      (begin.Some? ==> files[i].smallest >= begin.value) && (end.Some? ==> files[i].largest <= end.value)
  }

  /** A run of files within [begin, end] that can be cut out without splitting a boundary key. */
  ghost predicate CleanRun(files: seq<Range>, begin: Option<Key>, end: Option<Key>, s: nat, e: nat) {
    s < e <= |files| && Inside(files, begin, end, s, e) && Clean(files, s) && Clean(files, e)
  }

  /** The first file whose chosen boundary is at or after k. */
  method FirstAtOrAfter(files: seq<Range>, k: Key, bySmallest: bool) returns (r: nat)
    requires InOrder(files)
    ensures r <= |files|
    ensures forall i :: 0 <= i < r ==> (if bySmallest then files[i].smallest else files[i].largest) < k
    ensures forall i :: r <= i < |files| ==> (if bySmallest then files[i].smallest else files[i].largest) >= k
  {
    var below := (i: nat) => i < |files| && (if bySmallest then files[i].smallest else files[i].largest) < k;
    r := LowerBound(0, |files|, below);
    assert forall i :: 0 <= i < |files| ==>
           below(i) == ((if bySmallest then files[i].smallest else files[i].largest) < k);
  }

  /** The first file from an index on whose chosen boundary is after k: `std::upper_bound`. */
  method FirstAfter(files: seq<Range>, from: nat, k: Key, byLargest: bool) returns (r: nat)
    requires InOrder(files) && from <= |files|
    ensures from <= r <= |files|
    ensures forall i :: from <= i < r ==> (if byLargest then files[i].largest else files[i].smallest) <= k
    ensures forall i :: r <= i < |files| ==> (if byLargest then files[i].largest else files[i].smallest) > k
  {
    var below := (i: nat) => i < |files| && (if byLargest then files[i].largest else files[i].smallest) <= k;
    r := LowerBound(from, |files|, below);
    assert forall i :: 0 <= i < |files| ==>
           below(i) == ((if byLargest then files[i].largest else files[i].smallest) <= k);
  }

  /** `GetOverlappingInputsRangeBinarySearch` without a hint: the files from `start` up to `limit`.
      All files that overlap [begin, end], or, `within` the interval, the largest clean run in it. */
  method RangeBinarySearch(files: seq<Range>, begin: Option<Key>, end: Option<Key>, within: bool)
    returns (start: nat, limit: nat)
    requires InOrder(files)
    ensures start <= limit <= |files|
    ensures !within ==> forall i :: 0 <= i < |files| ==> (start <= i < limit <==> Overlaps(files[i], begin, end))
    ensures within && start < limit ==> CleanRun(files, begin, end, start, limit)
    ensures within ==> forall s: nat, e: nat :: CleanRun(files, begin, end, s, e) ==> start <= s && e <= limit
  {
    hide Inside;
    RunEnds(files, begin, end);
    start, limit := 0, |files|;
    if begin.Some? {
      start := FirstAtOrAfter(files, begin.value, within);
      if start > 0 && within {
        var overlapping := true;
        while overlapping && start < |files|
          invariant 0 < start <= |files|
          invariant forall i :: start <= i < |files| ==> files[i].smallest >= begin.value
          invariant forall s: nat, e: nat :: CleanRun(files, begin, end, s, e) ==> start <= s
          invariant !overlapping ==> Clean(files, start)
          decreases overlapping, |files| - start
        {
          overlapping := files[start - 1].largest == files[start].smallest;
          if overlapping {
            NotClean(files, begin, end, start);
            start := start + 1;
          }
        }
      }
    }
    if end.Some? {
      limit := FirstAfter(files, start, end.value, within);
      if limit < |files| && within {
        var overlapping := true;
        ghost var top := limit;
        while overlapping && limit > start
          invariant start <= limit <= top < |files|
          invariant forall i :: start <= i < limit ==> files[i].largest <= end.value
          invariant forall s: nat, e: nat :: CleanRun(files, begin, end, s, e) ==> start <= s && e <= limit
          invariant !overlapping ==> Clean(files, limit)
          decreases overlapping, limit - start
        {
          overlapping := files[limit - 1].largest == files[limit].smallest;
          if overlapping {
            NotClean(files, begin, end, limit);
            limit := limit - 1;
          }
        }
      }
    }
    if within {
      RunInside(files, begin, end, start, limit);
    }
  }

  lemma RunEnds(files: seq<Range>, begin: Option<Key>, end: Option<Key>)
    ensures forall s: nat, e: nat :: CleanRun(files, begin, end, s, e) ==>
      (begin.Some? ==> files[s].smallest >= begin.value) && (end.Some? ==> files[e - 1].largest <= end.value)
  {
  }

  lemma RunInside(files: seq<Range>, begin: Option<Key>, end: Option<Key>, s: nat, e: nat)
    requires InOrder(files) && s <= e <= |files|
    requires s < e ==>
               (begin.Some? ==> files[s].smallest >= begin.value) && (end.Some? ==> files[e - 1].largest <= end.value)
    ensures Inside(files, begin, end, s, e)
  {
  }

  lemma NotClean(files: seq<Range>, begin: Option<Key>, end: Option<Key>, i: nat)
    requires 0 < i < |files| && files[i - 1].largest == files[i].smallest
    ensures forall s: nat, e: nat :: CleanRun(files, begin, end, s, e) ==> s != i && e != i
  {
  }
}
