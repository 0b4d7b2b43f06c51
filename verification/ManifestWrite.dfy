/** Group commit to the MANIFEST: how the queued version edits become one batch of records, with
    atomic groups repaired when column families are dropped while their edits wait. */
module ManifestWrite {
  import opened Common

  datatype Kind = Plain | CfManipulation | NoManifestWrite

  /** A version edit; `id` stands for its contents. In an atomic group, `remaining` counts the
      members still to come. */
  datatype Edit = Edit(id: nat, kind: Kind, inGroup: bool, remaining: nat, lastSeq: Option<nat>)

  /** A queued writer: the edits of one column family, which may have been dropped meanwhile. */
  datatype ManifestWriter = ManifestWriter(dropped: bool, edits: seq<Edit>)

  // ----- atomic groups -----

  /** Members of one group, the last of which has r more behind it. */
  ghost predicate CountsDown(s: seq<Edit>, r: nat) {
    forall i :: 0 <= i < |s| ==> s[i].inGroup && s[i].remaining == r + (|s| - 1 - i)
  }

  /** Plain edits and whole groups: the counts of each group descend by one to zero. */
  ghost predicate Grouped(s: seq<Edit>)
    decreases |s|
  {
    s == []
    || (!s[0].inGroup && Grouped(s[1..]))
    || (&& s[0].inGroup && s[0].remaining < |s|
        && CountsDown(s[..s[0].remaining + 1], 0) && Grouped(s[s[0].remaining + 1..]))
  }

  /** r members of a begun group come first, then plain edits and whole groups. */
  ghost predicate Owes(r: nat, s: seq<Edit>) {
    r <= |s| && CountsDown(s[..r], 0) && Grouped(s[r..])
  }

  function Debt(e: Edit): nat {
    if e.inGroup then e.remaining else 0
  }

  lemma OwesStep(r: nat, s: seq<Edit>)
    requires Owes(r, s) && s != []
    ensures Owes(Debt(s[0]), s[1..])
    ensures r > 0 ==> s[0].inGroup && s[0].remaining == r - 1
  {
    if r > 0 {
      assert s[..r][0] == s[0];
      assert s[1..][..r - 1] == s[..r][1..];
      assert s[1..][r - 1..] == s[r..];
    } else {
      assert s[0..] == s;
      if s[0].inGroup {
        var m := s[0].remaining;
        assert s[1..][..m] == s[..m + 1][1..];
        assert s[1..][m..] == s[m + 1..];
      } else {
        assert s[1..][..0] == [];
        assert s[1..][0..] == s[1..];
      }
    }
  }

  lemma {:induction false} GroupedConcat(a: seq<Edit>, b: seq<Edit>)
    requires Grouped(a) && Grouped(b)
    ensures Grouped(a + b)
    decreases |a|
  {
    if a == [] {
      assert a + b == b;
    } else if !a[0].inGroup {
      GroupedConcat(a[1..], b);
      assert (a + b)[1..] == a[1..] + b;
    } else {
      var m := a[0].remaining + 1;
      GroupedConcat(a[m..], b);
      assert (a + b)[..m] == a[..m];
      assert (a + b)[m..] == a[m..] + b;
    }
  }

  lemma WholeGroup(s: seq<Edit>)
    requires CountsDown(s, 0)
    ensures Grouped(s)
  {
    if s != [] {
      assert s[..|s|] == s;
      assert s[|s|..] == [];
    }
  }

  lemma {:induction false} GroupedBack(s: seq<Edit>)
    requires Grouped(s) && s != []
    ensures Debt(s[|s| - 1]) == 0
    decreases |s|
  {
    if !s[0].inGroup {
      if |s| > 1 {
        GroupedBack(s[1..]);
      }
    } else {
      var m := s[0].remaining + 1;
      if m < |s| {
        GroupedBack(s[m..]);
      } else {
        assert s[..m] == s;
      }
    }
  }

  // ----- sequence numbers -----

  /** The running maximum that `LogAndApplyHelper` keeps. */
  function MaxSeq(d: nat, s: seq<Edit>): (m: nat)
    ensures m >= d
  {
    if s == [] then d
    else
      var before := MaxSeq(d, s[..|s| - 1]);
      var e := s[|s| - 1];
      if e.lastSeq.Some? && e.lastSeq.value > before then e.lastSeq.value else before
  }

  /** `batch` is `kept` with counts of group members lowered and every edit stamped with the maximum
      so far. */
  ghost predicate Stamped(d: nat, kept: seq<Edit>, batch: seq<Edit>) {
    && |batch| == |kept|
    && forall i :: 0 <= i < |batch| ==>
         && batch[i] == kept[i].(remaining := batch[i].remaining, lastSeq := Some(MaxSeq(d, kept[..i + 1])))
         && batch[i].remaining <= kept[i].remaining
         && (!batch[i].inGroup ==> batch[i].remaining == kept[i].remaining)
  }

  lemma {:induction false} MaxSeqMonotone(d: nat, s: seq<Edit>, i: nat, j: nat)
    requires i <= j <= |s|
    ensures MaxSeq(d, s[..i]) <= MaxSeq(d, s[..j])
    decreases j
  {
    if i < j {
      MaxSeqMonotone(d, s, i, j - 1);
      assert s[..j][..j - 1] == s[..j - 1];
    }
  }

  /** The stamped sequence numbers never decrease and start at or above the old maximum. */
  lemma StampedNonDecreasing(d: nat, kept: seq<Edit>, batch: seq<Edit>, i: nat, j: nat)
    requires Stamped(d, kept, batch) && i <= j < |batch|
    ensures d <= batch[i].lastSeq.value <= batch[j].lastSeq.value <= MaxSeq(d, kept)
  {
    MaxSeqMonotone(d, kept, i + 1, j + 1);
    MaxSeqMonotone(d, kept, j + 1, |kept|);
    assert kept[..|kept|] == kept;
  }

  // ----- the queue -----

  /** An edit in the queue, with the fate of its column family. */
  datatype Queued = Queued(edit: Edit, dropped: bool)

  function OfWriter(w: ManifestWriter): seq<Queued> {
    seq(|w.edits|, i requires 0 <= i < |w.edits| => Queued(w.edits[i], w.dropped))
  }

  /** The queue's edits one behind the other. */
  function Flat(queue: seq<ManifestWriter>): seq<Queued> {
    if queue == [] then [] else Flat(queue[..|queue| - 1]) + OfWriter(queue[|queue| - 1])
  }

  function Edits(s: seq<Queued>): seq<Edit> {
    seq(|s|, i requires 0 <= i < |s| => s[i].edit)
  }

  /** The edits of the column families that still exist. */
  function Kept(s: seq<Queued>): seq<Edit> {
    if s == [] then []
    else
      var q := s[|s| - 1];
      Kept(s[..|s| - 1]) + (if q.dropped then [] else [q.edit])
  }

  predicate Special(e: Edit) {
    e.kind != Plain
  }

  /** What `LogAndApply` leaves at the head of the queue: no empty list, special edits alone and in
      no group, a manipulated column family not dropped, and each group's members one behind the
      other, over any number of writers. */
  ghost predicate QueueOk(queue: seq<ManifestWriter>) {
    && queue != []
    && (forall i :: 0 <= i < |queue| ==> queue[i].edits != [])
    && (forall i, j :: 0 <= i < |queue| && 0 <= j < |queue[i].edits| && Special(queue[i].edits[j]) ==>
          |queue[i].edits| == 1 && !queue[i].edits[j].inGroup)
    && (queue[0].edits[0].kind.CfManipulation? ==> !queue[0].dropped && queue[0].edits[0].lastSeq == None)
    && Grouped(Edits(Flat(queue)))
  }

  // ----- what is left of each group -----

  /** The size of the group that e begins. */
  function Size(e: Edit): (m: nat)
    ensures m > 0
  {
    if e.inGroup then e.remaining + 1 else 1
  }

  /** The first k edits are what is left of the group, or the plain edit, that e begins. */
  ghost predicate Led(e: Edit, k: nat, batch: seq<Edit>) {
    && k <= |batch|
    && (if e.inGroup then CountsDown(batch[..k], 0) else k == 1 ==> !batch[0].inGroup)
  }

  /** Group by group, `batch` has as many edits as s keeps, and the counts of what is left of each
      group descend by one to zero. */
  ghost predicate Repaired(s: seq<Queued>, batch: seq<Edit>)
    decreases |s|
  {
    if s == [] then batch == []
    else
      var m := Size(s[0].edit);
      m <= |s| &&
      var k := |Kept(s[..m])|;
      Led(s[0].edit, k, batch) && Repaired(s[m..], batch[k..])
  }

  lemma LedFurther(e: Edit, k: nat, x: seq<Edit>, y: seq<Edit>)
    requires Led(e, k, x)
    ensures k <= |x| && Led(e, k, x + y)
  {
    assert (x + y)[..k] == x[..k];
  }

  lemma LedIsGrouped(e: Edit, k: nat, batch: seq<Edit>)
    requires Led(e, k, batch) && (!e.inGroup ==> k <= 1)
    ensures k <= |batch| && Grouped(batch[..k])
  {
    if e.inGroup {
      WholeGroup(batch[..k]);
    } else {
      assert k == 1 ==> batch[..1][1..] == [];
    }
  }

  lemma PlainKeepsOne(s: seq<Queued>)
    requires s != [] && !s[0].edit.inGroup
    ensures |Kept(s[..Size(s[0].edit)])| <= 1
  {
    KeptAppend([], s[0]);
    assert s[..1] == [] + [s[0]];
  }

  lemma {:induction false} RepairedIsGrouped(s: seq<Queued>, batch: seq<Edit>)
    requires Repaired(s, batch)
    ensures Grouped(batch)
    decreases |s|
  {
    hide Kept, Led, Size;
    if s != [] {
      var m := Size(s[0].edit);
      var k := |Kept(s[..m])|;
      if !s[0].edit.inGroup {
        PlainKeepsOne(s);
      }
      LedIsGrouped(s[0].edit, k, batch);
      RepairedIsGrouped(s[m..], batch[k..]);
      GroupedConcat(batch[..k], batch[k..]);
      assert batch == batch[..k] + batch[k..];
    }
  }

  lemma {:induction false} RepairedConcat(s: seq<Queued>, x: seq<Edit>, t: seq<Queued>, y: seq<Edit>)
    requires Repaired(s, x) && Repaired(t, y)
    ensures Repaired(s + t, x + y)
    decreases |s|
  {
    hide Kept, Led, Size;
    if s == [] {
      assert s + t == t && x + y == y;
    } else {
      var m := Size(s[0].edit);
      var k := |Kept(s[..m])|;
      LedFurther(s[0].edit, k, x, y);
      RepairedConcat(s[m..], x[k..], t, y);
      assert (s + t)[..m] == s[..m] && (s + t)[m..] == s[m..] + t;
      assert (x + y)[k..] == x[k..] + y;
    }
  }

  /** A single group or a single plain edit. */
  lemma RepairedUnit(s: seq<Queued>, x: seq<Edit>)
    requires s != [] && |x| == |Kept(s)|
    requires (CountsDown(Edits(s), 0) && CountsDown(x, 0))
          || (|s| == 1 && !s[0].edit.inGroup && (x != [] ==> !x[0].inGroup))
    ensures Repaired(s, x)
  {
    assert Edits(s)[0] == s[0].edit;
    assert s[..|s|] == s && s[|s|..] == [];
    assert x[..|x|] == x && x[|x|..] == [];
  }

  lemma KeptAppend(s: seq<Queued>, q: Queued)
    ensures Kept(s + [q]) == Kept(s) + (if q.dropped then [] else [q.edit])
    ensures Edits(s + [q]) == Edits(s) + [q.edit]
  {
    assert (s + [q])[..|s|] == s;
  }

  // ----- the batch under construction -----

  /** After the edits s: whole groups up to `base` in s and `start` in the batch, then a begun group
      that is owed r more. */
  ghost predicate Shape(s: seq<Queued>, batch: seq<Edit>, base: nat, start: nat, r: nat) {
    && base <= |s| && start <= |batch|
    && Repaired(s[..base], batch[..start])
    && CountsDown(Edits(s[base..]), r)
    && CountsDown(batch[start..], r)
    && |batch| - start == |Kept(s[base..])|
    && (r == 0 <==> base == |s|)
  }

  /** The source's test for a begun group: the last edit is a member with members still to come. */
  predicate Begun(batch: seq<Edit>) {
    batch != [] && batch[|batch| - 1].inGroup && batch[|batch| - 1].remaining > 0
  }

  lemma BegunIsOpen(s: seq<Queued>, batch: seq<Edit>, base: nat, start: nat, r: nat)
    requires Shape(s, batch, base, start, r)
    ensures Begun(batch) <==> start < |batch|
    ensures Begun(batch) ==> r == batch[|batch| - 1].remaining
    ensures start <= |batch|
  {
    assert s[|s|..] == [];
    if start == |batch| {
      RepairedIsGrouped(s[..base], batch[..start]);
      assert batch[..start] == batch;
      if batch != [] {
        GroupedBack(batch);
      }
    } else {
      assert batch[start..][|batch| - start - 1] == batch[|batch| - 1];
    }
  }

  lemma Nothing(s: seq<Queued>, batch: seq<Edit>)
    ensures Kept(s[|s|..]) == []
    ensures CountsDown(Edits(s[|s|..]), 0) && CountsDown(batch[|batch|..], 0)
  {
  }

  /** The begun group has all its members. */
  lemma Close(s: seq<Queued>, batch: seq<Edit>, base: nat, start: nat)
    requires base < |s| && start <= |batch|
    requires Repaired(s[..base], batch[..start])
    requires |batch| - start == |Kept(s[base..])|
    requires (CountsDown(Edits(s[base..]), 0) && CountsDown(batch[start..], 0))
          || (base + 1 == |s| && !s[base].edit.inGroup && (start < |batch| ==> !batch[start].inGroup))
    ensures Shape(s, batch, |s|, |batch|, 0)
  {
    hide Repaired, Kept, CountsDown;
    assert s[base..][0] == s[base];
    assert start < |batch| ==> batch[start..][0] == batch[start];
    RepairedUnit(s[base..], batch[start..]);
    RepairedConcat(s[..base], batch[..start], s[base..], batch[start..]);
    assert s[..base] + s[base..] == s == s[..|s|];
    assert batch[..start] + batch[start..] == batch == batch[..|batch|];
    Nothing(s, batch);
  }

  /** An edit is counted in its group or stands alone: r is what the group behind s is owed. */
  ghost predicate Fits(r: nat, e: Edit) {
    r > 0 ==> e.inGroup && e.remaining == r - 1
  }

  ghost function Base(s: seq<Queued>, base: nat, e: Edit): nat {
    if Debt(e) == 0 then |s| + 1 else base
  }

  ghost function Start(batch: seq<Edit>, start: nat, e: Edit): nat {
    if Debt(e) == 0 then |batch| else start
  }

  lemma Longer(s: seq<Queued>, base: nat, r: nat, q: Queued)
    requires base <= |s| && CountsDown(Edits(s[base..]), r) && (r == 0 ==> base == |s|) && Fits(r, q.edit)
    ensures (s + [q])[..base] == s[..base]
    ensures Kept((s + [q])[base..]) == Kept(s[base..]) + (if q.dropped then [] else [q.edit])
    ensures q.edit.inGroup ==> CountsDown(Edits((s + [q])[base..]), q.edit.remaining)
  {
    assert (s + [q])[base..] == s[base..] + [q];
    KeptAppend(s[base..], q);
  }

  /** The next edit is kept, with any stamp. */
  lemma KeepOne(s: seq<Queued>, batch: seq<Edit>, base: nat, start: nat, r: nat, q: Queued, e: Edit)
    requires Shape(s, batch, base, start, r) && Fits(r, q.edit)
    requires !q.dropped && e.inGroup == q.edit.inGroup && e.remaining == q.edit.remaining
    ensures Shape(s + [q], batch + [e], Base(s, base, e), Start(batch + [e], start, e), Debt(e))
  {
    hide Repaired;
    Longer(s, base, r, q);
    assert (batch + [e])[..start] == batch[..start];
    assert (batch + [e])[start..] == batch[start..] + [e];
    if e.inGroup {
      assert CountsDown((batch + [e])[start..], e.remaining);
    }
    if Debt(e) == 0 {
      Close(s + [q], batch + [e], base, start);
    }
  }

  /** k members less to come, for everything from `start` on. */
  function Lower(batch: seq<Edit>, start: nat, k: nat): seq<Edit>
    requires forall i :: start <= i < |batch| ==> batch[i].remaining >= k
  {
    seq(|batch|, i requires 0 <= i < |batch| =>
      if i < start then batch[i] else batch[i].(remaining := batch[i].remaining - k))
  }

  lemma CanLower(batch: seq<Edit>, start: nat, r: nat)
    requires start <= |batch| && CountsDown(batch[start..], r)
    ensures forall i :: start <= i < |batch| ==> batch[i].inGroup && batch[i].remaining >= r
  {
    forall i | start <= i < |batch| ensures batch[i].inGroup && batch[i].remaining >= r {
      assert batch[i] == batch[start..][i - start];
    }
  }

  /** The next edit is dropped: the begun group loses a member. */
  lemma DropOne(s: seq<Queued>, batch: seq<Edit>, base: nat, start: nat, r: nat, q: Queued)
    requires Shape(s, batch, base, start, r) && Fits(r, q.edit) && q.dropped
    ensures forall i :: start <= i < |batch| ==> r > 0 && batch[i].inGroup && batch[i].remaining >= 1
    ensures Shape(s + [q], Lower(batch, start, 1), Base(s, base, q.edit), Start(batch, start, q.edit), Debt(q.edit))
  {
    hide Repaired;
    assert r == 0 ==> s[base..] == [] && start == |batch|;
    CanLower(batch, start, r);
    Longer(s, base, r, q);
    var batch' := Lower(batch, start, 1);
    assert batch'[..start] == batch[..start];
    assert forall i :: 0 <= i < |batch'[start..]| ==>
           batch'[start..][i] == batch[start..][i].(remaining := batch[start..][i].remaining - 1);
    assert r > 0 ==> CountsDown(batch'[start..], r - 1);
    if Debt(q.edit) == 0 {
      Close(s + [q], batch', base, start);
    }
  }

  lemma StampedLower(d: nat, kept: seq<Edit>, batch: seq<Edit>, start: nat, k: nat)
    requires Stamped(d, kept, batch)
    requires forall i :: start <= i < |batch| ==> batch[i].inGroup && batch[i].remaining >= k
    ensures Stamped(d, kept, Lower(batch, start, k))
  {
  }

  lemma StampedAppend(d: nat, kept: seq<Edit>, batch: seq<Edit>, e: Edit)
    requires Stamped(d, kept, batch)
    ensures MaxSeq(d, kept + [e])
         == (if e.lastSeq.Some? && e.lastSeq.value > MaxSeq(d, kept) then e.lastSeq.value else MaxSeq(d, kept))
    ensures Stamped(d, kept + [e], batch + [e.(lastSeq := Some(MaxSeq(d, kept + [e])))])
  {
    assert (kept + [e])[..|kept|] == kept;
    assert (kept + [e])[..|kept| + 1] == kept + [e];
    var longer := batch + [e.(lastSeq := Some(MaxSeq(d, kept + [e])))];
    forall i | 0 <= i < |longer|
      ensures longer[i]
           == (kept + [e])[i].(remaining := longer[i].remaining, lastSeq := Some(MaxSeq(d, (kept + [e])[..i + 1])))
      ensures longer[i].remaining <= (kept + [e])[i].remaining
      ensures !longer[i].inGroup ==> longer[i].remaining == (kept + [e])[i].remaining
    {
      if i < |kept| {
        assert (kept + [e])[..i + 1] == kept[..i + 1];
      }
    }
  }

  /** The batch so far, where the group being written starts, and the greatest sequence number. */
  datatype Batch = Batch(edits: seq<Edit>, groupStart: Option<nat>, max: nat)

  ghost predicate BatchAt(s: seq<Queued>, rest: seq<Queued>, b: Batch, base: nat, start: nat, r: nat) {
    && Shape(s, b.edits, base, start, r)
    && Owes(r, Edits(rest))
    && (start < |b.edits| ==> b.groupStart == Some(start))
  }

  /** The batch after the edits s, when `rest` is still to come. */
  ghost predicate BatchOk(d: nat, s: seq<Queued>, rest: seq<Queued>, b: Batch) {
    && Stamped(d, Kept(s), b.edits) && b.max == MaxSeq(d, Kept(s))
    && exists base, start, r :: BatchAt(s, rest, b, base, start, r)
  }

  // ----- one writer -----

  /** How an edit is stamped: `LogAndApplyHelper`. */
  method Stamp(e: Edit, max: nat) returns (e': Edit, max': nat)
    ensures max' >= max && (e.lastSeq.Some? ==> max' >= e.lastSeq.value)
    ensures max' == max || e.lastSeq == Some(max')
    ensures e' == e.(lastSeq := Some(max'))
  {
    e', max' := e, max;
    if e.lastSeq.Some? && e.lastSeq.value > max {
      max' := e.lastSeq.value;
    } else {
      e' := e.(lastSeq := Some(max));
    }
  }

  function GroupStart(b: Batch, e: Edit): Option<nat> {
    if e.inGroup then (if Begun(b.edits) then b.groupStart else Some(|b.edits|)) else None
  }

  lemma KeepKeepsOk(d: nat, s: seq<Queued>, q: Queued, rest: seq<Queued>, b: Batch, e: Edit, max: nat)
    requires BatchOk(d, s, [q] + rest, b) && !q.dropped
    requires max >= b.max && (q.edit.lastSeq.Some? ==> max >= q.edit.lastSeq.value)
    requires max == b.max || q.edit.lastSeq == Some(max)
    requires e == q.edit.(lastSeq := Some(max))
    ensures BatchOk(d, s + [q], rest, Batch(b.edits + [e], GroupStart(b, e), max))
  {
    hide Owes, Shape, Stamped, MaxSeq, Grouped, Kept;
    var base, start, r :| BatchAt(s, [q] + rest, b, base, start, r);
    KeptAppend(s, q);
    StampedAppend(d, Kept(s), b.edits, q.edit);
    assert Edits([q] + rest)[0] == q.edit && Edits([q] + rest)[1..] == Edits(rest);
    OwesStep(r, Edits([q] + rest));
    BegunIsOpen(s, b.edits, base, start, r);
    KeepOne(s, b.edits, base, start, r, q, e);
    assert BatchAt(s + [q], rest, Batch(b.edits + [e], GroupStart(b, e), max),
                   Base(s, base, e), Start(b.edits + [e], start, e), Debt(e));
  }

  /** A live column family: each edit is stamped and appended. */
  method Append(b0: Batch, w: ManifestWriter, ghost d: nat, ghost s: seq<Queued>, ghost rest: seq<Queued>)
      returns (b: Batch)
    requires !w.dropped && BatchOk(d, s, OfWriter(w) + rest, b0)
    ensures BatchOk(d, s + OfWriter(w), rest, b)
  {
    hide BatchOk;
    b := b0;
    assert s + OfWriter(w)[..0] == s && OfWriter(w)[0..] == OfWriter(w);
    for i := 0 to |w.edits|
      invariant BatchOk(d, s + OfWriter(w)[..i], OfWriter(w)[i..] + rest, b)
    {
      var groupStart := b.groupStart;
      if w.edits[i].inGroup {
        if b.edits == [] || !b.edits[|b.edits| - 1].inGroup || b.edits[|b.edits| - 1].remaining == 0 {
          groupStart := Some(|b.edits|);
        }
      } else if groupStart != None {
        groupStart := None;
      }
      var e, max := Stamp(w.edits[i], b.max);
      ghost var q := OfWriter(w)[i];
      assert OfWriter(w)[i..] + rest == [q] + (OfWriter(w)[i + 1..] + rest);
      KeepKeepsOk(d, s + OfWriter(w)[..i], q, OfWriter(w)[i + 1..] + rest, b, e, max);
      assert s + OfWriter(w)[..i + 1] == s + OfWriter(w)[..i] + [q];
      b := Batch(b.edits + [e], groupStart, max);
    }
    assert OfWriter(w)[..|w.edits|] == OfWriter(w) && OfWriter(w)[|w.edits|..] + rest == rest;
  }

  /** How many edits at the front of a list finish a begun group. */
  function Leading(edits: seq<Edit>): nat {
    if edits == [] || !edits[0].inGroup then 0
    else if edits[0].remaining == 0 then 1
    else 1 + Leading(edits[1..])
  }

  /** The batch once a dropped column family's edits are taken out of the begun group. */
  ghost function Without(b: Batch, edits: seq<Edit>): Batch
    requires Removable(b, edits)
  {
    if Begun(b.edits) then b.(edits := Lower(b.edits, b.groupStart.value, Leading(edits))) else b
  }

  /** The assertions of the source: the group's start is known, and it is owed at least as many. */
  ghost predicate Removable(b: Batch, edits: seq<Edit>) {
    Begun(b.edits) ==>
      && b.groupStart.Some? && b.groupStart.value < |b.edits|
      && (forall i :: b.groupStart.value <= i < |b.edits| ==> b.edits[i].remaining >= Leading(edits))
  }

  lemma DropOneKeepsOk(d: nat, s: seq<Queued>, q: Queued, rest: seq<Queued>, b: Batch)
    requires BatchOk(d, s, [q] + rest, b) && q.dropped
    ensures Begun(b.edits) ==>
      && b.groupStart.Some? && b.groupStart.value < |b.edits|
      && b.edits[|b.edits| - 1].remaining == q.edit.remaining + 1 && q.edit.inGroup
      && (forall i :: b.groupStart.value <= i < |b.edits| ==> b.edits[i].remaining >= 1)
    ensures BatchOk(d, s + [q], rest, if Begun(b.edits) then b.(edits := Lower(b.edits, b.groupStart.value, 1)) else b)
  {
    hide Owes, Shape, Stamped, MaxSeq, Grouped, Kept;
    var base, start, r :| BatchAt(s, [q] + rest, b, base, start, r);
    KeptAppend(s, q);
    assert Kept(s) + [] == Kept(s);
    assert Edits([q] + rest)[0] == q.edit && Edits([q] + rest)[1..] == Edits(rest);
    OwesStep(r, Edits([q] + rest));
    BegunIsOpen(s, b.edits, base, start, r);
    DropOne(s, b.edits, base, start, r, q);
    StampedLower(d, Kept(s), b.edits, start, 1);
    assert start == |b.edits| ==> Lower(b.edits, start, 1) == b.edits;
    assert BatchAt(s + [q], rest, b.(edits := Lower(b.edits, start, 1)), Base(s, base, q.edit),
                   Start(b.edits, start, q.edit), Debt(q.edit));
  }

  lemma {:induction false} DropKeepsOk(d: nat, s: seq<Queued>, qs: seq<Queued>, rest: seq<Queued>, b: Batch)
    requires BatchOk(d, s, qs + rest, b)
    requires forall i :: 0 <= i < |qs| ==> qs[i].dropped
    ensures Removable(b, Edits(qs)) && BatchOk(d, s + qs, rest, Without(b, Edits(qs)))
    decreases |qs|
  {
    hide BatchOk;
    if qs == [] {
      assert s + qs == s && qs + rest == rest;
      NothingToDrop(d, s, rest, b);
    } else {
      var q := qs[0];
      assert qs + rest == [q] + (qs[1..] + rest);
      DropOneKeepsOk(d, s, q, qs[1..] + rest, b);
      var b1 := if Begun(b.edits) then b.(edits := Lower(b.edits, b.groupStart.value, 1)) else b;
      DropKeepsOk(d, s + [q], qs[1..], rest, b1);
      assert s + qs == s + [q] + qs[1..];
      assert Edits(qs)[1..] == Edits(qs[1..]) && Edits(qs)[0] == q.edit;
      LowerTwice(b, q.edit, Edits(qs));
    }
  }

  lemma NothingToDrop(d: nat, s: seq<Queued>, rest: seq<Queued>, b: Batch)
    requires BatchOk(d, s, rest, b)
    ensures Removable(b, []) && Without(b, []) == b
  {
    hide Shape;
    var base, start, r :| BatchAt(s, rest, b, base, start, r);
    BegunIsOpen(s, b.edits, base, start, r);
    assert Begun(b.edits) ==> Lower(b.edits, start, 0) == b.edits;
  }

  lemma LowerTwice(b: Batch, e: Edit, edits: seq<Edit>)
    requires edits != [] && edits[0] == e
    requires Begun(b.edits) ==>
      && b.groupStart.Some? && b.groupStart.value < |b.edits|
      && b.edits[|b.edits| - 1].remaining == e.remaining + 1 && e.inGroup
      && (forall i :: b.groupStart.value <= i < |b.edits| ==> b.edits[i].remaining >= 1)
    requires Begun(b.edits) ==> Removable(b.(edits := Lower(b.edits, b.groupStart.value, 1)), edits[1..])
    ensures Removable(b, edits)
    ensures Without(b, edits)
         == if Begun(b.edits) then Without(b.(edits := Lower(b.edits, b.groupStart.value, 1)), edits[1..]) else b
  {
    if Begun(b.edits) {
      var once := Lower(b.edits, b.groupStart.value, 1);
      assert e.remaining == once[|once| - 1].remaining;
      forall i | b.groupStart.value <= i < |b.edits| ensures b.edits[i].remaining >= Leading(edits) {
        assert once[i].remaining == b.edits[i].remaining - 1;
      }
    }
  }

  /** A dropped column family: nothing is appended, and a begun group is told of the members that
      will not come. */
  method Drop(b0: Batch, w: ManifestWriter, ghost d: nat, ghost s: seq<Queued>, ghost rest: seq<Queued>)
      returns (b: Batch)
    requires w.dropped && BatchOk(d, s, OfWriter(w) + rest, b0)
    ensures BatchOk(d, s + OfWriter(w), rest, b)
  {
    hide BatchOk;
    DropKeepsOk(d, s, OfWriter(w), rest, b0);
    assert Edits(OfWriter(w)) == w.edits;
    b := b0;
    if Begun(b.edits) {
      var k := 0;
      while k < |w.edits|
        invariant k <= |w.edits| && Leading(w.edits) == k + Leading(w.edits[k..])
      {
        if !w.edits[k].inGroup {
          break;
        } else if w.edits[k].remaining == 0 {
          k := k + 1;
          break;
        }
        assert w.edits[k..][1..] == w.edits[k + 1..];
        k := k + 1;
      }
      var edits, first := b.edits, b.groupStart.value;
      for i := first to |edits|
        invariant |edits| == |b.edits|
        invariant forall j :: 0 <= j < i ==> edits[j] == Lower(b.edits, first, Leading(w.edits))[j]
        invariant forall j :: i <= j < |edits| ==> edits[j] == b.edits[j]
      {
        edits := edits[i := edits[i].(remaining := edits[i].remaining - k)];
      }
      assert edits == Lower(b.edits, first, Leading(w.edits));
      b := b.(edits := edits);
    }
  }

  // ----- the whole batch -----

  lemma AtStart(d: nat, queue: seq<ManifestWriter>)
    requires Grouped(Edits(Flat(queue)))
    ensures BatchOk(d, [], Flat(queue), Batch([], None, d))
  {
    assert Edits(Flat(queue))[0..] == Edits(Flat(queue));
    assert Edits(Flat(queue))[..0] == [];
    assert BatchAt([], Flat(queue), Batch([], None, d), 0, 0, 0);
  }

  lemma OwesFirst(r: nat, s: seq<Queued>)
    requires Owes(r, Edits(s)) && r > 0
    ensures s != [] && s[0].edit.inGroup
  {
    assert Edits(s)[..r][0] == s[0].edit;
  }

  lemma OpenLast(s: seq<Queued>, base: nat, r: nat)
    requires base < |s| && CountsDown(Edits(s[base..]), r)
    ensures s[|s| - 1].edit.inGroup
  {
    assert Edits(s[base..])[|s| - base - 1] == s[|s| - 1].edit;
  }

  lemma AtEnd(d: nat, s: seq<Queued>, rest: seq<Queued>, b: Batch)
    requires BatchOk(d, s, rest, b)
    requires rest == [] || !rest[0].edit.inGroup || (s != [] && !s[|s| - 1].edit.inGroup)
    ensures Repaired(s, b.edits)
  {
    hide Repaired, Owes, CountsDown, Kept, Stamped, MaxSeq;
    var base, start, r :| BatchAt(s, rest, b, base, start, r);
    if r > 0 {
      OwesFirst(r, rest);
      OpenLast(s, base, r);
    }
    Nothing(s, b.edits);
    assert s[..|s|] == s && b.edits[..|b.edits|] == b.edits;
  }

  /** What is still in the queue behind its first n writers. */
  ghost function Behind(queue: seq<ManifestWriter>, n: nat): seq<Queued>
    requires n <= |queue|
    decreases |queue| - n
  {
    if n == |queue| then [] else OfWriter(queue[n]) + Behind(queue, n + 1)
  }

  lemma {:induction false} FlatSplit(queue: seq<ManifestWriter>, n: nat)
    requires n <= |queue|
    ensures Flat(queue[..n]) + Behind(queue, n) == Flat(queue)
    decreases |queue| - n
  {
    if n == |queue| {
      assert queue[..n] == queue;
    } else {
      FlatSplit(queue, n + 1);
      assert queue[..n + 1][..n] == queue[..n];
    }
  }

  /** The edits at the head of the queue become one batch: a special edit alone, else every writer
      up to the next special edit. Each group keeps consistent counts and each edit a sequence
      number not below its predecessors', whichever column families were dropped. */
  method ProcessManifestWrites(queue: seq<ManifestWriter>, descriptorLastSequence: nat)
      returns (batch: seq<Edit>, taken: nat, maxLastSequence: nat)
    requires QueueOk(queue)
    ensures 1 <= taken <= |queue|
    ensures forall i :: 1 <= i < taken ==> !Special(queue[0].edits[0]) && !Special(queue[i].edits[0])
    ensures taken < |queue| ==> Special(queue[0].edits[0]) || Special(queue[taken].edits[0])
    ensures Repaired(Flat(queue[..taken]), batch)
    ensures Stamped(descriptorLastSequence, Kept(Flat(queue[..taken])), batch)
    ensures maxLastSequence == MaxSeq(descriptorLastSequence, Kept(Flat(queue[..taken])))
  {
    hide BatchOk, Repaired, Grouped, Stamped, MaxSeq, Kept;
    ghost var d := descriptorLastSequence;
    var b := Batch([], None, descriptorLastSequence);
    AtStart(d, queue);
    FlatSplit(queue, 0);
    assert queue[..0] == [] && [] + Behind(queue, 0) == Behind(queue, 0);
    var first := queue[0].edits[0];
    taken := 0;
    if first.kind.CfManipulation? {
      var e := first.(lastSeq := Some(b.max));
      assert OfWriter(queue[0]) == [Queued(first, false)];
      assert Flat(queue[..1]) == [Queued(first, false)] by {
        assert queue[..1][..0] == [];
      }
      KeepKeepsOk(d, [], Queued(first, false), Behind(queue, 1), b, e, b.max);
      assert [] + [Queued(first, false)] == Flat(queue[..1]) && [] + [e] == [e];
      b := Batch([e], None, b.max);
      taken := 1;
    } else {
      while true
        invariant taken < |queue|
        invariant taken > 0 ==> !Special(first)
        invariant forall i :: 0 < i <= taken ==> !Special(queue[i].edits[0])
        invariant BatchOk(d, Flat(queue[..taken]), Behind(queue, taken), b)
        decreases |queue| - taken
      {
        var w := queue[taken];
        if w.dropped {
          b := Drop(b, w, d, Flat(queue[..taken]), Behind(queue, taken + 1));
        } else {
          b := Append(b, w, d, Flat(queue[..taken]), Behind(queue, taken + 1));
        }
        assert queue[..taken + 1][..taken] == queue[..taken];
        taken := taken + 1;
        if taken == |queue| || first.kind.NoManifestWrite? || Special(queue[taken].edits[0]) {
          break;
        }
      }
    }
    Finish(d, queue, taken, b);
    batch, maxLastSequence := b.edits, b.max;
  }

  lemma Finish(d: nat, queue: seq<ManifestWriter>, taken: nat, b: Batch)
    requires QueueOk(queue) && 1 <= taken <= |queue|
    requires BatchOk(d, Flat(queue[..taken]), Behind(queue, taken), b)
    requires taken == |queue| || (taken == 1 && Special(queue[0].edits[0])) || Special(queue[taken].edits[0])
    ensures Repaired(Flat(queue[..taken]), b.edits)
    ensures Stamped(d, Kept(Flat(queue[..taken])), b.edits)
    ensures b.max == MaxSeq(d, Kept(Flat(queue[..taken])))
  {
    hide Repaired, Grouped, Stamped, MaxSeq, Kept, Shape;
    if taken == 1 {
      assert queue[..1][..0] == [];
      assert Flat(queue[..1]) == [] + OfWriter(queue[0]);
    }
    AtEnd(d, Flat(queue[..taken]), Behind(queue, taken), b);
  }

  /** What a reader of the batch relies on: whole groups, and sequence numbers that never decrease. */
  lemma BatchIsSound(s: seq<Queued>, d: nat, batch: seq<Edit>)
    requires Repaired(s, batch) && Stamped(d, Kept(s), batch)
    ensures Grouped(batch) && Rising(d, batch, MaxSeq(d, Kept(s)))
  {
    RepairedIsGrouped(s, batch);
    forall i, j | 0 <= i <= j < |batch|
      ensures d <= batch[i].lastSeq.value <= batch[j].lastSeq.value <= MaxSeq(d, Kept(s))
    {
      StampedNonDecreasing(d, Kept(s), batch, i, j);
    }
  }

  /** Every edit has a sequence number; they never decrease and lie between d and e. */
  ghost predicate Rising(d: nat, batch: seq<Edit>, e: nat) {
    && d <= e
    && (forall i :: 0 <= i < |batch| ==> batch[i].lastSeq.Some? && d <= batch[i].lastSeq.value <= e)
    && (forall i, j :: 0 <= i < j < |batch| ==> batch[i].lastSeq.value <= batch[j].lastSeq.value)
  }
}
