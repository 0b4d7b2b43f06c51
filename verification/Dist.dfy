/** Embeddings sharded over ranks: keys are assigned to the rank given by their remainder, and a
    lookup sends each key to its rank and the rows back, in two all-to-all exchanges. */
module Dist {
  // ----- owners -----

  const WORD := 0x1_0000_0000_0000_0000

  /** `dist_assign`: the remainder with the sign of the divisor. */
  function AssignOwner(key: int, ranks: nat): (r: nat)
    requires ranks > 0
    ensures r < ranks
  {
    key % ranks
  }

  /** `dist_select`: the key is first converted to an unsigned 64-bit word. */
  function SelectOwner(key: int, ranks: nat): (r: nat)
    requires ranks > 0
    ensures r < ranks
  {
    (key % WORD) % ranks
  }

  predicate IsInt64(key: int) {
    -(WORD / 2) <= key < WORD / 2
  }

  /** Both sides agree on keys that are not negative; on the others exactly if the number of ranks
      divides 2^64. */
  lemma OwnersAgree(key: int, ranks: nat)
    requires ranks > 0 && IsInt64(key)
    ensures SelectOwner(key, ranks) == AssignOwner(key, ranks) <==> key >= 0 || WORD % ranks == 0
  {
    if key < 0 {
      assert key % WORD == key + WORD;
      SumRemainder(key, WORD, ranks);
    }
  }

  /** Key -1 on three ranks is assigned to rank 2 and asked of rank 0. */
  lemma OwnersCanDisagree()
    ensures IsInt64(-1) && AssignOwner(-1, 3) == 2 && SelectOwner(-1, 3) == 0
  {
  }

  lemma SumRemainder(a: int, b: int, n: nat)
    requires n > 0
    ensures (a + b) % n == a % n <==> b % n == 0
  {
    var q, r := a / n, a % n;
    var p, t := b / n, b % n;
    assert a == n * q + r && b == n * p + t;
    assert a + b == n * (q + p) + (r + t);
    if r + t < n {
      Remainder(a + b, n, q + p, r + t);
    } else {
      assert n * (q + p) + n == n * (q + p + 1);
      Remainder(a + b, n, q + p + 1, r + t - n);
    }
  }

  lemma Remainder(x: int, n: nat, q: int, r: int)
    requires 0 <= r < n && x == n * q + r
    ensures x % n == r
  {
    assert x == n * (x / n) + x % n;
    SameRemainder(n, q, r, x / n, x % n);
  }

  lemma SameRemainder(n: nat, q: int, r: int, q': int, r': int)
    requires 0 <= r < n && 0 <= r' < n && n * q + r == n * q' + r'
    ensures r == r'
  {
    assert n * (q - q') == r' - r;
    if q > q' {
      Multiple(n, q - q');
    } else if q < q' {
      Multiple(n, q' - q);
    }
  }

  lemma Multiple(n: nat, k: nat)
    requires k > 0
    ensures n * k >= n
  {
  }

  // ----- chunks -----

  /** Where chunk d starts. */
  function Start(splits: seq<nat>, d: nat): nat
    requires d <= |splits|
  {
    if d == 0 then 0 else Start(splits, d - 1) + splits[d - 1]
  }

  lemma {:induction false} StartMonotone(splits: seq<nat>, d: nat, e: nat)
    requires d <= e <= |splits|
    ensures Start(splits, d) <= Start(splits, e)
    decreases e
  {
    if d < e {
      StartMonotone(splits, d, e - 1);
    }
  }

  ghost predicate Fits<T>(t: seq<T>, splits: seq<nat>) {
    Start(splits, |splits|) == |t|
  }

  function Chunk<T>(t: seq<T>, splits: seq<nat>, d: nat): (c: seq<T>)
    requires Start(splits, |splits|) == |t| && d < |splits|
    ensures |c| == splits[d]
  {
    StartMonotone(splits, d + 1, |splits|);
    t[Start(splits, d)..Start(splits, d + 1)]
  }

  /** The place of row i: the chunk it lies in. */
  lemma {:induction false} ChunkOf(splits: seq<nat>, i: nat, n: nat) returns (d: nat)
    requires n <= |splits| && i < Start(splits, n)
    ensures d < n && Start(splits, d) <= i < Start(splits, d + 1)
    decreases n
  {
    if i < Start(splits, n - 1) {
      d := ChunkOf(splits, i, n - 1);
    } else {
      d := n - 1;
    }
  }

  // ----- the exchange -----

  /** What every rank sends: rows and how many of them go to each rank. */
  ghost predicate World<T>(tensors: seq<seq<T>>, splits: seq<seq<nat>>) {
    && |tensors| == |splits|
    && forall r :: 0 <= r < |tensors| ==> |splits[r]| == |tensors| && Fits(tensors[r], splits[r])
  }

  /** The first exchange of `alltoall`: each rank learns how many rows it gets from each. */
  function Received(splits: seq<seq<nat>>, d: nat): (s: seq<nat>)
    requires forall r :: 0 <= r < |splits| ==> d < |splits[r]|
    ensures |s| == |splits|
  {
    seq(|splits|, r requires 0 <= r < |splits| => splits[r][d])
  }

  /** The second exchange: rank d gets its chunk of every rank's rows, by rank. */
  function Gathered<T>(tensors: seq<seq<T>>, splits: seq<seq<nat>>, d: nat, n: nat): (t: seq<T>)
    requires World(tensors, splits) && d < |tensors| && n <= |tensors|
    ensures |t| == Start(Received(splits, d), n)
  {
    if n == 0 then [] else Gathered(tensors, splits, d, n - 1) + Chunk(tensors[n - 1], splits[n - 1], d)
  }

  function AllToAll<T>(tensors: seq<seq<T>>, splits: seq<seq<nat>>): (out: seq<seq<T>>)
    requires World(tensors, splits)
    ensures |out| == |tensors|
  {
    seq(|tensors|, d requires 0 <= d < |tensors| => Gathered(tensors, splits, d, |tensors|))
  }

  function AllReceived<T>(tensors: seq<seq<T>>, splits: seq<seq<nat>>): (out: seq<seq<nat>>)
    requires World(tensors, splits)
    ensures |out| == |tensors| && World(AllToAll(tensors, splits), out)
  {
    seq(|tensors|, d requires 0 <= d < |tensors| => Received(splits, d))
  }

  /** The rows that came from rank r are the chunk that rank r sent. */
  lemma {:induction false} ChunkArrives<T>(tensors: seq<seq<T>>, splits: seq<seq<nat>>, d: nat, r: nat, n: nat, k: nat)
    requires World(tensors, splits) && d < |tensors| && r < n <= |tensors| && k < splits[r][d]
    ensures var s := Received(splits, d);
            && Start(s, r) + k < |Gathered(tensors, splits, d, n)|
            && Gathered(tensors, splits, d, n)[Start(s, r) + k] == Chunk(tensors[r], splits[r], d)[k]
    decreases n
  {
    hide Chunk, Fits;
    var s := Received(splits, d);
    WorldAt(tensors, splits, n - 1);
    WorldAt(tensors, splits, r);
    StartMonotone(s, r + 1, n);
    if r < n - 1 {
      ChunkArrives(tensors, splits, d, r, n - 1, k);
    }
  }

  lemma WorldAt<T>(tensors: seq<seq<T>>, splits: seq<seq<nat>>, r: nat)
    requires World(tensors, splits) && r < |tensors|
    ensures |splits| == |tensors| == |splits[r]| && Fits(tensors[r], splits[r])
    ensures Start(splits[r], |splits[r]|) == |tensors[r]|
  {
  }

  /** The splits of the way back are those of the way out. */
  lemma ReceivedTwice<T>(tensors: seq<seq<T>>, splits: seq<seq<nat>>, r: nat)
    requires World(tensors, splits) && r < |tensors|
    ensures Received(AllReceived(tensors, splits), r) == splits[r]
  {
  }

  /** Rows are changed one by one between the exchanges. */
  ghost predicate Mapped<T(!new), U(!new)>(f: T -> U, s: seq<T>, t: seq<U>) {
    |t| == |s| && forall i :: 0 <= i < |s| ==> t[i] == f(s[i])
  }

  /** The second exchange, with the received splits, undoes the first: each row comes back to the
      place its key was sent from. */
  lemma ExchangeUndone<T(!new), U(!new)>(f: T -> U, tensors: seq<seq<T>>, splits: seq<seq<nat>>, rows: seq<seq<U>>)
    requires World(tensors, splits) && |rows| == |tensors|
    requires forall d :: 0 <= d < |rows| ==> Mapped(f, AllToAll(tensors, splits)[d], rows[d])
    ensures World(rows, AllReceived(tensors, splits))
    ensures forall r :: 0 <= r < |tensors| ==> Mapped(f, tensors[r], AllToAll(rows, AllReceived(tensors, splits))[r])
  {
    hide Mapped;
    var back := AllReceived(tensors, splits);
    forall d | 0 <= d < |rows| ensures Fits(rows[d], back[d]) {
      MappedSize(f, AllToAll(tensors, splits)[d], rows[d]);
    }
    forall r | 0 <= r < |tensors| ensures Mapped(f, tensors[r], AllToAll(rows, back)[r]) {
      ReceivedTwice(tensors, splits, r);
      RowsReturn(f, tensors, splits, rows, r);
    }
  }

  lemma MappedSize<T(!new), U(!new)>(f: T -> U, s: seq<T>, t: seq<U>)
    requires Mapped(f, s, t)
    ensures |s| == |t|
  {
  }

  lemma RowsReturn<T(!new), U(!new)>(f: T -> U, tensors: seq<seq<T>>, splits: seq<seq<nat>>, rows: seq<seq<U>>, r: nat)
    requires World(tensors, splits) && |rows| == |tensors| && r < |tensors|
    requires forall d :: 0 <= d < |rows| ==> Mapped(f, AllToAll(tensors, splits)[d], rows[d])
    requires World(rows, AllReceived(tensors, splits))
    requires Received(AllReceived(tensors, splits), r) == splits[r]
    ensures Mapped(f, tensors[r], AllToAll(rows, AllReceived(tensors, splits))[r])
  {
    var n := |tensors|;
    var back := AllReceived(tensors, splits);
    var result := Gathered(rows, back, r, n);
    forall i | 0 <= i < |tensors[r]| ensures result[i] == f(tensors[r][i]) {
      var d := ChunkOf(splits[r], i, n);
      RowReturns(f, tensors, splits, rows, r, d, i);
    }
  }

  lemma RowReturns<T(!new), U(!new)>(f: T -> U, tensors: seq<seq<T>>, splits: seq<seq<nat>>, rows: seq<seq<U>>,
                                     r: nat, d: nat, i: nat)
    requires World(tensors, splits) && |rows| == |tensors| && r < |tensors| && d < |tensors|
    requires Mapped(f, AllToAll(tensors, splits)[d], rows[d])
    requires World(rows, AllReceived(tensors, splits))
    requires Received(AllReceived(tensors, splits), r) == splits[r]
    requires Start(splits[r], d) <= i < Start(splits[r], d + 1)
    ensures i < |tensors[r]| && i < |Gathered(rows, AllReceived(tensors, splits), r, |tensors|)|
    ensures Gathered(rows, AllReceived(tensors, splits), r, |tensors|)[i] == f(tensors[r][i])
  {
    hide Gathered, World;
    var n := |tensors|;
    var back := AllReceived(tensors, splits);
    WorldAt(tensors, splits, r);
    WorldAt(rows, back, d);
    StartMonotone(splits[r], d + 1, n);
    var k := i - Start(splits[r], d);
    ChunkArrives(rows, back, r, d, n, k);
    ChunkArrives(tensors, splits, d, r, n, k);
    StartMonotone(back[d], r + 1, n);
    assert Chunk(rows[d], back[d], r)[k] == rows[d][Start(back[d], r) + k];
    assert Chunk(tensors[r], splits[r], d)[k] == tensors[r][i];
  }

  // ----- assignment -----

  type Row = seq<real>

  /** The rows of the keys that belong to a rank. */
  class Store {
    var table: map<int, Row>

    constructor ()
      ensures table == map[]
    {
      table := map[];
    }

    method Assign(keys: seq<int>, values: seq<Row>)
      requires |keys| == |values| && forall i, j :: 0 <= i < j < |keys| ==> keys[i] != keys[j]
      modifies this
      ensures forall i :: 0 <= i < |keys| ==> keys[i] in table && table[keys[i]] == values[i]
      ensures forall k :: k !in keys ==> (k in table <==> k in old(table)) && (k in table ==> table[k] == old(table)[k])
    {
      for n := 0 to |keys|
        invariant forall i :: 0 <= i < n ==> keys[i] in table && table[keys[i]] == values[i]
        invariant forall k :: k !in keys ==>
                    (k in table <==> k in old(table)) && (k in table ==> table[k] == old(table)[k])
      {
        table := table[keys[n] := values[n]];
      }
    }

    /** Every rank runs this on the same keys and keeps those it owns. */
    method DistAssign(rank: nat, ranks: nat, keys: seq<int>, values: seq<Row>)
      requires rank < ranks && |keys| == |values| && forall i, j :: 0 <= i < j < |keys| ==> keys[i] != keys[j]
      modifies this
      ensures forall i :: 0 <= i < |keys| && AssignOwner(keys[i], ranks) == rank ==>
                keys[i] in table && table[keys[i]] == values[i]
      ensures forall k :: k !in keys || AssignOwner(k, ranks) != rank ==>
        (k in table <==> k in old(table)) && (k in table ==> table[k] == old(table)[k])
    {
      var localKeys: seq<int>, localValues: seq<Row> := [], [];
      ghost var places: seq<nat> := [];
      for n := 0 to |keys|
        invariant |localKeys| == |localValues| == |places|
        invariant forall p :: 0 <= p < |places| ==>
          && places[p] < n && localKeys[p] == keys[places[p]] && localValues[p] == values[places[p]]
          && AssignOwner(localKeys[p], ranks) == rank
        invariant forall p, q :: 0 <= p < q < |places| ==> places[p] < places[q]
        invariant forall i :: 0 <= i < n && AssignOwner(keys[i], ranks) == rank ==> i in places
      {
        if AssignOwner(keys[n], ranks) == rank {
          localKeys, localValues, places := localKeys + [keys[n]], localValues + [values[n]], places + [n];
        }
      }
      Assign(localKeys, localValues);
    }
  }

  // ----- assignment on all ranks -----

  ghost function Tables(stores: seq<Store>): (t: seq<map<int, Row>>)
    reads stores
    ensures |t| == |stores|
  {
    seq(|stores|, r requires 0 <= r < |stores| reads stores => stores[r].table)
  }

  /** The rows that the keys are to have. */
  ghost predicate Pairs(keys: seq<int>, values: seq<Row>, assignment: map<int, Row>) {
    && |keys| == |values|
    && (forall i :: 0 <= i < |keys| ==> keys[i] in assignment && assignment[keys[i]] == values[i])
    && (forall k :: k in assignment ==> k in keys)
  }

  /** Every rank ran `DistAssign`: each key's row is on its owner. */
  ghost predicate Assigned(tables: seq<map<int, Row>>, assignment: map<int, Row>) {
    && tables != []
    && forall k :: k in assignment ==> var t := tables[AssignOwner(k, |tables|)]; k in t && t[k] == assignment[k]
  }

  /** And, from empty tables, nowhere else. */
  ghost predicate OnlyAssigned(tables: seq<map<int, Row>>, assignment: map<int, Row>) {
    && tables != []
    && forall r, k :: 0 <= r < |tables| && k in tables[r] ==> k in assignment && AssignOwner(k, |tables|) == r
  }

  /** Every rank runs `DistAssign` on the same keys. */
  method AssignAll(stores: seq<Store>, keys: seq<int>, values: seq<Row>, ghost assignment: map<int, Row>)
    requires stores != [] && forall r, s :: 0 <= r < s < |stores| ==> stores[r] != stores[s]
    requires forall i, j :: 0 <= i < j < |keys| ==> keys[i] != keys[j]
    requires Pairs(keys, values, assignment)
    modifies stores
    ensures Assigned(Tables(stores), assignment)
    ensures (forall r :: 0 <= r < |stores| ==> old(stores[r].table) == map[]) ==>
              OnlyAssigned(Tables(stores), assignment)
  {
    var ranks := |stores|;
    for n := 0 to ranks
      invariant forall r :: n <= r < ranks ==> stores[r].table == old(stores[r].table)
      invariant forall r :: 0 <= r < n ==> Holds(r, ranks, keys, values, old(stores[r].table), stores[r].table)
    {
      stores[n].DistAssign(n, ranks, keys, values);
    }
    EachHolds(ranks, keys, values, assignment, old(Tables(stores)), Tables(stores));
  }

  /** What `DistAssign` makes of a table. */
  ghost predicate Holds(rank: nat, ranks: nat, keys: seq<int>, values: seq<Row>, before: map<int, Row>,
                        after: map<int, Row>) {
    && |keys| == |values| && rank < ranks
    && (forall i :: 0 <= i < |keys| && AssignOwner(keys[i], ranks) == rank ==>
          keys[i] in after && after[keys[i]] == values[i])
    && (forall k :: k !in keys || AssignOwner(k, ranks) != rank ==>
          (k in after <==> k in before) && (k in after ==> after[k] == before[k]))
  }

  lemma EachHolds(ranks: nat, keys: seq<int>, values: seq<Row>, assignment: map<int, Row>,
                  before: seq<map<int, Row>>, after: seq<map<int, Row>>)
    requires ranks > 0 && |before| == |after| == ranks && Pairs(keys, values, assignment)
    requires forall r :: 0 <= r < ranks ==> Holds(r, ranks, keys, values, before[r], after[r])
    ensures Assigned(after, assignment)
    ensures (forall r :: 0 <= r < ranks ==> before[r] == map[]) ==> OnlyAssigned(after, assignment)
  {
    forall k | k in assignment
      ensures k in after[AssignOwner(k, ranks)] && after[AssignOwner(k, ranks)][k] == assignment[k]
    {
      var i :| 0 <= i < |keys| && keys[i] == k;
      var r := AssignOwner(k, ranks);
      assert Holds(r, ranks, keys, values, before[r], after[r]);
    }
    if forall r :: 0 <= r < ranks ==> before[r] == map[] {
      forall r, k | 0 <= r < ranks && k in after[r] ensures k in assignment && AssignOwner(k, ranks) == r {
        assert Holds(r, ranks, keys, values, before[r], after[r]);
      }
    }
  }

  // ----- lookup -----

  /** What `dist_select` promises: the keys grouped by owner, and where each came from. Within a group
      any order will do. */
  datatype Selection = Selection(keys: seq<int>, order: seq<nat>, splits: seq<nat>)
  {
    ghost predicate Of(indices: seq<int>, ranks: nat) {
      && |keys| == |order| == |indices| && |splits| == ranks > 0 && Fits(keys, splits)
      && (forall i :: 0 <= i < |order| ==> order[i] < |indices| && keys[i] == indices[order[i]])
      && (forall j :: 0 <= j < |indices| ==> j in order)
      && (forall i, j :: 0 <= i < j < |order| ==> order[i] != order[j])
      && (forall d, i :: 0 <= d < ranks && Start(splits, d) <= i < Start(splits, d + 1) && i < |keys| ==>
            SelectOwner(keys[i], ranks) == d)
    }
  }

  // ----- a selection -----

  /** The selection so far: the keys of the first d ranks. */
  ghost predicate Selected(indices: seq<int>, ranks: nat, d: nat, s: Selection)
    requires ranks > 0
  {
    && |s.keys| == |s.order| && |s.splits| == d && Fits(s.keys, s.splits)
    && (forall i :: 0 <= i < |s.order| ==> s.order[i] < |indices| && s.keys[i] == indices[s.order[i]])
    && (forall j :: 0 <= j < |indices| ==> (j in s.order <==> SelectOwner(indices[j], ranks) < d))
    && (forall i, j :: 0 <= i < j < |s.order| ==> s.order[i] != s.order[j])
    && (forall e, i :: 0 <= e < d && Start(s.splits, e) <= i < Start(s.splits, e + 1) && i < |s.keys| ==>
          SelectOwner(s.keys[i], ranks) == e)
  }

  lemma {:induction false} StartOfMore(splits: seq<nat>, n: nat, d: nat)
    requires d <= |splits|
    ensures Start(splits + [n], d) == Start(splits, d)
    decreases d
  {
    if d > 0 {
      StartOfMore(splits, n, d - 1);
    }
  }

  /** The places of one rank's keys. */
  ghost predicate Picked(indices: seq<int>, ranks: nat, d: nat, places: seq<nat>)
    requires ranks > 0
  {
    && (forall i :: 0 <= i < |places| ==> places[i] < |indices| && SelectOwner(indices[places[i]], ranks) == d)
    && (forall j :: 0 <= j < |indices| && SelectOwner(indices[j], ranks) == d ==> j in places)
    && (forall i, j :: 0 <= i < j < |places| ==> places[i] != places[j])
  }

  method Pick(indices: seq<int>, ranks: nat, d: nat) returns (places: seq<nat>, keys: seq<int>)
    requires ranks > 0
    ensures Picked(indices, ranks, d, places)
    ensures |keys| == |places| && forall i :: 0 <= i < |keys| ==> places[i] < |indices| && keys[i] == indices[places[i]]
  {
    hide SelectOwner;
    places, keys := [], [];
    for n := 0 to |indices|
      invariant |keys| == |places|
      invariant forall i :: 0 <= i < |places| ==> places[i] < n && SelectOwner(indices[places[i]], ranks) == d
      invariant forall i :: 0 <= i < |keys| ==> keys[i] == indices[places[i]]
      invariant forall j :: 0 <= j < n && SelectOwner(indices[j], ranks) == d ==> j in places
      invariant forall i, j :: 0 <= i < j < |places| ==> places[i] != places[j]
    {
      if SelectOwner(indices[n], ranks) == d {
        places, keys := places + [n], keys + [indices[n]];
      }
    }
  }

  lemma SelectNext(indices: seq<int>, ranks: nat, d: nat, s: Selection, places: seq<nat>, keys: seq<int>)
    requires ranks > 0 && Selected(indices, ranks, d, s) && Picked(indices, ranks, d, places) && |keys| == |places|
    requires forall i :: 0 <= i < |keys| ==> places[i] < |indices| && keys[i] == indices[places[i]]
    ensures Selected(indices, ranks, d + 1, Selection(s.keys + keys, s.order + places, s.splits + [|keys|]))
  {
    hide SelectOwner, Start;
    var t := Selection(s.keys + keys, s.order + places, s.splits + [|keys|]);
    forall e: nat | e <= d ensures Start(t.splits, e) == Start(s.splits, e) {
      StartOfMore(s.splits, |keys|, e);
    }
    LastStart(t.splits);
    forall i, j | 0 <= i < j < |t.order| ensures t.order[i] != t.order[j] {
      if i < |s.order| <= j {
        assert s.order[i] in s.order;
      }
    }
    forall j | 0 <= j < |indices| ensures j in t.order <==> SelectOwner(indices[j], ranks) < d + 1 {
      if j in places {
        var i :| 0 <= i < |places| && places[i] == j;
      }
    }
    forall e: nat, i | e < d + 1 && Start(t.splits, e) <= i < Start(t.splits, e + 1) && i < |t.keys|
      ensures SelectOwner(t.keys[i], ranks) == e
    {
      if e < d {
        StartMonotone(s.splits, e + 1, d);
      }
    }
  }

  lemma LastStart(splits: seq<nat>)
    requires splits != []
    ensures Start(splits, |splits|) == Start(splits, |splits| - 1) + splits[|splits| - 1]
  {
  }

  /** As many places as numbers below n, if each is there once. */
  lemma {:induction false} OncePerPlace(order: seq<nat>, n: nat)
    requires forall i :: 0 <= i < |order| ==> order[i] < n
    requires forall i, j :: 0 <= i < j < |order| ==> order[i] != order[j]
    requires forall j :: 0 <= j < n ==> j in order
    ensures |order| == n
  {
    if n > 0 {
      assert n - 1 in order;
      var k :| 0 <= k < |order| && order[k] == n - 1;
      var rest := order[..k] + order[k + 1..];
      forall j | 0 <= j < n - 1 ensures j in rest {
        assert j in order;
        var i :| 0 <= i < |order| && order[i] == j;
        assert rest[if i < k then i else i - 1] == j;
      }
      OncePerPlace(rest, n - 1);
    }
  }

  /** A selection of any list, rank by rank. */
  method DistSelect(indices: seq<int>, ranks: nat) returns (s: Selection)
    requires ranks > 0
    ensures s.Of(indices, ranks)
  {
    hide SelectOwner;
    s := Selection([], [], []);
    for d := 0 to ranks
      invariant Selected(indices, ranks, d, s)
    {
      var places, keys := Pick(indices, ranks, d);
      SelectNext(indices, ranks, d, s, places, keys);
      s := Selection(s.keys + keys, s.order + places, s.splits + [|keys|]);
    }
    OncePerPlace(s.order, |indices|);
  }

  /** Every rank selects. */
  method SelectAll(indices: seq<seq<int>>) returns (q: Request)
    requires indices != []
    ensures q.Ok() && q.indices == indices
  {
    hide Selection.Of;
    var selections: seq<Selection> := [];
    for r := 0 to |indices|
      invariant |selections| == r && forall i :: 0 <= i < r ==> selections[i].Of(indices[i], |indices|)
    {
      var s := DistSelect(indices[r], |indices|);
      selections := selections + [s];
    }
    q := Request(indices, selections);
  }

  /** `reorder`: row i goes to where key i came from. */
  method Reorder(rows: seq<Row>, order: seq<nat>) returns (out: seq<Row>)
    requires |order| == |rows| && forall i :: 0 <= i < |order| ==> order[i] < |rows|
    requires forall i, j :: 0 <= i < j < |order| ==> order[i] != order[j]
    ensures |out| == |rows| && forall i :: 0 <= i < |order| ==> out[order[i]] == rows[i]
  {
    var outputs := new Row[|rows|](_ => []);
    for n := 0 to |rows|
      invariant forall i :: 0 <= i < n ==> outputs[order[i]] == rows[i]
    {
      outputs[order[n]] := rows[n];
    }
    out := outputs[..];
  }

  method Read(table: map<int, Row>, keys: seq<int>) returns (rows: seq<Row>)
    requires forall i :: 0 <= i < |keys| ==> keys[i] in table
    ensures |rows| == |keys| && forall i :: 0 <= i < |keys| ==> rows[i] == table[keys[i]]
  {
    rows := [];
    for n := 0 to |keys|
      invariant |rows| == n && forall i :: 0 <= i < n ==> rows[i] == table[keys[i]]
    {
      rows := rows + [table[keys[n]]];
    }
  }

  /** The keys a rank receives are its own. */
  lemma ArrivesAtOwner(tensors: seq<seq<int>>, splits: seq<seq<nat>>, d: nat, i: nat) returns (r: nat, p: nat)
    requires World(tensors, splits) && d < |tensors| && i < |AllToAll(tensors, splits)[d]|
    ensures r < |tensors| && Start(splits[r], d) <= p < Start(splits[r], d + 1) && p < |tensors[r]|
    ensures AllToAll(tensors, splits)[d][i] == tensors[r][p]
  {
    hide Gathered, World;
    WorldAt(tensors, splits, d);
    var s := WorldReceived(tensors, splits, d);
    r := ChunkOf(s, i, |tensors|);
    var k := i - Start(s, r);
    ChunkArrives(tensors, splits, d, r, |tensors|, k);
    WorldAt(tensors, splits, r);
    p := Start(splits[r], d) + k;
    StartMonotone(splits[r], d + 1, |tensors|);
    assert Chunk(tensors[r], splits[r], d)[k] == tensors[r][p];
  }

  lemma WorldReceived<T>(tensors: seq<seq<T>>, splits: seq<seq<nat>>, d: nat) returns (s: seq<nat>)
    requires World(tensors, splits) && d < |tensors|
    ensures (forall r :: 0 <= r < |splits| ==> d < |splits[r]|) && s == Received(splits, d) && |s| == |tensors|
    ensures |AllToAll(tensors, splits)[d]| == Start(s, |tensors|)
    ensures forall r :: 0 <= r < |tensors| ==> s[r] == splits[r][d]
  {
    s := Received(splits, d);
  }

  /** All ranks look up lists of keys. */
  datatype Request = Request(indices: seq<seq<int>>, selections: seq<Selection>)
  {
    ghost predicate Ok() {
      && |indices| == |selections| > 0
      && forall r :: 0 <= r < |indices| ==> selections[r].Of(indices[r], |indices|)
    }

    function Keys(): (t: seq<seq<int>>) {
      seq(|selections|, r requires 0 <= r < |selections| => selections[r].keys)
    }

    function Splits(): (t: seq<seq<nat>>) {
      seq(|selections|, r requires 0 <= r < |selections| => selections[r].splits)
    }

    lemma IsWorld()
      requires Ok()
      ensures World(Keys(), Splits()) && |Keys()| == |indices|
    {
    }
  }

  /** Each requested key was assigned, and both sides agree on its owner. */
  ghost predicate Known(q: Request, assignment: map<int, Row>) {
    && q.Ok()
    && forall r, i :: 0 <= r < |q.indices| && 0 <= i < |q.indices[r]| ==>
         var k := q.indices[r][i];
         k in assignment && IsInt64(k) && (k >= 0 || WORD % |q.indices| == 0)
  }

  /** A key sent to rank d has its row there. */
  lemma RowIsThere(q: Request, tables: seq<map<int, Row>>, assignment: map<int, Row>, d: nat, i: nat)
    requires Known(q, assignment) && Assigned(tables, assignment) && |tables| == |q.indices|
    requires World(q.Keys(), q.Splits()) && d < |tables| && i < |AllToAll(q.Keys(), q.Splits())[d]|
    ensures var k := AllToAll(q.Keys(), q.Splits())[d][i];
            k in assignment && k in tables[d] && tables[d][k] == assignment[k]
  {
    hide World, AllToAll, Start;
    var r, p := ArrivesAtOwner(q.Keys(), q.Splits(), d, i);
    var s := q.selections[r];
    assert s.Of(q.indices[r], |tables|);
    var k := s.keys[p];
    assert k == q.indices[r][s.order[p]];
    OwnersAgree(k, |tables|);
  }

  /** `all2all_dense_embedding` on every rank: row i is the row assigned to the i-th key asked for. */
  method All2AllDenseEmbedding(tables: seq<map<int, Row>>, q: Request, ghost assignment: map<int, Row>)
    returns (results: seq<seq<Row>>)
    requires q.Ok() && Known(q, assignment) && Assigned(tables, assignment) && |tables| == |q.indices|
    ensures |results| == |q.indices|
    ensures forall r :: 0 <= r < |results| ==> RowsOf(q.indices[r], assignment, results[r])
  {
    hide World, AllToAll, AllReceived, Known, Assigned, Mapped, IsInt64;
    var n := |tables|;
    q.IsWorld();
    var exchanged := AllToAll(q.Keys(), q.Splits());
    var received := AllReceived(q.Keys(), q.Splits());
    ghost var f := (k: int) => if k in assignment then assignment[k] else [];
    var rows: seq<seq<Row>> := [];
    for d := 0 to n
      invariant |rows| == d && forall e :: 0 <= e < d ==> Mapped(f, exchanged[e], rows[e])
    {
      forall i | 0 <= i < |exchanged[d]|
        ensures exchanged[d][i] in tables[d] && tables[d][exchanged[d][i]] == f(exchanged[d][i])
      {
        RowIsThere(q, tables, assignment, d, i);
      }
      var read := Read(tables[d], exchanged[d]);
      AllMapped(f, exchanged[d], read);
      rows := rows + [read];
    }
    ExchangeUndone(f, q.Keys(), q.Splits(), rows);
    var returned := AllToAll(rows, received);
    results := [];
    for r := 0 to n
      invariant |results| == r && forall s :: 0 <= s < r ==> RowsOf(q.indices[s], assignment, results[s])
    {
      assert q.selections[r].Of(q.indices[r], n);
      Returned(q, f, returned[r], r);
      var result := Reorder(returned[r], q.selections[r].order);
      InPlace(q, assignment, r, returned[r], result);
      results := results + [result];
    }
  }

  ghost predicate RowsOf(indices: seq<int>, assignment: map<int, Row>, rows: seq<Row>) {
    |rows| == |indices| && forall i :: 0 <= i < |indices| ==>
      indices[i] in assignment && rows[i] == assignment[indices[i]]
  }

  lemma AllMapped<T(!new), U(!new)>(f: T -> U, s: seq<T>, t: seq<U>)
    requires |t| == |s| && forall i :: 0 <= i < |s| ==> t[i] == f(s[i])
    ensures Mapped(f, s, t)
  {
  }

  lemma Returned(q: Request, f: int -> Row, rows: seq<Row>, r: nat)
    requires q.Ok() && r < |q.indices| && Mapped(f, q.Keys()[r], rows)
    ensures |rows| == |q.selections[r].keys| == |q.indices[r]|
    ensures forall i :: 0 <= i < |rows| ==> rows[i] == f(q.selections[r].keys[i])
  {
    assert q.selections[r].Of(q.indices[r], |q.indices|);
  }

  lemma InPlace(q: Request, assignment: map<int, Row>, r: nat, rows: seq<Row>, result: seq<Row>)
    requires Known(q, assignment) && r < |q.indices|
    requires var s := q.selections[r];
             && |rows| == |s.order| == |result| == |q.indices[r]| && |s.keys| == |rows|
             && (forall i :: 0 <= i < |rows| ==>
                   rows[i] == if s.keys[i] in assignment then assignment[s.keys[i]] else [])
             && (forall i :: 0 <= i < |s.order| ==> s.order[i] < |rows| && result[s.order[i]] == rows[i])
    ensures RowsOf(q.indices[r], assignment, result)
  {
    hide Start, Fits, IsInt64;
    var s := q.selections[r];
    assert s.Of(q.indices[r], |q.indices|);
    forall j | 0 <= j < |q.indices[r]|
      ensures q.indices[r][j] in assignment && result[j] == assignment[q.indices[r][j]]
    {
      assert j in s.order;
      var i :| 0 <= i < |s.order| && s.order[i] == j;
      assert s.keys[i] == q.indices[r][j];
    }
  }

  /** After assignment on all ranks, lookups by all ranks return the rows assigned. */
  method AssignThenLookup(stores: seq<Store>, keys: seq<int>, values: seq<Row>, q: Request,
                          ghost assignment: map<int, Row>)
      returns (results: seq<seq<Row>>)
    requires forall r, s :: 0 <= r < s < |stores| ==> stores[r] != stores[s]
    requires forall i, j :: 0 <= i < j < |keys| ==> keys[i] != keys[j]
    requires Pairs(keys, values, assignment) && q.Ok() && Known(q, assignment) && |stores| == |q.indices|
    modifies stores
    ensures |results| == |q.indices|
    ensures forall r :: 0 <= r < |results| ==> RowsOf(q.indices[r], assignment, results[r])
  {
    hide Pairs, Known, Assigned, OnlyAssigned, RowsOf, Request.Ok;
    AtLeastOne(q);
    AssignAll(stores, keys, values, assignment);
    var tables: seq<map<int, Row>> := [];
    for r := 0 to |stores|
      invariant tables == Tables(stores)[..r]
    {
      tables := tables + [stores[r].table];
    }
    assert tables == Tables(stores);
    results := All2AllDenseEmbedding(tables, q, assignment);
  }

  lemma AtLeastOne(q: Request)
    requires q.Ok()
    ensures |q.indices| > 0
  {
  }

  // ----- exactly when a lookup finds its rows -----

  /** Each requested key was assigned and is a 64-bit number. */
  ghost predicate Asked(q: Request, assignment: map<int, Row>) {
    && q.Ok()
    && forall r, i :: 0 <= r < |q.indices| && 0 <= i < |q.indices[r]| ==>
         q.indices[r][i] in assignment && IsInt64(q.indices[r][i])
  }

  /** A key that arrives at a rank has its row there exactly if both sides agree on its owner. */
  lemma RowIsThereExactly(q: Request, tables: seq<map<int, Row>>, assignment: map<int, Row>, d: nat, i: nat)
    requires Asked(q, assignment) && Assigned(tables, assignment) && OnlyAssigned(tables, assignment)
    requires |tables| == |q.indices|
    requires World(q.Keys(), q.Splits()) && d < |tables| && i < |AllToAll(q.Keys(), q.Splits())[d]|
    ensures var k := AllToAll(q.Keys(), q.Splits())[d][i];
            k in tables[d] <==> k >= 0 || WORD % |tables| == 0
  {
    hide World, AllToAll, Start;
    var r, p := ArrivesAtOwner(q.Keys(), q.Splits(), d, i);
    var s := q.selections[r];
    assert s.Of(q.indices[r], |tables|);
    var k := s.keys[p];
    assert k == q.indices[r][s.order[p]];
    OwnersAgree(k, |tables|);
  }

  lemma SelectedAt(s: Selection, indices: seq<int>, ranks: nat, j: nat) returns (p: nat)
    requires s.Of(indices, ranks) && j < |indices|
    ensures p < |s.keys| && s.keys[p] == indices[j] && |s.splits| == ranks && Start(s.splits, ranks) == |s.keys|
  {
    hide Start;
    assert j in s.order;
    p :| 0 <= p < |s.order| && s.order[p] == j;
  }

  /** Every requested key arrives somewhere. */
  lemma EveryKeyArrives(q: Request, r: nat, j: nat) returns (d: nat, i: nat)
    requires q.Ok() && World(q.Keys(), q.Splits()) && r < |q.indices| && j < |q.indices[r]|
    ensures d < |q.indices| && i < |AllToAll(q.Keys(), q.Splits())[d]|
    ensures AllToAll(q.Keys(), q.Splits())[d][i] == q.indices[r][j]
  {
    hide Gathered, World;
    var n := |q.indices|;
    var s := q.selections[r];
    var p := SelectedAt(s, q.indices[r], n, j);
    WorldAt(q.Keys(), q.Splits(), r);
    d := ChunkOf(s.splits, p, n);
    var received := WorldReceived(q.Keys(), q.Splits(), d);
    var k := p - Start(s.splits, d);
    ChunkArrives(q.Keys(), q.Splits(), d, r, n, k);
    i := Start(received, r) + k;
    StartMonotone(s.splits, d + 1, n);
    assert Chunk(q.Keys()[r], q.Splits()[r], d)[k] == s.keys[p];
  }

  /** On freshly assigned tables a lookup finds every row if and only if no requested key is negative or
      the number of ranks divides 2^64. */
  lemma LookupFindsExactly(q: Request, tables: seq<map<int, Row>>, assignment: map<int, Row>)
    requires Asked(q, assignment) && Assigned(tables, assignment) && OnlyAssigned(tables, assignment)
    requires |tables| == |q.indices|
    requires World(q.Keys(), q.Splits())
    ensures (forall d, i :: 0 <= d < |tables| && 0 <= i < |AllToAll(q.Keys(), q.Splits())[d]| ==>
               AllToAll(q.Keys(), q.Splits())[d][i] in tables[d])
        <==> (forall r, j :: 0 <= r < |q.indices| && 0 <= j < |q.indices[r]| ==>
                q.indices[r][j] >= 0 || WORD % |tables| == 0)
  {
    hide Asked, Assigned, OnlyAssigned, World, AllToAll, IsInt64;
    var exchanged := AllToAll(q.Keys(), q.Splits());
    AskedIsOk(q, assignment);
    if forall d, i :: 0 <= d < |tables| && 0 <= i < |exchanged[d]| ==> exchanged[d][i] in tables[d] {
      forall r, j | 0 <= r < |q.indices| && 0 <= j < |q.indices[r]|
        ensures q.indices[r][j] >= 0 || WORD % |tables| == 0
      {
        var d, i := EveryKeyArrives(q, r, j);
        RowIsThereExactly(q, tables, assignment, d, i);
      }
    }
    if forall r, j :: 0 <= r < |q.indices| && 0 <= j < |q.indices[r]| ==> q.indices[r][j] >= 0 || WORD % |tables| == 0 {
      forall d, i | 0 <= d < |tables| && 0 <= i < |exchanged[d]| ensures exchanged[d][i] in tables[d] {
        RowIsThereExactly(q, tables, assignment, d, i);
        var r, j := ComesFromRequest(q, d, i);
      }
    }
  }

  lemma AskedIsOk(q: Request, assignment: map<int, Row>)
    requires Asked(q, assignment)
    ensures q.Ok()
  {
  }

  lemma ComesFromRequest(q: Request, d: nat, i: nat) returns (r: nat, j: nat)
    requires q.Ok() && World(q.Keys(), q.Splits()) && d < |q.indices| && i < |AllToAll(q.Keys(), q.Splits())[d]|
    ensures r < |q.indices| && j < |q.indices[r]| && AllToAll(q.Keys(), q.Splits())[d][i] == q.indices[r][j]
  {
    hide World, AllToAll, Start;
    var p;
    r, p := ArrivesAtOwner(q.Keys(), q.Splits(), d, i);
    var s := q.selections[r];
    assert s.Of(q.indices[r], |q.indices|);
    j := s.order[p];
  }
}
